/** The Content value object: the optional text of a publication, at most
    5000 characters and free of the words "spam", "scam" and "hate" in any
    letter case. */
module Contents {
  import opened Js
  import opened Results
  import Moderation

  const MaxLength: nat := 5000
  const Denylist: seq<string> := ["spam", "scam", "hate"]

  /** The values a Content can wrap: `null`, `undefined` or a string. */
  type TextValue = v: Value | v.Null? || v.Undefined? || v.Str? witness Null

  /** The wrapped text as given. */
  datatype Content = Content(text: TextValue)

  datatype ContentError =
    | NotText        // neither null, undefined nor a string
    | TooLong        // more than MaxLength characters
    | Inappropriate  // mentions a denylisted word

  /** The values a Content can wrap. */
  predicate IsTextValue(v: Value) {
    v.Null? || v.Undefined? || v.Str?
  }

  /** What the constructor accepts. */
  ghost predicate Acceptable(v: Value) {
    || v.Null?
    || v.Undefined?
    || (v.Str? && |v.s| <= MaxLength && !Moderation.MentionsAny(Denylist, v.s))
  }

  /** `new Content(text)`. */
  function New(v: Value): (r: Result<Content, ContentError>)
    ensures r.Ok? <==> Acceptable(v)
    ensures r.Ok? ==> r.value.text == v
    ensures r == Err(NotText) <==> !IsTextValue(v)
    ensures r == Err(TooLong) <==> v.Str? && |v.s| > MaxLength
  {
    if v.Null? || v.Undefined? then Ok(Content(v))
    else if !v.Str? then Err(NotText)
    else if |v.s| > MaxLength then Err(TooLong)
    else if Moderation.Flags(Denylist, v.s) then Err(Inappropriate)
    else Ok(Content(v))
  }

  /** `isEmpty()`: no text, or text that is all whitespace. */
  function IsEmpty(c: Content): (r: bool)
    ensures r <==> !c.text.Str? || !HasVisibleChar(c.text.s)
  {
    !Truthy(c.text) || |Trim(c.text.s)| == 0
  }

  /** `getWordsCount()`: zero for an empty content, otherwise the number of
      pieces of the trimmed text split on whitespace runs. */
  function WordsCount(c: Content): (r: nat)
    ensures r == (if c.text.Str? then WordCount(c.text.s) else 0)
  {
    if IsEmpty(c) then
      if c.text.Str? then BlankHasNoWords(c.text.s, true); 0 else 0
    else
      SplitCountsWords(c.text.s);
      SplitCount(Trim(c.text.s))
  }

  /** `getCharactersCount()`: the text's length, 0 when there is none. */
  function CharactersCount(c: Content): (r: nat)
    ensures Acceptable(c.text) ==> r <= MaxLength
    ensures c.text.Str? ==> r == |c.text.s|
    ensures !c.text.Str? ==> r == 0
  {
    if Truthy(c.text) then |c.text.s| else 0
  }

  /** A content never has more words than characters. */
  lemma WordsAtMostCharacters(c: Content)
    ensures WordsCount(c) <= CharactersCount(c)
  {
    if c.text.Str? {
      WordsAtMostLength(c.text.s, true);
    }
  }

  /** The constructor ignores letter case: an upper-cased text is accepted
      exactly when the original is, and refused with the same error. */
  lemma NewIgnoresCase(s: string)
    ensures New(Str(Upper(s))).Ok? <==> New(Str(s)).Ok?
    ensures New(Str(s)).Err? ==> New(Str(Upper(s))) == New(Str(s))
  {
    Moderation.FlagsIgnoresUpper(Denylist, s);
  }

  /** `equals`: strict equality of the wrapped texts. */
  predicate Equals(a: Content, b: Content) {
    StrictEquals(a.text, b.text)
  }

  /** The denylist is matched regardless of letter case and anywhere in the text. */
  lemma DenylistIgnoresCase()
    ensures New(Str("Buy SPAM now")).Err?
    ensures New(Str("I Hate Mondays")) == Err(Inappropriate)
  {
    var t1 := "Buy SPAM now";
    assert Lower(t1)[4..8] == "spam";
    assert OccursAt(Denylist[0], Lower(t1), 4);
    var t2 := "I Hate Mondays";
    assert Lower(t2)[2..6] == "hate";
    assert OccursAt(Denylist[2], Lower(t2), 2);
  }
}
