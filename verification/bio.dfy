/** The Bio value object: an optional profile text of at most 500
    characters, free of the words "spam" and "scam" in any letter case. */
module Bios {
  import opened Js
  import opened Results
  import Moderation

  const MaxLength: nat := 500
  const Denylist: seq<string> := ["spam", "scam"]

  /** The values a Bio can wrap: `null`, `undefined` or a string. */
  type TextValue = v: Value | v.Null? || v.Undefined? || v.Str? witness Null

  /** The wrapped value as given. */
  datatype Bio = Bio(value: TextValue)

  datatype BioError =
    | NotText        // neither null, undefined nor a string
    | TooLong        // more than MaxLength characters
    | Inappropriate  // mentions a denylisted word

  predicate IsTextValue(v: Value) {
    v.Null? || v.Undefined? || v.Str?
  }

  /** What the constructor accepts. */
  ghost predicate Acceptable(v: Value) {
    || v.Null?
    || v.Undefined?
    || (v.Str? && |v.s| <= MaxLength && !Moderation.MentionsAny(Denylist, v.s))
  }

  /** `new Bio(value)`. */
  function New(v: Value): (r: Result<Bio, BioError>)
    ensures r.Ok? <==> Acceptable(v)
    ensures r.Ok? ==> r.value.value == v
    ensures r == Err(NotText) <==> !IsTextValue(v)
    ensures r == Err(TooLong) <==> v.Str? && |v.s| > MaxLength
  {
    if v.Null? || v.Undefined? then Ok(Bio(v))
    else if !v.Str? then Err(NotText)
    else if |v.s| > MaxLength then Err(TooLong)
    else if Moderation.Flags(Denylist, v.s) then Err(Inappropriate)
    else Ok(Bio(v))
  }

  /** `isEmpty()`: no value, or a value that is all whitespace. */
  function IsEmpty(b: Bio): (r: bool)
    ensures r <==> !b.value.Str? || !HasVisibleChar(b.value.s)
  {
    !Truthy(b.value) || |Trim(b.value.s)| == 0
  }

  /** The constructor ignores letter case: an upper-cased text is accepted
      exactly when the original is, and refused with the same error. */
  lemma NewIgnoresCase(s: string)
    ensures New(Str(Upper(s))).Ok? <==> New(Str(s)).Ok?
    ensures New(Str(s)).Err? ==> New(Str(Upper(s))) == New(Str(s))
  {
    Moderation.FlagsIgnoresUpper(Denylist, s);
  }

  /** `equals`: strict equality of the wrapped values. */
  predicate Equals(a: Bio, b: Bio) {
    StrictEquals(a.value, b.value)
  }

  /** Unlike a publication's content, a bio may mention "hate"; "scam" is
      refused in any letter case. */
  lemma DenylistOmitsHate()
    ensures New(Str("I hate rain")).Ok?
    ensures New(Str("Not a Scam")) == Err(Inappropriate)
  {
    var t1 := "I hate rain";
    forall i | 0 <= i < |Lower(t1)| ensures Lower(t1)[i] != 's' {
      assert t1[i] != 's' && t1[i] != 'S';
    }
    AbsentFirstLetter("spam", Lower(t1));
    AbsentFirstLetter("scam", Lower(t1));
    var t2 := "Not a Scam";
    assert Lower(t2)[6..10] == "scam";
    assert OccursAt(Denylist[1], Lower(t2), 6);
  }

  /** Every word a bio refuses is refused by a publication's content too. */
  lemma BioDenylistWithinContentDenylist(text: string)
    ensures Moderation.Flags(Denylist, text) ==> Moderation.Flags(["spam", "scam", "hate"], text)
  {
    Moderation.LargerListFlagsMore(Denylist, ["spam", "scam", "hate"], text);
  }

  /** Two bios built from equal strings are equal. */
  lemma EqualsIsValueEquality(a: Bio, b: Bio)
    requires a.value.Str? && b.value.Str?
    ensures Equals(a, b) <==> a.value.s == b.value.s
  {
  }
}
