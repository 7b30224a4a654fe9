/** The case-insensitive denylist check shared by the Content and Bio value
    objects: `words.some(w => text.toLowerCase().includes(w))`. */
module Moderation {
  import opened Js

  /** Some denylisted word occurs in the lower-cased text. */
  ghost predicate MentionsAny(words: seq<string>, text: string) {
    exists k :: 0 <= k < |words| && Occurs(words[k], Lower(text))
  }

  /** The check as the source performs it: try each word in turn. */
  function Flags(words: seq<string>, text: string): (r: bool)
    ensures r <==> MentionsAny(words, text)
    decreases |words|
  {
    if words == [] then false
    else
      IncludesIff(Lower(text), words[0]);
      var rest := Flags(words[1..], text);
      assert MentionsAny(words[1..], text) ==> MentionsAny(words, text) by {
        if MentionsAny(words[1..], text) {
          var k :| 0 <= k < |words[1..]| && Occurs(words[1..][k], Lower(text));
          assert words[k + 1] == words[1..][k];
        }
      }
      assert MentionsAny(words, text) && !Occurs(words[0], Lower(text)) ==> MentionsAny(words[1..], text) by {
        if MentionsAny(words, text) && !Occurs(words[0], Lower(text)) {
          var k :| 0 <= k < |words| && Occurs(words[k], Lower(text));
          assert k != 0 && words[1..][k - 1] == words[k];
        }
      }
      Includes(Lower(text), words[0]) || rest
  }

  /** A denylist that contains every word of another flags at least as much. */
  lemma LargerListFlagsMore(small: seq<string>, large: seq<string>, text: string)
    requires forall k :: 0 <= k < |small| ==> small[k] in large
    ensures Flags(small, text) ==> Flags(large, text)
  {
    if Flags(small, text) {
      var k :| 0 <= k < |small| && Occurs(small[k], Lower(text));
      var j :| 0 <= j < |large| && large[j] == small[k];
    }
  }

  /** The verdict depends only on the lower-cased text: two texts that agree
      once lower-cased are flagged alike. */
  lemma FlagsIgnoresCase(words: seq<string>, s: string, t: string)
    requires Lower(s) == Lower(t)
    ensures Flags(words, s) == Flags(words, t)
  {
  }

  /** Upper-casing a text never changes whether it is flagged. */
  lemma FlagsIgnoresUpper(words: seq<string>, text: string)
    ensures Flags(words, Upper(text)) == Flags(words, text)
  {
    LowerOfUpper(text);
    FlagsIgnoresCase(words, Upper(text), text);
  }
}
