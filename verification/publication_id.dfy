/** The PublicationId value object: a non-empty string in the canonical
    8-4-4-4-12 hexadecimal UUID layout, compared by value. */
module PublicationIds {
  import opened Js
  import opened Results

  datatype PublicationId = PublicationId(value: string)

  datatype IdError =
    | NotAString   // empty or not a string
    | NotAUuid     // fails the UUID pattern

  /** `[0-9a-f]` under the case-insensitive flag. */
  predicate IsHexDigit(c: char) {
    ('0' <= c <= '9') || ('a' <= c <= 'f') || ('A' <= c <= 'F')
  }

  predicate AllHex(s: string) {
    forall i :: 0 <= i < |s| ==> IsHexDigit(s[i])
  }

  predicate IsHyphenPosition(i: int) {
    i == 8 || i == 13 || i == 18 || i == 23
  }

  /** The UUID layout stated position by position: 36 characters, hyphens
      at positions 8, 13, 18 and 23 and hexadecimal digits everywhere else. */
  ghost predicate IsUuid(s: string) {
    && |s| == 36
    && forall i :: 0 <= i < |s| ==> if IsHyphenPosition(i) then s[i] == '-' else IsHexDigit(s[i])
  }

  /** The group lengths of `^[0-9a-f]{8}-[0-9a-f]{4}-[0-9a-f]{4}-[0-9a-f]{4}-[0-9a-f]{12}$`. */
  const UuidGroups: seq<nat> := [8, 4, 4, 4, 12]

  /** The anchored pattern read group by group: runs of hexadecimal digits
      of the given lengths, separated by single hyphens. */
  function MatchGroups(s: string, groups: seq<nat>): bool
    decreases |groups|
  {
    if |groups| == 0 then s == []
    else if |groups| == 1 then |s| == groups[0] && AllHex(s)
    else
      && |s| > groups[0]
      && AllHex(s[..groups[0]])
      && s[groups[0]] == '-'
      && MatchGroups(s[groups[0] + 1..], groups[1..])
  }

  /** A hexadecimal run of length `n` at offset `k` of `s`. */
  ghost predicate HexAt(s: string, k: nat, n: nat)
    requires k + n <= |s|
  {
    forall i :: k <= i < k + n ==> IsHexDigit(s[i])
  }

  lemma HexRun(s: string, k: nat, n: nat)
    requires k + n <= |s|
    ensures AllHex(s[k..k + n]) <==> HexAt(s, k, n)
  {
    if AllHex(s[k..k + n]) {
      forall i | k <= i < k + n ensures IsHexDigit(s[i]) {
        assert s[i] == s[k..k + n][i - k];
      }
    }
  }

  /** The group-by-group matcher accepts exactly the positional UUID layout. */
  lemma MatchGroupsIsUuid(s: string)
    ensures MatchGroups(s, UuidGroups) <==> IsUuid(s)
  {
    assert UuidGroups[1..] == [4, 4, 4, 12];
    assert UuidGroups[1..][1..] == [4, 4, 12];
    assert UuidGroups[1..][1..][1..] == [4, 12];
    assert UuidGroups[1..][1..][1..][1..] == [12];
    if |s| == 36 {
      var s1 := s[9..];
      var s2 := s1[5..];
      var s3 := s2[5..];
      var s4 := s3[5..];
      assert s2 == s[14..] && s3 == s[19..] && s4 == s[24..];
      assert s[..8] == s[0..0 + 8];
      assert s1[..4] == s[9..9 + 4];
      assert s2[..4] == s[14..14 + 4];
      assert s3[..4] == s[19..19 + 4];
      assert s4 == s[24..24 + 12];
      HexRun(s, 0, 8);
      HexRun(s, 9, 4);
      assert s1[4] == s[13];
      HexRun(s, 14, 4);
      assert s2[4] == s[18];
      HexRun(s, 19, 4);
      assert s3[4] == s[23];
      HexRun(s, 24, 12);
      var m := MatchGroups(s, UuidGroups);
      assert m <==> (
        && HexAt(s, 0, 8) && s[8] == '-' && HexAt(s, 9, 4) && s[13] == '-'
        && HexAt(s, 14, 4) && s[18] == '-' && HexAt(s, 19, 4) && s[23] == '-' && HexAt(s, 24, 12));
    }
  }

  /** `new PublicationId(value)`. */
  function New(v: Value): (r: Result<PublicationId, IdError>)
    ensures r.Ok? <==> IsNonEmptyString(v) && IsUuid(v.s)
    ensures r.Ok? ==> r.value.value == v.s
    ensures r == Err(NotAString) <==> !IsNonEmptyString(v)
  {
    if !IsNonEmptyString(v) then Err(NotAString)
    else
      MatchGroupsIsUuid(v.s);
      if !MatchGroups(v.s, UuidGroups) then Err(NotAUuid)
      else Ok(PublicationId(v.s))
  }

  /** Every constructed identifier is 36 characters of UUID layout. */
  lemma ConstructedIdIsWellFormed(v: Value)
    requires New(v).Ok?
    ensures |New(v).value.value| == 36
    ensures IsUuid(New(v).value.value)
  {
  }

  /** `equals`: value equality of the wrapped strings. */
  predicate Equals(a: PublicationId, b: PublicationId) {
    a.value == b.value
  }

  /** `toString` returns the wrapped value. */
  function ToString(id: PublicationId): string {
    id.value
  }

  /** Two ids built from the same string are equal; a round trip through
      `toString` rebuilds an equal id. */
  lemma ToStringRoundTrip(v: Value)
    requires New(v).Ok?
    ensures New(Str(ToString(New(v).value))) == New(v)
    ensures Equals(New(Str(ToString(New(v).value))).value, New(v).value)
  {
  }
}
