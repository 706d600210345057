/** The `Range` header test of the download handler: the first match of the
    unanchored pattern `bytes=(\d+)-(\d*)`, computed by a small scanner and
    related to a declarative description of what the pattern matches. */
module RangeHeader {
  import opened Optional
  import opened Strings

  const BytesPrefix: string := "bytes="

  /** The two captured groups: the start digits and the (possibly empty)
      end digits. */
  datatype RangeMatch = RangeMatch(first: string, last: string) {
    predicate Valid() {
      0 < |first| && AllDigits(first) && AllDigits(last)
    }

    /** The text the whole pattern consumed. */
    function Text(): string {
      BytesPrefix + first + "-" + last
    }
  }

  /** The pattern matches at position `p` with groups `m`: the text at `p`
      is `bytes=`, one or more digits, `-` and digits, and the greedy `\d*`
      has taken every digit there is. `\d+` needs no such condition: it is
      followed by `-`, which is not a digit. */
  ghost predicate MatchesAt(s: string, p: nat, m: RangeMatch) {
    var k := p + |m.Text()|;
    && m.Valid()
    && k <= |s|
    && s[p..k] == m.Text()
    && (k == |s| || !IsDigit(s[k]))
  }

  /** The pattern matches nowhere at position `q`. */
  ghost predicate NoMatchAt(s: string, q: nat) {
    forall m: RangeMatch :: !MatchesAt(s, q, m)
  }

  /** `m` is what `s.match(/bytes=(\d+)-(\d*)/)` returns: the match that
      starts furthest to the left. */
  ghost predicate LeftmostMatch(s: string, p: nat, m: RangeMatch) {
    && MatchesAt(s, p, m)
    && forall q: nat :: q < p ==> NoMatchAt(s, q)
  }

  /** The end of the run of digits that starts at `i`. */
  function DigitRunEnd(s: string, i: nat): (j: nat)
    requires i <= |s|
    ensures i <= j <= |s|
    ensures AllDigits(s[i..j])
    ensures j == |s| || !IsDigit(s[j])
    decreases |s| - i
  {
    if i < |s| && IsDigit(s[i]) then DigitRunEnd(s, i + 1) else i
  }

  /** A run of digits that cannot be extended is the one `DigitRunEnd` finds. */
  lemma DigitRunEndUnique(s: string, i: nat, j: nat)
    requires i <= j <= |s|
    requires AllDigits(s[i..j])
    requires j == |s| || !IsDigit(s[j])
    ensures DigitRunEnd(s, i) == j
  {
  }

  /** The text from `p` to `k` is the prefix, the first group, the dash at
      `j` and the second group, laid end to end. */
  lemma SplitAroundDash(s: string, p: nat, a: nat, j: nat, k: nat)
    requires p <= a <= j < k <= |s|
    ensures s[p..k] == s[p..a] + s[a..j] + [s[j]] + s[j + 1..k]
  {
    var t := s[p..a] + s[a..j] + [s[j]] + s[j + 1..k];
    forall x | 0 <= x < k - p ensures s[p..k][x] == t[x] {
      if x < a - p {
        assert t[x] == s[p..a][x] == s[p + x];
      } else if x < j - p {
        assert t[x] == s[a..j][x - (a - p)] == s[p + x];
      } else if x == j - p {
        assert t[x] == s[j];
      } else {
        assert t[x] == s[j + 1..k][x - (j + 1 - p)] == s[p + x];
      }
    }
  }

  /** Try the pattern at position `p` only. */
  function MatchAt(s: string, p: nat): (r: Option<RangeMatch>)
    requires p <= |s|
    ensures r.Some? ==> MatchesAt(s, p, r.value)
  {
    var a := p + |BytesPrefix|;
    if a <= |s| && s[p..a] == BytesPrefix then
      var j := DigitRunEnd(s, a);
      if a < j && j < |s| && s[j] == '-' then
        var k := DigitRunEnd(s, j + 1);
        var m := RangeMatch(s[a..j], s[j + 1..k]);
        SplitAroundDash(s, p, a, j, k);
        Some(m)
      else None
    else None
  }

  /** The matched text splits back into its four parts. */
  lemma TextParts(m: RangeMatch)
    ensures var t := m.Text();
            var f := |BytesPrefix| + |m.first|;
            && |t| == f + 1 + |m.last|
            && t[..|BytesPrefix|] == BytesPrefix
            && t[|BytesPrefix|..f] == m.first
            && t[f] == '-'
            && t[f + 1..] == m.last
  {
  }

  lemma SliceOfSlice(s: string, p: nat, k: nat, i: nat, j: nat)
    requires p <= k <= |s| && i <= j <= k - p
    ensures s[p..k][i..j] == s[p + i..p + j]
  {
    assert forall x :: 0 <= x < j - i ==> s[p..k][i..j][x] == s[p + i + x];
  }

  /** A match at `p` lays its parts out at fixed offsets from `p`. */
  lemma MatchesAtParts(s: string, p: nat, m: RangeMatch)
    requires MatchesAt(s, p, m)
    ensures var a := p + |BytesPrefix|;
            var j := a + |m.first|;
            var k := j + 1 + |m.last|;
            && k <= |s|
            && s[p..a] == BytesPrefix
            && s[a..j] == m.first
            && s[j] == '-'
            && s[j + 1..k] == m.last
  {
    var a := p + |BytesPrefix|;
    var j := a + |m.first|;
    var k := j + 1 + |m.last|;
    TextParts(m);
    var u := s[p..k];
    assert u == m.Text();
    SliceOfSlice(s, p, k, 0, |BytesPrefix|);
    SliceOfSlice(s, p, k, |BytesPrefix|, |BytesPrefix| + |m.first|);
    SliceOfSlice(s, p, k, |BytesPrefix| + |m.first| + 1, k - p);
    assert s[j] == u[|BytesPrefix| + |m.first|];
  }

  /** Whenever the pattern matches at `p`, `MatchAt` finds that match. */
  lemma MatchAtComplete(s: string, p: nat, m: RangeMatch)
    requires p <= |s|
    requires MatchesAt(s, p, m)
    ensures MatchAt(s, p) == Some(m)
  {
    var a := p + |BytesPrefix|;
    var j := a + |m.first|;
    var k := j + 1 + |m.last|;
    MatchesAtParts(s, p, m);
    DigitRunEndUnique(s, a, j);
    DigitRunEndUnique(s, j + 1, k);
  }

  /** `MatchAt` finds nothing at `p` exactly when the pattern matches
      nowhere at `p`. */
  lemma MatchAtNoneIff(s: string, p: nat)
    requires p <= |s|
    ensures MatchAt(s, p).None? <==> NoMatchAt(s, p)
  {
    forall m: RangeMatch | MatchesAt(s, p, m)
      ensures MatchAt(s, p).Some?
    {
      MatchAtComplete(s, p, m);
    }
  }

  /** The leftmost match at or after position `p`, with its position. */
  function SearchFrom(s: string, p: nat): (r: Option<(nat, RangeMatch)>)
    requires p <= |s|
    ensures r.Some? ==> p <= r.value.0 <= |s| && MatchesAt(s, r.value.0, r.value.1)
    decreases |s| - p
  {
    match MatchAt(s, p)
    case Some(m) => Some((p, m))
    case None => if p == |s| then None else SearchFrom(s, p + 1)
  }

  /** `range.match(/bytes=(\d+)-(\d*)/)`. */
  function FindRange(s: string): (r: Option<RangeMatch>)
    ensures r.Some? ==> r.value.Valid()
  {
    match SearchFrom(s, 0)
    case None => None
    case Some((_, m)) => Some(m)
  }

  lemma {:induction false} SearchFromIsLeftmost(s: string, p: nat)
    requires p <= |s|
    ensures SearchFrom(s, p).Some? ==>
      forall q: nat :: p <= q < SearchFrom(s, p).value.0 ==> NoMatchAt(s, q)
    ensures SearchFrom(s, p).None? ==>
      forall q: nat :: p <= q ==> NoMatchAt(s, q)
    decreases |s| - p
  {
    MatchAtNoneIff(s, p);
    if MatchAt(s, p).None? {
      if p < |s| {
        SearchFromIsLeftmost(s, p + 1);
      } else {
        forall q: nat | p < q ensures NoMatchAt(s, q) {
          forall m: RangeMatch ensures !MatchesAt(s, q, m) {
          }
        }
      }
    }
  }

  /** The pattern matches at most one way at a given position. */
  lemma MatchesAtUnique(s: string, p: nat, m1: RangeMatch, m2: RangeMatch)
    requires p <= |s|
    requires MatchesAt(s, p, m1) && MatchesAt(s, p, m2)
    ensures m1 == m2
  {
    MatchAtComplete(s, p, m1);
    MatchAtComplete(s, p, m2);
  }

  /** Two leftmost matches start at the same place and capture the same groups. */
  lemma LeftmostMatchUnique(s: string, p: nat, m: RangeMatch, q: nat, m': RangeMatch)
    requires LeftmostMatch(s, p, m) && LeftmostMatch(s, q, m')
    ensures p == q && m == m'
  {
    assert !NoMatchAt(s, p);
    assert !NoMatchAt(s, q);
    MatchesAtUnique(s, p, m, m');
  }

  /** `FindRange` returns `m` exactly when `m` is the leftmost match. */
  lemma FindRangeSpec(s: string, m: RangeMatch)
    ensures FindRange(s) == Some(m) <==> exists p: nat :: LeftmostMatch(s, p, m)
  {
    SearchFromIsLeftmost(s, 0);
    var r := SearchFrom(s, 0);
    if r.Some? {
      assert LeftmostMatch(s, r.value.0, r.value.1);
    }
    if exists p: nat :: LeftmostMatch(s, p, m) {
      var p: nat :| LeftmostMatch(s, p, m);
      assert !NoMatchAt(s, p);
      assert LeftmostMatch(s, r.value.0, r.value.1);
      LeftmostMatchUnique(s, p, m, r.value.0, r.value.1);
    }
  }

  /** `FindRange` finds nothing exactly when the pattern matches nowhere. */
  lemma FindRangeNoneSpec(s: string)
    ensures FindRange(s).None? <==> forall p: nat :: NoMatchAt(s, p)
  {
    SearchFromIsLeftmost(s, 0);
    var r := SearchFrom(s, 0);
    if r.Some? {
      assert !NoMatchAt(s, r.value.0);
    }
  }

}
