/** The handful of JavaScript string operations the credential index relies
    on: `indexOf`, the literal-pattern `replace`, and the last element of
    `split("/")`. */
module Text {
  import opened Wrappers

  predicate IsPrefix(p: string, s: string) {
    |p| <= |s| && s[..|p|] == p
  }

  predicate IsSuffix(p: string, s: string) {
    |p| <= |s| && s[|s| - |p|..] == p
  }

  /** `pat` occurs in `s` starting at index `i`. */
  predicate OccursAt(pat: string, s: string, i: int) {
    0 <= i && i + |pat| <= |s| && s[i..i + |pat|] == pat
  }

  /** `s.indexOf(pat, k)`: the first occurrence of `pat` at or after `k`. */
  function IndexOfFrom(s: string, pat: string, k: nat): (r: Option<nat>)
    decreases |s| - k
    ensures r.Some? ==> k <= r.value && OccursAt(pat, s, r.value)
    ensures forall i :: k <= i && (r.None? || i < r.value) ==> !OccursAt(pat, s, i)
  {
    if k + |pat| > |s| then None
    else if s[k..k + |pat|] == pat then Some(k)
    else IndexOfFrom(s, pat, k + 1)
  }

  /** `s.indexOf(pat)`, with `None` for JavaScript's -1. */
  function IndexOf(s: string, pat: string): (r: Option<nat>)
    ensures r.Some? ==> OccursAt(pat, s, r.value)
    ensures r.Some? ==> forall i :: 0 <= i < r.value ==> !OccursAt(pat, s, i)
    ensures r.None? ==> forall i :: !OccursAt(pat, s, i)
  {
    IndexOfFrom(s, pat, 0)
  }

  /** A regular expression made of plain characters matches `s` exactly
      when it occurs in `s` as a substring. */
  predicate Contains(s: string, pat: string) {
    IndexOf(s, pat).Some?
  }

  lemma ContainsMeansOccurs(s: string, pat: string)
    ensures Contains(s, pat) <==> exists i :: OccursAt(pat, s, i)
  {
  }

  /** `s.replace(pat, rep)` with a string pattern: only the first
      occurrence of `pat` is replaced; without one, `s` comes back. */
  function ReplaceFirst(s: string, pat: string, rep: string): string {
    match IndexOf(s, pat)
    case None => s
    case Some(i) => s[..i] + rep + s[i + |pat|..]
  }

  /** `ReplaceFirst` leaves a text without the pattern alone, and otherwise
      splices `rep` over the pattern's earliest occurrence. */
  lemma ReplaceFirstSpec(s: string, pat: string, rep: string)
    ensures !Contains(s, pat) ==> ReplaceFirst(s, pat, rep) == s
    ensures Contains(s, pat) ==>
      exists i :: && OccursAt(pat, s, i)
                  && (forall j :: 0 <= j < i ==> !OccursAt(pat, s, j))
                  && ReplaceFirst(s, pat, rep) == s[..i] + rep + s[i + |pat|..]
  {
  }

  /** `p.split("/").slice(-1)[0]`: the text after the last '/', or all of
      `p` when it has none. */
  function LastSegment(p: string): (r: string)
    ensures '/' !in r
    ensures IsSuffix(r, p)
    ensures |r| < |p| ==> p[|p| - |r| - 1] == '/'
  {
    if |p| == 0 then ""
    else if p[|p| - 1] == '/' then ""
    else LastSegment(p[..|p| - 1]) + [p[|p| - 1]]
  }

  /** Whatever comes before a '/'-free final segment, `LastSegment` gives
      that segment back. */
  lemma {:induction false} LastSegmentAfterSlash(q: string, f: string)
    requires '/' !in f
    requires q == [] || q[|q| - 1] == '/'
    ensures LastSegment(q + f) == f
  {
    if f != [] {
      var f' := f[..|f| - 1];
      assert '/' !in f' by { assert forall c :: c in f' ==> c in f; }
      assert (q + f)[..|q + f| - 1] == q + f';
      LastSegmentAfterSlash(q, f');
      assert f == f' + [f[|f| - 1]];
    }
  }

  /** A pattern whose first character does not recur in it cannot begin
      inside `x` and end inside a copy of itself placed right after `x`: in
      `x + pat + y` the first occurrence is that copy whenever `x` does not
      contain the pattern, and replacing it by nothing leaves `x + y`. */
  lemma FirstOccurrenceAfter(x: string, pat: string, y: string)
    requires |pat| > 0
    requires forall k :: 0 < k < |pat| ==> pat[k] != pat[0]
    requires !Contains(x, pat)
    ensures IndexOf(x + pat + y, pat) == Some(|x|)
    ensures ReplaceFirst(x + pat + y, pat, "") == x + y
  {
    var s := x + pat + y;
    assert OccursAt(pat, s, |x|) by { assert s[|x|..|x| + |pat|] == pat; }
    forall i | 0 <= i < |x|
      ensures !OccursAt(pat, s, i)
    {
      if i + |pat| <= |x| {
        assert s[i..i + |pat|] == x[i..i + |pat|];
        assert !OccursAt(pat, x, i);
      } else {
        var k := |x| - i;
        assert s[i + k] == pat[0] != pat[k];
      }
    }
    assert s[..|x|] == x && s[|x| + |pat|..] == y;
  }
}
