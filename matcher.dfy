/**
 * The token matcher shared by both phases of the extraction automaton:
 * `delimPos` counts how many bytes of the token have been matched so far.
 * On a mismatch the match restarts at 1 when the byte is the token's first
 * byte and at 0 otherwise; a full KMP failure table is not used.
 */
module Matcher {
  import opened Wrappers
  import opened Bytes

  /**
   * The token's first byte appears nowhere else in it. Both XMP tokens begin
   * with `<` and contain no other `<`; this is what makes the simplified
   * restart rule exact.
   */
  predicate LeadUnique(t: seq<byte>)
  {
    |t| >= 2 && forall k :: 1 <= k < |t| ==> t[k] != t[0]
  }

  /** One matcher step: the new match count after reading byte `c`. */
  function MatchStep(t: seq<byte>, k: nat, c: byte): (k': nat)
    requires k < |t|
    ensures k' <= k + 1
    ensures k' == k + 1 <==> c == t[k]
    ensures k' == 1 <== c != t[k] && c == t[0]
    ensures k' == 0 <==> c != t[k] && c != t[0]
  {
    if c == t[k] then k + 1
    else if c == t[0] then 1
    else 0
  }

  /**
   * What the count means after reading `p`: `t` does not occur in `p`, and
   * `k` is the length of the longest prefix of `t` that `p` ends with.
   */
  ghost predicate MatchInv(t: seq<byte>, p: seq<byte>, k: nat)
  {
    && k < |t|
    && EndsWith(p, t[..k])
    && (forall m :: k < m <= |t| ==> !EndsWith(p, t[..m]))
    && Absent(p, t)
  }

  /** Before any byte is read the count is 0. */
  lemma MatchInvEmpty(t: seq<byte>)
    requires |t| >= 1
    ensures MatchInv(t, [], 0)
  {
    forall m | 0 < m <= |t|
      ensures !EndsWith([], t[..m])
    {
    }
  }

  /** Reading one more byte extends a suffix match by exactly that byte. */
  lemma EndsWithSnoc(p: seq<byte>, c: byte, t: seq<byte>, m: nat)
    requires 1 <= m <= |t|
    ensures EndsWith(p + [c], t[..m]) <==> EndsWith(p, t[..m - 1]) && c == t[m - 1]
  {
    var q := p + [c];
    if EndsWith(q, t[..m]) {
      assert q[|q| - m..|q| - 1] == p[|p| - (m - 1)..];
      assert q[|q| - m..][..m - 1] == t[..m - 1];
      assert q[|q| - 1] == t[m - 1];
    }
    if EndsWith(p, t[..m - 1]) && c == t[m - 1] {
      assert q[|q| - m..] == p[|p| - (m - 1)..] + [c];
      assert t[..m] == t[..m - 1] + [t[m - 1]];
    }
  }

  /**
   * When two different non-empty prefixes of `t` both end the input, the
   * token's first byte reappears inside the token, at the offset between them.
   */
  lemma SuffixMatchOverlap(t: seq<byte>, p: seq<byte>, a: nat, b: nat)
    requires 1 <= a < b <= |t|
    requires EndsWith(p, t[..a]) && EndsWith(p, t[..b])
    ensures t[b - a] == t[0]
  {
    var n := |p|;
    assert p[n - a..][0] == t[..a][0] == t[0];
    assert p[n - b..][b - a] == t[..b][b - a] == t[b - a];
    assert p[n - a] == p[n - b..][b - a];
  }

  /** An occurrence of `t` that `p + [c]` ends with is its only one, given none in `p`. */
  lemma FirstOccurrenceAtEnd(p: seq<byte>, c: byte, t: seq<byte>)
    requires |t| >= 1 && Absent(p, t) && EndsWith(p + [c], t)
    ensures Find(p + [c], t) == Some(|p| + 1 - |t|)
  {
    var q := p + [c];
    var i := |q| - |t|;
    assert q[i..i + |t|] == q[i..];
    forall j: nat | j < i
      ensures !OccursAt(q, t, j)
    {
      OccursAtAppend(p, [c], t, j);
    }
    FindIs(q, t, i);
  }

  /** `p + [c]` has no occurrence of `t` when `p` has none and it does not end with `t`. */
  lemma AbsentSnoc(p: seq<byte>, c: byte, t: seq<byte>)
    requires |t| >= 1 && Absent(p, t) && !EndsWith(p + [c], t)
    ensures Absent(p + [c], t)
  {
    var q := p + [c];
    forall i: nat
      ensures !OccursAt(q, t, i)
    {
      if i + |t| <= |p| {
        OccursAtAppend(p, [c], t, i);
      } else if i + |t| == |q| {
        assert q[i..i + |t|] == q[|q| - |t|..];
      }
    }
  }

  /**
   * The restart rule is exact for a LeadUnique token: after a step the count
   * either reaches |t|, and then the byte just read completes the first
   * occurrence of `t`, or it again describes the longest partial match.
   */
  lemma {:induction false} MatchStepCorrect(t: seq<byte>, p: seq<byte>, k: nat, c: byte)
    requires LeadUnique(t) && MatchInv(t, p, k)
    ensures MatchStep(t, k, c) == |t| ==> Find(p + [c], t) == Some(|p| + 1 - |t|)
    ensures MatchStep(t, k, c) < |t| ==> MatchInv(t, p + [c], MatchStep(t, k, c))
  {
    var q := p + [c];
    var k' := MatchStep(t, k, c);
    if k' >= 1 {
      EndsWithSnoc(p, c, t, k');
    }
    forall m | k' < m <= |t|
      ensures !EndsWith(q, t[..m])
    {
      EndsWithSnoc(p, c, t, m);
      if 1 <= m - 1 < k && EndsWith(p, t[..m - 1]) {
        // a second partial match would put t[0] at an inner position of t
        SuffixMatchOverlap(t, p, m - 1, k);
      }
    }
    if k' == |t| {
      assert t[..k'] == t;
      FirstOccurrenceAtEnd(p, c, t);
    } else {
      assert t[..|t|] == t;
      AbsentSnoc(p, c, t);
    }
  }
}
