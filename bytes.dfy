/**
 * Byte strings and the substring search used to specify the extraction
 * automaton. PHP strings are byte strings, so every stream, chunk and buffer
 * here is a `seq<byte>`.
 */
module Bytes {
  import opened Wrappers

  newtype byte = b: int | 0 <= b < 256

  /** `t` occurs in `s` starting at index `i`. */
  predicate OccursAt(s: seq<byte>, t: seq<byte>, i: nat)
  {
    i + |t| <= |s| && s[i..i + |t|] == t
  }

  /** `s` ends with `w`. */
  predicate EndsWith(s: seq<byte>, w: seq<byte>)
  {
    |w| <= |s| && s[|s| - |w|..] == w
  }

  /** A slice cut in two at `b` gives the two slices on either side of `b`. */
  lemma SliceSplit(s: seq<byte>, a: nat, b: nat, c: nat)
    requires a <= b <= c <= |s|
    ensures s[a..c][..b - a] == s[a..b]
    ensures s[a..c][b - a..] == s[b..c]
  {
  }

  /** `t` occurs nowhere in `s`. */
  ghost predicate Absent(s: seq<byte>, t: seq<byte>)
  {
    forall i: nat :: !OccursAt(s, t, i)
  }

  /**
   * The reference definition of "the first occurrence": the least index at
   * or after `from` where `t` occurs in `s`, or None when there is none.
   */
  function FindFrom(s: seq<byte>, t: seq<byte>, from: nat): (r: Option<nat>)
    decreases |s| - from
    ensures r.Some? ==> from <= r.value && OccursAt(s, t, r.value)
    ensures r.Some? ==> forall i: nat :: from <= i < r.value ==> !OccursAt(s, t, i)
    ensures r.None? <==> forall i: nat :: from <= i ==> !OccursAt(s, t, i)
  {
    if from + |t| > |s| then None
    else if OccursAt(s, t, from) then Some(from)
    else FindFrom(s, t, from + 1)
  }

  /** The first occurrence of `t` in `s`. */
  function Find(s: seq<byte>, t: seq<byte>): Option<nat>
  {
    FindFrom(s, t, 0)
  }

  /** An occurrence with none before it is the one Find reports. */
  lemma FindIs(s: seq<byte>, t: seq<byte>, i: nat)
    requires OccursAt(s, t, i)
    requires forall j: nat :: j < i ==> !OccursAt(s, t, j)
    ensures Find(s, t) == Some(i)
  {
  }

  /** A slice that lies inside `p` is unaffected by appending to `p`. */
  lemma OccursAtAppend(p: seq<byte>, q: seq<byte>, t: seq<byte>, i: nat)
    requires i + |t| <= |p|
    ensures OccursAt(p + q, t, i) <==> OccursAt(p, t, i)
  {
    assert (p + q)[i..i + |t|] == p[i..i + |t|];
  }

  /** The first occurrence in a prefix stays the first occurrence when more bytes follow. */
  lemma {:induction false} FindAppend(p: seq<byte>, q: seq<byte>, t: seq<byte>)
    requires Find(p, t).Some?
    ensures Find(p + q, t) == Find(p, t)
  {
    var i := Find(p, t).value;
    OccursAtAppend(p, q, t, i);
    forall j: nat | j < i
      ensures !OccursAt(p + q, t, j)
    {
      OccursAtAppend(p, q, t, j);
    }
    FindIs(p + q, t, i);
  }

  /** Concatenation of the chunks read from a stream. */
  function Flatten(chunks: seq<seq<byte>>): (r: seq<byte>)
  {
    if chunks == [] then [] else chunks[0] + Flatten(chunks[1..])
  }

  /** Flattening distributes over concatenation of chunk lists. */
  lemma {:induction false} FlattenAppend(a: seq<seq<byte>>, b: seq<seq<byte>>)
    ensures Flatten(a + b) == Flatten(a) + Flatten(b)
  {
    if a == [] {
      assert a + b == b;
    } else {
      assert (a + b)[1..] == a[1..] + b;
      FlattenAppend(a[1..], b);
    }
  }

  /** The bytes of chunk `i` sit between those of the chunks before and after it. */
  lemma {:induction false} FlattenSplit(chunks: seq<seq<byte>>, i: nat)
    requires i < |chunks|
    ensures Flatten(chunks[..i + 1]) == Flatten(chunks[..i]) + chunks[i]
    ensures Flatten(chunks) == Flatten(chunks[..i]) + chunks[i] + Flatten(chunks[i + 1..])
  {
    assert chunks[..i + 1] == chunks[..i] + [chunks[i]];
    FlattenAppend(chunks[..i], [chunks[i]]);
    assert Flatten([chunks[i]]) == chunks[i] + Flatten([]);
    assert chunks == chunks[..i + 1] + chunks[i + 1..];
    FlattenAppend(chunks[..i + 1], chunks[i + 1..]);
  }

  /** The bytes read so far when the loop over the chunks is at byte `j` of chunk `i`. */
  function ReadSoFar(chunks: seq<seq<byte>>, i: nat, j: nat): seq<byte>
    requires i < |chunks| && j <= |chunks[i]|
  {
    Flatten(chunks[..i]) + chunks[i][..j]
  }

  /** A chunk's loop starts where the chunks before it end. */
  lemma ReadSoFarStart(chunks: seq<seq<byte>>, i: nat)
    requires i < |chunks|
    ensures ReadSoFar(chunks, i, 0) == Flatten(chunks[..i])
  {
    assert chunks[i][..0] == [];
  }

  /** Each pass of the inner loop consumes exactly the next byte. */
  lemma ReadSoFarSnoc(chunks: seq<seq<byte>>, i: nat, j: nat)
    requires i < |chunks| && j < |chunks[i]|
    ensures ReadSoFar(chunks, i, j + 1) == ReadSoFar(chunks, i, j) + [chunks[i][j]]
  {
    assert chunks[i][..j + 1] == chunks[i][..j] + [chunks[i][j]];
  }

  /** A chunk's loop ends where the next chunk's starts. */
  lemma ReadSoFarEnd(chunks: seq<seq<byte>>, i: nat)
    requires i < |chunks|
    ensures ReadSoFar(chunks, i, |chunks[i]|) == Flatten(chunks[..i + 1])
  {
    FlattenSplit(chunks, i);
    assert chunks[i][..|chunks[i]|] == chunks[i];
  }

  /** The bytes read so far are a prefix of the whole input, followed by the unread rest. */
  lemma ReadSoFarRest(chunks: seq<seq<byte>>, i: nat, j: nat)
    requires i < |chunks| && j <= |chunks[i]|
    ensures Flatten(chunks) == ReadSoFar(chunks, i, j) + (chunks[i][j..] + Flatten(chunks[i + 1..]))
  {
    FlattenSplit(chunks, i);
    var c := chunks[i];
    assert c == c[..j] + c[j..];
  }

  /**
   * The chunks `fread` delivers when a stream holding `s` is read with a
   * chunk size of `size`: every chunk is full except possibly the last.
   */
  function Chunks(s: seq<byte>, size: nat): (r: seq<seq<byte>>)
    requires size >= 1
    decreases |s|
  {
    if |s| <= size then (if s == [] then [] else [s])
    else [s[..size]] + Chunks(s[size..], size)
  }

  /** Reading in chunks of any size loses and reorders nothing. */
  lemma {:induction false} FlattenChunks(s: seq<byte>, size: nat)
    requires size >= 1
    ensures Flatten(Chunks(s, size)) == s
    ensures forall k :: 0 <= k < |Chunks(s, size)| ==> 1 <= |Chunks(s, size)[k]| <= size
    decreases |s|
  {
    if |s| > size {
      FlattenChunks(s[size..], size);
      var r := Chunks(s, size);
      assert r[1..] == Chunks(s[size..], size);
      assert s[..size] + s[size..] == s;
    }
  }
}
