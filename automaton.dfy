/**
 * The byte-at-a-time extraction automaton of the XMP readers, as pure
 * functions over an explicit state, and its specification: the text running
 * from the first `<x:xmpmeta` through the first `</x:xmpmeta>` after it.
 */
module Automaton {
  import opened Wrappers
  import opened Bytes
  import opened Matcher

  /** `<x:xmpmeta` in ASCII. */
  const TokenStart: seq<byte> := [60, 120, 58, 120, 109, 112, 109, 101, 116, 97]

  /** `</x:xmpmeta>` in ASCII. */
  const TokenEnd: seq<byte> := [60, 47, 120, 58, 120, 109, 112, 109, 101, 116, 97, 62]

  /** Read granularity of the stream reader; correctness does not depend on it. */
  const ChunkSize: nat := 1024

  /** Neither token contains a second `<`. */
  lemma TokensLeadUnique()
    ensures LeadUnique(TokenStart) && LeadUnique(TokenEnd)
  {
  }

  /**
   * The scanner's variables: `started` once the start token has been read,
   * `ended` once the end token has been read after it, `delimPos` the number
   * of bytes of the token currently searched for that have been matched, and
   * `buffer` every byte read after the start token.
   */
  datatype ScanState = ScanState(started: bool, ended: bool, delimPos: nat, buffer: seq<byte>)
  {
    /** The shape every reachable state has. */
    predicate Valid()
    {
      if !started then !ended && delimPos < |TokenStart| && buffer == []
      else if !ended then delimPos < |TokenEnd|
      else delimPos == |TokenEnd|
    }
  }

  /** The state after a reset. */
  const Initial := ScanState(false, false, 0, [])

  /**
   * One byte: before the start token is complete it is matched against
   * `<x:xmpmeta` and dropped; afterwards it is appended to the buffer and
   * matched against `</x:xmpmeta>`.
   */
  function Feed(s: ScanState, c: byte): (r: ScanState)
    requires s.Valid() && !s.ended
    ensures r.Valid()
    ensures r.buffer == if s.started then s.buffer + [c] else []
    ensures r.started <==> s.started || (s.delimPos == |TokenStart| - 1 && c == TokenStart[s.delimPos])
    ensures r.ended <==> s.started && s.delimPos == |TokenEnd| - 1 && c == TokenEnd[s.delimPos]
  {
    if !s.started then
      var k := MatchStep(TokenStart, s.delimPos, c);
      if k == |TokenStart| then s.(started := true, delimPos := 0) else s.(delimPos := k)
    else
      var k := MatchStep(TokenEnd, s.delimPos, c);
      s.(buffer := s.buffer + [c], delimPos := k, ended := k == |TokenEnd|)
  }

  /** Feeds `bytes` one at a time, stopping at the byte that completes the end token. */
  function Run(s: ScanState, bytes: seq<byte>): (r: ScanState)
    requires s.Valid()
    ensures r.Valid()
    ensures s.ended ==> r == s
    ensures s.started ==> r.started && |s.buffer| <= |r.buffer| && r.buffer[..|s.buffer|] == s.buffer
    decreases |bytes|
  {
    if bytes == [] || s.ended then s else Run(Feed(s, bytes[0]), bytes[1..])
  }

  /** The extracted text: the start token put back in front of the buffer, or nothing. */
  function Finish(s: ScanState): (r: seq<byte>)
  {
    if s.started && s.ended then TokenStart + s.buffer else []
  }

  /** What a scan of `bytes` from the initial state yields. */
  function Extract(bytes: seq<byte>): seq<byte>
  {
    Finish(Run(Initial, bytes))
  }

  /** The bytes after the first start token of `s`. */
  function AfterStart(s: seq<byte>): seq<byte>
    requires Find(s, TokenStart).Some?
  {
    s[Find(s, TokenStart).value + |TokenStart|..]
  }

  /**
   * The specification: the bytes from the first occurrence of the start
   * token through the first occurrence of the end token after it, or the
   * empty string when either is missing.
   */
  function FirstDelimited(s: seq<byte>): seq<byte>
  {
    match Find(s, TokenStart)
    case None => []
    case Some(i) =>
      match Find(AfterStart(s), TokenEnd)
      case None => []
      case Some(j) => s[i..i + |TokenStart| + j + |TokenEnd|]
  }

  /** How the state relates to the bytes `p` read so far. */
  ghost predicate Tracks(p: seq<byte>, st: ScanState)
  {
    && st.Valid()
    && if !st.started then
         MatchInv(TokenStart, p, st.delimPos)
       else
         && Find(p, TokenStart).Some?
         && if !st.ended then
              st.buffer == AfterStart(p) && MatchInv(TokenEnd, st.buffer, st.delimPos)
            else
              && Find(AfterStart(p), TokenEnd).Some?
              && st.buffer == AfterStart(p)[..Find(AfterStart(p), TokenEnd).value + |TokenEnd|]
  }

  lemma TracksInitial()
    ensures Tracks([], Initial)
  {
    MatchInvEmpty(TokenStart);
  }

  /** Appending bytes after the first start token only extends what follows it. */
  lemma AfterStartAppend(p: seq<byte>, q: seq<byte>)
    requires Find(p, TokenStart).Some?
    ensures Find(p + q, TokenStart) == Find(p, TokenStart)
    ensures AfterStart(p + q) == AfterStart(p) + q
  {
    FindAppend(p, q, TokenStart);
    var i := Find(p, TokenStart).value;
    assert (p + q)[i + |TokenStart|..] == p[i + |TokenStart|..] + q;
  }

  /** One step of the automaton keeps Tracks. */
  lemma FeedTracks(p: seq<byte>, st: ScanState, c: byte)
    requires Tracks(p, st) && !st.ended
    ensures Tracks(p + [c], Feed(st, c))
  {
    TokensLeadUnique();
    var st' := Feed(st, c);
    if !st.started {
      MatchStepCorrect(TokenStart, p, st.delimPos, c);
      if st'.started {
        assert AfterStart(p + [c]) == [];
        MatchInvEmpty(TokenEnd);
      }
    } else {
      AfterStartAppend(p, [c]);
      MatchStepCorrect(TokenEnd, st.buffer, st.delimPos, c);
      if st'.ended {
        assert st'.buffer == AfterStart(p + [c]);
      }
    }
  }

  /** Once ended, the state describes every longer input just as well. */
  lemma EndedTracks(p: seq<byte>, q: seq<byte>, st: ScanState)
    requires Tracks(p, st) && st.ended
    ensures Tracks(p + q, st)
  {
    AfterStartAppend(p, q);
    FindAppend(AfterStart(p), q, TokenEnd);
    var j := Find(AfterStart(p), TokenEnd).value;
    assert (AfterStart(p) + q)[..j + |TokenEnd|] == AfterStart(p)[..j + |TokenEnd|];
  }

  /** At the end of the input, Finish gives exactly the specified text. */
  lemma FinishTracks(p: seq<byte>, st: ScanState)
    requires Tracks(p, st)
    ensures Finish(st) == FirstDelimited(p)
  {
    if !st.started {
    } else if !st.ended {
    } else {
      var i := Find(p, TokenStart).value;
      var j := Find(AfterStart(p), TokenEnd).value;
      var n := |TokenStart|;
      assert p[i..i + n] == TokenStart;
      assert AfterStart(p)[..j + |TokenEnd|] == p[i + n..i + n + j + |TokenEnd|];
      assert p[i..i + n + j + |TokenEnd|] == p[i..i + n] + p[i + n..i + n + j + |TokenEnd|];
    }
  }

  lemma ConsStep(p: seq<byte>, rest: seq<byte>)
    requires rest != []
    ensures p + [rest[0]] + rest[1..] == p + rest
  {
    assert [rest[0]] + rest[1..] == rest;
  }

  /** Running the automaton over the rest of the input finishes with the specified text. */
  lemma {:induction false} RunTracks(p: seq<byte>, rest: seq<byte>, st: ScanState)
    requires Tracks(p, st)
    ensures Finish(Run(st, rest)) == FirstDelimited(p + rest)
    decreases |rest|
  {
    if rest == [] {
      assert p + rest == p;
      FinishTracks(p, st);
    } else if st.ended {
      EndedTracks(p, rest, st);
      FinishTracks(p + rest, st);
    } else {
      FeedTracks(p, st, rest[0]);
      RunTracks(p + [rest[0]], rest[1..], Feed(st, rest[0]));
      ConsStep(p, rest);
    }
  }

  /**
   * The class comment's claim, for these two tokens: the scanner returns the
   * text from the first start token through the first end token after it.
   */
  lemma ExtractIsFirstDelimited(bytes: seq<byte>)
    ensures Extract(bytes) == FirstDelimited(bytes)
  {
    var p: seq<byte> := [];
    assert p + bytes == bytes;
    TracksInitial();
    RunTracks(p, bytes, Initial);
  }

  /**
   * A stream holding `s`, read in chunks of `ChunkSize` bytes and scanned
   * chunk after chunk, yields the specified text of `s`.
   */
  lemma ChunkedScan(s: seq<byte>)
    ensures Extract(Flatten(Chunks(s, ChunkSize))) == FirstDelimited(s)
  {
    FlattenChunks(s, ChunkSize);
    ExtractIsFirstDelimited(s);
  }

  /** Running over a single byte is one Feed. */
  lemma RunSingle(s: ScanState, c: byte)
    requires s.Valid() && !s.ended
    ensures Run(s, [c]) == Feed(s, c)
  {
    assert [c][1..] == [];
  }

  /** Reading one more byte after `bytes` is one more Feed, unless the scan has ended. */
  lemma RunSnoc(s: ScanState, bytes: seq<byte>, c: byte)
    requires s.Valid() && !Run(s, bytes).ended
    ensures Run(s, bytes + [c]) == Feed(Run(s, bytes), c)
  {
    RunAppend(s, bytes, [c]);
    RunSingle(Run(s, bytes), c);
  }

  /** Once the scan has ended, further bytes change nothing. */
  lemma RunStops(s: ScanState, bytes: seq<byte>, rest: seq<byte>)
    requires s.Valid() && Run(s, bytes).ended
    ensures Run(s, bytes + rest) == Run(s, bytes)
  {
    RunAppend(s, bytes, rest);
  }

  /** Reading `a` and then `b` is reading `a + b`: the state carries across chunk boundaries. */
  lemma {:induction false} RunAppend(s: ScanState, a: seq<byte>, b: seq<byte>)
    requires s.Valid()
    ensures Run(s, a + b) == Run(Run(s, a), b)
    decreases |a|
  {
    if a == [] {
      assert a + b == b;
    } else if !s.ended {
      assert (a + b)[1..] == a[1..] + b;
      RunAppend(Feed(s, a[0]), a[1..], b);
    }
  }

  /** Cutting the input right after its first occurrence of `t` keeps that occurrence first. */
  lemma FindInPrefix(rest: seq<byte>, t: seq<byte>, j: nat)
    requires Find(rest, t) == Some(j)
    ensures Find(rest[..j + |t|], t) == Some(j)
  {
    var cap := rest[..j + |t|];
    assert cap[j..j + |t|] == rest[j..j + |t|];
    forall k: nat | k < j
      ensures !OccursAt(cap, t, k)
    {
      assert !OccursAt(rest, t, k);
      assert cap[k..k + |t|] == rest[k..k + |t|];
    }
    FindIs(cap, t, j);
  }

  /**
   * A non-empty specified text starts with the start token, ends with the
   * end token, and its captured part holds no earlier end token.
   */
  lemma FirstDelimitedShape(bytes: seq<byte>)
    ensures var r := FirstDelimited(bytes);
      r != [] ==>
        && |r| >= |TokenStart| + |TokenEnd|
        && r[..|TokenStart|] == TokenStart
        && Find(r[|TokenStart|..], TokenEnd) == Some(|r| - |TokenStart| - |TokenEnd|)
  {
    var r := FirstDelimited(bytes);
    if r != [] {
      var i := Find(bytes, TokenStart).value;
      var rest := AfterStart(bytes);
      var j := Find(rest, TokenEnd).value;
      var n := |TokenStart|;
      var e := i + n + j + |TokenEnd|;
      var cap := rest[..j + |TokenEnd|];
      assert r == bytes[i..e];
      SliceSplit(bytes, i, i + n, e);
      assert r[n..] == cap;
      FindInPrefix(rest, TokenEnd, j);
      assert Find(r[n..], TokenEnd) == Some(j);
    }
  }

  /**
   * On success the result starts with `<x:xmpmeta`, ends with the
   * `</x:xmpmeta>` whose last byte stopped the scan, and captures nothing
   * after that byte.
   */
  lemma ExtractShape(bytes: seq<byte>)
    ensures var r := Extract(bytes);
      r != [] ==>
        && |r| >= |TokenStart| + |TokenEnd|
        && r[..|TokenStart|] == TokenStart
        && EndsWith(r, TokenEnd)
        && Find(r[|TokenStart|..], TokenEnd) == Some(|r| - |TokenStart| - |TokenEnd|)
  {
    ExtractIsFirstDelimited(bytes);
    FirstDelimitedShape(bytes);
    var r := Extract(bytes);
    if r != [] {
      var cap := r[|TokenStart|..];
      assert cap[|cap| - |TokenEnd|..] == r[|r| - |TokenEnd|..];
    }
  }

  /** The scan succeeds exactly when both tokens were seen. */
  lemma ExtractNonEmpty(bytes: seq<byte>)
    ensures Extract(bytes) != [] <==> Run(Initial, bytes).started && Run(Initial, bytes).ended
    ensures Extract(bytes) != [] <==> Find(bytes, TokenStart).Some? && Find(AfterStart(bytes), TokenEnd).Some?
  {
    ExtractIsFirstDelimited(bytes);
  }
}
