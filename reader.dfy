/**
 * The stream reader: a class whose fields hold the extraction automaton's
 * state, mutated byte by byte while a stream is read in chunks.
 */
module XmpReader {
  import opened Wrappers
  import opened Bytes
  import opened Automaton

  /** The argument of GetXmpDocument: a stream resource that delivers `chunks`, or any other value. */
  datatype StreamArg = NotAStream | Stream(chunks: seq<seq<byte>>)

  /** The reader's single exception kind; callers tell causes apart by the message. */
  datatype ReaderException = ReaderException(message: string)

  const InvalidStreamMessage := "$stream is not a valid stream resource"
  const NotFoundMessage := "No XMP document found in stream"

  class Reader {
    var buffer: seq<byte>
    var started: bool
    var ended: bool
    var delimPos: nat
    var tokenStartLen: nat
    var tokenEndLen: nat

    /** The automaton state held by the fields. */
    function State(): ScanState
      reads this
    {
      ScanState(started, ended, delimPos, buffer)
    }

    /** The cached token lengths are those of the tokens. */
    ghost predicate Valid()
      reads this
    {
      tokenStartLen == |TokenStart| && tokenEndLen == |TokenEnd|
    }

    /** The clean starting state that every public operation leaves behind. */
    ghost predicate Clean()
      reads this
    {
      Valid() && State() == Initial
    }

    constructor ()
      ensures Clean()
    {
      new;
      Reset();
    }

    method Reset()
      modifies this
      ensures Clean()
    {
      buffer := [];
      started := false;
      ended := false;
      tokenStartLen := |TokenStart|;
      tokenEndLen := |TokenEnd|;
      delimPos := 0;
    }

    /** Matches one byte against the start token; the byte is not kept. */
    method SearchForTokenStart(c: byte)
      requires Valid() && State().Valid() && !started
      modifies this
      ensures Valid() && State() == Feed(old(State()), c)
    {
      if c == TokenStart[delimPos] {
        delimPos := delimPos + 1;
        if delimPos == tokenStartLen {
          delimPos := 0;
          started := true;
        }
      } else if c == TokenStart[0] {
        delimPos := 1;
      } else {
        delimPos := 0;
      }
    }

    /** Appends one byte to the buffer and matches it against the end token. */
    method SearchForTokenEnd(c: byte)
      requires Valid() && State().Valid() && started && !ended
      modifies this
      ensures Valid() && State() == Feed(old(State()), c)
    {
      buffer := buffer + [c];
      if c == TokenEnd[delimPos] {
        delimPos := delimPos + 1;
        if delimPos == tokenEndLen {
          ended := true;
        }
      } else if c == TokenEnd[0] {
        delimPos := 1;
      } else {
        delimPos := 0;
      }
    }

    /**
     * Feeds the stream's chunks through the automaton byte by byte, leaving
     * off at the byte that completes the end token, then replaces the buffer
     * by the extracted text or by the empty string. The final state depends
     * on the chunks only through their concatenation.
     */
    method GetXmpData(chunks: seq<seq<byte>>)
      requires Clean()
      modifies this
      ensures Valid()
      ensures var final := Run(Initial, Flatten(chunks));
        started == final.started && ended == final.ended && delimPos == final.delimPos
      ensures buffer == FirstDelimited(Flatten(chunks))
    {
      var i := 0;
      while i < |chunks|
        invariant 0 <= i <= |chunks|
        invariant Valid() && !ended
        invariant State() == Run(Initial, Flatten(chunks[..i]))
      {
        var chunk := chunks[i];
        var j := 0;
        ReadSoFarStart(chunks, i);
        while j < |chunk|
          invariant 0 <= j <= |chunk|
          invariant Valid() && !ended
          invariant State() == Run(Initial, ReadSoFar(chunks, i, j))
        {
          var c := chunk[j];
          ReadSoFarSnoc(chunks, i, j);
          RunSnoc(Initial, ReadSoFar(chunks, i, j), c);
          if !started {
            SearchForTokenStart(c);
          } else {
            SearchForTokenEnd(c);
          }
          if ended {
            // nothing after this byte can change the state
            ReadSoFarRest(chunks, i, j + 1);
            RunStops(Initial, ReadSoFar(chunks, i, j + 1), chunk[j + 1..] + Flatten(chunks[i + 1..]));
            break break;
          }
          j := j + 1;
        }
        ReadSoFarEnd(chunks, i);
        i := i + 1;
      }
      assert i == |chunks| ==> chunks[..i] == chunks;
      assert State() == Run(Initial, Flatten(chunks));
      ExtractIsFirstDelimited(Flatten(chunks));

      if started && ended {
        buffer := TokenStart + buffer;
      } else {
        buffer := [];
      }
    }

    /**
     * Rejects a non-stream argument before scanning; otherwise scans, fails
     * when nothing was extracted, and hands the extracted text to the XML
     * parser, whose failure message is passed on. Every path that scanned
     * resets the instance, so it can be used again.
     */
    method GetXmpDocument<Q(==)>(stream: StreamArg, loadXml: seq<byte> -> Result<Q, string>)
      returns (r: Result<Q, ReaderException>)
      requires Clean()
      modifies this
      ensures Clean()
      ensures stream.NotAStream? ==> r == Failure(ReaderException(InvalidStreamMessage))
      ensures stream.Stream? ==>
        var data := FirstDelimited(Flatten(stream.chunks));
        && (data == [] ==> r == Failure(ReaderException(NotFoundMessage)))
        && (data != [] && loadXml(data).Failure? ==> r == Failure(ReaderException(loadXml(data).error)))
        && (data != [] && loadXml(data).Success? ==> r == Success(loadXml(data).value))
    {
      if stream.NotAStream? {
        return Failure(ReaderException(InvalidStreamMessage));
      }

      GetXmpData(stream.chunks);

      if buffer == [] {
        Reset();
        return Failure(ReaderException(NotFoundMessage));
      }

      var parsed := loadXml(buffer);
      if parsed.Failure? {
        Reset();
        return Failure(ReaderException(parsed.error));
      }

      Reset();
      r := Success(parsed.value);
    }
  }

  /**
   * A failed extraction leaves nothing behind: the same reader then returns
   * what a fresh reader returns.
   */
  method ReuseAfterFailure<Q(==)>(bad: StreamArg, good: StreamArg, loadXml: seq<byte> -> Result<Q, string>)
    returns (first: Result<Q, ReaderException>, second: Result<Q, ReaderException>, independent: Result<Q, ReaderException>)
    ensures second == independent
  {
    var reader := new Reader();
    first := reader.GetXmpDocument(bad, loadXml);
    second := reader.GetXmpDocument(good, loadXml);
    var other := new Reader();
    independent := other.GetXmpDocument(good, loadXml);
  }
}
