/**
 * The older file-based reader: the same extraction automaton written inline,
 * on local variables, after checks that the file can be read and is a JPEG.
 */
module LegacyReader {
  import opened Wrappers
  import opened Bytes
  import opened Automaton

  /**
   * What the reader learns about the named file: whether it is readable,
   * whether opening it succeeds, its sniffed MIME type, and the chunks that
   * reading it delivers.
   */
  datatype File = File(readable: bool, opens: bool, mimeType: string, chunks: seq<seq<byte>>)

  /** The two exception classes the old reader throws. */
  datatype Exception = RuntimeException(message: string) | ReaderException(message: string)

  const NotReadableMessage := "Could not open file for reading"
  const OpenFailedMessage := "Could not open file for reading (should be readable though)"
  const NotJpegMessage := "File is not image/jpeg"
  const NotSetMessage := "Document is not set"

  /** Whether the file passes the checks made before any byte is scanned. */
  predicate Admitted(file: File)
  {
    file.readable && file.opens && file.mimeType == "image/jpeg"
  }

  /**
   * Rejects unreadable and non-JPEG files before scanning; otherwise returns
   * the text from the first start token through the first end token after
   * it, or the empty string.
   */
  method GetXmpData(file: File) returns (r: Result<seq<byte>, Exception>)
    ensures !file.readable ==> r == Failure(RuntimeException(NotReadableMessage))
    ensures file.readable && !file.opens ==> r == Failure(RuntimeException(OpenFailedMessage))
    ensures file.readable && file.opens && file.mimeType != "image/jpeg" ==>
              r == Failure(RuntimeException(NotJpegMessage))
    ensures Admitted(file) ==> r == Success(FirstDelimited(Flatten(file.chunks)))
  {
    if !file.readable {
      return Failure(RuntimeException(NotReadableMessage));
    }
    if !file.opens {
      return Failure(RuntimeException(OpenFailedMessage));
    }
    if file.mimeType != "image/jpeg" {
      return Failure(RuntimeException(NotJpegMessage));
    }

    var from := TokenStart;
    var to := TokenEnd;
    var buffer: seq<byte> := [];
    var started := false;
    var ended := false;
    var fromLen := |from|;
    var toLen := |to|;
    var delimPos: nat := 0;

    var chunks := file.chunks;
    var i := 0;
    while i < |chunks|
      invariant 0 <= i <= |chunks|
      invariant !ended
      invariant ScanState(started, ended, delimPos, buffer) == Run(Initial, Flatten(chunks[..i]))
    {
      var chunk := chunks[i];
      var j := 0;
      ReadSoFarStart(chunks, i);
      while j < |chunk|
        invariant 0 <= j <= |chunk|
        invariant !ended
        invariant ScanState(started, ended, delimPos, buffer) == Run(Initial, ReadSoFar(chunks, i, j))
      {
        var c := chunk[j];
        ReadSoFarSnoc(chunks, i, j);
        RunSnoc(Initial, ReadSoFar(chunks, i, j), c);
        ghost var before := ScanState(started, ended, delimPos, buffer);
        if !started {
          if c == from[delimPos] {
            delimPos := delimPos + 1;
            if delimPos == fromLen {
              delimPos := 0;
              started := true;
            }
          } else if c == from[0] {
            delimPos := 1;
          } else {
            delimPos := 0;
          }
        } else {
          buffer := buffer + [c];
          if c == to[delimPos] {
            delimPos := delimPos + 1;
            if delimPos == toLen {
              ended := true;
              assert ScanState(started, ended, delimPos, buffer) == Feed(before, c);
              ReadSoFarRest(chunks, i, j + 1);
              RunStops(Initial, ReadSoFar(chunks, i, j + 1), chunk[j + 1..] + Flatten(chunks[i + 1..]));
              break break;
            }
          } else if c == to[0] {
            delimPos := 1;
          } else {
            delimPos := 0;
          }
        }
        assert ScanState(started, ended, delimPos, buffer) == Feed(before, c);
        j := j + 1;
      }
      ReadSoFarEnd(chunks, i);
      i := i + 1;
    }
    assert i == |chunks| ==> chunks[..i] == chunks;
    assert ScanState(started, ended, delimPos, buffer) == Run(Initial, Flatten(chunks));
    ExtractIsFirstDelimited(Flatten(chunks));

    if started && ended {
      buffer := from + buffer;
    } else {
      buffer := [];
    }
    return Success(buffer);
  }

  /**
   * Passes on the file errors, throws when nothing was extracted, and
   * otherwise hands the text to the XML parser, whose outcome is not checked.
   */
  method GetXmpDocument<Q(==)>(file: File, loadXml: seq<byte> -> Q) returns (r: Result<Q, Exception>)
    ensures !Admitted(file) ==> r.Failure? && r.error.RuntimeException?
    ensures Admitted(file) && FirstDelimited(Flatten(file.chunks)) == [] ==>
              r == Failure(ReaderException(NotSetMessage))
    ensures Admitted(file) && FirstDelimited(Flatten(file.chunks)) != [] ==>
              r == Success(loadXml(FirstDelimited(Flatten(file.chunks))))
  {
    var raw := GetXmpData(file);
    if raw.Failure? {
      return Failure(raw.error);
    }
    if raw.value == [] {
      return Failure(ReaderException(NotSetMessage));
    }
    var dom := loadXml(raw.value);
    return Success(dom);
  }
}
