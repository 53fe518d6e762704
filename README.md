# kaloa-xmp in Dafny

A model of the two pieces of logic in the Kaloa XMP library, with proofs about them.

**Extraction automaton.** This finds the embedded XMP packet in a byte stream.
- The stream is read in chunks and fed through the automaton one byte at a time.
- First the bytes are matched against the start token `<x:xmpmeta`. A counter `delimPos` tracks the match.
  - A matching byte advances the counter.
  - A mismatching `<` restarts the counter at 1.
  - Any other mismatching byte resets it to 0.
- After the start token, every byte goes into `buffer` and is matched against `</x:xmpmeta>` by the same rule.
- Scanning stops at the byte that completes the end token.
- The result is the start token followed by the buffer, or the empty string.

The automaton is modelled three times:
- as pure functions over an explicit state (`Automaton.Feed`, `Automaton.Run`);
- as the class `XmpReader.Reader`, whose fields the methods mutate, for `src/Reader.php`;
- as a method working on local variables, for the older copy in `src/Kaloa/Xmp/Reader.php`.

The main theorem is `Automaton.ExtractIsFirstDelimited`. It proves the class comment's claim: the scanner returns exactly the bytes from the first occurrence of the start token through the first end token after it. The specification `FirstDelimited` is written over a reference definition of "first occurrence" (`Bytes.FindFrom`).

The theorem holds only because `<` occurs in neither token except as its first byte (`Automaton.TokensLeadUnique`). That is what makes the simple restart rule exact (`Matcher.MatchStepCorrect`). Both reader methods are proved to return `FirstDelimited` of the concatenated chunks. The result therefore does not depend on where the chunk boundaries fall.

**Property selection.** These rules map XPath query results onto property fields.
- Dublin Core (`DublinCore.DublinCoreProperties`):
  - list fields take all list items in document order;
  - scalar fields keep the last match;
  - `title` falls back to the bare `dc:title` elements.
- Exif (`Exif.ExifProperties`):
  - the attribute pass runs first;
  - the element pass runs only when the value is still empty.
- The legacy document (`LegacyDocument.Document`):
  - the title is the last title item;
  - the tags are the subject items;
  - the date is decided by the last `rdf:Description` node that has attributes.

XPath evaluation is not modelled. A document is given by `XmpQuery.XPath`: the node values each query returns, in document order, and the `rdf:Description` nodes with their exif-namespace attributes.

Several functions carry no contract of their own. They are specifications, and the lemmas in the table state their properties: `Automaton.Finish`, `Automaton.Extract` and `Automaton.FirstDelimited` (the scanner's result and the first-occurrence text); `Exif.LastAttribute` (the last `rdf:Description` attribute of an entity; see `Exif.NoCarrier` and `Exif.LastCarrier`); `LegacyDocument.LegacyDate` (the legacy date decision; see `LegacyDocument.LegacyDateUnchanged` and `LegacyDocument.LegacyDateLast`); and `XmpQuery.Converted` (the result of a date conversion, `false` on failure, as in src/Kaloa/Xmp/Properties/ExifProperties.php:100-103).

The Exif doc comment says that element content overwrites attribute content. The code does not do that: the elements are consulted only when the attribute pass leaves `''`. The model follows the code, and `Exif.AttributeNotOverwritten` exhibits a document where a non-empty attribute is kept over an element.

PHP's dynamic typing is made explicit in two places:
- Dublin Core scalars are `string` and lists are `seq<string>`, by their types.
- The date variables, which hold in turn a string, `null`, `false` or a date, are the datatype `XmpQuery.DateValue`.

## Model

| member | source | states |
|---|---|---|
| Automaton.TokensLeadUnique | src/Reader.php:34-41 | `<` appears in the start and end tokens only as their first byte |
| Matcher.MatchStep | src/Reader.php:128-138 | a matching byte advances the count by one; a mismatching token-initial byte restarts it at 1; any other byte resets it to 0 |
| Matcher.SuffixMatchOverlap | src/Reader.php:134-135 | two different partial matches that end the input at once force the token's first byte to recur inside the token |
| Matcher.MatchStepCorrect | src/Reader.php:126-139 | for a token whose first byte does not recur, one step either completes the first occurrence of the token at exactly this byte or leaves the count equal to the longest partial match, with no occurrence so far |
| Bytes.FindFrom | src/Reader.php:21-23 | the first occurrence: the least index at or after `from` where the token occurs, and None exactly when there is none |
| Bytes.FindAppend | src/Reader.php:79-80 | the first occurrence in the bytes read so far stays the first whatever bytes follow |
| Bytes.FlattenChunks | src/Reader.php:174-177 | reading a stream in chunks of any size delivers every byte, in order, in chunks of 1 to `size` bytes |
| Automaton.Feed | src/Reader.php:126-159 | one byte keeps the state well formed, appends the byte to the buffer exactly when the start token was already found, sets `started` exactly on the byte completing the start token, and sets `ended` exactly on the byte completing the end token |
| Automaton.Run | src/Reader.php:172-188 | an ended scan ignores further bytes; once started, the buffer only grows at its end |
| Automaton.FeedTracks | src/Reader.php:126-159 | each step keeps the state in step with the bytes read: the count is the longest partial match of the token being searched, and the buffer holds the bytes after the first start token |
| Automaton.FinishTracks | src/Reader.php:190-194 | at the end of input, putting the start token in front of the buffer when both tokens were found, and otherwise giving the empty string, yields the specified text |
| Automaton.RunTracks | src/Reader.php:172-195 | scanning the remaining input from any tracking state finishes with the specified text of the whole input |
| Automaton.ExtractIsFirstDelimited | src/Reader.php:21-25 | the scanner's result equals the bytes from the first start token through the first end token after it, or is empty when either is missing |
| Automaton.ChunkedScan | src/Reader.php:48 | a stream holding any bytes, read in chunks of 1024 bytes and scanned chunk after chunk, yields the specified text of those bytes |
| Automaton.RunAppend | src/Reader.php:79-80 | scanning `a` and then `b` from the resulting state is scanning `a + b`: the matcher state carries across chunk boundaries |
| Automaton.RunSnoc | src/Reader.php:177-182 | reading one more byte of a scan that has not ended is one more step |
| Automaton.RunStops | src/Reader.php:184-186 | after the byte that completes the end token no further byte changes the state |
| Automaton.FirstDelimitedShape | src/Reader.php:21-25 | a non-empty specified text begins with the start token, and its first end token after the start token is its last bytes |
| Automaton.ExtractShape | src/Reader.php:184-194 | on success the result begins with `<x:xmpmeta`, ends with `</x:xmpmeta>`, and holds no end token before that |
| Automaton.ExtractNonEmpty | src/Reader.php:190-194 | the result is non-empty exactly when both `started` and `ended` hold, and exactly when the start token occurs and the end token occurs after it |
| XmpReader.Reader.constructor | src/Reader.php:103-106 | a new reader is in the clean initial state |
| XmpReader.Reader.Reset | src/Reader.php:111-119 | empty buffer, `started` and `ended` false, `delimPos` 0, and the token lengths cached |
| XmpReader.Reader.SearchForTokenStart | src/Reader.php:126-139 | the fields move exactly as one automaton step before the start token is complete |
| XmpReader.Reader.SearchForTokenEnd | src/Reader.php:146-159 | the byte is appended to the buffer and the fields move exactly as one automaton step after the start token |
| XmpReader.Reader.GetXmpData | src/Reader.php:172-195 | the flags and counter end as the scan of the concatenated chunks leaves them, and the buffer is the text from the first start token through the first end token after it, or empty |
| XmpReader.Reader.GetXmpDocument | src/Reader.php:207-249 | a non-stream argument fails with "$stream is not a valid stream resource" before scanning; an empty scan fails with "No XMP document found in stream"; a parse failure passes on the parser's message; otherwise the parsed document is returned; every path leaves the reader clean |
| XmpReader.ReuseAfterFailure | src/Reader.php:215-243 | after any call, even a failed one, the same reader returns what a new reader returns |
| LegacyReader.GetXmpData | src/Kaloa/Xmp/Reader.php:19-91 | an unreadable file, a file that does not open and a non-JPEG file each fail with their RuntimeException message before scanning; otherwise the result is the text from the first start token through the first end token after it, or empty |
| LegacyReader.GetXmpDocument | src/Kaloa/Xmp/Reader.php:100-116 | an empty extraction fails with "Document is not set"; otherwise the parser's result for the extracted text is returned |
| DublinCore.TitleValues | src/Kaloa/Xmp/Properties/DublinCoreProperties.php:179-185 | the title is the list items when there are any, otherwise the `dc:title` elements, so it is non-empty exactly when either query matches |
| DublinCore.DublinCoreProperties.GetArray | src/Kaloa/Xmp/Properties/DublinCoreProperties.php:197-206 | the values of all `//dc:<entity>//rdf:li` nodes, in document order, nothing dropped, merged or reordered |
| DublinCore.DublinCoreProperties.LastMatch | src/Kaloa/Xmp/Properties/DublinCoreProperties.php:142-144 | the overwriting loop leaves the last matched value, or the old value when nothing matches |
| DublinCore.DublinCoreProperties.InitFirst | src/Kaloa/Xmp/Properties/DublinCoreProperties.php:140-148 | contributor, creator, date and description are their list items; coverage is the last `dc:coverage` |
| DublinCore.DublinCoreProperties.InitSecond | src/Kaloa/Xmp/Properties/DublinCoreProperties.php:150-165 | format and identifier are their last matches; language, publisher, relation and rights are their list items |
| DublinCore.DublinCoreProperties.InitThird | src/Kaloa/Xmp/Properties/DublinCoreProperties.php:167-185 | source is the last `dc:source` list item; subject is its list items; title follows the fallback rule |
| DublinCore.DublinCoreProperties.Init | src/Kaloa/Xmp/Properties/DublinCoreProperties.php:138-189 | every field as above, `type` unchanged, and the XPath reference dropped |
| DublinCore.DublinCoreProperties.constructor | src/Kaloa/Xmp/Properties/AbstractProperties.php:19-24 | from the defaults, scalars end as the last match or `''`, lists as their items, title by the fallback, `type` empty, no XPath reference kept |
| Exif.TrimStart | src/Kaloa/Xmp/Properties/ExifProperties.php:99 | strips exactly the leading run of space, tab, newline, carriage return, NUL and vertical tab |
| Exif.TrimEnd | src/Kaloa/Xmp/Properties/ExifProperties.php:99 | strips exactly the trailing run of those characters |
| Exif.TrimEmpty | src/Kaloa/Xmp/Properties/ExifProperties.php:99 | `trim` gives `''` exactly when every character is one that `trim` strips |
| Exif.NoCarrier | src/Kaloa/Xmp/Properties/ExifProperties.php:69-81 | the attribute pass finds nothing exactly when no description both has attributes and carries the exif attribute |
| Exif.LastCarrier | src/Kaloa/Xmp/Properties/ExifProperties.php:69-81 | the attribute of the last carrying description is what the attribute pass yields, even when it is empty, whatever earlier descriptions hold |
| Exif.EntityValue | src/Kaloa/Xmp/Properties/ExifProperties.php:83-87 | a non-empty attribute value is kept; otherwise the value is the last `//exif:<entity>` element, or `''` |
| Exif.AttributeWins | src/Kaloa/Xmp/Properties/ExifProperties.php:77-87 | a non-empty attribute on the last carrying description is the value, whatever elements exist |
| Exif.NothingFound | src/Kaloa/Xmp/Properties/ExifProperties.php:66-89 | with no carrying description and no element the value is `''` |
| Exif.AttributeNotOverwritten | src/Kaloa/Xmp/Properties/ExifProperties.php:58-60 | a document with attribute `0230` and element `0220` keeps `0230`: element content does not overwrite attribute content, contrary to the comment |
| Exif.DateOf | src/Kaloa/Xmp/Properties/ExifProperties.php:99-106 | the date is null exactly when the raw value trims to nothing; otherwise it is the parser's date, or `false` when parsing fails |
| Exif.ExifProperties.Fill | src/Kaloa/Xmp/Properties/ExifProperties.php:64-90 | the entity's own field receives its value, the raw string for the date, and no other field changes |
| Exif.ExifProperties.Init | src/Kaloa/Xmp/Properties/ExifProperties.php:95-114 | the date is converted from its raw value, the other three fields hold their values, and the XPath reference is dropped |
| Exif.ExifProperties.constructor | src/Kaloa/Xmp/Properties/ExifProperties.php:31-52 | from the defaults `null` and `''`, every field ends as `Init` leaves it |
| LegacyDocument.LegacyDateUnchanged | src/Kaloa/Xmp/Document.php:71-81 | descriptions without attributes leave the date as it was, so with none the date keeps its initial `''` |
| LegacyDocument.LegacyDateLast | src/Kaloa/Xmp/Document.php:71-81 | only the last description with attributes decides the date: null without `exif:DateTimeOriginal`, otherwise its conversion |
| LegacyDocument.Document.Process | src/Kaloa/Xmp/Document.php:60-86 | the title is the last `//dc:title//rdf:li` value or the old title; the date follows the last description with attributes; every `//dc:subject//rdf:li` value is appended to the tags in document order |
| LegacyDocument.Document.constructor | src/Kaloa/Xmp/Document.php:47-55 | from empty tags, empty title and `''` date: tags are the subject items, the title is the last title item or `''`, and the date is as `Process` decides it |

## Left out

- Stream and file I/O is not modelled: `feof`, `fread`, `str_split`, `fopen`, `fclose`, `is_readable` and `finfo` MIME sniffing. A stream is the sequence of chunks it delivers. A file is that plus three flags: readable, opens, and its MIME type. `Bytes.Chunks` and `Bytes.FlattenChunks` relate a chunk size such as the 1024 bytes of `Automaton.ChunkSize` to this view.
- The `is_resource` / `get_resource_type` test is reduced to the two cases of `XmpReader.StreamArg`.
- Before PHP 8.2, `str_split('')` returns `['']`. The empty "byte" matches no token byte, so it resets `delimPos` to 0 (src/Reader.php:136-137 and 155-157). On a plain file `fread` returns `''` only at end of file, after which no byte follows, so the result is unchanged. On a network or non-blocking stream `fread` can return `''` while `feof` is still false. A token split around such an empty read is then missed. For the chunks `<x:xm`, an empty chunk, `pmeta>` and `</x:xmpmeta>`, PHP before 8.2 reports "No XMP document found in stream", while the model extracts `<x:xmpmeta></x:xmpmeta>`. The model treats an empty chunk as no bytes, which is the behaviour from PHP 8.2 on.
- `DOMDocument::loadXML` and the temporary error handler that turns warnings into exceptions are one opaque parse function, passed as a parameter. It returns a document or a failure message.
- The construction of the `Document` wrapper from the parsed DOM is not part of the reader methods. The readers return the parse result, and `src/Document.php` (constructor wiring and accessors only) is not part of this model. The legacy `Document` is modelled on its own, in `LegacyDocument`.
- XPath evaluation and namespace registration are not modelled. A document is given by the values each query returns and by its `rdf:Description` nodes. The legacy `Document`'s `dom` field and the `DOMXPath` it builds from it are replaced by that view, passed to the constructor.
- `DateTime::createFromFormat` and `strtotime` are uninterpreted: each is a function parameter returning a date or failure.
- `AbstractProperties` is folded into the two property-set constructors. The three exception classes are one message-carrying datatype per reader.
- The getters of all three property holders are functions that read the field they return. They carry no contract, because returning the stored field is all they do.
- `DublinCore.DublinCoreProperties.Init`: its steps are grouped into three helper methods in source order, because each field depends only on the XPath instance.
- LegacyReader.GetXmpDocument: for a file rejected before scanning it states only that a RuntimeException is returned. The exact message is the one `LegacyReader.GetXmpData` states.
