# httpfromtcp core, modelled in Dafny

A model of the HTTP/1.1 layer of `httpfromtcp`, which is written directly on top of a raw byte stream. It covers:

- the incremental request parser (`internal/request/request.go`);
- the header collection (`internal/headers/headers.go`);
- the response side (`internal/response/`): the status line, the header block, and a `Writer` that can also emit a chunked body and trailers.

Five modules, one per file:

- `Text` (`text.dfy`) models the Go standard-library helpers the core relies on:
  - `strings.Index` / `bytes.Index`, `strings.Split` and ASCII `strings.TrimSpace` / `strings.ToLower`;
  - `strconv.Atoi`, with an optional sign and the 64-bit range;
  - `%d` and `%X` formatting.

  Each comes with the facts the core needs: split/join inverses, a trimmed result, and the Atoi/Decimal and HexValue/Hex round trips.
- `Headers` (`headers.dfy`) covers the header collection:
  - the class `Headers` is a map of lower-case names to values;
  - its `Parse` consumes at most one field line per call (section 5.1 of RFC 9112);
  - a repeated name has its values joined with ", " (section 5.3 of RFC 9110);
  - `Parse` is proved equal to the pure function `ParseLine`, whose behaviour is stated lemma by lemma.
- `Request` (`request.dfy`) covers the request parser:
  - the request line;
  - the state machine `parseSingle`, stated as `Step`;
  - the loop `parse`, stated as `Feed`;
  - the class `Request` whose `ParseSingle` and `Parse` update it in place;
  - `RequestFromReader`, which drives the parser from an abstract stream through a buffer that starts at 8 bytes, doubles when full, and is compacted after every parse.
- `Response` (`response.dfy`) covers the response side:
  - `GetStatusLine` and `WriteStatusLine`;
  - `WriteHeaders`, which emits a map in any iteration order;
  - `GetDefaultHeaders`;
  - `Sink`, the `io.Writer` a connection provides, modelled as an output that either appends everything it is given or fails and appends nothing.
- `ResponseWriter` (`writer.dfy`) covers the `Writer` struct and its methods, together with a decoder for the chunked transfer coding (section 7.1 of RFC 9112) that the chunked writes are proved against.

The main results:

- **Request line.** It is parsed back to what was written. Each rejection (wrong part count, non-upper-case method, no '/', other version) yields its own error.
- **Request state machine.** The state only moves forward. A request that finishes has exactly the body its Content-Length announces. A finished request is left untouched.
- **Chunk-size independence.** When feeding a first part of the input neither fails nor finishes the request, feeding the unconsumed rest of it followed by the second part gives the same result as feeding both at once (`FeedSplit`). Without those two conditions it does not hold: with Content-Length 1, "x" then "y" finishes the request, while "xy" at once fails as too large. After `parse` returns without finishing, the remaining bytes are not enough for another step (`FeedMaximal`).
- **Reader.** `RequestFromReader` returns exactly what `Feed` makes of the bytes it took from the stream, or that computation's error, or an incomplete or read error.
- **Header block.** A header block written by `WriteHeaders`, in any order, parses back to the same map when every name is a non-empty lower-case token and every value is trimmed and holds no CRLF (`HeaderBlockRoundTrip`); a name such as "Content-Type" reads back lower-cased. The default headers parse back, and their Content-Length reads back as the number given.
- **Status line.** It parses back to its code and reason.
- **Chunks.** Non-empty chunks followed by the last chunk decode to the concatenated data.

Some behaviours of the code worth noting, each proved:

- `parse` on a finished request returns `(0, nil)` because its loop does not run. Only `parseSingle` reports the done-state error (`FinishedRequestUntouched`).
- Content-Length is parsed by `strconv.Atoi`, which accepts a sign. A negative length is therefore not rejected as invalid. The first body step reports "body larger than content-length" instead (`NegativeLengthRejected`).
- The body bytes are appended before the length is parsed. The request keeps them even when the length turns out to be invalid (`InvalidLengthRejected`).
- The `Writer` keeps no state and does not enforce the order of its calls. Every method appends to the connection, whatever was written before.

## Model

| member | source | states |
|---|---|---|
| Text.Index | internal/request/request.go:106 | the result is -1 or a position where the pattern occurs |
| Text.IndexFirst | internal/headers/headers.go:18 | -1 means the pattern occurs nowhere; otherwise no earlier position holds it |
| Text.IndexCRLFAfter | internal/headers/headers.go:18-24 | a line without CRLF followed by CRLF has its CRLF found right after the line |
| Text.Split | internal/request/request.go:119 | at least one part; joining the parts with the separator gives the input back; no part holds the separator |
| Text.SplitJoin | internal/request/request.go:133 | splitting separator-free parts joined by the separator gives those parts back |
| Text.TrimLeft | internal/headers/headers.go:46 | the result is a suffix of the input after a run of white space and starts with no white space |
| Text.TrimRight | internal/headers/headers.go:46 | the result is a prefix of the input before a run of white space and ends with no white space |
| Text.TrimSpace | internal/headers/headers.go:46 | the result has no white space at either end |
| Text.TrimSpacePadded | internal/headers/headers.go:46 | trimming removes exactly the white space added around an already trimmed value |
| Text.ToLower | internal/headers/headers.go:40 | the length is unchanged |
| Text.ToLowerSpec | internal/headers/headers.go:40 | no upper-case ASCII letter remains; upper-case letters move down by 32; every other byte is kept |
| Text.DigitsOf | internal/response/status_line.go:27 | at least one decimal digit and no leading zero |
| Text.Decimal | internal/response/status_line.go:27 | the %d text of a number has at least one byte; AtoiDecimal reads it back as that number |
| Text.Atoi | internal/request/request.go:85 | a number is read exactly when the text is an optional '+' or '-' followed by one or more decimal digits and nothing else, and the value fits in 64 bits; the number read is the one the digits denote, negated after '-' |
| Text.AtoiExamples | internal/request/request.go:85 | "+", "5x" and the empty text are rejected; "+5", "007" and "-12" read as 5, 7 and -12 |
| Text.DigitsValueOf | internal/request/request.go:85 | reading the digits of n gives n |
| Text.AtoiDecimal | internal/request/request.go:85 | Atoi reads back every 64-bit integer formatted with %d |
| Text.Hex | internal/response/writer.go:48 | at least one hexadecimal digit, upper case, with no leading zero |
| Text.HexValueOf | internal/response/writer.go:48 | reading back the %X text of n gives n |
| Headers.FieldLineText | internal/response/headers.go:20 | a field line is 4 bytes longer than its name and value (": " and CRLF); FieldOfWellFormed reads it back |
| Headers.FieldOf | internal/headers/headers.go:30-46 | an accepted line yields a token name and a trimmed value |
| Headers.ScanFieldLine | internal/headers/headers.go:16-46 | an accepted field line consumes at least 4 bytes (a name byte, the colon and CRLF) and yields a token name and a trimmed value |
| Headers.Merge | internal/headers/headers.go:48-52 | the name is added to the keys; other entries are kept; a repeated name has the new value appended after ", " |
| Headers.ParseLine | internal/headers/headers.go:16-55 | at most the data is consumed; an error or the end of the section leaves the map as it was; at most one name is added; no value changes unless bytes are consumed |
| Headers.Get | internal/request/request.go:78 | a lookup succeeds exactly when the lower-cased name is stored, and returns its value |
| Headers.Headers.constructor | internal/headers/headers.go:12-14 | a new collection is empty |
| Headers.Headers.Parse | internal/headers/headers.go:16-55 | the consumed count, the done flag, the error and the new map are those of ParseLine on the old map |
| Headers.ScanWaitsForCRLF | internal/headers/headers.go:17-28 | nothing is read until a CRLF is present; a leading CRLF ends the section; a field line consumes up to and including its CRLF |
| Headers.ScanLine | internal/headers/headers.go:23-24 | a line is judged on its own, whatever follows its CRLF |
| Headers.FieldOfNoColon | internal/headers/headers.go:30-33 | a line without a colon is rejected as an invalid header |
| Headers.SpaceBeforeColonRejected | internal/headers/headers.go:36-38 | a space or tab right before the colon rejects the name |
| Headers.SpacedNameExample | internal/headers/headers.go:36-38 | "a : 1" is rejected as an invalid field name |
| Headers.WhiteSpaceNameStoredEmpty | internal/headers/headers.go:40-45 | a name made only of white space that does not end in a space or a tab is accepted and stored as the empty name |
| Headers.FieldOfWellFormed | internal/headers/headers.go:30-46 | a token name, ": " and a trimmed value read back as that name and value |
| Headers.ScanWellFormedLine | internal/headers/headers.go:16-46 | a well-formed field line followed by anything is consumed in full and read back as its name and value |
| Headers.ParseWellFormedLine | internal/headers/headers.go:16-54 | parsing a well-formed field line merges its name and value into the map |
| Headers.ParseSectionEnd | internal/headers/headers.go:26-28 | an empty line consumes 2 bytes, reports the end of the section and leaves the map alone |
| Headers.ScanExtend | internal/headers/headers.go:17-21 | once a decision is reached, more data behind it changes nothing |
| Request.RequestLineFromString | internal/request/request.go:118-152 | an accepted line is exactly method, space, target, space, "HTTP/" and the version; the method is upper-case letters, the target holds no space and the version is 1.1 |
| Request.RequestLineRoundTrip | internal/request/request.go:118-152 | every request line with an upper-case method, a space-free target and version 1.1 parses back to itself |
| Request.PartCountRejected | internal/request/request.go:119-122 | a line that splits into other than three parts is rejected as poorly formatted |
| Request.NonUpperMethodRejected | internal/request/request.go:124-129 | a method with a byte outside A-Z is rejected |
| Request.VersionWithoutSlashRejected | internal/request/request.go:133-136 | a version part without '/' is rejected as a malformed start line |
| Request.OtherVersionRejected | internal/request/request.go:138-145 | "HTTP/" with any version other than 1.1 is rejected |
| Request.ParseRequestLine | internal/request/request.go:105-116 | it waits exactly while no CRLF is present; otherwise the line ends at the first CRLF: an accepted line is the consumed prefix without its CRLF, and a rejected one carries the error RequestLineFromString gives it |
| Request.ParseRequestLineScan | internal/request/request.go:105-116 | a CRLF-free line followed by CRLF is accepted or rejected exactly as RequestLineFromString judges that line, whatever follows |
| Request.ParseRequestLineText | internal/request/request.go:105-116 | a valid request line and CRLF are consumed in full, whatever follows |
| Request.StepRequestLine | internal/request/request.go:56-67 | the headers and body are untouched; nothing consumed means nothing changed; a consumed line is exactly the request line's text and CRLF, and the state moves to headers |
| Request.StepHeaders | internal/request/request.go:68-76 | the request line and body are untouched; an error changes nothing; the state moves to the body exactly when the data starts with CRLF, which consumes 2 bytes and stores nothing |
| Request.StepBody | internal/request/request.go:77-97 | the request line and headers are untouched; the body stays or grows by all the data; the state stays or finishes; a request that finishes has no Content-Length or a body of exactly that length |
| Request.Step | internal/request/request.go:54-103 | never more than the data is consumed; an error consumes nothing and is a parse error; the state stays or moves one state forward |
| Request.Feed | internal/request/request.go:39-52 | never more than the data is consumed; an error consumes nothing; the state never moves back |
| Request.StepStall | internal/request/request.go:61-62 | a step that consumes nothing and does not finish leaves the request unchanged |
| Request.StepExtend | internal/request/request.go:57-76 | a step that has consumed a line gives the same result whatever data follows |
| Request.BodyOutcome | internal/request/request.go:83-97 | the data joins the body; this fails exactly when the body passes the length; on success the data is consumed and the request finishes exactly at the length; a failure is always "body too large", consumes nothing and keeps the state |
| Request.FeedBody | internal/request/request.go:77-97 | with a valid Content-Length, parse in the body state has exactly the body outcome |
| Request.BodyWithoutLength | internal/request/request.go:78-82 | without Content-Length the request finishes at once, consuming nothing |
| Request.InvalidLengthRejected | internal/request/request.go:83-88 | an unreadable Content-Length fails, after the data has joined the body |
| Request.NegativeLengthRejected | internal/request/request.go:90-91 | a negative Content-Length makes the first body step fail as too large |
| Request.FinishedRequestUntouched | internal/request/request.go:98-99 | parse on a finished request does nothing and succeeds; a single step on it fails |
| Request.StepFramed | internal/request/request.go:54-103 | a successful step keeps the body consistent with the state and Content-Length |
| Request.FeedFramed | internal/request/request.go:39-52 | parse keeps the body consistent with the state and Content-Length |
| Request.FinishedBodyLength | internal/request/request.go:77-97 | a request that finishes has no body without Content-Length, and otherwise a body of exactly that length |
| Request.FeedMaximal | internal/request/request.go:41-50 | after parse stops without finishing, the bytes it left make no further progress |
| Request.FeedSplit | internal/request/request.go:39-52 | when parsing a neither fails nor finishes the request, parsing a + b is parsing a and then the unconsumed rest of a followed by b, with the counts added |
| Request.FeedUnfold | internal/request/request.go:41-50 | parse is one step followed by parse on the rest, with the counts added |
| Request.Request.constructor | internal/request/request.go:157-161 | the new request has empty headers, an empty body and nothing parsed |
| Request.Request.ParseSingle | internal/request/request.go:54-103 | the new request, the count and the error are those of Step on the old request |
| Request.Request.Parse | internal/request/request.go:39-52 | the new request, the count and the error are those of Feed on the old request |
| Request.Reader.Read | internal/request/request.go:172 | a read fails, reports the end of the stream only when nothing is pending, or delivers at least one next byte of the stream into the free space |
| Request.Doubled | internal/request/request.go:165-169 | a doubled buffer size is still a buffer size |
| Request.Grow | internal/request/request.go:165-169 | the new buffer is twice as large and begins with the old contents |
| Request.ShiftDown | internal/request/request.go:192 | the bytes after the first k move to the front of the buffer |
| Request.Compact | internal/request/request.go:192-193 | after compaction the buffer begins with exactly the bytes not yet consumed |
| Request.ReadMore | internal/request/request.go:164-183 | after a successful read the buffer holds the unconsumed bytes and the new ones |
| Request.FeedMore | internal/request/request.go:183-189 | parsing the longer prefix of the stream is the same as parsing the buffered bytes into the request built so far |
| Request.RequestFromReader | internal/request/request.go:154-197 | the bytes taken from the stream are a prefix of it; a request is returned exactly when there is no error, and it is finished and equal to Feed of those bytes; a parse error is that of Feed; otherwise the stream ended early or failed |
| Response.Reason | internal/response/status_line.go:16-25 | any code but 200, 400 and 500 has an empty reason |
| Response.GetStatusLine | internal/response/status_line.go:16-28 | the line starts with "HTTP/1.1 " and ends with CRLF |
| Response.StatusLineRoundTrip | internal/response/status_line.go:27 | the status line reads back as its code and reason |
| Response.StatusLineOk | internal/response/status_line.go:19-20 | the status line of 200 is "HTTP/1.1 200 OK" and CRLF |
| Response.StatusLineBadRequest | internal/response/status_line.go:21-22 | the status line of 400 is "HTTP/1.1 400 BAD REQUEST" and CRLF |
| Response.StatusLineInternalServerError | internal/response/status_line.go:23-24 | the status line of 500 is "HTTP/1.1 500 INTERNAL SERVER ERROR" and CRLF |
| Response.UnknownStatusLine | internal/response/status_line.go:27 | any other code gets its number, a space and no reason |
| Response.Sink.Write | internal/response/writer.go:38 | a write appends all of its bytes and reports their number, or appends nothing and fails |
| Response.WriteStatusLine | internal/response/status_line.go:30-37 | the status line is appended, or nothing is and the write error is returned |
| Response.WriteHeaders | internal/response/headers.go:18-30 | every entry is written once, in some order, then the empty line; a failed write stops the output after the lines written so far and returns its error |
| Response.HeaderBlock | internal/response/headers.go:18-30 | the block ends with the empty line (CRLF) and is just that for an empty map; LinesWidth gives its length and HeaderBlockRoundTrip its meaning |
| Response.ProgressDone | internal/response/headers.go:19 | when the loop has taken every key, the written order lists each key exactly once |
| Response.LinesWidth | internal/response/headers.go:19-28 | the header block's length is the sum of the entries' line lengths plus 2, whatever the order |
| Response.ParseSection | internal/headers/headers.go:16-55 | reading a header section back keeps every name already present |
| Response.ParseSectionLine | internal/headers/headers.go:48-54 | a well-formed field line merges into the map and reading goes on after it |
| Response.HeaderBlockRoundTrip | internal/response/headers.go:18-30 | a header block written in any order reads back as the same map when names are tokens and values are trimmed without CRLF |
| Response.RepeatedNameCombines | internal/headers/headers.go:48-52 | two lines with the same name read back as one entry with both values joined by ", " |
| Response.GetDefaultHeaders | internal/response/headers.go:10-16 | exactly the three default names are set |
| Response.DefaultHeadersValues | internal/response/headers.go:10-16 | Content-Length reads back as the number given; the type is text/html and the connection close |
| Response.DefaultHeadersRoundTrip | internal/response/headers.go:10-16 | the default headers, written in any order, read back unchanged, and their Content-Length lookup reads back the number given |
| ResponseWriter.ChunkText | internal/response/writer.go:46-49 | a chunk is 4 bytes longer than its size line and data together |
| ResponseWriter.ReadChunk | internal/response/writer.go:46-49 | a data chunk read off the front leaves strictly less behind |
| ResponseWriter.DecodeChunk | internal/response/writer.go:46-49 | a non-empty chunk decodes to its data, and decoding resumes right after it |
| ResponseWriter.DecodeLastChunk | internal/response/writer.go:51-54 | the last chunk ends the data and leaves the rest for the trailers |
| ResponseWriter.ChunkedRoundTrip | internal/response/writer.go:46-54 | non-empty chunks followed by the last chunk decode to their concatenated data |
| ResponseWriter.EmptyChunkEndsBody | internal/response/writer.go:46-49 | an empty chunk is the last chunk followed by an empty trailer section |
| ResponseWriter.FooBarChunks | internal/response/writer.go:46-54 | "foo" and "bar" then the last chunk are written as "3\r\nfoo\r\n3\r\nbar\r\n0\r\n" |
| ResponseWriter.FooBarDecoded | internal/response/writer.go:46-54 | those bytes decode to "foobar" |
| ResponseWriter.LastChunkEmptyTrailers | internal/response/writer.go:51-58 | the last chunk and an empty trailer section are "0\r\n\r\n" |
| ResponseWriter.Writer.constructor | internal/response/writer.go:15-19 | the writer writes to the connection it is given |
| ResponseWriter.Writer.WriteStatusLine | internal/response/writer.go:21-27 | the status line is appended, or nothing is and the error is returned |
| ResponseWriter.Writer.WriteHeaders | internal/response/writer.go:29-35 | the header block is appended in some order, or the lines before the failing write are, and that write's error is returned |
| ResponseWriter.Writer.WriteBody | internal/response/writer.go:37-44 | the body is appended and its length returned, or nothing is appended and 0 is returned with the error |
| ResponseWriter.Writer.WriteChunkedBody | internal/response/writer.go:46-49 | one chunk is appended and its framed length returned, or nothing is appended |
| ResponseWriter.Writer.WriteChunkedBodyDone | internal/response/writer.go:51-54 | the last chunk "0\r\n" is appended, or nothing is |
| ResponseWriter.Writer.WriteTrailers | internal/response/writer.go:56-58 | trailers are written exactly as a header block |

## Left out

- The server, the connection-accept loop, the demonstration handlers under `cmd/`, `main.go` and `PrintRequest` (`request.go:199-212`) are not part of this model. They are I/O and printing around the core.
- `TrimSpace` and `ToLower` are modelled on ASCII only. Go also trims Unicode spaces (U+0085, U+00A0 and the like) and lower-cases non-ASCII letters in valid UTF-8; a name or value holding those bytes is not covered.
- `Request.Reader.Read`: a Go reader may return bytes together with an error, or zero bytes with no error. The model's stream does neither, so that `RequestFromReader`'s loop is seen to end.
- `Response.Sink.Write`: a short write without an error, or a failure after part of the bytes went out, is not modelled. A write appends everything or nothing.
- Error values carry only their kind. The messages built with `fmt.Errorf` (the offending line, the lengths) are not modelled.
- The `default` arm of `parseSingle` (`request.go:100-101`) is not modelled. The state is a four-valued datatype, so no unknown state exists.
- The `break` after end of stream in `RequestFromReader` (`request.go:178`) cannot be reached: the loop only reads while the request is not finished. The model has no such branch.
- Bytes the reader delivered beyond the end of the request stay in the buffer and are dropped, as in the source. The model returns the bytes read from the stream as `got`, of which `Feed` uses a prefix, and says nothing more about the dropped rest.
- Go's map iteration order is unspecified. `Response.WriteHeaders` is proved for whichever order it picks, returned as the ghost `order`.
- `Get` and `Set` on headers are called by `request.go:78` and `response/headers.go:12-14`, but `internal/headers/headers.go` does not define them, and their source is not part of this model. `Headers.Get` is modelled as a lookup of the lower-cased name. `Set`'s key normalisation is unknown, so `Response.GetDefaultHeaders` takes the key it stores under as a parameter `setKey`, and a later `Set` wins when two keys coincide.
- `Response.DefaultHeadersRoundTrip` assumes `Set` stores names in lower case, as `Parse` does. Under another normalisation the request parser's lookup of "content-length" would fail.
- `ResponseWriter.Writer.WriteChunkedBody` with empty data writes the last chunk and an empty trailer section (`EmptyChunkEndsBody`). The model states this and does not treat it as an error.
- `ResponseWriter.ChunkedRoundTrip` is stated for non-empty chunks only, since an empty chunk ends the body.
- `ResponseWriter.DecodeChunked` is a reference decoder used to state what the chunked writes mean. The repository has none, and chunk extensions are not read.
- Go `int` is taken to be 64 bits wide: `StatusCode` is a 64-bit integer, and `Atoi` rejects values outside that range as the source does.
