# Verified model of a C++ networking library

This project models the parts of the library whose behaviour is more than plumbing, and proves what they promise
for every input, every run or every reachable state:

- the URL parser and printer: a backtracking state machine and `build()`;
- the HTTP/1.1 stream stack: buffered reader and writer, `readline`, `limit_reader`, the chunked coding, and the
  encoding and decoding of responses;
- two concurrent protocols, the thread pool and the resource pool, as transition systems over atomic steps;
- the SIEVE cache, Base64, the router tree and the ring buffer.

Code that updates objects is modelled by classes with the source's fields, and each method is proved against a
function of the old state. `dafny verify dfyconfig.toml` checks everything.

## Layout

| files | content |
|---|---|
| `Text`, `Collections`, `Counting`, `StringUtil`, `Decimal` | searching, sequences and maps, counting, splitting and trimming, decimal numbers |
| `Url`, `UrlLaws`, `UrlPieces`, `UrlDecode`, `UrlQuery`, `UrlPrint`, `UrlRoundTrip` | `src/url.cpp`: the parser class and the printer; lossless splitting; which pieces and failures a text has; what escapes stand for; what a query says; what is printed; the round trip |
| `Streams`, `BufferedReader`, `BufferedWriter`, `Lines` | sources and sinks with short counts and errors, and the layers over them |
| `Chunked` | the chunked coding and its round trip |
| `Http11`, `StatusLines`, `HeaderLaws`, `HttpRoundTrip`, `HttpExact`, `HttpMessage`, `HttpTruncated` | the response codec, which texts are status lines, which headers come back from their lines, the round trip through the stack, which responses come back, whole messages with their bodies, heads that are cut off |
| `ThreadPool`, `ThreadPoolHistory`, `ThreadPoolProgress`, `ThreadPoolShutdown` | the protocol and its invariants over every interleaving; what becomes of the handles that are scheduled; how far the workers get; what `shutdown` can lose and when it hangs |
| `ResourcePool`, `ResourcePoolLaws` | the protocol and its invariants over every interleaving; what one call does |
| `SieveCache`, `SieveLaws`, `SieveRoom` | the cache class against a list with a hand; eviction, cost and freshness over runs; what stays and what goes |
| `Base64`, `Base64Bits`, `Base64Exact` | sizes, alphabets, the loops over buffers, and the round trip; the code by numbers; which texts encoding gives back |
| `Router`, `RouterLaws`, `RouterPaths` | the tree against a table of patterns, and the table against the flat list of routes; the answer from the texts of routes and paths |
| `RingBuffer` | the ring against a bounded queue |

Three idioms recur. A peer is a `Source` or `Sink` with a *plan*: the replies it will give, each a count limit and an
error, so that a statement for all plans covers all short reads and all errors. A hash map that is iterated comes with
an `order`, any enumeration of its keys. A predicate that is stated for `Look(k)` is folded: proofs that do not
mention `Look(k)` do not see its definition.

## Where the code does not give what one expects

Each of these is a theorem; the code is modelled as it is.

- `url::build` followed by `url::parse` gives the value back **exactly** for the values that `UrlLaws.Canonical`
  describes (`UrlRoundTrip.RoundTrip`).
- `chunked_writer::write` always takes `min(max, size)` bytes, not what is left. This stays in range **exactly** when
  the data is at most 99,999,999 bytes long or a multiple of that (`Chunked.WritableExactly`).
- `chunked_reader::validate_end_of_chunk` accepts two bytes **exactly** when the first is CR or the second is LF. With
  room for two bytes in the buffer it takes the end of a chunk off **exactly** when both of its bytes can be had at once;
  when only the first can, it reports what the source reports, which is no error over a steady source, and the next size
  line is refused (`Chunked.ChunkedReader.ValidateEndOfChunk`, `Chunked.ChunkedReader.EndThenNext`). The source is always
  asked for as much as the buffer holds, so where it gives a single byte of several follows from its replies, the
  capacity and the length of the stream alone (`Streams.LoneReads`). Over a steady source a run of reads delivers all that
  it asks for **exactly** when this ends with the first chunk at whose end the source gives a single byte, or before;
  otherwise it delivers the chunks up to this one and leaves the frames behind it (`Chunked.RunsTo` in
  `Chunked.RoundTrip` and `HttpMessage.ChunkedMessage`).
- `buffered_writer::write` assumes that its flush emptied the buffer. It keeps all bytes **exactly** when that flush is
  not cut short silently (`BufferedWriting.BufferedWriter.Write`).
- `trim_string` looks for bytes: it cuts off a byte **exactly** when it is part of the UTF-8 form of a character in its
  list, so the front of other characters as well (`StringUtil.SpaceExactly`).
- A header comes back from its line **exactly** when its name is trimmed and has no colon and it has either one value,
  trimmed, not empty and without a comma, or two values of which the second is empty and the first has no comma and
  does not begin with a blank (`HeaderLaws.HeaderExactly`). What two values become in general is
  `HeaderLaws.TwoValues`: the blank behind the comma stays with the second.
- A response comes back from its head **exactly** when the numbers of its version are at most 9, its status is known, each
  of its headers comes back from its own line and the lines do not reach the limit (`HttpExact.ResponseExactly`).
- `parse_headers` takes the end of the stream for the blank line. A head that is cut off decodes without an error
  **exactly** when its version is written in digits, its status is known, the cut is behind the blank that follows the
  status, and the lines that are left do not reach the limit (`HttpTruncated.CutHeadExactly`).
- A handle that other threads push to the thread pool is left behind in some run **exactly** when its call had seen
  `running` set and had not pushed yet when `running` fell (`ThreadPoolShutdown.ShutdownDrainsExactly`).
- `thread_pool::shutdown` never returns in some run **exactly** when, as `running` has just fallen, a worker has
  evaluated its wait predicate without having blocked, and nobody is about to push: neither a resumed handle nor a call
  of another thread that saw `running` set (`ThreadPoolShutdown.ShutdownHangsExactly`).
- `num_borrowed` is the number of live handles **exactly** as long as no `make` has thrown and no live handle has been
  assigned over (`ResourcePool.Reachable`); once every slot has leaked, every later `get` waits for good
  (`ResourcePool.LeaksStarve`).
- With padding, `decode` of a text of at least two characters writes outside its output, or asks for an output of
  negative size, **exactly** when there is more padding at the end than room, or the last group of four has more bytes
  than the padding behind it leaves, or characters that are left over make a byte; groups count only if the loop
  reaches them (`Base64.OverrunsExactly`). Whole groups of four are safe (`Base64.WholeGroupsSafe`).
- `decode` accepts more than `encode` writes: padding inside a text, short groups, and bits that are left over. Encoding
  gives a decoded text back **exactly** when the text is characters of the alphabet and then padding to a whole group,
  with no group of one character and no bits left over (`Base64Exact.ReencodesExactly`); padding inside is read as zero
  bytes (`Base64Exact.PaddingInside`).
- `cache::purge` leaves the cache usable **exactly** when the hand was at the end (`SieveCache.Cache.Purge`).
- A registration that the router refuses leaves the nodes of the parts before the refused one behind. It never makes a
  request succeed (`RouterLaws.RefusedOnlyBreaks`). It leaves a handled request alone **exactly** when none of these
  nodes is the request's own beginning with a literal in the place of a wildcard of its route
  (`RouterLaws.RefusedHarmlessExactly`), and every request that is served through a wildcard behind literals can be
  taken away in this manner (`RouterLaws.RefusedBreaks`).

## Model

| member | source | states |
|---|---|---|
| `UrlRoundTrip.RoundTrip` | src/url.cpp:370-406 | parsing the printed form of a URL value gives that value back if and only if the value is canonical, for every iteration order of the query map |
| `UrlLaws.Lossless` | src/url.cpp:45-270 | on every input, accepted or not, the undecoded pieces joined with the consumed delimiters are the input, no-scheme backtrack included, and no piece contains a character that ends it |
| `UrlLaws.RunSplits` | src/url.cpp:45-129 | a parse is what the scheme, authority and user-information steps cut off, followed by a run of the later steps on the rest |
| `UrlLaws.QueryComesBack` | src/url.cpp:221-263 | the parameters printed for a query map without delimiters and empty value lists parse to that map, in any order |
| `UrlPieces.PiecesExactly` | src/url.cpp:45-299 | a text is parsed into given pieces, ending in a given state, if and only if the pieces joined with their delimiters are the text, each keeps to the rule for its place, and the state is that of the last delimiter |
| `UrlPieces.FailsExactly` | src/url.cpp:358-368 | a text made of such pieces fails if and only if it ends with a delimiter that something should follow, in the state that waits for it and with its length as the index; it aborts if and only if some piece has an escape cut short |
| `UrlPieces.SpelledParses` | src/url.cpp:45-368 | any URL value, its parts spelled with any of their characters escaped, among them the delimiters and '%', parses to that value |
| `UrlDecode.EscapeDecodes` | src/url.cpp:327-352 | '%' and the two hexadecimal digits of a byte, in either case, are read as that byte, whatever is around them |
| `UrlDecode.LoneDigitDecodes` | src/url.cpp:334-343 | a first digit without a second stands for its own value |
| `UrlDecode.BadEscapeDrops` | src/url.cpp:334-343 | without a first digit the escape is dropped together with the text before it |
| `UrlDecode.ShortEscapeAborts` | src/url.cpp:327-343 | decoding aborts when fewer than two characters follow a '%' |
| `UrlDecode.SpelledDecodes` | src/url.cpp:327-352 | a text with any of its characters escaped, among them every '%', decodes to the text |
| `UrlQuery.ParamsExactly` | src/url.cpp:240-262 | a query is read if and only if the key and value of each of its parameters can be decoded, and gives exactly the keys that occur, each with the values of its parameters in order |
| `UrlQuery.SpelledParam` | src/url.cpp:240-262 | a parameter with spelled key and value gives the key the value |
| `Url.Parser.ParseAll` | src/url.cpp:272-299 | the driver loop ends on every input although `end` is set back to 0, stays in range, and gives what the pure parser gives |
| `Url.Parser.ParseScheme` | src/url.cpp:45-83 | looks one character further or makes the whole scheme step, including the backtrack without ':' |
| `Url.Parser.ParseAuthority` | src/url.cpp:85-100 | makes the authority step: "//" leads to the user information, anything else to the path |
| `Url.Parser.ParseUserInfo` | src/url.cpp:102-129 | makes the user-information step: splits before the first '@' at the first ':', or consumes nothing |
| `Url.Parser.ParseHost` | src/url.cpp:131-162 | makes the host step |
| `Url.Parser.ParsePort` | src/url.cpp:164-194 | makes the port step |
| `Url.Parser.ParsePath` | src/url.cpp:196-219 | makes the path step |
| `Url.Parser.ParseQuery` | src/url.cpp:221-263 | makes the query step, with the parameters stored or the abort of `substr` on a truncated escape |
| `Url.Parser.ParseFragment` | src/url.cpp:265-270 | makes the fragment step |
| `Url.ParseUrl` | src/url.cpp:358-368 | the parsed value, or the state and index of the failure |
| `Url.DecodeText` | src/url.cpp:327-352 | the loop computes percent-decoding, with the text before a malformed escape dropped and the abort when fewer than two characters follow a '%' |
| `Url.ParseParams` | src/url.cpp:240-262 | the loop over the '&'-separated pairs computes the query map |
| `Url.BuildUrl` | src/url.cpp:370-406 | prints the parts that are there with their delimiters, the query in the given order |
| `UrlPrint.BuildExactly` | src/url.cpp:370-406 | any value is printed as its scheme before "://", user name and password around ':' before '@', the host, the port behind ':', the path, the query and the fragment behind '#', without those that are empty |
| `UrlPrint.QueryJoins` | src/url.cpp:389-401 | the query is the texts "key=value" of all values of all keys, in order, joined by '&' behind a '?', or nothing when there is none |
| `Url.BuildQuery` | src/url.cpp:389-401 | prints each value of each key as a pair, the first behind '?', the others behind '&' |
| `BufferedReading.RunOps` | src/io/buffered_reader.cpp:25-150 | over any sequence of reads and peeks and any short reads and errors: the concatenated reads ++ buffered ++ unread are the stream; each read gives at most its size; each peek sees the byte behind what was delivered so far, and a read behind it delivers it; the buffer stays within its capacity; over a steady source reads and peeks give something as long as there is something |
| `BufferedReading.BufferedReader.Read` | src/io/buffered_reader.cpp:25-95 | what is delivered comes off the front of buffered ++ unread; buffered bytes are delivered without asking the source, which is asked once for what the buffer can hold, and the count is exact then |
| `BufferedReading.BufferedReader.Peek` | src/io/buffered_reader.cpp:118-127 | shows the first byte that a read would deliver and leaves it in the buffer |
| `BufferedReading.BufferedReader.Fill` | src/io/buffered_reader.cpp:140-150 | one read into the free part of the buffer; nothing is lost or reordered |
| `BufferedReading.BufferedReader.Bypass` | src/io/buffered_reader.cpp:60-69 | reads straight into the caller's memory in steps of the capacity |
| `BufferedWriting.BufferedWriter.Write` | src/io/buffered_writer.cpp:22-74 | without error sink ++ buffer grows by exactly the data if and only if the flush was not cut short silently; with an error the sink holds a prefix; a sink that never fails causes no error; data that the buffer has room for do not reach the sink |
| `BufferedWriting.BufferedWriter.Flush` | src/io/buffered_writer.cpp:78-93 | on success everything is in the sink; after an error the buffer still holds all of it and the sink the reported count |
| `BufferedWriting.BufferedWriter.FlushAvailable` | src/io/buffered_writer.cpp:107-129 | one attempt; what was not accepted moves to the front, sink ++ buffer is unchanged |
| `BufferedWriting.RunOps` | src/io/buffered_writer.cpp:22-129 | over any run up to its first error sink ++ buffer is the data written so far, all in the sink after a flush, and at the error the sink is a prefix; the run ends early if and only if its operations make more calls of the sink than succeed, in the operation whose call is the first to fail and with the error of that call |
| `Lines.ReadLine` | src/io/util.cpp:32-47 | the shortest prefix ending in the delimiter, stripped, or what there is when the source was asked and gave nothing; over a steady source the first line of the stream; the error returns behind a successful peek are unreachable |
| `Lines.ReadLines` | src/io/util.cpp:15-50 | repeated calls cut the stream into consecutive lines that do not contain the delimiter; over a steady source they are the first lines of the stream, what they leave is left, and a line without its end is followed by nothing |
| `Lines.FirstHere` | src/io/util.cpp:32-47 | a line without the delimiter, followed by it, is what a call returns, and the rest stays |
| `Lines.LimitReader.Read` | src/io/limit_reader.cpp:13-28 | delivers the front of the first `limit` bytes of its parent, then reports the end, and leaves what is behind them |
| `Chunked.RoundTrip` | src/http/chunked_reader.cpp:15-108 | for any sequence of writes, any sequence of request sizes and any source, what the reads deliver is the concatenated payloads in order, and all that was asked for unless a read reports an error; over a steady source that happens if and only if more is asked for than ends with the first chunk at whose end the source gives a single byte, which follows from its replies and the capacity, and then the chunks up to this one were delivered and the frames behind it are left; never over a source that delivers two bytes at once or through a buffer of one byte, and behind the first chunk if bytes come one at a time; sending fails only if the sink does |
| `Chunked.WritableExactly` | src/http/chunked_writer.cpp:42-46 | the chunks that `write` takes lie inside the data if and only if its length is at most the largest chunk or a multiple of it |
| `Chunked.SizeLineExactly` | src/http/chunked_reader.cpp:59-93 | a text begins with a size line if and only if it is digits, perhaps none, CRLF and a rest; the size is the number that the digits spell, modulo 2^64 |
| `Chunked.MaxChunkValue` | src/http/chunked_writer.cpp:15-31 | the largest chunk is 99,999,999, the largest number of eight digits |
| `Decimal.MaxDecimalFits` | src/http/chunked_writer.cpp:15-31 | a number has at most `size` decimal digits if and only if it is at most the computed maximum |
| `Chunked.ChunkedWriter.Write` | src/http/chunked_writer.cpp:35-66 | over any parent and for any data: the rounds carry the data in order, each as much of its chunk as the parent accepts, until all is carried, an error is reported, or the next chunk would leave the data; over a parent that writes everything or reports an error the last happens if and only if the data are not writable, and otherwise the frames of decimal sizes are sent in order and complete, a prefix of them at an error |
| `Chunked.WriteAll` | src/http/chunked_writer.cpp:35-66 | consecutive writes send the frames of all payloads in order |
| `Chunked.ChunkedReader.Read` | src/http/chunked_reader.cpp:15-57 | over any source delivers the payload in order, all that was asked for unless it reports an error, and stops only at a terminating zero chunk; over a steady source a chunk end is taken apart if and only if the source gives a single byte there, and a request for payload that is there fails if and only if that happens before its last byte, always with the error for illegal bytes, and leaves the frames behind that end; behind such an end always fails; one for more than is there fails if nothing follows the last chunk |
| `Chunked.ChunkedReader.GetNextChunkSize` | src/http/chunked_reader.cpp:59-93 | over any source what is accepted is a line of digits and CRLF, with the size modulo 2^64; over a steady source every such line is accepted, and a first byte that cannot begin one is consumed and refused |
| `Chunked.ChunkedReader.ValidateEndOfChunk` | src/http/chunked_reader.cpp:95-108 | whatever two bytes it gets it accepts if and only if the first is CR or the second is LF, and fewer only if it got a CR; gets two if and only if they can be had at once, over a steady source if and only if that does not give a single byte there; otherwise reports the error of the source if there is one |
| `Chunked.ChunkedReader.EndThenNext` | src/http/chunked_reader.cpp:15-108 | a chunk end that arrives in two parts makes the next size line fail |
| `HttpRoundTrip.RoundTrip` | src/http/http11.cpp:281-361 | encoding a response into a sink and decoding it through a buffered reader gives version, status, headers and the choice of the body reader back and leaves the stream at the body; an unknown status or header lines that reach the limit give exactly their errors |
| `HttpRoundTrip.ResponseComesBack` | src/http/http11.cpp:89-225 | the same of the pure encoder and decoder, for every body, limit, reason phrase and iteration order |
| `HttpRoundTrip.HeadersComeBack` | src/http/http11.cpp:158-225 | the printed header section parses back from any accumulated state, with or without its blank line, or fails with the size error exactly when the lines reach the limit |
| `Http11.VersionComesBack` | src/http/http11.cpp:62-87 | a version with single-digit numbers parses back |
| `Http11.StatusLineComesBack` | src/http/http11.cpp:89-117 | a printed status line gives version and status, or the error for an unknown status |
| `Http11.HeaderLineExactly` | src/http/http11.cpp:158-225 | a printed header line gives its name and value back if and only if the name is trimmed and has no colon and the value is trimmed, not empty and has no comma |
| `HeaderLaws.ValuesSplit` | src/http/http11.cpp:195-225 | however many values without commas a header has, its line shows exactly these between commas, each but the first with a blank in front |
| `HeaderLaws.TwoValues` | src/http/http11.cpp:158-225 | what any two values without commas come back as: the first without the blanks in front, the second with the printed blank and without those behind, or empty if it is blank |
| `HeaderLaws.HeaderExactly` | src/http/http11.cpp:158-225 | a header with any number of values comes back from its line if and only if its name is trimmed and has no colon, and it has one trimmed value without a comma, or an empty value behind one without a comma or a leading blank |
| `HttpExact.HeadersExactly` | src/http/http11.cpp:158-225 | the printed headers parse back to the same headers if and only if each of them comes back from its own line and the lines do not reach the limit |
| `HttpExact.ResponseExactly` | src/http/http11.cpp:89-225 | a printed head decodes to the same response, with the stream left at the body, if and only if the version has single digits, the status is known, each header comes back from its own line and the lines do not reach the limit |
| `StatusLines.StatusLineParses` | src/http/http11.cpp:62-117 | a line gives a version and a status if and only if it is "HTTP/", two texts around the first point that begin with the numbers of the version, a blank, a text that begins with the status, which is not zero, and a second blank; what follows a number up to the next delimiter is ignored |
| `HttpExact.StatusLineExactly` | src/http/http11.cpp:281-293 | version and status come back from the status line if and only if both numbers of the version, each written as one character, are at most 9 and the status is known |
| `HttpMessage.LimitedMessage` | src/http/http11.cpp:281-361 | a response whose one "content-length" header prints the length of its body and that is not chunked, sent with the body and followed by anything: the head comes back with a limited reader for this length, which delivers exactly the body in reads of any size, and the stream is left behind it |
| `HttpMessage.ChunkedMessage` | src/http/http11.cpp:281-361 | a response with chunked headers, sent with its payloads as chunks: the head comes back with the chunked reader, which delivers the payloads as far as the first chunk at whose end the source gives a single byte, which follows from its replies, the capacity and the length of head and frames |
| `HttpMessage.ReadBody` | src/io/limit_reader.cpp:13-28 | reads of any size deliver all of a limited body that is there and leave what is behind it |
| `HttpMessage.LengthLine` | src/http/headers.cpp:167-177 | a line that prints a content length, its name in any case, limits the body to it |
| `HttpMessage.ChunkedLine` | src/http/headers.cpp:235-251 | a line with a chunked transfer encoding, name and value in any case, behind any headers asks for the chunked reader whatever other headers say |
| `HttpTruncated.CutHeadExactly` | src/http/http11.cpp:89-193 | a head cut to any length decodes without an error if and only if the version is written in digits, the status is known, the cut is behind the blank that follows it, and the lines left do not reach the limit |
| `HttpTruncated.CutAtLineEnd` | src/http/http11.cpp:158-193 | cut at the end of a header line it decodes to the headers that are there |
| `HttpTruncated.HeadersFailExactly` | src/http/http11.cpp:158-193 | whatever the bytes are, parsing them as headers fails if and only if the lines up to the blank one or the end reach the limit |
| `Http11.BodyExactly` | src/http/http11.cpp:348-356 | the body reader is the chunked one if and only if some value of the transfer encoding is "chunked" up to case and blanks around it; otherwise a limited one, for the number that the first content length begins with if there is one and it fits, and for no bytes if not |
| `Http11.LineAdds` | src/http/http11.cpp:158-193 | a header line adds the parts of its text between commas, behind the values that its name, compared without case, has already, and the first spelling of the name stays |
| `Http11.SameNameLines` | src/http/http11.cpp:186-189 | two lines whose names differ at most in the case of letters give the values of the first and then those of the second |
| `Http11.OtherNameLine` | src/http/http11.cpp:158-193 | a line of another name leaves a header as it is |
| `Http11.LineSkipped` | src/http/http11.cpp:176-177 | a line without a colon adds nothing |
| `Http11.LengthComesBack` | src/http/headers.cpp:167-177 | a printed content length limits the body to it |
| `Http11.FindChunked` | src/http/headers.cpp:235-251 | the loop over the transfer encodings finds whether one is chunked |
| `Http11.ReadHeaders` | src/http/http11.cpp:158-193 | over any source the result is that of the lines that were read, which are what was consumed: their headers below the limit, the size error otherwise; a line without its end is taken only when the source was asked and gave nothing; over a steady source they are the lines of the stream up to the blank one |
| `Http11.DecodeResponse` | src/http/http11.cpp:339-361 | over any source the result is that of the status line and header lines it got, which are what it consumed, with the body reader their headers ask for by name and value; over a steady source it is that of the pure decoder and the body is left unread |
| `Http11.WriteHeaders` | src/http/http11.cpp:195-225 | writes the lines of all headers in iteration order, or a prefix of them and an error |
| `Http11.EncodeResponse` | src/http/http11.cpp:281-309 | writes status line, headers and blank line, or a prefix of them and an error; no error over a sink that never fails |
| `Http11.AddValues` | src/http/headers.cpp:98-102 | adds each value under the name in lower case, behind those already there |
| `Decimal.ParseDigits` | src/http/http11.cpp:53-60 | a printed 32-bit number parses to itself, whatever follows its digits |
| `Decimal.DigitsAre` | src/http/chunked_writer.cpp:15-31 | each character of a printed number is its digit for that power of ten |
| `Decimal.DigitAt` | src/http/http11.cpp:53-60 | the digits are the ten characters, each with its place as its value |
| `Decimal.ParsesBeginning` | src/http/http11.cpp:53-60 | what is parsed is the number that the text begins with, if there is one and it fits |
| `StringUtil.LowerExactly` | include/util/string_util.hpp:45-49 | two names are the same in lower case if and only if they differ at most in the case of ASCII letters |
| `StringUtil.SplitString` | include/util/string_util.hpp:24-40 | the generator yields the parts between the separators |
| `StringUtil.SplitExactly` | include/util/string_util.hpp:24-40 | a list of parts is the split of a text if and only if it joins to the text and no part contains the separator |
| `StringUtil.SpaceExactly` | include/util/string_util.hpp:67-72 | a byte is trimmed if and only if it is one of the bytes that a character of the whitespace list has in UTF-8, alone or not |
| `StringUtil.TrimExactly` | include/util/string_util.hpp:63-80 | what a text trims to is the one part of it with no blank at either end and only blanks around it; a text of blanks only trims to itself |
| `ThreadPool.Reachable` | src/coro/thread_pool.cpp:56-127 | in every interleaving: `num_jobs` counts queue, handles being resumed and calls about to push; handles leave the queue in order, each once; while a worker sleeps every queued handle has a worker of its own on its way; the queue is empty when the last worker exits |
| `ThreadPool.StepKeeps` | src/coro/thread_pool.cpp:84-127 | every atomic step of workers, callers and `shutdown` keeps these invariants |
| `ThreadPool.NeverUnderflows` | src/coro/thread_pool.cpp:84-114 | `num_jobs` is positive whenever a worker decrements it |
| `ThreadPool.ExitedMeansDone` | src/coro/thread_pool.cpp:84-113 | once all workers have exited, every handle pushed while one was left was resumed exactly once, in push order, and came back; the queue holds what was pushed later |
| `ThreadPoolHistory.ScheduledAreResumed` | src/coro/thread_pool.cpp:24-127 | in every interleaving the handles resumed and those queued are, in order and each once, those that the calls of the run pushed; when all workers have exited only those pushed behind them are left; `num_jobs` is what the run counted up less what it counted down; `running` is set until `shutdown` |
| `ThreadPoolShutdown.ShutdownDrainsExactly` | src/coro/thread_pool.cpp:47-69 | no run after `shutdown` leaves a handle behind if and only if no call that saw `running` is still to push |
| `ThreadPoolProgress.Settles` | src/coro/thread_pool.cpp:84-113 | without new scheduling the workers take at most a bounded number of steps, after `shutdown` even with spurious wakeups |
| `ThreadPoolProgress.SettledMeansDone` | src/coro/thread_pool.cpp:84-127 | when no worker can move, every handle was resumed and came back; if `shutdown` notified and missed nobody, all workers have exited |
| `ThreadPoolProgress.CanExit` | src/coro/thread_pool.cpp:84-113 | after `running` fell, the workers of any state can run to their ends |
| `ThreadPoolShutdown.ShutdownHangsExactly` | src/coro/thread_pool.cpp:56-69 | some run ends with nobody able to move and a worker asleep if and only if a worker has evaluated its predicate and not blocked, no resumed handle is about to push, and no call that saw `running` is still to push |
| `ThreadPoolShutdown.StuckExactly` | src/coro/thread_pool.cpp:47-127 | no thread can do anything if and only if `shutdown` has notified, all workers sleep or are gone, and no call is under way |
| `ThreadPoolShutdown.LossIsReachable` | src/coro/thread_pool.cpp:47-69 | in a pool of any size some run loses a handle |
| `ThreadPoolShutdown.HangIsReachable` | src/coro/thread_pool.cpp:56-69 | in a pool of any size some run ends with nobody able to move and a worker asleep |
| `ResourcePool.Reachable` | include/util/resource_pool.hpp:26-132 | in every interleaving: resources are disjoint and held once, idle + borrowed is at most `max_size`, `num_borrowed` never underflows, and it is the number of live handles if and only if nothing leaked |
| `ResourcePool.StepWaiters` | include/util/resource_pool.hpp:82-132 | every step keeps: `num_waiting` counts the waiters; with a waiter the limit is exhausted; with a blocked one there are no more idle resources than notified waiters |
| `ResourcePool.StepOwnership` | include/util/resource_pool.hpp:26-132 | every step keeps each resource in one place |
| `ResourcePool.NoLostWakeup` | include/util/resource_pool.hpp:82-132 | when all notified waiters have run and one still waits, nothing is idle and the limit is exhausted |
| `ResourcePool.PutServesWaiters` | include/util/resource_pool.hpp:92-132 | a resource returned while somebody waits is kept, and the notified waiter gets this very one if it runs next |
| `ResourcePoolLaws.PutExactly` | include/util/resource_pool.hpp:118-132 | with nobody waiting a returned resource becomes the last idle one if and only if fewer than the target size are idle, and idle stays as it was otherwise; nothing else changes but the count and the handle |
| `ResourcePoolLaws.PutForWaiters` | include/util/resource_pool.hpp:118-132 | with somebody waiting a returned resource becomes the last idle one, whatever the target size |
| `ResourcePoolLaws.GetExactly` | include/util/resource_pool.hpp:82-102 | `get` takes the last idle resource if there is one, makes one if and only if none is idle and the limit is not reached, and waits otherwise |
| `ResourcePoolLaws.TryGetExactly` | include/util/resource_pool.hpp:104-116 | `try_get` borrows the last idle resource if there is one, and changes nothing otherwise |
| `ResourcePoolLaws.ResumesExactly` | include/util/resource_pool.hpp:82-102 | a waiter that runs takes the last idle resource and is not counted as waiting any more, or waits on |
| `ResourcePoolLaws.KeptIsNext` | include/util/resource_pool.hpp:82-132 | a resource that was kept is the one that the next `get` or `try_get` borrows, and none is made |
| `ResourcePoolLaws.MadeExactly` | include/util/resource_pool.hpp:82-102 | only a `get` that finds nothing idle makes a resource |
| `ResourcePoolLaws.IdleWithinTarget` | include/util/resource_pool.hpp:82-132 | over a run in which nobody waits no more resources are idle than the target size |
| `ResourcePool.LeaksStarve` | include/util/resource_pool.hpp:37-102 | once every slot has leaked nothing is ever idle or made again, and threads can only wait |
| `ResourcePool.StarvationIsReachable` | include/util/resource_pool.hpp:82-94 | in a pool of any size `make` can throw until every slot has leaked |
| `SieveLaws.Replay` | include/util/cache.hpp:28-89 | over any run of set, get and erase every answer is the latest value set since the last erase, and the cache ends in the state of the specification |
| `SieveLaws.Run` | include/util/cache.hpp:28-89 | in every reachable state keys are distinct, the size is at most the capacity, the hand is at the end or on a live entry, and every value is the latest |
| `SieveLaws.NeverStale` | include/util/cache.hpp:47-59 | a lookup that answers gives the latest value |
| `SieveLaws.SetThenGet` | include/util/cache.hpp:28-45 | the key just set is answered with its value |
| `SieveLaws.VictimIsFirst` | include/util/cache.hpp:145-159 | the eviction takes the first entry that is not visited, going back from the hand, and never a visited one while there is another; if all are visited, the one it began with |
| `SieveLaws.SurvivorsStay` | include/util/cache.hpp:145-159 | the other entries stay in order, and exactly the flags that were passed are cleared |
| `SieveLaws.EvictionPaysFlags` | include/util/cache.hpp:145-159 | every entry passed costs one flag, so an eviction ends within one lap |
| `SieveLaws.SweepsArePaidFor` | include/util/cache.hpp:28-159 | over any run all evictions together pass no more entries than there were hits |
| `SieveLaws.HitOutlivesSet` | include/util/cache.hpp:28-59 | over any run, a key that was just looked up is still answered after another key has been set, as long as some entry has not been hit |
| `SieveLaws.HitSurvives` | include/util/cache.hpp:145-159 | a visited entry outlives the next eviction as long as another one is not visited |
| `SieveLaws.EraseKeepsTurn` | include/util/cache.hpp:74-89 | erasing an entry that is not the next victim, the one under the hand included, does not change which entry the next eviction takes |
| `SieveRoom.SetExactly` | include/util/cache.hpp:28-45 | after a `set` the key has its value; another key is lost if and only if the cache was full, the key set is new and the other is the victim's; a new key makes the size one larger up to the capacity |
| `SieveRoom.RoomKeeps` | include/util/cache.hpp:28-89 | a run that has set at most `capacity` different keys answers every key exactly as a map does |
| `SieveRoom.GetExactly` | include/util/cache.hpp:47-59 | a lookup changes no answer and no size |
| `SieveRoom.EraseExactly` | include/util/cache.hpp:74-89 | erasing takes the key away and changes no other answer |
| `SieveRoom.SetAgainOutlives` | include/util/cache.hpp:35-38 | over any run a key that is set again is still answered after another key has been set, as long as some entry is not visited |
| `SieveRoom.OldestGoes` | include/util/cache.hpp:28-159 | over any run, if the entry that an eviction takes was never hit, all others that were never hit were inserted later |
| `SieveRoom.UnvisitedGoes` | include/util/cache.hpp:145-159 | while some entry was never hit an eviction takes an entry that is not visited, and passes no entry that was never hit |
| `SieveCache.Cache.Set` | include/util/cache.hpp:28-45 | refines the list: overwrites and marks, or evicts if full and puts the new entry first |
| `SieveCache.Cache.Get` | include/util/cache.hpp:47-59 | refines the lookup and marks the entry |
| `SieveCache.Cache.Contains` | include/util/cache.hpp:91-97 | agrees with the lookup and marks nothing |
| `SieveCache.Cache.Erase` | include/util/cache.hpp:74-89 | removes the entry and steps the hand back if it was on it |
| `SieveCache.Cache.Evict` | include/util/cache.hpp:145-159 | removes the victim from list and index, clears the passed flags, leaves the hand behind the victim |
| `SieveCache.Cache.Sweep` | include/util/cache.hpp:149-154 | the loop ends, at the victim, with exactly the passed flags cleared |
| `SieveCache.Cache.Purge` | include/util/cache.hpp:102-108 | empties list and index; the cache stays valid if and only if the hand was at the end |
| `Base64.RoundTrip` | src/encoding/base64.cpp:91-133 | decoding undoes encoding for every byte string (not empty with padding) and every alphabet of 64 different characters without the padding character |
| `Base64Exact.ReencodesExactly` | src/encoding/base64.cpp:91-133 | encoding gives a decoded text back if and only if the text is strict: characters of the alphabet, then padding to a whole group, no group of one character, no bits left over; strict texts are decoded |
| `Base64Exact.PaddingInside` | src/encoding/base64.cpp:176-221 | in every decoded text with padding in a group that is not the last, what the group lacks is read as zero bytes, and encoding does not give the text back |
| `Base64Exact.PaddedPairs` | src/encoding/base64.cpp:176-221 | two padded pairs of any characters are such a text: it is decoded, with two zero bytes in the middle |
| `Base64.Encode` | src/encoding/base64.cpp:91-113 | writes every position of the exactly sized output: bits 6q to 6q+5 of the data in the alphabet, then padding |
| `Base64Bits.EncodedExactly` | src/encoding/base64.cpp:91-174 | a text is the code of the data if and only if it has its size, the values of the characters of each group spell in base 64 the number that three bytes spell in base 256, zeros behind the end, and padding follows |
| `Base64Bits.OctetsNumber` | src/encoding/base64.cpp:176-221 | the three bytes of any group spell the number that the values of its characters spell |
| `Base64.EncodeTriplet` | src/encoding/base64.cpp:135-147 | the four characters of three bytes, and nothing else is written |
| `Base64.EncodeTrailing` | src/encoding/base64.cpp:149-174 | two or three characters for one or two bytes left |
| `Base64.WordSextet` | src/encoding/base64.cpp:135-147 | the shifts and masks cut the 24-bit word at the bits of the sextets |
| `Base64.Decode` | src/encoding/base64.cpp:115-133 | for every text that does not overrun: fails if and only if some group is not characters of the alphabet followed by padding, otherwise gives the bytes of the groups; stays in bounds |
| `Base64.DecodeTriplet` | src/encoding/base64.cpp:176-221 | accepts exactly the well-formed groups and writes exactly the bytes they have |
| `Base64.ReadGroup` | src/encoding/base64.cpp:178-207 | the loop finds the values before the first other character and whether only padding follows |
| `Base64.InBounds` | src/encoding/base64.cpp:115-133 | what a group that is reached writes lies inside the output, for every unpadded text and every padded text that does not overrun |
| `Base64.OverrunsExactly` | src/encoding/base64.cpp:115-133 | with padding, for every text of at least two characters, the output has a size and every group that is reached writes inside it if and only if the last group of four, the padding at the end and the characters left over fit |
| `Base64.WholeGroupsSafe` | src/encoding/base64.cpp:115-133 | a padded text of positive length divisible by 4 never overruns, whatever it holds |
| `Base64.EncodedBounded` | include/encoding/base64.hpp:35-45 | the decoded size of an encoded text, less its padding, is the size of the data |
| `Base64.TrailingSize` | include/encoding/base64.hpp:35-39 | both encoded sizes in terms of whole groups and what is left |
| `Base64.FillDecoder` | src/encoding/base64.cpp:57-63 | the table holds the last position of each character, and the invalid mark exactly for the others |
| `Base64.Decoders.Build` | src/encoding/base64.cpp:42-68 | cached or not, the table is that of the alphabet asked for |
| `RouterLaws.RouterIsFlat` | src/http/router.cpp:17-100 | after successful registrations every request is answered as greedy literal-before-wildcard matching over the flat list answers it, the latest registration winning |
| `RouterLaws.ChosenExactly` | src/http/router.cpp:25-61 | a matching route is chosen if and only if no route has a literal in the place of one of its wildcards after the same beginning |
| `RouterLaws.LiteralNeverShadowed` | src/http/router.cpp:25-61 | a route without wildcards gets its requests, with the handler registered last |
| `RouterLaws.AcceptedExactly` | src/http/router.cpp:63-100 | all registrations of a list succeed if and only if no wildcard lacks a name and routes that share a wildcard agree on its name |
| `RouterLaws.SucceedsExactly` | src/http/router.cpp:63-100 | one registration succeeds if and only if each of its wildcards has a name that fits the tree |
| `RouterLaws.ReachesExactly` | src/http/router.cpp:63-100 | the walk of a registration ends before the first part whose wildcard name is missing or does not fit the tree |
| `RouterLaws.DescendAdds` | src/http/router.cpp:63-100 | a registration, refused or not, adds the initial parts of what it walks and nothing else, changes no handlers, and succeeds if and only if it walks its whole route |
| `RouterLaws.RefusedOnlyBreaks` | src/http/router.cpp:63-100 | where a refused registration changes an answer, the request is no longer handled |
| `RouterLaws.RefusedHarmlessExactly` | src/http/router.cpp:63-100 | a refused registration leaves a handled request alone if and only if none of the initial parts it leaves behind is the request's beginning with a literal in the place of a wildcard of its route |
| `RouterLaws.BuildClosed` | src/http/router.cpp:63-100 | after any registrations, refused ones included, every initial part of a path in the tree is in the tree |
| `RouterLaws.RefusedBreaks` | src/http/router.cpp:63-100 | every handled request whose route has a wildcard behind literals is lost after a refused registration of its own beginning |
| `RouterPaths.PartsExactly` | src/http/router.cpp:29-36 | a list of parts is what is routed on if and only if it joins with '/' to the text without one leading slash and no part contains '/' |
| `RouterPaths.SameParts` | src/http/router.cpp:29-36 | two texts have the same parts if and only if they are the same up to one leading slash |
| `RouterPaths.ServeExactly` | src/http/router.cpp:25-61 | by the parts as texts: a handler is the answer if and only if it is that of the last route for the verb which takes all parts and no others and which no route disputes by having the very text of the request in the place of a wildcard; 405 if and only if routes lead to the end and none fits; 404 if and only if none leads there |
| `RouterPaths.PlainText` | src/http/router.cpp:25-61 | a route without wildcards answers exactly the requests for its own text, up to one leading slash, and its verb, unless such a route is registered again |
| `RouterPaths.OneAnswers` | src/http/router.cpp:25-61 | no request is answered by two routes |
| `RouterPaths.NameableExactly` | src/http/router.cpp:63-100 | all registrations succeed if and only if no part is ':' alone and wildcards in the same place behind the same beginning have the same text |
| `RouterPaths.Answer` | src/http/router.cpp:17-100 | through the class: registering a list of routes and dispatching a request gives the answer that the texts of the routes and the path ask for |
| `Router.Router.Add` | src/http/router.cpp:17-23 | registers under the path of the route in the table, or refuses it and keeps what was walked |
| `Router.Router.Subrouter` | src/http/router.cpp:63-100 | walks and extends the tree as the table says, with the two exceptions |
| `Router.Router.Dispatch` | src/http/router.cpp:25-61 | the handler, 404 or 405 of the greedy walk over the table |
| `Ring.RunOps` | include/util/ring_buffer.hpp:17-35 | after any run of pushes and pops indexing and size agree with a bounded queue that drops its oldest element: it holds the elements pushed last, in order |
| `Ring.FifoIsLatest` | include/util/ring_buffer.hpp:17-31 | over any run the queue is the end of everything pushed, as long as pushes up to the capacity and pops make it |
| `Ring.RingBuffer.Push` | include/util/ring_buffer.hpp:17-23 | appends, and drops the oldest element of a full buffer |
| `Ring.RingBuffer.Pop` | include/util/ring_buffer.hpp:25-31 | removes the oldest element; on an empty buffer the contents stay empty |
| `Ring.RingBuffer.At` | include/util/ring_buffer.hpp:33-35 | the element at an index, through the wrap-around; an index past the contents gives the cell it wraps around to |

## Left out

- Sockets, TCP, UDP, DNS, the epoll and kqueue loops and the scheduler: their behaviour is that of the operating system. A socket appears as a `Sink` that writes everything or reports an error (`src/socket.cpp:162-197`).
- Coroutines, tasks and generators: an awaited call is a synchronous call, and a generator is the sequence it yields.
- Sources that stay silent forever: a plan is finite and ends in `closed`, because `buffered_reader::read` and `readline` do not return over a source that delivers nothing without an error.
- `copy_backward` in `buffered_reader` and `buffered_writer` is modelled as the left shift that the library's own tests rely on; on overlapping ranges the standard leaves it undefined.
- BufferedReading.BufferedReader.Bypass: a capacity of 0 is allowed, and then the loop ends only with the plan of the source.
- BufferedWriting.BufferedWriter.Write: over a sink that never fails the capacity must be positive, since the loop does not end otherwise.
- Chunked.RoundTrip: each write must be `Writable`, because others leave the data, and the sink writes everything or reports an error, as a socket does.
- Chunked.ChunkedWriter.Write: ends where the next chunk would leave the data; there the source has no defined behaviour.
- After a read of the chunked reader has reported an error over a source that is not steady nothing is said about later reads: a size line that was read in part is not taken up again.
- Chunked sizes are decimal and no terminating chunk is written, as in the code; section 7.1 of RFC 9112 has hexadecimal sizes and a last chunk.
- HttpRoundTrip.RoundTrip: headers are those that come back from their lines; `HttpExact.ResponseExactly` shows that no others come back. Reason phrases are any text without CR.
- HttpMessage.LimitedMessage: the source is steady and holds the whole message; what a body reader does over a source that fails is what `Lines.LimitReader.Read` and `Chunked.ChunkedReader.Read` say.
- The request side of HTTP/1.1: it is built from the same parts.
- `url::encode`: its search index is not restarted, so it has no evident inverse; `read_until` and `reset` of the buffered reader.
- `thread_pool::resume` for ranges, which counts after it has pushed; a null handle, which is ignored.
- ThreadPool.Reachable: atomic operations are taken to be sequentially consistent, and a handle being resumed may schedule whether or not it has loaded `running`.
- Handles of the resource pool that hold nothing, which are not counted; `use`, which is `get` followed by the end of a handle.
- `cache::get_or_set`, which locks its mutex twice; concurrent `get` calls, which share a lock and only set flags.
- Base64.ReadGroup: the read of one character past the last one, whose result is not used, is left out; characters are taken as unsigned.
- Base64.Decode: padded texts of fewer than two characters, and those that overrun; for these the source reads or writes outside its buffers, or cannot allocate its output.
- `router::subrouter`, which builds routes through a callback and returns nothing.
- Word sizes of `size_t` other than in the chunk size: lengths of texts and buffers are taken not to overflow.
- IP addresses, hexadecimal text, metrics, tracing, patterns, HTTP/2 and DNS messages: easy members, or declarations without behaviour.
