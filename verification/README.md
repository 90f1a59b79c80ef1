# What this project proves

The repository is an online judge: an HTTP engine (`comm/httplib.h`) that both of its servers run on, a
front server that spreads submissions over compile servers (`oj_server/oj_control.hpp`), and the compile
server itself (`compile_server/`). This project models the parts whose correctness is a law about all inputs,
all splits of a byte stream, or all interleavings of threads, and proves those laws with Dafny 4.11.
`dafny verify dfyconfig.toml` checks everything.

| files | what they model |
|---|---|
| `multipart_headers.dfy`, `disposition.dfy`, `multipart.dfy`, `multipart_roundtrip.dfy`, `multipart_exact.dfy`, `multipart_form.dfy` | the multipart/form-data serializer and the incremental parser |
| `streams.dfy`, `chunked.dfy`, `chunked_exact.dfy`, `chunked_writer.dfy` | byte streams with short reads and writes, the line reader, the chunked transfer coding |
| `header_block.dfy`, `header_exact.dfy`, `url.dfy`, `query.dfy`, `query_exact.dfy`, `range_header.dfy`, `base64.dfy`, `path_check.dfy` | the other wire formats of the HTTP engine |
| `location.dfy`, `redirect.dfy` | where a Location header leads, and the client's recursion through redirects and authentication challenges |
| `thread_pool.dfy` | the worker pool, as a step relation |
| `load_balance.dfy`, `judge.dfy`, `judge_loop.dfy` | the fleet of compile servers, any number of judging threads over it, and one such thread as a program |
| `judging_run.dfy`, `judging_runs.dfy`, `temp_directory.dfy`, `verdict.dfy` | a judging run over its temp files: step by step, several at once, as the sequential program, and what it answers |
| `skip_space.dfy` | the word-at-a-time search for trailing spaces |
| `text.dfy`, `wrappers.dfy` | substring search, blanks, trimming; a value that may be missing |

How the model is made:

- Code that updates fields or fills a buffer is a class or a method with a loop, proved equal to a function of
  its inputs; the laws are then lemmas about those functions. Threads are step relations in which every region
  that holds a mutex is one step.
- A byte is a `char` below 256 where it matters. 64-bit and 32-bit wrap-around is written out.
- Callbacks, compilers, user programs, servers, the network and the clock are parameters: functions or
  schedules over which the theorems quantify. A stream's `cuts` chooses every short read and every short write.
- The regular expressions of the multipart parser, the Range header and the Location header are explicit
  recognizers, each proved to match exactly what its expression, read as a grammar, matches.

Results that say where the code does not do what one might expect:

- A quote in a posted field name does harm exactly where a filename seems to open behind it; quotes in filenames do
  none (`HeadersRoundTrip`, `QuoteCutsName`).
- A multipart body is read back from every split exactly when, besides, every content is `Safe`; the content
  CRLF `--` CRLF is not, for a boundary of three characters or more (`DashedLineCanBeLost`).
- Whatever bytes are fed, a form that is accepted is the text of its parts, and what was called back is what stands
  in it (`AcceptedIsForm`). Header lines that the parser does not know change nothing (`OtherLinesIgnored`).
- As long as nobody enqueues once `shutdown` has set its flag, the thread pool loses no wake-up and no job
  (`SafeUntilShutdown`). `enqueue` does not look at the flag, and a later job can find all workers gone
  (`LateIsReachable`, `LateJobIsStranded`).
- A report sets a machine's load counter to zero even while other calls are at the machine; when one of them
  leaves, the counter wraps to the largest 64-bit number (`CounterWraps`).
- `Judge` has no bound on its rounds when servers keep answering with a status other than 200
  (`RetriesWithoutBound`).
- A chunked body is accepted exactly when its provider called `done`; writing a portion of no bytes ends the
  body without the last chunk (`AcceptedExactlyWhenDone`, `WriteContentChunked`).
- A chunked body that breaks off is accepted as complete in exactly one kind of place: between the carriage return
  and the line feed behind the data of a chunk, when the connection is closed regularly (`BrokenBody`).
- Headers written and read come back as they were exactly when no key holds a colon, a line feed or a NUL and every
  value is not empty and holds no line feed, NUL, percent escape or outer blank (`HeaderExact.RoundTripExact`). Setting
  a header refuses none of these but the line feed (`ColonCutsKey`, `EscapeIsLost`). `encode_url` does not protect the
  percent sign (`DecodeEncode`).
- A query string comes back unchanged exactly when no pair needs a separator, an escape or an outer blank that
  the printer leaves unprotected (`QueryRoundTripExact`).
- With the defaults of 20 redirects and 5 authentication retries the bound on the requests of one call is
  C(27, 21) - 1, and some servers reach it (`RequestBinomialBound`, `BoundReached`).

## Model

| member | source | states |
|---|---|---|
| MultipartHeaders.HeadersRoundTrip | comm/httplib.h:3027-3060 | the header lines `Post` prints for a part, read by the parser's case-insensitive rules into a cleared entry, give back its name, filename and content type if and only if the content type has no outer blanks and no quote in the name is followed by what opens a filename |
| MultipartHeaders.MatchesIfOpens | comm/httplib.h:3001-3004 | what follows a quote matches as the rest of the line if and only if it opens a filename |
| MultipartHeaders.HeaderLinesAreLines | comm/httplib.h:5452-5461 | no printed header line is empty or contains the CRLF that ends it |
| MultipartHeaders.DispositionSpelled | comm/httplib.h:5453-5457 | the disposition line is the concatenation that `Post` builds, with the filename only when there is one |
| Multipart.MultipartFormDataParser.Parse | comm/httplib.h:2998-3139 | a call of `parse` leaves the parser, and returns, exactly what `Run` says for the old buffer with the new bytes |
| Multipart.MultipartFormDataParser.ParseInitial | comm/httplib.h:3012-3021 | the first boundary line is awaited, refused unless it is at the very front, then consumed |
| Multipart.MultipartFormDataParser.ParseHeaders | comm/httplib.h:3027-3060 | all visible header lines are applied, up to and including the blank line; it waits only when no complete line is visible |
| Multipart.MultipartFormDataParser.BlankLine | comm/httplib.h:3030-3040 | the blank line announces the entry; a refusing callback invalidates the form |
| Multipart.MultipartFormDataParser.HeaderLine | comm/httplib.h:3042-3056 | one line is applied to the entry, consumed with its CRLF and counted |
| Multipart.MultipartFormDataParser.ParseBody | comm/httplib.h:3061-3110 | one turn of the body state is `Release` and then, if that goes on, `Seek` |
| Multipart.MultipartFormDataParser.GiveAway | comm/httplib.h:3062-3083 | the bytes that cannot belong to a delimiter are delivered, consumed and counted |
| Multipart.MultipartFormDataParser.SkipBackOverRun | comm/httplib.h:3067-3074 | the backward loop finds the start of the trailing run of CR, LF and dash |
| Multipart.MultipartFormDataParser.SeekDelimiter | comm/httplib.h:3085-3108 | up to the delimiter, or as many bytes as the delimiter has, are delivered and consumed |
| Multipart.MultipartFormDataParser.ParseBoundary | comm/httplib.h:3111-3130 | CRLF opens the next entry, dashes and CRLF complete a valid form, anything else waits |
| Multipart.Run | comm/httplib.h:3008-3138 | consumed plus buffered bytes stay the same over a whole call |
| Multipart.FedIsConsumedPlusBuffered | comm/httplib.h:3008-3138 | for any input in any pieces and any callbacks, `off_` plus the buffer length equals the bytes fed |
| Multipart.MakeBody | comm/httplib.h:5438-5465 | `Post` refuses exactly the boundaries with a foreign character, and otherwise builds the body text |
| Multipart.PartTextSpelled | comm/httplib.h:5452-5462 | the text of a part is the concatenation that `Post` builds, optional fields included |
| MultipartRoundTrip.TurnOnTrack | comm/httplib.h:3010-3136 | every turn keeps the parser on the track between what it has called back and the body text that is left |
| MultipartRoundTrip.RunOnTrack | comm/httplib.h:3008-3138 | a call stays on the track and stops only to wait for bytes that are still to come |
| MultipartRoundTrip.FeedOnTrack | comm/httplib.h:3008-3138 | so do any number of calls, and the last one ends as a valid form with exactly the items |
| MultipartRoundTrip.SeenAsTheyAre | comm/httplib.h:3027-3060 | what the posted headers are read as equals the items if and only if all their header fields are in order |
| MultipartExact.RoundTripExact | comm/httplib.h:2998-3139 | fed in one buffer, the parser gives back exactly the posted items if and only if there is one, all header fields are in order and no content contains the delimiter |
| MultipartExact.FormExact | comm/httplib.h:2998-3139 | so it does for parts with any header lines, in what their lines are read as |
| MultipartExact.SplitExact | comm/httplib.h:3061-3110 | every way of splitting the body gives back exactly the items if and only if, besides, every content is safe |
| MultipartExact.FormSplitExact | comm/httplib.h:3061-3110 | every way of splitting a form, whatever its header lines, calls back its contents if and only if no content contains the delimiter and every content is safe |
| MultipartExact.UnsafeLoses | comm/httplib.h:3099-3107 | for every form with an unsafe content, whatever its header lines, and no delimiter in a content there is a split of its body from which it is misread |
| MultipartExact.LosingSplit | comm/httplib.h:3099-3107 | pieces of an unsafe content and its delimiter after which the parser has delivered more than the content |
| MultipartExact.FeedKeeps | comm/httplib.h:3061-3110 | no later byte takes back what has been delivered of a part |
| MultipartExact.RunClean | comm/httplib.h:3042-3056 | whatever the input, no field that is called back holds a line break or, in the content type, a CRLF |
| MultipartExact.QuoteCutsName | comm/httplib.h:3001-3004 | a name with a quote, a semicolon and `filename="` is misread |
| MultipartExact.EmptyFormRefused | comm/httplib.h:3012-3018 | the body of a form without items is not accepted |
| MultipartExact.ShortRunIsSafe | comm/httplib.h:3066-3074 | a content without CRLF `--` whose last run of CR, LF and dash is no longer than the boundary is safe |
| MultipartExact.PlainContentsSurviveEverySplit | comm/httplib.h:3061-3110 | contents without CR, LF and dash are read back from every split, also inside the delimiter |
| MultipartExact.DashedLineCanBeLost | comm/httplib.h:3099-3107 | a content CRLF `--` CRLF is read back in one buffer and misread from some split |
| MultipartForm.OtherLinesIgnored | comm/httplib.h:3042-3056 | a body whose parts carry any further header lines that are neither a content type nor a disposition, letter case ignored, is read back as the items under exactly the same conditions, in one buffer and from every split |
| MultipartForm.AcceptedIsForm | comm/httplib.h:2998-3139 | whatever is fed, in whatever pieces and to whatever callbacks, if it ends as a valid form then all of it is the text of a form, and its parts are what was called back |
| MultipartForm.RefusalStops | comm/httplib.h:3031-3035 | a refusal by a callback fails the call and invalidates the form at once; short of that the answers make no difference |
| MultipartForm.TrailingRefused | comm/httplib.h:3131-3134 | bytes behind a complete form invalidate it and fail the call |
| MultipartForm.JunkBehindDelimiter | comm/httplib.h:3111-3130 | behind a delimiter followed by neither CRLF nor dashes and CRLF the parser waits for ever |
| Disposition.MatchesExactly | comm/httplib.h:3001-3004 | the recognizer matches exactly the lines that the expression, read as a grammar, matches, with the groups of its shortest name |
| Disposition.LastLineCounts | comm/httplib.h:3042-3056 | of the lines of a part the last content type counts and the last disposition, and no other line matters |
| Streams.InStream.Read | comm/httplib.h:1564-1574 | a read gives a nonempty front of the bytes to come, of any length up to the limit, or reports end or failure |
| Streams.LineReader.Append | comm/httplib.h:1583-1594 | the visible line grows by one character, also where it moves from the fixed buffer to the growable one |
| Streams.LineReader.GetLine | comm/httplib.h:1556-1580 | for every fixed buffer of two bytes or more and every schedule of reads, a line is what precedes and includes the next line feed |
| Streams.OutStream.WriteData | comm/httplib.h:2747-2758 | all of the data is sent, in order, whatever the short writes, or a proper prefix of it when the stream breaks |
| Chunked.SizeRoundTrip | comm/httplib.h:2614-2618 | `strtoul` in base 16 takes back every size the writer printed |
| Chunked.ChunkedRoundTrip | comm/httplib.h:2600-2638 | whatever was written before `done`, in whatever portions, is read back, and the reader stops right behind the last chunk |
| Chunked.NeverDone | comm/httplib.h:2600-2638 | without `done` the reader delivers all of the data and reports a failure |
| Chunked.AcceptedExactlyWhenDone | comm/httplib.h:2600-2638 | a written body is accepted if and only if its provider called `done` |
| ChunkedExact.SizeSpelled | comm/httplib.h:2613-2618 | the value of a size with spaces, sign and prefix in front and anything behind it, also when it is negative or does not fit 64 bits |
| ChunkedExact.NoSize | comm/httplib.h:2615 | without a digit there is no size |
| ChunkedExact.AnyChunk | comm/httplib.h:2611-2630 | chunks of other origin are read too: leading zeros, capitals and extensions, and a last chunk of any zeros |
| ChunkedExact.HugeChunkRefused | comm/httplib.h:2616 | a size of the largest 64-bit number or more fails before any data is taken |
| ChunkedExact.BrokenBody | comm/httplib.h:2620-2637 | whatever the place where a body breaks off, a front of its data is delivered, and it is accepted if and only if the stream ends regularly between the carriage return and the line feed behind the data of a chunk |
| ChunkedExact.CutBodyAccepted | comm/httplib.h:2626 | a chunk, a carriage return and nothing more is a complete body |
| Chunked.ReadContentWithLength | comm/httplib.h:2548-2568 | exactly `len` bytes are delivered, or all there are with a failure; a refusing receiver has got a prefix |
| Chunked.ReadChunk | comm/httplib.h:2620-2628 | the rest of a turn: the data, its line end, the next size line, and every way in which they end the body |
| Chunked.ReadTurn | comm/httplib.h:2611-2635 | one turn from a size line to the next, or to the end of the body |
| Chunked.ReadContentChunked | comm/httplib.h:2600-2638 | for every schedule of reads the receiver gets exactly the payload, the result is the specified one, and the stream stands right behind the body |
| ChunkedWriter.FromIToHex | comm/httplib.h:1279-1287 | the loop prints the hexadecimal digits of a size |
| ChunkedWriter.DataSink.Write | comm/httplib.h:2822-2848 | a portion is sent as one chunk, an empty one only ends the loop; after a failure nothing more is sent |
| ChunkedWriter.DataSink.End | comm/httplib.h:2850-2882 | `done` sends the last chunk and the blank line and ends the loop |
| ChunkedWriter.DataSink.Emit | comm/httplib.h:2841-2846 | text is sent and counted whole, or a part of it is sent and the sink is spoilt |
| ChunkedWriter.WriteContentChunked | comm/httplib.h:2813-2892 | the chunks of the whole script are sent and counted, or -1 is returned after a prefix of them, exactly when the provider refuses or the connection fails |
| ChunkedWriter.ScriptSpelled | comm/httplib.h:2813-2892 | the calls of the provider go on exactly up to the first that ends with `done` or an empty portion, or to the shutdown |
| ChunkedWriter.RefusesSpelled | comm/httplib.h:2884-2888 | the writer gives up exactly where one of these calls refuses |
| HeaderBlock.WriteHeaders | comm/httplib.h:2725-2745 | all headers but the exception text are sent, one line each, then a blank line, and the count is their length |
| HeaderBlock.ParseHeader | comm/httplib.h:2491-2518 | the three pointer loops find the key before the first colon and the stripped, decoded value |
| HeaderBlock.ReadHeaders | comm/httplib.h:2520-2546 | lines that do not end with CRLF are skipped, the rest is emplaced in order, and reading stops behind the blank line |
| HeaderBlock.HeadersRoundTrip | comm/httplib.h:2520-2546 | of any headers that fit on their lines exactly the stripped and decoded ones arrive, in order, and reading stops right behind the block |
| HeaderBlock.AnyHeaderRead | comm/httplib.h:2491-2518 | any line with a colon, whatever the blanks around its value, is the header of its key and decoded value, or none if that is blank |
| HeaderBlock.BareLineSkipped | comm/httplib.h:2530-2535 | a line that ends without a carriage return is passed over |
| HeaderBlock.LineSkipped | comm/httplib.h:2502 | so is a line without a colon |
| HeaderBlock.ShownParts | comm/httplib.h:2727-2733 | exactly the exception text is kept back, wherever it stands, and the order of the others is kept |
| HeaderExact.RoundTripExact | comm/httplib.h:2491-2546 | any headers whatever, written and read, come back as they were, with reading stopped right behind the block, if and only if no key holds a colon, line feed or NUL and every value is not empty and holds no line feed, NUL, escape or outer blank |
| HeaderExact.EscapeIsLost | comm/httplib.h:2512-2513 | written and read, the header `k: %41` does not come back as it was |
| HeaderExact.ColonCutsKey | comm/httplib.h:2499-2513 | a key with a colon is read up to the colon, the rest of it goes to the value |
| HeaderExact.ColonIsLost | comm/httplib.h:2499-2513 | written and read, the header with key `a:b` does not come back as it was |
| HeaderExact.WrittenExact | comm/httplib.h:2725-2745 | the same law for both lists that are written, without the exception text |
| HeaderExact.TextWeight | comm/httplib.h:2520-2546 | whatever a text holds, the headers read from it hold no more characters |
| HeaderExact.SameMapExactly | comm/httplib.h:2725-2745 | the receiver's sorted map is the sender's, repeated keys in their order, if and only if the same condition holds |
| HeaderBlock.EmplaceSorted | comm/httplib.h:270-280 | emplacing the entries of a sorted multimap in order rebuilds it, equal keys in their order |
| HeaderBlock.EmplacePlace | comm/httplib.h:270-280 | a header goes behind the last one whose key is not greater, letter case ignored |
| HeaderBlock.EmplaceKeepsSorted | comm/httplib.h:270-280 | and the map stays sorted, whatever is emplaced |
| HeaderBlock.SameKey | comm/httplib.h:270-278 | two keys are the same for the map if and only if they have the same letters, capitals or not |
| Url.EncodeUrl | comm/httplib.h:1406-1435 | the loop encodes character by character up to a NUL |
| Url.DecodeUrl | comm/httplib.h:1437-1472 | the loop decodes two-digit and `%u` escapes, keeps what is no escape, and turns plus signs into blanks only when asked |
| Url.FromHexToI | comm/httplib.h:1262-1277 | a value only for exactly the given number of digits |
| Url.DecodeEncode | comm/httplib.h:1406-1472 | decoding undoes encoding if and only if the string has no NUL and no percent sign that starts an escape, whether or not plus signs count |
| Url.DecodesToItself | comm/httplib.h:1437-1472 | decoding never lengthens a string, and leaves it alone if and only if it has no escape and no plus sign that counts |
| Url.DecodedFromTheLeft | comm/httplib.h:1437-1472 | a text is decoded from the left, each escape as the byte or code of its digits, anything else as itself |
| Url.Utf8Back | comm/httplib.h:1297-1327 | UTF-8 gives back every code that four digits can make, in its shortest form, except surrogates, which give nothing |
| Url.EncodedExactly | comm/httplib.h:1406-1435 | no blank, plus, CR, LF, quote, comma, semicolon or byte from 0x80 is left in an encoded text, and a text is its own encoding if and only if it holds none of them and no NUL |
| Url.PercentThrough | comm/httplib.h:1437-1463 | behind a percent sign the encoder hides no escape and makes none |
| Query.Split | comm/httplib.h:1508-1525 | the pieces between separators, trimmed, without the empty ones |
| Query.TrimRange | comm/httplib.h:1492-1500 | the two index loops find what is between the outer blanks |
| Query.ParsePiece | comm/httplib.h:2927-2941 | the first part is the key, the last further part the value, both decoded; no part, no pair |
| Query.ParseQueryText | comm/httplib.h:2926-2942 | the pairs of all pieces, in order |
| Query.ParamsToQueryStr | comm/httplib.h:2914-2924 | keys as they are, values encoded, joined by ampersands |
| Query.PairRoundTrip | comm/httplib.h:2914-2942 | a printed pair is read back, and its text holds no separator |
| Query.QueryRoundTrip | comm/httplib.h:2914-2942 | a printed query gives back the same pairs in the same order, repeated keys included |
| Query.QueryParts | comm/httplib.h:2926-2942 | any query is read pair by pair between its ampersands |
| Query.KeyAlone | comm/httplib.h:2929-2941 | a piece without an equals sign is a key alone, unless it is blank |
| Query.BlankPart | comm/httplib.h:2929-2941 | blank parts of a piece do not count |
| Query.FirstAndLastPart | comm/httplib.h:2929-2941 | of several parts the first is the key and the last the value |
| QueryExact.QueryLoad | comm/httplib.h:2926-2942 | whatever the text, the pairs it parses to hold no more characters than it decodes to, its separators not counted |
| QueryExact.QueryRoundTripExact | comm/httplib.h:2914-2942 | a list of pairs comes back as it was if and only if no key is empty or holds a separator, an escape, a plus sign or an outer blank, and no value holds a separator, an escape, a NUL or an outer tab |
| RangeHeader.MakeRangeHeader | comm/httplib.h:3526-3537 | the loop prints the ranges with their separators |
| RangeHeader.ParseRangeHeader | comm/httplib.h:2956-2988 | the ranges of a header of the right form, or a refusal as soon as one runs backwards or is too large |
| RangeHeader.AcceptedExactly | comm/httplib.h:2956-2988 | a header is accepted as these ranges if and only if it lists them: digits, dash and digits, spaces behind commas, bounds within 63 bits, no range backwards |
| RangeHeader.RangeRoundTrip | comm/httplib.h:2956-2988 | a printed header is read back if and only if the list is not empty, every bound is absent or fits 63 bits and no range runs backwards |
| Base64.Base64Encode | comm/httplib.h:1331-1357 | the loop with its wrapping 32-bit accumulator gives every six bits their character and pads to a multiple of four |
| Base64.StandardTable | comm/httplib.h:1332-1333 | the 64 characters in their order |
| Base64.RoundTrip | comm/httplib.h:1331-1357 | a decoder gets the bytes back, and the encoding is the only text of its kind |
| PathCheck.IsValidPath | comm/httplib.h:1369-1404 | true if and only if no front of the components goes up more often than down; no component is empty |
| PathCheck.ValidStaysInside | comm/httplib.h:1369-1404 | the accepted paths are exactly those along which one can walk without leaving the tree |
| PathCheck.ComponentsParts | comm/httplib.h:1374-1381 | a slash separates components, wherever it stands |
| PathCheck.OneComponent | comm/httplib.h:1374-1381 | a text without a slash is one component, unless it is empty |
| Location.SplitExactly | comm/httplib.h:4954-4964 | exactly the texts that the expression matches are taken apart, into the groups of its greedy reading |
| Location.ReadLocation | comm/httplib.h:4951-4979 | decoded and split, with the client's scheme, host and port, the scheme's usual port and the path `/` where the header leaves them out |
| Location.PathTarget | comm/httplib.h:4951-4981 | a plain absolute path stays at the same server |
| Location.UrlTarget | comm/httplib.h:4951-4981 | a plain URL leads to its host, on its port or the usual one |
| Redirect.ClientImpl.SendRequest | comm/httplib.h:4843-4888 | the call makes the requests, and has the result, that the specification gives for the servers' behaviour |
| Redirect.ClientImpl.HandleRequest | comm/httplib.h:4890-4943 | a redirect is followed first; then the response so far is checked for a challenge and the request repeated |
| Redirect.ClientImpl.RedirectTo | comm/httplib.h:4945-4999 | no redirect without budget, usable location or support; otherwise the changed request, on this client or on a new one for the other place |
| Redirect.RequestBound | comm/httplib.h:4890-4943 | for every server behaviour the number of requests is bounded by the two budgets that count under the settings |
| Redirect.RequestBinomialBound | comm/httplib.h:4843-4943 | at most C(r+k+2, r+1)-1 requests with r redirects and k retries left; r+1 without digest authentication, k+1 without redirects |
| Redirect.BoundReached | comm/httplib.h:4890-4943 | against a server that redirects as long as it can and then challenges, exactly that many requests are made |
| Redirect.EveryRequestFollows | comm/httplib.h:2895-2912 | every request sent has a path, stays within the budgets, and keeps verb and body or is a GET without one |
| Redirect.RequestOrigin | comm/httplib.h:4945-4999 | every request goes to the place and path the caller gave, or to exactly those of a Location with which an earlier request was answered |
| Redirect.RedirectGoesThere | comm/httplib.h:2895-2912 | a redirect that may be followed leads to exactly the place and path of its Location, with one redirect less, as a bodyless GET exactly for a 303 to another verb than GET or HEAD |
| Redirect.PathRedirect | comm/httplib.h:4976-4982 | in particular a plain absolute path is requested from the same server |
| Redirect.RedirectRefused | comm/httplib.h:4945-4954 | any other redirect ends the call without a response |
| Redirect.ChallengeMet | comm/httplib.h:4912-4938 | a challenge that can be met repeats the request with one attempt counted, and the repeated request decides |
| Redirect.AnswerTaken | comm/httplib.h:4890-4943 | every other response is the result |
| ThreadPool.StepConserves | comm/httplib.h:514-557 | every step keeps: enqueued jobs are those taken, in order, then those queued; taken ones are finished or running |
| ThreadPool.EveryJobEnters | comm/httplib.h:514-518 | in every run the jobs that entered the pool are those of its `enqueue` calls, in order |
| ThreadPool.StepKeepsAwake | comm/httplib.h:514-557 | every step keeps: a queued job has an active worker unless it came after the last worker had left; after the notification nobody sleeps |
| ThreadPool.NoLostWakeUp | comm/httplib.h:514-557 | in every reachable state queued jobs have an active worker if and only if no job came after the last worker had left, spurious wake-ups included |
| ThreadPool.SafeUntilShutdown | comm/httplib.h:514-557 | in every run in which nobody enqueues once the shutdown flag is set, queued jobs have an active worker, and when all workers have left the jobs of the `enqueue` calls have all been taken in that order and have finished |
| ThreadPool.FirstInFirstOut | comm/httplib.h:543-556 | jobs are taken in the order of the `enqueue` calls, each once, and each is finished, running or queued |
| ThreadPool.Drained | comm/httplib.h:520-557 | when all workers have left, all jobs of the `enqueue` calls have finished if and only if none came too late |
| ThreadPool.WorkerStepDescends | comm/httplib.h:539-557 | every worker step uses up exactly one of the steps there are, so no worker spins |
| ThreadPool.ClosingStep | comm/httplib.h:539-557 | after the notification every worker step is exactly one step nearer to the end |
| ThreadPool.ShutdownEnds | comm/httplib.h:520-533 | the joins return after exactly that many steps in any order, with the queue empty and all jobs finished |
| ThreadPool.LateJobIsStranded | comm/httplib.h:514-518 | a job that comes after the last worker has left is never run |
| ThreadPool.LateIsReachable | comm/httplib.h:514-533 | with one worker, a job enqueued after the shutdown can find nobody left |
| LoadBalance.LoadBalance.constructor | oj_server/oj_control.hpp:172-204 | the lines that split at colons into two parts, and no others, become machines, all online, with no load |
| LoadBalance.HostAndPort | comm/util.hpp:285-289 | a host and a port with any number of colons between them are the two parts of a line |
| LoadBalance.MachineLine | oj_server/oj_control.hpp:172-204 | a line with host and port adds one machine, wherever it stands |
| LoadBalance.OtherLine | oj_server/oj_control.hpp:172-204 | a line without a colon, or with more than two parts, adds none |
| LoadBalance.LoadBalance.SmartChoice | oj_server/oj_control.hpp:206-243 | fails exactly when nothing is online; otherwise refreshes the loads and takes the first machine of minimal load |
| LoadBalance.LoadBalance.UpdateAll | oj_server/oj_control.hpp:220-224 | exactly the online machines that answer get their new load |
| LoadBalance.LoadBalance.OfflineMachine | oj_server/oj_control.hpp:244-259 | the machine moves from online to offline with its load reset, if it is still online |
| LoadBalance.LoadBalance.OnlineMachine | oj_server/oj_control.hpp:260-266 | all offline machines go behind the online ones |
| LoadBalance.LoadBalance.IncLoad | oj_server/oj_control.hpp:43-50 | one more, on a 64-bit counter |
| LoadBalance.LoadBalance.DecLoad | oj_server/oj_control.hpp:52-59 | one less, wrapping below zero |
| LoadBalance.LeastLoaded | oj_server/oj_control.hpp:226-239 | there is a first machine of minimal load |
| LoadBalance.ChoiceIsUnique | oj_server/oj_control.hpp:226-239 | and it is determined by the loads |
| LoadBalance.LoadIsAMean | oj_server/oj_control.hpp:106-125 | over the reals the load grows with every metric and lies between the extremes of the metrics |
| LoadBalance.RefreshedLoad | oj_server/oj_control.hpp:220-224 | after a refresh so does the load of every online machine that answered, and every other load is what it was |
| LoadBalance.BetterMetricsWin | oj_server/oj_control.hpp:226-239 | a machine that comes first and is worse in no metric is not passed over |
| LoadBalance.ChoiceIsOnline | oj_server/oj_control.hpp:226-239 | the chosen machine is online |
| LoadBalance.OfflineMoves | oj_server/oj_control.hpp:244-259 | a report takes out one place, keeps the order of all others, and forgets the load of that machine and of no other |
| LoadBalance.JobAddedAndTaken | oj_server/oj_control.hpp:43-59 | one more job counts one more, and taking it back restores the fleet |
| LoadBalance.RefreshedWeights | oj_server/oj_control.hpp:106-125 | the stored load, in hundredths of the weights: 40 for the processor, 20 for memory, 10 each for network, disk and the mean load average, 5 each for connections and response time, rounded down |
| Judge.OfflineKeeps | oj_server/oj_control.hpp:244-259 | a report, also a late or repeated one, keeps every machine in exactly one of the two lists |
| Judge.StepKeeps | oj_server/oj_control.hpp:419-453 | every locked region of any thread, whichever online machine it chooses, keeps the fleet and the failover accounts of all calls |
| Judge.FleetConserved | oj_server/oj_control.hpp:199-269 | in every reachable state online and offline together hold every machine exactly once |
| Judge.FailoverBound | oj_server/oj_control.hpp:397-454 | the rounds of a call are at most the machines online at its start, plus those put back since, plus its answers other than 200, plus one; the output is written only on a 200 |
| Judge.FailuresDistinct | oj_server/oj_control.hpp:444-452 | while nothing is put back a call never reports a machine twice, and what it reported is not online |
| Judge.RoundsBounded | oj_server/oj_control.hpp:397-454 | the same bound counted in the steps of the run: the rounds and reports of a call from its beginning on |
| Judge.ChosenIsAsked | oj_server/oj_control.hpp:424-450 | a call asks, releases or reports the machine that it chose last |
| Judge.OnlyTheSilentLeave | oj_server/oj_control.hpp:444-451 | whatever the interleaving, a machine goes offline only after some call asked it and got no response |
| Judge.LoadsCountCalls | oj_server/oj_control.hpp:43-59 | with no load reported and no machine dead, a counter is its first value plus the calls at its machine |
| Judge.CounterWraps | oj_server/oj_control.hpp:43-59 | after a report the counter wraps below zero when another call leaves the machine |
| Judge.RetriesWithoutBound | oj_server/oj_control.hpp:442-443 | against a machine that keeps answering with another status a call can begin any number of rounds |
| JudgeLoop.Judge | oj_server/oj_control.hpp:397-454 | the call asks one machine after the other, each the choice of the refreshed fleet; the first 200 is the output, without one no machine is left online; the machines that went offline are, in order, those whose posts got no response |
| JudgeLoop.Turn | oj_server/oj_control.hpp:419-453 | one turn: refresh, choice, one post, and then either the load is as before or the asked machine, and it alone, is offline |
| JudgeLoop.SilentOnesLeave | oj_server/oj_control.hpp:444-451 | over all rounds exactly the silent machines leave, one for each silence and none twice |
| JudgingRun.StepDescends | compile_server/compile_run.hpp:115-202 | every operation of a run brings it nearer to its one exit |
| JudgingRun.StepLocal | compile_server/compile_run.hpp:120-202 | an operation depends on no file but the six of its run |
| JudgingRun.StepFrame | compile_server/compile_run.hpp:120-202 | and changes no other |
| JudgingRun.StepTidies | compile_server/compile_run.hpp:58-78 | the clean-up has removed every file it has passed, and no run ends before it |
| JudgingRun.PathTellsName | comm/util.hpp:185-224 | runs with different names share no path |
| JudgingRuns.RunsDoNotInterfere | compile_server/compile_run.hpp:88-203 | in every interleaving every run is where it would be alone after as many operations, and foreign files are untouched |
| JudgingRuns.DirectoryRestored | compile_server/compile_run.hpp:172-202 | once all runs are through, each has the response it gives alone and the temp directory is as it was |
| JudgingRuns.AloneCompletes | compile_server/compile_run.hpp:88-203 | a run is complete after twenty operations |
| Verdict.RunAnswersVerdict | compile_server/compile_run.hpp:115-190 | a run whose files are absent answers what code, input, compiler and program alone determine, stage by stage |
| Verdict.EveryRunAnswersVerdict | compile_server/compile_run.hpp:115-190 | and so does each of any number of interleaved runs with different names |
| Verdict.OutputsAnswered | compile_server/compile_run.hpp:177-187 | what a program without a signal wrote is answered as it is, with a line feed added behind a last line that has none |
| Verdict.SignalAnswered | compile_server/compile_run.hpp:28-55 | a signal is the status, names the reason, and leaves no outputs |
| Verdict.CompilerAnswered | compile_server/compile_run.hpp:36-38 | what the compiler wrote is the reason, ended by a line feed in the same way |
| TempDirectory.TempDir.WriteFile | comm/util.hpp:240-250 | the file has the new contents, or nothing changes when it cannot be opened |
| TempDirectory.TempDir.ReadLines | comm/util.hpp:260-279 | the loop over lines gives the text with a line feed behind its last line, or nothing for a missing file |
| TempDirectory.TempDir.CompileSource | compile_server/compiler.hpp:25-71 | the compiler's files are written, and it succeeds exactly when there was a child and the executable is there afterwards, wherever it came from |
| TempDirectory.TempDir.OpenStandardFiles | compile_server/runner.hpp:53-64 | every file that opens is created, whatever becomes of the others, and it succeeds exactly when all three open |
| TempDirectory.TempDir.RunProgram | compile_server/runner.hpp:44-116 | -1 when a file does not open, -2 without a child, otherwise the low seven bits of the wait status, with both outputs written |
| TempDirectory.TempDir.Conclude | compile_server/compile_run.hpp:172-203 | status and reason always, the outputs only on success, then the clean-up |
| TempDirectory.TempDir.RemoveTempFile | compile_server/compile_run.hpp:58-78 | the six files are removed, where they exist |
| TempDirectory.TempDir.Start | compile_server/compile_run.hpp:88-203 | the sequential program answers and leaves behind what the run, operation by operation, comes to |
| SkipSpace.SkipTrailingSpace | oj_server/include/m_string.h:317-329 | the loop over eight bytes at a time stops where the byte loop stops |
| SkipSpace.SkipTrailingSpaceAligned | oj_server/include/m_string.h:279-309 | so does the variant over aligned words, at every alignment and for words of four and eight bytes, and its assertion holds |
| SkipSpace.EightSpaces | oj_server/include/byte_order_generic.h:56-69 | the eight-byte load equals the mask if and only if all eight bytes are spaces |
| SkipSpace.WordOfSpaces | oj_server/include/m_string.h:281-288 | a word equals the word of spaces if and only if all its bytes are spaces |
| SkipSpace.StopsThere | oj_server/include/m_string.h:326-327 | the byte loop stops at the only place with nothing but spaces behind it and none before it |

## Left out

- LoadBalance.LoadIsAMean: does not model floating-point rounding; metrics are reals that are not negative, and the load is their weighted mean rounded down, which is taken to fit 64 bits.
- LoadBalance.LoadBalance.constructor: the file has been opened and cut into lines, and a port stays the text it is.
- JudgingRuns.RunsDoNotInterfere: takes distinct and nonempty names as a hypothesis, because `UniqFileName` increments its counter and reads it in two operations, so that two calls can get the same name.
- JudgingRuns.DirectoryRestored: files are known by the text of their path, so names that alias through slashes or links are not covered, and `unlink` never fails.
- TempDirectory.TempDir.RunProgram: a program reads only its standard input and writes only its two outputs; limits, signals and `fork` appear only in the wait status.
- Redirect.ClientImpl.RedirectTo: the request's headers and the extra exchange with a TLS proxy are not modelled; `std::stoi` throws on a port that does not fit an `int`, which the model takes as a redirect that fails.
- Disposition.MatchesExactly: the standard library's matcher is taken to do what the expression means; that it may run out of stack on long lines is not modelled. So it is for the other two expressions.
- JudgeLoop.Judge: the backend answers a finite number of posts and is silent afterwards, so that the loop ends; without that it need not, see `Judge.RetriesWithoutBound`.
- ChunkedWriter.WriteContentChunked: only the pass-through compressor, and runs that end, by themselves or because the server shuts down before some call.
- Streams.OutStream.WriteData: a write takes at least one byte or fails.
- HeaderBlock.WriteHeaders: writes into the buffer stream as the callers do; that the buffer is then sent by a single write, which may be short, is not modelled.
- Base64.Base64Encode: `int` is 32 bits wide and its shifts wrap, as they do on the platforms the code runs on.
- Sockets, `select`, TLS, gzip and brotli, MySQL, JSON, templates, `/proc`, regular expression engines: foreign code, seen only through parameters or recognizers.
- Route handlers, HTML, user and question tables, sessions, MD5: plumbing around library calls.
- Progress callbacks, content without a length, and the request line: they would only add easy members.
