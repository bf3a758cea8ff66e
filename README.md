# simple-webdav: a verified model of the WebDAV service core

simple-webdav serves one WebDAV directory per user. Its core,
`core/webdav/webdav.go`, does four things:

- It keeps one handler per sub-directory, created on first use and cached.
- It routes each request to one of three paths: a rate-limited GET, a
  rate-limited PUT, or the handler's own WebDAV processing.
- It answers GET with the whole file, one byte range, or several byte ranges
  as a `multipart/byteranges` body.
- It brackets a PUT with a lock on the path.

The multi-range GET carries the central invariant. The `Content-Length`
header is computed by `parseTotalRange`. That function writes the framing of
the parts into a counting writer, through a multipart Writer whose random
boundary differs from the one used for the body. The body itself is written
into a pipe by a producer goroutine. When no range has a negative length,
the announced length is the body's exact length whenever the two boundaries
have the same byte length, and mime/multipart's boundaries always do (60
lower-case hex digits). A range of negative length (from a negative suffix,
see below) is counted with its negative length in the announced size, but
the producer copies nothing for it. The body then holds more bytes than
announced, and the client receives it cut short, without the end of the
closing delimiter (`Get.NegativeLengthCutsBody`).

The model has ten modules:

- `Wrappers`: Option and Result.
- `Strconv`: `strconv.ParseInt`, `strconv.FormatInt` and int64 wrap-around.
- `Text`: `strings.Split`, `Index`, `TrimSpace` and `EqualFold`.
- `Utf8`: the bytes of a string.
- `Ranges`: the Range header parser and `contentRange`.
- `Multipart`: `mimeHeader`, the Writer's framing, `countingWriter` and
  `parseTotalRange`.
- `Files`: an open file with Stat, Seek, CopyN and Close.
- `Get`: `parseSize`, the producer and `serveGet`.
- `Put`: the lock system and `servePut`.
- `Server`: `loadHandler` and `ServeWebDav`.

Each core function has the form its code has:

- Code that updates state step by step is a method. This covers the parser's
  loop, `parseTotalRange`, the producer, `serveGet`, `servePut` and the
  handler cache. Each such method is proved equal to a function that
  specifies it.
- Objects whose fields change are classes: the file handle, the counting
  writer, the multipart Writer, the lock system, the disk and the server.

The parser follows the code rather than section 2.1 of RFC 7233:

- The unit name before `=` is never compared. `strings.EqualFold` is
  applied to a piece of a split at `=`, which can never equal `"bytes="`.
- A suffix length is not checked. `-0` gives an empty range. A negative
  suffix (`--5`) gives a negative length. As the only range, it is
  requested as a negative `Content-Length`, with an empty body. Among
  several ranges, it shortens the announced size of the multipart body.
- Numbers are signed int64 values. The suffix start `size - N` is computed
  with int64 wrap-around.
- One bad unit rejects the whole header. Ranges are neither sorted nor
  merged.

## Model

| member | source | states |
|---|---|---|
| Strconv.Wrap64 | core/webdav/webdav.go:250 | the result is the int64 value congruent to the mathematical value modulo 2^64, so it equals that value whenever it fits in int64 |
| Strconv.ParseInt | core/webdav/webdav.go:243 | a parsed value lies in int64, and a negative value comes only from text starting with '-' |
| Strconv.ParseIntAccepts | core/webdav/webdav.go:253 | ParseInt succeeds exactly on one optional sign followed by at least one decimal digit, with a value that fits in int64 under that sign |
| Strconv.FormatInt | core/webdav/webdav.go:159 | the decimal text is non-empty, starts with '-' exactly for negative values, and otherwise holds only digits |
| Strconv.ParseFormat | core/webdav/webdav.go:243 | parsing what FormatInt prints gives back every int64 value (round trip) |
| Text.TrimSpace | core/webdav/webdav.go:231 | the result never starts or ends with white space, and text that does not start or end with white space is returned unchanged |
| Text.TrimLeftCut | core/webdav/webdav.go:231 | trimming the front removes a prefix made only of white space |
| Text.TrimRightCut | core/webdav/webdav.go:231 | trimming the back removes a suffix made only of white space |
| Text.TrimSpaceCuts | core/webdav/webdav.go:231 | the result is a slice of the text, and everything before and after that slice is white space |
| Text.EqualFold | core/webdav/webdav.go:223 | equal texts compare equal; texts that compare equal have the same length and agree on every character that is not an ASCII letter |
| Text.TrimSpaceBlank | core/webdav/webdav.go:231-234 | a unit trims to nothing exactly when it is all white space, so exactly those units are skipped |
| Text.Index | core/webdav/webdav.go:235 | -1 exactly when the character is absent; otherwise the position of its first occurrence |
| Text.Split | core/webdav/webdav.go:222 | at least one piece, and no piece holds the separator |
| Text.JoinSplit | core/webdav/webdav.go:222 | joining the pieces of a split with the separator gives back the text |
| Text.SplitJoin | core/webdav/webdav.go:229 | splitting a join of separator-free pieces gives back the pieces |
| Text.SplitCount | core/webdav/webdav.go:222-223 | a split yields one piece more than the text has separators |
| Text.FoldKeepsNonLetter | core/webdav/webdav.go:223 | a piece holding no '=' never equals "bytes=" ignoring case |
| Ranges.SuffixUnit | core/webdav/webdav.go:242-251 | `-N` fails exactly when N does not parse, and otherwise has length min(N, size) |
| Ranges.PrefixUnit | core/webdav/webdav.go:252-273 | an accepted `S-` or `S-E` range starts at S, is never empty and lies inside the resource |
| Ranges.ParseBounds | core/webdav/webdav.go:240-274 | each accepted prefix range is non-empty and inside; a suffix range has length min(N, size) and the int64-wrapped start size - length; every accepted range is sound |
| Ranges.ParseUnit | core/webdav/webdav.go:235-274 | a unit without '-' is an invalid range; the other units behave as ParseBounds states; accepted ranges are sound |
| Ranges.ParseUnits | core/webdav/webdav.go:229-279 | there are never more ranges than units, and every range is sound, meaning inside the resource unless its length is negative |
| Ranges.ParseRangeHeader | core/webdav/webdav.go:221-280 | for a size in int64, every accepted range is sound: inside the resource unless its length is negative |
| Ranges.ErrorPersists | core/webdav/webdav.go:236-237 | once a prefix of the units fails, the whole list fails with the same error |
| Ranges.FailsAt | core/webdav/webdav.go:236-237 | a failing unit after units that all parse fails the list with that unit's error, as the loop's early return does |
| Ranges.UnitStep | core/webdav/webdav.go:230-276 | one more parsing unit skips a blank or appends exactly its own range |
| Ranges.ReadBounds | core/webdav/webdav.go:240-274 | the step-by-step filling of the range {0, 0} gives exactly ParseBounds |
| Ranges.ParseHTTPRange | core/webdav/webdav.go:221-280 | the imperative loop with early returns computes exactly the header's list semantics (ParseRangeHeader) |
| Ranges.UnitsInOrder | core/webdav/webdav.go:229-279 | all or nothing: the list parses exactly when every non-blank unit does, and then the i-th range is the i-th non-blank unit's |
| Ranges.FirstFailure | core/webdav/webdav.go:230-277 | a failing list fails with the error of its first failing non-blank unit |
| Ranges.NoRangeRequested | core/webdav/webdav.go:222-224 | a header with no '=' or with more than one, the empty header included, requests no range and is not an error |
| Ranges.UnitNameIgnored | core/webdav/webdav.go:222-224 | any unit name before '=' is treated exactly like "bytes" |
| Ranges.OpenUnit | core/webdav/webdav.go:262-263 | a start S with 0 <= S < size and a blank end give the range from S to the end |
| Ranges.ClosedUnit | core/webdav/webdav.go:264-272 | a start S with 0 <= S < size and an end E >= S give {S, min(E, size-1) - S + 1} |
| Ranges.PrefixRejects | core/webdav/webdav.go:265-267 | an end that does not parse, or that lies before the start, is an invalid range |
| Ranges.PrefixClosed | core/webdav/webdav.go:264-272 | an end E >= S is clamped to the last byte |
| Ranges.ReversedUnit | core/webdav/webdav.go:266-267 | a unit whose end lies before its start is rejected |
| Ranges.OpenRange | core/webdav/webdav.go:252-263 | the unit `S-` with 0 <= S < size gives {S, size - S} |
| Ranges.ClosedRange | core/webdav/webdav.go:252-272 | the unit `S-E` with 0 <= S < size and S <= E gives {S, min(E, size-1) - S + 1} |
| Ranges.SuffixRange | core/webdav/webdav.go:242-251 | `-N` gives the last min(N, size) bytes; `-0`, or any suffix of an empty resource, gives an empty range; a negative N gives a negative length |
| Ranges.UnitErrors | core/webdav/webdav.go:236-267 | the error of each rejected unit: no '-', a start at or past the size, an end before the start, an unreadable suffix |
| Ranges.OneUnitHeader | core/webdav/webdav.go:222-279 | `bytes=U` for a single well-formed unit U yields exactly U's range |
| Ranges.ContentRange | core/webdav/webdav.go:300-302 | the text starts with `bytes ` and ends with `/` and the resource size |
| Ranges.ContentRangeEchoesRequest | core/webdav/webdav.go:300-302 | the Content-Range of {S, E-S+1} is "bytes S-E/size" |
| Multipart.MimeHeader | core/webdav/webdav.go:304-313 | the part header is Content-Range with the range's contentRange text, then Content-Type with the given type, or application/octet-stream when none is given; the keys ascend |
| Multipart.PartHeaderLines | core/webdav/webdav.go:304-313 | the header lines of a part are `Content-Range: bytes S-E/size`, then `Content-Type: <type or default>`, then a blank line |
| Multipart.TwoKeyBlock | core/webdav/webdav.go:286 | a two-key header is written as one `key: value` line per key and a blank line |
| Multipart.HeaderBlock | core/webdav/webdav.go:286 | a part's header block ends with CRLF |
| Multipart.Delimiter | core/webdav/webdav.go:286 | a part's boundary line starts with `--` for the first part and with CRLF `--` after it, and ends with CRLF |
| Multipart.CloseDelimiter | core/webdav/webdav.go:289 | the closing line is CRLF, `--`, the boundary, `--`, CRLF |
| Multipart.WriterFraming | core/webdav/webdav.go:285-289 | the framing has one head per range and ends with the close delimiter |
| Multipart.FramingLength | core/webdav/webdav.go:282-292 | the framing's byte length is the same under any two boundaries of the same byte length |
| Multipart.CountingWriter.constructor | core/webdav/webdav.go:283 | a new counter holds zero |
| Multipart.CountingWriter.Write | core/webdav/webdav.go:318-321 | accepts every byte, never fails, and adds the length to the count |
| Multipart.MultipartWriter.constructor | core/webdav/webdav.go:284 | a new Writer has its boundary and no part yet |
| Multipart.MultipartWriter.CreatePart | core/webdav/webdav.go:286 | writes the boundary line (with a leading CRLF except for the first part) and the sorted header |
| Multipart.MultipartWriter.Close | core/webdav/webdav.go:289 | writes the closing boundary line |
| Multipart.ParseTotalRange | core/webdav/webdav.go:282-292 | the result is the byte length of the Writer's framing plus the sum of the range lengths |
| Files.Take | core/webdav/webdav.go:162 | io.CopyN delivers a prefix of its source, of length n when there are n bytes, and reports success exactly then |
| Files.File.Open | core/webdav/webdav.go:83 | an open handle starts at offset 0 |
| Files.File.Stat | core/webdav/webdav.go:90-98 | Stat fails as the node does and reports whether it is a directory |
| Files.File.Seek | core/webdav/webdav.go:119 | a negative target or a failing node is an error that leaves the offset; otherwise the offset becomes the target |
| Files.File.CopyN | core/webdav/webdav.go:148 | copies from the current offset and advances the offset by what was copied |
| Files.File.Close | core/webdav/webdav.go:88 | the handle is no longer open |
| Files.TakeInside | core/webdav/webdav.go:148 | a copy of a range inside the file delivers exactly that slice of the file |
| Get.ParseSize | core/webdav/webdav.go:209-219 | the size is the file's length, with the offset back at 0, and fails exactly when seeking fails |
| Get.PartsProducedOk | core/webdav/webdav.go:137-152 | the producer gets through the first n parts exactly when it can seek to and copy each of them |
| Get.ProducedOk | core/webdav/webdav.go:137-155 | the producer closes the body exactly when every range can be read |
| Get.PartsProducedInside | core/webdav/webdav.go:137-152 | with every range inside the file, the producer writes exactly the format's parts |
| Get.ProducedInside | core/webdav/webdav.go:137-155 | with every range inside the file, the producer writes exactly the multipart/byteranges body |
| Get.BodyLength | core/webdav/webdav.go:137-155 | the body is as long as its framing plus its ranges |
| Get.BodyMatchesSize | core/webdav/webdav.go:127-162 | the body written with one boundary is exactly as long as parseTotalRange's size computed with another boundary of the same byte length |
| Get.PartsProducedStops | core/webdav/webdav.go:140-150 | after a failed part, the producer writes nothing more |
| Get.SeekFailed | core/webdav/webdav.go:144-147 | a failed seek ends the output right after that part's head |
| Get.CopyDone | core/webdav/webdav.go:148-151 | a copy completes its part, or ends the output after what it copied |
| Get.Produce | core/webdav/webdav.go:137-155 | the producer loop writes exactly what the producer specification says, and closes the body exactly when it said |
| Get.Deliver | core/webdav/webdav.go:158-166 | the status and body are kept, Accept-Ranges and Content-Length are set, and a short copy aborts with a 405 after the header |
| Get.RespondRanges | core/webdav/webdav.go:107-166 | 416 exactly for a parse error or a lone range with a negative start; status 200 exactly when no range is requested; a completed reply announces its body's length |
| Get.MultiRangeResponse | core/webdav/webdav.go:127-162 | several ranges are answered with 206 |
| Get.Respond | core/webdav/webdav.go:81-167 | 404 for a missing file or a failing Stat, 405 for a directory, 409 for a failing size probe, 416 for a rejected Range header; otherwise 200 or 206 with Accept-Ranges; an abort after the header asks for 405 |
| Get.ServeGet | core/webdav/webdav.go:81-167 | the step-by-step handler replies exactly as Respond, and closes the file on every path once it was opened |
| Get.SendRanges | core/webdav/webdav.go:113-166 | the seek, header and copy of a sized file reply exactly as RespondRanges |
| Get.BoundaryLength | core/webdav/webdav.go:129 | every boundary a Writer draws is 60 bytes long |
| Get.GetWholeFile | core/webdav/webdav.go:113-116 | without a range, the whole file is sent with 200 and its length |
| Get.GetSingleRange | core/webdav/webdav.go:117-126 | one range inside the file is sent alone with 206, its Content-Range and its length |
| Get.ParsedInside | core/webdav/webdav.go:221-280 | accepted ranges of non-negative length lie inside the file |
| Get.MultiRangeReply | core/webdav/webdav.go:127-162 | several ranges inside the file are sent in full as the multipart body, and the announced Content-Length is that body's exact length |
| Get.GetMultiRange | core/webdav/webdav.go:107-162 | a GET of several accepted ranges of non-negative length, inside the file, with two Writers' boundaries, gets the whole multipart body with its exact length |
| Get.PartsProducedLength | core/webdav/webdav.go:137-152 | when the first n ranges can be read, the producer writes their heads plus the bytes it copies, counting a negative length as zero |
| Get.LengthsBelowCopied | core/webdav/webdav.go:148 | the sum of the range lengths is at most the bytes copied, and strictly less when a length is negative |
| Get.ProducedLength | core/webdav/webdav.go:137-155 | when every range can be read, the body is the framing plus the bytes copied |
| Get.NegativeLengthCutsBody | core/webdav/webdav.go:127-162 | with a range of negative length among readable ranges, the reply is a 206 whose body is a strict prefix of what the producer wrote |
| Put.LockSystem.constructor | core/webdav/webdav.go:62 | a new lock system holds no lock |
| Put.LockSystem.Create | core/webdav/webdav.go:173-181 | a lock on a path that is already locked is refused; otherwise a fresh token is recorded for the path |
| Put.LockSystem.Unlock | core/webdav/webdav.go:182-186 | only the token's lock is released |
| Put.Disk.OpenTruncate | core/webdav/webdav.go:188-192 | opening succeeds exactly at a creatable path and empties the file |
| Put.Disk.Append | core/webdav/webdav.go:196 | the copy appends what the request body delivered |
| Put.PutStatus | core/webdav/webdav.go:169-203 | 412 exactly when the path is locked; otherwise 404 when the path cannot be opened, 405 when the body fails, and 201 when the body arrives in full |
| Put.ServePut | core/webdav/webdav.go:169-203 | replies with PutStatus; every lock taken is released, so the locks end as they began; the file holds the received bytes once it was opened |
| Server.Handler.constructor | core/webdav/webdav.go:60-63 | a new handler serves its directory with a fresh, empty lock system |
| Server.RouteFor | core/webdav/webdav.go:47-53 | GET with a download rate and PUT with an upload rate are throttled with that rate; everything else passes through |
| Server.Decide | core/webdav/webdav.go:41-45 | a 500 exactly when no handler was found, else the handler and its route |
| Server.WebDavServer.constructor | core/webdav/webdav.go:35-38 | a new server has its root and no handler |
| Server.WebDavServer.LoadHandler | core/webdav/webdav.go:56-79 | the cached handler of a directory, or a new one for root/dir that is remembered |
| Server.WebDavServer.ServeWebDav | core/webdav/webdav.go:40-54 | every request finds its user's handler, which stays cached, and is routed by method and rates; a first request adds one fresh handler for JoinPath(root, user) with no locks and keeps every other handler |

## Left out

- Rate limiting (`ratelimit` buckets): the throttled paths are modelled without it. The rates only select the route.
- The pipe and the producer goroutine are modelled sequentially. The producer runs to its end, then the consumer takes the announced number of bytes from what it wrote. The bytes the client receives are the same. Blocking, and the reader closing the pipe early, are not modelled.
- `sync.Map`'s atomic `LoadOrStore`: handler creation is modelled single-threaded. A value of another type than a handler is never stored, so the failed type assertions of lines 66-75 cannot happen, and neither can the 500 branch that follows from them.
- Server.JoinPath: `filepath.Join`'s cleaning of the joined path is not modelled, and no containment is promised: after cleaning, a user name such as `../x` would lead outside the root.
- Server.WebDavServer.LoadHandler: its directory is JoinPath's uncleaned join, as above.
- The internals of `golang.org/x/net/webdav` are not modelled. That covers the `serveHTTP` pass-through, whose request is only routed to it, and the file system behind `webdav.Dir`, given as a node or a set of creatable paths.
- Put.LockSystem.Create: only a lock on the same path conflicts. MemLS's depth, ancestor and descendant rules, lock expiry and the time `now` are not modelled.
- `mime.TypeByExtension(path.Ext(reqPath))` is given as the `contentType` parameter.
- The random boundaries of the two Writers are given as the parameters `wb` and `sb`.
- `http.Error` after the header was written only records the status it asks for (`errorStatus`). What it appends to the body is not modelled.
- Multipart.MultipartWriter.CreatePart: the Writer sorts the header's keys. The model instead requires keys in ascending order, which `mimeHeader` provides. Errors of the underlying writer are not modelled, since the counting writer never fails.
- Get.Produce: a failing `CreatePart` on the pipe (after the reader closed it) is not modelled.
- Multipart.ParseTotalRange: `encSize` and the counting writer are unbounded integers. The int64 wrap-around of their sums is not modelled.
- Multipart.CountingWriter.Write: the int64 counter does not wrap in the model.
- Text.EqualFold: folds ASCII letters only. The pieces it compares never hold '=', so it is false either way.
- Get.Respond: a failed write to the client inside `io.CopyN` (webdav.go:162) also leads to the 405 branch. The model's abort comes only from a short source.
- Go strings are bytes, while Dafny strings are sequences of characters. Header text that is not valid UTF-8 is not representable in the model.
- Floating-point rates, the `MaxVolume` field and `core/core.go`, `core/user/user.go` and `cmd/cmd.go` are not part of this model.
