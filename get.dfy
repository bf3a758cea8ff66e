/**
 * serveGet: a GET of a file, whole or by byte ranges, and parseSize.
 *
 * A response with several ranges is produced by a goroutine that writes the
 * multipart/byteranges body into a pipe while serveGet copies exactly the
 * size parseTotalRange announced out of it. The model runs the producer to
 * its end first and then lets the consumer take its share of what was
 * produced: the bytes the client receives are the same.
 */
module Get {
  import opened Wrappers
  import opened Strconv
  import opened Utf8
  import opened Ranges
  import opened Multipart
  import opened Files

  const StatusOK := 200
  const StatusPartialContent := 206
  const StatusNotFound := 404
  const StatusMethodNotAllowed := 405
  const StatusConflict := 409
  const StatusRequestedRangeNotSatisfiable := 416

  /**
   * What the client receives. Failed: http.Error before any header was
   * written. Sent: the status, the header and the whole body announced.
   * Aborted: the copy of the body fell short after the header was written;
   * `errorStatus` is the status http.Error then asks for, too late to be sent.
   */
  datatype Reply =
    | Failed(status: int)
    | Sent(status: int, header: map<string, string>, body: seq<byte>)
    | Aborted(status: int, header: map<string, string>, body: seq<byte>, errorStatus: int)

  /** Every range lies inside `size` bytes. */
  predicate AllWithin(ranges: seq<ByteRange>, size: int) {
    forall i :: 0 <= i < |ranges| ==> Within(ranges[i], size)
  }

  /** A range the producer can seek to and copy in full. */
  predicate Readable(node: Node, r: ByteRange) {
    !node.seekFails && 0 <= r.start && r.length <= |Rest(node.data, r.start)|
  }

  // ---------------------------------------------------------------------
  // parseSize

  /** parseSize: the offset of the end of the file, after which it seeks back to the start. */
  method ParseSize(f: File) returns (size: Option<int>)
    modifies f
    ensures size == if f.node.seekFails then None else Some(|f.node.data|)
    ensures size.Some? ==> f.pos == 0
    ensures size.None? ==> f.pos == old(f.pos)
    ensures f.isOpen == old(f.isOpen)
  {
    var end := f.Seek(0, SeekEnd);
    if end.None? {
      return None;
    }
    var begin := f.Seek(0, SeekStart);
    if begin.None? {
      assert false;
      return None;
    }
    size := end;
  }

  // ---------------------------------------------------------------------
  // The producer goroutine

  /**
   * What the producer has written to the pipe after the first `n` parts:
   * for each range its head, then the bytes copied from the file; it stops
   * at the first seek that fails or copy that falls short, keeping what it
   * wrote.
   */
  function PartsProduced(node: Node, fr: Framing, ranges: seq<ByteRange>, n: nat): (t: Transfer)
    requires n <= |ranges| == |fr.heads|
  {
    if n == 0 then Transfer([], true)
    else
      var prev := PartsProduced(node, fr, ranges, n - 1);
      var r := ranges[n - 1];
      if !prev.ok then prev
      else if node.seekFails || r.start < 0 then Transfer(prev.bytes + fr.heads[n - 1], false)
      else
        var copied := Take(Rest(node.data, r.start), r.length);
        Transfer(prev.bytes + fr.heads[n - 1] + copied.bytes, copied.ok)
  }

  /** Everything the producer writes: the parts, then the closing delimiter when all of them went through. */
  function Produced(node: Node, fr: Framing, ranges: seq<ByteRange>): Transfer
    requires |ranges| == |fr.heads|
  {
    var parts := PartsProduced(node, fr, ranges, |ranges|);
    if parts.ok then Transfer(parts.bytes + fr.close, true) else parts
  }

  /** The producer gets through the first `n` parts exactly when it can seek to and copy each of them. */
  lemma {:induction false} PartsProducedOk(node: Node, fr: Framing, ranges: seq<ByteRange>, n: nat)
    requires n <= |ranges| == |fr.heads|
    ensures PartsProduced(node, fr, ranges, n).ok <==> forall i :: 0 <= i < n ==> Readable(node, ranges[i])
  {
    if n > 0 {
      PartsProducedOk(node, fr, ranges, n - 1);
      assert PartsProduced(node, fr, ranges, n).ok <==>
             PartsProduced(node, fr, ranges, n - 1).ok && Readable(node, ranges[n - 1]);
    }
  }

  /** The producer closes the body exactly when it can seek to and copy every range. */
  lemma ProducedOk(node: Node, fr: Framing, ranges: seq<ByteRange>)
    requires |ranges| == |fr.heads|
    ensures Produced(node, fr, ranges).ok <==> forall i :: 0 <= i < |ranges| ==> Readable(node, ranges[i])
  {
    PartsProducedOk(node, fr, ranges, |ranges|);
  }

  /**
   * The first `n` parts of the multipart/byteranges body the ranges of
   * `data` call for, as the format defines it: each part's head followed by
   * the bytes of its range.
   */
  function PartsBody(fr: Framing, data: seq<byte>, ranges: seq<ByteRange>, n: nat): seq<byte>
    requires n <= |ranges| == |fr.heads|
    requires AllWithin(ranges, |data|)
  {
    if n == 0 then []
    else
      var r := ranges[n - 1];
      PartsBody(fr, data, ranges, n - 1) + fr.heads[n - 1] + data[r.start..r.start + r.length]
  }

  /** The whole body: all the parts, then the closing delimiter. */
  function MultipartBody(fr: Framing, data: seq<byte>, ranges: seq<ByteRange>): seq<byte>
    requires |ranges| == |fr.heads|
    requires AllWithin(ranges, |data|)
  {
    PartsBody(fr, data, ranges, |ranges|) + fr.close
  }

  /** When every range is inside the file, the producer writes exactly the body. */
  lemma {:induction false} PartsProducedInside(node: Node, fr: Framing, ranges: seq<ByteRange>, n: nat)
    requires n <= |ranges| == |fr.heads|
    requires !node.seekFails && AllWithin(ranges, |node.data|)
    ensures PartsProduced(node, fr, ranges, n) == Transfer(PartsBody(fr, node.data, ranges, n), true)
  {
    if n > 0 {
      var r := ranges[n - 1];
      PartsProducedInside(node, fr, ranges, n - 1);
      TakeInside(node.data, r.start, r.length);
    }
  }

  lemma ProducedInside(node: Node, fr: Framing, ranges: seq<ByteRange>)
    requires |ranges| == |fr.heads|
    requires !node.seekFails && AllWithin(ranges, |node.data|)
    ensures Produced(node, fr, ranges) == Transfer(MultipartBody(fr, node.data, ranges), true)
  {
    PartsProducedInside(node, fr, ranges, |ranges|);
  }

  /** The first `n` parts are as long as their heads plus their ranges. */
  lemma {:induction false} PartsBodyLength(fr: Framing, data: seq<byte>, ranges: seq<ByteRange>, n: nat)
    requires n <= |ranges| == |fr.heads|
    requires AllWithin(ranges, |data|)
    ensures |PartsBody(fr, data, ranges, n)| == HeadsSize(fr, n) + SumLengths(ranges[..n])
  {
    if n > 0 {
      PartsBodyLength(fr, data, ranges, n - 1);
      SumStep(ranges, n - 1, SumLengths(ranges[..n - 1]));
    }
  }

  /** The whole body is as long as its framing plus its ranges. */
  lemma BodyLength(fr: Framing, data: seq<byte>, ranges: seq<ByteRange>)
    requires |ranges| == |fr.heads|
    requires AllWithin(ranges, |data|)
    ensures |MultipartBody(fr, data, ranges)| == FramingSize(fr) + SumLengths(ranges)
  {
    PartsBodyLength(fr, data, ranges, |ranges|);
    assert ranges[..|ranges|] == ranges;
  }

  /**
   * The central invariant of a multi-range GET: the body the producer writes
   * with boundary `wb` is exactly as long as what parseTotalRange computed
   * with boundary `sb`, provided the two boundaries have the same byte length.
   */
  lemma BodyMatchesSize(wb: string, sb: string, data: seq<byte>, ranges: seq<ByteRange>, contentType: string, size: int)
    requires |Encode(wb)| == |Encode(sb)|
    requires AllWithin(ranges, |data|)
    ensures |MultipartBody(WriterFraming(wb, ranges, contentType, size), data, ranges)| ==
            FramingSize(WriterFraming(sb, ranges, contentType, size)) + SumLengths(ranges)
  {
    BodyLength(WriterFraming(wb, ranges, contentType, size), data, ranges);
    FramingLength(wb, sb, ranges, contentType, size);
  }
  /** Once a part has failed, the producer writes nothing more. */
  lemma {:induction false} PartsProducedStops(node: Node, fr: Framing, ranges: seq<ByteRange>, j: nat, n: nat)
    requires j <= n <= |ranges| == |fr.heads|
    requires !PartsProduced(node, fr, ranges, j).ok
    ensures PartsProduced(node, fr, ranges, n) == PartsProduced(node, fr, ranges, j)
  {
    if j < n {
      PartsProducedStops(node, fr, ranges, j, n - 1);
    }
  }

  /** A part whose seek fails ends the producer's output with that part's head. */
  lemma SeekFailed(node: Node, fr: Framing, ranges: seq<ByteRange>, k: nat, out: seq<byte>)
    requires k < |ranges| == |fr.heads|
    requires PartsProduced(node, fr, ranges, k) == Transfer(out, true)
    requires node.seekFails || ranges[k].start < 0
    ensures Produced(node, fr, ranges) == Transfer(out + fr.heads[k], false)
  {
    PartsProducedStops(node, fr, ranges, k + 1, |ranges|);
  }

  /** After a successful seek, the copy either completes the part or ends the output. */
  lemma CopyDone(node: Node, fr: Framing, ranges: seq<ByteRange>, k: nat, out: seq<byte>, copied: Transfer)
    requires k < |ranges| == |fr.heads|
    requires PartsProduced(node, fr, ranges, k) == Transfer(out, true)
    requires !node.seekFails && 0 <= ranges[k].start
    requires copied == Take(Rest(node.data, ranges[k].start), ranges[k].length)
    ensures copied.ok ==> PartsProduced(node, fr, ranges, k + 1) == Transfer(out + fr.heads[k] + copied.bytes, true)
    ensures !copied.ok ==> Produced(node, fr, ranges) == Transfer(out + fr.heads[k] + copied.bytes, false)
  {
    if !copied.ok {
      PartsProducedStops(node, fr, ranges, k + 1, |ranges|);
    }
  }

  /**
   * The producer goroutine: for each range, a part through the Writer, a
   * seek to the range and a copy of its bytes into the part; it gives up at
   * the first seek or copy that fails, and closes the Writer when all parts
   * went through. The result is what it wrote into the pipe and whether it
   * closed the body.
   */
  method Produce(f: File, mw: MultipartWriter, ranges: seq<ByteRange>, contentType: string, size: int)
    returns (out: seq<byte>, ok: bool)
    requires !mw.started && 0 <= f.pos
    modifies f, mw
    ensures Transfer(out, ok) == Produced(f.node, WriterFraming(mw.boundary, ranges, contentType, size), ranges)
    ensures f.isOpen == old(f.isOpen)
  {
    hide MimeHeader, PartHead, CloseDelimiter, WriterFraming, ContentRange, FormatInt;
    ghost var fr := WriterFraming(mw.boundary, ranges, contentType, size);
    out := [];
    for k := 0 to |ranges|
      invariant mw.started == (k > 0) && 0 <= f.pos && f.isOpen == old(f.isOpen)
      invariant PartsProduced(f.node, fr, ranges, k) == Transfer(out, true)
    {
      var ra := ranges[k];
      var part := mw.CreatePart(MimeHeader(ra, contentType, size));
      FramingHead(mw.boundary, ranges, contentType, size, k);
      assert part == fr.heads[k];
      var seeked := f.Seek(ra.start, SeekStart);
      if seeked.None? {
        SeekFailed(f.node, fr, ranges, k, out);
        return out + part, false;
      }
      var copied := f.CopyN(ra.length);
      CopyDone(f.node, fr, ranges, k, out, copied);
      out := out + part + copied.bytes;
      if !copied.ok {
        return out, false;
      }
    }
    var closing := mw.Close();
    out := out + closing;
    ok := true;
  }

  // ---------------------------------------------------------------------
  // serveGet

  /**
   * The reply once the header is written: the copy of `sendSize` bytes out
   * of the source delivered `t`; when it fell short, http.Error's 405 comes
   * after the header and cannot replace the status.
   */
  function Deliver(status: int, header: map<string, string>, sendSize: int, t: Transfer): (r: Reply)
    ensures !r.Failed? && r.status == status && r.body == t.bytes
    ensures r.Sent? <==> t.ok
    ensures "Accept-Ranges" in r.header && r.header["Accept-Ranges"] == "bytes"
    ensures "Content-Length" in r.header && r.header["Content-Length"] == FormatInt(sendSize)
    ensures forall k :: k in header && k != "Accept-Ranges" && k != "Content-Length" ==>
              k in r.header && r.header[k] == header[k]
    ensures r.Aborted? ==> r.errorStatus == StatusMethodNotAllowed
  {
    var h := header["Accept-Ranges" := "bytes"]["Content-Length" := FormatInt(sendSize)];
    if t.ok then Sent(status, h, t.bytes) else Aborted(status, h, t.bytes, StatusMethodNotAllowed)
  }

  /** The header value announcing a multipart/byteranges body with boundary `b`. */
  function MultipartType(b: string): string {
    "multipart/byteranges; boundary=" + b
  }

  /**
   * What serveGet replies for a regular file that can be sized, once the
   * Range header has been parsed: the whole file; one range with its
   * Content-Range; or several ranges as multipart/byteranges, whose size is
   * computed with the boundary `sb` of a second Writer while the body is
   * written with the boundary `wb`.
   */
  function RespondRanges(node: Node, parsed: Result<seq<ByteRange>, RangeError>,
                         contentType: string, wb: string, sb: string): (r: Reply)
    requires !node.seekFails
    ensures r.Failed? <==> parsed.Err? || (|parsed.value| == 1 && parsed.value[0].start < 0)
    ensures r.Failed? ==> r.status == StatusRequestedRangeNotSatisfiable
    ensures !r.Failed? ==> (r.status == StatusOK <==> parsed.value == [])
    // A reply sent in full announces the length of its body; a negative
    // length (a suffix range "-N" with a negative N, which the parser
    // accepts) is requested as such, with an empty body; net/http, which
    // is not part of this model, may drop that header.
    ensures r.Sent? ==>
              "Content-Length" in r.header &&
              (r.header["Content-Length"] == FormatInt(|r.body|) ||
               (r.body == [] && r.header["Content-Length"] != [] && r.header["Content-Length"][0] == '-'))
  {
    var size := |node.data|;
    match parsed
    case Err(_) => Failed(StatusRequestedRangeNotSatisfiable)
    case Ok(ranges) =>
      if |ranges| == 1 then
        var ra := ranges[0];
        if ra.start < 0 then Failed(StatusRequestedRangeNotSatisfiable)
        else
          Deliver(StatusPartialContent, map["Content-Range" := ContentRange(ra, size)], ra.length,
                  Take(Rest(node.data, ra.start), ra.length))
      else if |ranges| > 1 then MultiRangeResponse(node, ranges, contentType, wb, sb)
      else
        Deliver(StatusOK, map[], size, Take(node.data, size))
  }

  /**
   * The reply for several ranges: status 206, the multipart/byteranges type
   * with the boundary `wb` of the Writer that writes the body, and as much
   * of the producer's output as the size computed with boundary `sb` says.
   */
  function MultiRangeResponse(node: Node, ranges: seq<ByteRange>, contentType: string, wb: string, sb: string): (r: Reply)
    requires !node.seekFails
    ensures r.status == StatusPartialContent && !r.Failed?
    ensures r.Sent? ==> "Content-Length" in r.header
  {
    var size := |node.data|;
    var sendSize := FramingSize(WriterFraming(sb, ranges, contentType, size)) + SumLengths(ranges);
    Deliver(StatusPartialContent, map["Content-Type" := MultipartType(wb)], sendSize,
            Take(Produced(node, WriterFraming(wb, ranges, contentType, size), ranges).bytes, sendSize))
  }

  /**
   * serveGet for the file `found` names (None when it cannot be opened),
   * the Range header `rangeHeader` (empty when absent) and the type
   * mime.TypeByExtension gives for its extension.
   */
  function Respond(found: Option<Node>, rangeHeader: string, contentType: string, wb: string, sb: string): (r: Reply)
    ensures r.Failed? ==> r.status in {StatusNotFound, StatusMethodNotAllowed, StatusConflict,
                                       StatusRequestedRangeNotSatisfiable}
    ensures !r.Failed? ==> r.status in {StatusOK, StatusPartialContent}
    ensures !r.Failed? ==> "Accept-Ranges" in r.header && r.header["Accept-Ranges"] == "bytes"
    ensures r.Aborted? ==> r.errorStatus == StatusMethodNotAllowed
    ensures found.None? ==> r == Failed(StatusNotFound)
    ensures found.Some? && found.value.statFails ==> r == Failed(StatusNotFound)
    ensures found.Some? && !found.value.statFails && found.value.isDir ==> r == Failed(StatusMethodNotAllowed)
    ensures found.Some? && !found.value.statFails && !found.value.isDir && found.value.seekFails ==>
              r == Failed(StatusConflict)
  {
    match found
    case None => Failed(StatusNotFound)
    case Some(node) =>
      if node.statFails then Failed(StatusNotFound)
      else if node.isDir then Failed(StatusMethodNotAllowed)
      else if node.seekFails then Failed(StatusConflict)
      else RespondRanges(node, ParseRangeHeader(rangeHeader, |node.data|), contentType, wb, sb)
  }

  /**
   * serveGet: opens the file, checks it, sizes it and parses the Range
   * header; the file is closed on every path once it was opened.
   */
  method ServeGet(found: Option<Node>, rangeHeader: string, contentType: string, wb: string, sb: string)
    returns (reply: Reply, file: File?)
    ensures reply == Respond(found, rangeHeader, contentType, wb, sb)
    ensures file == null <==> found.None?
    ensures file != null ==> file.node == found.value && !file.isOpen
  {
    if found.None? {
      return Failed(StatusNotFound), null;
    }
    var f := new File.Open(found.value);
    file := f;
    var statOk, isDir := f.Stat();
    if !statOk {
      f.Close();
      return Failed(StatusNotFound), f;
    }
    if isDir {
      f.Close();
      return Failed(StatusMethodNotAllowed), f;
    }
    var size := ParseSize(f);
    if size.None? {
      f.Close();
      return Failed(StatusConflict), f;
    }
    var parsed := ParseHTTPRange(rangeHeader, size.value);
    if parsed.Err? {
      f.Close();
      return Failed(StatusRequestedRangeNotSatisfiable), f;
    }
    reply := SendRanges(f, parsed.value, contentType, wb, sb);
    f.Close();
  }

  /**
   * The rest of serveGet, from a sized file at offset 0 and its parsed
   * ranges: the seek of a single range, the header, and the copy of the
   * body out of the file or out of the producer's pipe.
   */
  method SendRanges(f: File, ranges: seq<ByteRange>, contentType: string, wb: string, sb: string)
    returns (reply: Reply)
    requires !f.node.seekFails && f.pos == 0
    modifies f
    ensures reply == RespondRanges(f.node, Ok(ranges), contentType, wb, sb)
    ensures f.isOpen == old(f.isOpen)
  {
    hide MimeHeader, PartHead, CloseDelimiter, WriterFraming, ContentRange, FormatInt;
    var size := |f.node.data|;
    var httpCode := StatusOK;
    var sendSize := size;
    var header: map<string, string> := map[];
    var produced: seq<byte> := [];
    if |ranges| == 1 {
      var ra := ranges[0];
      var seeked := f.Seek(ra.start, SeekStart);
      if seeked.None? {
        return Failed(StatusRequestedRangeNotSatisfiable);
      }
      header := header["Content-Range" := ContentRange(ra, size)];
      httpCode := StatusPartialContent;
      sendSize := ra.length;
    } else if |ranges| > 1 {
      var mw := new MultipartWriter(wb);
      header := header["Content-Type" := MultipartType(mw.boundary)];
      httpCode := StatusPartialContent;
      sendSize := ParseTotalRange(ranges, contentType, size, sb);
      var closed;
      produced, closed := Produce(f, mw, ranges, contentType, size);
    }
    var sent: Transfer;
    if |ranges| > 1 {
      sent := Take(produced, sendSize);
    } else {
      sent := f.CopyN(sendSize);
    }
    reply := Deliver(httpCode, header, sendSize, sent);
  }

  // ---------------------------------------------------------------------
  // What a GET delivers

  /** A boundary as mime/multipart's Writer draws it: 30 random bytes in lower-case hex. */
  predicate IsBoundary(b: string) {
    |b| == 60 && forall i :: 0 <= i < |b| ==> ('0' <= b[i] <= '9' || 'a' <= b[i] <= 'f')
  }

  /** Every boundary a Writer draws is 60 bytes long, so any two agree in length. */
  lemma BoundaryLength(b: string)
    requires IsBoundary(b)
    ensures |Encode(b)| == 60
  {
    AsciiLength(b);
  }

  /** A file that can be opened, inspected and sized, and is not a directory. */
  predicate Regular(node: Node) {
    !node.statFails && !node.isDir && !node.seekFails
  }

  /** Without a usable Range header the whole file is sent with status 200. */
  lemma GetWholeFile(node: Node, rangeHeader: string, contentType: string, wb: string, sb: string)
    requires Regular(node) && ParseRangeHeader(rangeHeader, |node.data|) == Ok([])
    ensures Respond(Some(node), rangeHeader, contentType, wb, sb) ==
            Sent(StatusOK, map["Accept-Ranges" := "bytes", "Content-Length" := FormatInt(|node.data|)], node.data)
  {
    assert map[]["Accept-Ranges" := "bytes"]["Content-Length" := FormatInt(|node.data|)] ==
           map["Accept-Ranges" := "bytes", "Content-Length" := FormatInt(|node.data|)];
  }

  /** One range inside the file is sent alone with status 206 and its Content-Range. */
  lemma GetSingleRange(node: Node, rangeHeader: string, contentType: string, wb: string, sb: string, r: ByteRange)
    requires Regular(node) && ParseRangeHeader(rangeHeader, |node.data|) == Ok([r])
    requires Within(r, |node.data|)
    ensures Respond(Some(node), rangeHeader, contentType, wb, sb) ==
            Sent(StatusPartialContent,
                 map["Content-Range" := ContentRange(r, |node.data|), "Accept-Ranges" := "bytes",
                     "Content-Length" := FormatInt(r.length)],
                 node.data[r.start..r.start + r.length])
  {
    TakeInside(node.data, r.start, r.length);
  }

  /** Ranges the parser accepted with no negative length lie inside the file. */
  lemma ParsedInside(rangeHeader: string, size: int, ranges: seq<ByteRange>)
    requires 0 <= size <= MaxInt64
    requires ParseRangeHeader(rangeHeader, size) == Ok(ranges)
    requires forall i :: 0 <= i < |ranges| ==> 0 <= ranges[i].length
    ensures AllWithin(ranges, size)
  {
    forall i | 0 <= i < |ranges|
      ensures Within(ranges[i], size)
    {
      assert Sound(ranges[i], size);
    }
  }

  /** A copy of exactly the bytes at hand is sent in full, announcing their length. */
  lemma DeliverAll(status: int, header: map<string, string>, body: seq<byte>)
    ensures Deliver(status, header, |body|, Take(body, |body|)) ==
            Sent(status, header["Accept-Ranges" := "bytes"]["Content-Length" := FormatInt(|body|)], body)
  {
    assert body[..|body|] == body;
  }

  /**
   * Several ranges inside a file are sent with status 206 as the
   * multipart/byteranges body with the Writer's boundary `wb`, and the
   * Content-Length announced, though computed with boundary `sb`, is
   * exactly the length of that body when the boundaries agree in length.
   */
  lemma MultiRangeReply(node: Node, ranges: seq<ByteRange>, contentType: string, wb: string, sb: string)
    requires !node.seekFails && AllWithin(ranges, |node.data|)
    requires |Encode(wb)| == |Encode(sb)|
    ensures var body := MultipartBody(WriterFraming(wb, ranges, contentType, |node.data|), node.data, ranges);
            MultiRangeResponse(node, ranges, contentType, wb, sb) ==
            Sent(StatusPartialContent,
                 map["Content-Type" := MultipartType(wb)]["Accept-Ranges" := "bytes"]["Content-Length" := FormatInt(|body|)],
                 body)
  {
    hide MimeHeader, PartHead, CloseDelimiter, WriterFraming, FormatInt;
    var size := |node.data|;
    var fr := WriterFraming(wb, ranges, contentType, size);
    var body := MultipartBody(fr, node.data, ranges);
    var sendSize := FramingSize(WriterFraming(sb, ranges, contentType, size)) + SumLengths(ranges);
    BodyMatchesSize(wb, sb, node.data, ranges, contentType, size);
    assert sendSize == |body|;
    ProducedInside(node, fr, ranges);
    assert Produced(node, fr, ranges).bytes == body;
    assert MultiRangeResponse(node, ranges, contentType, wb, sb) ==
           Deliver(StatusPartialContent, map["Content-Type" := MultipartType(wb)], |body|, Take(body, |body|));
    DeliverAll(StatusPartialContent, map["Content-Type" := MultipartType(wb)], body);
  }

  /**
   * A GET of several ranges of a file, none of negative length, with two
   * Writers' boundaries: the reply is the multipart body and announces its
   * exact length.
   */
  lemma GetMultiRange(node: Node, rangeHeader: string, contentType: string, wb: string, sb: string,
                      ranges: seq<ByteRange>)
    requires Regular(node) && |node.data| <= MaxInt64
    requires ParseRangeHeader(rangeHeader, |node.data|) == Ok(ranges) && |ranges| > 1
    requires forall i :: 0 <= i < |ranges| ==> 0 <= ranges[i].length
    requires IsBoundary(wb) && IsBoundary(sb)
    ensures AllWithin(ranges, |node.data|)
    ensures var body := MultipartBody(WriterFraming(wb, ranges, contentType, |node.data|), node.data, ranges);
            Respond(Some(node), rangeHeader, contentType, wb, sb) ==
            Sent(StatusPartialContent,
                 map["Content-Type" := MultipartType(wb), "Accept-Ranges" := "bytes",
                     "Content-Length" := FormatInt(|body|)],
                 body)
  {
    hide MimeHeader, PartHead, CloseDelimiter, WriterFraming, FormatInt;
    ParsedInside(rangeHeader, |node.data|, ranges);
    BoundaryLength(wb);
    BoundaryLength(sb);
    MultiRangeReply(node, ranges, contentType, wb, sb);
    var body := MultipartBody(WriterFraming(wb, ranges, contentType, |node.data|), node.data, ranges);
    assert map["Content-Type" := MultipartType(wb)]["Accept-Ranges" := "bytes"]["Content-Length" := FormatInt(|body|)] ==
           map["Content-Type" := MultipartType(wb), "Accept-Ranges" := "bytes", "Content-Length" := FormatInt(|body|)];
  }

  // ---------------------------------------------------------------------
  // Ranges of negative length

  /** The number of bytes a copy of each range can deliver: nothing for a negative length. */
  function SumCopied(ranges: seq<ByteRange>): (n: int)
    ensures n >= 0
  {
    if ranges == [] then 0
    else SumCopied(ranges[..|ranges| - 1]) + (if ranges[|ranges| - 1].length < 0 then 0 else ranges[|ranges| - 1].length)
  }

  /** One more range adds what its copy delivers. */
  lemma CopiedStep(ranges: seq<ByteRange>, k: nat)
    requires k < |ranges|
    ensures SumCopied(ranges[..k + 1]) ==
            SumCopied(ranges[..k]) + (if ranges[k].length < 0 then 0 else ranges[k].length)
  {
    assert ranges[..k + 1][..k] == ranges[..k];
  }

  /** When every range is readable, the producer writes each head and what each copy delivers. */
  lemma {:induction false} PartsProducedLength(node: Node, fr: Framing, ranges: seq<ByteRange>, n: nat)
    requires n <= |ranges| == |fr.heads|
    requires forall i :: 0 <= i < n ==> Readable(node, ranges[i])
    ensures PartsProduced(node, fr, ranges, n).ok
    ensures |PartsProduced(node, fr, ranges, n).bytes| == HeadsSize(fr, n) + SumCopied(ranges[..n])
  {
    if n > 0 {
      PartsProducedLength(node, fr, ranges, n - 1);
      CopiedStep(ranges, n - 1);
    }
  }

  /** A negative length counts against the sum of lengths but not against what is copied. */
  lemma {:induction false} LengthsBelowCopied(ranges: seq<ByteRange>)
    ensures SumLengths(ranges) <= SumCopied(ranges)
    ensures (exists i :: 0 <= i < |ranges| && ranges[i].length < 0) ==> SumLengths(ranges) < SumCopied(ranges)
  {
    if ranges != [] {
      var init := ranges[..|ranges| - 1];
      LengthsBelowCopied(init);
      if exists i :: 0 <= i < |ranges| && ranges[i].length < 0 {
        var i :| 0 <= i < |ranges| && ranges[i].length < 0;
        if i < |init| {
          assert init[i] == ranges[i];
        }
      }
    }
  }

  /** When every range is readable, the producer writes the framing and what each copy delivers. */
  lemma ProducedLength(node: Node, fr: Framing, ranges: seq<ByteRange>)
    requires |ranges| == |fr.heads|
    requires forall i :: 0 <= i < |ranges| ==> Readable(node, ranges[i])
    ensures Produced(node, fr, ranges).ok
    ensures |Produced(node, fr, ranges).bytes| == FramingSize(fr) + SumCopied(ranges)
  {
    PartsProducedLength(node, fr, ranges, |ranges|);
    assert ranges[..|ranges|] == ranges;
  }

  /**
   * A range of negative length among several (a suffix `-N` with N < 0,
   * which the parser accepts) makes parseTotalRange announce less than the
   * producer writes. The reply is still sent as complete, but its body is a
   * proper prefix of the multipart body: the end of the closing delimiter
   * never reaches the client.
   */
  lemma NegativeLengthCutsBody(node: Node, ranges: seq<ByteRange>, contentType: string, wb: string, sb: string)
    requires !node.seekFails && |Encode(wb)| == |Encode(sb)|
    requires forall i :: 0 <= i < |ranges| ==> Readable(node, ranges[i])
    requires exists i :: 0 <= i < |ranges| && ranges[i].length < 0
    ensures var produced := Produced(node, WriterFraming(wb, ranges, contentType, |node.data|), ranges);
            var r := MultiRangeResponse(node, ranges, contentType, wb, sb);
            produced.ok && r.Sent? && r.body < produced.bytes && |r.body| < |produced.bytes|
  {
    hide MimeHeader, PartHead, CloseDelimiter, WriterFraming, FormatInt, ContentRange;
    var size := |node.data|;
    var fr := WriterFraming(wb, ranges, contentType, size);
    var sendSize := FramingSize(WriterFraming(sb, ranges, contentType, size)) + SumLengths(ranges);
    var produced := Produced(node, fr, ranges);
    ProducedLength(node, fr, ranges);
    LengthsBelowCopied(ranges);
    FramingLength(wb, sb, ranges, contentType, size);
    assert sendSize < |produced.bytes|;
    assert MultiRangeResponse(node, ranges, contentType, wb, sb) ==
           Deliver(StatusPartialContent, map["Content-Type" := MultipartType(wb)], sendSize,
                   Take(produced.bytes, sendSize));
  }

}
