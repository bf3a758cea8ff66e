/**
 * The multipart/byteranges framing of a response with several ranges: the
 * header of each part (httpRange.mimeHeader), the bytes mime/multipart's
 * Writer emits around the parts, the countingWriter and parseTotalRange,
 * which sizes a response by writing its framing into a counter.
 *
 * The Writer's output sink is abstract here: CreatePart and Close return the
 * bytes they write, and the caller passes them on (to a countingWriter, or
 * into the pipe of the response).
 */
module Multipart {
  import opened Strconv
  import opened Utf8
  import opened Ranges

  /**
   * textproto.MIMEHeader, a map from keys to lists of values, held as its
   * (key, values) pairs in ascending key order, the order in which the
   * Writer emits them.
   */
  type MIMEHeader = seq<(string, seq<string>)>

  /** Strict lexicographic order on keys, as sort.Strings orders them. */
  predicate Below(a: string, b: string) {
    if a == [] then b != []
    else b != [] && (a[0] < b[0] || (a[0] == b[0] && Below(a[1..], b[1..])))
  }

  /** The pairs are in strictly ascending key order, so no key repeats. */
  predicate KeysAscending(h: MIMEHeader) {
    forall i, j :: 0 <= i < j < |h| ==> Below(h[i].0, h[j].0)
  }

  const DefaultContentType := "application/octet-stream"

  /**
   * httpRange.mimeHeader: the header of the part carrying range `r` of a
   * resource of `size` bytes; an empty content type stands for
   * application/octet-stream.
   */
  function MimeHeader(r: ByteRange, contentType: string, size: int): (h: MIMEHeader)
    ensures KeysAscending(h)
    ensures forall k :: 0 <= k < |h| ==> |h[k].1| == 1 && h[k].1[0] != []
    ensures |h| == 2 && h[0].0 == "Content-Range" && h[1].0 == "Content-Type"
    ensures h[0].1 == [ContentRange(r, size)]
    ensures contentType == "" ==> h[1].1 == [DefaultContentType]
    ensures contentType != "" ==> h[1].1 == [contentType]
  {
    var ct := if contentType == "" then DefaultContentType else contentType;
    RangeAndTypeAscend([ContentRange(r, size)], [ct]);
    [("Content-Range", [ContentRange(r, size)]), ("Content-Type", [ct])]
  }

  /** "Content-Range" sorts before "Content-Type". */
  lemma ContentKeysAscend()
    ensures Below("Content-Range", "Content-Type")
  {
    var a, b := "Content-Range", "Content-Type";
    assert Below(a[8..], b[8..]) by {
      assert a[8..][0] == 'R' && b[8..][0] == 'T';
    }
    assert Below(a[7..], b[7..]) by { assert a[7..][1..] == a[8..] && b[7..][1..] == b[8..]; }
    assert Below(a[6..], b[6..]) by { assert a[6..][1..] == a[7..] && b[6..][1..] == b[7..]; }
    assert Below(a[5..], b[5..]) by { assert a[5..][1..] == a[6..] && b[5..][1..] == b[6..]; }
    assert Below(a[4..], b[4..]) by { assert a[4..][1..] == a[5..] && b[4..][1..] == b[5..]; }
    assert Below(a[3..], b[3..]) by { assert a[3..][1..] == a[4..] && b[3..][1..] == b[4..]; }
    assert Below(a[2..], b[2..]) by { assert a[2..][1..] == a[3..] && b[2..][1..] == b[3..]; }
    assert Below(a[1..], b[1..]) by { assert a[1..][1..] == a[2..] && b[1..][1..] == b[2..]; }
  }

  /** A header with a Content-Range and a Content-Type key is in ascending key order. */
  lemma RangeAndTypeAscend(v1: seq<string>, v2: seq<string>)
    ensures KeysAscending([("Content-Range", v1), ("Content-Type", v2)])
  {
    ContentKeysAscend();
  }

  /** The header lines `key: value` of one key, one per value. */
  function ValueLines(key: string, values: seq<string>): string {
    if values == [] then [] else key + ": " + values[0] + "\r\n" + ValueLines(key, values[1..])
  }

  /** The header lines of all keys in order, then the blank line that ends a part's header. */
  function HeaderBlock(h: MIMEHeader): (hb: string)
    ensures |hb| >= 2 && hb[|hb| - 2..] == "\r\n"
  {
    if h == [] then "\r\n" else ValueLines(h[0].0, h[0].1) + HeaderBlock(h[1..])
  }

  /**
   * The header lines a part for range `r` carries: its Content-Range, then
   * its Content-Type, then the blank line.
   */
  lemma PartHeaderLines(r: ByteRange, contentType: string, size: int)
    ensures var ct := if contentType == "" then DefaultContentType else contentType;
            HeaderBlock(MimeHeader(r, contentType, size)) ==
            ("Content-Range" + ": " + ContentRange(r, size) + "\r\n") + (("Content-Type" + ": " + ct + "\r\n") + "\r\n")
  {
    var ct := if contentType == "" then DefaultContentType else contentType;
    hide MimeHeader, ContentRange;
    var h := MimeHeader(r, contentType, size);
    assert h[0] == ("Content-Range", [ContentRange(r, size)]) && h[1] == ("Content-Type", [ct]);
    assert h == [("Content-Range", [ContentRange(r, size)]), ("Content-Type", [ct])];
    TwoKeyBlock("Content-Range", ContentRange(r, size), "Content-Type", ct);
  }

  /** The lines of a key with a single value: one `key: value` line. */
  lemma OneValueLine(k: string, v: string)
    ensures ValueLines(k, [v]) == k + ": " + v + "\r\n"
  {
    assert [v][1..] == [];
  }

  /** The header block of two keys with one value each. */
  lemma TwoKeyBlock(k1: string, v1: string, k2: string, v2: string)
    ensures HeaderBlock([(k1, [v1]), (k2, [v2])]) == (k1 + ": " + v1 + "\r\n") + ((k2 + ": " + v2 + "\r\n") + "\r\n")
  {
    var h := [(k1, [v1]), (k2, [v2])];
    assert h[1..] == [(k2, [v2])] && h[1..][1..] == [];
    OneValueLine(k1, v1);
    OneValueLine(k2, v2);
    assert HeaderBlock(h[1..]) == ValueLines(k2, [v2]) + HeaderBlock([]);
  }

  /** The boundary line opening a part: the first one has no leading CRLF. */
  function Delimiter(boundary: string, first: bool): (d: string)
    ensures |d| >= 4
    ensures first ==> d[..2] == "--"
    ensures !first ==> d[..4] == "\r\n--"
    ensures d[|d| - 2..] == "\r\n"
  {
    (if first then "--" else "\r\n--") + boundary + "\r\n"
  }

  /** What Writer.CreatePart writes: the boundary line, then the part's header. */
  function PartHead(boundary: string, first: bool, h: MIMEHeader): string {
    Delimiter(boundary, first) + HeaderBlock(h)
  }

  /** What Writer.Close writes, whether or not a part was created. */
  function CloseDelimiter(boundary: string): (c: string)
    ensures |c| >= 8 && c[..4] == "\r\n--" && c[|c| - 4..] == "--\r\n"
  {
    "\r\n--" + boundary + "--\r\n"
  }

  /**
   * The bytes a Writer emits around the contents of the parts for `ranges`:
   * the head of each part, in order, and the closing delimiter.
   */
  datatype Framing = Framing(heads: seq<seq<byte>>, close: seq<byte>)

  /** The framing of a Writer with boundary `b`: only the first part's head lacks the leading CRLF. */
  function WriterFraming(b: string, ranges: seq<ByteRange>, contentType: string, size: int): (fr: Framing)
    ensures |fr.heads| == |ranges|
    ensures fr.close == Encode(CloseDelimiter(b))
  {
    Framing(seq(|ranges|, i requires 0 <= i < |ranges| =>
                  Encode(PartHead(b, i == 0, MimeHeader(ranges[i], contentType, size)))),
            Encode(CloseDelimiter(b)))
  }

  /** The head of part `i` is what CreatePart writes for it. */
  lemma FramingHead(b: string, ranges: seq<ByteRange>, contentType: string, size: int, i: nat)
    requires i < |ranges|
    ensures WriterFraming(b, ranges, contentType, size).heads[i] ==
            Encode(PartHead(b, i == 0, MimeHeader(ranges[i], contentType, size)))
  {
  }

  /** The byte length of the heads of the first `n` parts. */
  function HeadsSize(fr: Framing, n: nat): int
    requires n <= |fr.heads|
  {
    if n == 0 then 0 else HeadsSize(fr, n - 1) + |fr.heads[n - 1]|
  }

  /** The byte length of the whole framing. */
  function FramingSize(fr: Framing): int {
    HeadsSize(fr, |fr.heads|) + |fr.close|
  }

  /** The sum of the lengths of `ranges`. */
  function SumLengths(ranges: seq<ByteRange>): int {
    if ranges == [] then 0 else SumLengths(ranges[..|ranges| - 1]) + ranges[|ranges| - 1].length
  }

  /** Replacing one piece of a text by one of the same byte length keeps the byte length. */
  lemma SwapLength(x: string, b1: string, b2: string, y: string)
    requires |Encode(b1)| == |Encode(b2)|
    ensures |Encode(x + b1 + y)| == |Encode(x + b2 + y)|
  {
    EncodeAppend(x + b1, y);
    EncodeAppend(x, b1);
    EncodeAppend(x + b2, y);
    EncodeAppend(x, b2);
  }

  /** A part's head has the same byte length under any two boundaries of the same byte length. */
  lemma PartHeadLength(b1: string, b2: string, first: bool, h: MIMEHeader)
    requires |Encode(b1)| == |Encode(b2)|
    ensures |Encode(PartHead(b1, first, h))| == |Encode(PartHead(b2, first, h))|
  {
    SwapLength(if first then "--" else "\r\n--", b1, b2, "\r\n");
    EncodeAppend(Delimiter(b1, first), HeaderBlock(h));
    EncodeAppend(Delimiter(b2, first), HeaderBlock(h));
  }

  /** Heads of the same byte length, part by part, add up to the same byte length. */
  lemma {:induction false} HeadsSizeAgree(fr1: Framing, fr2: Framing, n: nat)
    requires n <= |fr1.heads| == |fr2.heads|
    requires forall i :: 0 <= i < |fr1.heads| ==> |fr1.heads[i]| == |fr2.heads[i]|
    ensures HeadsSize(fr1, n) == HeadsSize(fr2, n)
  {
    if n > 0 {
      HeadsSizeAgree(fr1, fr2, n - 1);
    }
  }

  /**
   * The framing has the same byte length under any two boundaries of the
   * same byte length: its size does not depend on which boundary a Writer
   * happened to choose.
   */
  lemma FramingLength(b1: string, b2: string, ranges: seq<ByteRange>, contentType: string, size: int)
    requires |Encode(b1)| == |Encode(b2)|
    ensures FramingSize(WriterFraming(b1, ranges, contentType, size)) ==
            FramingSize(WriterFraming(b2, ranges, contentType, size))
  {
    var fr1 := WriterFraming(b1, ranges, contentType, size);
    var fr2 := WriterFraming(b2, ranges, contentType, size);
    forall i | 0 <= i < |ranges|
      ensures |fr1.heads[i]| == |fr2.heads[i]|
    {
      FramingHead(b1, ranges, contentType, size, i);
      FramingHead(b2, ranges, contentType, size, i);
      PartHeadLength(b1, b2, i == 0, MimeHeader(ranges[i], contentType, size));
    }
    HeadsSizeAgree(fr1, fr2, |ranges|);
    SwapLength("\r\n--", b1, b2, "--\r\n");
  }

  /** countingWriter: a sink that only counts the bytes written to it. */
  class CountingWriter {
    var count: int

    constructor ()
      ensures count == 0
    {
      count := 0;
    }

    /** Takes all of `p`, never fails, and adds its length to the count. */
    method Write(p: seq<byte>) returns (n: int)
      modifies this
      ensures n == |p| && count == old(count) + |p|
    {
      count := count + |p|;
      n := |p|;
    }
  }

  /**
   * mime/multipart's Writer, as far as the framing goes: its boundary, and
   * whether a part has been created yet.
   */
  class MultipartWriter {
    const boundary: string
    var started: bool

    constructor (boundary: string)
      ensures this.boundary == boundary && !started
    {
      this.boundary := boundary;
      started := false;
    }

    /** CreatePart: the bytes of the next part's boundary line and header. */
    method CreatePart(h: MIMEHeader) returns (chunk: seq<byte>)
      requires KeysAscending(h)
      modifies this
      ensures chunk == Encode(PartHead(boundary, !old(started), h))
      ensures started
    {
      chunk := Encode(PartHead(boundary, !started, h));
      started := true;
    }

    /** Close: the bytes of the closing boundary line. */
    method Close() returns (chunk: seq<byte>)
      ensures chunk == Encode(CloseDelimiter(boundary))
    {
      chunk := Encode(CloseDelimiter(boundary));
    }
  }

  /** Adding one more range's length to the sum so far. */
  lemma SumStep(ranges: seq<ByteRange>, k: nat, sum: int)
    requires k < |ranges|
    requires sum == SumLengths(ranges[..k])
    ensures sum + ranges[k].length == SumLengths(ranges[..k + 1])
  {
    assert ranges[..k + 1][..k] == ranges[..k];
  }

  /**
   * parseTotalRange: the size of a multipart/byteranges body for `ranges`,
   * found by writing the framing into a countingWriter through a Writer
   * with boundary `boundary` and adding the lengths of the ranges. The
   * result is the byte length of the framing plus the sum of the lengths.
   */
  method ParseTotalRange(ranges: seq<ByteRange>, contentType: string, contentSize: int, boundary: string)
    returns (encSize: int)
    ensures encSize == FramingSize(WriterFraming(boundary, ranges, contentType, contentSize)) + SumLengths(ranges)
  {
    hide MimeHeader, PartHead, CloseDelimiter, WriterFraming, ContentRange, FormatInt;
    ghost var fr := WriterFraming(boundary, ranges, contentType, contentSize);
    var w := new CountingWriter();
    var mw := new MultipartWriter(boundary);
    encSize := 0;
    for k := 0 to |ranges|
      invariant mw.boundary == boundary && mw.started == (k > 0)
      invariant w.count == HeadsSize(fr, k)
      invariant encSize == SumLengths(ranges[..k])
    {
      var chunk := mw.CreatePart(MimeHeader(ranges[k], contentType, contentSize));
      FramingHead(boundary, ranges, contentType, contentSize, k);
      SumStep(ranges, k, encSize);
      var _ := w.Write(chunk);
      encSize := encSize + ranges[k].length;
    }
    var chunk := mw.Close();
    var _ := w.Write(chunk);
    assert ranges[..|ranges|] == ranges;
    encSize := encSize + w.count;
  }
}
