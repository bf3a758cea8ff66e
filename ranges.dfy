/**
 * The Range header parser (parseHTTPRange) and the Content-Range value of a
 * single part (httpRange.contentRange).
 *
 * The parser follows the program rather than section 2.1 of RFC 7233: the
 * unit name before '=' is never compared, numbers are signed int64 values, a
 * suffix length is neither checked for sign nor for zero, and one bad unit
 * rejects the whole header.
 */
module Ranges {
  import opened Wrappers
  import opened Strconv
  import opened Text

  /** httpRange: `length` bytes starting at offset `start`. */
  datatype ByteRange = ByteRange(start: int, length: int)

  /** The three errors parseHTTPRange returns, by their messages. */
  datatype RangeError = InvalidRange | InvalidEndRange | InvalidStartRange

  /** The range lies inside a resource of `size` bytes. */
  predicate Within(r: ByteRange, size: int) {
    0 <= r.start && 0 <= r.length && r.start + r.length <= size
  }

  /** What the parser promises of each range: inside the resource, unless its length is negative. */
  predicate Sound(r: ByteRange, size: int) {
    r.length < 0 || Within(r, size)
  }

  /** The trimmed text before the first '-' of a unit. */
  function StartText(unit: string): string
    requires '-' in unit
  {
    TrimSpace(unit[..Index(unit, '-')])
  }

  /** The trimmed text after the first '-' of a unit. */
  function EndText(unit: string): string
    requires '-' in unit
  {
    TrimSpace(unit[Index(unit, '-') + 1..])
  }

  /** A unit of the form `-N`: nothing but space before its first '-'. */
  predicate IsSuffixForm(unit: string) {
    '-' in unit && StartText(unit) == []
  }

  /** The `-N` form, given the end text N. */
  function SuffixUnit(end: string, size: int): (res: Result<ByteRange, RangeError>)
    ensures res.Ok? ==> ParseInt(end).Some? && res.value.length == Min(ParseInt(end).value, size)
    ensures res.Err? <==> ParseInt(end).None?
  {
    match ParseInt(end)
    case None => Err(InvalidEndRange)
    case Some(lastSize) =>
      var last := if lastSize > size then size else lastSize;
      Ok(ByteRange(Wrap64(size - last), last))
  }

  /** The `S-` and `S-E` forms, given the start S already read and the end text E. */
  function PrefixUnit(startPos: int, end: string, size: int): (res: Result<ByteRange, RangeError>)
    ensures res.Ok? ==> 1 <= res.value.length && Within(res.value, size) && res.value.start == startPos
  {
    if startPos < 0 || startPos >= size then Err(InvalidStartRange)
    else if end == [] then Ok(ByteRange(startPos, size - startPos))
    else
      match ParseInt(end)
      case None => Err(InvalidRange)
      case Some(endPos) =>
        if startPos > endPos then Err(InvalidRange)
        else
          var last := if endPos >= size then size - 1 else endPos;
          Ok(ByteRange(startPos, last - startPos + 1))
  }

  /** A unit with a '-', given the trimmed texts before and after it. */
  function ParseBounds(start: string, end: string, size: int): (res: Result<ByteRange, RangeError>)
    ensures res.Ok? && start != [] ==> 1 <= res.value.length && Within(res.value, size)
    ensures res.Ok? && start == [] ==>
              ParseInt(end).Some? &&
              res.value.length == Min(ParseInt(end).value, size) &&
              res.value.start == Wrap64(size - res.value.length)
    ensures res.Ok? && 0 <= size <= MaxInt64 ==> Sound(res.value, size)
  {
    if start == [] then SuffixUnit(end, size)
    else
      match ParseInt(start)
      case None => Err(InvalidStartRange)
      case Some(startPos) => PrefixUnit(startPos, end, size)
  }

  /**
   * One trimmed, non-blank unit of the header against a resource of `size`
   * bytes:
   *   `-N`  the last min(N, size) bytes (N may be zero or negative);
   *   `S-`  from S to the end, when 0 <= S < size;
   *   `S-E` from S to min(E, size - 1), when 0 <= S < size and S <= E.
   * A range in one of the last two forms is never empty and always lies
   * inside the resource.
   */
  function ParseUnit(unit: string, size: int): (res: Result<ByteRange, RangeError>)
    ensures '-' !in unit ==> res == Err(InvalidRange)
    ensures res.Ok? && !IsSuffixForm(unit) ==> 1 <= res.value.length && Within(res.value, size)
    ensures res.Ok? && IsSuffixForm(unit) ==>
              ParseInt(EndText(unit)).Some? &&
              res.value.length == Min(ParseInt(EndText(unit)).value, size) &&
              res.value.start == Wrap64(size - res.value.length)
    ensures res.Ok? && 0 <= size <= MaxInt64 ==> Sound(res.value, size)
  {
    if '-' !in unit then Err(InvalidRange)
    else ParseBounds(StartText(unit), EndText(unit), size)
  }

  /** The units that are not blank once trimmed, trimmed, in header order. */
  function NonBlank(units: seq<string>): (nb: seq<string>)
    ensures |nb| <= |units|
  {
    if units == [] then []
    else
      var u := TrimSpace(units[|units| - 1]);
      NonBlank(units[..|units| - 1]) + (if u == [] then [] else [u])
  }

  /**
   * The comma-separated units, left to right: blank units are skipped, the
   * first unit that fails fails the whole list, and every other unit appends
   * its range.
   */
  function ParseUnits(units: seq<string>, size: int): (res: Result<seq<ByteRange>, RangeError>)
    ensures res.Ok? ==> |res.value| <= |units|
    ensures res.Ok? && 0 <= size <= MaxInt64 ==>
              forall k :: 0 <= k < |res.value| ==> Sound(res.value[k], size)
  {
    if units == [] then Ok([])
    else
      match ParseUnits(units[..|units| - 1], size)
      case Err(e) => Err(e)
      case Ok(ranges) =>
        var u := TrimSpace(units[|units| - 1]);
        if u == [] then Ok(ranges)
        else
          match ParseUnit(u, size)
          case Err(e) => Err(e)
          case Ok(r) => Ok(ranges + [r])
  }

  /**
   * parseHTTPRange on the value of the Range header (empty when absent):
   * Ok([]) means "no range requested". The header is split at '='; unless
   * there are exactly two pieces the whole resource is sent. The comparison
   * of the first piece with "bytes=" can never succeed, since a piece of a
   * split at '=' holds no '='.
   */
  function ParseRangeHeader(header: string, size: int): (res: Result<seq<ByteRange>, RangeError>)
    ensures res.Ok? && 0 <= size <= MaxInt64 ==> forall k :: 0 <= k < |res.value| ==> Sound(res.value[k], size)
  {
    var rangeMap := Split(header, '=');
    if |rangeMap| != 2 || EqualFold(rangeMap[0], "bytes=") then Ok([])
    else ParseUnits(Split(rangeMap[1], ','), size)
  }

  /** Once a prefix of the units has failed, the whole list fails the same way. */
  lemma {:induction false} ErrorPersists(units: seq<string>, k: nat, size: int)
    requires k <= |units| && ParseUnits(units[..k], size).Err?
    ensures ParseUnits(units, size) == ParseUnits(units[..k], size)
    decreases |units|
  {
    if k < |units| {
      var init := units[..|units| - 1];
      assert init[..k] == units[..k];
      ErrorPersists(init, k, size);
    } else {
      assert units[..k] == units;
    }
  }

  /** The imperative loop: a failing unit at position k fails the whole list with its error. */
  lemma FailsAt(units: seq<string>, k: nat, size: int)
    requires k < |units| && ParseUnits(units[..k], size).Ok?
    requires TrimSpace(units[k]) != [] && ParseUnit(TrimSpace(units[k]), size).Err?
    ensures ParseUnits(units, size) == Err(ParseUnit(TrimSpace(units[k]), size).error)
  {
    assert units[..k + 1][..k] == units[..k];
    ErrorPersists(units, k + 1, size);
  }

  /** The imperative loop: one more unit that parses skips a blank or appends its range. */
  lemma UnitStep(units: seq<string>, k: nat, size: int, ranges: seq<ByteRange>)
    requires k < |units| && ParseUnits(units[..k], size) == Ok(ranges)
    requires TrimSpace(units[k]) != [] ==> ParseUnit(TrimSpace(units[k]), size).Ok?
    ensures ParseUnits(units[..k + 1], size) ==
            if TrimSpace(units[k]) == [] then Ok(ranges)
            else Ok(ranges + [ParseUnit(TrimSpace(units[k]), size).value])
  {
    assert units[..k + 1][..k] == units[..k];
  }

  /**
   * The rest of parseHTTPRange's loop body once a unit has been cut at its
   * first '-' into the trimmed texts `start` and `end`, step by step as the
   * program runs it: the range starts as {0, 0} and its fields are filled in
   * as the texts are read.
   */
  method ReadBounds(start: string, end: string, size: int) returns (res: Result<ByteRange, RangeError>)
    ensures res == ParseBounds(start, end, size)
  {
    var rangePos := ByteRange(0, 0);
    if start == [] {
      assert ParseBounds(start, end, size) == SuffixUnit(end, size);
      var lastSize := ParseInt(end);
      if lastSize.None? {
        assert ParseBounds(start, end, size) == Err(InvalidEndRange);
        return Err(InvalidEndRange);
      }
      var last := lastSize.value;
      if last > size {
        last := size;
      }
      rangePos := rangePos.(start := Wrap64(size - last), length := last);
      assert rangePos == ByteRange(Wrap64(size - last), last);
      SuffixAccepts(end, size);
      assert ParseBounds(start, end, size) == Ok(rangePos);
    } else {
      var startPos := ParseInt(start);
      if startPos.None? {
        assert ParseBounds(start, end, size) == Err(InvalidStartRange);
        return Err(InvalidStartRange);
      }
      assert ParseBounds(start, end, size) == PrefixUnit(startPos.value, end, size);
      if startPos.value < 0 || startPos.value >= size {
        assert ParseBounds(start, end, size) == Err(InvalidStartRange);
        return Err(InvalidStartRange);
      }
      rangePos := rangePos.(start := startPos.value);
      if end == [] {
        rangePos := rangePos.(length := size - startPos.value);
        assert rangePos == ByteRange(startPos.value, size - startPos.value);
        assert PrefixUnit(startPos.value, end, size) == Ok(rangePos);
        assert ParseBounds(start, end, size) == Ok(rangePos);
      } else {
        var endPos := ParseInt(end);
        if endPos.None? || startPos.value > endPos.value {
          PrefixRejects(startPos.value, end, size);
          assert ParseBounds(start, end, size) == Err(InvalidRange);
          return Err(InvalidRange);
        }
        var last := endPos.value;
        if last >= size {
          last := size - 1;
        }
        rangePos := rangePos.(length := last - startPos.value + 1);
        assert rangePos == ByteRange(startPos.value, Min(endPos.value, size - 1) - startPos.value + 1);
        PrefixClosed(startPos.value, end, endPos.value, size);
        assert ParseBounds(start, end, size) == Ok(rangePos);
      }
    }
    return Ok(rangePos);
  }

  /**
   * parseHTTPRange as the program runs it: a loop over the comma-separated
   * units that appends one range per non-blank unit and returns at the
   * first unit that fails.
   */
  method ParseHTTPRange(header: string, size: int) returns (res: Result<seq<ByteRange>, RangeError>)
    ensures res == ParseRangeHeader(header, size)
  {
    var rangeMap := Split(header, '=');
    if |rangeMap| != 2 || EqualFold(rangeMap[0], "bytes=") {
      return Ok([]);
    }
    var rangeArray: seq<ByteRange> := [];
    var rangeInfos := Split(rangeMap[1], ',');
    for k := 0 to |rangeInfos|
      invariant ParseUnits(rangeInfos[..k], size) == Ok(rangeArray)
    {
      var rangeInfo := TrimSpace(rangeInfos[k]);
      if rangeInfo == [] {
        UnitStep(rangeInfos, k, size, rangeArray);
        continue;
      }
      var i := Index(rangeInfo, '-');
      if i < 0 {
        FailsAt(rangeInfos, k, size);
        return Err(InvalidRange);
      }
      var start, end := TrimSpace(rangeInfo[..i]), TrimSpace(rangeInfo[i + 1..]);
      assert ParseUnit(rangeInfo, size) == ParseBounds(start, end, size);
      var rangePos := ReadBounds(start, end, size);
      if rangePos.Err? {
        FailsAt(rangeInfos, k, size);
        return Err(rangePos.error);
      }
      UnitStep(rangeInfos, k, size, rangeArray);
      rangeArray := rangeArray + [rangePos.value];
    }
    assert rangeInfos[..|rangeInfos|] == rangeInfos;
    return Ok(rangeArray);
  }

  /**
   * All or nothing, one range per non-blank unit, in header order: the list
   * parses exactly when every non-blank unit does, and then the i-th range is
   * the i-th non-blank unit's. Ranges are never sorted or merged, and a list
   * of blank units gives no range and no error.
   */
  lemma {:induction false} UnitsInOrder(units: seq<string>, size: int)
    ensures ParseUnits(units, size).Ok? <==>
              forall j :: 0 <= j < |NonBlank(units)| ==> ParseUnit(NonBlank(units)[j], size).Ok?
    ensures ParseUnits(units, size).Ok? ==>
              |ParseUnits(units, size).value| == |NonBlank(units)| &&
              forall j :: 0 <= j < |NonBlank(units)| ==>
                ParseUnits(units, size).value[j] == ParseUnit(NonBlank(units)[j], size).value
  {
    if units != [] {
      var init := units[..|units| - 1];
      UnitsInOrder(init, size);
      var nb0 := NonBlank(init);
      var u := TrimSpace(units[|units| - 1]);
      assert NonBlank(units) == nb0 + (if u == [] then [] else [u]);
      assert forall j :: 0 <= j < |nb0| ==> NonBlank(units)[j] == nb0[j];
      if ParseUnits(init, size).Err? {
        assert ParseUnits(units, size) == ParseUnits(init, size);
        var j :| 0 <= j < |nb0| && ParseUnit(nb0[j], size).Err?;
        assert !ParseUnit(NonBlank(units)[j], size).Ok?;
      } else if u != [] {
        assert NonBlank(units)[|nb0|] == u;
      }
    }
  }

  /** A list that fails, fails with the error of its first failing non-blank unit. */
  lemma {:induction false} FirstFailure(units: seq<string>, size: int)
    requires ParseUnits(units, size).Err?
    ensures exists j :: 0 <= j < |NonBlank(units)| &&
                        ParseUnit(NonBlank(units)[j], size) == Err(ParseUnits(units, size).error) &&
                        forall i :: 0 <= i < j ==> ParseUnit(NonBlank(units)[i], size).Ok?
  {
    var init := units[..|units| - 1];
    var u := TrimSpace(units[|units| - 1]);
    assert NonBlank(units) == NonBlank(init) + (if u == [] then [] else [u]);
    if ParseUnits(init, size).Err? {
      assert ParseUnits(units, size) == ParseUnits(init, size);
      FirstFailure(init, size);
      FailureKept(NonBlank(init), if u == [] then [] else [u], ParseUnits(init, size).error, size);
    } else {
      UnitsInOrder(init, size);
      assert u != [] && ParseUnits(units, size) == Err(ParseUnit(u, size).error);
      FailureLast(NonBlank(init), u, size);
    }
  }

  /** A first failure in a list stays the first failure when units are appended. */
  lemma FailureKept(nb: seq<string>, more: seq<string>, e: RangeError, size: int)
    requires exists j :: 0 <= j < |nb| && ParseUnit(nb[j], size) == Err(e) &&
                         forall i :: 0 <= i < j ==> ParseUnit(nb[i], size).Ok?
    ensures exists j :: 0 <= j < |nb + more| && ParseUnit((nb + more)[j], size) == Err(e) &&
                        forall i :: 0 <= i < j ==> ParseUnit((nb + more)[i], size).Ok?
  {
    var j :| 0 <= j < |nb| && ParseUnit(nb[j], size) == Err(e) &&
             forall i :: 0 <= i < j ==> ParseUnit(nb[i], size).Ok?;
    assert forall i :: 0 <= i <= j ==> (nb + more)[i] == nb[i];
  }

  /** A unit failing after units that all parse is the first failure. */
  lemma FailureLast(nb: seq<string>, u: string, size: int)
    requires forall j :: 0 <= j < |nb| ==> ParseUnit(nb[j], size).Ok?
    requires ParseUnit(u, size).Err?
    ensures exists j :: 0 <= j < |nb + [u]| && ParseUnit((nb + [u])[j], size) == ParseUnit(u, size) &&
                        forall i :: 0 <= i < j ==> ParseUnit((nb + [u])[i], size).Ok?
  {
    assert (nb + [u])[|nb|] == u;
    assert forall i :: 0 <= i < |nb| ==> (nb + [u])[i] == nb[i];
  }

  /** A header with no '=' or with more than one (an empty header too) requests no range. */
  lemma NoRangeRequested(header: string, size: int)
    requires Count(header, '=') != 1
    ensures ParseRangeHeader(header, size) == Ok([])
  {
    SplitCount(header, '=');
  }

  /** The text before '=' is never looked at: any unit name behaves like "bytes". */
  lemma UnitNameIgnored(name: string, spec: string, size: int)
    requires '=' !in name && '=' !in spec
    ensures ParseRangeHeader(name + "=" + spec, size) == ParseUnits(Split(spec, ','), size)
    ensures ParseRangeHeader(name + "=" + spec, size) == ParseRangeHeader("bytes=" + spec, size)
  {
    AnyName(name, spec, size);
    BytesName(spec, size);
  }

  lemma BytesName(spec: string, size: int)
    requires '=' !in spec
    ensures ParseRangeHeader("bytes=" + spec, size) == ParseUnits(Split(spec, ','), size)
  {
    assert '=' !in "bytes";
    AnyName("bytes", spec, size);
    assert "bytes" + "=" + spec == "bytes=" + spec;
  }

  lemma AnyName(name: string, spec: string, size: int)
    requires '=' !in name && '=' !in spec
    ensures ParseRangeHeader(name + "=" + spec, size) == ParseUnits(Split(spec, ','), size)
  {
    SplitJoin([name, spec], '=');
    assert Join([name, spec], '=') == name + "=" + spec;
    FoldKeepsNonLetter(name, "bytes=", '=');
  }

  /** strings.TrimSpace leaves a formatted integer alone. */
  lemma FormatTrimmed(x: int)
    ensures TrimSpace(FormatInt(x)) == FormatInt(x)
  {
    var s := FormatInt(x);
    assert s[0] == '-' || IsDigit(s[0]);
  }

  /** The unit `S-E` splits into the texts `S` and `E`, for S >= 0. */
  lemma SplitsAtDash(s: int, e: string)
    requires s >= 0
    ensures var unit := FormatInt(s) + "-" + e;
            '-' in unit && StartText(unit) == FormatInt(s) && EndText(unit) == TrimSpace(e)
  {
    var a := FormatInt(s);
    var unit := a + "-" + e;
    assert '-' !in a;
    IndexAfter(a, '-', e);
    assert unit[..|a|] == a;
    assert unit[|a| + 1..] == e;
    assert unit[|a|] == '-';
    FormatTrimmed(s);
  }

  /** A unit whose start text reads as S, 0 <= S < size, and whose end text is blank. */
  lemma OpenUnit(unit: string, s: int, size: int)
    requires '-' in unit && 0 <= s < size
    requires StartText(unit) != [] && ParseInt(StartText(unit)) == Some(s) && EndText(unit) == []
    ensures ParseUnit(unit, size) == Ok(ByteRange(s, size - s))
  {
    var start, end := StartText(unit), EndText(unit);
    assert start != [];
    assert ParseInt(start) == Some(s);
    assert end == [];
  }

  /** A unit whose start text reads as S, 0 <= S < size, and whose end text reads as E >= S. */
  lemma ClosedUnit(unit: string, s: int, e: int, size: int)
    requires '-' in unit && 0 <= s < size && s <= e
    requires StartText(unit) != [] && ParseInt(StartText(unit)) == Some(s)
    requires EndText(unit) != [] && ParseInt(EndText(unit)) == Some(e)
    ensures ParseUnit(unit, size) == Ok(ByteRange(s, Min(e, size - 1) - s + 1))
  {
    var start, end := StartText(unit), EndText(unit);
    assert start != [];
    assert ParseInt(start) == Some(s);
    assert ParseUnit(unit, size) == PrefixUnit(s, end, size);
    PrefixClosed(s, end, e, size);
  }

  lemma SuffixAccepts(end: string, size: int)
    requires ParseInt(end).Some?
    ensures var last := Min(ParseInt(end).value, size);
            SuffixUnit(end, size) == Ok(ByteRange(Wrap64(size - last), last))
  {
  }

  lemma PrefixRejects(s: int, end: string, size: int)
    requires 0 <= s < size && end != []
    requires ParseInt(end).None? || s > ParseInt(end).value
    ensures PrefixUnit(s, end, size) == Err(InvalidRange)
  {
  }

  lemma PrefixClosed(s: int, end: string, e: int, size: int)
    requires 0 <= s < size && s <= e
    requires end != [] && ParseInt(end) == Some(e)
    ensures PrefixUnit(s, end, size) == Ok(ByteRange(s, Min(e, size - 1) - s + 1))
  {
  }

  /** A unit whose start text reads as S, 0 <= S < size, and whose end text reads as E < S. */
  lemma ReversedUnit(unit: string, s: int, e: int, size: int)
    requires '-' in unit && 0 <= s < size && e < s
    requires StartText(unit) != [] && ParseInt(StartText(unit)) == Some(s)
    requires EndText(unit) != [] && ParseInt(EndText(unit)) == Some(e)
    ensures ParseUnit(unit, size) == Err(InvalidRange)
  {
    var start, end := StartText(unit), EndText(unit);
    assert start != [];
    assert ParseInt(start) == Some(s);
    assert end != [];
    assert ParseInt(end) == Some(e);
  }

  /** `S-` with 0 <= S < size: from S to the end of the resource. */
  lemma OpenRange(s: int, size: int)
    requires 0 <= s < size && s <= MaxInt64
    ensures ParseUnit(FormatInt(s) + "-", size) == Ok(ByteRange(s, size - s))
  {
    var unit := FormatInt(s) + "-";
    SplitsAtDash(s, "");
    assert FormatInt(s) + "-" + "" == unit;
    ParseFormat(s);
    OpenUnit(unit, s, size);
  }

  /** `S-E` with 0 <= S < size and S <= E: from S to E, E clamped to the last byte. */
  lemma ClosedRange(s: int, e: int, size: int)
    requires 0 <= s < size && s <= e <= MaxInt64
    ensures ParseUnit(FormatInt(s) + "-" + FormatInt(e), size) ==
            Ok(ByteRange(s, Min(e, size - 1) - s + 1))
  {
    var unit := FormatInt(s) + "-" + FormatInt(e);
    SplitsAtDash(s, FormatInt(e));
    FormatTrimmed(e);
    ParseFormat(s);
    ParseFormat(e);
    ClosedUnit(unit, s, e, size);
  }

  /** The unit `-T` splits into an empty start and the text T. */
  lemma SuffixSplits(tail: string)
    ensures var unit := "-" + tail;
            '-' in unit && StartText(unit) == [] && EndText(unit) == TrimSpace(tail)
  {
    var unit := "-" + tail;
    IndexAfter([], '-', tail);
    assert [] + ['-'] + tail == unit;
    assert unit[..0] == [];
    assert unit[1..] == tail;
  }

  /**
   * `-N` gives the last min(N, size) bytes. N is not checked: `-0`, or any
   * suffix of an empty resource, gives an empty range, and a negative N (the
   * unit `--5`) gives a negative length and a start past the end.
   */
  lemma SuffixRange(n: int, size: int)
    requires IsInt64(n) && 0 <= size <= MaxInt64
    ensures ParseUnit("-" + FormatInt(n), size) ==
            Ok(ByteRange(Wrap64(size - Min(n, size)), Min(n, size)))
    ensures 0 <= n ==> Within(ParseUnit("-" + FormatInt(n), size).value, size) &&
                       ParseUnit("-" + FormatInt(n), size).value.start == size - Min(n, size)
    ensures n == 0 || (size == 0 && n >= 0) ==> ParseUnit("-" + FormatInt(n), size).value.length == 0
  {
    var unit := "-" + FormatInt(n);
    SuffixSplits(FormatInt(n));
    FormatTrimmed(n);
    ParseFormat(n);
    var start, end := StartText(unit), EndText(unit);
    assert start == [];
    assert ParseInt(end) == Some(n);
  }

  /** The failures of a single unit, each of which fails the whole header. */
  lemma UnitErrors(s: int, tail: string, e: int, size: int)
    requires 0 <= s <= MaxInt64 && IsInt64(e)
    ensures forall u: string :: '-' !in u ==> ParseUnit(u, size) == Err(InvalidRange)
    ensures s >= size ==> ParseUnit(FormatInt(s) + "-" + tail, size) == Err(InvalidStartRange)
    ensures s < size && e < s ==> ParseUnit(FormatInt(s) + "-" + FormatInt(e), size) == Err(InvalidRange)
    ensures ParseInt(TrimSpace(tail)) == None ==> ParseUnit("-" + tail, size) == Err(InvalidEndRange)
  {
    ParseFormat(s);
    var unit1 := FormatInt(s) + "-" + tail;
    SplitsAtDash(s, tail);
    assert StartText(unit1) != [];
    assert ParseInt(StartText(unit1)) == Some(s);
    var unit2 := FormatInt(s) + "-" + FormatInt(e);
    SplitsAtDash(s, FormatInt(e));
    FormatTrimmed(e);
    ParseFormat(e);
    assert StartText(unit2) != [];
    assert ParseInt(StartText(unit2)) == Some(s);
    assert EndText(unit2) != [];
    assert ParseInt(EndText(unit2)) == Some(e);
    SuffixSplits(tail);
    assert StartText("-" + tail) == [];
  }

  /**
   * httpRange.contentRange: "bytes first-last/size", the Content-Range value
   * of section 4.2 of RFC 7233; `last` is computed in int64.
   */
  function ContentRange(r: ByteRange, size: int): (cr: string)
    ensures |cr| >= 6 && cr[..6] == "bytes "
    ensures var tail := "/" + FormatInt(size); |tail| <= |cr| && cr[|cr| - |tail|..] == tail
  {
    "bytes " + FormatInt(r.start) + "-" + FormatInt(Wrap64(r.start + r.length - 1)) + "/" +
    FormatInt(size)
  }

  /** A header naming one trimmed unit, holding no ',' or '=', asks for that unit's range. */
  lemma OneUnitHeader(unit: string, r: ByteRange, size: int)
    requires ',' !in unit && '=' !in unit && unit != [] && TrimSpace(unit) == unit
    requires ParseUnit(unit, size) == Ok(r)
    ensures ParseRangeHeader("bytes=" + unit, size) == Ok([r])
  {
    BytesName(unit, size);
    SplitJoin([unit], ',');
    assert Split(unit, ',') == [unit];
    SingleUnit(unit, r, size);
  }

  /** The Content-Range of the range {S, E-S+1} names S and E back, and the resource size. */
  lemma ContentRangeEchoesRequest(s: int, e: int, size: int)
    requires 0 <= s <= e < size <= MaxInt64
    ensures ContentRange(ByteRange(s, e - s + 1), size) ==
            "bytes " + FormatInt(s) + "-" + FormatInt(e) + "/" + FormatInt(size)
  {
    assert Wrap64(s + (e - s + 1) - 1) == e;
  }

  /** A unit `S-E` written by FormatInt holds no ',' or '=' and no surrounding space. */
  lemma FormattedUnit(s: int, e: int)
    requires 0 <= s
    ensures var unit := FormatInt(s) + "-" + FormatInt(e);
            ',' !in unit && '=' !in unit && TrimSpace(unit) == unit
  {
    var a, b := FormatInt(s), FormatInt(e);
    var unit := a + "-" + b;
    forall i | 0 <= i < |unit|
      ensures unit[i] == '-' || IsDigit(unit[i])
    {
      if i < |a| {
        assert unit[i] == a[i];
      } else if i > |a| {
        assert unit[i] == b[i - |a| - 1];
      }
    }
    assert unit[0] == a[0];
    assert unit[|unit| - 1] == b[|b| - 1];
  }

  /** A list of one trimmed unit parses as that unit. */
  lemma SingleUnit(unit: string, r: ByteRange, size: int)
    requires unit != [] && TrimSpace(unit) == unit && ParseUnit(unit, size) == Ok(r)
    ensures ParseUnits([unit], size) == Ok([r])
  {
    assert [unit][..0] == [];
    assert [] + [r] == [r];
  }
}
