// The rows of an image through the PNG filters and, compressed, through DEFLATE (stb/stb_image_write.h:1092-1176,
// stb/stb_image.h:4650-4745).
module PngImage {
  import opened BitOps
  import opened BitStream
  import opened PngFilter

  /** An image is its rows in the order they are written. */
  type Rows = seq<Row>

  predicate AllLong(rows: Rows, size: nat) {
    forall j :: 0 <= j < |rows| ==> |rows[j]| == size
  }

  /** The row above row j; nothing above the first. */
  function Above(rows: Rows, j: nat): Row
    requires j <= |rows|
  {
    if j == 0 then [] else rows[j - 1]
  }

  // ----- the writer

  /** Where row y of the output starts in memory. */
  function RowStart(strideBytes: nat, height: nat, y: nat, flip: bool): int
    requires y < height
  {
    strideBytes * (if flip then height - 1 - y else y)
  }

  ghost predicate InMemory(size: nat, strideBytes: nat, height: nat, rowBytes: nat) {
    height > 0 ==> strideBytes * (height - 1) + rowBytes <= size
  }

  lemma RowInMemory(size: nat, strideBytes: nat, height: nat, rowBytes: nat, y: nat, flip: bool)
    requires InMemory(size, strideBytes, height, rowBytes) && y < height
    ensures 0 <= RowStart(strideBytes, height, y, flip)
    ensures RowStart(strideBytes, height, y, flip) + rowBytes <= size
    ensures y > 0 ==> RowStart(strideBytes, height, y - 1, flip) ==
                      RowStart(strideBytes, height, y, flip) - (if flip then -(strideBytes as int) else strideBytes)
  {
    var k := if flip then height - 1 - y else y;
    MulMonotone(k, height - 1, strideBytes);
    assert k * strideBytes == strideBytes * k && (height - 1) * strideBytes == strideBytes * (height - 1);
    assert strideBytes * (k + 1) == strideBytes * k + strideBytes;
    assert strideBytes * (k - 1) == strideBytes * k - strideBytes;
    MulMonotone(0, k, strideBytes);
  }

  function MemoryRow(pixels: seq<Byte>, strideBytes: nat, height: nat, rowBytes: nat, y: nat, flip: bool): (r: Row)
    requires InMemory(|pixels|, strideBytes, height, rowBytes) && y < height
    ensures |r| == rowBytes
  {
    hide RowStart, InMemory;
    RowInMemory(|pixels|, strideBytes, height, rowBytes, y, flip);
    var z := RowStart(strideBytes, height, y, flip);
    pixels[z..z + rowBytes]
  }

  /** The image in memory, bottom row first when it is flipped. */
  function MemoryRows(pixels: seq<Byte>, strideBytes: nat, height: nat, rowBytes: nat, flip: bool): (rows: Rows)
    requires InMemory(|pixels|, strideBytes, height, rowBytes)
    ensures |rows| == height && AllLong(rows, rowBytes)
  {
    hide MemoryRow, InMemory;
    seq(height, y requires 0 <= y < height => MemoryRow(pixels, strideBytes, height, rowBytes, y, flip))
  }

  /** stbiw__encode_png_line: the row is filtered against the row that was written before it. */
  method EncodePngLine(pixels: seq<Byte>, strideBytes: nat, width: nat, height: nat, y: nat, n: nat, filterType: nat,
                       flip: bool, lineBuffer: array<Byte>)
    requires 1 <= n <= 4 && width > 0 && filterType <= 4 && y < height && lineBuffer.Length == width * n
    requires InMemory(|pixels|, strideBytes, height, width * n)
    modifies lineBuffer
    ensures var rows := MemoryRows(pixels, strideBytes, height, width * n, flip);
      lineBuffer[..] == FilterRow(filterType, rows[y], Above(rows, y), n)
  {
    hide Predict, OtherPixel, FirstPixel, LineType, RowStart, InMemory;
    ghost var rows := MemoryRows(pixels, strideBytes, height, width * n, flip);
    ghost var row, above := rows[y], Above(rows, y);
    RowInMemory(|pixels|, strideBytes, height, width * n, y, flip);
    if y > 0 {
      RowInMemory(|pixels|, strideBytes, height, width * n, y - 1, flip);
    }
    MulMonotone(1, width, n);
    var lineType := LineType(filterType, y);
    var z := RowStart(strideBytes, height, y, flip);
    var signedStride := if flip then -(strideBytes as int) else strideBytes;
    var i := 0;
    while i < width * n
      invariant 0 <= i <= width * n
      invariant forall k :: 0 <= k < i ==> lineBuffer[k] == FilterRow(filterType, row, above, n)[k]
    {
      LineTypes(filterType, y, row, above, n, i);
      var up := if y > 0 then pixels[z + i - signedStride] else 0;
      if lineType == 0 {
        lineBuffer[i] := pixels[z + i];
      } else if i < n {
        lineBuffer[i] := FirstPixel(lineType, pixels[z + i], up);
      } else {
        var upLeft := if y > 0 then pixels[z + i - signedStride - n] else 0;
        lineBuffer[i] := OtherPixel(lineType, pixels[z + i], pixels[z + i - n], up, upLeft);
      }
      i := i + 1;
    }
  }

  /** Every row as its filter and its filtered bytes. */
  function FilteredRows(rows: Rows, filters: seq<nat>, n: nat, j: nat): (filt: seq<Byte>)
    requires j <= |rows| == |filters| && forall k :: 0 <= k < |filters| ==> filters[k] <= 4
    decreases j
  {
    if j == 0 then []
    else FilteredRows(rows, filters, n, j - 1) + [filters[j - 1]]
         + FilterRow(filters[j - 1], rows[j - 1], Above(rows, j - 1), n)
  }

  function SignedChar(b: Byte): int {
    if b < 128 then b else b as int - 256
  }

  function SumOfAbs(line: Row): nat {
    if |line| == 0 then 0 else SumOfAbs(line[..|line| - 1]) + Abs(SignedChar(line[|line| - 1]))
  }

  /** A byte counts as its distance from zero modulo 256. */
  lemma ByteEstimate(b: Byte)
    ensures Abs(SignedChar(b)) == if b <= 128 then b else 256 - b
  {
  }

  /** Lines 1157 to 1160. */
  method Estimate(line: array<Byte>) returns (est: nat)
    ensures est == SumOfAbs(line[..])
  {
    est := 0;
    for i := 0 to line.Length
      invariant est == SumOfAbs(line[..i])
    {
      assert line[..i + 1][..i] == line[..i];
      est := est + Abs(SignedChar(line[i]));
    }
    assert line[..line.Length] == line[..];
  }

  const NO_FILTER_YET: nat := 0x7fffffff

  /** The estimate for a filter, as far as it matters. */
  function Score(filter: nat, rows: Rows, j: nat, n: nat): nat
    requires filter <= 4 && j < |rows|
  {
    var est := SumOfAbs(FilterRow(filter, rows[j], Above(rows, j), n));
    if est < NO_FILTER_YET then est else NO_FILTER_YET
  }

  /** No filter is estimated lower, and none before it as low. */
  predicate LooksBest(best: nat, rows: Rows, j: nat, n: nat)
    requires j < |rows|
  {
    best <= 4 && BestBelow(best, rows, j, n, 5)
  }

  predicate BestBelow(best: nat, rows: Rows, j: nat, n: nat, limit: nat)
    requires j < |rows| && best <= 4 && limit <= 5
  {
    && (forall f: nat :: f < limit ==> Score(best, rows, j, n) <= Score(f, rows, j, n))
    && (forall f: nat :: f < limit && f < best ==> Score(best, rows, j, n) < Score(f, rows, j, n))
  }

  /** Lines 1145 to 1174: the forced filter for every row, or else the one that looks best. */
  method FilterImage(pixels: seq<Byte>, strideBytes: nat, x: nat, y: nat, n: nat, forceFilter: int, flip: bool)
    returns (filt: seq<Byte>, ghost filters: seq<nat>)
    requires 1 <= n <= 4 && x > 0 && InMemory(|pixels|, strideBytes, y, x * n)
    ensures |filters| == y && forall k :: 0 <= k < y ==> filters[k] <= 4
    ensures var rows := MemoryRows(pixels, strideBytes, y, x * n, flip);
      forall k :: 0 <= k < y ==>
        if 0 <= forceFilter < 5 then filters[k] == forceFilter else LooksBest(filters[k], rows, k, n)
    ensures filt == FilteredRows(MemoryRows(pixels, strideBytes, y, x * n, flip), filters, n, y)
  {
    hide InMemory, FilterRow, MemoryRow, LooksBest;
    var force := if forceFilter >= 5 then -1 else forceFilter;
    ghost var rows := MemoryRows(pixels, strideBytes, y, x * n, flip);
    filt := [];
    filters := [];
    var lineBuffer := new Byte[x * n];
    ghost var all := seq(y, _ => 0);
    var j := 0;
    while j < y
      invariant j <= y && |filters| == j && forall k :: 0 <= k < j ==> filters[k] <= 4
      invariant forall k :: 0 <= k < j ==>
        if 0 <= forceFilter < 5 then filters[k] == forceFilter else LooksBest(filters[k], rows, k, n)
      invariant filt == FilteredRows(rows[..j], filters, n, j)
    {
      var filterType: nat;
      if force > -1 {
        filterType := force;
        EncodePngLine(pixels, strideBytes, x, y, j, n, filterType, flip, lineBuffer);
      } else {
        filterType := ChooseFilter(pixels, strideBytes, x, y, j, n, flip, lineBuffer);
        EncodePngLine(pixels, strideBytes, x, y, j, n, filterType, flip, lineBuffer);
      }
      FilteredMore(rows, filters, n, j, filterType);
      filt := filt + [filterType] + lineBuffer[..];
      filters := filters + [filterType];
      j := j + 1;
    }
    assert rows[..y] == rows;
  }

  /** Lines 1152 to 1165: the filter with the smallest sum, the first one if several are as small. */
  method ChooseFilter(pixels: seq<Byte>, strideBytes: nat, x: nat, y: nat, j: nat, n: nat, flip: bool,
                      lineBuffer: array<Byte>)
    returns (best: nat)
    requires 1 <= n <= 4 && x > 0 && j < y && lineBuffer.Length == x * n
    requires InMemory(|pixels|, strideBytes, y, x * n)
    modifies lineBuffer
    ensures best <= 4 && LooksBest(best, MemoryRows(pixels, strideBytes, y, x * n, flip), j, n)
  {
    hide InMemory, FilterRow, MemoryRow, SumOfAbs;
    ghost var rows := MemoryRows(pixels, strideBytes, y, x * n, flip);
    best := 0;
    var bestVal := NO_FILTER_YET;
    for filterType := 0 to 5
      invariant best <= 4 && (filterType == 0 ==> best == 0 && bestVal == NO_FILTER_YET)
      invariant filterType > 0 ==> best < filterType && bestVal == Score(best, rows, j, n)
      invariant BestBelow(best, rows, j, n, filterType)
    {
      EncodePngLine(pixels, strideBytes, x, y, j, n, filterType, flip, lineBuffer);
      var est := Estimate(lineBuffer);
      BetterFilter(best, bestVal, rows, j, n, filterType, est);
      if est < bestVal {
        bestVal := est;
        best := filterType;
      }
    }
  }

  /** One filter more. */
  lemma BetterFilter(best: nat, bestVal: nat, rows: Rows, j: nat, n: nat, f: nat, est: nat)
    requires j < |rows| && best <= 4 && f < 5 && BestBelow(best, rows, j, n, f)
    requires est == SumOfAbs(FilterRow(f, rows[j], Above(rows, j), n))
    requires if f == 0 then best == 0 && bestVal == NO_FILTER_YET
             else best < f && bestVal == Score(best, rows, j, n)
    ensures var best', bestVal' := if est < bestVal then f else best, if est < bestVal then est else bestVal;
      BestBelow(best', rows, j, n, f + 1) && bestVal' == Score(best', rows, j, n)
  {
    hide FilterRow, SumOfAbs;
  }

  lemma {:induction false} FilteredPrefix(rows: Rows, more: Rows, filters: seq<nat>, moreFilters: seq<nat>, n: nat,
                                         j: nat)
    requires j <= |rows| == |filters| && |moreFilters| == |more| && rows <= more && filters <= moreFilters
    requires forall k :: 0 <= k < |moreFilters| ==> moreFilters[k] <= 4
    ensures FilteredRows(rows, filters, n, j) == FilteredRows(more, moreFilters, n, j)
    decreases j
  {
    hide FilterRow;
    if j > 0 {
      FilteredPrefix(rows, more, filters, moreFilters, n, j - 1);
    }
  }

  lemma FilteredMore(rows: Rows, filters: seq<nat>, n: nat, j: nat, f: nat)
    requires j < |rows| && |filters| == j && f <= 4 && forall k :: 0 <= k < j ==> filters[k] <= 4
    ensures FilteredRows(rows[..j + 1], filters + [f], n, j + 1) ==
            FilteredRows(rows[..j], filters, n, j) + [f] + FilterRow(f, rows[j], Above(rows, j), n)
  {
    hide FilterRow;
    FilteredPrefix(rows[..j], rows[..j + 1], filters, filters + [f], n, j);
  }

  // ----- the reader

  function Flatten(rows: Rows): seq<Byte> {
    if |rows| == 0 then [] else Flatten(rows[..|rows| - 1]) + rows[|rows| - 1]
  }

  /** What j rows of filtered data are turned into; nothing for a filter above 4. */
  function UnfilteredRows(raw: seq<Byte>, rowBytes: nat, n: nat, j: nat): (rows: Rows)
    requires j * (rowBytes + 1) <= |raw|
    ensures |rows| == j && AllLong(rows, rowBytes)
    decreases j
  {
    if j == 0 then []
    else
      RowFits(j, rowBytes + 1);
      var rows := UnfilteredRows(raw, rowBytes, n, j - 1);
      var start := (j - 1) * (rowBytes + 1);
      rows + [UnfilterRow(raw[start], raw[start + 1..start + 1 + rowBytes], Above(rows, j - 1), n, rowBytes)]
  }

  lemma RowFits(j: nat, size: nat)
    requires j > 0
    ensures (j - 1) * size + size == j * size && (j - 1) * size >= 0
  {
  }

  /** Lines 4695 to 4706: the first pixel of a row. */
  method UnfilterFirst(out: array<Byte>, cur: nat, line: Row, filter: nat, j: nat, n: nat, ghost above: Row)
    requires 1 <= n <= |line| && filter <= 4 && cur + |line| <= out.Length && (j > 0 ==> cur >= |line|)
    requires above == if j == 0 then [] else out[cur - |line|..cur]
    modifies out
    ensures Building(out[..], cur, filter, line, above, n, n) && out[..cur] == old(out[..cur])
  {
    hide Predict, ReadFirst, LineType, Uchar, Building, At;
    var lineType := LineType(filter, j);
    var k := 0;
    BuildingEnds(out[..], cur, filter, line, above, n, 0);
    while k < n
      invariant 0 <= k <= n && out[..cur] == old(out[..cur])
      invariant Building(out[..], cur, filter, line, above, n, k)
    {
      var prior := if j > 0 then out[cur - |line| + k] else 0;
      PriorByte(out[..cur], |line|, j, k);
      ReaderTypes(filter, j, line[k], out[cur..cur + k], above, n);
      ghost var was := out[..];
      out[cur + k] := ReadFirst(lineType, line[k], prior);
      BuildingMore(was, out[..], cur, filter, line, above, n, k, out[cur + k]);
      k := k + 1;
    }
  }

  /** Lines 4729 to 4743: the other pixels, in place, each from what is already in the output. */
  method UnfilterRest(out: array<Byte>, cur: nat, line: Row, filter: nat, j: nat, n: nat, ghost above: Row)
    requires 1 <= n <= |line| && filter <= 4 && cur + |line| <= out.Length && (j > 0 ==> cur >= |line|)
    requires above == if j == 0 then [] else out[cur - |line|..cur]
    requires Building(out[..], cur, filter, line, above, n, n)
    modifies out
    ensures Building(out[..], cur, filter, line, above, n, |line|) && out[..cur] == old(out[..cur])
  {
    hide Predict, ReadOther, LineType, Uchar, Building, At;
    var lineType := LineType(filter, j);
    var k := n;
    while k < |line|
      invariant n <= k <= |line| && out[..cur] == old(out[..cur])
      invariant Building(out[..], cur, filter, line, above, n, k)
    {
      var prior := if j > 0 then out[cur - |line| + k] else 0;
      var priorLeft := if j > 0 then out[cur - |line| + k - n] else 0;
      PriorByte(out[..cur], |line|, j, k);
      PriorByte(out[..cur], |line|, j, k - n);
      ReaderTypes(filter, j, line[k], out[cur..cur + k], above, n);
      ghost var was := out[..];
      assert was[cur..cur + k][k - n] == out[cur + k - n];
      out[cur + k] := ReadOther(lineType, line[k], out[cur + k - n], prior, priorLeft);
      BuildingMore(was, out[..], cur, filter, line, above, n, k, out[cur + k]);
      k := k + 1;
    }
  }

  /** The first k bytes of the row are in place. */
  ghost predicate Building(out: seq<Byte>, cur: nat, filter: nat, line: Row, above: Row, n: nat, k: nat) {
    k <= |line| && cur + k <= |out| && out[cur..cur + k] == UnfilterRow(filter, line, above, n, k)
  }

  lemma BuildingMore(out: seq<Byte>, out': seq<Byte>, cur: nat, filter: nat, line: Row, above: Row, n: nat, k: nat,
                     v: Byte)
    requires Building(out, cur, filter, line, above, n, k) && k < |line| && cur + k < |out|
    requires out' == out[cur + k := v]
    requires v == Uchar(line[k] as int + Predict(filter, out[cur..cur + k], above, n, k) as int)
    ensures Building(out', cur, filter, line, above, n, k + 1) && out'[..cur] == out[..cur]
  {
    hide Predict, Uchar;
    assert out'[cur..cur + k + 1] == out[cur..cur + k] + [v];
  }

  lemma BuildingEnds(out: seq<Byte>, cur: nat, filter: nat, line: Row, above: Row, n: nat, k: nat)
    requires cur + |line| <= |out|
    ensures Building(out, cur, filter, line, above, n, 0)
    ensures k <= |line| && Building(out, cur, filter, line, above, n, k) ==>
              out[cur..cur + k] == UnfilterRow(filter, line, above, n, k)
  {
    assert out[cur..cur] == [];
  }

  /** The byte above, as the specification reads it. */
  lemma PriorByte(before: seq<Byte>, stride: nat, j: nat, k: nat)
    requires (j > 0 ==> |before| >= stride) && k < stride
    ensures var above := if j == 0 then [] else before[|before| - stride..];
      At(above, k) == if j > 0 then before[|before| - stride + k] else 0
  {
  }

  /** No filter byte of the first j rows is above 4. */
  predicate GoodFilters(raw: seq<Byte>, rowBytes: nat, j: nat)
    requires j * (rowBytes + 1) <= |raw|
    decreases j
  {
    if j == 0 then true
    else
      RowFits(j, rowBytes + 1);
      GoodFilters(raw, rowBytes, j - 1) && raw[(j - 1) * (rowBytes + 1)] <= 4
  }

  lemma FlattenLast(rows: Rows, size: nat)
    requires AllLong(rows, size) && |rows| > 0
    ensures |Flatten(rows)| >= size && Flatten(rows)[|Flatten(rows)| - size..] == rows[|rows| - 1]
  {
  }

  lemma FlattenMore(rows: Rows, row: Row)
    ensures Flatten(rows + [row]) == Flatten(rows) + row
  {
    assert (rows + [row])[..|rows|] == rows;
  }

  /** One row further. */
  lemma RowStep(raw: seq<Byte>, rowBytes: nat, n: nat, j: nat)
    requires (j + 1) * (rowBytes + 1) <= |raw|
    ensures j * (rowBytes + 1) + rowBytes + 1 <= |raw| && j * (rowBytes + 1) >= 0
    ensures var start := j * (rowBytes + 1);
      var rows := UnfilteredRows(raw, rowBytes, n, j);
      && UnfilteredRows(raw, rowBytes, n, j + 1) ==
         rows + [UnfilterRow(raw[start], raw[start + 1..start + 1 + rowBytes], Above(rows, j), n, rowBytes)]
      && (GoodFilters(raw, rowBytes, j + 1) <==> GoodFilters(raw, rowBytes, j) && raw[start] <= 4)
  {
    hide UnfilterRow;
    RowFits(j + 1, rowBytes + 1);
  }

  lemma {:induction false} FiltersBefore(raw: seq<Byte>, rowBytes: nat, j: nat, y: nat)
    requires j <= y && y * (rowBytes + 1) <= |raw|
    ensures j * (rowBytes + 1) <= y * (rowBytes + 1)
    ensures GoodFilters(raw, rowBytes, y) ==> GoodFilters(raw, rowBytes, j)
    decreases y
  {
    MulMonotone(j, y, rowBytes + 1);
    if j < y {
      RowFits(y, rowBytes + 1);
      FiltersBefore(raw, rowBytes, j, y - 1);
    }
  }

  /**
   * stbi__create_png_image_raw for eight bits a sample and as many channels out as in: there must be enough data and
   * no filter above 4, and then the output is the unfiltered rows.
   */
  method CreatePngImageRaw(raw: seq<Byte>, x: nat, y: nat, n: nat) returns (ok: bool, out: array<Byte>)
    requires 1 <= n <= 4 && x > 0
    ensures y * (x * n + 1) > |raw| ==> !ok
    ensures y * (x * n + 1) <= |raw| ==> (ok <==> GoodFilters(raw, x * n, y))
    ensures ok ==> y * (x * n + 1) <= |raw| && out[..] == Flatten(UnfilteredRows(raw, x * n, n, y))
  {
    hide GoodFilters, UnfilterRow, UnfilteredRows, Building, Flatten;
    var stride := x * n;
    MulMonotone(1, x, n);
    out := new Byte[y * stride];
    if |raw| < y * (stride + 1) {
      return false, out;
    }
    var j, cur, next := 0, 0, 0;
    NoRows(raw, stride, n);
    while j < y
      modifies out
      invariant j <= y && cur == j * stride && next == j * (stride + 1) && next <= |raw| && cur <= out.Length
      invariant GoodFilters(raw, stride, j) && out[..cur] == Flatten(UnfilteredRows(raw, stride, n, j))
    {
      FiltersBefore(raw, stride, j + 1, y);
      MulMonotone(j + 1, y, stride);
      RowFits(j + 1, stride);
      RowFits(j + 1, stride + 1);
      RowStep(raw, stride, n, j);
      var filter := raw[next];
      if filter > 4 {
        return false, out;
      }
      ghost var rows := UnfilteredRows(raw, stride, n, j);
      ghost var above := Above(rows, j);
      var line := raw[next + 1..next + 1 + stride];
      if j > 0 {
        FlattenLast(rows, stride);
        assert out[cur - stride..cur] == out[..cur][cur - stride..];
      }
      UnfilterFirst(out, cur, line, filter, j, n, above);
      assert j > 0 ==> out[cur - stride..cur] == out[..cur][cur - stride..];
      UnfilterRest(out, cur, line, filter, j, n, above);
      BuildingEnds(out[..], cur, filter, line, above, n, stride);
      FlattenMore(rows, UnfilterRow(filter, line, above, n, stride));
      assert out[..cur + stride] == out[..cur] + out[cur..cur + stride];
      cur := cur + stride;
      next := next + stride + 1;
      j := j + 1;
    }
    ok := true;
    assert out[..cur] == out[..];
  }

  lemma NoRows(raw: seq<Byte>, rowBytes: nat, n: nat)
    ensures GoodFilters(raw, rowBytes, 0) && Flatten(UnfilteredRows(raw, rowBytes, n, 0)) == []
  {
  }

  // ----- the round trip

  lemma {:induction false} FilteredLength(rows: Rows, filters: seq<nat>, n: nat, j: nat, size: nat)
    requires j <= |rows| == |filters| && AllLong(rows, size) && forall k :: 0 <= k < |filters| ==> filters[k] <= 4
    ensures |FilteredRows(rows, filters, n, j)| == j * (size + 1)
    decreases j
  {
    hide FilterRow;
    if j > 0 {
      FilteredLength(rows, filters, n, j - 1, size);
      RowFits(j, size + 1);
    }
  }

  /** The reader turns any filtered rows back into the rows, whatever follows them. */
  lemma {:induction false} UnfilterImage(rows: Rows, filters: seq<nat>, n: nat, j: nat, size: nat, rest: seq<Byte>)
    requires j <= |rows| == |filters| && AllLong(rows, size) && forall k :: 0 <= k < |filters| ==> filters[k] <= 4
    requires n > 0
    ensures var raw := FilteredRows(rows, filters, n, j) + rest;
      j * (size + 1) <= |raw| && GoodFilters(raw, size, j) && UnfilteredRows(raw, size, n, j) == rows[..j]
    decreases j
  {
    hide FilterRow, UnfilterRow, UnfilteredRows, GoodFilters;
    FilteredLength(rows, filters, n, j, size);
    var raw := FilteredRows(rows, filters, n, j) + rest;
    if j == 0 {
      NoRows(raw, size, n);
      NoRowsYet(raw, size, n);
      assert rows[..0] == [];
    } else {
      var f, line := filters[j - 1], FilterRow(filters[j - 1], rows[j - 1], Above(rows, j - 1), n);
      var before := FilteredRows(rows, filters, n, j - 1);
      FilteredLength(rows, filters, n, j - 1, size);
      UnfilterImage(rows, filters, n, j - 1, size, [f] + line + rest);
      RowSlices(before, f, line, rest);
      assert raw == before + ([f] + line + rest);
      RowFits(j, size + 1);
      RowStep(raw, size, n, j - 1);
      assert Above(rows[..j - 1], j - 1) == Above(rows, j - 1);
      UnfilterFilter(f, rows[j - 1], Above(rows, j - 1), n, size);
      assert rows[j - 1][..size] == rows[j - 1];
      assert rows[..j] == rows[..j - 1] + [rows[j - 1]];
    }
  }

  lemma NoRowsYet(raw: seq<Byte>, rowBytes: nat, n: nat)
    ensures UnfilteredRows(raw, rowBytes, n, 0) == []
  {
  }

  lemma RowSlices(before: seq<Byte>, f: Byte, line: Row, rest: seq<Byte>)
    ensures var raw := before + ([f] + line + rest);
      raw == before + [f] + line + rest && raw[|before|] == f
      && raw[|before| + 1..|before| + 1 + |line|] == line
  {
  }
}
