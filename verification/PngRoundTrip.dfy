// The image data of a PNG file, filtered and compressed by the writer and inflated and unfiltered by the reader.
module PngRoundTrip {
  import opened BitStream
  import opened HuffmanTables
  import opened DeflateFormat
  import opened InflateSpec
  import opened InflateBits
  import opened Inflate
  import opened InflateZlib
  import opened ZlibRoundTrip
  import opened PngFilter
  import opened PngImage

  /**
   * Whatever filters the writer forces or chooses, whatever its compression level, and with either order of the rows,
   * the reader's pixels are the rows that were written.
   */
  method RoundTrip(pixels: seq<Byte>, strideBytes: nat, x: nat, y: nat, n: nat, forceFilter: int, flip: bool,
                   quality: int)
    returns (restored: array<Byte>)
    requires 1 <= n <= 4 && x > 0 && y > 0 && InMemory(|pixels|, strideBytes, y, x * n)
    requires y * (x * n + 1) <= 0x7FFF_FFFF
    ensures restored[..] == Flatten(MemoryRows(pixels, strideBytes, y, x * n, flip))
  {
    hide InMemory, MemoryRow, FilteredRows, UnfilteredRows, GoodFilters, Flatten, ZlibMeaning;
    var filt, filters := FilterImage(pixels, strideBytes, x, y, n, forceFilter, flip);
    ghost var rows := MemoryRows(pixels, strideBytes, y, x * n, flip);
    FilteredLength(rows, filters, n, y, x * n);
    UnfilterImage(rows, filters, n, y, x * n, []);
    assert filt + [] == filt && rows[..y] == rows;
    NotEmpty(y, x * n + 1);
    var _, parsed, inflated := ZlibRoundTrip.RoundTrip(filt, quality, 16384, true);
    var ok;
    ok, restored := CreatePngImageRaw(inflated, x, y, n);
    assert ok;
  }

  lemma NotEmpty(a: nat, b: nat)
    requires a > 0 && b > 0
    ensures a * b > 0
  {
  }
}
