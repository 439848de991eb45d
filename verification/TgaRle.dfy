// Run-length packets of TGA files (stb/stb_image_write.h:559-605, stb/stb_image.h:5969-6024 and 6049-6060).
module TgaRle {
  import opened Sequences
  import opened BitStream

  /** The bytes of one pixel. */
  type Pixel = seq<Byte>

  // ----- packets

  /** A repeated pixel, or pixels one after the other. */
  datatype Packet = Run(length: nat, pixel: Pixel) | Raw(pixels: seq<Pixel>)

  predicate ValidPacket(p: Packet, comp: nat) {
    match p
    case Run(length, pixel) => 1 <= length <= 128 && |pixel| == comp
    case Raw(pixels) => 1 <= |pixels| <= 128 && AllSized(pixels, comp)
  }

  predicate AllSized(pixels: seq<Pixel>, comp: nat) {
    forall i :: 0 <= i < |pixels| ==> |pixels[i]| == comp
  }

  function Repeat(pixel: Pixel, n: nat): seq<Pixel> {
    seq(n, _ => pixel)
  }

  function Expand(p: Packet): seq<Pixel> {
    match p
    case Run(length, pixel) => Repeat(pixel, length)
    case Raw(pixels) => pixels
  }

  function ExpandAll(packets: seq<Packet>): seq<Pixel> {
    if |packets| == 0 then [] else Expand(packets[0]) + ExpandAll(packets[1..])
  }

  /** The order of the bytes in the file: blue, green, red, and alpha last. */
  function FileOrder(d: Pixel): (r: Pixel)
    ensures |r| == |d|
  {
    if |d| >= 3 then [d[2], d[1], d[0]] + d[3..] else d
  }

  lemma FileOrderTwice(d: Pixel)
    ensures FileOrder(FileOrder(d)) == d
  {
  }

  /** Red, green, blue and alpha in memory are bytes 2, 1, 0 and 3 of a pixel in the file. */
  lemma FileOrderIs(red: Byte, green: Byte, blue: Byte, alpha: Byte)
    ensures FileOrder([red, green, blue]) == [blue, green, red]
    ensures FileOrder([red, green, blue, alpha]) == [blue, green, red, alpha]
    ensures FileOrder([red]) == [red] && FileOrder([red, alpha]) == [red, alpha]
  {
  }

  function PixelBytes(pixels: seq<Pixel>): seq<Byte> {
    if |pixels| == 0 then [] else FileOrder(pixels[0]) + PixelBytes(pixels[1..])
  }

  /** A header byte of length - 1, with the top bit for a run, and then the pixels. */
  function EncodePacket(p: Packet): seq<Byte>
    requires match p case Run(length, _) => 1 <= length <= 128 case Raw(pixels) => 1 <= |pixels| <= 128
  {
    match p
    case Run(length, pixel) => [length + 127] + FileOrder(pixel)
    case Raw(pixels) => [|pixels| - 1] + PixelBytes(pixels)
  }

  /** The header: bit 7 says that the pixel is repeated, the others hold one less than the number of pixels. */
  lemma PacketHeader(p: Packet)
    requires match p case Run(length, _) => 1 <= length <= 128 case Raw(pixels) => 1 <= |pixels| <= 128
    ensures |EncodePacket(p)| > 0
    ensures EncodePacket(p)[0] / 128 == if p.Run? then 1 else 0
    ensures EncodePacket(p)[0] % 128 == |Expand(p)| - 1
  {
    hide PixelBytes, FileOrder;
  }

  predicate AllValid(packets: seq<Packet>, comp: nat) {
    forall i :: 0 <= i < |packets| ==> ValidPacket(packets[i], comp)
  }

  function EncodeAll(packets: seq<Packet>, comp: nat): seq<Byte>
    requires AllValid(packets, comp)
  {
    if |packets| == 0 then [] else EncodePacket(packets[0]) + EncodeAll(packets[1..], comp)
  }

  // ----- the reader's state machine

  /** stbi__get8: zero past the end. */
  function Get8(data: seq<Byte>): Byte {
    if |data| == 0 then 0 else data[0]
  }

  function Skip(data: seq<Byte>, n: nat): (r: seq<Byte>) {
    if n <= |data| then data[n..] else []
  }

  function GetPixel(data: seq<Byte>, comp: nat): (p: Pixel)
    ensures |p| == comp
  {
    seq(comp, i requires 0 <= i => if i < |data| then data[i] else 0)
  }

  /** The next k pixels, when `count` of the current packet are still due. */
  function Load(data: seq<Byte>, comp: nat, count: nat, repeating: bool, raw: Pixel, k: nat): (pixels: seq<Pixel>)
    ensures |pixels| == k
    decreases k
  {
    if k == 0 then []
    else if count == 0 then
      var cmd := Get8(data);
      var rest := Skip(data, 1);
      [GetPixel(rest, comp)] + Load(Skip(rest, comp), comp, cmd % 128, cmd / 128 == 1, GetPixel(rest, comp), k - 1)
    else if repeating then [raw] + Load(data, comp, count - 1, repeating, raw, k - 1)
    else [GetPixel(data, comp)] + Load(Skip(data, comp), comp, count - 1, repeating, GetPixel(data, comp), k - 1)
  }

  /** Swapping red and blue back. */
  function MemoryOrder(pixels: seq<Pixel>): (r: seq<Pixel>)
    ensures |r| == |pixels|
  {
    seq(|pixels|, i requires 0 <= i < |pixels| => FileOrder(pixels[i]))
  }

  // ----- reading packets

  lemma {:induction false} LoadRun(data: seq<Byte>, comp: nat, count: nat, raw: Pixel, m: nat)
    ensures Load(data, comp, count, true, raw, count + m) == Repeat(raw, count) + Load(data, comp, 0, true, raw, m)
    decreases count
  {
    if count > 0 {
      LoadRun(data, comp, count - 1, raw, m);
      assert Repeat(raw, count) == [raw] + Repeat(raw, count - 1);
    } else {
      assert Repeat(raw, 0) + Load(data, comp, 0, true, raw, m) == Load(data, comp, 0, true, raw, m);
    }
  }

  lemma NextPixel(pixel: Pixel, rest: seq<Byte>, comp: nat)
    requires |pixel| == comp
    ensures GetPixel(pixel + rest, comp) == pixel && Skip(pixel + rest, comp) == rest
  {
  }

  /** One pixel of a raw packet. */
  lemma LoadOne(pixel: Pixel, rest: seq<Byte>, comp: nat, count: nat, raw: Pixel, k: nat)
    requires |pixel| == comp && count > 0 && k > 0
    ensures Load(pixel + rest, comp, count, false, raw, k) ==
            [pixel] + Load(rest, comp, count - 1, false, pixel, k - 1)
  {
    hide GetPixel, Skip;
    NextPixel(pixel, rest, comp);
  }

  lemma PixelBytesStep(pixels: seq<Pixel>, rest: seq<Byte>)
    requires |pixels| > 0
    ensures PixelBytes(pixels) + rest == FileOrder(pixels[0]) + (PixelBytes(pixels[1..]) + rest)
    ensures MemoryOrder(pixels) == [FileOrder(pixels[0])] + MemoryOrder(pixels[1..])
  {
    hide FileOrder, MemoryOrder;
    Reassociate(FileOrder(pixels[0]), PixelBytes(pixels[1..]), rest);
    MemoryOrderFirst(pixels);
  }

  lemma MemoryOrderFirst(pixels: seq<Pixel>)
    requires |pixels| > 0
    ensures MemoryOrder(pixels) == [FileOrder(pixels[0])] + MemoryOrder(pixels[1..])
  {
    hide FileOrder;
    var r := [FileOrder(pixels[0])] + MemoryOrder(pixels[1..]);
    assert |r| == |pixels|;
    forall i | 0 <= i < |pixels|
      ensures MemoryOrder(pixels)[i] == r[i]
    {
    }
  }

  /** The first pixel of a packet, after its header byte. */
  lemma LoadCommand(cmd: Byte, pixel: Pixel, rest: seq<Byte>, comp: nat, repeating: bool, raw: Pixel, k: nat)
    requires |pixel| == comp && k > 0
    ensures Load([cmd] + (pixel + rest), comp, 0, repeating, raw, k) ==
            [pixel] + Load(rest, comp, cmd % 128, cmd / 128 == 1, pixel, k - 1)
  {
    var data := [cmd] + (pixel + rest);
    assert Skip(data, 1) == pixel + rest;
    hide GetPixel, Skip;
    NextPixel(pixel, rest, comp);
  }

  lemma {:induction false} LoadRaw(pixels: seq<Pixel>, rest: seq<Byte>, comp: nat, raw: Pixel, m: nat)
    returns (last: Pixel)
    requires AllSized(pixels, comp)
    ensures Load(PixelBytes(pixels) + rest, comp, |pixels|, false, raw, |pixels| + m) ==
            MemoryOrder(pixels) + Load(rest, comp, 0, false, last, m)
    decreases |pixels|
  {
    hide FileOrder, Load, PixelBytes, MemoryOrder;
    if |pixels| == 0 {
      last := raw;
      NoPixels(pixels, rest, Load(rest, comp, 0, false, last, m));
    } else {
      PixelBytesStep(pixels, rest);
      var d := FileOrder(pixels[0]);
      LoadOne(d, PixelBytes(pixels[1..]) + rest, comp, |pixels|, raw, |pixels| + m);
      last := LoadRaw(pixels[1..], rest, comp, d, m);
      Reassociate([d], MemoryOrder(pixels[1..]), Load(rest, comp, 0, false, last, m));
    }
  }

  lemma NoPixels(pixels: seq<Pixel>, rest: seq<Byte>, later: seq<Pixel>)
    requires |pixels| == 0
    ensures PixelBytes(pixels) + rest == rest && MemoryOrder(pixels) + later == later
  {
  }

  /** A packet is loaded as what it stands for, in the order of the file. */
  lemma PacketLoads(p: Packet, rest: seq<Byte>, comp: nat, repeating: bool, raw: Pixel, m: nat)
    returns (repeating': bool, raw': Pixel)
    requires ValidPacket(p, comp)
    ensures Load(EncodePacket(p) + rest, comp, 0, repeating, raw, |Expand(p)| + m) ==
            MemoryOrder(Expand(p)) + Load(rest, comp, 0, repeating', raw', m)
  {
    hide Load, FileOrder, PixelBytes, MemoryOrder;
    match p
    case Run(length, pixel) =>
      RunLoads(length, pixel, rest, comp, repeating, raw, m);
      repeating', raw' := true, FileOrder(pixel);
    case Raw(pixels) =>
      repeating' := false;
      raw' := RawLoads(pixels, rest, comp, repeating, raw, m);
  }

  lemma RunLoads(length: nat, pixel: Pixel, rest: seq<Byte>, comp: nat, repeating: bool, raw: Pixel, m: nat)
    requires 1 <= length <= 128 && |pixel| == comp
    ensures Load([length + 127] + FileOrder(pixel) + rest, comp, 0, repeating, raw, length + m) ==
            MemoryOrder(Repeat(pixel, length)) + Load(rest, comp, 0, true, FileOrder(pixel), m)
  {
    hide FileOrder, GetPixel, Load, MemoryOrder;
    var d := FileOrder(pixel);
    Reassociate([length + 127], d, rest);
    LoadCommand(length + 127, d, rest, comp, repeating, raw, length + m);
    LoadRun(rest, comp, length - 1, d, m);
    Reassociate([d], Repeat(d, length - 1), Load(rest, comp, 0, true, d, m));
    RepeatOrder(pixel, length);
  }

  lemma RepeatOrder(pixel: Pixel, n: nat)
    requires n > 0
    ensures MemoryOrder(Repeat(pixel, n)) == [FileOrder(pixel)] + Repeat(FileOrder(pixel), n - 1)
  {
    hide FileOrder;
  }

  lemma RawLoads(pixels: seq<Pixel>, rest: seq<Byte>, comp: nat, repeating: bool, raw: Pixel, m: nat)
    returns (raw': Pixel)
    requires 1 <= |pixels| <= 128 && AllSized(pixels, comp)
    ensures Load([|pixels| - 1] + PixelBytes(pixels) + rest, comp, 0, repeating, raw, |pixels| + m) ==
            MemoryOrder(pixels) + Load(rest, comp, 0, false, raw', m)
  {
    hide FileOrder, GetPixel, PixelBytes, MemoryOrder, Load;
    var d, tail := FileOrder(pixels[0]), PixelBytes(pixels[1..]) + rest;
    Reassociate([|pixels| - 1], PixelBytes(pixels), rest);
    PixelBytesStep(pixels, rest);
    LoadCommand(|pixels| - 1, d, tail, comp, repeating, raw, |pixels| + m);
    raw' := LoadRaw(pixels[1..], rest, comp, d, m);
    Reassociate([d], MemoryOrder(pixels[1..]), Load(rest, comp, 0, false, raw', m));
  }

  lemma {:induction false} PacketsLoad(packets: seq<Packet>, rest: seq<Byte>, comp: nat, repeating: bool, raw: Pixel)
    requires AllValid(packets, comp)
    ensures Load(EncodeAll(packets, comp) + rest, comp, 0, repeating, raw, |ExpandAll(packets)|) ==
            MemoryOrder(ExpandAll(packets))
    decreases |packets|
  {
    hide Load, EncodePacket, Expand, MemoryOrder;
    if |packets| == 0 {
      LoadNothing(EncodeAll(packets, comp) + rest, comp, repeating, raw);
    } else {
      var tail := EncodeAll(packets[1..], comp) + rest;
      assert EncodeAll(packets, comp) + rest == EncodePacket(packets[0]) + tail;
      var repeating', raw' :=
        PacketLoads(packets[0], tail, comp, repeating, raw, |ExpandAll(packets[1..])|);
      PacketsLoad(packets[1..], rest, comp, repeating', raw');
      MemoryOrderJoin(Expand(packets[0]), ExpandAll(packets[1..]));
    }
  }

  lemma LoadNothing(data: seq<Byte>, comp: nat, repeating: bool, raw: Pixel)
    ensures Load(data, comp, 0, repeating, raw, 0) == [] == MemoryOrder([])
  {
  }

  lemma MemoryOrderJoin(a: seq<Pixel>, b: seq<Pixel>)
    ensures MemoryOrder(a + b) == MemoryOrder(a) + MemoryOrder(b)
  {
    hide FileOrder;
  }

  lemma MemoryOrderTwice(pixels: seq<Pixel>)
    ensures MemoryOrder(MemoryOrder(pixels)) == pixels
  {
    hide FileOrder;
    forall i | 0 <= i < |pixels|
      ensures FileOrder(FileOrder(pixels[i])) == pixels[i]
    {
      FileOrderTwice(pixels[i]);
    }
  }

  lemma {:induction false} EncodeMore(packets: seq<Packet>, p: Packet, comp: nat)
    requires AllValid(packets, comp) && ValidPacket(p, comp)
    ensures AllValid(packets + [p], comp)
    ensures EncodeAll(packets + [p], comp) == EncodeAll(packets, comp) + EncodePacket(p)
    ensures ExpandAll(packets + [p]) == ExpandAll(packets) + Expand(p)
  {
    hide EncodePacket, Expand;
    if |packets| == 0 {
      assert (packets + [p])[1..] == [];
      assert EncodeAll([], comp) == [] && ExpandAll([]) == [];
    } else {
      EncodeMore(packets[1..], p, comp);
      assert (packets + [p])[1..] == packets[1..] + [p];
    }
  }

  // ----- the writer

  /** stbiw__write_pixel as the run-length writer calls it. */
  method WritePixel(out: seq<Byte>, comp: nat, d: Pixel) returns (r: seq<Byte>)
    requires 1 <= comp <= 4 && |d| == comp
    ensures r == out + FileOrder(d)
  {
    var hasAlpha := comp == 2 || comp == 4;
    r := out;
    if comp <= 2 {
      r := r + [d[0]];
    } else {
      r := r + [d[2], d[1], d[0]];
    }
    if hasAlpha {
      r := r + [d[comp - 1]];
    }
  }

  predicate EndsAt(row: seq<Pixel>, i: nat, k: nat)
    requires 0 < k
  {
    k + 1 < |row| && row[k + 1] == row[k - 1] && (k >= i + 2 ==> row[k] != row[k - 2])
  }

  /** Lines 564 to 591: a raw packet's or a run's length; the heuristic looks two pixels ahead. */
  method PacketLength(row: seq<Pixel>, i: nat) returns (len: nat, diff: bool)
    requires i < |row|
    ensures 1 <= len <= 128 && i + len <= |row|
    ensures diff <==> i + 1 == |row| || row[i] != row[i + 1]
    // a run ends where it must
    ensures !diff ==> forall k :: i <= k < i + len ==> row[k] == row[i]
    ensures !diff ==> len == 128 || i + len == |row| || row[i + len] != row[i]
    // a raw packet ends one pixel before the first that equals the last but one before it
    ensures diff ==> forall k :: i + 2 <= k < i + len ==> row[k] != row[k - 2]
    ensures diff ==> len == 128 || i + len == |row| || EndsAt(row, i, i + len)
  {
    diff := true;
    len := 1;
    if i < |row| - 1 {
      len := len + 1;
      diff := row[i] != row[i + 1];
      if diff {
        var prev := i;
        var k := i + 2;
        while k < |row| && len < 128
          invariant i + 2 <= k && 2 <= len <= 128 && len == k - i && prev == k - 2 && k <= |row|
          invariant forall m :: i + 2 <= m < k ==> row[m] != row[m - 2]
        {
          if row[prev] != row[k] {
            prev := prev + 1;
            len := len + 1;
          } else {
            len := len - 1;
            break;
          }
          k := k + 1;
        }
      } else {
        var k := i + 2;
        while k < |row| && len < 128
          invariant i + 2 <= k && 2 <= len <= 128 && len == k - i && k <= |row|
          invariant forall m :: i <= m < k ==> row[m] == row[i]
        {
          if row[i] == row[k] {
            len := len + 1;
          } else {
            break;
          }
          k := k + 1;
        }
      }
    }
  }

  /** Lines 560 to 604: one row as packets. */
  method WriteRow(start: seq<Byte>, ghost before: seq<Packet>, row: seq<Pixel>, comp: nat)
    returns (out: seq<Byte>, ghost packets: seq<Packet>)
    requires 1 <= comp <= 4 && AllSized(row, comp) && AllValid(before, comp) && start == EncodeAll(before, comp)
    ensures AllValid(packets, comp) && out == EncodeAll(packets, comp)
    ensures ExpandAll(packets) == ExpandAll(before) + row
  {
    hide EncodeAll, ExpandAll, EncodePacket, FileOrder, PixelBytes;
    out, packets := start, before;
    var i := 0;
    assert ExpandAll(before) + row[..0] == ExpandAll(before);
    while i < |row|
      invariant i <= |row| && AllValid(packets, comp) && out == EncodeAll(packets, comp)
      invariant ExpandAll(packets) == ExpandAll(before) + row[..i]
    {
      var len, diff := PacketLength(row, i);
      ghost var p := if diff then Raw(row[i..i + len]) else Run(len, row[i]);
      if diff {
        out := out + [len - 1];
        ghost var header := out;
        var k := 0;
        NoBytes(header, row[i..i + 0]);
        while k < len
          invariant 0 <= k <= len && out == header + PixelBytes(row[i..i + k])
        {
          out := WritePixel(out, comp, row[i + k]);
          PixelBytesMore(row[i..i + k], row[i + k]);
          assert row[i..i + k] + [row[i + k]] == row[i..i + k + 1];
          Reassociate(header, PixelBytes(row[i..i + k]), FileOrder(row[i + k]));
          k := k + 1;
        }
      } else {
        out := out + [len + 127];
        out := WritePixel(out, comp, row[i]);
      }
      PacketWritten(p, comp);
      EncodeMore(packets, p, comp);
      Reassociate(EncodeAll(packets, comp), [if diff then len - 1 else len + 127],
                   if diff then PixelBytes(row[i..i + len]) else FileOrder(row[i]));
      assert Expand(p) == row[i..i + len];
      assert row[..i] + row[i..i + len] == row[..i + len];
      packets := packets + [p];
      i := i + len;
    }
    assert row[..|row|] == row;
  }

  lemma NoBytes(out: seq<Byte>, none: seq<Pixel>)
    requires |none| == 0
    ensures out + PixelBytes(none) == out
  {
  }

  lemma PacketWritten(p: Packet, comp: nat)
    requires ValidPacket(p, comp)
    ensures match p
            case Run(length, pixel) => EncodePacket(p) == [length + 127] + FileOrder(pixel)
            case Raw(pixels) => EncodePacket(p) == [|pixels| - 1] + PixelBytes(pixels)
  {
  }

  lemma {:induction false} PixelBytesMore(pixels: seq<Pixel>, d: Pixel)
    ensures PixelBytes(pixels + [d]) == PixelBytes(pixels) + FileOrder(d)
  {
    hide FileOrder;
    if |pixels| == 0 {
      assert (pixels + [d])[1..] == [];
      assert PixelBytes([]) == [];
      assert PixelBytes(pixels + [d]) == FileOrder(d) + [];
    } else {
      PixelBytesMore(pixels[1..], d);
      assert (pixels + [d])[1..] == pixels[1..] + [d];
    }
  }

  function Flatten(rows: seq<seq<Pixel>>): seq<Pixel> {
    if |rows| == 0 then [] else Flatten(rows[..|rows| - 1]) + rows[|rows| - 1]
  }

  /** Lines 550 to 605: every row, bottom row first unless the image is flipped; no packet crosses a row. */
  method WriteRows(rows: seq<seq<Pixel>>, comp: nat, flip: bool)
    returns (out: seq<Byte>, ghost packets: seq<Packet>, ghost written: seq<seq<Pixel>>)
    requires 1 <= comp <= 4 && forall j :: 0 <= j < |rows| ==> AllSized(rows[j], comp)
    ensures AllValid(packets, comp) && out == EncodeAll(packets, comp) && ExpandAll(packets) == Flatten(written)
    ensures |written| == |rows|
    ensures forall j :: 0 <= j < |rows| ==> written[j] == rows[if flip then j else |rows| - 1 - j]
  {
    hide EncodeAll, ExpandAll, ValidPacket;
    out, packets, written := [], [], [];
    NothingWritten(comp);
    var j: int := if flip then 0 else |rows| - 1;
    var jend: int := if flip then |rows| else -1;
    var jdir := if flip then 1 else -1;
    while j != jend
      invariant AllValid(packets, comp) && out == EncodeAll(packets, comp) && ExpandAll(packets) == Flatten(written)
      invariant |written| <= |rows| && j == (if flip then |written| else |rows| - 1 - |written|)
      invariant forall k :: 0 <= k < |written| ==> written[k] == rows[if flip then k else |rows| - 1 - k]
      decreases |rows| - |written|
    {
      out, packets := WriteRow(out, packets, rows[j], comp);
      assert (written + [rows[j]])[..|written|] == written;
      written := written + [rows[j]];
      j := j + jdir;
    }
  }

  lemma NothingWritten(comp: nat)
    ensures EncodeAll([], comp) == [] && ExpandAll([]) == []
  {
  }

  // ----- the reader

  /** Lines 5969 to 6024 for run-length coded, unpaletted pixels of whole bytes. */
  method LoadPixels(data: seq<Byte>, comp: nat, total: nat) returns (pixels: seq<Pixel>)
    ensures pixels == Load(data, comp, 0, false, seq(comp, _ => 0), total)
  {
    hide GetPixel, Skip, Get8, Load;
    pixels := [];
    var s := data;
    var rawData: Pixel := seq(comp, _ => 0);
    var rleCount, rleRepeating, readNextPixel := 0, false, true;
    ghost var goal := Load(s, comp, rleCount, rleRepeating, rawData, total);
    var i := 0;
    while i < total
      invariant i <= total && rleCount >= 0 && |pixels| == i && (rleCount > 0 && rleRepeating ==> !readNextPixel)
      invariant pixels + Load(s, comp, rleCount, rleRepeating, rawData, total - i) == goal
    {
      LoadSplits(s, comp, rleCount, rleRepeating, rawData, total - i, pixels);
      if rleCount == 0 {
        var rleCmd := Get8(s);
        s := Skip(s, 1);
        rleCount := 1 + rleCmd % 128;
        rleRepeating := rleCmd / 128 == 1;
        readNextPixel := true;
      } else if !rleRepeating {
        readNextPixel := true;
      }
      if readNextPixel {
        rawData := GetPixel(s, comp);
        s := Skip(s, comp);
        readNextPixel := false;
      }
      pixels := pixels + [rawData];
      rleCount := rleCount - 1;
      i := i + 1;
    }
  }

  /** One pixel in front of the rest: behind a new command, repeated, or read. */
  lemma LoadSplits(data: seq<Byte>, comp: nat, count: nat, repeating: bool, raw: Pixel, k: nat, before: seq<Pixel>)
    requires k > 0
    ensures var all := before + Load(data, comp, count, repeating, raw, k);
      if count == 0 then
        var cmd, rest := Get8(data), Skip(data, 1);
        var pixel := GetPixel(rest, comp);
        all == (before + [pixel]) + Load(Skip(rest, comp), comp, cmd % 128, cmd / 128 == 1, pixel, k - 1)
      else if repeating then all == (before + [raw]) + Load(data, comp, count - 1, repeating, raw, k - 1)
      else
        var pixel := GetPixel(data, comp);
        all == (before + [pixel]) + Load(Skip(data, comp), comp, count - 1, repeating, pixel, k - 1)
  {
    hide GetPixel, Skip, Get8;
    var all := Load(data, comp, count, repeating, raw, k);
    Reassociate(before, [all[0]], all[1..]);
    assert all == [all[0]] + all[1..];
  }

  /** Lines 6049 to 6060. */
  method SwapRgb(pixels: seq<Pixel>, comp: nat) returns (r: seq<Pixel>)
    requires AllSized(pixels, comp)
    ensures r == MemoryOrder(pixels)
  {
    r := pixels;
    if comp >= 3 {
      var i := 0;
      while i < |pixels|
        invariant 0 <= i <= |pixels| == |r|
        invariant forall k :: 0 <= k < i ==> r[k] == FileOrder(pixels[k])
        invariant forall k :: i <= k < |pixels| ==> r[k] == pixels[k]
      {
        var p := r[i];
        assert p[2 := p[0]][0 := p[2]] == FileOrder(p);
        r := r[i := p[2 := p[0]][0 := p[2]]];
        i := i + 1;
      }
    }
  }

  /** Every pixel of every row comes back, whatever packets the writer chose. */
  method RoundTrip(rows: seq<seq<Pixel>>, comp: nat, flip: bool, width: nat)
    returns (pixels: seq<Pixel>, ghost written: seq<seq<Pixel>>)
    requires 1 <= comp <= 4 && forall j :: 0 <= j < |rows| ==> AllSized(rows[j], comp) && |rows[j]| == width
    ensures pixels == Flatten(written) && |written| == |rows|
    ensures forall j :: 0 <= j < |rows| ==> written[j] == rows[if flip then j else |rows| - 1 - j]
  {
    hide Load, MemoryOrder, EncodeAll, ExpandAll, Flatten;
    var out;
    ghost var packets;
    out, packets, written := WriteRows(rows, comp, flip);
    FlattenSize(written, width, comp);
    PacketsLoad(packets, [], comp, false, seq(comp, _ => 0));
    assert out + [] == out;
    pixels := LoadPixels(out, comp, width * |rows|);
    MemoryOrderSized(Flatten(written), comp);
    pixels := SwapRgb(pixels, comp);
    MemoryOrderTwice(Flatten(written));
  }

  lemma {:induction false} FlattenSize(rows: seq<seq<Pixel>>, width: nat, comp: nat)
    requires forall j :: 0 <= j < |rows| ==> AllSized(rows[j], comp) && |rows[j]| == width
    ensures |Flatten(rows)| == width * |rows| && AllSized(Flatten(rows), comp)
    decreases |rows|
  {
    if |rows| > 0 {
      var n := |rows| - 1;
      FlattenSize(rows[..n], width, comp);
      assert width * (n + 1) == width * n + width;
      assert AllSized(rows[n], comp);
    }
  }

  lemma MemoryOrderSized(pixels: seq<Pixel>, comp: nat)
    requires AllSized(pixels, comp)
    ensures AllSized(MemoryOrder(pixels), comp)
  {
  }
}
