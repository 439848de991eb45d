// The compressor's entry point, and what the inflater makes of its output (stb/stb_image_write.h:895-1022).
module ZlibRoundTrip {
  import opened Sequences
  import opened BitOps
  import opened BitStream
  import opened BitOutput
  import opened CanonicalCode
  import opened DeflateFormat
  import opened InflateSpec
  import opened InflateStreamSpec
  import opened InflateInput
  import opened InflateExact
  import opened InflateAgrees
  import opened InflateBits
  import opened Inflate
  import opened InflateZlib
  import opened Adler
  import opened ZlibCompress

  // ----- one block of fixed codes

  lemma HeadOf(rest: Bits)
    ensures var bits := BlockHead() + rest;
      |bits| == 3 + |rest| && bits[0] && FromBits(bits[1..3]) == 1 && bits[3..] == rest
  {
    hide ToBits;
    SmallPowers();
    FromToBits(1, 2);
    var bits := BlockHead() + rest;
    assert bits[1..3] == ToBits(1, 2);
  }

  lemma FixedStream(tokens: seq<Token>, rest: Bits)
    requires AllEncodable(tokens) && ValidTokens(tokens, []) && |rest| >= 32
    ensures InflateStream(BlockHead() + (EncodeTokens(tokens) + (FixedBits(256) + rest)), []) ==
            Done(ExpandAll([], tokens), rest)
  {
    hide EncodeTokens, FixedBits, BlockHead, InflateBlock, FixedLengths, FixedDistances, ExpandAll, ValidTokens;
    BlockThen(tokens, rest, []);
    EndLength();
    HeadOf(EncodeTokens(tokens) + (FixedBits(256) + rest));
  }

  lemma EndLength()
    ensures |FixedBits(256)| == 7
  {
    FixedBitsAre(256);
    hide MsbBits;
  }

  // ----- stored blocks

  /** Lines 990 to 994: the header of a stored block. */
  function StoredHeader(final: bool, len: nat): (h: seq<Byte>)
    ensures |h| == 5
  {
    var complement := -(len as int) - 1;
    [if final then 1 else 0, Uchar(len), Uchar(len / 256), Uchar(complement), Uchar(complement / 256)]
  }

  lemma StoredWords(final: bool, len: nat)
    requires len < 65536
    ensures var h := StoredHeader(final, len);
      Word(h[1], h[2]) == len && Word(h[3], h[4]) == 65535 - len
  {
    hide Word, Uchar;
    TwoBytes(len, len);
    TwoBytes(65535 - len, -(len as int) - 1);
  }

  /** The low two bytes of a number, also of one that is 2^16 smaller. */
  lemma TwoBytes(n: nat, v: int)
    requires n < 65536 && (v == n || v == n - 65536)
    ensures Word(Uchar(v), Uchar(v / 256)) == n
  {
    assert v % 256 == n % 256;
    assert v / 256 == if v == n then n / 256 else n / 256 - 256;
  }

  /** A stored block contributes its bytes and ends where they end. */
  lemma StoredStream(final: bool, chunk: seq<Byte>, rest: seq<Byte>, out: seq<Byte>)
    requires |chunk| < 65536
    ensures InflateStream(BytesBits(StoredHeader(final, |chunk|) + chunk + rest), out) ==
            if final then Done(out + chunk, BytesBits(rest)) else InflateStream(BytesBits(rest), out + chunk)
  {
    var h := StoredHeader(final, |chunk|);
    var bits := BytesBits(h + chunk + rest);
    hide StoredHeader, BytesBits, ToBits, FromBits, InflateStored, InflateAligned;
    StoredBits(final, chunk, rest);
    StoredWords(final, |chunk|);
    StoredBody(h[1..], chunk, rest, out);
    SkipToByte(bits, out);
  }

  lemma StoredBits(final: bool, chunk: seq<Byte>, rest: seq<Byte>)
    ensures var h := StoredHeader(final, |chunk|);
      var bits := BytesBits(h + chunk + rest);
      && |bits| >= 40 && bits[0] == final && FromBits(bits[1..3]) == 0
      && bits[8..] == BytesBits(h[1..] + chunk + rest) && |bits| % 8 == 0
  {
    hide BytesBits, ToBits, FromBits;
    var h := StoredHeader(final, |chunk|);
    var s := h + chunk + rest;
    assert s[1..] == h[1..] + chunk + rest && s[0] == if final then 1 else 0;
    ByteSplits(s);
    FirstByte(final);
    HeadSlices(BytesBits(s));
  }

  lemma HeadSlices(b: Bits)
    requires |b| >= 8
    ensures b[0] == b[..8][0] && b[1..3] == b[..8][1..3]
  {
  }

  lemma FirstByte(final: bool)
    ensures var b := ToBits(if final then 1 else 0, 8);
      b[0] == final && FromBits(b[1..3]) == 0
  {
    var v := if final then 1 else 0;
    assert v / 2 == 0;
    var b := ToBits(v, 8);
    ZeroBits(7);
    assert b == [final] + Zeros(7);
    assert b[1..3] == Zeros(2);
    FromZeros(2);
  }

  /** After the three header bits the rest of the byte is skipped. */
  lemma SkipToByte(bits: Bits, out: seq<Byte>)
    requires |bits| >= 40 && |bits| % 8 == 0
    ensures InflateStored(bits[3..], out) == InflateAligned(bits[8..], out)
  {
    hide InflateAligned;
    assert |bits[3..]| % 8 == 5;
    assert bits[3..][5..] == bits[8..];
  }

  lemma StoredBody(words: seq<Byte>, chunk: seq<Byte>, rest: seq<Byte>, out: seq<Byte>)
    requires |words| == 4 && Word(words[0], words[1]) == |chunk|
    requires Word(words[2], words[3]) == 65535 - |chunk|
    ensures InflateAligned(BytesBits(words + chunk + rest), out) == Done(out + chunk, BytesBits(rest))
  {
    hide BytesBits, ToBits, FromBits, InflateAligned;
    assert words + chunk + rest == words + (chunk + rest);
    BytesBitsConcat(words, chunk + rest);
    var aligned := BytesBits(words + chunk + rest);
    HeaderNumbers(aligned, words, BytesBits(chunk + rest));
    StoredIs(aligned, out, |chunk|, 65535 - |chunk|, chunk + rest);
    assert (chunk + rest)[..|chunk|] == chunk && (chunk + rest)[|chunk|..] == rest;
  }

  /** All the data as stored blocks of at most 32767 bytes. */
  function StoredBlocks(data: seq<Byte>): seq<Byte>
    decreases |data|
  {
    if |data| == 0 then []
    else
      var n := if |data| > 32767 then 32767 else |data|;
      StoredHeader(|data| == n, n) + data[..n] + StoredBlocks(data[n..])
  }

  /** The stored blocks stand for the data, whatever was produced before and whatever follows. */
  lemma {:induction false} StoredThen(data: seq<Byte>, rest: seq<Byte>, out: seq<Byte>)
    requires |data| > 0
    ensures InflateStream(BytesBits(StoredBlocks(data) + rest), out) == Done(out + data, BytesBits(rest))
    decreases |data|
  {
    hide InflateStream, BytesBits, StoredHeader;
    var n := if |data| > 32767 then 32767 else |data|;
    var header, chunk, more := StoredHeader(|data| == n, n), data[..n], StoredBlocks(data[n..]);
    assert StoredBlocks(data) + rest == header + chunk + (more + rest);
    StoredStream(|data| == n, chunk, more + rest, out);
    if |data| > n {
      StoredThen(data[n..], rest, out + chunk);
      assert out + chunk + data[n..] == out + data;
    } else {
      assert data[n..] == [] && StoredBlocks([]) == [] && more + rest == rest;
      assert chunk == data;
    }
  }

  /** Five bytes of header for every 32767 bytes begun. */
  lemma {:induction false} StoredSize(data: seq<Byte>)
    ensures |StoredBlocks(data)| == |data| + (|data| + 32766) / 32767 * 5
    decreases |data|
  {
    hide StoredHeader;
    if |data| > 32767 {
      StoredSize(data[32767..]);
    } else if |data| > 0 {
      assert data[|data|..] == [] && StoredBlocks([]) == [];
    }
  }

  /**
   * Lines 987 to 998. The data are copied behind the header without growing the buffer; with room for all the stored
   * blocks no copy passes its end.
   */
  method WriteStored(start: seq<Byte>, data: seq<Byte>, ghost room: nat) returns (out: seq<Byte>)
    requires |start| + |StoredBlocks(data)| <= room
    ensures out == start + StoredBlocks(data) && |out| <= room
  {
    hide StoredBlocks, StoredHeader;
    out := start;
    var j := 0;
    assert data[0..] == data;
    while j < |data|
      invariant 0 <= j <= |data| && out + StoredBlocks(data[j..]) == start + StoredBlocks(data)
    {
      var blocklen := |data| - j;
      if blocklen > 32767 {
        blocklen := 32767;
      }
      StoredBlocksStep(data, j, blocklen);
      ghost var was := out;
      out := out + StoredHeader(|data| - j == blocklen, blocklen);
      assert |out| + blocklen <= room by {
        assert |was + StoredBlocks(data[j..])| <= room;
      }
      out := out + data[j..j + blocklen];
      Regroup4(was, StoredHeader(|data| - j == blocklen, blocklen), data[j..j + blocklen],
                   StoredBlocks(data[j + blocklen..]));
      j := j + blocklen;
    }
    NoStored(data[j..], out);
  }

  lemma NoStored(rest: seq<Byte>, out: seq<Byte>)
    requires |rest| == 0
    ensures out + StoredBlocks(rest) == out
  {
  }

  lemma StoredBlocksStep(data: seq<Byte>, j: nat, blocklen: nat)
    requires j < |data| && blocklen == if |data| - j > 32767 then 32767 else |data| - j
    ensures StoredBlocks(data[j..]) ==
            StoredHeader(|data| - j == blocklen, blocklen) + data[j..j + blocklen] + StoredBlocks(data[j + blocklen..])
  {
    hide StoredHeader;
    var rest := data[j..];
    assert rest[..blocklen] == data[j..j + blocklen] && rest[blocklen..] == data[j + blocklen..];
  }

  // ----- the compressor

  /** Line 985. */
  function StoredIsSmaller(size: nat, n: nat): bool {
    size > n + 2 + (n + 32766) / 32767 * 5
  }

  lemma EmptyIsStored(size: nat)
    requires size > 2
    ensures StoredIsSmaller(size, 0)
  {
  }

  lemma StoredFits(size: nat, data: seq<Byte>)
    requires StoredIsSmaller(size, |data|)
    ensures 2 + |StoredBlocks(data)| <= size
  {
    hide StoredBlocks;
    StoredSize(data);
  }

  lemma StartWriting(bitbuf: nat, data: seq<Byte>)
    ensures Writing(BytesBits(HEADER) + ToBits(bitbuf, 0) + ToBits(1, 1) + ToBits(1, 2), [], data, 0)
  {
    hide BytesBits;
    assert ToBits(bitbuf, 0) == [] && ToBits(1, 1) == [true];
    assert EncodeTokens([]) == [] && data[..0] == [];
    var head := BytesBits(HEADER);
    assert head + [] + [true] + ToBits(1, 2) == head + (BlockHead() + []);
  }

  /** Lines 977 and 978: zero bits up to the byte boundary. */
  method PadToByte(w: BitWriter) returns (ghost pad: Bits)
    requires w.Valid()
    modifies w
    ensures w.Valid() && w.bitcount == 0 && w.Emitted() == old(w.Emitted()) + pad && old(w.out) <= w.out
  {
    hide ToBits, BytesBits, Pow2;
    pad := [];
    SmallPowers();
    while w.bitcount > 0
      modifies w
      invariant w.Valid() && w.Emitted() == old(w.Emitted()) + pad && old(w.out) <= w.out
      decreases if w.bitcount == 0 then 0 else 8 - w.bitcount
    {
      ghost var before, count := w.Emitted(), w.bitcount;
      w.Add(0, 1);
      assert |w.Emitted()| == |before| + 1;
      pad := pad + ToBits(0, 1);
    }
  }

  /** After the two header bytes come the bits of the block. */
  lemma BodyOf(out: seq<Byte>, tokens: seq<Token>, pad: Bits)
    requires AllEncodable(tokens) && HEADER <= out
    requires BytesBits(out) == BytesBits(HEADER) + (BlockHead() + EncodeTokens(tokens)) + FixedBits(256) + pad
    ensures out == HEADER + out[2..] && |out| > 2
    ensures BytesBits(out[2..]) == BlockHead() + (EncodeTokens(tokens) + (FixedBits(256) + pad))
  {
    SomeHead();
    hide BytesBits, BlockHead, EncodeTokens, FixedBits;
    assert out == HEADER + out[2..];
    BytesBitsConcat(HEADER, out[2..]);
    var a, b := BytesBits(HEADER), BlockHead() + (EncodeTokens(tokens) + (FixedBits(256) + pad));
    assert BytesBits(out) == a + b;
    assert BytesBits(out)[|a|..] == b;
    assert |out[2..]| > 0 by {
      assert |b| > 0;
    }
  }

  lemma SomeHead()
    ensures |BlockHead()| > 0
  {
  }

  lemma FixedBody(body: seq<Byte>, trailer: seq<Byte>, tokens: seq<Token>, pad: Bits)
    requires AllEncodable(tokens) && ValidTokens(tokens, []) && |trailer| == 4
    requires BytesBits(body) == BlockHead() + (EncodeTokens(tokens) + (FixedBits(256) + pad))
    ensures InflateStream(BytesBits(body + trailer), []) ==
            Done(ExpandAll([], tokens), pad + BytesBits(trailer))
  {
    hide BytesBits, BlockHead, EncodeTokens, FixedBits, InflateStream, ExpandAll, ValidTokens;
    BytesBitsConcat(body, trailer);
    Regroup5(BlockHead(), EncodeTokens(tokens), FixedBits(256), pad, BytesBits(trailer));
    FixedStream(tokens, pad + BytesBits(trailer));
  }

  /** The header that is always written is one that is always taken. */
  lemma HeaderThen(body: seq<Byte>)
    requires |body| > 0
    ensures ZlibMeaning(HEADER + body, true, []) == InflateStream(BytesBits(body), [])
  {
    hide InflateStream, BytesBits;
    assert (HEADER + body)[2..] == body;
    SmallPowers();
    assert GoodHeader(0x78, 0x5e);
  }

  /**
   * stbi_zlib_compress with the built-in compressor: for data of at least one byte the result is a zlib stream that
   * stands for the data and ends in its checksum. For no data the stored fallback is taken and writes no block.
   */
  method StbiZlibCompress(data: seq<Byte>, quality: int) returns (out: seq<Byte>)
    ensures |out| >= 6 && out[..2] == HEADER
    ensures out[|out| - 4..] == AdlerBytes(data) && BigEndian(out[|out| - 4..]) == Checksum(data)
    ensures |data| > 0 ==> ZlibMeaning(out, true, []).Done? && ZlibMeaning(out, true, []).out == data
    ensures |data| == 0 ==> out == HEADER + AdlerBytes(data)
  {
    TrailerIs(data);
    hide BigEndian, Checksum;
    hide AdlerBytes, BlockHead, EncodeTokens, FixedBits, StoredBlocks, ZlibMeaning, InflateStream, BytesBits, ToBits;
    hide Writing, ValidTokens, ExpandAll, Pow2, StoredIsSmaller;
    var q := if quality < 5 then 5 else quality;
    var w := new BitWriter();
    assert |w.Emitted()| == w.bitcount;
    w.out := w.out + [0x78];
    w.out := w.out + [0x5e];
    assert w.out == HEADER;
    StartWriting(w.bitbuf, data);
    SmallPowers();
    w.Add(1, 1);
    w.Add(1, 2);
    ghost var tokens := WriteBlock(w, data, q);
    ghost var pad := PadToByte(w);
    out := w.out;
    NoBits(w.bitbuf);
    assert w.Emitted() == BytesBits(out);
    BodyOf(out, tokens, pad);
    EmptyIsStored(|out|);
    var trailer := ComputeAdler(data);
    if StoredIsSmaller(|out|, |data|) {
      StoredFits(|out|, data);
      out := WriteStored(out[..2], data, |out|);
      StoredOutput(data, trailer);
    } else {
      FixedBody(out[2..], trailer, tokens, pad);
      assert out + trailer == HEADER + (out[2..] + trailer);
      HeaderThen(out[2..] + trailer);
    }
    out := out + trailer;
  }

  lemma StoredOutput(data: seq<Byte>, trailer: seq<Byte>)
    requires |trailer| == 4
    ensures |data| > 0 ==>
              ZlibMeaning(HEADER + StoredBlocks(data) + trailer, true, []) == Done(data, BytesBits(trailer))
    ensures |data| == 0 ==> StoredBlocks(data) == []
  {
    hide InflateStream, BytesBits, ZlibMeaning;
    if |data| > 0 {
      StoredThen(data, trailer, []);
      hide StoredBlocks;
      assert HEADER + StoredBlocks(data) + trailer == HEADER + (StoredBlocks(data) + trailer);
      HeaderThen(StoredBlocks(data) + trailer);
      assert [] + data == data;
    }
  }

  // ----- the round trip

  /** For no data the output is a header and the checksum 1. */
  lemma EmptyOutput()
    ensures HEADER + AdlerBytes([]) == [0x78, 0x5e, 0, 0, 0, 1]
  {
  }

  /** Its last four bytes are read as a stored block that is not final, with a zero made up behind them. */
  lemma EmptyRead()
    ensures var i := Receive(2, Receive(1, Input([], [0, 0, 0, 1])).1);
      i.0 == 0 && AlignedBytes(i.1) == [0, 0, 1]
  {
    hide ToBits, FromBits, BytesOf;
    var z, o := ToBits(0, 8), ToBits(1, 8);
    ZeroBits(8);
    EmptyFill(z, o);
    var held := z + z + z + o;
    assert held[..1] == Zeros(1) && held[1..][..2] == Zeros(2);
    FromZeros(2);
    var left := held[1..][2..];
    assert |left| == 29 && left[5..] == z + z + o;
    assert z + z + o == BytesBits([0, 0, 1]) by {
      BytesBitsOne(0);
      BytesBitsOne(1);
      BytesBitsConcat([0], [0]);
      BytesBitsConcat([0, 0], [1]);
      assert [0] + [0] == [0, 0] && [0, 0] + [1] == [0, 0, 1];
    }
    BytesOfBits([0, 0, 1]);
  }

  lemma EmptyFill(z: Bits, o: Bits)
    requires z == ToBits(0, 8) && o == ToBits(1, 8)
    ensures Fill(Input([], [0, 0, 0, 1])) == Input(z + z + z + o, [])
  {
    hide ToBits;
    var i1 := Load(Input([], [0, 0, 0, 1]));
    assert i1 == Input(z, [0, 0, 1]);
    var i2 := Load(i1);
    assert i2 == Input(z + z, [0, 1]);
    var i3 := Load(i2);
    assert i3 == Input(z + z + z, [1]);
    var i4 := Load(i3);
    assert i4 == Input(z + z + z + o, []);
    assert Fill(i4) == i4;
    assert Fill(i3) == Fill(i4);
    assert Fill(i2) == Fill(i3);
    assert Fill(i1) == Fill(i2);
  }

  /** The inflater rejects the compressor's output for no data: the length 0 and its complement 1 do not match. */
  lemma EmptyRejected(limit: nat)
    ensures ExactZlib(HEADER + AdlerBytes([]), true, [], limit).Err?
  {
    EmptyOutput();
    EmptyStream(limit);
    hide AdlerBytes, GoodHeader, HEADER, ExactStream;
    assert [0x78, 0x5e, 0, 0, 0, 1][2..] == [0, 0, 0, 1];
  }

  lemma EmptyStream(limit: nat)
    ensures ExactStream(Input([], [0, 0, 0, 1]), [], limit).Err?
  {
    EmptyRead();
    hide Receive, AlignedBytes, ExactOne, ExactStream;
    StoredMismatch(Receive(2, Receive(1, Input([], [0, 0, 0, 1])).1).1, limit);
    StreamStep(Input([], [0, 0, 0, 1]), [], limit);
  }

  lemma StoredMismatch(i: Input, limit: nat)
    requires |i.held| <= 32 && AlignedBytes(i) == [0, 0, 1]
    ensures ExactOne(0, i, [], limit).Err?
  {
    hide AlignedBytes;
    assert Header([0, 0, 1]) == [0, 0, 1, 0];
  }

  /**
   * Compressing and inflating, into an output buffer of any size, fixed or not: it succeeds exactly if there are data
   * and the buffer can take them, and then it gives the data back, for every quality.
   */
  method RoundTrip(data: seq<Byte>, quality: int, size: nat, canExpand: bool)
    returns (compressed: seq<Byte>, ok: bool, restored: seq<Byte>)
    requires size <= UINT_MAX && (canExpand ==> size > 0)
    ensures ok <==> 0 < |data| <= OutputLimit(size, canExpand)
    ensures ok ==> restored == data
  {
    hide ZlibMeaning, ExactZlib, AdlerBytes, OutputLimit;
    compressed := StbiZlibCompress(data, quality);
    var a := new ZBuf(compressed, size, canExpand);
    ZlibAgrees(compressed, true, [], a.Limit());
    EmptyRejected(a.Limit());
    ok := ParseZlib(a, true);
    restored := a.zout;
  }
}
