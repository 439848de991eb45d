// The compressor (stb/stb_image_write.h:859-1022): hash chains, lazy matching, fixed codes, stored fallback.
module ZlibCompress {
  import opened Sequences
  import opened BitOps
  import opened BitStream
  import opened Options
  import opened BitOutput
  import opened CanonicalCode
  import opened DeflateFormat
  import opened InflateSpec
  import opened Adler

  const ZHASH: nat := 16384

  // ----- searching for matches

  /** stbiw__zhash, in 32-bit unsigned arithmetic. */
  function Zhash(x: Byte, y: Byte, z: Byte): nat {
    var h0 := U32(x + U32(y * 256) + U32(z * 65536));
    var h1 := U32(Xor(h0, U32(h0 * 8)));
    var h2 := U32(h1 + h1 / 32);
    var h3 := U32(Xor(h2, U32(h2 * 16)));
    var h4 := U32(h3 + h3 / 131072);
    var h5 := U32(Xor(h4, U32(h4 * 33554432)));
    U32(h5 + h5 / 64)
  }

  function HashAt(data: seq<Byte>, i: nat): (h: nat)
    requires i + 2 < |data|
    ensures h < ZHASH
  {
    Zhash(data[i], data[i + 1], data[i + 2]) % ZHASH
  }

  /** stbiw__zlib_countm: how many bytes agree, 258 at most. */
  method ZlibCountm(data: seq<Byte>, a: nat, b: nat, limit: nat) returns (i: nat)
    requires a <= b && b + limit <= |data|
    ensures i <= limit && i <= 258 && data[a..a + i] == data[b..b + i]
    ensures i < limit && i < 258 ==> data[a + i] != data[b + i]
  {
    i := 0;
    while i < limit && i < 258
      invariant i <= limit && i <= 258 && data[a..a + i] == data[b..b + i]
    {
      if data[a + i] != data[b + i] {
        break;
      }
      assert data[a..a + i + 1] == data[a..a + i] + [data[a + i]];
      assert data[b..b + i + 1] == data[b..b + i] + [data[b + i]];
      i := i + 1;
    }
  }

  /** All positions in a chain lie before i. */
  predicate Before(chain: seq<nat>, i: nat) {
    forall j :: 0 <= j < |chain| ==> chain[j] < i
  }

  predicate AllBefore(table: seq<seq<nat>>, i: nat) {
    |table| == ZHASH && forall h :: 0 <= h < ZHASH ==> Before(table[h], i)
  }

  /** A usable match at position i. */
  ghost predicate GoodMatch(data: seq<Byte>, i: nat, best: nat, bestloc: Option<nat>) {
    && 3 <= best <= 258
    && (bestloc.Some? ==>
          && bestloc.value < i < bestloc.value + 32768 && i + best <= |data|
          && data[bestloc.value..bestloc.value + best] == data[i..i + best])
  }

  /** More than n bytes agree, and a match may be that long. */
  ghost predicate LongerThan(data: seq<Byte>, a: nat, b: nat, n: nat) {
    n < 258 && b + n < |data| && a <= b && data[a..a + n + 1] == data[b..b + n + 1]
  }

  /** The count decides every comparison of lengths. */
  lemma CountDecides(data: seq<Byte>, a: nat, b: nat, d: nat, n: nat)
    requires a <= b && b + d <= |data| && d <= 258 && data[a..a + d] == data[b..b + d]
    requires b + d < |data| && d < 258 ==> data[a + d] != data[b + d]
    ensures LongerThan(data, a, b, n) <==> d > n
  {
    if d > n {
      SlicePrefix(data, a, d, n + 1);
      SlicePrefix(data, b, d, n + 1);
    } else if b + d < |data| && d < 258 && b + n < |data| {
      SlicesDiffer(data, a, b, d, n + 1);
    }
  }

  lemma SlicePrefix(data: seq<Byte>, a: nat, n: nat, m: nat)
    requires m <= n && a + n <= |data|
    ensures data[a..a + n][..m] == data[a..a + m]
  {
  }

  lemma SlicesDiffer(data: seq<Byte>, a: nat, b: nat, d: nat, n: nat)
    requires d < n && a <= b && b + n <= |data| && data[a + d] != data[b + d]
    ensures data[a..a + n] != data[b..b + n]
  {
    assert data[a..a + n][d] != data[b..b + n][d];
  }

  lemma LongerShrinks(data: seq<Byte>, a: nat, b: nat, m: nat, n: nat)
    requires m <= n && LongerThan(data, a, b, n)
    ensures LongerThan(data, a, b, m)
  {
    SlicePrefix(data, a, n + 1, m + 1);
    SlicePrefix(data, b, n + 1, m + 1);
  }

  /** No candidate of the window is longer than `best`, and without a match none has three bytes. */
  ghost predicate NoneLonger(data: seq<Byte>, i: nat, hlist: seq<nat>, n: nat, best: nat, bestloc: Option<nat>)
    requires n <= |hlist|
  {
    forall j :: 0 <= j < n && hlist[j] > i - 32768 ==>
      !LongerThan(data, hlist[j], i, best) && (bestloc.None? ==> !LongerThan(data, hlist[j], i, 2))
  }

  /** Lines 924 to 933: the longest match in the chain, the latest one if several are as long. */
  method FindMatch(data: seq<Byte>, i: nat, hlist: seq<nat>) returns (best: nat, bestloc: Option<nat>)
    requires i < |data| && Before(hlist, i)
    ensures GoodMatch(data, i, best, bestloc) && NoneLonger(data, i, hlist, |hlist|, best, bestloc)
  {
    hide LongerThan;
    best, bestloc := 3, None;
    var j := 0;
    while j < |hlist|
      invariant j <= |hlist| && GoodMatch(data, i, best, bestloc) && NoneLonger(data, i, hlist, j, best, bestloc)
      invariant bestloc.None? ==> best == 3
    {
      if hlist[j] > i - 32768 {
        var d := ZlibCountm(data, hlist[j], i, |data| - i);
        CountDecides(data, hlist[j], i, d, 2);
        CountDecides(data, hlist[j], i, d, best);
        CountDecides(data, hlist[j], i, d, d);
        if d >= best {
          StillNoneLonger(data, i, hlist, j, best, bestloc, d);
          best, bestloc := d, Some(hlist[j]);
        }
      }
      j := j + 1;
    }
  }

  lemma StillNoneLonger(data: seq<Byte>, i: nat, hlist: seq<nat>, n: nat, best: nat, bestloc: Option<nat>, d: nat)
    requires n <= |hlist| && NoneLonger(data, i, hlist, n, best, bestloc) && d >= best
    ensures NoneLonger(data, i, hlist, n, d, Some(0))
  {
    hide LongerThan;
    forall j | 0 <= j < n && hlist[j] > i - 32768
      ensures !LongerThan(data, hlist[j], i, d)
    {
      if LongerThan(data, hlist[j], i, d) {
        LongerShrinks(data, hlist[j], i, best, d);
        assert false;
      }
    }
  }

  /** Lines 943 to 954: is there a longer match one byte later? */
  method LongerMatchNext(data: seq<Byte>, i: nat, hlist: seq<nat>, best: nat) returns (longer: bool)
    requires i + 1 < |data| && Before(hlist, i + 1)
    ensures longer <==>
            exists j :: 0 <= j < |hlist| && hlist[j] > i - 32767 && LongerThan(data, hlist[j], i + 1, best)
  {
    hide LongerThan;
    var j := 0;
    while j < |hlist|
      invariant j <= |hlist|
      invariant forall k :: 0 <= k < j && hlist[k] > i - 32767 ==> !LongerThan(data, hlist[k], i + 1, best)
    {
      if hlist[j] > i - 32767 {
        var e := ZlibCountm(data, hlist[j], i + 1, |data| - i - 1);
        CountDecides(data, hlist[j], i + 1, e, best);
        if e > best {
          return true;
        }
      }
      j := j + 1;
    }
    longer := false;
  }

  /** Lines 935 to 939: the newer half of a full chain survives, and the position is appended. */
  method Remember(chain: seq<nat>, quality: nat, i: nat) returns (r: seq<nat>)
    requires quality >= 5 && Before(chain, i)
    ensures Before(r, i + 1) && |r| > 0 && r[|r| - 1] == i
    ensures |chain| <= 2 * quality ==> |r| <= 2 * quality
  {
    r := chain;
    if |chain| == 2 * quality {
      r := chain[quality..];
    }
    r := r + [i];
  }

  // ----- writing symbols

  lemma FixedBitsAre(n: nat)
    requires n < 288
    ensures FixedBits(n) ==
            if n <= 143 then MsbBits(0x30 + n, 8) else if n <= 255 then MsbBits(0x190 + n - 144, 9)
            else if n <= 279 then MsbBits(n - 256, 7) else MsbBits(0xc0 + n - 280, 8)
  {
    hide FixedLengths, CodeOf, MsbBits;
    FixedCode(n);
  }

  /** stbiw__zlib_huff, one code for each range of symbols. */
  method Huff(w: BitWriter, n: nat)
    requires w.Valid() && n < 288
    modifies w
    ensures w.Valid() && w.Emitted() == old(w.Emitted()) + FixedBits(n) && old(w.out) <= w.out
  {
    hide FixedBits, MsbBits;
    FixedBitsAre(n);
    if n <= 143 {
      w.AddCode(0x30 + n, 8);
    } else if n <= 255 {
      w.AddCode(0x190 + n - 144, 9);
    } else if n <= 279 {
      w.AddCode(n - 256, 7);
    } else {
      w.AddCode(0xc0 + n - 280, 8);
    }
  }

  const LENGTHC: seq<nat> :=
    [3, 4, 5, 6, 7, 8, 9, 10, 11, 13, 15, 17, 19, 23, 27, 31, 35, 43, 51, 59, 67, 83, 99, 115, 131, 163, 195, 227, 258,
     259]
  const LENGTHEB: seq<nat> :=
    [0, 0, 0, 0, 0, 0, 0, 0, 1, 1, 1, 1, 2, 2, 2, 2, 3, 3, 3, 3, 4, 4, 4, 4, 5, 5, 5, 5, 0]
  const DISTC: seq<nat> :=
    [1, 2, 3, 4, 5, 7, 9, 13, 17, 25, 33, 49, 65, 97, 129, 193, 257, 385, 513, 769, 1025, 1537, 2049, 3073, 4097, 6145,
     8193, 12289, 16385, 24577, 32768]
  const DISTEB: seq<nat> :=
    [0, 0, 0, 0, 1, 1, 2, 2, 3, 3, 4, 4, 5, 5, 6, 6, 7, 7, 8, 8, 9, 9, 10, 10, 11, 11, 12, 12, 13, 13]

  /** The compressor's tables are the format's tables with a sentinel. */
  lemma LengthTables(j: nat)
    requires j <= 28
    ensures |LENGTHC| == 30 && |LENGTHEB| == 29 && |LENGTH_BASE| == |LENGTH_EXTRA| == 31
    ensures LENGTHC[j] == LENGTH_BASE[j] && LENGTHEB[j] == LENGTH_EXTRA[j] <= 5
    ensures LENGTHC[0] == 3 && LENGTHC[29] == 259 && LENGTHC[j] < LENGTHC[j + 1]
  {
  }

  lemma DistanceTables(j: nat)
    requires j <= 29
    ensures |DISTC| == 31 && |DISTEB| == 30 && |DIST_BASE| == 32 && |DIST_EXTRA| == 30
    ensures DISTC[j] == DIST_BASE[j] && DISTEB[j] == DIST_EXTRA[j] <= 13
    ensures DISTC[0] == 1 && DISTC[30] == 32768 && DISTC[j] < DISTC[j + 1]
  {
  }

  predicate AllEncodable(tokens: seq<Token>) {
    forall k :: 0 <= k < |tokens| ==> Encodable(tokens[k])
  }

  lemma {:induction false} EncodeMore(tokens: seq<Token>, t: Token)
    requires AllEncodable(tokens) && Encodable(t)
    ensures EncodeTokens(tokens + [t]) == EncodeTokens(tokens) + EncodeToken(t)
  {
    hide EncodeToken;
    if |tokens| == 0 {
      assert (tokens + [t])[1..] == [];
      assert EncodeTokens([]) == [];
      assert EncodeTokens(tokens + [t]) == EncodeToken(t) + [];
    } else {
      EncodeMore(tokens[1..], t);
      assert (tokens + [t])[1..] == tokens[1..] + [t];
    }
  }

  lemma {:induction false} ExpandMore(tokens: seq<Token>, t: Token, out: seq<Byte>)
    requires ValidTokens(tokens, out) && ValidToken(t, |ExpandAll(out, tokens)|)
    ensures ValidTokens(tokens + [t], out)
    ensures ExpandAll(out, tokens + [t]) == Expand(ExpandAll(out, tokens), t)
    decreases |tokens|
  {
    hide Expand;
    if |tokens| == 0 {
      assert (tokens + [t])[1..] == [];
      assert ValidTokens([], Expand(out, t));
    } else {
      ExpandMore(tokens[1..], t, Expand(out, tokens[0]));
      assert (tokens + [t])[1..] == tokens[1..] + [t];
    }
  }

  const HEADER: seq<Byte> := [0x78, 0x5e]

  /** The block header: final, and fixed codes. */
  function BlockHead(): Bits {
    [true] + ToBits(1, 2)
  }

  /** What has been written so far stands for the first i bytes. */
  ghost predicate Writing(emitted: Bits, tokens: seq<Token>, data: seq<Byte>, i: nat) {
    && i <= |data| && AllEncodable(tokens) && ValidTokens(tokens, [])
    && emitted == BytesBits(HEADER) + (BlockHead() + EncodeTokens(tokens))
    && ExpandAll([], tokens) == data[..i]
  }

  lemma WritingStep(emitted: Bits, tokens: seq<Token>, data: seq<Byte>, i: nat, t: Token, i': nat)
    requires Writing(emitted, tokens, data, i) && i' <= |data|
    requires Encodable(t) && ValidToken(t, i) && Expand(data[..i], t) == data[..i']
    ensures Writing(emitted + EncodeToken(t), tokens + [t], data, i')
  {
    hide EncodeToken, EncodeTokens, Expand, ExpandAll, ValidTokens, BytesBits, BlockHead;
    EncodeMore(tokens, t);
    ExpandMore(tokens, t, []);
    Regroup4(BytesBits(HEADER), BlockHead(), EncodeTokens(tokens), EncodeToken(t));
  }

  /** stbiw__zlib_huffb: one byte as it is. */
  method WriteLiteral(w: BitWriter, ghost tokens: seq<Token>, data: seq<Byte>, i: nat)
    returns (ghost tokens': seq<Token>)
    requires w.Valid() && i < |data| && Writing(w.Emitted(), tokens, data, i)
    modifies w
    ensures w.Valid() && Writing(w.Emitted(), tokens', data, i + 1) && old(w.out) <= w.out
  {
    hide Writing, FixedBits;
    assert data[..i] + [data[i]] == data[..i + 1];
    WritingStep(w.Emitted(), tokens, data, i, Literal(data[i]), i + 1);
    tokens' := tokens + [Literal(data[i])];
    Huff(w, data[i]);
  }

  lemma {:induction false} IndexUnique(base: seq<nat>, x: nat, top: nat, j: nat)
    requires j <= top < |base| && base[0] <= x && base[j] <= x
    requires forall k :: j < k <= top ==> x < base[k]
    ensures IndexOf(base, x, top) == j
    decreases top
  {
    if top > j {
      IndexUnique(base, x, top - 1, j);
    }
  }

  lemma {:induction false} LengthcGrows(j: nat, k: nat)
    requires j <= k <= 29
    ensures |LENGTHC| == 30 && LENGTHC[j] <= LENGTHC[k]
    decreases k
  {
    LengthTables(if k > 0 then k - 1 else 0);
    hide LENGTHC;
    if j < k {
      LengthcGrows(j, k - 1);
    }
  }

  lemma {:induction false} DistcGrows(j: nat, k: nat)
    requires j <= k <= 30
    ensures |DISTC| == 31 && DISTC[j] <= DISTC[k]
    decreases k
  {
    DistanceTables(if k > 0 then k - 1 else 0);
    hide DISTC;
    if j < k {
      DistcGrows(j, k - 1);
    }
  }

  /** Line 960 finds the length symbol of the format. */
  method LengthSymbol(best: nat) returns (j: nat)
    requires 3 <= best <= 258
    ensures j == LengthIndex(best)
  {
    hide LENGTHC, LENGTHEB, LENGTH_BASE, LENGTH_EXTRA;
    LengthTables(0);
    j := 0;
    while best > LENGTHC[j + 1] as int - 1
      invariant j <= 28 && LENGTHC[j] <= best
      decreases 28 - j
    {
      if j == 28 {
        assert false;
      }
      j := j + 1;
    }
    LengthTables(j);
    forall k | j < k <= 28
      ensures best < LENGTH_BASE[k]
    {
      LengthcGrows(j + 1, k);
      LengthTables(k);
    }
    IndexUnique(LENGTH_BASE, best, 28, j);
  }

  /** Line 963 finds the distance symbol of the format. */
  method DistanceSymbol(d: nat) returns (j: nat)
    requires 1 <= d <= 32767
    ensures j == DistanceIndex(d)
  {
    hide DISTC, DISTEB, DIST_BASE, DIST_EXTRA;
    DistanceTables(0);
    j := 0;
    while d > DISTC[j + 1] as int - 1
      invariant j <= 29 && DISTC[j] <= d
      decreases 29 - j
    {
      if j == 29 {
        assert false;
      }
      j := j + 1;
    }
    DistanceTables(j);
    forall k | j < k <= 29
      ensures d < DIST_BASE[k]
    {
      DistcGrows(j + 1, k);
      DistanceTables(k);
    }
    IndexUnique(DIST_BASE, d, 29, j);
  }

  lemma MatchBits(emitted: Bits, a: Bits, b: Bits, c: Bits, d: Bits)
    ensures emitted + a + b + c + d == emitted + (a + b + c + d)
  {
  }

  /** Lines 958 to 966: length symbol, extra bits, distance symbol, extra bits. */
  method WriteMatch(w: BitWriter, ghost tokens: seq<Token>, data: seq<Byte>, i: nat, best: nat, bestloc: nat)
    returns (ghost tokens': seq<Token>)
    requires w.Valid() && GoodMatch(data, i, best, Some(bestloc)) && Writing(w.Emitted(), tokens, data, i)
    modifies w
    ensures w.Valid() && Writing(w.Emitted(), tokens', data, i + best) && old(w.out) <= w.out
  {
    hide Writing, EncodeToken;
    var d := i - bestloc;
    MatchStep(w.Emitted(), tokens, data, i, best, d);
    tokens' := tokens + [Match(best, d)];
    WriteMatchBits(w, best, d);
  }

  lemma MatchStep(emitted: Bits, tokens: seq<Token>, data: seq<Byte>, i: nat, best: nat, d: nat)
    requires 3 <= best <= 258 && 1 <= d <= 32767 && d <= i && i + best <= |data|
    requires data[i - d..i - d + best] == data[i..i + best] && Writing(emitted, tokens, data, i)
    ensures Writing(emitted + EncodeToken(Match(best, d)), tokens + [Match(best, d)], data, i + best)
  {
    hide Writing, EncodeToken;
    CopyMatchIs(data, i, best, d);
    WritingStep(emitted, tokens, data, i, Match(best, d), i + best);
  }

  method WriteMatchBits(w: BitWriter, best: nat, d: nat)
    requires w.Valid() && 3 <= best <= 258 && 1 <= d <= 32767
    modifies w
    ensures w.Valid() && w.Emitted() == old(w.Emitted()) + EncodeToken(Match(best, d)) && old(w.out) <= w.out
  {
    hide FixedBits, LENGTHC, LENGTHEB, LENGTH_BASE, LENGTH_EXTRA, DISTC, DISTEB, DIST_BASE, DIST_EXTRA, Pow2;
    hide LengthIndex, DistanceIndex, FixedDistances, CodeOf, ToBits, MsbBits, BytesBits, EncodeToken;
    ghost var start := w.Emitted();
    var j := LengthSymbol(best);
    LengthTables(j);
    Huff(w, j + 257);
    ghost var a := FixedBits(j + 257);
    WriteExtra(w, best - LENGTHC[j], LENGTHEB[j]);
    ghost var b := ToBits(best - LENGTHC[j], LENGTHEB[j]);
    var k := DistanceSymbol(d);
    DistanceTables(k);
    DistanceCode(k);
    w.AddCode(k, 5);
    ghost var c := MsbBits(k, 5);
    WriteExtra(w, d - DISTC[k], DISTEB[k]);
    MatchBits(start, a, b, c, ToBits(d - DISTC[k], DISTEB[k]));
    TokenBits(best, d);
  }

  lemma TokenBits(best: nat, d: nat)
    requires 3 <= best <= 258 && 1 <= d <= 32767
    ensures var j, k := LengthIndex(best), DistanceIndex(d);
      EncodeToken(Match(best, d)) ==
      FixedBits(j + 257) + ToBits(best - LENGTH_BASE[j], LENGTH_EXTRA[j]) + MsbBits(k, 5)
      + ToBits(d - DIST_BASE[k], DIST_EXTRA[k])
  {
    hide LengthIndex, DistanceIndex, FixedDistances, CodeOf, ToBits, MsbBits, FixedBits, CodeBits, Pow2;
    hide LENGTH_BASE, LENGTH_EXTRA, DIST_BASE, DIST_EXTRA;
    TableSizes();
    DistanceBits(DistanceIndex(d));
  }

  lemma DistanceBits(k: nat)
    requires k < 32
    ensures |FixedDistances()| == 32 && CodeBits(FixedDistances(), k) == MsbBits(k, 5)
  {
    hide FixedDistances, CodeOf, MsbBits;
    DistanceCode(k);
  }

  /** Extra bits, if there are any. */
  method WriteExtra(w: BitWriter, v: nat, n: nat)
    requires w.Valid() && v < Pow2(n) && n <= 13
    modifies w
    ensures w.Valid() && w.Emitted() == old(w.Emitted()) + ToBits(v, n) && old(w.out) <= w.out
  {
    if n > 0 {
      w.Add(v, n);
    } else {
      assert ToBits(v, n) == [];
    }
  }

  // ----- the compressed stream

  /** Lines 922 to 975: all the data as one block of fixed codes. */
  method WriteBlock(w: BitWriter, data: seq<Byte>, quality: nat) returns (ghost tokens: seq<Token>)
    requires w.Valid() && quality >= 5 && Writing(w.Emitted(), [], data, 0)
    modifies w
    ensures w.Valid() && old(w.out) <= w.out && AllEncodable(tokens) && ValidTokens(tokens, [])
    ensures w.Emitted() == BytesBits(HEADER) + (BlockHead() + EncodeTokens(tokens)) + FixedBits(256)
    ensures ExpandAll([], tokens) == data
  {
    hide Writing, FixedBits, GoodMatch, BytesBits, BlockHead, EncodeTokens, ExpandAll, ValidTokens, Before;
    tokens := [];
    var hashTable: seq<seq<nat>> := seq(ZHASH, _ => []);
    EmptyTable(hashTable);
    var i := 0;
    while i < |data| - 3
      modifies w
      invariant 0 <= i <= |data| && w.Valid() && old(w.out) <= w.out
      invariant Writing(w.Emitted(), tokens, data, i) && AllBefore(hashTable, i)
    {
      var h := HashAt(data, i);
      var best, bestloc := FindMatch(data, i, hashTable[h]);
      var chain := Remember(hashTable[h], quality, i);
      RememberIn(hashTable, i, h, chain);
      hashTable := hashTable[h := chain];
      if bestloc.Some? {
        var longer := LongerMatchNext(data, i, hashTable[HashAt(data, i + 1)], best);
        if longer {
          bestloc := None;
        }
      }
      if bestloc.Some? {
        MatchFits(data, i, best, bestloc);
        LaterTable(hashTable, i + 1, i + best);
        tokens := WriteMatch(w, tokens, data, i, best, bestloc.value);
        i := i + best;
      } else {
        tokens := WriteLiteral(w, tokens, data, i);
        i := i + 1;
      }
    }
    while i < |data|
      modifies w
      invariant 0 <= i <= |data| && w.Valid() && old(w.out) <= w.out && Writing(w.Emitted(), tokens, data, i)
    {
      tokens := WriteLiteral(w, tokens, data, i);
      i := i + 1;
    }
    WritingEnd(w.Emitted(), tokens, data);
    Huff(w, 256);
  }

  lemma MatchFits(data: seq<Byte>, i: nat, best: nat, bestloc: Option<nat>)
    requires GoodMatch(data, i, best, bestloc) && bestloc.Some?
    ensures 3 <= best && i + best <= |data|
  {
  }

  lemma WritingEnd(emitted: Bits, tokens: seq<Token>, data: seq<Byte>)
    requires Writing(emitted, tokens, data, |data|)
    ensures AllEncodable(tokens) && ValidTokens(tokens, []) && ExpandAll([], tokens) == data
    ensures emitted == BytesBits(HEADER) + (BlockHead() + EncodeTokens(tokens))
  {
    assert data[..|data|] == data;
  }

  lemma EmptyTable(table: seq<seq<nat>>)
    requires |table| == ZHASH && forall h :: 0 <= h < ZHASH ==> table[h] == []
    ensures AllBefore(table, 0)
  {
  }

  lemma RememberIn(table: seq<seq<nat>>, i: nat, h: nat, chain: seq<nat>)
    requires AllBefore(table, i) && h < ZHASH && Before(chain, i + 1)
    ensures AllBefore(table[h := chain], i + 1)
  {
    LaterTable(table, i, i + 1);
    hide Before;
  }

  lemma LaterTable(table: seq<seq<nat>>, i: nat, j: nat)
    requires AllBefore(table, i) && i <= j
    ensures AllBefore(table, j)
  {
    forall h | 0 <= h < ZHASH
      ensures Before(table[h], j)
    {
      assert Before(table[h], i);
    }
  }
}
