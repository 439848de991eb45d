// Tokens of the Aztec encoder and the bits they emit (zxing-core/src/aztec/AZToken.h, AZToken.cpp:15-42).
module AztecTokens {
  import opened Sequences
  import opened BitOps
  import opened BitStream
  import opened BitOutput
  import opened CanonicalCode
  import opened BitArrays
  import opened AztecDecoder
  import opened AztecCodes

  /** A short that keeps a number: the conversion of an int to 16 bits. */
  function Short(x: int): int {
    (x + 32768) % 65536 - 32768
  }

  /** A number of -count bits when the count is negative, else a run of bytes of the text. */
  datatype Token = Token(value: int, count: int)

  function CreateSimple(value: int, bitCount: int): Token {
    Token(Short(value), Short(-bitCount))
  }

  function CreateBinaryShift(start: int, byteCount: int): Token {
    Token(Short(start), Short(byteCount))
  }

  lemma ShortKeeps(x: int)
    requires -32768 <= x < 32768
    ensures Short(x) == x
  {
  }

  /** The token's bytes lie in the text. */
  predicate Fits(t: Token, size: nat) {
    t.value >= 0 && (t.count >= 0 ==> t.value + t.count <= size)
  }

  /** The header in front of byte i of a run, if there is one. */
  function HeaderBits(count: nat, i: nat): Bits
    requires i < count
  {
    if i == 0 || (i == 31 && count <= 62) then
      MsbBits(31, 5) +
      (if count > 62 then MsbBits(count - 31, 16)
       else if i == 0 then MsbBits(if count < 31 then count else 31, 5)
       else MsbBits(count - 31, 5))
    else []
  }

  /** Bytes i and up of a run. */
  function RunFrom(s: seq<Byte>, i: nat): Bits
    requires i <= |s|
    decreases |s| - i
  {
    if i == |s| then [] else HeaderBits(|s|, i) + MsbBits(s[i], 8) + RunFrom(s, i + 1)
  }

  function TokenBits(t: Token, text: seq<Byte>): Bits
    requires Fits(t, |text|)
  {
    if t.count < 0 then MsbBits(t.value, -t.count) else RunFrom(text[t.value..t.value + t.count], 0)
  }

  lemma RunStep(before: Bits, s: seq<Byte>, i: nat)
    requires i < |s|
    ensures before + HeaderBits(|s|, i) + MsbBits(s[i], 8) + RunFrom(s, i + 1) == before + RunFrom(s, i)
  {
    hide HeaderBits, MsbBits;
    Regroup4(before, HeaderBits(|s|, i), MsbBits(s[i], 8), RunFrom(s, i + 1));
    assert (HeaderBits(|s|, i) + MsbBits(s[i], 8)) + RunFrom(s, i + 1) ==
           HeaderBits(|s|, i) + (MsbBits(s[i], 8) + RunFrom(s, i + 1));
  }

  /** Token::appendTo. */
  method AppendTo(t: Token, bitArray: BitArray, text: seq<Byte>)
    requires Fits(t, |text|)
    modifies bitArray
    ensures bitArray.bits == old(bitArray.bits) + TokenBits(t, text)
  {
    hide MsbBits, RunFrom;
    if t.count < 0 {
      bitArray.AppendBits(t.value, -t.count);
    } else {
      ghost var run := text[t.value..t.value + t.count];
      var i := 0;
      while i < t.count
        invariant 0 <= i <= t.count
        invariant bitArray.bits + RunFrom(run, i) == old(bitArray.bits) + RunFrom(run, 0)
      {
        ghost var before := bitArray.bits;
        if i == 0 || (i == 31 && t.count <= 62) {
          bitArray.AppendBits(31, 5);
          if t.count > 62 {
            bitArray.AppendBits(t.count - 31, 16);
          } else if i == 0 {
            bitArray.AppendBits(if t.count < 31 then t.count else 31, 5);
          } else {
            bitArray.AppendBits(t.count - 31, 5);
          }
        }
        assert bitArray.bits == before + HeaderBits(t.count, i);
        bitArray.AppendBits(text[t.value + i], 8);
        RunStep(before, run, i);
        i := i + 1;
      }
      RunEnd(run, bitArray.bits);
      assert bitArray.bits == old(bitArray.bits) + RunFrom(run, 0);
    }
  }

  // ----- decoding a run

  /** Between headers a run is just its bytes. */
  lemma {:induction false} PlainRun(s: seq<Byte>, i: nat, j: nat)
    requires i <= j <= |s| && forall k :: i <= k < j ==> HeaderBits(|s|, k) == []
    ensures RunFrom(s, i) == ByteBits(s[i..j]) + RunFrom(s, j)
    decreases j - i
  {
    hide HeaderBits, MsbBits;
    if i < j {
      PlainRun(s, i + 1, j);
      assert s[i..j][0] == s[i] && s[i..j][1..] == s[i + 1..j];
      assert RunFrom(s, i) == [] + MsbBits(s[i], 8) + RunFrom(s, i + 1);
    }
  }

  /** From a header on, a run is the header and the bytes up to the next header. */
  lemma HeadedRun(s: seq<Byte>, i: nat, j: nat)
    requires i < j <= |s| && forall k :: i < k < j ==> HeaderBits(|s|, k) == []
    ensures RunFrom(s, i) == HeaderBits(|s|, i) + ByteBits(s[i..j]) + RunFrom(s, j)
  {
    hide HeaderBits, MsbBits;
    PlainRun(s, i + 1, j);
    assert s[i..j][0] == s[i] && s[i..j][1..] == s[i + 1..j];
    Regroup4(HeaderBits(|s|, i), MsbBits(s[i], 8), ByteBits(s[i + 1..j]), RunFrom(s, j));
  }

  lemma RunEnd(s: seq<Byte>, b: Bits)
    ensures b + RunFrom(s, |s|) == b
  {
  }

  /** The tables from which binary shift can be reached. */
  predicate CanShiftBinary(t: Table) {
    t == UPPER || t == LOWER || t == MIXED
  }

  lemma BinaryCode(t: Table)
    requires CanShiftBinary(t)
    ensures Moves(MsbBits(31, 5), In(t), (t, BINARY), [])
  {
    hide Moves, MsbBits;
    OneCode(t, t, 31);
  }

  /** A whole run decodes to its bytes and returns to the table it was called from. */
  lemma RunMoves(t: Table, s: seq<Byte>)
    requires CanShiftBinary(t) && 1 <= |s| <= 2047 + 31
    ensures Moves(RunFrom(s, 0), In(t), In(t), s)
  {
    hide Moves, MsbBits, ByteBits, RunFrom;
    BinaryCode(t);
    assert s[0..|s|] == s;
    if |s| <= 31 {
      ShortRun(t, s);
      HeadedRun(s, 0, |s|);
      MovesJoin(MsbBits(31, 5), MsbBits(|s|, 5) + ByteBits(s), In(t), (t, BINARY), In(t), [], s);
      HeadedParts(MsbBits(31, 5), MsbBits(|s|, 5), ByteBits(s), s);
      RunEnd(s, HeaderBits(|s|, 0) + ByteBits(s));
    } else if |s| > 62 {
      LongRun(t, s);
      HeadedRun(s, 0, |s|);
      MovesJoin(MsbBits(31, 5), MsbBits(|s| - 31, 16) + ByteBits(s), In(t), (t, BINARY), In(t), [], s);
      HeadedParts(MsbBits(31, 5), MsbBits(|s| - 31, 16), ByteBits(s), s);
      RunEnd(s, HeaderBits(|s|, 0) + ByteBits(s));
    } else {
      TwoRuns(t, s);
    }
  }

  lemma HeadedParts(a: Bits, b: Bits, c: Bits, s: seq<Byte>)
    ensures (a + b) + c == a + (b + c) && [] + s == s
  {
  }

  /** Between 32 and 62 bytes are written as two short runs. */
  lemma TwoHeaders(n: nat)
    requires 32 <= n <= 62
    ensures HeaderBits(n, 0) == MsbBits(31, 5) + MsbBits(31, 5)
    ensures HeaderBits(n, 31) == MsbBits(31, 5) + MsbBits(n - 31, 5)
  {
    hide MsbBits;
  }

  lemma TwoRuns(t: Table, s: seq<Byte>)
    requires CanShiftBinary(t) && 32 <= |s| <= 62
    ensures Moves(RunFrom(s, 0), In(t), In(t), s)
  {
    hide Moves, MsbBits, ByteBits, RunFrom;
    BinaryCode(t);
    var x, y := s[0..31], s[31..|s|];
    ShortRun(t, x);
    ShortRun(t, y);
    HeadedRun(s, 0, 31);
    HeadedRun(s, 31, |s|);
    TwoHeaders(|s|);
    hide HeaderBits, CanShiftBinary;
    var hx, hy := MsbBits(31, 5) + ByteBits(x), MsbBits(|y|, 5) + ByteBits(y);
    MovesJoin(MsbBits(31, 5), hx, In(t), (t, BINARY), In(t), [], x);
    MovesJoin(MsbBits(31, 5), hy, In(t), (t, BINARY), In(t), [], y);
    HeadedParts(MsbBits(31, 5), MsbBits(31, 5), ByteBits(x), x);
    HeadedParts(MsbBits(31, 5), MsbBits(|y|, 5), ByteBits(y), y);
    MovesJoin(MsbBits(31, 5) + hx, MsbBits(31, 5) + hy, In(t), In(t), In(t), x, y);
    RunEnd(s, HeaderBits(|s|, 31) + ByteBits(y));
    assert x + y == s;
  }
}
