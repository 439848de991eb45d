// What the inflater still has to read: the bits in its buffer and the bytes ahead (stb/stb_image.h:4175-4257). Past the
// end of the input zeros are made up, until a symbol is to be decoded with fewer than sixteen bits in the buffer.
module InflateInput {
  import opened BitOps
  import opened BitStream
  import opened Options
  import opened BitOutput
  import opened CanonicalCode

  datatype Input = Input(held: Bits, ahead: seq<Byte>)

  /** The bits that are really there. */
  function AllBits(i: Input): (b: Bits)
    ensures |b| == |i.held| + 8 * |i.ahead|
  {
    i.held + BytesBits(i.ahead)
  }

  /** One byte moves into the buffer; past the end it is zero. */
  function Load(i: Input): Input {
    if |i.ahead| == 0 then Input(i.held + Zeros(8), [])
    else Input(i.held + ToBits(i.ahead[0], 8), i.ahead[1..])
  }

  function Fill(i: Input): (j: Input)
    requires |i.held| <= 32
    ensures 24 < |j.held| <= 32
    decreases 32 - |i.held|
  {
    if |i.held| > 24 then i else Fill(Load(i))
  }

  function Drop(n: nat, i: Input): Input
    requires n <= |i.held|
  {
    Input(i.held[n..], i.ahead)
  }

  /** The next n bits as a number, and what is left. */
  function Receive(n: nat, i: Input): (r: (nat, Input))
    requires |i.held| <= 32 && n <= 16
    ensures r.0 < Pow2(n) && |r.1.held| + n <= 32
  {
    var j := if |i.held| < n then Fill(i) else i;
    FromBitsBound(j.held[..n]);
    (FromBits(j.held[..n]), Drop(n, j))
  }

  datatype Exact<T> = Ok(value: T, input: Input) | Err

  /** The symbol whose code comes next. Without one, or at the end of the data, decoding fails. */
  ghost function NextSymbol(lens: Lengths, i: Input): (r: Exact<nat>)
    requires |i.held| <= 32
    ensures r.Ok? ==> r.value < |lens| && |r.input.held| <= 32
  {
    if |i.held| < 16 && |i.ahead| == 0 then Err
    else
      var j := if |i.held| < 16 then Fill(i) else i;
      match Symbol(lens, AllBits(j))
      case None => Err
      case Some(k) => Ok(k, Drop(lens[k], j))
  }

  // ----- what is left never grows

  /** Bytes are only used up, and once they are, so are the bits of the buffer that are not zero. */
  predicate NoMore(i: Input, j: Input) {
    |j.ahead| < |i.ahead| || (|j.ahead| == |i.ahead| && FromBits(j.held) <= FromBits(i.held))
  }

  predicate Less(i: Input, j: Input) {
    |j.ahead| < |i.ahead| || (|j.ahead| == |i.ahead| && FromBits(j.held) < FromBits(i.held))
  }

  lemma {:induction false} FillNoMore(i: Input)
    requires |i.held| <= 32
    ensures NoMore(i, Fill(i))
    decreases 32 - |i.held|
  {
    hide FromBits, ToBits;
    if |i.held| <= 24 {
      if |i.ahead| == 0 {
        FromBitsConcat(i.held, Zeros(8));
        FromZeros(8);
      }
      FillNoMore(Load(i));
    }
  }

  lemma DropNoMore(n: nat, i: Input)
    requires n <= |i.held|
    ensures NoMore(i, Drop(n, i))
    ensures FromBits(i.held[..n]) > 0 ==> Less(i, Drop(n, i))
  {
    hide FromBits;
    FromBitsConcat(i.held[..n], i.held[n..]);
    assert i.held[..n] + i.held[n..] == i.held;
    MulMonotone(1, Pow2(n), FromBits(i.held[n..]));
  }

  lemma ReceiveNoMore(n: nat, i: Input)
    requires |i.held| <= 32 && n <= 16
    ensures NoMore(i, Receive(n, i).1)
    ensures Receive(n, i).0 > 0 ==> Less(i, Receive(n, i).1)
  {
    hide FromBits, Fill, Drop;
    FillNoMore(i);
    DropNoMore(n, if |i.held| < n then Fill(i) else i);
  }

  lemma SymbolNoMore(lens: Lengths, i: Input)
    requires |i.held| <= 32
    ensures NextSymbol(lens, i).Ok? ==> NoMore(i, NextSymbol(lens, i).input)
  {
    hide FromBits, Fill, Symbol, Drop;
    if NextSymbol(lens, i).Ok? {
      var j := if |i.held| < 16 then Fill(i) else i;
      FillNoMore(i);
      DropNoMore(lens[Symbol(lens, AllBits(j)).value], j);
    }
  }

  // ----- with enough bits left nothing is made up

  lemma {:induction false} FillKeeps(i: Input)
    requires |i.held| <= 32 <= |AllBits(i)|
    ensures AllBits(Fill(i)) == AllBits(i)
    decreases 32 - |i.held|
  {
    if |i.held| <= 24 {
      LoadKeeps(i);
      FillKeeps(Load(i));
    }
  }

  lemma LoadKeeps(i: Input)
    requires |i.ahead| > 0
    ensures AllBits(Load(i)) == AllBits(i)
  {
    hide ToBits;
    assert i.held + ToBits(i.ahead[0], 8) + BytesBits(i.ahead[1..]) ==
           i.held + (ToBits(i.ahead[0], 8) + BytesBits(i.ahead[1..]));
  }

  lemma DropBits(n: nat, i: Input)
    requires n <= |i.held|
    ensures AllBits(i)[..n] == i.held[..n] && AllBits(Drop(n, i)) == AllBits(i)[n..]
  {
  }

  /** Reading n of at least 32 bits is reading them off the stream. */
  lemma ReceiveKeeps(n: nat, i: Input)
    requires |i.held| <= 32 <= |AllBits(i)| && n <= 16
    ensures Receive(n, i).0 == FromBits(AllBits(i)[..n]) && AllBits(Receive(n, i).1) == AllBits(i)[n..]
  {
    hide FromBits, Fill, AllBits, Drop;
    FillKeeps(i);
    DropBits(n, if |i.held| < n then Fill(i) else i);
  }

  lemma SymbolKeeps(lens: Lengths, i: Input)
    requires |i.held| <= 32 <= |AllBits(i)|
    ensures match Symbol(lens, AllBits(i))
            case None => NextSymbol(lens, i).Err?
            case Some(k) => lens[k] <= |AllBits(i)| && NextSymbol(lens, i).Ok? && NextSymbol(lens, i).value == k
                            && AllBits(NextSymbol(lens, i).input) == AllBits(i)[lens[k]..]
  {
    hide Fill, Symbol, Drop;
    FillKeeps(i);
    var j := if |i.held| < 16 then Fill(i) else i;
    hide AllBits;
    if Symbol(lens, AllBits(i)).Some? {
      DropBits(lens[Symbol(lens, AllBits(i)).value], j);
    }
  }
}
