// The header of a block with dynamic codes, written as section 3.2.7 of RFC 1951 describes it and read back by the
// inflater (stb/stb_image.h:4338-4386).
module DynamicHeader {
  import opened Sequences
  import opened BitOps
  import opened BitStream
  import opened Options
  import opened CanonicalCode
  import opened InflateSpec
  import opened InflateStreamSpec
  import opened InflateInput
  import opened InflateExact
  import opened InflateAgrees

  // ----- the order of the code length sizes

  /** The k-th size in the header is that of this code length: 16, 17, 18, 0, then from 8 outwards. */
  function Rank(k: nat): (c: nat)
    requires k < 19
    ensures c < 19
  {
    if k < 3 then 16 + k
    else if k == 3 then 0
    else if k % 2 == 0 then 8 + (k - 4) / 2
    else 7 - (k - 5) / 2
  }

  function Position(c: nat): (k: nat)
    requires c < 19
    ensures k < 19 && Rank(k) == c
  {
    if c >= 16 then c - 16 else if c == 0 then 3 else if c >= 8 then 4 + 2 * (c - 8) else 5 + 2 * (7 - c)
  }

  lemma RankOnce(j: nat, k: nat)
    requires j < 19 && k < 19 && Rank(j) == Rank(k)
    ensures j == k
  {
    assert Position(Rank(j)) == j;
    assert Position(Rank(k)) == k;
  }

  lemma OrderIs(k: nat)
    requires k < 19
    ensures |LENGTH_DEZIGZAG| == 19 && LENGTH_DEZIGZAG[k] == Rank(k)
  {
    if k < 4 {
    } else if k < 8 {
    } else if k < 12 {
    } else if k < 16 {
    } else {
    }
  }

  /** Sizes k and up of the header, three bits each. */
  function SizesBits(sizes: Lengths, k: nat, hclen: nat): Bits
    requires k <= hclen <= 19 == |sizes|
    decreases hclen - k
  {
    if k == hclen then [] else ToBits(sizes[Rank(k)], 3) + SizesBits(sizes, k + 1, hclen)
  }

  /** The first k sizes of the header are there, the others are zero. */
  ghost predicate SizesSoFar(sizes: Lengths, read: Lengths, k: nat)
    requires |sizes| == |read| == 19
  {
    forall j :: 0 <= j < 19 ==> read[Rank(j)] == if j < k then sizes[Rank(j)] else 0
  }

  lemma ReadThen(v: nat, n: nat, rest: Bits)
    requires n <= 16 && v < Pow2(n) && |rest| >= 32
    ensures ReadBits(n, ToBits(v, n) + rest) == Got(v, rest)
  {
    hide ToBits, FromBits;
    FromToBits(v, n);
    var bits := ToBits(v, n) + rest;
    assert bits[..n] == ToBits(v, n) && bits[n..] == rest;
  }

  lemma SizesStep(sizes: Lengths, read: Lengths, k: nat)
    requires |sizes| == |read| == 19 && k < 19 && SizesSoFar(sizes, read, k)
    ensures SizesSoFar(sizes, read[Rank(k) := sizes[Rank(k)]], k + 1)
  {
    forall j | 0 <= j < 19
      ensures read[Rank(k) := sizes[Rank(k)]][Rank(j)] == if j < k + 1 then sizes[Rank(j)] else 0
    {
      if Rank(j) == Rank(k) {
        RankOnce(j, k);
      }
    }
  }

  lemma SizesEnd(sizes: Lengths, read: Lengths, hclen: nat)
    requires |sizes| == |read| == 19 && hclen <= 19 && SizesSoFar(sizes, read, hclen)
    requires forall k :: hclen <= k < 19 ==> sizes[Rank(k)] == 0
    ensures read == sizes
  {
    forall c | 0 <= c < 19 ensures read[c] == sizes[c] {
      var k := Position(c);
      assert Rank(k) == c;
    }
  }

  lemma {:induction false} SizesThen(sizes: Lengths, read: Lengths, k: nat, hclen: nat, rest: Bits)
    requires k <= hclen <= 19 == |sizes| == |read| && |rest| >= 32 && SizesSoFar(sizes, read, k)
    requires forall c :: 0 <= c < 19 ==> sizes[c] < 8
    requires forall j :: hclen <= j < 19 ==> sizes[Rank(j)] == 0
    ensures ReadSizes(k, hclen, read, SizesBits(sizes, k, hclen) + rest) == Got(sizes, rest)
    decreases hclen - k
  {
    hide ToBits, Rank, LENGTH_DEZIGZAG, SizesSoFar, ReadBits;
    if k == hclen {
      SizesEnd(sizes, read, hclen);
      assert [] + rest == rest;
    } else {
      SmallPowers();
      OrderIs(k);
      var s, tail := sizes[Rank(k)], SizesBits(sizes, k + 1, hclen);
      Reassociate(ToBits(s, 3), tail, rest);
      ReadThen(s, 3, tail + rest);
      SizesStep(sizes, read, k);
      SizesThen(sizes, read[Rank(k) := s], k + 1, hclen, rest);
    }
  }

  // ----- the run-length coded code lengths

  /** One code length, the last one again, or zeros. */
  datatype Run = Plain(length: nat) | Again(times: nat) | Nothing(times: nat)

  predicate ValidRun(run: Run, lens: Lengths) {
    match run
    case Plain(length) => length < 16
    case Again(times) => 3 <= times <= 6 && |lens| > 0
    case Nothing(times) => 3 <= times <= 138
  }

  function Extended(run: Run, lens: Lengths): (r: Lengths)
    requires ValidRun(run, lens)
    ensures |r| > |lens|
  {
    match run
    case Plain(length) => lens + [length]
    case Again(times) => lens + seq(times, _ => lens[|lens| - 1])
    case Nothing(times) => lens + seq(times, _ => 0)
  }

  /** Symbol 16 is followed by two bits, 17 by three, 18 by seven. */
  function RunSymbol(run: Run): nat {
    match run
    case Plain(length) => length
    case Again(_) => 16
    case Nothing(times) => if times <= 10 then 17 else 18
  }

  function RunExtra(run: Run, lens: Lengths): Bits
    requires ValidRun(run, lens)
  {
    match run
    case Plain(_) => []
    case Again(times) => ToBits(times - 3, 2)
    case Nothing(times) => if times <= 10 then ToBits(times - 3, 3) else ToBits(times - 11, 7)
  }

  /** Runs that are valid one after the other, whose symbols all have a code. */
  predicate ValidRuns(runs: seq<Run>, lens: Lengths, sizes: Lengths)
    requires |sizes| == 19
    decreases |runs|
  {
    |runs| == 0 ||
    (ValidRun(runs[0], lens) && sizes[RunSymbol(runs[0])] > 0 && ValidRuns(runs[1..], Extended(runs[0], lens), sizes))
  }

  function ExtendedAll(runs: seq<Run>, lens: Lengths, sizes: Lengths): (r: Lengths)
    requires |sizes| == 19 && ValidRuns(runs, lens, sizes)
    ensures |r| >= |lens| && (|runs| > 0 ==> |r| > |lens|)
    decreases |runs|
  {
    if |runs| == 0 then lens else ExtendedAll(runs[1..], Extended(runs[0], lens), sizes)
  }

  function RunsBits(runs: seq<Run>, lens: Lengths, sizes: Lengths): Bits
    requires |sizes| == 19 && ValidRuns(runs, lens, sizes)
    decreases |runs|
  {
    if |runs| == 0 then []
    else
      CodeBits(sizes, RunSymbol(runs[0]))
      + (RunExtra(runs[0], lens) + RunsBits(runs[1..], Extended(runs[0], lens), sizes))
  }

  /** One run in front of anything is read as its lengths. */
  lemma RunThen(run: Run, lens: Lengths, sizes: Lengths, total: nat, rest: Bits)
    requires |sizes| == 19 && Accepted(sizes) && ValidRun(run, lens) && sizes[RunSymbol(run)] > 0 && |rest| >= 32
    requires |Extended(run, lens)| <= total
    ensures ReadLengths(sizes, total, lens, CodeBits(sizes, RunSymbol(run)) + (RunExtra(run, lens) + rest)) ==
            ReadLengths(sizes, total, Extended(run, lens), rest)
  {
    hide ToBits, CodeBits, Symbol, Accepted, ReadBits, Begins;
    SmallPowers();
    var c, tail := RunSymbol(run), RunExtra(run, lens) + rest;
    CodeThen(sizes, c, tail);
    match run
    case Plain(_) =>
      assert tail == rest;
    case Again(times) =>
      ReadThen(times - 3, 2, rest);
    case Nothing(times) =>
      if times <= 10 {
        ReadThen(times - 3, 3, rest);
      } else {
        ReadThen(times - 11, 7, rest);
      }
  }

  lemma {:induction false} RunsThen(runs: seq<Run>, lens: Lengths, sizes: Lengths, rest: Bits)
    requires |sizes| == 19 && Accepted(sizes) && ValidRuns(runs, lens, sizes) && |rest| >= 32
    ensures ReadLengths(sizes, |ExtendedAll(runs, lens, sizes)|, lens, RunsBits(runs, lens, sizes) + rest) ==
            Got(ExtendedAll(runs, lens, sizes), rest)
    decreases |runs|
  {
    hide ToBits, CodeBits, Accepted, RunExtra, Extended;
    if |runs| == 0 {
      assert [] + rest == rest;
      hide ReadLengths;
      ReadNoLengths(sizes, lens, rest);
    } else {
      hide ReadLengths;
      var next := Extended(runs[0], lens);
      var tail := RunsBits(runs[1..], next, sizes);
      Regroup4(CodeBits(sizes, RunSymbol(runs[0])), RunExtra(runs[0], lens), tail, rest);
      RegroupRun(CodeBits(sizes, RunSymbol(runs[0])), RunExtra(runs[0], lens), tail, rest);
      RunThen(runs[0], lens, sizes, |ExtendedAll(runs, lens, sizes)|, tail + rest);
      RunsThen(runs[1..], next, sizes, rest);
    }
  }

  lemma ReadNoLengths(sizes: Lengths, lens: Lengths, rest: Bits)
    requires |sizes| == 19
    ensures ReadLengths(sizes, |lens|, lens, rest) == Got(lens, rest)
  {
  }

  lemma RegroupRun(a: Bits, b: Bits, c: Bits, d: Bits)
    ensures (a + (b + c)) + d == a + (b + (c + d))
  {
  }

  // ----- the whole header

  /** A dynamic header: code lengths of both alphabets, sizes of the code they are written in, and the runs. */
  datatype Tables = Tables(lit: Lengths, dist: Lengths, hclen: nat, sizes: Lengths, runs: seq<Run>)

  ghost predicate ValidTables(t: Tables) {
    && 257 <= |t.lit| <= 288 && 1 <= |t.dist| <= 32 && Accepted(t.lit) && Accepted(t.dist)
    && 4 <= t.hclen <= 19 && |t.sizes| == 19 && Accepted(t.sizes)
    && (forall c :: 0 <= c < 19 ==> t.sizes[c] < 8)
    && (forall k :: t.hclen <= k < 19 ==> t.sizes[Rank(k)] == 0)
    && ValidRuns(t.runs, [], t.sizes) && ExtendedAll(t.runs, [], t.sizes) == t.lit + t.dist
  }

  ghost function HeaderBits(t: Tables): Bits
    requires ValidTables(t)
  {
    ToBits(|t.lit| - 257, 5) + (ToBits(|t.dist| - 1, 5) + (ToBits(t.hclen - 4, 4)
    + (SizesBits(t.sizes, 0, t.hclen) + RunsBits(t.runs, [], t.sizes))))
  }

  lemma TablesThen(t: Tables, rest: Bits)
    requires ValidTables(t) && |rest| >= 32
    ensures ReadTables(|t.lit|, |t.dist|, t.hclen,
                       SizesBits(t.sizes, 0, t.hclen) + (RunsBits(t.runs, [], t.sizes) + rest)) ==
            Got(Codes(t.lit, t.dist), rest)
  {
    hide ToBits, CodeBits, Accepted, ReadSizes, ReadLengths, SizesBits, RunsBits, ExtendedAll, ValidRuns, Rank;
    var none: Lengths := seq(19, _ => 0);
    NothingSoFar(t.sizes, none);
    SizesThen(t.sizes, none, 0, t.hclen, RunsBits(t.runs, [], t.sizes) + rest);
    RunsThen(t.runs, [], t.sizes, rest);
    assert (t.lit + t.dist)[..|t.lit|] == t.lit && (t.lit + t.dist)[|t.lit|..] == t.dist;
  }

  lemma NothingSoFar(sizes: Lengths, none: Lengths)
    requires |sizes| == 19 && none == seq(19, _ => 0)
    ensures SizesSoFar(sizes, none, 0)
  {
  }

  /** A dynamic header in front of anything is read back as its two lists of code lengths. */
  lemma HeaderThen(t: Tables, rest: Bits)
    requires ValidTables(t) && |rest| >= 32
    ensures ReadCodes(HeaderBits(t) + rest) == Got(Codes(t.lit, t.dist), rest)
  {
    hide ToBits, Accepted, ReadTables, SizesBits, RunsBits, ExtendedAll, ValidRuns, Rank, ReadBits;
    SmallPowers();
    var sizes, runs := SizesBits(t.sizes, 0, t.hclen), RunsBits(t.runs, [], t.sizes);
    var a, b, c := ToBits(|t.lit| - 257, 5), ToBits(|t.dist| - 1, 5), ToBits(t.hclen - 4, 4);
    HeaderParts(a, b, c, sizes, runs, rest);
    var tail := sizes + (runs + rest);
    ReadThen(|t.lit| - 257, 5, b + (c + tail));
    ReadThen(|t.dist| - 1, 5, c + tail);
    ReadThen(t.hclen - 4, 4, tail);
    TablesThen(t, rest);
  }

  lemma HeaderParts(a: Bits, b: Bits, c: Bits, d: Bits, e: Bits, rest: Bits)
    ensures (a + (b + (c + (d + e)))) + rest == a + (b + (c + (d + (e + rest))))
  {
  }

  /** And so by the inflater, whatever bits it holds. */
  lemma HeaderInflates(t: Tables, rest: Bits, i: Input)
    requires ValidTables(t) && |rest| >= 32 && |i.held| <= 32 && AllBits(i) == HeaderBits(t) + rest
    ensures ExactCodes(i).Ok? && ExactCodes(i).value == Codes(t.lit, t.dist) && AllBits(ExactCodes(i).input) == rest
  {
    hide ValidTables, HeaderBits, AllBits, ReadCodes, ExactCodes;
    HeaderThen(t, rest);
    CodesAgree(i);
  }
}
