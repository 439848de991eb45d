// Canonical Huffman codes (RFC 1951, section 3.2.2): the specification of the decoder's tables.
module CanonicalCode {
  import opened BitOps
  import opened BitStream
  import opened BitOutput
  import opened Options

  /** Code lengths by symbol; zero means that the symbol is not used. */
  type Lengths = l: seq<nat> | forall i :: 0 <= i < |l| ==> l[i] < 16 witness []

  /** How many of the first n symbols have length s. */
  function CountTo(lens: Lengths, n: nat, s: nat): (c: nat)
    requires n <= |lens|
    ensures c <= n
  {
    if n == 0 then 0 else CountTo(lens, n - 1, s) + (if lens[n - 1] == s then 1 else 0)
  }

  function Count(lens: Lengths, s: nat): nat {
    CountTo(lens, |lens|, s)
  }

  /** The first code of length s, and the end of the codes of length s. */
  function First(lens: Lengths, s: nat): nat
    decreases s, 0
  {
    if s <= 1 then 0 else 2 * End(lens, s - 1)
  }

  function End(lens: Lengths, s: nat): nat
    decreases s, 1
  {
    First(lens, s) + Count(lens, s)
  }

  /** Codes of no length run out. */
  predicate Accepted(lens: Lengths) {
    forall s :: 1 <= s < 16 && Count(lens, s) > 0 ==> End(lens, s) <= Pow2(s)
  }

  function CodeOf(lens: Lengths, i: nat): nat
    requires i < |lens|
  {
    First(lens, lens[i]) + CountTo(lens, i, lens[i])
  }

  /** The code of a symbol as it appears in the stream. */
  function CodeBits(lens: Lengths, i: nat): Bits
    requires i < |lens|
  {
    MsbBits(CodeOf(lens, i), lens[i])
  }

  // ----- codes as intervals of 16-bit windows

  /** The end of the windows that begin with a code of length at most s. */
  function Max(lens: Lengths, s: nat): nat
    requires s <= 16
  {
    End(lens, s) * Pow2(16 - s)
  }

  /** The window begins with the code of symbol i. */
  predicate Matches(lens: Lengths, i: nat, window: nat)
    requires i < |lens|
  {
    lens[i] > 0 && High(window, 16 - lens[i]) == CodeOf(lens, i)
  }

  lemma {:induction false} CountGrows(lens: Lengths, m: nat, n: nat, s: nat)
    requires m <= n <= |lens|
    ensures CountTo(lens, m, s) <= CountTo(lens, n, s)
    decreases n
  {
    if m < n {
      CountGrows(lens, m, n - 1, s);
    }
  }

  lemma {:induction false} EndFits(lens: Lengths, s: nat)
    requires Accepted(lens) && 1 <= s < 16
    ensures End(lens, s) <= Pow2(s)
  {
    if Count(lens, s) == 0 && s > 1 {
      EndFits(lens, s - 1);
    } else if s == 1 {
      assert First(lens, 1) == 0;
    }
  }

  lemma CodeFits(lens: Lengths, i: nat)
    requires Accepted(lens) && i < |lens| && lens[i] > 0
    ensures First(lens, lens[i]) <= CodeOf(lens, i) < End(lens, lens[i]) <= Pow2(lens[i])
  {
    CountGrows(lens, i + 1, |lens|, lens[i]);
    EndFits(lens, lens[i]);
  }

  /** The windows of length s start where those of length s - 1 end. */
  lemma MaxMeets(lens: Lengths, s: nat)
    requires 1 < s < 16
    ensures First(lens, s) * Pow2(16 - s) == Max(lens, s - 1)
    ensures Max(lens, s - 1) <= Max(lens, s)
  {
    var e, p := End(lens, s - 1), Pow2(16 - s);
    assert Pow2(16 - (s - 1)) == 2 * p;
    assert 2 * e * p == e * (2 * p);
    MulMonotone(First(lens, s), End(lens, s), p);
  }

  lemma {:induction false} MaxGrows(lens: Lengths, s: nat, t: nat)
    requires 1 <= s <= t < 16
    ensures Max(lens, s) <= Max(lens, t)
    decreases t
  {
    if s < t {
      hide Max;
      MaxGrows(lens, s, t - 1);
      MaxMeets(lens, t);
    }
  }

  lemma HighInterval(window: nat, n: nat, c: nat)
    ensures High(window, n) == c <==> c * Pow2(n) <= window < (c + 1) * Pow2(n)
  {
    hide High, Low;
    LowHigh(window, n);
    var p, h := Pow2(n), High(window, n);
    Distribute(h, 1, p);
    Distribute(c, 1, p);
    if c * p <= window < (c + 1) * p {
      LowHighUnique(window, n, window - c * p, c);
    }
  }

  /** The windows that begin with a code of length s are exactly those from Max(s - 1) up to Max(s). */
  lemma MatchInterval(lens: Lengths, i: nat, window: nat)
    requires Accepted(lens) && i < |lens| && Matches(lens, i, window)
    ensures window < Max(lens, lens[i])
    ensures lens[i] > 1 ==> Max(lens, lens[i] - 1) <= window
  {
    var s := lens[i];
    hide First, CountTo, Count, Low, High;
    var c, p := CodeOf(lens, i), Pow2(16 - s);
    HighInterval(window, 16 - s, c);
    CodeFits(lens, i);
    MulMonotone(c + 1, End(lens, s), p);
    if s > 1 {
      MaxMeets(lens, s);
      MulMonotone(First(lens, s), c, p);
    }
  }

  /** No window begins with two codes. */
  lemma MatchUnique(lens: Lengths, i: nat, j: nat, window: nat)
    requires Accepted(lens) && i < |lens| && j < |lens|
    requires Matches(lens, i, window) && Matches(lens, j, window)
    ensures i == j
  {
    if lens[i] < lens[j] {
      ShorterWins(lens, i, j, window);
    } else if lens[j] < lens[i] {
      ShorterWins(lens, j, i, window);
    } else if i < j {
      CountGrows(lens, i + 1, j, lens[i]);
    } else if j < i {
      CountGrows(lens, j + 1, i, lens[i]);
    }
  }

  lemma ShorterWins(lens: Lengths, i: nat, j: nat, window: nat)
    requires Accepted(lens) && i < |lens| && j < |lens| && lens[i] < lens[j]
    requires Matches(lens, i, window)
    ensures !Matches(lens, j, window)
  {
    if Matches(lens, j, window) {
      hide Max, Matches;
      MatchInterval(lens, i, window);
      MatchInterval(lens, j, window);
      MaxGrowsFrom(lens, i, j);
      assert false;
    }
  }

  lemma MaxGrowsFrom(lens: Lengths, i: nat, j: nat)
    requires i < |lens| && j < |lens| && 0 < lens[i] < lens[j]
    ensures Max(lens, lens[i]) <= Max(lens, lens[j] - 1)
  {
    MaxGrows(lens, lens[i], lens[j] - 1);
  }

  /** The symbol with the r-th code of length s. */
  function Nth(lens: Lengths, n: nat, s: nat, r: nat): (i: nat)
    requires n <= |lens| && r < CountTo(lens, n, s)
    ensures i < n && lens[i] == s && CountTo(lens, i, s) == r
  {
    if CountTo(lens, n - 1, s) == r then n - 1 else Nth(lens, n - 1, s, r)
  }

  /** Every window between Max(s - 1) and Max(s) begins with a code of length s. */
  lemma MatchExists(lens: Lengths, s: nat, window: nat) returns (i: nat)
    requires Accepted(lens) && 1 <= s < 16 && window < Max(lens, s)
    requires s > 1 ==> Max(lens, s - 1) <= window
    ensures i < |lens| && lens[i] == s && Matches(lens, i, window)
    ensures High(window, 16 - s) == First(lens, s) + CountTo(lens, i, s)
  {
    var c := High(window, 16 - s);
    WindowCode(lens, s, window);
    i := Nth(lens, |lens|, s, c - First(lens, s));
  }

  lemma WindowCode(lens: Lengths, s: nat, window: nat)
    requires 1 <= s < 16 && window < Max(lens, s)
    requires s > 1 ==> Max(lens, s - 1) <= window
    ensures First(lens, s) <= High(window, 16 - s) < End(lens, s)
  {
    if s > 1 {
      MaxMeets(lens, s);
    }
    hide Low, High, Count, CountTo;
    var c, p := High(window, 16 - s), Pow2(16 - s);
    HighInterval(window, 16 - s, c);
    MulCancel(c, End(lens, s), p);
    if s > 1 {
      MulCancel(First(lens, s), c + 1, p);
    }
  }

  /** A window past every code begins with none. */
  lemma NoMatch(lens: Lengths, i: nat, window: nat)
    requires Accepted(lens) && i < |lens| && window >= Max(lens, 15)
    ensures !Matches(lens, i, window)
  {
    if Matches(lens, i, window) {
      MatchInterval(lens, i, window);
      MaxGrows(lens, lens[i], 15);
    }
  }

  // ----- codes as bit strings

  lemma {:induction false} MsbBitsHigh(c: nat, n: nat, m: nat)
    ensures MsbBits(c, n + m)[..n] == MsbBits(High(c, m), n)
    decreases n
  {
    if n > 0 {
      MsbBitsHigh(c, n - 1, m);
      BitOfHigh(c, m, n - 1);
      assert MsbBits(c, n + m) == [BitSet(c, n + m - 1)] + MsbBits(c, n - 1 + m);
      assert MsbBits(c, n + m)[..n] == [BitSet(c, n + m - 1)] + MsbBits(c, n - 1 + m)[..n - 1];
    }
  }

  lemma BitOfHigh(c: nat, m: nat, k: nat)
    ensures BitSet(High(c, m), k) == BitSet(c, m + k)
  {
    HighHigh(c, m, k);
  }

  lemma HighHigh(c: nat, m: nat, k: nat)
    ensures High(High(c, m), k) == High(c, m + k)
  {
    hide Low, High, Pow2;
    LowHigh(c, m);
    LowHigh(High(c, m), k);
    Pow2Add(m, k);
    var p, q, h := Pow2(m), Pow2(k), High(c, m);
    var l, hh := Low(h, k), High(h, k);
    Nested(Low(c, m), p, l, q, hh);
    LowHighUnique(c, m + k, Low(c, m) + p * l, hh);
  }

  lemma Nested(low: nat, p: nat, l: nat, q: nat, h: nat)
    requires low < p && l < q
    ensures low + p * (l + q * h) == low + p * l + p * q * h
    ensures low + p * l < p * q
  {
    MulAssoc3(p, q, h);
    Distribute(l, q * h, p);
    MulMonotone(l + 1, q, p);
    Distribute(l, 1, p);
  }

  lemma BitHalf(a: nat, n: nat)
    requires n > 0
    ensures BitSet(a, n) == BitSet(a / 2, n - 1)
  {
    Pow2Zero();
    assert Pow2(1) == 2 * Pow2(0);
    HighHigh(a, 1, n - 1);
    hide Pow2;
    assert High(a, 1) == a / 2;
  }

  /** A code of n bits is determined by its bits. */
  lemma {:induction false} MsbBitsInjective(a: nat, b: nat, n: nat)
    requires a < Pow2(n) && b < Pow2(n) && MsbBits(a, n) == MsbBits(b, n)
    ensures a == b
  {
    if n > 0 {
      assert MsbBits(a, n)[1..] == MsbBits(a, n - 1) && MsbBits(b, n)[1..] == MsbBits(b, n - 1);
      assert MsbBits(a, n)[0] == BitSet(a, n - 1) && MsbBits(b, n)[0] == BitSet(b, n - 1);
      hide MsbBits, BitSet, Pow2, Low;
      TopBit(a, n);
      TopBit(b, n);
      MsbBitsLow(a, n - 1);
      MsbBitsLow(b, n - 1);
      MsbBitsInjective(Low(a, n - 1), Low(b, n - 1), n - 1);
    }
  }

  lemma TopBit(a: nat, n: nat)
    requires 0 < n && a < Pow2(n)
    ensures a == Low(a, n - 1) + (if BitSet(a, n - 1) then Pow2(n - 1) else 0)
  {
    hide BitSet, Pow2;
    BitSplits(a, n - 1);
    SmallMod(a, Pow2(n));
  }

  lemma SmallMod(a: nat, d: nat)
    requires a < d
    ensures a % d == a
  {
  }

  lemma MsbBitsLow(a: nat, n: nat)
    ensures MsbBits(a, n) == MsbBits(Low(a, n), n)
  {
    MsbBitsSame(a, n, n);
  }

  lemma {:induction false} MsbBitsSame(a: nat, m: nat, n: nat)
    requires n <= m
    ensures MsbBits(a, n) == MsbBits(Low(a, m), n)
    decreases n
  {
    hide Low, BitSet;
    if n > 0 {
      MsbBitsSame(a, m, n - 1);
      BitOfLow(a, m, n - 1);
    }
  }

  lemma BitOfLow(a: nat, m: nat, k: nat)
    requires k < m
    ensures BitSet(Low(a, m), k) == BitSet(a, k)
  {
    hide Pow2, BitSet;
    Pow2Add(k + 1, m - k - 1);
    Pow2Add(k, m - k);
    var b := Low(a, m);
    BitSplits(a, k);
    BitSplits(b, k);
    ModMod(a, Pow2(k + 1), Pow2(m - k - 1));
    ModMod(a, Pow2(k), Pow2(m - k));
  }

  lemma ModMod(a: nat, u: nat, w: nat)
    requires u > 0 && w > 0
    ensures a % (u * w) % u == a % u
  {
    var b, q := a % (u * w), a / (u * w);
    DivMod(a, u * w);
    DivMod(b, u);
    var d := b / u;
    assert a == (w * q + d) * u + b % u by {
      MulAssoc3(u, w, q);
      assert u * (w * q) == (w * q) * u && u * d == d * u;
      Distribute(w * q, d, u);
    }
    ModUnique(a, u, w * q + d, b % u);
  }

  // ----- codes as prefixes of the stream

  /** The stream begins with the code of symbol i. */
  predicate Begins(lens: Lengths, i: nat, bits: Bits)
    requires i < |lens|
  {
    lens[i] > 0 && CodeBits(lens, i) <= bits
  }

  /** Matching the next sixteen bits as a number is having the code as a prefix. */
  lemma MatchesIsBegins(lens: Lengths, i: nat, bits: Bits, window: nat)
    requires Accepted(lens) && i < |lens| && window < Pow2(16)
    requires |bits| >= 16 && bits[..16] == MsbBits(window, 16)
    ensures Matches(lens, i, window) <==> Begins(lens, i, bits)
  {
    hide Pow2, High, Low, MsbBits, CodeOf;
    var s := lens[i];
    if s > 0 {
      MsbBitsHigh(window, s, 16 - s);
      assert bits[..16][..s] == bits[..s];
      HighBound(window, 16 - s, s);
      CodeFits(lens, i);
      if MsbBits(High(window, 16 - s), s) == CodeBits(lens, i) {
        MsbBitsInjective(High(window, 16 - s), CodeOf(lens, i), s);
      }
    }
  }

  /** No code is a prefix of another symbol's code. */
  lemma PrefixFree(lens: Lengths, i: nat, j: nat)
    requires Accepted(lens) && i < |lens| && j < |lens| && lens[i] > 0 && lens[j] > 0
    requires CodeBits(lens, i) <= CodeBits(lens, j)
    ensures i == j
  {
    hide Pow2, High, Low, MsbBits, CodeOf, Matches;
    var s := lens[j];
    var window := CodeOf(lens, j) * Pow2(16 - s);
    CodeFits(lens, j);
    Pow2Add(s, 16 - s);
    MulMonotone(CodeOf(lens, j) + 1, Pow2(s), Pow2(16 - s));
    Distribute(CodeOf(lens, j), 1, Pow2(16 - s));
    LowHighUnique(window, 16 - s, 0, CodeOf(lens, j));
    var bits := MsbBits(window, 16);
    MsbBitsHigh(window, s, 16 - s);
    assert bits[..16] == bits;
    MatchesIsBegins(lens, i, bits, window);
    MatchesIsBegins(lens, j, bits, window);
    MatchUnique(lens, i, j, window);
  }

  /** Two codes that both begin the same stream are the same code. */
  lemma BeginsUnique(lens: Lengths, i: nat, j: nat, bits: Bits)
    requires Accepted(lens) && i < |lens| && j < |lens|
    requires Begins(lens, i, bits) && Begins(lens, j, bits)
    ensures i == j
  {
    if lens[i] <= lens[j] {
      assert CodeBits(lens, i) <= CodeBits(lens, j);
      PrefixFree(lens, i, j);
    } else {
      assert CodeBits(lens, j) <= CodeBits(lens, i);
      PrefixFree(lens, j, i);
    }
  }

  /** The symbol whose code begins the stream. */
  ghost function Symbol(lens: Lengths, bits: Bits): (r: Option<nat>)
    ensures r.Some? ==> r.value < |lens| && Begins(lens, r.value, bits)
    ensures r.None? ==> forall i :: 0 <= i < |lens| ==> !Begins(lens, i, bits)
  {
    if exists i :: 0 <= i < |lens| && Begins(lens, i, bits) then
      var i :| 0 <= i < |lens| && Begins(lens, i, bits);
      Some(i)
    else None
  }

  lemma SymbolIs(lens: Lengths, i: nat, bits: Bits)
    requires Accepted(lens) && i < |lens| && Begins(lens, i, bits)
    ensures Symbol(lens, bits) == Some(i)
  {
    hide Begins;
    BeginsUnique(lens, i, Symbol(lens, bits).value, bits);
  }
}
