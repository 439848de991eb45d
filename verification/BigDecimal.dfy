// Decimal input and output (zxing-core/src/ZXBigInteger.cpp:364-403 and 577-612).
module BigDecimal {
  import opened Sequences
  import opened BlockAlgebra
  import opened Options
  import opened BlockShift
  import opened BigMagnitude
  import opened BigProduct
  import opened BigQuotient
  import opened BigInteger

  // ----- characters, in the C locale

  predicate IsSpace(c: char) {
    c == ' ' || '\t' <= c <= '\r'
  }

  predicate IsDigit(c: char) {
    '0' <= c <= '9'
  }

  /** Space, tabulator, line feed, vertical tabulator, form feed and carriage return; the ten digits. */
  lemma CharactersAre(c: char)
    ensures IsSpace(c) <==> c as int in {32, 9, 10, 11, 12, 13}
    ensures IsDigit(c) <==> c in "0123456789"
    ensures forall d: nat :: d < 10 ==> ToDigit(d) == "0123456789"[d]
  {
    assert "0123456789"[0] == '0' && "0123456789"[9] == '9';
  }

  function DigitValue(c: char): (d: nat)
    requires IsDigit(c)
    ensures d < 10
  {
    (c as int) - ('0' as int)
  }

  function ToDigit(d: nat): (c: char)
    requires d < 10
    ensures IsDigit(c) && DigitValue(c) == d
  {
    ('0' as int + d) as char
  }

  // ----- the specification of the parser

  function SkipSpaces(s: string): string {
    if |s| > 0 && IsSpace(s[0]) then SkipSpaces(s[1..]) else s
  }

  function DigitPrefix(s: string): (d: string)
    ensures |d| <= |s| && d == s[..|d|] && AllDigits(d)
    ensures |d| < |s| ==> !IsDigit(s[|d|])
  {
    if |s| > 0 && IsDigit(s[0]) then [s[0]] + DigitPrefix(s[1..]) else []
  }

  predicate AllDigits(s: string) {
    forall i :: 0 <= i < |s| ==> IsDigit(s[i])
  }

  function DecimalValue(d: string): nat
    requires AllDigits(d)
  {
    if |d| == 0 then 0 else 10 * DecimalValue(d[..|d| - 1]) + DigitValue(d[|d| - 1])
  }

  /** The sign bit and the digits, or nothing when there are only spaces. */
  function Scan(s: string): Option<(bool, string)> {
    var t := SkipSpaces(s);
    if |t| == 0 then None
    else if t[0] == '-' then Some((true, DigitPrefix(t[1..])))
    else if t[0] == '+' then Some((false, DigitPrefix(t[1..])))
    else Some((false, DigitPrefix(t)))
  }

  // ----- the specification of the printer

  function Decimal(v: nat): (d: string)
    ensures |d| > 0 && AllDigits(d)
  {
    if v < 10 then [ToDigit(v)] else Decimal(v / 10) + [ToDigit(v % 10)]
  }

  ghost function Printed(x: BigInteger): string
    reads x, x.mag
  {
    (if x.negative && |x.mag.blocks| > 0 then "-" else "") + Decimal(Value(x.mag.blocks))
  }

  lemma {:induction false} DecimalRoundTrip(v: nat)
    ensures DecimalValue(Decimal(v)) == v
  {
    if v < 10 {
      assert [ToDigit(v)][..0] == [];
    } else {
      DecimalRoundTrip(v / 10);
      var d := Decimal(v / 10) + [ToDigit(v % 10)];
      assert d[..|d| - 1] == Decimal(v / 10);
    }
  }

  lemma {:induction false} DigitPrefixAll(d: string)
    requires AllDigits(d)
    ensures DigitPrefix(d) == d
  {
    if |d| > 0 {
      DigitPrefixAll(d[1..]);
    }
  }

  /** What is printed scans back to its own sign and digits, and those to its own value. */
  lemma ScanPrinted(negative: bool, v: nat)
    ensures var text := (if negative then "-" else "") + Decimal(v);
      Scan(text) == Some((negative, Decimal(v))) && DecimalValue(Decimal(v)) == v
  {
    hide Decimal, DecimalValue, DigitPrefix, Scan;
    DecimalRoundTrip(v);
    ScanDigits(Decimal(v));
    assert "" + Decimal(v) == Decimal(v);
  }

  lemma ScanDigits(d: string)
    requires |d| > 0 && AllDigits(d)
    ensures Scan(d) == Some((false, d)) && Scan("-" + d) == Some((true, d))
  {
    hide DigitPrefix;
    DigitPrefixAll(d);
    var t := "-" + d;
    assert t[0] == '-' && t[1..] == d;
    assert SkipSpaces(d) == d && SkipSpaces(t) == t;
  }

  lemma {:induction false} SpacesSkipped(spaces: string, t: string)
    requires (forall i :: 0 <= i < |spaces| ==> IsSpace(spaces[i])) && (|t| > 0 ==> !IsSpace(t[0]))
    ensures SkipSpaces(spaces + t) == t
  {
    if |spaces| == 0 {
      assert spaces + t == t;
    } else {
      SpacesSkipped(spaces[1..], t);
      assert (spaces + t)[1..] == spaces[1..] + t;
    }
  }

  lemma {:induction false} DigitsThenOther(d: string, tail: string)
    requires AllDigits(d) && (|tail| > 0 ==> !IsDigit(tail[0]))
    ensures DigitPrefix(d + tail) == d
  {
    if |d| == 0 {
      assert d + tail == tail;
    } else {
      DigitsThenOther(d[1..], tail);
      assert (d + tail)[1..] == d[1..] + tail;
    }
  }

  /** White space, a sign or none, the digits of v and then anything but a digit: the sign and v are read. */
  lemma ScanReads(spaces: string, sign: string, v: nat, tail: string)
    requires forall i :: 0 <= i < |spaces| ==> IsSpace(spaces[i])
    requires (sign == "" || sign == "+" || sign == "-") && (|tail| > 0 ==> !IsDigit(tail[0]))
    ensures Scan(spaces + (sign + (Decimal(v) + tail))) == Some((sign == "-", Decimal(v)))
    ensures DecimalValue(Decimal(v)) == v
  {
    hide Decimal, DecimalValue, DigitPrefix, SkipSpaces;
    DecimalRoundTrip(v);
    var rest := Decimal(v) + tail;
    DigitsThenOther(Decimal(v), tail);
    var t := sign + rest;
    assert sign == "" ==> t == rest;
    assert sign != "" ==> t[0] == sign[0] && t[1..] == rest;
    assert IsDigit(rest[0]);
    SpacesSkipped(spaces, t);
  }

  // ----- the parser

  lemma {:induction false} SkipOne(s: string, i: nat)
    requires i < |s| && IsSpace(s[i]) && SkipSpaces(s) == SkipSpaces(s[i..])
    ensures SkipSpaces(s) == SkipSpaces(s[i + 1..])
  {
    assert s[i..][1..] == s[i + 1..];
  }

  /** The magnitude of the digits read so far: no block before the first digit, [0] while they are all zero. */
  ghost predicate Reads(m: Blocks, d: string) {
    && AllDigits(d) && Value(m) == DecimalValue(d) && Tidy(m)
    && (|m| == 0 <==> |d| == 0)
  }

  lemma ReadsNothing()
    ensures Reads([], [])
  {
    ValueNothing();
  }

  lemma ReadsDigit(m: Blocks, d: string, c: char, m10: Blocks, m': Blocks)
    requires Reads(m, d) && IsDigit(c)
    requires Value(m10) == Value(m) * 10
    requires Normal(m) ==> Normal(m10)
    requires |m| == 0 ==> m10 == []
    requires |m| > 0 ==> |m10| == |m| || (|m10| == |m| + 1 && Normal(m10))
    requires m' == SumOf(m10, [DigitValue(c)]) && Value(m') == Value(m10) + DigitValue(c)
    ensures Reads(m', d + [c])
  {
    hide Value, SumOf;
    assert (d + [c])[..|d|] == d;
    var digit: Block := DigitValue(c);
    if |m| == 0 {
      SumFromNothing(digit);
    } else {
      if m == [0] {
        OneBlock(0);
        if |m10| == 2 {
          NormalPositive(m10);
        }
        ZeroValueTidy(m10);
      }
      NonEmptyProduct(m, m10);
      assert Tidy([digit]);
      SumTidy(m10, [digit]);
      SumOfLength(m10, [digit]);
    }
  }

  lemma SumFromNothing(x: Block)
    ensures SumOf([], [x]) == [x]
  {
    assert [x][1..] == [];
    assert Sum([x], [], false) == [x] + Sum([], [], false);
  }

  lemma SumOfLength(a: Blocks, b: Blocks)
    ensures |SumOf(a, b)| >= |a|
  {
    if |a| >= |b| {
      SumLength(a, b, false);
    } else {
      SumLength(b, a, false);
    }
  }

  lemma NonEmptyProduct(m: Blocks, m10: Blocks)
    requires |m| > 0 && (|m10| == |m| || |m10| == |m| + 1)
    ensures |m10| > 0
  {
  }

  /**
   * ParseFromString (both TryParse overloads): the text is scanned as leading spaces, an optional sign and digits;
   * what follows the digits is ignored.
   */
  method TryParse(str: string, result: BigInteger) returns (ok: bool)
    modifies result, result.mag
    ensures ok == (Scan(str).Some? && |Scan(str).value.1| > 0)
    ensures Scan(str).None? ==>
              result.negative == old(result.negative) && result.mag.blocks == old(result.mag.blocks)
    ensures Scan(str).Some? ==>
              result.negative == Scan(str).value.0 && Reads(result.mag.blocks, Scan(str).value.1)
  {
    hide Value, SumOf, Reads;
    var iter := 0;
    assert str[0..] == str;
    while iter < |str| && IsSpace(str[iter])
      modifies {}
      invariant iter <= |str| && SkipSpaces(str) == SkipSpaces(str[iter..])
    {
      SkipOne(str, iter);
      iter := iter + 1;
    }
    ghost var t := str[iter..];
    assert SkipSpaces(str) == t;
    if iter == |str| {
      assert |t| == 0 && Scan(str).None?;
      return false;
    }
    result.mag.blocks := [];
    result.negative := false;
    if str[iter] == '-' {
      result.negative := true;
      iter := iter + 1;
      assert str[iter..] == t[1..];
    } else if str[iter] == '+' {
      iter := iter + 1;
      assert str[iter..] == t[1..];
    }
    assert Scan(str) == Some((result.negative, DigitPrefix(str[iter..])));
    ParseDigits(str, iter, result.mag);
    ok := |result.mag.blocks| > 0;
    ReadsLength(result.mag.blocks, DigitPrefix(str[iter..]));
  }

  lemma ReadsLength(m: Blocks, d: string)
    requires Reads(m, d)
    ensures |m| == 0 <==> |d| == 0
  {
  }

  /** Lines 381 to 387. */
  method ParseDigits(str: string, start: nat, mag: Magnitude)
    requires start <= |str| && mag.blocks == []
    modifies mag
    ensures Reads(mag.blocks, DigitPrefix(str[start..]))
  {
    hide Value, SumOf, Reads;
    var ten := new Magnitude([10]);
    var tmp := new Magnitude([0]);
    OneBlock(10);
    ReadsNothing();
    assert str[start..start] == [];
    var iter := start;
    while iter < |str| && IsDigit(str[iter])
      modifies mag, tmp
      invariant start <= iter <= |str| && ten.blocks == [10] && |tmp.blocks| == 1
      invariant AllDigits(str[start..iter]) && Reads(mag.blocks, str[start..iter])
    {
      ghost var m := mag.blocks;
      tmp.blocks := tmp.blocks[0 := DigitValue(str[iter])];
      assert tmp.blocks == [DigitValue(str[iter])];
      OneBlock(DigitValue(str[iter]));
      MulMag(mag, ten, mag);
      ghost var m10 := mag.blocks;
      AddMag(mag, tmp, mag);
      ReadsDigit(m, str[start..iter], str[iter], m10, mag.blocks);
      assert str[start..iter] + [str[iter]] == str[start..iter + 1];
      iter := iter + 1;
    }
    assert str[start..][..iter - start] == str[start..iter];
    assert iter < |str| ==> str[start..][iter - start] == str[iter];
    PrefixIs(str[start..], iter - start);
  }

  lemma {:induction false} PrefixIs(s: string, n: nat)
    requires n <= |s| && AllDigits(s[..n]) && (n < |s| ==> !IsDigit(s[n]))
    ensures DigitPrefix(s) == s[..n]
  {
    if n > 0 {
      assert s[..n][0] == s[0];
      assert s[1..][..n - 1] == s[..n][1..];
      PrefixIs(s[1..], n - 1);
    }
  }

  // ----- the printer

  ghost function Reversed(b: seq<nat>): (r: string)
    requires forall k :: 0 <= k < |b| ==> b[k] < 10
  {
    if |b| == 0 then "" else [ToDigit(b[|b| - 1])] + Reversed(b[..|b| - 1])
  }

  /** The digits still in the number, followed by the digits already taken off its end. */
  ghost predicate Printing(v: nat, x: Blocks, buffer: seq<nat>) {
    && Tidy(x) && (|x| == 0 ==> |buffer| > 0)
    && (forall k :: 0 <= k < |buffer| ==> buffer[k] < 10)
    && Decimal(v) == (if |x| == 0 then "" else Decimal(Value(x))) + Reversed(buffer)
  }

  lemma PrintingStep(v: nat, x: Blocks, buffer: seq<nat>, x': Blocks, digit: nat)
    requires Printing(v, x, buffer) && |x| > 0
    requires digit < 10 && Value(x) == Value(x') * 10 + digit && Normal(x')
    ensures Printing(v, x', buffer + [digit])
    ensures Value(x) > 0 ==> Value(x') < Value(x)
    ensures |x| == 1 && Value(x) == 0 ==> |x'| == 0
  {
    hide Value, Decimal, Reversed, ToDigit, DigitValue, Normal;
    NormalPositive(x');
    DecimalStep(Value(x), Value(x'), digit);
    ReversedMore(buffer, digit);
    assert Decimal(v) == Decimal(Value(x)) + Reversed(buffer);
    Reassociate(if |x'| == 0 then "" else Decimal(Value(x')), [ToDigit(digit)], Reversed(buffer));
  }

  lemma ReversedMore(buffer: seq<nat>, digit: nat)
    requires digit < 10 && forall k :: 0 <= k < |buffer| ==> buffer[k] < 10
    ensures Reversed(buffer + [digit]) == [ToDigit(digit)] + Reversed(buffer)
  {
    assert (buffer + [digit])[..|buffer|] == buffer;
  }

  lemma DecimalStep(u: nat, w: nat, digit: nat)
    requires digit < 10 && u == w * 10 + digit
    ensures Decimal(u) == (if w == 0 then "" else Decimal(w)) + [ToDigit(digit)]
  {
    assert u / 10 == w && u % 10 == digit;
  }

  lemma TwoBlocks(r: Blocks)
    requires Normal(r) && |r| > 1
    ensures Value(r) >= BASE
  {
    NormalBound(r);
    PowerMonotone(1, |r| - 1);
    PowerOne();
  }

  lemma SmallRemainder(r: Blocks)
    requires Normal(r) && Value(r) < 10
    ensures |r| <= 1 && Value(r) == if |r| == 0 then 0 else r[0]
  {
    if |r| > 1 {
      TwoBlocks(r);
      assert false;
    } else if |r| == 1 {
      assert r == [r[0]];
      OneBlock(r[0]);
    }
  }

  /** toString: an optional minus sign and the decimal digits without leading zeros. */
  method ToString(x: BigInteger) returns (result: string)
    requires Tidy(x.mag.blocks)
    ensures result == Printed(x)
  {
    hide Value, Decimal, Reversed, Printing;
    ghost var v := Value(x.mag.blocks);
    if |x.mag.blocks| == 0 {
      ValueNothing();
      DecimalZero();
      return "0";
    }
    result := if x.negative then "-" else "";
    var buffer := TakeDigits(x.mag.blocks);
    ghost var sign := result;
    var k := |buffer|;
    assert buffer[..k] == buffer;
    while k > 0
      invariant 0 <= k <= |buffer|
      invariant result + Reversed(buffer[..k]) == sign + Reversed(buffer)
    {
      k := k - 1;
      ReversedLast(buffer[..k + 1]);
      assert buffer[..k + 1][..k] == buffer[..k];
      result := result + [ToDigit(buffer[k])];
    }
    ReversedNothing();
  }

  lemma ReversedLast(b: seq<nat>)
    requires |b| > 0 && forall k :: 0 <= k < |b| ==> b[k] < 10
    ensures Reversed(b) == [ToDigit(b[|b| - 1])] + Reversed(b[..|b| - 1])
  {
  }

  lemma ReversedNothing()
    ensures Reversed([]) == ""
  {
  }

  lemma DecimalZero()
    ensures Decimal(0) == "0"
  {
  }

  /** Lines 593 to 606: the digits of the magnitude, the last one first; the quotient overwrites the dividend. */
  method TakeDigits(m: Blocks) returns (buffer: seq<nat>)
    requires Tidy(m) && |m| > 0
    ensures forall k :: 0 <= k < |buffer| ==> buffer[k] < 10
    ensures Reversed(buffer) == Decimal(Value(m))
  {
    hide Value, Decimal, Reversed, Tidy;
    buffer := [];
    var x2 := new Magnitude(m);
    var buBase := new Magnitude([10]);
    OneBlock(10);
    var lastDigit := new Magnitude([]);
    PrintingStart(m);
    while |x2.blocks| > 0
      modifies x2, lastDigit
      invariant buBase.blocks == [10]
      invariant Printing(Value(m), x2.blocks, buffer)
      decreases Value(x2.blocks), |x2.blocks|
    {
      ghost var x := x2.blocks;
      DivideWithRemainder(x2, buBase, x2, lastDigit);
      SmallRemainder(lastDigit.blocks);
      var digit := if |lastDigit.blocks| == 0 then 0 else lastDigit.blocks[0];
      TidyQuotient(x, x2.blocks, digit);
      PrintingStep(Value(m), x, buffer, x2.blocks, digit);
      buffer := buffer + [digit];
    }
    PrintingEnd(Value(m), buffer);
  }

  lemma TidyQuotient(x: Blocks, q: Blocks, digit: nat)
    requires Tidy(x) && |x| > 0 && Value(x) == Value(q) * 10 + digit
    requires Normal(x) ==> Normal(q)
    requires |q| == |x| - 1 || (|q| == |x| && Normal(q))
    ensures Normal(q)
    ensures Value(x) == 0 ==> |x| == 1
  {
    hide Value;
    if Normal(x) {
      NormalPositive(x);
    }
  }

  lemma PrintingStart(m: Blocks)
    requires Tidy(m) && |m| > 0
    ensures Printing(Value(m), m, [])
  {
    assert Decimal(Value(m)) + "" == Decimal(Value(m));
  }

  lemma PrintingEnd(v: nat, buffer: seq<nat>)
    requires Printing(v, [], buffer)
    ensures Reversed(buffer) == Decimal(v)
  {
    assert "" + Reversed(buffer) == Reversed(buffer);
  }

  /** Printing any integer and parsing the text back into any object restores its number, and its sign bit too. */
  method PrintAndParse(x: BigInteger, y: BigInteger) returns (text: string, ok: bool)
    requires Tidy(x.mag.blocks) && Separate(x, y) && x != y
    modifies y, y.mag
    ensures ok && y.Number() == x.Number()
    ensures |x.mag.blocks| > 0 ==> y.negative == x.negative
    ensures |x.mag.blocks| > 0 && Normal(x.mag.blocks) ==> y.mag.blocks == x.mag.blocks
  {
    hide Value, Decimal, Scan, DecimalValue;
    ValueNothing();
    ScanPrinted(x.negative && |x.mag.blocks| > 0, Value(x.mag.blocks));
    text := ToString(x);
    ok := TryParse(text, y);
    TidyIsNormal(x.mag.blocks);
    TidyIsNormal(y.mag.blocks);
    if |x.mag.blocks| > 0 && Normal(x.mag.blocks) {
      NormalUnique(y.mag.blocks, x.mag.blocks);
    }
  }
}
