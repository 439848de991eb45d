// UTF-8 in and out of wide strings (zxing-core/src/Utf.cpp:29-209; section 3 of RFC 3629), for wide characters of four
// bytes and, with surrogate pairs, of two.
module Utf8 {
  import opened BitOps
  import opened BitStream
  import opened BitReversal
  import opened Options

  // ----- the automaton

  const ACCEPTED: nat := 0
  const REJECTED: nat := 12

  /** The first part of the table: the class of a byte. */
  function ByteClass(b: Byte): nat {
    if b <= 0x7f then 0
    else if b <= 0x8f then 1
    else if b <= 0x9f then 9
    else if b <= 0xbf then 7
    else if b <= 0xc1 then 8
    else if b <= 0xdf then 2
    else if b == 0xe0 then 10
    else if b == 0xed then 4
    else if b <= 0xef then 3
    else if b == 0xf0 then 11
    else if b <= 0xf3 then 6
    else if b == 0xf4 then 5
    else 8
  }

  /** The second part of the table: the row of a state. */
  function Transitions(state: nat): (row: seq<nat>)
    ensures |row| == 12
  {
    if state == 0 then [0, 12, 24, 36, 60, 96, 84, 12, 12, 12, 48, 72]
    else if state == 24 then [12, 0, 12, 12, 12, 12, 12, 0, 12, 0, 12, 12]
    else if state == 36 then [12, 24, 12, 12, 12, 12, 12, 24, 12, 24, 12, 12]
    else if state == 48 then [12, 12, 12, 12, 12, 12, 12, 24, 12, 12, 12, 12]
    else if state == 60 then [12, 24, 12, 12, 12, 12, 12, 12, 12, 24, 12, 12]
    else if state == 72 then [12, 12, 12, 12, 12, 12, 12, 36, 12, 36, 12, 12]
    else if state == 84 then [12, 36, 12, 12, 12, 12, 12, 36, 12, 36, 12, 12]
    else if state == 96 then [12, 36, 12, 12, 12, 12, 12, 12, 12, 12, 12, 12]
    else [12, 12, 12, 12, 12, 12, 12, 12, 12, 12, 12, 12]
  }

  function NextState(state: nat, b: Byte): nat {
    Transitions(state)[ByteClass(b)]
  }

  /** The code point so far: six more bits, or what the class leaves of a first byte. */
  function NextCode(state: nat, codep: nat, b: Byte): nat {
    if state != ACCEPTED then Or(And(b, 0x3f), U32(codep * 64)) else And(0xff / Pow2(ByteClass(b)), b)
  }

  /** Or and And on the values that occur. */
  lemma {:induction false} AndLow(x: nat, n: nat)
    ensures And(x, Pow2(n) - 1) == Low(x, n)
    decreases n
  {
    if n == 0 {
      assert And(x, 0) == 0;
    } else {
      AndLow(x / 2, n - 1);
      LowHalf(x, n);
      var p := Pow2(n - 1);
      assert (2 * p - 1) / 2 == p - 1 && (2 * p - 1) % 2 == 1;
      AndDigits(x, 2 * p - 1);
      hide And, Low;
      SameDigits(And(x, 2 * p - 1), Low(x, n));
    }
  }

  lemma LowHalf(x: nat, n: nat)
    requires n > 0
    ensures Low(x, n) / 2 == Low(x / 2, n - 1) && Low(x, n) % 2 == x % 2
  {
    ModPow2(x, n);
  }

  lemma {:induction false} AndComm(a: nat, b: nat)
    ensures And(a, b) == And(b, a)
    decreases a + b
  {
    if a != 0 && b != 0 {
      AndComm(a / 2, b / 2);
    }
  }

  /** A continuation byte adds its low six bits. */
  lemma NextCodeMore(state: nat, codep: nat, b: Byte)
    requires state != ACCEPTED && codep < 0x400_0000
    ensures NextCode(state, codep, b) == codep * 64 + b % 64
  {
    SmallPowers();
    hide Pow2, And, Or;
    AndLow(b, 6);
    OrDisjoint(b % 64, codep, 6);
  }

  /** A first byte of class n keeps its low 8 - n bits. */
  lemma NextCodeFirst(codep: nat, b: Byte)
    requires ByteClass(b) <= 8
    ensures NextCode(ACCEPTED, codep, b) == Low(b, 8 - ByteClass(b))
  {
    var n := ByteClass(b);
    SmallPowers();
    Pow2Add(n, 8 - n);
    hide Pow2, And, Low;
    Ones(Pow2(n), Pow2(8 - n));
    AndComm(0xff / Pow2(n), b);
    AndLow(b, 8 - n);
  }

  lemma Ones(p: nat, q: nat)
    requires p * q == 256 && p > 0
    ensures 0xff / p == q - 1
  {
    assert q > 0;
    assert 255 == (q - 1) * p + (p - 1);
    ModUnique(255, p, q - 1, p - 1);
  }

  // ----- the specification

  /** A Unicode scalar value. */
  predicate Scalar(c: nat) {
    c <= 0x10ffff && !(0xd800 <= c <= 0xdfff)
  }

  /** A continuation byte: ten and six bits. */
  function Cont(x: nat): Byte {
    0x80 + x % 64
  }

  /** The bytes of a scalar value. */
  function Encoded(c: nat): seq<Byte>
    requires c < 0x20_0000
  {
    if c < 0x80 then [c]
    else if c < 0x800 then [0xc0 + c / 64, Cont(c)]
    else if c < 0x10000 then [0xe0 + c / 4096, Cont(c / 64), Cont(c)]
    else [0xf0 + c / 262144, Cont(c / 4096), Cont(c / 64), Cont(c)]
  }

  predicate AllScalar(s: seq<nat>) {
    forall i :: 0 <= i < |s| ==> Scalar(s[i])
  }

  function EncodedAll(s: seq<nat>): seq<Byte>
    requires AllScalar(s)
  {
    if |s| == 0 then [] else Encoded(s[0]) + EncodedAll(s[1..])
  }

  /** A scalar value as wide characters. */
  function Wide(c: nat, fourBytes: bool): (w: seq<nat>)
    ensures 1 <= |w| <= 2
  {
    if !fourBytes && c > 0xffff then [0xd7c0 + c / 1024, 0xdc00 + c % 1024] else [c]
  }

  function WideAll(s: seq<nat>, fourBytes: bool): seq<nat> {
    if |s| == 0 then [] else Wide(s[0], fourBytes) + WideAll(s[1..], fourBytes)
  }

  // ----- the decoder

  /** The wide characters that the bytes produce from a state of the automaton. */
  function Decoded(state: nat, codep: nat, bytes: seq<Byte>, fourBytes: bool): seq<nat>
    decreases |bytes|
  {
    if |bytes| == 0 then []
    else
      var state', codep' := NextState(state, bytes[0]), NextCode(state, codep, bytes[0]);
      (if state' == ACCEPTED then Wide(codep', fourBytes) else []) + Decoded(state', codep', bytes[1..], fourBytes)
  }

  /** AppendFromUtf8. */
  method AppendFromUtf8(utf8: seq<Byte>, buffer: seq<nat>, fourBytes: bool) returns (r: seq<nat>)
    ensures r == buffer + Decoded(ACCEPTED, 0, utf8, fourBytes)
  {
    hide NextState, NextCode;
    r := buffer;
    var codePoint, state := 0, ACCEPTED;
    var i := 0;
    assert utf8[0..] == utf8;
    while i < |utf8|
      invariant i <= |utf8|
      invariant r + Decoded(state, codePoint, utf8[i..], fourBytes) == buffer + Decoded(ACCEPTED, 0, utf8, fourBytes)
    {
      var b := utf8[i];
      assert utf8[i..][0] == b && utf8[i..][1..] == utf8[i + 1..];
      ghost var was := r;
      codePoint, state := NextCode(state, codePoint, b), NextState(state, b);
      if state == ACCEPTED {
        if !fourBytes && codePoint > 0xffff {
          r := r + [0xd7c0 + codePoint / 1024];
          r := r + [0xdc00 + codePoint % 1024];
        } else {
          r := r + [codePoint];
        }
        assert r == was + Wide(codePoint, fourBytes);
      }
      i := i + 1;
    }
  }

  /** One byte of the automaton. */
  lemma DecodedStep(state: nat, codep: nat, b: Byte, rest: seq<Byte>, fourBytes: bool, state': nat, codep': nat)
    requires NextState(state, b) == state' && NextCode(state, codep, b) == codep'
    ensures Decoded(state, codep, [b] + rest, fourBytes) ==
            (if state' == ACCEPTED then Wide(codep', fourBytes) else []) + Decoded(state', codep', rest, fourBytes)
  {
    hide NextState, NextCode;
    assert ([b] + rest)[1..] == rest;
  }

  /** The states on the way through the bytes of a scalar value. */
  lemma TwoStates(c: nat)
    requires 0x80 <= c < 0x800
    ensures 0xc2 <= 0xc0 + c / 64 < 0xe0 && NextState(0, 0xc0 + c / 64) == 24 && NextState(24, Cont(c)) == 0
  {
  }

  lemma ThreeStates(c: nat) returns (state: nat)
    requires 0x800 <= c < 0x10000 && Scalar(c)
    ensures 0xe0 <= 0xe0 + c / 4096 < 0xf0 && NextState(0, 0xe0 + c / 4096) == state != 0
    ensures NextState(state, Cont(c / 64)) == 24 && NextState(24, Cont(c)) == 0
  {
    var lead := c / 4096;
    state := if lead == 0 then 48 else if lead == 13 then 60 else 36;
  }

  lemma FourStates(c: nat) returns (state: nat)
    requires 0x10000 <= c <= 0x10ffff
    ensures 0xf0 <= 0xf0 + c / 262144 <= 0xf4 && NextState(0, 0xf0 + c / 262144) == state != 0
    ensures NextState(state, Cont(c / 4096)) == 36
    ensures NextState(36, Cont(c / 64)) == 24 && NextState(24, Cont(c)) == 0
  {
    var lead := c / 262144;
    state := if lead == 0 then 72 else if lead == 4 then 96 else 84;
  }

  /** The bits that a first byte contributes. */
  lemma FirstBits(codep: nat, b: Byte)
    requires b < 0x80 || 0xc2 <= b <= 0xf4
    ensures NextCode(ACCEPTED, codep, b) ==
            if b < 0x80 then b else if b < 0xe0 then b - 0xc0 else if b < 0xf0 then b - 0xe0 else b - 0xf0
  {
    var n := ByteClass(b);
    if n <= 8 {
      NextCodeFirst(codep, b);
      hide NextCode, Low;
      LowOfByte(b, 8 - n);
    } else {
      NoBits(codep, b);
    }
  }

  lemma LowOfByte(b: Byte, n: nat)
    requires n <= 8
    ensures Low(b, n) ==
            b % (if n == 0 then 1 else if n == 1 then 2 else if n == 2 then 4 else if n == 3 then 8
                 else if n == 4 then 16 else if n == 5 then 32 else if n == 6 then 64 else if n == 7 then 128 else 256)
  {
    SmallPowers();
    hide Pow2;
  }

  /** The classes of 0xe0 and 0xf0 leave nothing. */
  lemma NoBits(codep: nat, b: Byte)
    requires b == 0xe0 || b == 0xf0
    ensures NextCode(ACCEPTED, codep, b) == 0
  {
    SmallPowers();
    Pow2Next(10);
    hide Pow2;
    assert And(0, b) == 0;
  }

  /** A first byte that does not end the code point. */
  lemma FirstStep(codep: nat, b: Byte, rest: seq<Byte>, fourBytes: bool, state: nat, lead: nat)
    requires 0xc2 <= b <= 0xf4 && NextState(0, b) == state != 0
    requires lead == if b < 0xe0 then b - 0xc0 else if b < 0xf0 then b - 0xe0 else b - 0xf0
    ensures Decoded(0, codep, [b] + rest, fourBytes) == Decoded(state, lead, rest, fourBytes)
  {
    FirstBits(codep, b);
    hide NextState, NextCode, Decoded;
    DecodedStep(0, codep, b, rest, fourBytes, state, lead);
    NothingBefore(Decoded(state, lead, rest, fourBytes));
  }

  lemma ContBits(state: nat, x: nat)
    requires state != ACCEPTED && x < 0x20_0000
    ensures NextCode(state, x / 64, Cont(x)) == x
  {
    hide NextCode;
    assert x / 64 * 64 + Cont(x) % 64 == x;
    NextCodeMore(state, x / 64, Cont(x));
  }

  /** A continuation byte. */
  lemma ContStep(state: nat, x: nat, rest: seq<Byte>, fourBytes: bool, next: nat)
    requires state != 0 && NextState(state, Cont(x)) == next && x < 0x20_0000
    ensures Decoded(state, x / 64, [Cont(x)] + rest, fourBytes) ==
            if next == 0 then Wide(x, fourBytes) + Decoded(0, x, rest, fourBytes)
            else Decoded(next, x, rest, fourBytes)
  {
    ContBits(state, x);
    hide NextState, NextCode, Decoded, Cont;
    DecodedStep(state, x / 64, Cont(x), rest, fourBytes, next, x);
    NothingBefore(Decoded(next, x, rest, fourBytes));
  }

  lemma NothingBefore(s: seq<nat>)
    ensures [] + s == s
  {
  }

  lemma Nested(c: nat)
    ensures c / 4096 == c / 64 / 64 && c / 262144 == c / 4096 / 64
  {
  }

  /** Decoding the bytes of one scalar value produces it and returns to the accepting state. */
  lemma OneScalar(c: nat, codep: nat, rest: seq<Byte>, fourBytes: bool)
    requires Scalar(c)
    ensures Decoded(ACCEPTED, codep, Encoded(c) + rest, fourBytes) ==
            Wide(c, fourBytes) + Decoded(ACCEPTED, c, rest, fourBytes)
  {
    hide Decoded, Wide, NextCode, Cont;
    Nested(c);
    if c < 0x80 {
      FirstBits(codep, c);
      assert NextState(0, c) == 0;
      DecodedStep(0, codep, c, rest, fourBytes, 0, c);
    } else if c < 0x800 {
      TwoStates(c);
      hide NextState;
      assert Encoded(c) + rest == [0xc0 + c / 64] + ([Cont(c)] + rest);
      FirstStep(codep, 0xc0 + c / 64, [Cont(c)] + rest, fourBytes, 24, c / 64);
      ContStep(24, c, rest, fourBytes, 0);
    } else if c < 0x10000 {
      ThreeBytes(c, codep, rest, fourBytes);
    } else {
      FourBytes(c, codep, rest, fourBytes);
    }
  }

  lemma ThreeBytes(c: nat, codep: nat, rest: seq<Byte>, fourBytes: bool)
    requires 0x800 <= c < 0x10000 && Scalar(c)
    ensures Decoded(ACCEPTED, codep, Encoded(c) + rest, fourBytes) ==
            Wide(c, fourBytes) + Decoded(ACCEPTED, c, rest, fourBytes)
  {
    hide Decoded, Wide, NextCode, Cont, NextState;
    Nested(c);
    var state := ThreeStates(c);
    var t2 := [Cont(c)] + rest;
    var t1 := [Cont(c / 64)] + t2;
    assert Encoded(c) + rest == [0xe0 + c / 4096] + t1;
    FirstStep(codep, 0xe0 + c / 4096, t1, fourBytes, state, c / 4096);
    ContStep(state, c / 64, t2, fourBytes, 24);
    ContStep(24, c, rest, fourBytes, 0);
  }

  lemma FourBytes(c: nat, codep: nat, rest: seq<Byte>, fourBytes: bool)
    requires 0x10000 <= c <= 0x10ffff
    ensures Decoded(ACCEPTED, codep, Encoded(c) + rest, fourBytes) ==
            Wide(c, fourBytes) + Decoded(ACCEPTED, c, rest, fourBytes)
  {
    hide Decoded, Wide, NextCode, Cont, NextState;
    Nested(c);
    var state := FourStates(c);
    var t3 := [Cont(c)] + rest;
    var t2 := [Cont(c / 64)] + t3;
    var t1 := [Cont(c / 4096)] + t2;
    assert Encoded(c) + rest == [0xf0 + c / 262144] + t1;
    FirstStep(codep, 0xf0 + c / 262144, t1, fourBytes, state, c / 262144);
    ContStep(state, c / 4096, t2, fourBytes, 36);
    ContStep(36, c / 64, t3, fourBytes, 24);
    ContStep(24, c, rest, fourBytes, 0);
  }

  /** Decoding what scalar values are encoded as gives them back. */
  lemma {:induction false} DecodesAll(s: seq<nat>, codep: nat, fourBytes: bool)
    requires AllScalar(s)
    ensures Decoded(ACCEPTED, codep, EncodedAll(s), fourBytes) == WideAll(s, fourBytes)
    decreases |s|
  {
    hide NextState, NextCode, Encoded, Wide;
    if |s| > 0 {
      OneScalar(s[0], codep, EncodedAll(s[1..]), fourBytes);
      DecodesAll(s[1..], s[0], fourBytes);
    }
  }

  // ----- the input that is not UTF-8

  /** The state after the bytes. */
  function Run(state: nat, bytes: seq<Byte>): nat
    decreases |bytes|
  {
    if |bytes| == 0 then state else Run(NextState(state, bytes[0]), bytes[1..])
  }

  /** No byte, of these, brings the automaton to its accepting state. */
  predicate NeverAccepts(state: nat, bytes: seq<Byte>)
    decreases |bytes|
  {
    |bytes| > 0 ==>
      var next := NextState(state, bytes[0]);
      next != ACCEPTED && NeverAccepts(next, bytes[1..])
  }

  lemma {:induction false} NothingDecoded(state: nat, codep: nat, bytes: seq<Byte>, fourBytes: bool)
    requires state != ACCEPTED && NeverAccepts(state, bytes)
    ensures Decoded(state, codep, bytes, fourBytes) == [] && Run(state, bytes) != ACCEPTED
    decreases |bytes|
  {
    hide NextState, NextCode, Wide;
    if |bytes| > 0 {
      NothingDecoded(NextState(state, bytes[0]), NextCode(state, codep, bytes[0]), bytes[1..], fourBytes);
    }
  }

  lemma {:induction false} RejectedForGood(bytes: seq<Byte>)
    ensures NeverAccepts(REJECTED, bytes)
    decreases |bytes|
  {
    if |bytes| > 0 {
      assert NextState(REJECTED, bytes[0]) == REJECTED;
      hide NextState;
      RejectedForGood(bytes[1..]);
    }
  }

  /** The continuation bytes that a state in the middle of a scalar value takes, and the state they lead to. */
  function Lowest(state: nat): Byte {
    if state == 48 then 0xa0 else if state == 72 then 0x90 else 0x80
  }

  function Highest(state: nat): Byte {
    if state == 60 then 0x9f else if state == 96 then 0x8f else 0xbf
  }

  function After(state: nat): nat {
    if state == 24 then 0 else if state == 36 || state == 48 || state == 60 then 24 else 36
  }

  predicate Inside(state: nat) {
    state == 24 || state == 36 || state == 48 || state == 60 || state == 72 || state == 84 || state == 96
  }

  lemma InsideStep(state: nat, b: Byte)
    requires Inside(state)
    ensures NextState(state, b) == if Lowest(state) <= b <= Highest(state) then After(state) else REJECTED
  {
    var n := ByteClass(b);
    assert n != 1 && n != 7 && n != 9 ==> NextState(state, b) == REJECTED;
  }

  /** The first byte of a scalar value of more than one byte. */
  function FirstState(b: Byte): nat {
    if b < 0xc2 then REJECTED
    else if b < 0xe0 then 24
    else if b == 0xe0 then 48
    else if b == 0xed then 60
    else if b < 0xf0 then 36
    else if b == 0xf0 then 72
    else if b < 0xf4 then 84
    else if b == 0xf4 then 96
    else REJECTED
  }

  lemma FirstIs(b: Byte)
    ensures NextState(ACCEPTED, b) == if b < 0x80 then ACCEPTED else FirstState(b)
  {
  }

  /** From inside a scalar value: so many continuation bytes follow, or the automaton never accepts again. */
  function Wanted(state: nat): nat {
    if state == 24 then 1 else if After(state) == 24 then 2 else 3
  }

  predicate Continued(state: nat, bytes: seq<Byte>)
    requires Inside(state)
  {
    var n := Wanted(state);
    && |bytes| >= n
    && Lowest(state) <= bytes[0] <= Highest(state)
    && forall i :: 0 < i < n ==> 0x80 <= bytes[i] <= 0xbf
  }

  lemma {:induction false} ContinuedOrNever(state: nat, bytes: seq<Byte>)
    requires Inside(state)
    ensures Continued(state, bytes) || NeverAccepts(state, bytes)
    decreases Wanted(state)
  {
    if |bytes| > 0 {
      var rest := bytes[1..];
      InsideStep(state, bytes[0]);
      RejectedForGood(rest);
      hide NextState;
      if Lowest(state) <= bytes[0] <= Highest(state) && state != 24 {
        ContinuedOrNever(After(state), rest);
        Shifted(bytes, Wanted(state));
      }
    }
  }

  lemma Shifted(bytes: seq<Byte>, n: nat)
    requires |bytes| > 0
    ensures forall i :: 0 < i < n && i < |bytes| ==> bytes[i] == bytes[1..][i - 1]
  {
  }

  /** The scalar value of a first byte and the continuation bytes it wants. */
  function Assembled(b: Byte, bytes: seq<Byte>): (c: int)
    requires Inside(FirstState(b)) && |bytes| >= Wanted(FirstState(b))
  {
    var x: int := bytes[0] as int - 0x80;
    if b < 0xe0 then (b as int - 0xc0) * 64 + x
    else
      var y: int := bytes[1] as int - 0x80;
      if b < 0xf0 then (b as int - 0xe0) * 4096 + x * 64 + y
      else (b as int - 0xf0) * 262144 + x * 4096 + y * 64 + (bytes[2] as int - 0x80)
  }

  lemma AssembledIs(b: Byte, bytes: seq<Byte>)
    requires Inside(FirstState(b)) && Continued(FirstState(b), bytes)
    ensures var c := Assembled(b, bytes);
      0 <= c && Scalar(c) && Encoded(c) == [b] + bytes[..Wanted(FirstState(b))]
  {
    if b < 0xe0 {
      AssembledTwo(b, bytes[0]);
    } else if b < 0xf0 {
      AssembledThree(b, bytes[0], bytes[1]);
    } else {
      AssembledFour(b, bytes[0], bytes[1], bytes[2]);
    }
  }

  lemma AssembledTwo(b: Byte, x: Byte)
    requires 0xc2 <= b < 0xe0 && 0x80 <= x <= 0xbf
    ensures var c := (b - 0xc0) * 64 + (x - 0x80);
      0 <= c && Scalar(c) && Encoded(c) == [b, x]
  {
  }

  lemma AssembledThree(b: Byte, x: Byte, y: Byte)
    requires 0xe0 <= b < 0xf0 && Lowest(FirstState(b)) <= x <= Highest(FirstState(b)) && 0x80 <= y <= 0xbf
    ensures var c := (b - 0xe0) * 4096 + (x - 0x80) * 64 + (y - 0x80);
      0 <= c && Scalar(c) && Encoded(c) == [b, x, y]
  {
    var c := (b - 0xe0) * 4096 + (x - 0x80) * 64 + (y - 0x80);
    assert c / 64 == (b - 0xe0) * 64 + (x - 0x80);
  }

  lemma AssembledFour(b: Byte, x: Byte, y: Byte, z: Byte)
    requires 0xf0 <= b <= 0xf4 && Lowest(FirstState(b)) <= x <= Highest(FirstState(b))
    requires 0x80 <= y <= 0xbf && 0x80 <= z <= 0xbf
    ensures var c := (b - 0xf0) * 262144 + (x - 0x80) * 4096 + (y - 0x80) * 64 + (z - 0x80);
      0 <= c && Scalar(c) && Encoded(c) == [b, x, y, z]
  {
    var c := (b - 0xf0) * 262144 + (x - 0x80) * 4096 + (y - 0x80) * 64 + (z - 0x80);
    assert c / 64 == (b - 0xf0) * 4096 + (x - 0x80) * 64 + (y - 0x80);
    assert c / 4096 == (b - 0xf0) * 64 + (x - 0x80);
  }

  predicate StartsWith(c: nat, bytes: seq<Byte>) {
    Scalar(c) && Encoded(c) <= bytes
  }

  /** Any bytes begin with a scalar value's, or nothing of them is ever decoded. */
  lemma FirstScalar(bytes: seq<Byte>) returns (found: Option<nat>)
    requires |bytes| > 0
    ensures found.Some? ==> StartsWith(found.value, bytes)
    ensures found.None? ==> NextState(ACCEPTED, bytes[0]) != ACCEPTED && NeverAccepts(ACCEPTED, bytes)
  {
    var b, rest := bytes[0], bytes[1..];
    FirstIs(b);
    hide NextState;
    if b < 0x80 {
      found := Some(b);
    } else if !Inside(FirstState(b)) {
      RejectedForGood(rest);
      found := None;
    } else {
      ContinuedOrNever(FirstState(b), rest);
      if Continued(FirstState(b), rest) {
        AssembledIs(b, rest);
        hide Encoded, Assembled, Scalar;
        found := Some(Assembled(b, rest));
        assert bytes == [b] + rest;
      } else {
        found := None;
      }
    }
  }

  /** Any bytes split into those of scalar values, which are all that is decoded, and a rest that begins with none. */
  lemma {:induction false} LongestPrefix(bytes: seq<Byte>, codep: nat, fourBytes: bool)
      returns (s: seq<nat>, rest: seq<Byte>)
    ensures AllScalar(s) && bytes == EncodedAll(s) + rest
    ensures forall c :: !StartsWith(c, rest)
    ensures Decoded(ACCEPTED, codep, bytes, fourBytes) == WideAll(s, fourBytes)
    ensures Run(ACCEPTED, bytes) == ACCEPTED <==> rest == []
    decreases |bytes|
  {
    hide NextState, NextCode, Encoded, Wide;
    if |bytes| == 0 {
      s, rest := [], [];
      NoEmptyCode();
    } else {
      var found := FirstScalar(bytes);
      if found.Some? {
        var c := found.value;
        var tail := bytes[|Encoded(c)|..];
        EncodedSize(c);
        assert bytes == Encoded(c) + tail;
        OneScalar(c, codep, tail, fourBytes);
        RunScalar(c, tail);
        var s', rest' := LongestPrefix(tail, c, fourBytes);
        s, rest := [c] + s', rest';
        assert s[1..] == s';
        assert bytes == EncodedAll(s) + rest;
      } else {
        s, rest := [], bytes;
        NothingFirst(bytes, codep, fourBytes);
        assert bytes == EncodedAll(s) + rest;
      }
    }
  }

  lemma EncodedSize(c: nat)
    requires Scalar(c)
    ensures 1 <= |Encoded(c)| <= 4
  {
  }

  lemma NoEmptyCode()
    ensures forall c :: !StartsWith(c, [])
  {
    forall c ensures !StartsWith(c, []) {
      if Scalar(c) {
        EncodedSize(c);
      }
    }
  }

  lemma NothingFirst(bytes: seq<Byte>, codep: nat, fourBytes: bool)
    requires |bytes| > 0 && NextState(ACCEPTED, bytes[0]) != ACCEPTED && NeverAccepts(ACCEPTED, bytes)
    ensures forall c :: !StartsWith(c, bytes)
    ensures Decoded(ACCEPTED, codep, bytes, fourBytes) == [] && Run(ACCEPTED, bytes) != ACCEPTED
  {
    hide NextState, NextCode, Encoded, Wide;
    NothingDecoded(NextState(ACCEPTED, bytes[0]), NextCode(ACCEPTED, codep, bytes[0]), bytes[1..], fourBytes);
    forall c ensures !StartsWith(c, bytes) {
      if StartsWith(c, bytes) {
        var tail := bytes[|Encoded(c)|..];
        assert bytes == Encoded(c) + tail;
        hide Decoded, NeverAccepts;
        OneScalar(c, codep, tail, fourBytes);
        assert false;
      }
    }
  }

  /** The automaton is back in its accepting state after the bytes of a scalar value. */
  lemma RunScalar(c: nat, rest: seq<Byte>)
    requires Scalar(c)
    ensures Run(ACCEPTED, Encoded(c) + rest) == Run(ACCEPTED, rest)
  {
    hide NextState, Cont, Run;
    if c < 0x80 {
      FirstIs(c);
      RunByte(ACCEPTED, c, rest);
    } else if c < 0x800 {
      TwoStates(c);
      var t1 := [Cont(c)] + rest;
      assert Encoded(c) + rest == [0xc0 + c / 64] + t1;
      RunByte(ACCEPTED, 0xc0 + c / 64, t1);
      RunByte(24, Cont(c), rest);
    } else if c < 0x10000 {
      var state := ThreeStates(c);
      var t2 := [Cont(c)] + rest;
      var t1 := [Cont(c / 64)] + t2;
      assert Encoded(c) + rest == [0xe0 + c / 4096] + t1;
      RunByte(ACCEPTED, 0xe0 + c / 4096, t1);
      RunByte(state, Cont(c / 64), t2);
      RunByte(24, Cont(c), rest);
    } else {
      RunFour(c, rest);
    }
  }

  lemma RunFour(c: nat, rest: seq<Byte>)
    requires 0x10000 <= c <= 0x10ffff
    ensures Run(ACCEPTED, Encoded(c) + rest) == Run(ACCEPTED, rest)
  {
    hide NextState, Cont, Run;
    var state := FourStates(c);
    var t3 := [Cont(c)] + rest;
    var t2 := [Cont(c / 64)] + t3;
    var t1 := [Cont(c / 4096)] + t2;
    assert Encoded(c) + rest == [0xf0 + c / 262144] + t1;
    RunByte(ACCEPTED, 0xf0 + c / 262144, t1);
    RunByte(state, Cont(c / 4096), t2);
    RunByte(36, Cont(c / 64), t3);
    RunByte(24, Cont(c), rest);
  }

  lemma RunByte(state: nat, b: Byte, rest: seq<Byte>)
    ensures Run(state, [b] + rest) == Run(NextState(state, b), rest)
  {
    hide NextState;
    assert ([b] + rest)[1..] == rest;
  }

  // ----- the encoder

  /** IsUtf16SurrogatePair: the masks keep the top six of sixteen bits. */
  predicate IsUtf16SurrogatePair(str: seq<nat>, fourBytes: bool) {
    !fourBytes && |str| >= 2 && str[0] % 65536 / 1024 == 0x36 && str[1] % 65536 / 1024 == 0x37
  }

  /** Utf32FromUtf16Surrogates, in 32-bit arithmetic. */
  function Utf32FromUtf16Surrogates(str: seq<nat>): nat
    requires |str| >= 2
  {
    ((str[0] * 1024 + str[1]) as int - 0x35fdc00) % 0x1_0000_0000
  }

  function Byte8(v: nat): Byte {
    v % 256
  }

  /** Utf32ToUtf8. */
  function Utf32ToUtf8(c: nat): (bytes: seq<Byte>)
    ensures 1 <= |bytes| <= 4
  {
    if c < 0x80 then [Byte8(c)]
    else if c < 0x800 then [Byte8(Or(c / 64, 0xc0)), Byte8(Or(c % 64, 0x80))]
    else if c < 0x10000 then [Byte8(Or(c / 4096, 0xe0)), Byte8(Or(c / 64 % 64, 0x80)), Byte8(Or(c % 64, 0x80))]
    else [Byte8(Or(c / 262144, 0xf0)), Byte8(Or(c / 4096 % 64, 0x80)), Byte8(Or(c / 64 % 64, 0x80)),
          Byte8(Or(c % 64, 0x80))]
  }

  lemma OrHigh(x: nat)
    ensures x < 64 ==> Or(x, 0x80) == 0x80 + x
    ensures x < 32 ==> Or(x, 0xc0) == 0xc0 + x
    ensures x < 16 ==> Or(x, 0xe0) == 0xe0 + x
    ensures x < 8 ==> Or(x, 0xf0) == 0xf0 + x
  {
    SmallPowers();
    hide Pow2, Or;
    if x < 64 {
      OrDisjoint(x, 2, 6);
    }
    if x < 32 {
      OrDisjoint(x, 6, 5);
    }
    if x < 16 {
      OrDisjoint(x, 14, 4);
    }
    if x < 8 {
      OrDisjoint(x, 30, 3);
    }
  }

  lemma EncodesScalar(c: nat)
    requires c < 0x20_0000
    ensures Utf32ToUtf8(c) == Encoded(c)
  {
    hide Or;
    ContIs(c);
    ContIs(c / 64);
    ContIs(c / 4096);
    if c < 0x800 {
      OrHigh(c / 64);
    } else if c < 0x10000 {
      OrHigh(c / 4096);
    } else {
      OrHigh(c / 262144);
    }
  }

  lemma ContIs(x: nat)
    ensures Byte8(Or(x % 64, 0x80)) == Cont(x)
  {
    hide Or;
    OrHigh(x % 64);
  }

  // ----- strings

  /** What AppendToUtf8 makes of wide characters, scalar values or not. */
  function Utf8Of(str: seq<nat>, fourBytes: bool): seq<Byte> {
    if |str| == 0 then []
    else if IsUtf16SurrogatePair(str, fourBytes) then
      Utf32ToUtf8(Utf32FromUtf16Surrogates(str)) + Utf8Of(str[2..], fourBytes)
    else Utf32ToUtf8(str[0]) + Utf8Of(str[1..], fourBytes)
  }

  /** AppendToUtf8. */
  method AppendToUtf8(str: seq<nat>, utf8: seq<Byte>, fourBytes: bool) returns (r: seq<Byte>)
    ensures r == utf8 + Utf8Of(str, fourBytes)
  {
    hide Utf32ToUtf8, Utf32FromUtf16Surrogates, IsUtf16SurrogatePair;
    r := utf8;
    var s := str;
    while |s| > 0
      invariant r + Utf8Of(s, fourBytes) == utf8 + Utf8Of(str, fourBytes)
      decreases |s|
    {
      PairLength(s, fourBytes);
      if IsUtf16SurrogatePair(s, fourBytes) {
        r := r + Utf32ToUtf8(Utf32FromUtf16Surrogates(s));
        s := s[2..];
      } else {
        r := r + Utf32ToUtf8(s[0]);
        s := s[1..];
      }
    }
  }

  lemma PairLength(s: seq<nat>, fourBytes: bool)
    ensures IsUtf16SurrogatePair(s, fourBytes) ==> |s| >= 2
  {
  }

  /** The bytes one wide character takes, or a pair of them. */
  function Utf8Size(str: seq<nat>, fourBytes: bool): nat
    requires |str| > 0
  {
    if str[0] < 0x80 then 1
    else if str[0] < 0x800 then 2
    else if fourBytes then if str[0] < 0x10000 then 3 else 4
    else if IsUtf16SurrogatePair(str, fourBytes) then 4
    else 3
  }

  /** Utf8CountBytes, for wide characters that fit their width: the exact size of the output. */
  method Utf8CountBytes(str: seq<nat>, fourBytes: bool) returns (result: nat)
    requires !fourBytes ==> forall i :: 0 <= i < |str| ==> str[i] < 0x10000
    ensures result == |Utf8Of(str, fourBytes)|
  {
    hide IsUtf16SurrogatePair, Utf32ToUtf8, Utf32FromUtf16Surrogates;
    result := 0;
    var s := str;
    while |s| > 0
      invariant result + |Utf8Of(s, fourBytes)| == |Utf8Of(str, fourBytes)|
      invariant !fourBytes ==> forall i :: 0 <= i < |s| ==> s[i] < 0x10000
      decreases |s|
    {
      PairLength(s, fourBytes);
      CountStep(s, fourBytes);
      if s[0] < 0x80 {
        result := result + 1;
      } else if s[0] < 0x800 {
        result := result + 2;
      } else if fourBytes {
        if s[0] < 0x10000 {
          result := result + 3;
        } else {
          result := result + 4;
        }
      } else if IsUtf16SurrogatePair(s, fourBytes) {
        result := result + 4;
        s := s[1..];
      } else {
        result := result + 3;
      }
      s := s[1..];
    }
  }

  lemma CountStep(s: seq<nat>, fourBytes: bool)
    requires |s| > 0 && (!fourBytes ==> forall i :: 0 <= i < |s| ==> s[i] < 0x10000)
    ensures IsUtf16SurrogatePair(s, fourBytes) ==>
              !fourBytes && |s| >= 2 && s[0] >= 0x800
              && |Utf8Of(s, fourBytes)| == 4 + |Utf8Of(s[1..][1..], fourBytes)|
    ensures !IsUtf16SurrogatePair(s, fourBytes) ==>
              |Utf8Of(s, fourBytes)| == Utf8Size(s, fourBytes) + |Utf8Of(s[1..], fourBytes)|
  {
    hide Utf32ToUtf8, Utf32FromUtf16Surrogates, IsUtf16SurrogatePair;
    if IsUtf16SurrogatePair(s, fourBytes) {
      SurrogateRange(s, fourBytes);
      assert s[1..][1..] == s[2..];
      ScalarSize(Utf32FromUtf16Surrogates(s));
    } else {
      ScalarSize(s[0]);
    }
  }

  lemma ScalarSize(c: nat)
    ensures |Utf32ToUtf8(c)| == if c < 0x80 then 1 else if c < 0x800 then 2 else if c < 0x10000 then 3 else 4
  {
    hide Byte8, Or;
  }

  lemma SurrogateRange(s: seq<nat>, fourBytes: bool)
    requires IsUtf16SurrogatePair(s, fourBytes) && (!fourBytes ==> forall i :: 0 <= i < |s| ==> s[i] < 0x10000)
    ensures !fourBytes && |s| >= 2 && s[0] >= 0x800
    ensures 0x10000 <= Utf32FromUtf16Surrogates(s) <= 0x10ffff
  {
  }

  /** A surrogate pair carries its scalar value. */
  lemma SurrogatesCarry(c: nat, rest: seq<nat>)
    requires 0x10000 <= c <= 0x10ffff
    ensures var w := Wide(c, false) + rest;
      |w| >= 2 && IsUtf16SurrogatePair(w, false) && Utf32FromUtf16Surrogates(w) == c && w[2..] == rest
  {
    var w := Wide(c, false) + rest;
    assert w[2..] == rest;
  }

  lemma PlainCharacter(c: nat, rest: seq<nat>, fourBytes: bool)
    requires Scalar(c) && (fourBytes || c < 0x10000)
    ensures var w := Wide(c, fourBytes) + rest;
      w[0] == c && w[1..] == rest && !IsUtf16SurrogatePair(w, fourBytes)
  {
    var w := Wide(c, fourBytes) + rest;
    assert w[1..] == rest;
  }

  /** Wide characters for scalar values are encoded as those. */
  lemma {:induction false} EncodesAll(s: seq<nat>, fourBytes: bool)
    requires AllScalar(s)
    ensures Utf8Of(WideAll(s, fourBytes), fourBytes) == EncodedAll(s)
    decreases |s|
  {
    hide Utf32ToUtf8, Encoded, Wide, IsUtf16SurrogatePair, Utf32FromUtf16Surrogates;
    if |s| > 0 {
      var c, rest := s[0], WideAll(s[1..], fourBytes);
      EncodesAll(s[1..], fourBytes);
      EncodesScalar(c);
      if !fourBytes && c >= 0x10000 {
        SurrogatesCarry(c, rest);
      } else {
        PlainCharacter(c, rest, fourBytes);
      }
    }
  }

  lemma {:induction false} WideFits(s: seq<nat>)
    requires AllScalar(s)
    ensures forall i :: 0 <= i < |WideAll(s, false)| ==> WideAll(s, false)[i] < 0x10000
    decreases |s|
  {
    if |s| > 0 {
      WideFits(s[1..]);
    }
  }

  lemma {:induction false} AcceptsEncoded(s: seq<nat>)
    requires AllScalar(s)
    ensures Run(ACCEPTED, EncodedAll(s)) == ACCEPTED
    decreases |s|
  {
    if |s| > 0 {
      hide Encoded, NextState;
      RunScalar(s[0], EncodedAll(s[1..]));
      AcceptsEncoded(s[1..]);
    }
  }

  /** The automaton accepts exactly UTF-8: the encodings of sequences of scalar values. */
  lemma AcceptsExactlyUtf8(bytes: seq<Byte>)
    ensures Run(ACCEPTED, bytes) == ACCEPTED <==> exists s :: AllScalar(s) && EncodedAll(s) == bytes
  {
    hide Run, AllScalar;
    if Run(ACCEPTED, bytes) == ACCEPTED {
      var s, rest := LongestPrefix(bytes, 0, true);
      assert EncodedAll(s) == bytes;
    }
    if s :| AllScalar(s) && EncodedAll(s) == bytes {
      AcceptsEncoded(s);
    }
  }

  /** Reading bytes and writing what was read gives the bytes back exactly if they are UTF-8. */
  lemma WrittenBack(bytes: seq<Byte>, fourBytes: bool)
    ensures Utf8Of(Decoded(ACCEPTED, 0, bytes, fourBytes), fourBytes) == bytes <==> Run(ACCEPTED, bytes) == ACCEPTED
  {
    hide Run, AllScalar, Decoded, Utf8Of, EncodedAll, WideAll;
    var s, rest := LongestPrefix(bytes, 0, fourBytes);
    EncodesAll(s, fourBytes);
    if rest == [] {
      assert bytes == EncodedAll(s);
    }
  }

  /** Any scalar values survive being written as UTF-8 and read back, and the byte count is exact. */
  method RoundTrip(s: seq<nat>, fourBytes: bool) returns (utf8: seq<Byte>, str: seq<nat>, count: nat)
    requires AllScalar(s)
    ensures utf8 == EncodedAll(s) && str == WideAll(s, fourBytes) && count == |utf8|
  {
    EncodesAll(s, fourBytes);
    DecodesAll(s, 0, fourBytes);
    WideFits(s);
    var wide := WideAll(s, fourBytes);
    count := Utf8CountBytes(wide, fourBytes);
    utf8 := AppendToUtf8(wide, [], fourBytes);
    str := AppendFromUtf8(utf8, [], fourBytes);
  }
}
