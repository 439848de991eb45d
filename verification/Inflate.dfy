// The inflater (stb/stb_image.h:4295-4486).
module Inflate {
  import opened BitOps
  import opened BitStream
  import opened BitOutput
  import opened CanonicalCode
  import opened BitReversal
  import opened HuffmanTables
  import opened DeflateFormat
  import opened InflateSpec
  import opened InflateInput
  import opened InflateExact
  import opened InflateBits

  /** Objects that belong to one decoder. */
  predicate Separate(a: ZBuf) {
    a.zLength != a.zDistance
  }

  /** The base value plus the extra bits, if there are any. */
  method ReceiveExtra(a: ZBuf, base: nat, extra: nat) returns (v: nat)
    requires a.Valid() && extra <= 16
    modifies a`pos, a`numBits, a`codeBuffer
    ensures a.Valid() && WithExtra(base, extra, old(a.View())) == (v, a.View())
  {
    hide Receive;
    v := base;
    if extra > 0 {
      var k := a.Zreceive(extra);
      v := v + k;
    }
  }

  /** Lines 4318 to 4321: zero stands for an error, since distances start at one. */
  method ReceiveDistance(a: ZBuf, ghost dist: Lengths, ghost length: nat) returns (distance: nat)
    requires a.Valid() && a.zDistance.Tables(dist)
    modifies a`pos, a`numBits, a`codeBuffer
    ensures a.Valid()
    ensures match NextDistance(dist, length, old(a.View()))
            case Ok(piece, rest) => distance == piece.distance && a.View() == rest
            case Err => distance == 0
  {
    hide NextSymbol, WithExtra, DIST_BASE, DIST_EXTRA;
    TableSizes();
    var k := a.Decode(a.zDistance, dist);
    if k < 0 || k >= 30 {
      return 0;
    }
    distance := ReceiveExtra(a, DIST_BASE[k], DIST_EXTRA[k]);
  }

  /** What reading one item returns: r < 0 is an error, below 256 a byte, 256 the end, and above that a match. */
  ghost predicate ItemRead(item: Exact<Piece>, r: int, length: nat, distance: nat, rest: Input) {
    match item
    case Err => r < 0
    case Ok(piece, rest') =>
      && rest == rest'
      && match piece
         case PieceByte(byte) => r == byte
         case PieceEnd => r == 256
         case PieceCopy(length', distance') => r > 256 && length == length' && distance == distance'
  }

  /** Lines 4299 to 4321 up to the point where output is produced. */
  method NextItem(a: ZBuf, ghost lit: Lengths, ghost dist: Lengths) returns (r: int, length: nat, distance: nat)
    requires a.Valid() && a.zLength.Tables(lit) && a.zDistance.Tables(dist)
    modifies a`pos, a`numBits, a`codeBuffer
    ensures a.Valid() && ItemRead(NextPiece(lit, dist, old(a.View())), r, length, distance, a.View())
  {
    hide NextSymbol, NextDistance, WithExtra, LENGTH_BASE, LENGTH_EXTRA;
    TableSizes();
    length, distance := 0, 0;
    var z := a.Decode(a.zLength, lit);
    if z <= 256 {
      return z, 0, 0;
    }
    if z >= 286 {
      return -1, 0, 0;
    }
    length := ReceiveExtra(a, LENGTH_BASE[z - 257], LENGTH_EXTRA[z - 257]);
    distance := ReceiveDistance(a, dist, length);
    r := if distance == 0 then -1 else z;
  }

  /** Lines 4327 to 4333: a run of one byte, or a copy that may overlap its own output. */
  method CopyOut(start: seq<Byte>, length: nat, distance: nat) returns (zout: seq<Byte>)
    requires 1 <= distance <= |start|
    ensures zout == CopyMatch(start, length, distance)
  {
    zout := start;
    var len := length;
    var p := |zout| - distance;
    if distance == 1 {
      var v := zout[p];
      while len > 0
        invariant |zout| >= 1 && zout[|zout| - 1] == v
        invariant CopyMatch(zout, len, 1) == CopyMatch(start, length, 1)
      {
        zout := zout + [v];
        len := len - 1;
      }
    } else {
      while len > 0
        invariant p == |zout| - distance >= 0
        invariant CopyMatch(zout, len, distance) == CopyMatch(start, length, distance)
      {
        zout := zout + [zout[p]];
        p := p + 1;
        len := len - 1;
      }
    }
  }

  /** What a parser owes for what the input means. */
  ghost predicate Parsed(goal: Exact<seq<Byte>>, ok: bool, out: seq<Byte>, rest: Input) {
    match goal
    case Ok(out', rest') => ok && out == out' && rest == rest'
    case Err => !ok
  }

  /** stbi__parse_huffman_block. */
  method ParseHuffmanBlock(a: ZBuf, ghost lit: Lengths, ghost dist: Lengths) returns (ok: bool)
    requires a.Valid() && a.zLength.Tables(lit) && a.zDistance.Tables(dist)
    modifies a`pos, a`numBits, a`codeBuffer, a`zout, a`capacity
    ensures a.Valid() && a.Limit() == old(a.Limit())
    ensures Parsed(ExactBlock(lit, dist, old(a.View()), old(a.zout), old(a.Limit())), ok, a.zout, a.View())
  {
    hide ExactBlock, NextPiece, CopyMatch, OutputLimit;
    ghost var goal := ExactBlock(lit, dist, a.View(), a.zout, a.Limit());
    var zout: seq<Byte> := a.zout;
    while true
      modifies a`pos, a`numBits, a`codeBuffer, a`capacity, a`zout
      invariant a.Valid() && a.Limit() == old(a.Limit()) && a.zout == old(a.zout) && |zout| <= a.capacity
      invariant ExactBlock(lit, dist, a.View(), zout, a.Limit()) == goal
      decreases a.Limit() - |zout|
    {
      BlockStep(lit, dist, a.View(), zout, a.Limit());
      var r, length, distance := NextItem(a, lit, dist);
      if r < 256 {
        if r < 0 {
          return false;
        }
        if |zout| >= a.capacity {
          ok := a.Zexpand(|zout|, 1);
          if !ok {
            return;
          }
        }
        zout := zout + [r];
      } else if r == 256 {
        a.zout := zout;
        return true;
      } else {
        if |zout| < distance {
          return false;
        }
        if |zout| + length > a.capacity {
          ok := a.Zexpand(|zout|, length);
          if !ok {
            return;
          }
        }
        zout := CopyOut(zout, length, distance);
      }
    }
  }

  /** One piece further. */
  lemma BlockStep(lit: Lengths, dist: Lengths, i: Input, out: seq<Byte>, limit: nat)
    requires |i.held| <= 32 && |out| <= limit
    ensures ExactBlock(lit, dist, i, out, limit) ==
            match NextPiece(lit, dist, i)
            case Err => Err
            case Ok(piece, j) =>
              if piece.PieceEnd? then Ok(out, j)
              else if piece.PieceByte? then
                if |out| < limit then ExactBlock(lit, dist, j, out + [piece.byte], limit) else Err
              else if piece.distance > |out| || |out| + piece.length > limit then Err
              else ExactBlock(lit, dist, j, CopyMatch(out, piece.length, piece.distance), limit)
  {
    hide NextPiece;
  }
}
