// PNG row filters, written and undone (stb/stb_image_write.h:1083-1174, stb/stb_image.h:4627-4745; section 9 of the W3C
// PNG specification), for eight bits a sample and as many channels read as were written.
module PngFilter {
  import opened BitStream

  type Row = seq<Byte>

  function Abs(x: int): nat {
    if x < 0 then -x else x
  }

  /** stbiw__paeth and stbi__paeth: of a, b and c, the one nearest to a + b - c. */
  function Paeth(a: int, b: int, c: int): (r: int)
    ensures r == a || r == b || r == c
  {
    var p := a + b - c;
    var pa, pb, pc := Abs(p - a), Abs(p - b), Abs(p - c);
    if pa <= pb && pa <= pc then a else if pb <= pc then b else c
  }

  /** x is at most as far from p as y is. */
  predicate AtLeastAsNear(p: int, x: int, y: int) {
    (if x < p then p - x else x - p) <= (if y < p then p - y else y - p)
  }

  /** Section 9.4 of the PNG specification: the nearest to a + b - c, and a before b before c where they are as near. */
  lemma PaethNearest(a: int, b: int, c: int)
    ensures var p, r := a + b - c, Paeth(a, b, c);
      && AtLeastAsNear(p, r, a) && AtLeastAsNear(p, r, b) && AtLeastAsNear(p, r, c)
      && (AtLeastAsNear(p, a, b) && AtLeastAsNear(p, a, c) ==> r == a)
      && (!AtLeastAsNear(p, a, b) && AtLeastAsNear(p, b, c) ==> r == b)
      && (!AtLeastAsNear(p, a, c) && !AtLeastAsNear(p, b, c) ==> r == c)
  {
  }

  // ----- the specification: five predictors, with zeros left of the row and above the image

  function At(row: Row, i: int): Byte {
    if 0 <= i < |row| then row[i] else 0
  }

  /** The predicted byte i from what is to the left and above. */
  function Predict(filter: nat, row: Row, above: Row, n: nat, i: nat): Byte {
    Predicted(filter, At(row, i - n), At(above, i), At(above, i - n))
  }

  function Predicted(filter: nat, left: Byte, up: Byte, upLeft: Byte): Byte {
    if filter == 1 then left
    else if filter == 2 then up
    else if filter == 3 then Average(left, up)
    else if filter == 4 then Uchar(Paeth(left, up, upLeft))
    else 0
  }

  function Average(x: Byte, y: Byte): (r: Byte)
    ensures r == (x + y) / 2
  {
    (x + y) / 2
  }

  /**
   * The numbers of the filters in section 9.2: none, left, above, their average rounded down, and Paeth's choice among
   * left, above and above left, with zeros outside the image.
   */
  lemma FilterNumbers(row: Row, above: Row, n: nat, i: nat)
    requires i <= |row|
    ensures var left := if i >= n && i - n < |row| then row[i - n] else 0;
      var up := if i < |above| then above[i] else 0;
      var upLeft := if i >= n && i - n < |above| then above[i - n] else 0;
      && Predict(0, row, above, n, i) == 0
      && Predict(1, row, above, n, i) == left
      && Predict(2, row, above, n, i) == up
      && 2 * Predict(3, row, above, n, i) <= left + up <= 2 * Predict(3, row, above, n, i) + 1
      && Predict(4, row, above, n, i) == Paeth(left, up, upLeft)
  {
    hide Paeth;
  }

  /** A filtered byte is the byte less its prediction, modulo 256. */
  lemma FilteredByte(filter: nat, row: Row, above: Row, n: nat, i: nat)
    requires i < |row|
    ensures FilterRow(filter, row, above, n)[i] ==
            if row[i] >= Predict(filter, row, above, n, i) then row[i] - Predict(filter, row, above, n, i)
            else row[i] + 256 - Predict(filter, row, above, n, i)
  {
    hide Predict;
  }

  function FilterRow(filter: nat, row: Row, above: Row, n: nat): (line: Row)
    ensures |line| == |row|
  {
    seq(|row|, i requires 0 <= i < |row| => Uchar(row[i] as int - Predict(filter, row, above, n, i) as int))
  }

  /** The first k bytes of a row, each from the bytes before it. */
  function UnfilterRow(filter: nat, line: Row, above: Row, n: nat, k: nat): (row: Row)
    requires k <= |line|
    ensures |row| == k
  {
    if k == 0 then []
    else
      var row := UnfilterRow(filter, line, above, n, k - 1);
      row + [Uchar(line[k - 1] as int + Predict(filter, row, above, n, k - 1) as int)]
  }

  /** A prediction only depends on the bytes before it. */
  lemma PredictPrefix(filter: nat, row: Row, above: Row, n: nat, i: nat)
    requires i <= |row| && n > 0
    ensures Predict(filter, row, above, n, i) == Predict(filter, row[..i], above, n, i)
  {
  }

  lemma AddBack(x: Byte, p: Byte)
    ensures Uchar(Uchar(x as int - p as int) as int + p as int) == x
  {
  }

  /** Every filter is undone, byte by byte, through the wrap-around of bytes. */
  lemma {:induction false} UnfilterFilter(filter: nat, row: Row, above: Row, n: nat, k: nat)
    requires k <= |row| && n > 0
    ensures UnfilterRow(filter, FilterRow(filter, row, above, n), above, n, k) == row[..k]
    decreases k
  {
    hide Predict, Uchar;
    if k > 0 {
      UnfilterFilter(filter, row, above, n, k - 1);
      PredictPrefix(filter, row, above, n, k - 1);
      AddBack(row[k - 1], Predict(filter, row, above, n, k - 1));
      assert row[..k] == row[..k - 1] + [row[k - 1]];
    }
  }

  // ----- one line of the writer

  /** mapping and firstmap: the first row has types of its own that do not look up. */
  function LineType(filterType: nat, y: nat): nat
    requires filterType <= 4
  {
    if y != 0 then filterType
    else if filterType == 2 then 0
    else if filterType >= 3 then filterType + 2
    else filterType
  }

  /** A byte of the first pixel, for a type other than 0. */
  function FirstPixel(lineType: nat, z: Byte, up: Byte): Byte {
    if lineType == 2 then Uchar(z as int - up as int)
    else if lineType == 3 then Uchar(z as int - (up / 2) as int)
    else if lineType == 4 then Uchar(z as int - Uchar(Paeth(0, up, 0)) as int)
    else z
  }

  /** A byte of the other pixels, for a type other than 0. */
  function OtherPixel(lineType: nat, z: Byte, left: Byte, up: Byte, upLeft: Byte): Byte {
    if lineType == 1 then Uchar(z as int - left as int)
    else if lineType == 2 then Uchar(z as int - up as int)
    else if lineType == 3 then Uchar(z as int - Average(left, up) as int)
    else if lineType == 4 then Uchar(z as int - Uchar(Paeth(left, up, upLeft)) as int)
    else if lineType == 5 then Uchar(z as int - (left / 2) as int)
    else if lineType == 6 then Uchar(z as int - Uchar(Paeth(left, 0, 0)) as int)
    else z
  }

  /** The seven types are the five filters, given nothing above the first row. */
  lemma LineTypes(filterType: nat, y: nat, row: Row, above: Row, n: nat, i: nat)
    requires filterType <= 4 && i < |row| && n > 0
    requires y == 0 ==> above == []
    ensures LineType(filterType, y) == 0 ==>
              row[i] == Uchar(row[i] as int - Predict(filterType, row, above, n, i) as int)
    ensures LineType(filterType, y) != 0 && i < n ==>
              FirstPixel(LineType(filterType, y), row[i], At(above, i)) ==
              Uchar(row[i] as int - Predict(filterType, row, above, n, i) as int)
    ensures LineType(filterType, y) != 0 && i >= n ==>
              OtherPixel(LineType(filterType, y), row[i], row[i - n], At(above, i), At(above, i - n)) ==
              Uchar(row[i] as int - Predict(filterType, row, above, n, i) as int)
  {
  }

  // ----- one line of the reader

  /** A byte of the first pixel; the types are numbered as in the writer. */
  function ReadFirst(lineType: nat, raw: Byte, up: Byte): Byte {
    if lineType == 2 then Uchar(raw as int + up as int)
    else if lineType == 3 then Uchar(raw as int + (up / 2) as int)
    else if lineType == 4 then Uchar(raw as int + Paeth(0, up, 0))
    else raw
  }

  /** A byte of the other pixels. */
  function ReadOther(lineType: nat, raw: Byte, left: Byte, up: Byte, upLeft: Byte): Byte {
    if lineType == 1 then Uchar(raw as int + left as int)
    else if lineType == 2 then Uchar(raw as int + up as int)
    else if lineType == 3 then Uchar(raw as int + Average(up, left) as int)
    else if lineType == 4 then Uchar(raw as int + Paeth(left, up, upLeft))
    else if lineType == 5 then Uchar(raw as int + (left / 2) as int)
    else if lineType == 6 then Uchar(raw as int + Paeth(left, 0, 0))
    else raw
  }

  /** The reader's seven types undo the five filters, given nothing above the first row. */
  lemma ReaderTypes(filter: nat, y: nat, raw: Byte, row: Row, above: Row, n: nat)
    requires filter <= 4 && n > 0 && (y == 0 ==> above == [])
    ensures |row| < n ==>
              ReadFirst(LineType(filter, y), raw, At(above, |row|)) ==
              Uchar(raw as int + Predict(filter, row, above, n, |row|) as int)
    ensures |row| >= n ==>
              ReadOther(LineType(filter, y), raw, row[|row| - n], At(above, |row|), At(above, |row| - n)) ==
              Uchar(raw as int + Predict(filter, row, above, n, |row|) as int)
  {
    hide Predicted, ReadFirst, ReadOther, LineType, Uchar;
    if |row| < n {
      ReaderFirst(filter, y, raw, At(above, |row|));
    } else {
      ReaderOther(filter, y, raw, row[|row| - n], At(above, |row|), At(above, |row| - n));
    }
  }

  lemma ReaderFirst(filter: nat, y: nat, raw: Byte, up: Byte)
    requires filter <= 4 && (y == 0 ==> up == 0)
    ensures ReadFirst(LineType(filter, y), raw, up) == Uchar(raw as int + Predicted(filter, 0, up, 0) as int)
  {
  }

  lemma ReaderOther(filter: nat, y: nat, raw: Byte, left: Byte, up: Byte, upLeft: Byte)
    requires filter <= 4 && (y == 0 ==> up == 0 && upLeft == 0)
    ensures ReadOther(LineType(filter, y), raw, left, up, upLeft) ==
            Uchar(raw as int + Predicted(filter, left, up, upLeft) as int)
  {
    hide Abs;
    PaethIsByte(left, up, upLeft);
  }

  lemma PaethIsByte(a: Byte, b: Byte, c: Byte)
    ensures Uchar(Paeth(a, b, c)) == Paeth(a, b, c)
  {
    hide Paeth;
  }
}
