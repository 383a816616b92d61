/**
 The two-dimensional array in a file: bytes, offsets, and the image that holds the rows.

 The image is a header (element size and row count), one 32-bit offset per row, then all elements.
 */
module Array2d {
  import opened Basics

  type Byte = x: int | 0 <= x < 256

  type Ui32 = x: int | 0 <= x < TWO_32

  /** Arithmetic in 32 bits. */
  function Wrap(x: int): Ui32 {
    x % TWO_32
  }

  lemma WrapNext(x: int)
    ensures Wrap(Wrap(x) + 1) == Wrap(x + 1)
  {
  }

  /** A 32-bit value in little-endian byte order. */
  function Le32(x: Ui32): (b: seq<Byte>)
    ensures |b| == 4
  {
    [x % 256, x / 256 % 256, x / 0x1_0000 % 256, x / 0x100_0000]
  }

  function FromLe32(b: seq<Byte>): (x: Ui32)
    requires |b| == 4
  {
    var b0: int, b1: int, b2: int, b3: int := b[0], b[1], b[2], b[3];
    b0 + 256 * b1 + 0x1_0000 * b2 + 0x100_0000 * b3
  }

  /** Dividing by 256 step by step. */
  lemma DivideTwice(x: nat)
    ensures x / 0x1_0000 == x / 256 / 256 && x / 0x100_0000 == x / 0x1_0000 / 256
  {
    var a, b, c := x / 256, x / 256 / 256, x / 256 / 256 / 256;
    assert 256 * a <= x < 256 * a + 256 && 256 * b <= a < 256 * b + 256 && 256 * c <= b < 256 * c + 256;
    assert 0x1_0000 * b <= x < 0x1_0000 * b + 0x1_0000;
    assert 0x100_0000 * c <= x < 0x100_0000 * c + 0x100_0000;
  }

  lemma Le32RoundTrip(x: Ui32)
    ensures FromLe32(Le32(x)) == x
  {
    DivideTwice(x);
    var a, b, c := x / 256, x / 0x1_0000, x / 0x100_0000;
    assert x == 256 * a + x % 256 && a == 256 * b + a % 256 && b == 256 * c + b % 256;
  }

  /** An element is the `w` bytes of a value. */
  ghost predicate Sized(w: nat, e: seq<seq<Byte>>) {
    forall i :: 0 <= i < |e| ==> |e[i]| == w
  }

  /** The bytes of a list of elements. */
  function Bytes(e: seq<seq<Byte>>): seq<Byte> {
    if e == [] then [] else Bytes(e[..|e| - 1]) + e[|e| - 1]
  }

  lemma {:induction false} BytesLength(w: nat, e: seq<seq<Byte>>)
    requires Sized(w, e)
    ensures |Bytes(e)| == |e| * w
  {
    if e != [] {
      var m := |e| - 1;
      BytesLength(w, e[..m]);
      assert (m + 1) * w == m * w + w;
    }
  }

  /** Element `i` stands at byte `i * w`. */
  lemma {:induction false} BytesAt(w: nat, e: seq<seq<Byte>>, i: nat)
    requires Sized(w, e) && i < |e|
    ensures 0 <= i * w && i * w + w <= |Bytes(e)| && Bytes(e)[i * w..i * w + w] == e[i]
  {
    var m := |e| - 1;
    BytesLength(w, e[..m]);
    if i < m {
      BytesAt(w, e[..m], i);
      assert Bytes(e)[i * w..i * w + w] == Bytes(e[..m])[i * w..i * w + w];
    } else {
      assert Bytes(e)[m * w..m * w + w] == e[m];
    }
  }

  /** Rows of elements, each element given by its bytes. */
  type Rows = seq<seq<seq<Byte>>>

  /** All elements, row after row. */
  function Flat(rows: Rows): (e: seq<seq<Byte>>) {
    if rows == [] then [] else Flat(rows[..|rows| - 1]) + rows[|rows| - 1]
  }

  /** How many elements come before row `r`. */
  function Before(rows: Rows, r: nat): (n: nat)
    requires r <= |rows|
  {
    if r == 0 then 0 else Before(rows, r - 1) + |rows[r - 1]|
  }

  lemma {:induction false} BeforePrefix(rows: Rows, n: nat, r: nat)
    requires r <= n <= |rows|
    ensures Before(rows[..n], r) == Before(rows, r)
  {
    if r > 0 {
      BeforePrefix(rows, n, r - 1);
    }
  }

  lemma {:induction false} FlatLength(rows: Rows)
    ensures |Flat(rows)| == Before(rows, |rows|)
  {
    if rows != [] {
      var m := |rows| - 1;
      FlatLength(rows[..m]);
      BeforePrefix(rows, m, m);
    }
  }

  /** Element `j` of row `r` has index `Before(rows, r) + j` among all elements. */
  lemma {:induction false} FlatAt(rows: Rows, r: nat, j: nat)
    requires r < |rows| && j < |rows[r]|
    ensures Before(rows, r) + j < |Flat(rows)| && Flat(rows)[Before(rows, r) + j] == rows[r][j]
  {
    var m := |rows| - 1;
    FlatLength(rows[..m]);
    BeforePrefix(rows, m, r);
    if r < m {
      FlatAt(rows[..m], r, j);
    }
  }

  /** The stored offset of a row: a 32-bit counter that started at `offset`. */
  function Stored(offset: Ui32, rows: Rows, r: nat): Ui32
    requires r <= |rows|
  {
    Wrap(offset + Before(rows, r))
  }

  /** The offset table: one entry per row among the first `n`. */
  function Table(offset: Ui32, rows: Rows, n: nat): (t: seq<Byte>)
    requires n <= |rows|
    ensures |t| == 4 * n
  {
    if n == 0 then [] else Table(offset, rows, n - 1) + Le32(Stored(offset, rows, n - 1))
  }

  /** The whole file. */
  function Image(w: Ui32, offset: Ui32, rows: Rows): seq<Byte> {
    Le32(w) + Le32(Wrap(|rows|)) + Table(offset, rows, |rows|) + Bytes(Flat(rows))
  }

  lemma {:induction false} TableAt(offset: Ui32, rows: Rows, n: nat, r: nat)
    requires r < n <= |rows|
    ensures Table(offset, rows, n)[4 * r..4 * r + 4] == Le32(Stored(offset, rows, r))
  {
    if r < n - 1 {
      TableAt(offset, rows, n - 1, r);
      assert Table(offset, rows, n)[4 * r..4 * r + 4] == Table(offset, rows, n - 1)[4 * r..4 * r + 4];
    }
  }

  function Power256(i: nat): (n: nat)
    ensures n > 0
  {
    if i == 0 then 1 else 256 * Power256(i - 1)
  }

  /** The low byte comes first. */
  lemma Le32At(x: Ui32, i: nat)
    requires i < 4
    ensures Le32(x)[i] == x / Power256(i) % 256
  {
    assert Power256(1) == 256 && Power256(2) == 256 * Power256(1) && Power256(3) == 256 * Power256(2);
    assert x / 0x100_0000 < 256;
  }
}
