/**
 Writing an array and mapping it back, for every start offset, every list of rows and every width.
 */
module Array2dLaws {
  import opened Basics
  import opened Array2d
  import opened Array2dReader

  /** Rows of `w`-byte elements that fit in a file. */
  ghost predicate Storable(w: Ui32, offset: Ui32, rows: Rows) {
    && w > 0 && rows != [] && |rows| < TWO_32
    && (forall r :: 0 <= r < |rows| ==> Sized(w, rows[r]))
    && |Image(w, offset, rows)| < TWO_64
  }

  lemma {:induction false} FlatSized(w: nat, rows: Rows)
    requires forall r :: 0 <= r < |rows| ==> Sized(w, rows[r])
    ensures Sized(w, Flat(rows))
  {
    if rows != [] {
      FlatSized(w, rows[..|rows| - 1]);
      assert Sized(w, rows[|rows| - 1]);
    }
  }

  lemma FourParts(a: seq<Byte>, b: seq<Byte>, c: seq<Byte>, d: seq<Byte>)
    requires |a| == |b| == 4
    ensures var s := a + b + c + d; var n := 8 + |c|;
      |s| == n + |d| && s[4..8] == b && s[8..n] == c && s[n..] == d
  {
  }

  lemma AtLeastOne(a: int, w: int)
    requires w >= 0
    ensures a >= 1 ==> a * w >= w
    ensures a <= -1 ==> a * w <= -w
  {
    if a >= 1 {
      assert a * w == (a - 1) * w + w && (a - 1) * w >= 0;
    } else if a <= -1 {
      assert a * w == (a + 1) * w - w && (a + 1) * w <= 0;
    }
  }

  /** Division of a product: the remainder is zero and the quotient is the other factor. */
  lemma WholeElements(n: nat, w: nat)
    requires w > 0
    ensures n * w % w == 0 && n * w / w == n
  {
    var q, m := n * w / w, n * w % w;
    assert n * w == q * w + m;
    assert (n - q) * w == m;
    AtLeastOne(n - q, w);
  }

  lemma SizeCheck(n: nat, w: nat, size: int)
    requires w > 0 && size == n * w && size < TWO_64
    ensures size >= 0 && size % TWO_64 % w == 0 && size / w == n
  {
    WholeElements(n, w);
    assert size % TWO_64 == size;
  }

  /** Where the parts of the image are. */
  lemma ImageParts(w: Ui32, offset: Ui32, rows: Rows)
    requires |rows| < TWO_32
    ensures var data, n := Image(w, offset, rows), 8 + 4 * |rows|;
      && |data| == n + |Bytes(Flat(rows))|
      && data[4..8] == Le32(|rows|) && data[8..n] == Table(offset, rows, |rows|) && data[n..] == Bytes(Flat(rows))
  {
    hide Le32, Table, Bytes, Flat;
    FourParts(Le32(w), Le32(|rows|), Table(offset, rows, |rows|), Bytes(Flat(rows)));
  }

  lemma DataSize(w: Ui32, rows: Rows)
    requires forall r :: 0 <= r < |rows| ==> Sized(w, rows[r])
    ensures |Bytes(Flat(rows))| == Before(rows, |rows|) * w
  {
    FlatSized(w, rows);
    BytesLength(w, Flat(rows));
    FlatLength(rows);
  }

  /** The image is accepted, and the reader sees the right number of rows and elements. */
  lemma ImageMaps(w: Ui32, offset: Ui32, rows: Rows)
    requires Storable(w, offset, rows)
    ensures var data := Image(w, offset, rows);
      |data| >= 8 && Accepts(data, w)
      && var m := Map(data, w); m.InFile() && m.rows == |rows| && m.finish == Before(rows, |rows|)
  {
    var data, n := Image(w, offset, rows), Before(rows, |rows|);
    hide Le32, FromLe32, Image, Before, Bytes, Flat, Sized;
    assert |data| == 8 + 4 * |rows| + n * w && FromLe32(data[4..8]) == |rows| by {
      ImageParts(w, offset, rows);
      DataSize(w, rows);
      Le32RoundTrip(|rows|);
    }
    SizeCheck(n, w, |data| - (8 + 4 * |rows|));
  }

  /** The array a reader maps from the file that holds `rows`. */
  function Reopened(w: Ui32, offset: Ui32, rows: Rows): (m: Mapped)
    requires Storable(w, offset, rows)
    ensures m.InFile() && m.rows == |rows| && m.finish == Before(rows, |rows|)
  {
    ImageMaps(w, offset, rows);
    Map(Image(w, offset, rows), w)
  }

  lemma OffsetRead(w: Ui32, offset: Ui32, rows: Rows, r: nat)
    requires Storable(w, offset, rows) && r < |rows|
    ensures Reopened(w, offset, rows).Offset(r) == Stored(offset, rows, r)
  {
    var data := Image(w, offset, rows);
    hide Image, Le32, FromLe32, Table, Bytes, Flat, Sized, Stored, Before, Accepts;
    assert data[8..8 + 4 * |rows|] == Table(offset, rows, |rows|) by {
      ImageParts(w, offset, rows);
    }
    TableAt(offset, rows, |rows|, r);
    assert data[8 + 4 * r..12 + 4 * r] == data[8..8 + 4 * |rows|][4 * r..4 * r + 4];
    Le32RoundTrip(Stored(offset, rows, r));
  }

  /** The pointer a stored offset stands for. */
  function Pointed(x: Ui32): (p: int)
    ensures -1 <= p <= TWO_32 - 2
  {
    if x == MINUS_ONE then -1 else x
  }

  /** Row pointers and lengths, in terms of the stored offsets. */
  lemma Lengths(w: Ui32, offset: Ui32, rows: Rows, r: nat)
    requires Storable(w, offset, rows) && r < |rows|
    ensures var m := Reopened(w, offset, rows);
      && m.Row(r) == Pointed(Stored(offset, rows, r))
      && m.GetLength(r) ==
           (if r + 1 < |rows| then Pointed(Stored(offset, rows, r + 1))
            else Before(rows, |rows|) - (if offset == MINUS_ONE then 1 else 0))
           - Pointed(Stored(offset, rows, r))
  {
    hide Reopened, Before, Mapped.Offset, Storable;
    OffsetRead(w, offset, rows, 0);
    assert Stored(offset, rows, 0) == offset by {
      FirstStored(offset, rows);
    }
    OffsetRead(w, offset, rows, r);
    if r + 1 < |rows| {
      OffsetRead(w, offset, rows, r + 1);
    }
    hide Stored;
  }

  lemma FirstStored(offset: Ui32, rows: Rows)
    ensures Before(rows, 0) == 0 && Stored(offset, rows, 0) == offset
  {
  }

  ghost predicate LengthsRight(w: Ui32, offset: Ui32, rows: Rows)
    requires Storable(w, offset, rows)
  {
    forall r :: 0 <= r < |rows| ==> Reopened(w, offset, rows).GetLength(r) == |rows[r]|
  }

  /** Every row begins where its 32-bit offset can still say so. */
  ghost predicate InRange(offset: Ui32, rows: Rows) {
    || (offset == 0 && forall r :: 0 <= r < |rows| ==> Before(rows, r) < TWO_32 - 1)
    || (offset == MINUS_ONE && forall r :: 0 <= r < |rows| ==> Before(rows, r) < TWO_32)
  }

  /** If all lengths are right, every row pointer is the first one plus the elements before the row. */
  lemma {:induction false} PointersChain(w: Ui32, offset: Ui32, rows: Rows, r: nat)
    requires Storable(w, offset, rows) && LengthsRight(w, offset, rows) && r < |rows|
    ensures Pointed(Stored(offset, rows, r)) == Pointed(offset) + Before(rows, r)
  {
    hide Storable, Reopened, Pointed, Stored, Mapped.GetLength, Mapped.Row, Before;
    if r == 0 {
      FirstStored(offset, rows);
    } else {
      PointersChain(w, offset, rows, r - 1);
      Lengths(w, offset, rows, r - 1);
      assert Reopened(w, offset, rows).GetLength(r - 1) == |rows[r - 1]|;
      BeforeNext(rows, r - 1);
    }
  }

  lemma StoredExact(offset: Ui32, rows: Rows, r: nat)
    requires r <= |rows|
    ensures offset == 0 && Before(rows, r) < TWO_32 - 1 ==> Pointed(Stored(offset, rows, r)) == Before(rows, r)
    ensures offset == MINUS_ONE && Before(rows, r) < TWO_32 ==> Pointed(Stored(offset, rows, r)) == Before(rows, r) - 1
  {
    hide Before;
    var n := Before(rows, r);
    if offset == MINUS_ONE && 0 < n < TWO_32 {
      assert offset + n == (n - 1) + TWO_32;
    }
  }

  /**
   The lengths of all rows are read back right exactly when the writer started at 0 and every row begins
   before element 2^32-1, or it started at -1 and every row begins before element 2^32.
   */
  lemma LengthsIff(w: Ui32, offset: Ui32, rows: Rows)
    requires Storable(w, offset, rows)
    ensures LengthsRight(w, offset, rows) <==> InRange(offset, rows)
  {
    if LengthsRight(w, offset, rows) {
      RightInRange(w, offset, rows);
    }
    if InRange(offset, rows) {
      InRangeRight(w, offset, rows);
    }
  }

  lemma RightInRange(w: Ui32, offset: Ui32, rows: Rows)
    requires Storable(w, offset, rows) && LengthsRight(w, offset, rows)
    ensures InRange(offset, rows)
  {
    var last := |rows| - 1;
    assert Pointed(offset) == if offset == MINUS_ONE then -1 else 0 by {
      PointersChain(w, offset, rows, last);
      Lengths(w, offset, rows, last);
      hide Stored, Pointed, Reopened, Storable;
      assert Reopened(w, offset, rows).GetLength(last) == |rows[last]|;
    }
    forall r | 0 <= r < |rows|
      ensures Before(rows, r) < if offset == 0 then TWO_32 - 1 else TWO_32
    {
      PointersChain(w, offset, rows, r);
      hide Storable, LengthsRight, Stored, Before;
    }
  }

  lemma InRangeRight(w: Ui32, offset: Ui32, rows: Rows)
    requires Storable(w, offset, rows) && InRange(offset, rows)
    ensures LengthsRight(w, offset, rows)
  {
    hide Reopened, Storable, Stored, Pointed;
    forall r | 0 <= r < |rows|
      ensures Reopened(w, offset, rows).GetLength(r) == |rows[r]|
    {
      Lengths(w, offset, rows, r);
      StoredExact(offset, rows, r);
      if r + 1 < |rows| {
        StoredExact(offset, rows, r + 1);
      }
      hide Mapped.GetLength;
    }
  }

  /** An element of the data part, where the data part begins at `start`. */
  lemma DerefRead(m: Mapped, bytes: seq<Byte>, p: nat, a: nat)
    requires m.InFile() && a == p * m.w && a + m.w <= |bytes| && m.start <= |m.data| && m.data[m.start..] == bytes
    ensures m.Deref(p) == Cell(bytes[a..a + m.w])
  {
    SliceOfTail(m.data, m.start, a, m.w);
  }

  /** The element with index `p` among all elements, read from the file. */
  lemma ElementRead(w: Ui32, offset: Ui32, rows: Rows, p: nat)
    requires Storable(w, offset, rows) && p < |Flat(rows)|
    ensures Reopened(w, offset, rows).Deref(p) == Cell(Flat(rows)[p])
  {
    var m, e := Reopened(w, offset, rows), Flat(rows);
    assert m.data == Image(w, offset, rows) && m.start == 8 + 4 * |rows| && m.w == w;
    FlatSized(w, rows);
    assert |rows| < TWO_32;
    hide *;
    ImageParts(w, offset, rows);
    BytesAt(w, e, p);
    DerefRead(m, Bytes(e), p, p * w);
  }

  lemma SliceOfTail(data: seq<Byte>, n: nat, a: nat, w: nat)
    requires n + a + w <= |data|
    ensures data[n + a..n + a + w] == data[n..][a..a + w]
  {
  }

  /** In range, the pointer of a row is where its elements begin, less one in the -1 layout. */
  lemma RowRead(w: Ui32, offset: Ui32, rows: Rows, r: nat)
    requires Storable(w, offset, rows) && InRange(offset, rows) && r < |rows|
    ensures Reopened(w, offset, rows).Row(r) == Before(rows, r) - if offset == 0 then 0 else 1
  {
    hide Reopened, Storable, Pointed, Stored, Before, Mapped.GetLength, Mapped.Row;
    Lengths(w, offset, rows, r);
    StoredExact(offset, rows, r);
  }

  lemma ElementOfRow(w: Ui32, offset: Ui32, rows: Rows, r: nat, j: nat)
    requires Storable(w, offset, rows) && r < |rows| && j < |rows[r]|
    ensures Before(rows, r) + j < Before(rows, |rows|)
    ensures Reopened(w, offset, rows).Deref(Before(rows, r) + j) == Cell(rows[r][j])
  {
    hide Reopened, Storable, Before, Flat, Mapped.Deref;
    FlatAt(rows, r, j);
    FlatLength(rows);
    ElementRead(w, offset, rows, Before(rows, r) + j);
  }

  lemma BeforeNext(rows: Rows, r: nat)
    requires r < |rows|
    ensures Before(rows, r + 1) == Before(rows, r) + |rows[r]|
  {
  }

  /**
   A file written from offset 0: every element is read back by row and column, and beyond the data
   the reader answers with the dummy element.
   */
  lemma ZeroOffsetReads(w: Ui32, rows: Rows, r: nat, j: nat)
    requires Storable(w, 0, rows) && InRange(0, rows) && r < |rows|
    ensures var m := Reopened(w, 0, rows);
      && (j < |rows[r]| ==> m.GetAt(r, j) == Cell(rows[r][j]))
      && (Before(rows, r) + j >= Before(rows, |rows|) ==> m.GetAt(r, j) == Dummy)
      && m.GetBegin(r) == Element(Before(rows, r)) && m.GetEnd(r) == Element(Before(rows, r) + |rows[r]|)
  {
    hide Reopened, Storable, Before, InRange, Mapped.Deref, Mapped.Row;
    BeforeNext(rows, r);
    RowRead(w, 0, rows, r);
    if r + 1 < |rows| {
      RowRead(w, 0, rows, r + 1);
    }
    if j < |rows[r]| {
      ElementOfRow(w, 0, rows, r, j);
    }
  }

  /**
   A file written from offset -1: the pointer of a row is one before its first element, so column `j`
   is read at `j + 1`, and the pointer range of a row is its length except that the last row's is
   one longer.
   */
  lemma MinusOneReads(w: Ui32, rows: Rows, r: nat, j: nat)
    requires Storable(w, MINUS_ONE, rows) && InRange(MINUS_ONE, rows) && r < |rows|
    ensures var m := Reopened(w, MINUS_ONE, rows);
      && (j < |rows[r]| ==> m.Deref(m.Row(r) + j + 1) == Cell(rows[r][j]) && m.GetAt(r, j + 1) == Cell(rows[r][j]))
      && m.GetLength(r) == |rows[r]| && m.GetBegin(r).Element? && m.GetEnd(r).Element?
      && m.GetEnd(r).index - m.GetBegin(r).index == |rows[r]| + if r == |rows| - 1 then 1 else 0
  {
    hide Reopened, Storable, Before, InRange, Mapped.Deref, Mapped.Row, Mapped.GetLength;
    InRangeRight(w, MINUS_ONE, rows);
    BeforeNext(rows, r);
    RowRead(w, MINUS_ONE, rows, r);
    if r + 1 < |rows| {
      RowRead(w, MINUS_ONE, rows, r + 1);
    }
    if j < |rows[r]| {
      ElementOfRow(w, MINUS_ONE, rows, r, j);
    }
  }

  /** The header of the image: element size and number of rows. */
  lemma HeaderRead(w: Ui32, offset: Ui32, rows: Rows)
    requires |rows| < TWO_32
    ensures var data := Image(w, offset, rows);
      |data| >= 8 && FromLe32(data[..4]) == w && FromLe32(data[4..8]) == |rows|
  {
    var data := Image(w, offset, rows);
    ImageParts(w, offset, rows);
    assert data[..4] == Le32(w) by {
      hide Le32, Table, Bytes, Flat;
    }
    Le32RoundTrip(w);
    Le32RoundTrip(|rows|);
  }

  /** A remainder stays a remainder. */
  lemma Remainder(n: nat, w: nat, k: nat)
    requires w > 0 && k < w
    ensures (n * w + k) % w == k && (n * w + k) / w == n
  {
    var q, m := (n * w + k) / w, (n * w + k) % w;
    assert (n - q) * w == m - k;
    AtLeastOne(n - q, w);
  }

  /**
   A file whose data part is `n` elements and `k` bytes more is accepted exactly when there are no such bytes;
   the reader then counts `n` elements.
   */
  lemma AcceptsIff(data: seq<Byte>, w: nat, n: nat, k: nat)
    requires 8 <= |data| < TWO_64 && k < w && |data| == 8 + 4 * FromLe32(data[4..8]) + (n * w + k)
    ensures Accepts(data, w) <==> k == 0
    ensures Map(data, w).InFile() && Map(data, w).rows == FromLe32(data[4..8]) && Map(data, w).finish == n
  {
    hide FromLe32;
    Remainder(n, w, k);
    var size := n * w + k;
    assert size % TWO_64 == size;
  }

  /** A file shorter than its offset table has a size that wraps around. */
  lemma ShortFileIff(data: seq<Byte>, w: nat, missing: nat)
    requires |data| >= 8 && w > 0 && 0 < missing < TWO_64 && |data| + missing == 8 + 4 * FromLe32(data[4..8])
    ensures Accepts(data, w) <==> (TWO_64 - missing) % w == 0
  {
    hide FromLe32;
    var size: int := |data| - (8 + 4 * FromLe32(data[4..8]));
    assert size % TWO_64 == TWO_64 - missing;
  }

  /** Rows past the last: the dummy element, and null pointers. */
  lemma PastTheRows(m: Mapped, r: nat, j: nat)
    requires m.InFile() && r >= m.rows
    ensures m.GetAt(r, j) == Dummy && m.GetBegin(r) == m.GetEnd(r) == NullPointer
    ensures m.rows == 0 ==> m.GetLength(r) == 0
  {
  }
}
