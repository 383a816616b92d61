/**
 `FileMapped2DArray`: reading the image through pointers.

 A pointer to an element is an index relative to the first element, so that the pointer before the
 data is -1 and the end of the file is the number of elements in it.
 */
module Array2dReader {
  import opened Basics
  import opened Array2d

  /** The stored offset that stands for the pointer before the data. */
  const MINUS_ONE: Ui32 := 0xFFFF_FFFF

  /** What `GetAt` yields: an element's bytes, or the zero element. */
  datatype Cell = Cell(bytes: seq<Byte>) | Dummy

  datatype Pointer = NullPointer | Element(index: int)

  /** The fields of a mapped array: file contents, element size, row count, start and end of the data. */
  datatype Mapped = Mapped(data: seq<Byte>, w: nat, rows: nat, start: nat, finish: int) {

    /** The offset table lies in the file, as `InitSelf` takes for granted. */
    predicate InFile() {
      0 < w && start == 8 + 4 * rows <= |data|
    }

    function Offset(r: nat): Ui32
      requires InFile() && r < rows
    {
      FromLe32(data[8 + 4 * r..12 + 4 * r])
    }

    /** `operator[]`. */
    function Row(r: nat): int
      requires InFile() && r < rows
    {
      if Offset(r) == MINUS_ONE then -1 else Offset(r)
    }

    /** The element a pointer refers to, where it is inside the file. */
    function Deref(p: int): Cell
      requires InFile()
    {
      var a := start + p * w;
      if 0 <= a && a + w <= |data| then Cell(data[a..a + w]) else Dummy
    }

    function GetAt(r: nat, j: nat): Cell
      requires InFile()
    {
      if r >= rows then Dummy
      else if Row(r) + j >= finish then Dummy
      else Deref(Row(r) + j)
    }

    function GetBegin(r: nat): Pointer
      requires InFile()
    {
      if r >= rows then NullPointer else Element(Row(r))
    }

    function GetEnd(r: nat): Pointer
      requires InFile()
    {
      if r >= rows then NullPointer else Element(if r + 1 < rows then Row(r + 1) else finish)
    }

    function GetLength(r: nat): int
      requires InFile() && (rows > 0 ==> r < rows)
    {
      if rows == 0 then 0
      else if r + 1 < rows then Row(r + 1) - Row(r)
      else (if Offset(0) == MINUS_ONE then finish - 1 else finish) - Row(r)
    }
  }

  /** What `InitSelf` computes from the file; `finish` counts whole elements. */
  function Map(data: seq<Byte>, w: nat): (m: Mapped)
    requires |data| >= 8 && w > 0
  {
    var rows := FromLe32(data[4..8]);
    var start := 8 + 4 * rows;
    Mapped(data, w, rows, start, (|data| - start) / w)
  }

  /** The size check: the data part is a whole number of elements, in 64-bit unsigned arithmetic. */
  predicate Accepts(data: seq<Byte>, w: nat)
    requires |data| >= 8 && w > 0
  {
    (|data| - (8 + 4 * FromLe32(data[4..8]))) % TWO_64 % w == 0
  }

  class FileMapped2DArray {
    const w: nat
    var data: seq<Byte>
    var rows: nat
    var start: nat
    var finish: int

    constructor (w: nat)
      requires w > 0
      ensures this.w == w && View() == Mapped([], w, 0, 0, 0)
    {
      this.w := w;
      data, rows, start, finish := [], 0, 0, 0;
    }

    function View(): Mapped
      reads this
    {
      Mapped(data, w, rows, start, finish)
    }

    /** Sets the pointer fields from the mapped file, or clears them if the size does not fit. */
    method InitSelf(file: seq<Byte>) returns (ok: bool)
      requires w > 0 && |file| >= 8
      modifies this
      ensures ok == Accepts(file, w)
      ensures ok ==> View() == Map(file, w)
      ensures !ok ==> rows == 0 && start == 0 && finish == 0
    {
      data := file;
      rows := FromLe32(data[4..8]);
      start := 8 + 4 * rows;
      finish := (|data| - start) / w;
      if (|data| - start) % TWO_64 % w != 0 {
        data, rows, start, finish := [], 0, 0, 0;
        return false;
      }
      return true;
    }
  }
}
