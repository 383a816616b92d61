/**
 `TFile2DArrayWriter`: one pass over the rows, two files, and a header written at the end.
 */
module Array2dWriter {
  import opened Array2d

  /** Writing bytes at a position of a file; a gap before it reads as zeros. */
  function WriteAt(file: seq<Byte>, pos: nat, bytes: seq<Byte>): (f: seq<Byte>) {
    var padded := if pos <= |file| then file else file + seq(pos - |file|, _ => 0);
    padded[..pos] + bytes + if pos + |bytes| <= |padded| then padded[pos + |bytes|..] else []
  }

  lemma WriteGap(bytes: seq<Byte>)
    ensures |WriteAt([], 8, bytes)| == 8 + |bytes| && WriteAt([], 8, bytes)[8..] == bytes
  {
  }

  lemma WriteEnd(file: seq<Byte>, bytes: seq<Byte>)
    ensures WriteAt(file, |file|, bytes) == file + bytes
  {
  }

  lemma WriteHeader(file: seq<Byte>, a: seq<Byte>, b: seq<Byte>)
    requires |file| >= 8 && |a| == |b| == 4
    ensures WriteAt(WriteAt(file, 0, a), 4, b) == a + b + file[8..]
  {
    assert WriteAt(file, 0, a) == a + file[4..];
  }

  /** The rows after one more element in the last of them. */
  function Extended(rows: Rows, t: seq<Byte>): (more: Rows)
    requires rows != []
    ensures |more| == |rows|
  {
    rows[..|rows| - 1] + [rows[|rows| - 1] + [t]]
  }

  /** The offset table depends only on where the rows begin. */
  lemma {:induction false} SameTable(offset: Ui32, a: Rows, b: Rows, n: nat)
    requires n <= |a| && n <= |b| && forall r :: 0 <= r < n ==> Before(a, r) == Before(b, r)
    ensures Table(offset, a, n) == Table(offset, b, n)
  {
    if n > 0 {
      SameTable(offset, a, b, n - 1);
    }
  }

  lemma BeforeAppend(rows: Rows, row: seq<seq<Byte>>)
    ensures forall r :: 0 <= r <= |rows| ==> Before(rows + [row], r) == Before(rows, r)
  {
    forall r | 0 <= r <= |rows|
      ensures Before(rows + [row], r) == Before(rows, r)
    {
      BeforePrefix(rows + [row], |rows|, r);
      assert (rows + [row])[..|rows|] == rows;
    }
  }

  /** Beginning a row adds one offset and no data. */
  lemma AfterNewLine(offset: Ui32, rows: Rows)
    ensures var more := rows + [[]];
      && Table(offset, more, |more|) == Table(offset, rows, |rows|) + Le32(Stored(offset, rows, |rows|))
      && Flat(more) == Flat(rows) && Stored(offset, more, |more|) == Stored(offset, rows, |rows|)
  {
    var n := |rows|;
    var more := rows + [[]];
    BeforeAppend(rows, []);
    assert more[..n] == rows;
    assert Before(more, n + 1) == Before(more, n);
    hide Before, Le32;
    SameTable(offset, rows, more, n);
  }

  /** Only what comes after the last row moves on. */
  lemma ExtendedBefore(rows: Rows, t: seq<Byte>, r: nat)
    requires rows != [] && r <= |rows|
    ensures Before(Extended(rows, t), r) == Before(rows, r) + if r == |rows| then 1 else 0
  {
    var m := |rows| - 1;
    var init, more := rows[..m], Extended(rows, t);
    var q := if r <= m then r else m;
    assert Before(more, q) == Before(rows, q) by {
      assert more[..m] == init;
      BeforePrefix(rows, m, q);
      BeforePrefix(more, m, q);
    }
  }

  lemma ExtendedFlat(rows: Rows, t: seq<Byte>)
    requires rows != []
    ensures Flat(Extended(rows, t)) == Flat(rows) + [t]
  {
    var m := |rows| - 1;
    var init, last := Flat(rows[..m]), rows[m];
    assert Extended(rows, t)[..m] == rows[..m];
    assert init + (last + [t]) == (init + last) + [t];
  }

  /** Writing an element adds it to the data, leaves the offsets alone and counts it. */
  lemma AfterWrite(offset: Ui32, rows: Rows, t: seq<Byte>)
    requires rows != []
    ensures var more := Extended(rows, t);
      && Table(offset, more, |more|) == Table(offset, rows, |rows|)
      && Flat(more) == Flat(rows) + [t] && Stored(offset, more, |more|) == Wrap(Stored(offset, rows, |rows|) + 1)
  {
    var more, n := Extended(rows, t), |rows|;
    ExtendedFlat(rows, t);
    ExtendedBefore(rows, t, n);
    WrapNext(offset + Before(rows, n));
    hide Before, Flat, Extended, Wrap;
    forall r | 0 <= r < n
      ensures Before(more, r) == Before(rows, r)
    {
      ExtendedBefore(rows, t, r);
    }
    SameTable(offset, more, rows, n);
  }

  lemma BytesSnoc(e: seq<seq<Byte>>, t: seq<Byte>)
    ensures Bytes(e + [t]) == Bytes(e) + t
  {
    assert (e + [t])[..|e|] == e;
  }

  /** What one empty row looks like. */
  lemma FirstRow(offset: Ui32)
    ensures var rows: Rows := [[]];
      && Table(offset, rows, 1) == Le32(Stored(offset, rows, 0)) && Bytes(Flat(rows)) == []
      && Stored(offset, rows, 0) == Stored(offset, rows, 1) == offset
  {
    var rows: Rows := [[]];
    assert Before(rows, 0) == 0 && Before(rows, 1) == 0;
    assert Flat(rows[..0]) == [] && Flat(rows) == [];
    assert Table(offset, rows, 0) == [];
  }

  class TFile2DArrayWriter {
    const w: Ui32
    ghost const offset: Ui32
    ghost var rows: Rows

    var result: seq<Byte>
    var pos: nat
    var data: seq<Byte>
    var currentLineNumber: Ui32
    var currentOffset: Ui32

    /** The files hold the rows written so far; the header is still a gap. */
    ghost predicate Valid()
      reads this
    {
      && rows != [] && |result| == 8 + 4 * |rows| && result[8..] == Table(offset, rows, |rows|)
      && pos == |result| && data == Bytes(Flat(rows))
      && currentLineNumber == Wrap(|rows| - 1)
      && currentOffset == Stored(offset, rows, |rows|)
    }

    constructor (w: Ui32, start: int)
      ensures this.w == w && offset == Wrap(start) && rows == [[]] && Valid()
    {
      FirstRow(Wrap(start));
      WriteGap(Le32(Wrap(start)));
      assert Wrap(0) == 0;
      hide Wrap, Table, Bytes, Flat, Stored, Le32, WriteAt;
      this.w := w;
      offset := Wrap(start);
      rows := [[]];
      currentLineNumber := 0;
      currentOffset := Wrap(start);
      data := [];
      result := WriteAt([], 8, Le32(Wrap(start)));
      pos := 12;
    }

    method NewLine()
      requires Valid()
      modifies this
      ensures Valid() && rows == old(rows) + [[]]
    {
      hide Table, Bytes, Flat, Stored, Le32, WriteAt, Wrap;
      AfterNewLine(offset, rows);
      WriteEnd(result, Le32(currentOffset));
      WrapNext(|rows| - 1);
      result := WriteAt(result, pos, Le32(currentOffset));
      assert result[8..] == old(result)[8..] + Le32(currentOffset);
      pos := pos + 4;
      rows := rows + [[]];
      currentLineNumber := Wrap(currentLineNumber + 1);
    }

    method Write(t: seq<Byte>)
      requires Valid() && |t| == w
      modifies this
      ensures Valid() && rows == Extended(old(rows), t)
    {
      hide Table, Flat, Stored, Wrap, Extended;
      AfterWrite(offset, rows, t);
      BytesSnoc(Flat(rows), t);
      hide Bytes;
      data := data + t;
      rows := Extended(rows, t);
      currentOffset := Wrap(currentOffset + 1);
    }

    /** Writes the header over the gap and appends the data; the result file is the image of the rows. */
    method Finish() returns (image: seq<Byte>)
      requires Valid()
      modifies this
      ensures image == Image(w, offset, old(rows)) && rows == old(rows)
    {
      hide Table, Bytes, Flat, Stored, Le32, WriteAt, Wrap;
      WriteHeader(result, Le32(w), Le32(Wrap(currentLineNumber + 1)));
      WrapNext(|rows| - 1);
      pos := 0;
      result := WriteAt(result, pos, Le32(w));
      pos := pos + 4;
      result := WriteAt(result, pos, Le32(Wrap(currentLineNumber + 1)));
      pos := pos + 4;
      image := result + data;
    }
  }

  /** A whole run: any list of rows, written from any start offset, becomes its image. */
  method Save(w: Ui32, start: int, rows: Rows) returns (image: seq<Byte>)
    requires rows != [] && forall r :: 0 <= r < |rows| ==> Sized(w, rows[r])
    ensures image == Image(w, Wrap(start), rows)
  {
    hide Image, TFile2DArrayWriter.Valid, Wrap;
    var writer := new TFile2DArrayWriter(w, start);
    for r := 0 to |rows|
      invariant writer.Valid() && fresh(writer) && writer.w == w && writer.offset == Wrap(start)
      invariant writer.rows == rows[..r] + if r < |rows| then [[]] else []
    {
      for j := 0 to |rows[r]|
        invariant writer.Valid() && fresh(writer) && writer.w == w && writer.offset == Wrap(start)
        invariant writer.rows == rows[..r] + [rows[r][..j]]
      {
        writer.Write(rows[r][j]);
        assert rows[r][..j] + [rows[r][j]] == rows[r][..j + 1];
      }
      assert rows[r][..|rows[r]|] == rows[r] && rows[..r] + [rows[r]] == rows[..r + 1];
      if r + 1 < |rows| {
        writer.NewLine();
      }
    }
    assert rows[..|rows|] + [] == rows;
    image := writer.Finish();
  }
}
