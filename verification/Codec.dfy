/** How numbers, values and rows are laid out in bytes: `serialize_row` and `deserialize_row`. */
module Codec {
  import opened Rows

  // Little-endian numbers

  function Pow256(k: nat): nat { if k == 0 then 1 else 256 * Pow256(k - 1) }

  function LittleEndian(x: nat, k: nat): (b: seq<byte>)
    ensures |b| == k
  {
    if k == 0 then [] else [x % 256] + LittleEndian(x / 256, k - 1)
  }

  function FromLittleEndian(b: seq<byte>): nat {
    if b == [] then 0 else b[0] + 256 * FromLittleEndian(b[1..])
  }

  lemma {:induction false} LittleEndianRoundTrip(x: nat, k: nat)
    requires x < Pow256(k)
    ensures FromLittleEndian(LittleEndian(x, k)) == x
  {
    if k > 0 {
      var b := LittleEndian(x, k);
      assert b[1..] == LittleEndian(x / 256, k - 1);
      LittleEndianRoundTrip(x / 256, k - 1);
    }
  }

  lemma QuotientIs(x: nat, d: nat, q: nat, r: nat)
    requires x == d * q + r && r < d
    ensures x / d == q
  {
    MultipleStep(d, x / d, q);
    MultipleStep(d, q, x / d);
  }

  lemma {:induction false} MultipleStep(d: nat, a: nat, b: nat)
    ensures a < b ==> d * a + d <= d * b
  {
    if a < b {
      MultipleStep(d, a, b - 1);
      assert d * b == d * (b - 1) + d;
    }
  }

  lemma DivideTwice(x: nat, b: nat)
    requires 0 < b
    ensures x / (256 * b) == x / 256 / b
  {
    var q, q2 := x / 256, x / 256 / b;
    assert q == b * q2 + q % b;
    QuotientIs(x, 256 * b, q2, 256 * (q % b) + x % 256);
  }

  /** Byte i of a number is its i-th digit to the base 256, the lowest first. */
  lemma {:induction false} LittleEndianDigit(x: nat, k: nat, i: nat)
    requires i < k
    ensures Pow256(i) > 0 && LittleEndian(x, k)[i] == x / Pow256(i) % 256
  {
    if i > 0 {
      LittleEndianDigit(x / 256, k - 1, i - 1);
      DivideTwice(x, Pow256(i - 1));
    }
  }

  lemma {:induction false} FromLittleEndianBound(b: seq<byte>)
    ensures FromLittleEndian(b) < Pow256(|b|)
  {
    if b != [] {
      FromLittleEndianBound(b[1..]);
    }
  }

  const UINT32_SIZE: nat := 4

  function Uint32(x: nat): (b: seq<byte>)
    ensures |b| == UINT32_SIZE
  {
    LittleEndian(x, UINT32_SIZE)
  }

  /** An int64 as its two's-complement bytes. */
  function KeyBytes(k: Key): (b: seq<byte>)
    ensures |b| == 8
  {
    LittleEndian(if k < 0 then k + 0x1_0000_0000_0000_0000 else k, KEY_SIZE)
  }

  function KeyFrom(b: seq<byte>): Key
    requires |b| == 8
  {
    FromLittleEndianBound(b);
    assert Pow256(8) == 0x1_0000_0000_0000_0000 by { assert Pow256(4) == 0x1_0000_0000; }
    var x := FromLittleEndian(b);
    if x >= KEY_END then x - 0x1_0000_0000_0000_0000 else x
  }

  lemma KeyRoundTrip(k: Key)
    ensures KeyFrom(KeyBytes(k)) == k
  {
    assert Pow256(8) == 0x1_0000_0000_0000_0000 by { assert Pow256(4) == 0x1_0000_0000; }
    LittleEndianRoundTrip(if k < 0 then k + 0x1_0000_0000_0000_0000 else k, 8);
  }

  // Rows

  function ValueBytes(v: Value): seq<byte> {
    match v
    case IntVal(i) => KeyBytes(i)
    case TextVal(t) => t
    case BoolVal(f) => [if f then 1 else 0]
  }

  function RowBytes(row: Row): seq<byte> {
    if row == [] then [] else RowBytes(row[..|row| - 1]) + ValueBytes(row[|row| - 1])
  }

  function ValueFrom(kind: ColumnType, b: seq<byte>): Value
    requires |b| == ColumnWidth(kind)
  {
    match kind
    case INTEGER => IntVal(KeyFrom(b))
    case TEXT => TextVal(b)
    case BOOLEAN => BoolVal(b[0] != 0)
  }

  function RowFromBytes(columns: seq<Column>, b: seq<byte>): Row
    requires |b| == RowSize(columns)
  {
    if columns == [] then []
    else
      var front := columns[..|columns| - 1];
      RowFromBytes(front, b[..RowSize(front)]) + [ValueFrom(columns[|columns| - 1].kind, b[RowSize(front)..])]
  }

  lemma ValueRoundTrip(kind: ColumnType, v: Value)
    requires ValueHasType(v, kind)
    ensures |ValueBytes(v)| == ColumnWidth(kind) && ValueFrom(kind, ValueBytes(v)) == v
  {
    if v.IntVal? {
      KeyRoundTrip(v.integer);
    }
  }

  lemma LastColumn(columns: seq<Column>, front: seq<byte>, value: seq<byte>)
    requires columns != []
    requires |front| == RowSize(columns[..|columns| - 1]) && |value| == ColumnWidth(columns[|columns| - 1].kind)
    ensures |front + value| == RowSize(columns)
    ensures RowFromBytes(columns, front + value)
         == RowFromBytes(columns[..|columns| - 1], front) + [ValueFrom(columns[|columns| - 1].kind, value)]
  {
    assert (front + value)[..|front|] == front && (front + value)[|front|..] == value;
  }

  /** A row takes exactly the bytes its schema allots and reads back unchanged. */
  lemma {:induction false} RowRoundTrip(columns: seq<Column>, row: Row)
    requires RowHasTypes(columns, row)
    ensures |RowBytes(row)| == RowSize(columns)
    ensures RowFromBytes(columns, RowBytes(row)) == row
    decreases |row|
  {
    if row != [] {
      var last := |row| - 1;
      RowRoundTrip(columns[..last], row[..last]);
      ValueRoundTrip(columns[last].kind, row[last]);
      LastColumn(columns, RowBytes(row[..last]), ValueBytes(row[last]));
      FrontAndLast(row);
    }
  }

  lemma FrontAndLast(row: Row)
    requires row != []
    ensures row == row[..|row| - 1] + [row[|row| - 1]]
  {
  }

  /** `serialize_row`: append value after value at a running offset. */
  method SerializeRow(row: Row) returns (b: seq<byte>)
    ensures b == RowBytes(row)
  {
    b := [];
    var i := 0;
    while i < |row|
      invariant i <= |row| && b == RowBytes(row[..i])
    {
      assert row[..i + 1][..i] == row[..i];
      b := b + ValueBytes(row[i]);
      i := i + 1;
    }
    assert row[..i] == row;
  }

  lemma {:induction false} RowSizePrefix(columns: seq<Column>, i: nat)
    requires i <= |columns|
    ensures RowSize(columns[..i]) <= RowSize(columns)
    decreases |columns|
  {
    if i < |columns| {
      var front := columns[..|columns| - 1];
      RowSizePrefix(front, i);
      assert front[..i] == columns[..i];
    } else {
      assert columns[..i] == columns;
    }
  }

  lemma {:induction false} RowBytesAround(row: Row, i: nat) returns (rest: seq<byte>)
    requires i < |row|
    ensures RowBytes(row) == RowBytes(row[..i]) + ValueBytes(row[i]) + rest
    decreases |row|
  {
    var last := |row| - 1;
    rest := [];
    if i < last {
      rest := RowBytesAround(row[..last], i);
      assert row[..last][..i] == row[..i];
      Regroup(RowBytes(row[..i]) + ValueBytes(row[i]), rest, ValueBytes(row[last]));
      rest := rest + ValueBytes(row[last]);
    }
  }

  lemma Regroup(a: seq<byte>, b: seq<byte>, c: seq<byte>)
    ensures a + b + c == a + (b + c)
  {
  }

  lemma Middle(a: seq<byte>, v: seq<byte>, rest: seq<byte>)
    ensures (a + v + rest)[|a|..|a| + |v|] == v
  {
  }

  /** Column i of a row lies behind those before it: a number in its eight bytes, a text in all of its buffer, a flag as
      1 or 0. */
  lemma RowLayout(columns: seq<Column>, row: Row, i: nat)
    requires RowHasTypes(columns, row) && i < |row|
    ensures var at := RowSize(columns[..i]);
            at + ColumnWidth(columns[i].kind) <= |RowBytes(row)| &&
            var b := RowBytes(row)[at..at + ColumnWidth(columns[i].kind)];
            match row[i]
            case IntVal(n) => b == KeyBytes(n)
            case TextVal(t) => b == t
            case BoolVal(f) => b == [if f then 1 else 0]
  {
    var rest := RowBytesAround(row, i);
    RowRoundTrip(columns[..i], row[..i]);
    ValueRoundTrip(columns[i].kind, row[i]);
    Middle(RowBytes(row[..i]), ValueBytes(row[i]), rest);
  }

  /** `deserialize_row`: read column after column at a running offset. */
  method DeserializeRow(columns: seq<Column>, b: seq<byte>) returns (row: Row)
    requires |b| == RowSize(columns)
    ensures row == RowFromBytes(columns, b)
  {
    row := [];
    var i, offset := 0, 0;
    while i < |columns|
      invariant i <= |columns| && offset == RowSize(columns[..i]) <= |b|
      invariant row == RowFromBytes(columns[..i], b[..offset])
    {
      var width := ColumnWidth(columns[i].kind);
      assert columns[..i + 1][..i] == columns[..i];
      RowSizePrefix(columns, i + 1);
      assert b[..offset + width][..offset] == b[..offset];
      assert b[..offset + width][offset..] == b[offset..offset + width];
      row := row + [ValueFrom(columns[i].kind, b[offset..offset + width])];
      offset := offset + width;
      i := i + 1;
    }
    assert columns[..i] == columns;
    assert b[..offset] == b;
  }
}
