/** The rows of a dataset file, src/core/cwDataSets.cpp: the writer collects one value for each column
    and appends them as a record; the reader finds the columns again in the record's bytes. A column
    has dimensions, of which those declared zero vary from row to row and stand in the record. */
module RowCodec {
  import opened Bytes
  import RecordCache

  datatype ElementType = Untyped | Int32 | Float32 | Float64

  function ElementSize(t: ElementType): nat {
    match t
    case Untyped => 0
    case Float64 => 8
    case _ => 4
  }

  /** A column of the writer: its declaration, and the value and dimensions to write next. */
  datatype Column = Column(
    id: nat,
    dimV: seq<u32>,        // declared dimensions; zero where they vary
    maxDimV: seq<u32>,
    curDimV: seq<u32>,
    typ: ElementType,
    cur: seq<byte>)

  /** A column of the reader: where its value stands in the current record. */
  datatype Field = Field(
    dimV: seq<u32>,
    varDimIdxV: seq<nat>,  // the dimensions that vary
    typ: ElementType,
    eleN: u32,
    byteN: u32,
    byteOffset: nat)

  // ----------------------------------------------------------------- dimensions

  /** The number of elements that the first k dimensions span, in 32 bits. */
  function Elements(d: seq<u32>, k: nat): u32
    requires k <= |d|
  {
    if k == 0 then 1 else Mul32(Elements(d, k - 1), d[k - 1])
  }

  /** How many of the first k dimensions vary. */
  function VarCount(d: seq<u32>, k: nat): (n: nat)
    requires k <= |d|
    ensures n <= k
  {
    if k == 0 then 0 else VarCount(d, k - 1) + if d[k - 1] == 0 then 1 else 0
  }

  function VarDimN(d: seq<u32>): nat { VarCount(d, |d|) }

  /** The indexes of those. */
  function VarIdx(d: seq<u32>, k: nat): (s: seq<nat>)
    requires k <= |d|
    ensures |s| == VarCount(d, k) && forall i :: 0 <= i < |s| ==> s[i] < k
  {
    if k == 0 then [] else VarIdx(d, k - 1) + if d[k - 1] == 0 then [k - 1] else []
  }

  /** The bytes that the varying ones among the first k dimensions take in a record. */
  function DimBytes(d: seq<u32>, cur: seq<u32>, k: nat): (s: seq<byte>)
    requires k <= |d| == |cur|
    ensures |s| == 4 * VarCount(d, k)
  {
    if k == 0 then [] else DimBytes(d, cur, k - 1) + if d[k - 1] == 0 then PutU32(cur[k - 1]) else []
  }

  // ----------------------------------------------------------------- the record of a row

  predicate WellFormed(c: Column) { |c.dimV| == |c.maxDimV| == |c.curDimV| }

  function ColumnBytes(c: Column): (s: seq<byte>)
    requires WellFormed(c)
    ensures |s| == 4 * VarDimN(c.dimV) + |c.cur|
  {
    DimBytes(c.dimV, c.curDimV, |c.dimV|) + c.cur
  }

  predicate AllWellFormed(cols: seq<Column>) { forall i :: 0 <= i < |cols| ==> WellFormed(cols[i]) }

  /** The record body that the first n columns make. */
  function Body(cols: seq<Column>, n: nat): seq<byte>
    requires n <= |cols| && AllWellFormed(cols)
  {
    if n == 0 then [] else Body(cols, n - 1) + ColumnBytes(cols[n - 1])
  }

  // ----------------------------------------------------------------- the writer

  /** The value to write next fills its dimensions. */
  predicate Complete(c: Column) {
    && WellFormed(c) && |c.cur| == Mul32(Elements(c.curDimV, |c.curDimV|), ElementSize(c.typ))
    && (VarDimN(c.dimV) == 0 ==> c.curDimV == c.dimV)
  }

  /** The first column with the id, or the number of columns. */
  function Find(cols: seq<Column>, id: nat): (i: nat)
    ensures i <= |cols| && (i < |cols| ==> cols[i].id == id)
    ensures forall j :: 0 <= j < i ==> cols[j].id != id
  {
    if cols == [] then 0 else if cols[0].id == id then 0 else
      var i := Find(cols[1..], id);
      assert forall j :: 1 <= j < i + 1 ==> cols[j] == cols[1..][j - 1];
      i + 1
  }

  /** The larger of each two dimensions. */
  function MaxDims(a: seq<u32>, b: seq<u32>): (m: seq<u32>)
    requires |a| <= |b|
    ensures |m| == |a| && forall i :: 0 <= i < |a| ==> m[i] >= a[i] && m[i] >= b[i] && (m[i] == a[i] || m[i] == b[i])
  {
    seq(|a|, i requires 0 <= i < |a| => if a[i] < b[i] then b[i] else a[i])
  }

  /** A value of eleN elements has the size its column or its dimensions ask for. */
  predicate SizeFits(c: Column, eleN: u32, dims: seq<u32>)
    requires WellFormed(c) && (VarDimN(c.dimV) > 0 ==> |c.dimV| <= |dims|)
  {
    if VarDimN(c.dimV) == 0 then eleN == Elements(c.dimV, |c.dimV|) else eleN == Elements(dims, |c.dimV|)
  }

  /** The column with the dimensions of a new value, which are stored before anything is checked. */
  function WithDims(c: Column, dims: seq<u32>): Column
    requires WellFormed(c) && (VarDimN(c.dimV) > 0 ==> |c.dimV| <= |dims|)
  {
    if VarDimN(c.dimV) == 0 then c
    else c.(maxDimV := MaxDims(c.maxDimV, dims), curDimV := dims[..|c.dimV|])
  }

  /** The dimensions of a value are kept, and the largest so far. */
  predicate HasDims(d: Column, c: Column, dims: seq<u32>) {
    && |d.curDimV| == |d.maxDimV| == |c.maxDimV| <= |dims|
    && forall k :: 0 <= k < |d.curDimV| ==>
         && d.curDimV[k] == dims[k] && d.maxDimV[k] == if c.maxDimV[k] < dims[k] then dims[k] else c.maxDimV[k]
  }

  ghost predicate AreRecords(rows: seq<seq<byte>>, file: seq<byte>) {
    (forall i :: 0 <= i < |rows| ==> |rows[i]| < 0x1_0000_0000) && file == RecordCache.Encode(rows, 0)
  }

  lemma RecordsAppend(rows: seq<seq<byte>>, file: seq<byte>, body: seq<byte>)
    requires AreRecords(rows, file) && |body| < 0x1_0000_0000
    ensures AreRecords(rows + [body], file + PutU32(Wrap32(|body|)) + body)
  {
    RecordCache.EncodeAppend(rows, body, 0);
    assert Wrap32(|body|) == |body|;
    Assoc(file, PutU32(|body|), body);
  }

  /** The columns of a row are declared as these are, and of the same type. */
  predicate SameShape(cols: seq<Column>, row: seq<Column>) {
    |cols| == |row| && forall i :: 0 <= i < |cols| ==> cols[i].dimV == row[i].dimV && cols[i].typ == row[i].typ
  }

  predicate AllShaped(cols: seq<Column>, values: seq<seq<Column>>) {
    forall k :: 0 <= k < |values| ==> SameShape(cols, values[k])
  }

  /** The rows are the record bodies of these values. */
  predicate AreBodies(values: seq<seq<Column>>, rows: seq<seq<byte>>) {
    && |values| == |rows|
    && forall k :: 0 <= k < |rows| ==>
         AllWellFormed(values[k]) && AllHeaderFit(values[k]) && rows[k] == Body(values[k], |values[k]|)
  }

  /** A column of the same declaration, and of the same type if there are rows, keeps what holds of all. */
  lemma ColumnStored(cols: seq<Column>, values: seq<seq<Column>>, i: nat, c: Column)
    requires AllWellFormed(cols) && AllHeaderFit(cols) && i < |cols| && HeaderFits(c) && c.dimV == cols[i].dimV
    ensures AllWellFormed(cols[i := c]) && AllHeaderFit(cols[i := c])
    ensures (c.typ == cols[i].typ || values == []) && AllShaped(cols, values) ==>
              AllShaped(cols[i := c], values) == true
  {
  }

  class Writer {
    var columns: seq<Column>
    var recordN: nat
    var file: seq<byte>                  // what follows the file's header
    ghost var rows: seq<seq<byte>>       // the bodies of the records written
    ghost var values: seq<seq<Column>>   // the columns that each was made of

    ghost predicate Valid()
      reads this
    {
      AllWellFormed(columns) && AllHeaderFit(columns) && recordN == |rows| && AreBodies(values, rows) == true
    }

    /** Every row was written with the columns as they are declared now. */
    ghost predicate Shaped()
      reads this
    {
      AllShaped(columns, values) == true
    }

    /** The file is the list of the rows' records. */
    ghost predicate HoldsRows()
      reads this`file, this`rows
    {
      AreRecords(rows, file)
    }

    constructor ()
      ensures Valid() && HoldsRows() && Shaped() && columns == [] && rows == []
    {
      columns, recordN, file, rows, values := [], 0, [], [], [];
    }

    method DefineColumn(id: nat, dimV: seq<u32>)
      requires Valid()
      modifies this`columns
      ensures Valid() && columns == old(columns) + [Column(id, dimV, dimV, dimV, Untyped, [])]
      ensures recordN == 0 ==> Shaped()
    {
      columns := columns + [Column(id, dimV, dimV, dimV, Untyped, [])];
    }

    /** Takes the next value of a column. */
    method WriteColumn(id: nat, eleN: u32, dims: seq<u32>, data: seq<byte>, typ: ElementType) returns (ok: bool)
      requires Valid() && typ != Untyped && |data| == eleN * if typ == Float64 then 8 else 4
      requires var i := Find(columns, id);
               i < |columns| && VarDimN(columns[i].dimV) > 0 ==> |columns[i].dimV| <= |dims|
      modifies this`columns
      ensures Valid() && (old(Shaped()) ==> Shaped())
      ensures var i := Find(old(columns), id);
              if i == |old(columns)| then !ok && columns == old(columns)
              else
                var c := old(columns)[i];
                var d := WithDims(c, dims);
                && (ok <==> SizeFits(c, eleN, dims) && (recordN == 0 || c.typ == typ))
                && columns == old(columns)[i := if ok then d.(typ := typ, cur := data[..Wrap32(|data|)]) else d]
      ensures var i := Find(old(columns), id);
              i < |old(columns)| && VarDimN(old(columns)[i].dimV) > 0 ==>
                HasDims(columns[i], old(columns)[i], dims)
    {
      var i := 0;
      while i < |columns| && columns[i].id != id
        invariant i <= |columns| && forall j :: 0 <= j < i ==> columns[j].id != id
        modifies {}
      {
        i := i + 1;
      }
      if i == |columns| { return false; }
      var c := columns[i];
      if VarDimN(c.dimV) == 0 {
        if eleN != Elements(c.dimV, |c.dimV|) { return false; }
      } else {
        var n;
        n, c := NextDims(c, dims);
        ColumnStored(columns, values, i, c);
        columns := columns[i := c];
        if n != eleN { return false; }
      }
      if recordN != 0 && c.typ != typ { return false; }
      c := c.(typ := typ, cur := data[..Wrap32(|data|)]);
      ColumnStored(columns, values, i, c);
      columns := columns[i := c];
      ok := true;
    }

    /** Stores the dimensions of a new value, and says how many elements they span. */
    method NextDims(c: Column, dims: seq<u32>) returns (n: u32, d: Column)
      requires WellFormed(c) && VarDimN(c.dimV) > 0 && |c.dimV| <= |dims|
      ensures n == Elements(dims, |c.dimV|) && d == WithDims(c, dims)
    {
      var maxDimV: seq<u32>;
      n, maxDimV := 1, [];
      for k := 0 to |c.dimV|
        invariant n == Elements(dims, k) && |maxDimV| == k
        invariant forall j :: 0 <= j < k ==> maxDimV[j] == MaxDims(c.maxDimV, dims)[j]
      {
        n := Times32(n, dims[k]);
        maxDimV := maxDimV + [if c.maxDimV[k] < dims[k] then dims[k] else c.maxDimV[k]];
      }
      d := c.(maxDimV := maxDimV, curDimV := dims[..|c.dimV|]);
      assert maxDimV == MaxDims(c.maxDimV, dims);
    }

    /** Appends the row as a record: the length of its body, then for each column its varying
        dimensions and its value. */
    method WriteRecord()
      requires Valid()
      modifies this`file, this`recordN, this`rows, this`values
      ensures Valid() && values == old(values) + [columns] && (old(Shaped()) ==> Shaped())
      ensures var body := Body(columns, |columns|);
              && file == old(file) + PutU32(Wrap32(|body|)) + body
              && rows == old(rows) + [body] && recordN == old(recordN) + 1
              && (old(HoldsRows()) && |body| < 0x1_0000_0000 ==> HoldsRows() == true)
    {
      var rowByteN := RowByteN();
      ghost var body := Body(columns, |columns|);
      file := file + PutU32(rowByteN);
      WriteBody();
      rows, values := rows + [body], values + [columns];
      recordN := recordN + 1;
      if old(HoldsRows()) && |body| < 0x1_0000_0000 { RecordsAppend(old(rows), old(file), body); }
    }

    method RowByteN() returns (rowByteN: u32)
      requires Valid()
      ensures rowByteN == Wrap32(|Body(columns, |columns|)|)
    {
      rowByteN := 0;
      for i := 0 to |columns|
        invariant rowByteN == Wrap32(|Body(columns, i)|)
      {
        var n := 4 * VarDimN(columns[i].dimV) + |columns[i].cur|;
        WrapAdd(|Body(columns, i)|, n);
        rowByteN := Wrap32(rowByteN as int + n);
      }
    }

    method WriteBody()
      requires Valid()
      modifies this`file
      ensures file == old(file) + Body(columns, |columns|)
    {
      ghost var start := file;
      for i := 0 to |columns|
        invariant file == start + Body(columns, i)
        modifies this`file
      {
        WriteValue(columns[i]);
        assert start + Body(columns, i) + ColumnBytes(columns[i]) == start + Body(columns, i + 1);
      }
    }

    method WriteValue(c: Column)
      requires WellFormed(c)
      modifies this`file
      ensures file == old(file) + ColumnBytes(c)
    {
      ghost var start := file;
      for k := 0 to |c.dimV|
        invariant file == start + DimBytes(c.dimV, c.curDimV, k)
        modifies this`file
      {
        if c.dimV[k] == 0 { file := file + PutU32(c.curDimV[k]); }
      }
      file := file + c.cur;
    }
  }

  lemma {:induction false} ElementsOfPrefix(d: seq<u32>, e: seq<u32>, k: nat)
    requires k <= |d| && k <= |e| && d[..k] == e[..k]
    ensures Elements(d, k) == Elements(e, k)
  {
    if k > 0 {
      assert d[..k - 1] == d[..k][..k - 1] == e[..k][..k - 1] == e[..k - 1];
      assert d[k - 1] == d[..k][k - 1] == e[..k][k - 1];
      ElementsOfPrefix(d, e, k - 1);
    }
  }

  /** A value that the writer accepts fills its dimensions, whatever the column held before. */
  lemma AcceptedIsComplete(c: Column, eleN: u32, dims: seq<u32>, data: seq<byte>, typ: ElementType)
    requires WellFormed(c) && (VarDimN(c.dimV) > 0 ==> |c.dimV| <= |dims|)
    requires VarDimN(c.dimV) == 0 ==> c.curDimV == c.dimV
    requires SizeFits(c, eleN, dims)
    requires |data| == eleN * if typ == Untyped then 0 else if typ == Float64 then 8 else 4
    ensures Complete(WithDims(c, dims).(typ := typ, cur := data[..Wrap32(|data|)]))
  {
    Mul32Is(eleN, ElementSize(typ));
    if VarDimN(c.dimV) > 0 { ElementsOfPrefix(dims, dims[..|c.dimV|], |c.dimV|); }
  }

  // ----------------------------------------------------------------- the reader

  /** The reader's element count: a column without dimensions has none. */
  function ReadElements(d: seq<u32>, k: nat): u32
    requires k <= |d|
  {
    if |d| == 0 then 0 else Elements(d, k)
  }

  /** The dimensions of a column with those that vary taken from b at offset off. */
  function DimsAt(d: seq<u32>, b: seq<byte>, off: nat, k: nat): (s: seq<u32>)
    requires k <= |d| && off + 4 * VarCount(d, k) <= |b|
    ensures |s| == k
  {
    if k == 0 then []
    else DimsAt(d, b, off, k - 1) + [if d[k - 1] == 0 then GetU32(b, off + 4 * VarCount(d, k - 1)) else d[k - 1]]
  }

  /** The column, declared with dimensions d, as a record that starts it at offset off of b gives it. */
  function FieldAt(d: seq<u32>, typ: ElementType, b: seq<byte>, off: nat): Field
    requires off + 4 * VarDimN(d) <= |b|
  {
    var dims := DimsAt(d, b, off, |d|);
    var eleN := ReadElements(dims, |d|);
    Field(dims, VarIdx(d, |d|), typ, eleN, Mul32(eleN, ElementSize(typ)), off + 4 * VarDimN(d))
  }

  /** The offset at which the reader looks for the next column. */
  function Behind(d: seq<u32>, typ: ElementType, b: seq<byte>, off: nat): (n: nat)
    requires off + 4 * VarDimN(d) <= |b|
    ensures n >= off
  {
    var f := FieldAt(d, typ, b, off);
    f.byteOffset + f.byteN
  }

  /** The offset at which column n starts, or the length of b and more when the dimensions of an
      earlier one lie outside b. */
  function StartOf(cols: seq<Column>, b: seq<byte>, n: nat): nat
    requires n <= |cols|
  {
    if n == 0 then 0 else
      var off, d := StartOf(cols, b, n - 1), cols[n - 1].dimV;
      if off + 4 * VarDimN(d) <= |b| then Behind(d, cols[n - 1].typ, b, off) else off + 4 * VarDimN(d)
  }

  /** All varying dimensions are where the reader looks for them. */
  predicate DimsInside(cols: seq<Column>, b: seq<byte>) {
    forall i :: 0 <= i < |cols| ==> StartOf(cols, b, i) + 4 * VarDimN(cols[i].dimV) <= |b|
  }

  /** Column i as the reader finds it in b. */
  function FieldIn(cols: seq<Column>, b: seq<byte>, i: nat): Field
    requires i < |cols| && StartOf(cols, b, i) + 4 * VarDimN(cols[i].dimV) <= |b|
  {
    FieldAt(cols[i].dimV, cols[i].typ, b, StartOf(cols, b, i))
  }

  /** A field of the reader for a column: some dimensions may be those of an earlier record. */
  predicate IsFieldOf(f: Field, c: Column) {
    && |f.dimV| == |c.dimV| && f.varDimIdxV == VarIdx(c.dimV, |c.dimV|) && f.typ == c.typ
    && (forall j :: 0 <= j < |c.dimV| && c.dimV[j] != 0 ==> f.dimV[j] == c.dimV[j])
    && (VarDimN(c.dimV) == 0 ==>
          f.eleN == ReadElements(c.dimV, |c.dimV|) && f.byteN == Mul32(f.eleN, ElementSize(c.typ)))
  }

  lemma {:induction false} NoneVary(d: seq<u32>, k: nat, j: nat)
    requires j < k <= |d| && d[j] == 0
    ensures VarCount(d, k) > 0
  {
    if j < k - 1 { NoneVary(d, k - 1, j); }
  }

  /** Entry VarCount(d, j) of the list of varying dimensions is j exactly when dimension j varies. */
  lemma {:induction false} VarIdxAt(d: seq<u32>, n: nat, j: nat)
    requires j < n <= |d|
    ensures var s, k := VarIdx(d, n), VarCount(d, j);
            (k < |s| ==> s[k] >= j) && (d[j] == 0 <==> k < |s| && s[k] == j)
  {
    if j < n - 1 { VarIdxAt(d, n - 1, j); }
  }

  lemma {:induction false} VarCountGrows(d: seq<u32>, j: nat, n: nat)
    requires j <= n <= |d|
    ensures VarCount(d, j) <= VarCount(d, n)
  {
    if j < n { VarCountGrows(d, j, n - 1); }
  }

  /** The dimensions that do not vary are the declared ones. */
  lemma {:induction false} DimsKeepFixed(d: seq<u32>, b: seq<byte>, off: nat, k: nat)
    requires k <= |d| && off + 4 * VarCount(d, k) <= |b|
    ensures forall j :: 0 <= j < k && d[j] != 0 ==> DimsAt(d, b, off, k)[j] == d[j]
  {
    if k > 0 { DimsKeepFixed(d, b, off, k - 1); }
  }

  /** A record does not change a field of a fixed column but for its place. */
  lemma FixedField(f: Field, c: Column, b: seq<byte>, off: nat)
    requires IsFieldOf(f, c) && VarDimN(c.dimV) == 0 && off <= |b|
    ensures FieldAt(c.dimV, c.typ, b, off) == f.(byteOffset := off)
  {
    var d := c.dimV;
    forall j | 0 <= j < |d| ensures d[j] != 0 {
      if d[j] == 0 { NoneVary(d, |d|, j); }
    }
    DimsKeepFixed(d, b, off, |d|);
    assert DimsAt(d, b, off, |d|) == d == f.dimV;
  }

  lemma FieldIsField(c: Column, b: seq<byte>, off: nat)
    requires off + 4 * VarDimN(c.dimV) <= |b|
    ensures IsFieldOf(FieldAt(c.dimV, c.typ, b, off), c)
  {
    var d := c.dimV;
    DimsKeepFixed(d, b, off, |d|);
    if VarDimN(d) == 0 {
      forall j | 0 <= j < |d| ensures d[j] != 0 {
        if d[j] == 0 { NoneVary(d, |d|, j); }
      }
      assert DimsAt(d, b, off, |d|) == d;
    }
  }

  /** The first j dimensions of a record were taken over. */
  ghost predicate Taken(dims: seq<u32>, was: seq<u32>, d: seq<u32>, b: seq<byte>, off: nat, j: nat) {
    && |dims| == |was| == |d| && j <= |d| && off + 4 * VarCount(d, j) <= |b|
    && dims[..j] == DimsAt(d, b, off, j) && dims[j..] == was[j..]
  }

  lemma TakenNext(dims: seq<u32>, was: seq<u32>, d: seq<u32>, b: seq<byte>, off: nat, j: nat)
    requires Taken(dims, was, d, b, off, j) && j < |d| && off + 4 * VarDimN(d) <= |b|
    requires d[j] != 0 ==> was[j] == d[j]
    ensures off + 4 * VarCount(d, j + 1) <= |b|
    ensures var x := if d[j] == 0 then GetU32(b, off + 4 * VarCount(d, j)) else dims[j];
            var next := dims[j := x];
            && Taken(next, was, d, b, off, j + 1)
            && Elements(next[..j + 1], j + 1) == Mul32(Elements(dims[..j], j), x)
  {
    VarCountGrows(d, j + 1, |d|);
    var x := if d[j] == 0 then GetU32(b, off + 4 * VarCount(d, j)) else dims[j];
    var next := dims[j := x];
    assert dims[j] == dims[j..][0] == was[j..][0] == was[j];
    assert next[..j + 1] == dims[..j] + [x];
    assert next[j + 1..] == dims[j..][1..] == was[j..][1..] == was[j + 1..];
    ElementsOfPrefix(next[..j + 1], dims[..j], j);
  }

  /** The field as the file's header gives it, with the largest dimensions that occur. */
  function HeaderField(c: Column, off: nat): Field
    requires WellFormed(c)
  {
    var d := c.dimV;
    var eleN := ReadElements(c.maxDimV, |d|);
    Field(d, VarIdx(d, |d|), c.typ, eleN, Mul32(eleN, ElementSize(c.typ)), off)
  }

  /** The offset that the header gives to column n. */
  function HeaderOffset(cols: seq<Column>, n: nat): nat
    requires n <= |cols| && AllHeaderFit(cols)
  {
    if n == 0 then 0
    else HeaderOffset(cols, n - 1) + HeaderField(cols[n - 1], 0).byteN + 4 * VarDimN(cols[n - 1].dimV)
  }

  /** The largest dimensions of a column that does not vary are its dimensions. */
  predicate HeaderFits(c: Column) { WellFormed(c) && (VarDimN(c.dimV) == 0 ==> c.maxDimV == c.dimV) }

  predicate AllHeaderFit(cols: seq<Column>) { forall i :: 0 <= i < |cols| ==> HeaderFits(cols[i]) }

  /** The first n fields are those of the header. */
  predicate AreHeaderFields(fields: seq<Field>, cols: seq<Column>, n: nat)
    requires n <= |cols| && AllHeaderFit(cols)
  {
    n <= |fields| && forall i :: 0 <= i < n ==> fields[i] == HeaderField(cols[i], HeaderOffset(cols, i))
  }

  /** The first n fields are those of the record b. */
  ghost predicate AreFieldsIn(fields: seq<Field>, cols: seq<Column>, b: seq<byte>, n: nat)
    requires n <= |cols| && DimsInside(cols, b)
  {
    n <= |fields| && forall i :: 0 <= i < n ==> fields[i] == FieldIn(cols, b, i)
  }

  predicate NoneVaries(cols: seq<Column>, n: nat)
    requires n <= |cols|
  {
    forall i :: 0 <= i < n ==> VarDimN(cols[i].dimV) == 0
  }

  lemma HeaderNext(fields: seq<Field>, cols: seq<Column>, i: nat, f: Field)
    requires AllHeaderFit(cols) && i < |cols| && |fields| == i && AreHeaderFields(fields, cols, i)
    requires f == HeaderField(cols[i], HeaderOffset(cols, i))
    ensures AreHeaderFields(fields + [f], cols, i + 1)
  {
    forall k | 0 <= k < i + 1 ensures (fields + [f])[k] == HeaderField(cols[k], HeaderOffset(cols, k)) {
      assert (fields + [f])[k] == if k < i then fields[k] else f;
    }
  }

  lemma NoneVariesNext(cols: seq<Column>, i: nat)
    requires i < |cols|
    ensures NoneVaries(cols, i + 1) == (NoneVaries(cols, i) && VarDimN(cols[i].dimV) == 0)
  {
  }

  lemma FieldsNext(fields: seq<Field>, cols: seq<Column>, b: seq<byte>, i: nat)
    requires DimsInside(cols, b) && i < |cols| == |fields| && AreFieldsIn(fields, cols, b, i)
    ensures AreFieldsIn(fields[i := FieldIn(cols, b, i)], cols, b, i + 1)
    ensures StartOf(cols, b, i + 1) == Behind(cols[i].dimV, cols[i].typ, b, StartOf(cols, b, i))
  {
  }

  ghost predicate AreFieldsOf(fields: seq<Field>, cols: seq<Column>) {
    |fields| == |cols| && forall i :: 0 <= i < |cols| ==> IsFieldOf(fields[i], cols[i])
  }

  lemma HeaderFieldsAreFields(fields: seq<Field>, cols: seq<Column>)
    requires AllHeaderFit(cols) && |fields| == |cols| && AreHeaderFields(fields, cols, |cols|)
    ensures AreFieldsOf(fields, cols)
  {
  }

  class Reader {
    ghost const columns: seq<Column>
    var colA: seq<Field>
    var bufCurByteN: nat
    var isFixedSizeFl: bool

    /** Makes the fields from a header. */
    constructor (cols: seq<Column>)
      requires AllHeaderFit(cols)
      ensures Valid() == true && columns == cols && AreHeaderFields(colA, cols, |cols|) == true
      ensures isFixedSizeFl == NoneVaries(cols, |cols|)
    {
      var fields: seq<Field>, offs: nat, fixed := [], 0, true;
      for i := 0 to |cols|
        invariant |fields| == i && offs == HeaderOffset(cols, i)
        invariant AreHeaderFields(fields, cols, i) == true && fixed == NoneVaries(cols, i)
      {
        var f := HeaderField(cols[i], offs);
        HeaderNext(fields, cols, i, f);
        NoneVariesNext(cols, i);
        fields := fields + [f];
        offs := offs + f.byteN + 4 * |f.varDimIdxV|;
        fixed := fixed && |f.varDimIdxV| == 0;
      }
      HeaderFieldsAreFields(fields, cols);
      columns, colA, bufCurByteN, isFixedSizeFl := cols, fields, 0, fixed;
    }

    ghost predicate Valid()
      reads this`colA
    {
      AreFieldsOf(colA, columns)
    }

    /** Finds the columns in a record. */
    method ParseVarRecord(buf: seq<byte>)
      requires Valid() && DimsInside(columns, buf)
      modifies this`colA, this`bufCurByteN
      ensures Valid() == true && AreFieldsIn(colA, columns, buf, |columns|) == true
    {
      bufCurByteN := 0;
      for i := 0 to |colA|
        invariant Valid() == true && |colA| == |columns| && bufCurByteN == StartOf(columns, buf, i)
        invariant AreFieldsIn(colA, columns, buf, i) == true
      {
        FieldsNext(colA, columns, buf, i);
        ParseColumn(buf, i);
      }
    }

    method ParseColumn(buf: seq<byte>, i: nat)
      requires Valid() && i < |colA| && bufCurByteN + 4 * VarDimN(columns[i].dimV) <= |buf|
      modifies this`colA, this`bufCurByteN
      ensures Valid() && var d, t := columns[i].dimV, columns[i].typ;
              && colA == old(colA)[i := FieldAt(d, t, buf, old(bufCurByteN))]
              && bufCurByteN == Behind(d, t, buf, old(bufCurByteN))
    {
      var c := colA[i];
      FieldIsField(columns[i], buf, bufCurByteN);
      if |c.varDimIdxV| != 0 {
        c := ParseDims(buf, c, columns[i]);
      } else {
        FixedField(c, columns[i], buf, bufCurByteN);
      }
      colA := colA[i := c.(byteOffset := bufCurByteN)];
      bufCurByteN := bufCurByteN + c.byteN;
    }

    /** Takes the varying dimensions of a column from the record. */
    method ParseDims(buf: seq<byte>, f: Field, ghost col: Column) returns (c: Field)
      requires IsFieldOf(f, col) && VarDimN(col.dimV) > 0 && bufCurByteN + 4 * VarDimN(col.dimV) <= |buf|
      modifies this`bufCurByteN
      ensures bufCurByteN == old(bufCurByteN) + 4 * VarDimN(col.dimV)
      ensures c.(byteOffset := bufCurByteN) == FieldAt(col.dimV, col.typ, buf, old(bufCurByteN))
    {
      ghost var d := col.dimV;
      var varDimV := bufCurByteN;
      var eleN: u32, k: nat, dims: seq<u32> := 1, 0, f.dimV;
      for j := 0 to |f.dimV|
        invariant k == VarCount(d, j) && bufCurByteN == varDimV + 4 * k
        invariant Taken(dims, f.dimV, d, buf, varDimV, j) == true && |dims| == |d|
        invariant eleN == Elements(dims[..j], j)
        modifies this`bufCurByteN
      {
        VarIdxAt(d, |d|, j);
        TakenNext(dims, f.dimV, d, buf, varDimV, j);
        if k < |f.varDimIdxV| && f.varDimIdxV[k] == j {
          dims := dims[j := GetU32(buf, varDimV + 4 * k)];
          k, bufCurByteN := k + 1, bufCurByteN + 4;
        } else {
          assert dims[j := dims[j]] == dims;
        }
        eleN := Times32(eleN, dims[j]);
      }
      assert dims[..|d|] == dims;
      var byteN := Times32(eleN, ElementSize(f.typ));
      c := f.(dimV := dims, eleN := eleN, byteN := byteN);
    }
  }

  // ----------------------------------------------------------------- the round trip

  /** The values written have the declared dimensions, apart from those that vary, and at least one. */
  predicate AsDeclared(c: Column)
    requires WellFormed(c)
  {
    |c.dimV| > 0 && forall j :: 0 <= j < |c.dimV| && c.dimV[j] != 0 ==> c.curDimV[j] == c.dimV[j]
  }

  /** The column holds a whole value of the declared dimensions. */
  predicate Sound(c: Column)
    requires WellFormed(c)
  {
    Complete(c) && AsDeclared(c)
  }

  predicate AllSound(cols: seq<Column>, n: nat)
    requires AllWellFormed(cols) && n <= |cols|
  {
    forall i :: 0 <= i < n ==> Sound(cols[i])
  }

  /** The field gives back the column's dimensions, element count and bytes. */
  predicate GivesBack(f: Field, c: Column, b: seq<byte>)
    requires WellFormed(c)
  {
    && f.dimV == c.curDimV && f.eleN == Elements(c.curDimV, |c.curDimV|)
    && f.byteN == |c.cur| && f.byteOffset + f.byteN <= |b|
    && b[f.byteOffset..f.byteOffset + f.byteN] == c.cur
  }

  predicate Recovers(cols: seq<Column>)
    requires AllWellFormed(cols)
  {
    var b := Body(cols, |cols|);
    DimsInside(cols, b) && forall i :: 0 <= i < |cols| ==> GivesBack(FieldIn(cols, b, i), cols[i], b)
  }

  /** Where column i ends in a record. */
  function EndOf(cols: seq<Column>, i: nat): nat
    requires i < |cols| && AllWellFormed(cols)
  {
    |Body(cols, i)| + |ColumnBytes(cols[i])|
  }

  /** Column i stands in b where the columns before it end. */
  ghost predicate ColumnIn(cols: seq<Column>, b: seq<byte>, i: nat)
    requires i < |cols| && AllWellFormed(cols)
  {
    EndOf(cols, i) <= |b| && b[|Body(cols, i)|..EndOf(cols, i)] == ColumnBytes(cols[i])
  }

  lemma {:induction false} BodyAt(cols: seq<Column>, n: nat, i: nat)
    requires AllWellFormed(cols) && i < n <= |cols|
    ensures ColumnIn(cols, Body(cols, n), i) == true
  {
    var p, q := Body(cols, n - 1), ColumnBytes(cols[n - 1]);
    if i < n - 1 {
      BodyAt(cols, n - 1, i);
      PrefixSlice(p, q, |Body(cols, i)|, EndOf(cols, i));
    } else {
      SuffixSlice(p, q);
    }
  }

  lemma PrefixSlice(p: seq<byte>, q: seq<byte>, s: nat, e: nat)
    requires s <= e <= |p|
    ensures (p + q)[s..e] == p[s..e]
  {
  }

  lemma SuffixSlice(p: seq<byte>, q: seq<byte>)
    ensures (p + q)[|p|..|p| + |q|] == q
  {
  }

  lemma {:induction false} DimsReadBack(d: seq<u32>, cur: seq<u32>, b: seq<byte>, off: nat, k: nat)
    requires k <= |d| == |cur| && off + 4 * VarCount(d, k) <= |b|
    requires b[off..off + 4 * VarCount(d, k)] == DimBytes(d, cur, k)
    requires forall j :: 0 <= j < k && d[j] != 0 ==> cur[j] == d[j]
    ensures DimsAt(d, b, off, k) == cur[..k]
  {
    if k > 0 {
      DimStep(d, cur, b, off, k);
      DimsReadBack(d, cur, b, off, k - 1);
      assert cur[..k] == cur[..k - 1] + [cur[k - 1]];
    }
  }

  /** The dimensions before k that vary. */
  function Varying(d: seq<u32>, k: nat): (s: set<nat>)
    requires k <= |d|
    ensures forall j: nat :: j in s <==> j < k && d[j] == 0
  {
    set j: nat | j < k && d[j] == 0
  }

  lemma {:induction false} VarCountIs(d: seq<u32>, k: nat)
    requires k <= |d|
    ensures VarCount(d, k) == |Varying(d, k)|
  {
    if k > 0 {
      VarCountIs(d, k - 1);
      if d[k - 1] == 0 {
        assert Varying(d, k) == Varying(d, k - 1) + {k - 1};
      } else {
        assert Varying(d, k) == Varying(d, k - 1);
      }
    } else {
      assert Varying(d, k) == {};
    }
  }

  lemma {:induction false} DimLayout(d: seq<u32>, cur: seq<u32>, b: seq<byte>, off: nat, k: nat, j: nat)
    requires j < k <= |d| == |cur| && d[j] == 0 && off + 4 * VarCount(d, k) <= |b|
    requires b[off..off + 4 * VarCount(d, k)] == DimBytes(d, cur, k)
    ensures LittleEndian(b, off + 4 * |Varying(d, j)|, 4, cur[j]) == true
  {
    DimStep(d, cur, b, off, k);
    if j < k - 1 {
      DimLayout(d, cur, b, off, k - 1, j);
    } else {
      VarCountIs(d, j);
      WordAt(b, off + 4 * VarCount(d, j), cur[j]);
    }
  }

  /** The bytes of a column: each varying dimension in four bytes, the lowest first, behind those of the
      varying dimensions before it; and the value behind them all. */
  lemma ColumnLayout(c: Column, b: seq<byte>, off: nat)
    requires WellFormed(c) && off + |ColumnBytes(c)| <= |b| && b[off..off + |ColumnBytes(c)|] == ColumnBytes(c)
    ensures forall j :: 0 <= j < |c.dimV| && c.dimV[j] == 0 ==>
              LittleEndian(b, off + 4 * |Varying(c.dimV, j)|, 4, c.curDimV[j])
    ensures var n := |c.dimV|;
            var at := off + 4 * |Varying(c.dimV, n)|; at + |c.cur| <= |b| && b[at..at + |c.cur|] == c.cur
  {
    var n := |c.dimV|;
    SliceSplits(b, off, DimBytes(c.dimV, c.curDimV, n), c.cur);
    VarCountIs(c.dimV, n);
    forall j | 0 <= j < n && c.dimV[j] == 0
      ensures LittleEndian(b, off + 4 * |Varying(c.dimV, j)|, 4, c.curDimV[j])
    {
      DimLayout(c.dimV, c.curDimV, b, off, n, j);
    }
  }

  lemma DimStep(d: seq<u32>, cur: seq<u32>, b: seq<byte>, off: nat, k: nat)
    requires 0 < k <= |d| == |cur| && off + 4 * VarCount(d, k) <= |b|
    requires b[off..off + 4 * VarCount(d, k)] == DimBytes(d, cur, k)
    ensures b[off..off + 4 * VarCount(d, k - 1)] == DimBytes(d, cur, k - 1)
    ensures d[k - 1] == 0 ==> GetU32(b, off + 4 * VarCount(d, k - 1)) == cur[k - 1]
  {
    if d[k - 1] == 0 {
      SliceSplits(b, off, DimBytes(d, cur, k - 1), PutU32(cur[k - 1]));
      GetPutU32(b, off + 4 * VarCount(d, k - 1), cur[k - 1]);
    }
  }

  /** A column's bytes, wherever they stand, give it back exactly when it holds a whole value of the
      declared dimensions. */
  lemma ColumnReadBack(c: Column, b: seq<byte>, off: nat)
    requires WellFormed(c) && off + |ColumnBytes(c)| <= |b| && b[off..off + |ColumnBytes(c)|] == ColumnBytes(c)
    ensures GivesBack(FieldAt(c.dimV, c.typ, b, off), c, b) <==> Sound(c)
    ensures Sound(c) ==> Behind(c.dimV, c.typ, b, off) == off + |ColumnBytes(c)|
  {
    if Sound(c) { SoundReadBack(c, b, off); }
    if GivesBack(FieldAt(c.dimV, c.typ, b, off), c, b) { ReadBackIsSound(c, b, off); }
  }

  lemma SoundReadBack(c: Column, b: seq<byte>, off: nat)
    requires WellFormed(c) && Sound(c)
    requires off + |ColumnBytes(c)| <= |b| && b[off..off + |ColumnBytes(c)|] == ColumnBytes(c)
    ensures GivesBack(FieldAt(c.dimV, c.typ, b, off), c, b) == true
    ensures Behind(c.dimV, c.typ, b, off) == off + |ColumnBytes(c)|
  {
    var d := c.dimV;
    SliceSplits(b, off, DimBytes(d, c.curDimV, |d|), c.cur);
    DimsReadBack(d, c.curDimV, b, off, |d|);
    assert c.curDimV[..|d|] == c.curDimV;
  }

  /** Whatever it is read from, a field that gives a column back shows that the column is sound. */
  lemma ReadBackIsSound(c: Column, b: seq<byte>, off: nat)
    requires WellFormed(c) && off + 4 * VarDimN(c.dimV) <= |b|
    requires GivesBack(FieldAt(c.dimV, c.typ, b, off), c, b)
    ensures Sound(c)
  {
    var d := c.dimV;
    DimsKeepFixed(d, b, off, |d|);
    if VarDimN(d) == 0 {
      forall j | 0 <= j < |d| ensures d[j] != 0 {
        if d[j] == 0 { NoneVary(d, |d|, j); }
      }
      assert c.curDimV == d;
    }
  }

  /** The reader looks for column n where the columns before it end. */
  ghost predicate StartsRight(cols: seq<Column>, b: seq<byte>, n: nat)
    requires n <= |cols| && AllWellFormed(cols)
  {
    StartOf(cols, b, n) == |Body(cols, n)|
  }

  lemma {:induction false} StartsReadBack(cols: seq<Column>, n: nat)
    requires AllWellFormed(cols) && n <= |cols| && AllSound(cols, |cols|) == true
    ensures StartsRight(cols, Body(cols, |cols|), n) == true
  {
    if n > 0 {
      StartsReadBack(cols, n - 1);
      BodyAt(cols, |cols|, n - 1);
      StartMoves(cols, Body(cols, |cols|), n - 1);
    }
  }

  lemma StartMoves(cols: seq<Column>, b: seq<byte>, i: nat)
    requires AllWellFormed(cols) && i < |cols| && AllSound(cols, |cols|) == true
    requires StartsRight(cols, b, i) == true && ColumnIn(cols, b, i) == true
    ensures StartsRight(cols, b, i + 1) == true
  {
    SoundReadBack(cols[i], b, |Body(cols, i)|);
  }

  /** Reading the record of a row gives back every column exactly when all columns hold whole values, have
      at least one dimension, and have the declared dimensions where these do not vary. The writer
      sees to none of this: it checks only that the product of the dimensions fits, and stores them even
      when it does not. */
  lemma RowRoundTripExactlyWhen(cols: seq<Column>)
    requires AllWellFormed(cols)
    ensures Recovers(cols) <==> forall i :: 0 <= i < |cols| ==> Complete(cols[i]) && AsDeclared(cols[i])
  {
    if forall i :: 0 <= i < |cols| ==> Complete(cols[i]) && AsDeclared(cols[i]) {
      assert AllSound(cols, |cols|);
      SoundRecovers(cols);
    } else if Recovers(cols) {
      var b := Body(cols, |cols|);
      forall i | 0 <= i < |cols| ensures Sound(cols[i]) {
        assert GivesBack(FieldIn(cols, b, i), cols[i], b);
        ReadBackIsSound(cols[i], b, StartOf(cols, b, i));
      }
    }
  }

  lemma SoundRecovers(cols: seq<Column>)
    requires AllWellFormed(cols) && AllSound(cols, |cols|)
    ensures Recovers(cols) == true
  {
    var b := Body(cols, |cols|);
    forall i | 0 <= i < |cols|
      ensures StartOf(cols, b, i) + 4 * VarDimN(cols[i].dimV) <= |b|
      ensures GivesBack(FieldIn(cols, b, i), cols[i], b) == true
    {
      StartsReadBack(cols, i);
      BodyAt(cols, |cols|, i);
      SoundReadBack(cols[i], b, |Body(cols, i)|);
    }
  }

  lemma {:induction false} HeaderOffsets(cols: seq<Column>, n: nat)
    requires AllHeaderFit(cols) && NoneVaries(cols, |cols|) && AllSound(cols, |cols|) && n <= |cols|
    ensures HeaderOffset(cols, n) == |Body(cols, n)|
  {
    if n > 0 {
      HeaderOffsets(cols, n - 1);
      HeaderServesColumn(cols[n - 1], ColumnBytes(cols[n - 1]), 0);
    }
  }

  /** When no dimension varies, the fields made from the header are right for every row, and the reader
      does not look into the record. */
  lemma HeaderServesFixedRows(cols: seq<Column>, n: nat)
    requires AllHeaderFit(cols) && NoneVaries(cols, |cols|) && AllSound(cols, |cols|) && n <= |cols|
    ensures HeaderOffset(cols, n) == StartOf(cols, Body(cols, |cols|), n) == |Body(cols, n)|
    ensures n < |cols| ==> GivesBack(HeaderField(cols[n], HeaderOffset(cols, n)), cols[n], Body(cols, |cols|)) == true
  {
    HeaderOffsets(cols, n);
    StartsReadBack(cols, n);
    if n < |cols| {
      BodyAt(cols, |cols|, n);
      HeaderServes(cols, Body(cols, |cols|), n);
    }
  }

  lemma HeaderServes(cols: seq<Column>, b: seq<byte>, n: nat)
    requires AllHeaderFit(cols) && NoneVaries(cols, |cols|) && AllSound(cols, |cols|) && n < |cols|
    requires ColumnIn(cols, b, n) == true
    ensures GivesBack(HeaderField(cols[n], |Body(cols, n)|), cols[n], b) == true
  {
    HeaderServesColumn(cols[n], b, |Body(cols, n)|);
  }

  lemma HeaderServesColumn(c: Column, b: seq<byte>, off: nat)
    requires HeaderFits(c) && VarDimN(c.dimV) == 0 && Sound(c)
    requires off + |ColumnBytes(c)| <= |b| && b[off..off + |ColumnBytes(c)|] == ColumnBytes(c)
    ensures GivesBack(HeaderField(c, off), c, b) == true && HeaderField(c, off).byteN == |ColumnBytes(c)|
  {
    SoundReadBack(c, b, off);
    FixedField(HeaderField(c, off), c, b, off);
  }

  /** A column of rows of any length holds one value; three more are refused for being of length two, but
      that length is kept, and the row goes out with it. The reader takes eight bytes where there are four. */
  lemma RefusedWriteIsMisread()
    ensures var c := Column(0, [0], [1], [1], Int32, [1, 0, 0, 0]);
            var d := WithDims(c, [2]);
            && Sound(c) && !SizeFits(c, 3, [2])
            && WellFormed(d) && AsDeclared(d) && !Complete(d)
            && FieldAt(d.dimV, d.typ, ColumnBytes(d), 0).byteN == 8 && |d.cur| == 4
  {
    var c := Column(0, [0], [1], [1], Int32, [1, 0, 0, 0]);
    var d := WithDims(c, [2]);
    assert VarCount([0], 1) == 1 && Elements([1], 1) == Mul32(1, 1) == 1 && Elements([2], 1) == Mul32(1, 2) == 2;
    assert d.curDimV == [2] && DimBytes([0], [2], 1) == PutU32(2);
    Mul32Is(1, 4);
    Mul32Is(2, 4);
    GetPutU32(ColumnBytes(d), 0, 2);
    assert DimsAt([0], ColumnBytes(d), 0, 1) == [2];
  }

  /** A value of two rows of three elements for a column declared to have rows of two: the sizes agree,
      so the writer takes it, but the reader sees three rows of two. */
  lemma WrongShapeIsAccepted()
    ensures var c := Column(0, [0, 2], [0, 2], [0, 2], Int32, []);
            SizeFits(c, 6, [2, 3]) && !AsDeclared(WithDims(c, [2, 3]))
  {
    var c := Column(0, [0, 2], [0, 2], [0, 2], Int32, []);
    assert VarCount(c.dimV, 1) == 1;
    assert Elements([2, 3], 1) == 2 && Elements([2, 3], 2) == 6;
    assert WithDims(c, [2, 3]).curDimV == [2, 3];
  }
}
