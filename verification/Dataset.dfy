/** A dataset from end to end, src/core/cwDataSets.cpp: the rows that a writer appends to a file come back
    through the cache of a reader, which finds the columns of each in the bytes of its record. */
module Dataset {
  import opened Bytes
  import opened RowCodec
  import RecordCache

  /** What the reader hands out for a column of the current record. */
  datatype Item = Item(dimV: seq<u32>, eleN: u32, data: seq<byte>)

  /** What was written for a column. */
  function ItemOf(c: Column): Item { Item(c.curDimV, Elements(c.curDimV, |c.curDimV|), c.cur) }

  function ItemsOf(row: seq<Column>): (s: seq<Item>)
    ensures |s| == |row|
  {
    seq(|row|, i requires 0 <= i < |row| => ItemOf(row[i]))
  }

  function AllItems(values: seq<seq<Column>>): (s: seq<seq<Item>>)
    ensures |s| == |values|
  {
    seq(|values|, k requires 0 <= k < |values| => ItemsOf(values[k]))
  }

  /** All columns of the row hold whole values of their declared dimensions. */
  predicate SoundRow(row: seq<Column>) {
    AllWellFormed(row) && AllSound(row, |row|)
  }

  predicate SoundRows(values: seq<seq<Column>>) {
    forall k :: 0 <= k < |values| ==> SoundRow(values[k])
  }

  /** The record is that of a sound row of these columns. */
  ghost predicate IsRow(cols: seq<Column>, row: seq<Column>, record: seq<byte>) {
    SameShape(cols, row) && SoundRow(row) && AllHeaderFit(row) && record == Body(row, |row|)
  }

  ghost predicate AreRowsOf(cols: seq<Column>, values: seq<seq<Column>>, records: seq<seq<byte>>) {
    |values| == |records| && forall k :: 0 <= k < |values| ==> IsRow(cols, values[k], records[k])
  }

  lemma {:induction false} WrittenRows(cols: seq<Column>, values: seq<seq<Column>>, records: seq<seq<byte>>)
    requires AreBodies(values, records) && AllShaped(cols, values) && SoundRows(values)
    ensures AreRowsOf(cols, values, records) == true
  {
    forall k | 0 <= k < |values| ensures IsRow(cols, values[k], records[k]) {
      assert SameShape(cols, values[k]) && SoundRow(values[k]);
    }
  }

  /** The fields give back the columns of the row from its record. */
  ghost predicate Serve(fields: seq<Field>, row: seq<Column>, b: seq<byte>) {
    && |fields| == |row| && AllWellFormed(row)
    && forall i :: 0 <= i < |row| ==> GivesBack(fields[i], row[i], b)
  }

  /** Where the columns start depends on nothing but their shape. */
  lemma {:induction false} SameStarts(cols: seq<Column>, row: seq<Column>, b: seq<byte>, n: nat)
    requires SameShape(cols, row) && n <= |cols|
    ensures StartOf(cols, b, n) == StartOf(row, b, n)
  {
    if n > 0 { SameStarts(cols, row, b, n - 1); }
  }

  lemma {:induction false} SameOffsets(cols: seq<Column>, row: seq<Column>, n: nat)
    requires SameShape(cols, row) && AllHeaderFit(cols) && AllHeaderFit(row) && NoneVaries(cols, |cols|)
    requires n <= |cols|
    ensures HeaderOffset(cols, n) == HeaderOffset(row, n)
  {
    if n > 0 {
      SameOffsets(cols, row, n - 1);
      assert cols[n - 1].maxDimV == row[n - 1].maxDimV;
    }
  }

  /** The reader finds its own columns in the record of any sound row of their shape. */
  lemma {:induction false} RowHasDims(cols: seq<Column>, row: seq<Column>, b: seq<byte>)
    requires SameShape(cols, row) && SoundRow(row) && b == Body(row, |row|)
    ensures DimsInside(cols, b) == true
  {
    SoundRecovers(row);
    forall i | 0 <= i < |cols| ensures StartOf(cols, b, i) + 4 * VarDimN(cols[i].dimV) <= |b| {
      SameStarts(cols, row, b, i);
    }
  }

  lemma {:induction false} RecordServes(cols: seq<Column>, row: seq<Column>, b: seq<byte>, fields: seq<Field>)
    requires SameShape(cols, row) && SoundRow(row) && b == Body(row, |row|) && DimsInside(cols, b)
    requires |fields| == |cols| && AreFieldsIn(fields, cols, b, |cols|)
    ensures Serve(fields, row, b) == true
  {
    SoundRecovers(row);
    forall i | 0 <= i < |row| ensures GivesBack(fields[i], row[i], b) {
      SameStarts(cols, row, b, i);
      assert fields[i] == FieldIn(cols, b, i) == FieldIn(row, b, i);
    }
  }

  lemma {:induction false} HeaderServesRow(cols: seq<Column>, row: seq<Column>, b: seq<byte>, fields: seq<Field>)
    requires SameShape(cols, row) && SoundRow(row) && b == Body(row, |row|)
    requires AllHeaderFit(cols) && AllHeaderFit(row) && NoneVaries(cols, |cols|)
    requires |fields| == |cols| && AreHeaderFields(fields, cols, |cols|)
    ensures Serve(fields, row, b) == true
  {
    forall i | 0 <= i < |row| ensures GivesBack(fields[i], row[i], b) {
      SameOffsets(cols, row, i);
      HeaderServesFixedRows(row, i);
      assert cols[i].maxDimV == row[i].maxDimV;
      assert fields[i] == HeaderField(row[i], HeaderOffset(row, i));
    }
  }

  /** The rows handed out are those with these indexes. */
  predicate AreRows(values: seq<seq<Column>>, which: seq<nat>, out: seq<seq<Item>>) {
    |out| == |which| && forall k :: 0 <= k < |which| ==> which[k] < |values| && out[k] == ItemsOf(values[which[k]])
  }

  lemma {:induction false} RowsInOrder(values: seq<seq<Column>>, which: seq<nat>, out: seq<seq<Item>>)
    requires AreRows(values, which, out) && which == RecordCache.Ascending(|values|)
    ensures out == AllItems(values)
  {
  }

  lemma RowAppended(values: seq<seq<Column>>, which: seq<nat>, out: seq<seq<Item>>, w: nat, items: seq<Item>)
    requires AreRows(values, which, out) == true && w < |values| && items == ItemsOf(values[w])
    ensures AreRows(values, which + [w], out + [items]) == true
  {
  }

  class DatasetReader {
    const cache: RecordCache.Cache
    const parser: Reader
    ghost const values: seq<seq<Column>>   // the rows in the file

    /** The file holds sound rows of the columns that its header declares. */
    ghost predicate HoldsValues() {
      AreRowsOf(parser.columns, values, cache.recs) == true
    }

    /** The fields are of the columns; and if nothing varies they stay as the header gives them. */
    ghost predicate Ready()
      reads parser
    {
      && parser.Valid() && AllHeaderFit(parser.columns)
      && parser.isFixedSizeFl == NoneVaries(parser.columns, |parser.columns|)
      && (parser.isFixedSizeFl ==> AreHeaderFields(parser.colA, parser.columns, |parser.columns|))
    }

    /** Opens a dataset of these rows, with the columns as its header declares them. */
    constructor (file: RecordCache.File, base: nat, max: nat, shuffle: bool, cols: seq<Column>,
                 ghost rows: seq<RecordCache.Record>, ghost values: seq<seq<Column>>, total: nat)
      requires file.Valid() && total == |rows| && base <= |file.bytes|
      requires file.bytes[base..] == RecordCache.Encode(rows, 0)
      requires RecordCache.Fits(rows, max) && RecordCache.EndsInBody(rows) && RecordCache.NoneTorn(rows, 0, max)
      requires AllHeaderFit(cols) && AreRowsOf(cols, values, rows) == true
      modifies file
      ensures cache.Valid() == true && cache.recs == rows && cache.shuffleFl == shuffle && cache.file == file
      ensures fresh(cache) && fresh(cache.buf) && fresh(parser)
      ensures cache.tocIdx == cache.tocBaseIdx == 0
      ensures this.values == values && HoldsValues() && Ready() == true
    {
      parser := new Reader(cols);
      cache := new RecordCache.Cache(file, max, base, total, shuffle, rows);
      this.values := values;
    }

    /** Finds the columns in the record of a row and hands them out. */
    method ParseRecord(record: seq<byte>, ghost row: seq<Column>) returns (items: seq<Item>)
      requires Ready() == true && IsRow(parser.columns, row, record) == true
      modifies parser
      ensures Ready() == true && items == ItemsOf(row)
    {
      if parser.isFixedSizeFl {
        HeaderServesRow(parser.columns, row, record, parser.colA);
      } else {
        RowHasDims(parser.columns, row, record);
        parser.ParseVarRecord(record);
        RecordServes(parser.columns, row, record, parser.colA);
      }
      items := GetAll(record, row);
    }

    method GetAll(record: seq<byte>, ghost row: seq<Column>) returns (items: seq<Item>)
      requires Serve(parser.colA, row, record)
      ensures items == ItemsOf(row)
    {
      items := [];
      for i := 0 to |parser.colA|
        invariant |items| == i && forall j :: 0 <= j < i ==> items[j] == ItemOf(row[j])
      {
        var item := Get(i, record, row);
        items := items + [item];
      }
    }

    /** The dimensions, the element count and the bytes of a column in the current record. */
    method Get(i: nat, record: seq<byte>, ghost row: seq<Column>) returns (item: Item)
      requires Serve(parser.colA, row, record) && i < |row|
      ensures item == ItemOf(row[i])
    {
      var f := parser.colA[i];
      item := Item(f.dimV, f.eleN, record[f.byteOffset..f.byteOffset + f.byteN]);
    }

    method NextRecord(ghost which: seq<nat>) returns (record: seq<byte>, ghost w: nat, ghost row: seq<Column>)
      requires HoldsValues() && cache.Dealing(which) && cache.tocIdx < cache.totalRecdN
      modifies cache, cache.file, cache.buf
      ensures cache.Dealing(which + [w]) && cache.tocIdx == old(cache.tocIdx) + 1
      ensures w < |values| && row == values[w] && IsRow(parser.columns, row, record) == true
      ensures !cache.shuffleFl ==> w == |which|
    {
      record, w := cache.ReadOn(which);
      row := values[w];
    }

    /** Reads the next record; which are the rows handed out before it. */
    method ReadRecord(ghost which: seq<nat>) returns (items: seq<Item>, ghost w: nat)
      requires HoldsValues() && Ready() == true && cache.Dealing(which) && cache.tocIdx < cache.totalRecdN
      modifies parser, cache, cache.file, cache.buf
      ensures Ready() == true && cache.Dealing(which + [w]) && cache.tocIdx == old(cache.tocIdx) + 1
      ensures w < |values| && items == ItemsOf(values[w]) && (!cache.shuffleFl ==> w == |which|)
    {
      var record;
      ghost var row;
      record, w, row := NextRecord(which);
      items := ParseNext(record, row, which + [w]);
    }

    /** Parsing leaves the cache alone. */
    method ParseNext(record: seq<byte>, ghost row: seq<Column>, ghost which: seq<nat>) returns (items: seq<Item>)
      requires Ready() == true && IsRow(parser.columns, row, record) == true && cache.Dealing(which)
      modifies parser
      ensures Ready() == true && items == ItemsOf(row) && cache.Dealing(which)
    {
      items := ParseRecord(record, row);
      assert unchanged(cache) && unchanged(cache.file) && unchanged(cache.buf);
    }

    /** A pass has handed out these rows so far. */
    ghost predicate InPass(which: seq<nat>, out: seq<seq<Item>>)
      reads parser, cache, cache.file, cache.buf
    {
      (&& Ready() && cache.Dealing(which) && AreRows(values, which, out)
       && (!cache.shuffleFl ==> RecordCache.InOrder(which))) == true
    }

    method NextRow(was: seq<seq<Item>>, ghost dealt: seq<nat>) returns (out: seq<seq<Item>>, ghost which: seq<nat>)
      requires HoldsValues() && InPass(dealt, was) && cache.tocIdx < cache.totalRecdN
      modifies parser, cache, cache.file, cache.buf
      ensures InPass(which, out) && cache.tocIdx == old(cache.tocIdx) + 1
    {
      var items, w := ReadRecord(dealt);
      if !cache.shuffleFl { RecordCache.InOrderNext(dealt, w); }
      RowAppended(values, dealt, was, w, items);
      out, which := was + [items], dealt + [w];
    }

    /** A pass over the dataset hands out every row once. */
    method ReadAll() returns (out: seq<seq<Item>>, ghost which: seq<nat>)
      requires HoldsValues() && Ready() == true && cache.Valid() == true && cache.tocIdx == cache.tocBaseIdx == 0
      modifies parser, cache, cache.file, cache.buf
      ensures RecordCache.IsOrder(which, |values|) && AreRows(values, which, out)
      ensures !cache.shuffleFl ==> out == AllItems(values)
    {
      out, which := [], [];
      PassStarts();
      while cache.tocIdx < cache.totalRecdN
        invariant InPass(which, out)
        decreases cache.totalRecdN - cache.tocIdx
      {
        out, which := NextRow(out, which);
      }
      PassEnds(which, out);
    }

    lemma PassStarts()
      requires Ready() == true && cache.Valid() == true && cache.tocIdx == cache.tocBaseIdx == 0
      ensures InPass([], [])
    {
      cache.DealsNothing();
    }

    lemma PassEnds(which: seq<nat>, out: seq<seq<Item>>)
      requires HoldsValues() && InPass(which, out) && cache.tocIdx >= cache.totalRecdN
      ensures RecordCache.IsOrder(which, |values|) == true && AreRows(values, which, out) == true
      ensures !cache.shuffleFl ==> out == AllItems(values)
    {
      cache.DealtAll(which);
      if !cache.shuffleFl { RowsInOrder(values, which, out); }
    }
  }

  /** What a writer wrote behind a file's header, a reader with the writer's columns gives back: every row
      once, and in the order written unless it shuffles them. It needs records that the cache does not
      tear and rows that hold whole values of the declared dimensions. */
  method ReadBack(w: Writer, header: seq<byte>, max: nat, shuffle: bool)
    returns (out: seq<seq<Item>>, ghost which: seq<nat>)
    requires w.Valid() && w.HoldsRows() && w.Shaped() && SoundRows(w.values)
    requires RecordCache.Fits(w.rows, max) && RecordCache.EndsInBody(w.rows) && RecordCache.NoneTorn(w.rows, 0, max)
    ensures RecordCache.IsOrder(which, |w.values|) && AreRows(w.values, which, out)
    ensures !shuffle ==> out == AllItems(w.values)
  {
    var file := new RecordCache.File(header + w.file, |header|);
    assert file.bytes[|header|..] == w.file;
    WrittenRows(w.columns, w.values, w.rows);
    var r := new DatasetReader(file, |header|, max, shuffle, w.columns, w.rows, w.values, w.recordN);
    out, which := r.ReadAll();
  }
}
