/** The spreadsheet form of a store: the export writes each product into a pair of
    columns, and the import walks the same pairs back into a store. */
module Spreadsheet {
  import opened Text
  import opened Records


  /** One worksheet: the cells that hold a value, keyed by (row, column) counted from 1,
      and the extent openpyxl reports as max_row and max_column (1 for an empty sheet). */
  datatype Sheet = Sheet(cells: map<(int, int), string>, maxRow: int, maxCol: int)

  const EmptySheet := Sheet(map[], 1, 1)

  /** The value of a cell; an empty cell reads as "", which is as falsy as None. */
  function Cell(sh: Sheet, r: int, c: int): string {
    if (r, c) in sh.cells then sh.cells[(r, c)] else ""
  }

  /** ws.cell(row=r, column=c, value=v): sets one cell and widens the extent to reach it. */
  function Put(sh: Sheet, r: int, c: int, v: string): Sheet
    requires r >= 1 && c >= 1
  {
    Sheet(sh.cells[(r, c) := v], Max(sh.maxRow, r), Max(sh.maxCol, c))
  }

  /** Setting a cell changes that cell only. */
  lemma CellPut(sh: Sheet, r: int, c: int, v: string, r': int, c': int)
    requires r >= 1 && c >= 1
    ensures Cell(Put(sh, r, c, v), r', c') == if (r', c') == (r, c) then v else Cell(sh, r', c')
  {
  }

  // ----- export: ExcelSaveThread.run -----

  /** The number of records of the largest product. */
  function Longest(db: Store): (n: nat)
    ensures forall i :: 0 <= i < |db| ==> |db[i].records| <= n
    ensures db != [] ==> exists i :: 0 <= i < |db| && |db[i].records| == n
    ensures db == [] ==> n == 0
  {
    if db == [] then 0
    else
      var init := db[..|db| - 1];
      assert forall i :: 0 <= i < |init| ==> init[i] == db[i];
      Max(Longest(init), |db[|db| - 1].records|)
  }

  lemma LongestSnoc(db: Store, g: Group)
    ensures Longest(db + [g]) == Max(Longest(db), |g.records|)
  {
    assert (db + [g])[..|db|] == db;
  }

  /** What the export writes in the two columns of one product: its name at row 1 over
      the left column, the headers "SKC" and "状态" at row 3, and its j-th record's code and
      status at row 4 + j. */
  function GroupCell(g: Group, r: int, left: bool): string {
    if r == 1 then (if left then g.product else "")
    else if r == 3 then (if left then "SKC" else "状态")
    else if 4 <= r < 4 + |g.records| then
      (if left then g.records[r - 4].skc else g.records[r - 4].status)
    else ""
  }

  /** What the export leaves in cell (r, c): each product takes the next two columns. */
  function LayoutCell(db: Store, r: int, c: int): string
    decreases |db|
  {
    if db == [] then ""
    else if c == 2 * |db| - 1 then GroupCell(db[|db| - 1], r, true)
    else if c == 2 * |db| then GroupCell(db[|db| - 1], r, false)
    else LayoutCell(db[..|db| - 1], r, c)
  }

  /** The k-th product (from 0) owns columns 2k + 1 and 2k + 2. */
  lemma {:induction false} LayoutAt(db: Store, k: int, r: int)
    requires 0 <= k < |db|
    ensures LayoutCell(db, r, 2 * k + 1) == GroupCell(db[k], r, true)
    ensures LayoutCell(db, r, 2 * k + 2) == GroupCell(db[k], r, false)
  {
    if k < |db| - 1 {
      LayoutAt(db[..|db| - 1], k, r);
    }
  }

  /** Every cell outside the first 2 * |db| columns is left empty. */
  lemma {:induction false} LayoutOutside(db: Store, r: int, c: int)
    requires c < 1 || c > 2 * |db|
    ensures LayoutCell(db, r, c) == ""
  {
    if db != [] {
      LayoutOutside(db[..|db| - 1], r, c);
    }
  }

  lemma LayoutSnoc(db: Store, g: Group, r: int, c: int)
    ensures LayoutCell(db + [g], r, c) ==
      (if c == 2 * |db| + 1 then GroupCell(g, r, true)
       else if c == 2 * |db| + 2 then GroupCell(g, r, false)
       else LayoutCell(db, r, c))
  {
    assert (db + [g])[..|db|] == db;
  }

  /** Every cell of sh holds what the layout of db puts there. */
  ghost predicate Agrees(sh: Sheet, db: Store) {
    forall r, c :: Cell(sh, r, c) == LayoutCell(db, r, c)
  }

  /** A sheet is the export of db: the extent and every cell are as the layout says. */
  ghost predicate Exported(db: Store, sh: Sheet) {
    && sh.maxCol == (if db == [] then 1 else 2 * |db|)
    && sh.maxRow == (if db == [] then 1 else 3 + Longest(db))
    && Agrees(sh, db)
  }

  /** The progress value emitted after the i-th product: int(i / total * 100) with
      total = max(len(db), 1), taken here as integer division. */
  function Percent(i: nat, n: nat): int {
    i * 100 / Max(n, 1)
  }

  /** Writing a new product's name and headers into the next pair of columns. */
  lemma PutProductHead(sh: Sheet, db: Store, p: string)
    requires Agrees(sh, db)
    ensures Agrees(Put(Put(Put(sh, 1, 2 * |db| + 1, p), 3, 2 * |db| + 1, "SKC"), 3, 2 * |db| + 2, "状态"), db + [Group(p, [])])
  {
    var t := Put(Put(Put(sh, 1, 2 * |db| + 1, p), 3, 2 * |db| + 1, "SKC"), 3, 2 * |db| + 2, "状态");
    forall r, c ensures Cell(t, r, c) == LayoutCell(db + [Group(p, [])], r, c) {
      CellPut(sh, 1, 2 * |db| + 1, p, r, c);
      CellPut(Put(sh, 1, 2 * |db| + 1, p), 3, 2 * |db| + 1, "SKC", r, c);
      CellPut(Put(Put(sh, 1, 2 * |db| + 1, p), 3, 2 * |db| + 1, "SKC"), 3, 2 * |db| + 2, "状态", r, c);
      LayoutSnoc(db, Group(p, []), r, c);
      if c == 2 * |db| + 1 || c == 2 * |db| + 2 {
        LayoutOutside(db, r, c);
      }
    }
  }

  /** Writing the next record of the last product into the next row of its pair. */
  lemma PutRecordRow(sh: Sheet, db: Store, p: string, rs: seq<Record>, x: Record)
    requires Agrees(sh, db + [Group(p, rs)])
    ensures Agrees(Put(Put(sh, 4 + |rs|, 2 * |db| + 1, x.skc), 4 + |rs|, 2 * |db| + 2, x.status), db + [Group(p, rs + [x])])
  {
    var t := Put(Put(sh, 4 + |rs|, 2 * |db| + 1, x.skc), 4 + |rs|, 2 * |db| + 2, x.status);
    forall r, c ensures Cell(t, r, c) == LayoutCell(db + [Group(p, rs + [x])], r, c) {
      CellPut(sh, 4 + |rs|, 2 * |db| + 1, x.skc, r, c);
      CellPut(Put(sh, 4 + |rs|, 2 * |db| + 1, x.skc), 4 + |rs|, 2 * |db| + 2, x.status, r, c);
      assert Cell(sh, r, c) == LayoutCell(db + [Group(p, rs)], r, c);
      LayoutSnoc(db, Group(p, rs), r, c);
      LayoutSnoc(db, Group(p, rs + [x]), r, c);
      if 4 <= r < 4 + |rs| {
        assert (rs + [x])[r - 4] == rs[r - 4];
      }
    }
  }

  /** One product's name and headers extend an export by one product with no records. */
  lemma ExportHead(sh: Sheet, db: Store, p: string, col: int)
    requires Exported(db, sh) && col == 2 * |db| + 1
    ensures Exported(db + [Group(p, [])], Put(Put(Put(sh, 1, col, p), 3, col, "SKC"), 3, col + 1, "状态"))
  {
    PutProductHead(sh, db, p);
    LongestSnoc(db, Group(p, []));
  }

  /** One record row extends the last product of an export by that record. */
  lemma ExportRow(sh: Sheet, db: Store, p: string, rs: seq<Record>, x: Record, row: int, col: int)
    requires Exported(db + [Group(p, rs)], sh) && row == 4 + |rs| && col == 2 * |db| + 1
    ensures Exported(db + [Group(p, rs + [x])], Put(Put(sh, row, col, x.skc), row, col + 1, x.status))
  {
    PutRecordRow(sh, db, p, rs, x);
    LongestSnoc(db, Group(p, rs));
    LongestSnoc(db, Group(p, rs + [x]));
  }

  /**
    * Writes one product into the column pair starting at col: its name on
    * row 1, the two titles on row 3 and its records from row 4 down.
    */
  method WriteProduct(sh0: Sheet, ghost done: Store, product: string, skcs: seq<Record>, col: int)
    returns (sh: Sheet)
    requires Exported(done, sh0) && col == 2 * |done| + 1
    ensures Exported(done + [Group(product, skcs)], sh)
  {
    ExportHead(sh0, done, product, col);
    sh := Put(sh0, 1, col, product);
    sh := Put(sh, 3, col, "SKC");
    sh := Put(sh, 3, col + 1, "状态");
    var rIndex := 4;
    var j := 0;
    assert skcs[..0] == [];
    while j < |skcs|
      invariant 0 <= j <= |skcs| && rIndex == 4 + j
      invariant Exported(done + [Group(product, skcs[..j])], sh)
    {
      ExportRow(sh, done, product, skcs[..j], skcs[j], rIndex, col);
      assert skcs[..j + 1] == skcs[..j] + [skcs[j]];
      sh := Put(sh, rIndex, col, skcs[j].skc);
      sh := Put(sh, rIndex, col + 1, skcs[j].status);
      rIndex := rIndex + 1;
      j := j + 1;
    }
    assert skcs[..j] == skcs;
  }

  /** The export loop: for each product in order, its name at row 1, the headers at row 3
      and its records from row 4 down, in the next pair of columns; the progress value
      after each product. */
  method WriteSheet(db: Store) returns (sh: Sheet, progress: seq<int>)
    ensures Exported(db, sh)
    ensures |progress| == |db|
    ensures forall k :: 0 <= k < |db| ==> progress[k] == Percent(k + 1, |db|)
    ensures forall k :: 0 <= k < |db| ==> 0 <= progress[k] <= 100
    ensures forall k, m :: 0 <= k <= m < |db| ==> progress[k] <= progress[m]
    ensures db != [] ==> progress[|db| - 1] == 100
  {
    sh := EmptySheet;
    progress := [];
    var col := 1;
    var i := 0;
    while i < |db|
      invariant 0 <= i <= |db| && col == 2 * i + 1
      invariant Exported(db[..i], sh)
      invariant |progress| == i
      invariant forall k :: 0 <= k < i ==> progress[k] == Percent(k + 1, |db|)
    {
      var product, skcs := db[i].product, db[i].records;
      ghost var done := db[..i];
      sh := WriteProduct(sh, done, product, skcs, col);
      assert db[..i + 1] == done + [Group(product, skcs)];
      col := col + 2;
      i := i + 1;
      progress := progress + [Percent(i, |db|)];
    }
    assert db[..i] == db;
    PercentBounds(|db|);
  }


  /** The progress values stay within 0..100, never go down, and reach 100 at the end. */
  lemma PercentBounds(n: nat)
    ensures forall i :: 1 <= i <= n ==> 0 <= Percent(i, n) <= 100
    ensures forall i, j :: 1 <= i <= j <= n ==> Percent(i, n) <= Percent(j, n)
    ensures n > 0 ==> Percent(n, n) == 100
  {
    if n > 0 {
      DivUnique(n * 100, n, 100);
      forall i, j | 1 <= i <= j <= n ensures Percent(i, n) <= Percent(j, n) {
        DivMonotone(i * 100, j * 100, n);
      }
      forall i | 1 <= i <= n ensures 0 <= Percent(i, n) <= 100 {
        DivMonotone(i * 100, n * 100, n);
        DivMonotone(0, i * 100, n);
      }
    }
  }

  lemma DivUnique(a: int, d: int, q: int)
    requires d > 0 && d * q <= a < d * q + d
    ensures a / d == q
  {
    var q' := a / d;
    if q' < q {
      MulMonotone(d, q' + 1, q);
      assert false;
    } else if q' > q {
      MulMonotone(d, q + 1, q');
      assert false;
    }
  }

  lemma MulMonotone(d: nat, x: int, y: int)
    requires x <= y
    ensures d * x <= d * y
  {
  }

  lemma DivMonotone(a: nat, b: nat, d: nat)
    requires a <= b && d > 0
    ensures a / d <= b / d
  {
    var qa, qb := a / d, b / d;
    if qa > qb {
      MulMonotone(d, qb + 1, qa);
      assert false;
    }
  }

  // ----- import: import_excel_data -----

  /** The rows 4..last of the pair starting at column col, as (strip(skc), status) for
      every row whose two cells both hold a value. */
  function Candidates(sh: Sheet, col: int, last: int): (r: seq<Record>)
    ensures |r| <= Max(last - 3, 0)
    decreases last
  {
    if last < 4 then []
    else
      Candidates(sh, col, last - 1) +
      (if Cell(sh, last, col) != "" && Cell(sh, last, col + 1) != ""
       then [Record(Strip(Cell(sh, last, col)), Cell(sh, last, col + 1))] else [])
  }

  /** One column pair: skipped when its row-1 cell is empty; otherwise its product is made
      a key and receives the candidates no product holds yet. */
  function ImportPair(db: Store, sh: Sheet, col: int): (r: Store)
    ensures |db| <= |r| <= |db| + 1
  {
    var p := Cell(sh, 1, col);
    if p == "" then db else AppendTo(db, p, Fresh(db, Candidates(sh, col, sh.maxRow)))
  }

  /** One row of a pair: with the earlier rows read, the row's record goes last under
      the product exactly when both its cells hold a value and no product holds its
      stripped code yet. */
  lemma ImportRowStep(db: Store, p: string, sh: Sheet, col: int, row: int, cur: Store)
    requires row >= 4 && cur == AppendTo(db, p, Fresh(db, Candidates(sh, col, row - 1)))
    ensures var skc, st := Cell(sh, row, col), Cell(sh, row, col + 1);
      var takes := skc != "" && st != "" && !Has(cur, Strip(skc));
      && Fresh(db, Candidates(sh, col, row)) == Fresh(db, Candidates(sh, col, row - 1)) + (if takes then [Record(Strip(skc), st)] else [])
      && AppendTo(db, p, Fresh(db, Candidates(sh, col, row))) ==
        if takes then AppendTo(cur, p, [Record(Strip(skc), st)]) else cur
  {
    var offered := Candidates(sh, col, row - 1);
    var skc, st := Cell(sh, row, col), Cell(sh, row, col + 1);
    if skc != "" && st != "" {
      FreshInsertStep(db, p, offered, Record(Strip(skc), st));
    } else {
      assert offered + [] == offered;
    }
  }

  /** Whether row `row` of the pair at col inserts a record into d: both cells hold a
      value and no product holds the stripped code yet. */
  predicate Takes(d: Store, sh: Sheet, col: int, row: int) {
    Cell(sh, row, col) != "" && Cell(sh, row, col + 1) != "" && !Has(d, Strip(Cell(sh, row, col)))
  }

  /** The store after reading row `row` of the pair at col under p. */
  function TakeRow(d: Store, p: string, sh: Sheet, col: int, row: int): Store {
    if Takes(d, sh, col, row) then AppendTo(d, p, [Record(Strip(Cell(sh, row, col)), Cell(sh, row, col + 1))]) else d
  }

  /** Rows 4 to last of the pair at column col read one at a time into a store that
      already has p as a key, with the number of records inserted: a row's record goes
      last under p when both its cells hold a value and no product holds its stripped
      code yet. */
  function ReadRows(db: Store, p: string, sh: Sheet, col: int, last: int): (Store, nat)
    decreases last
  {
    if last < 4 then (db, 0)
    else
      var (d, n) := ReadRows(db, p, sh, col, last - 1);
      (TakeRow(d, p, sh, col, last), if Takes(d, sh, col, last) then n + 1 else n)
  }

  /** Reading the rows one at a time inserts exactly the fresh candidates, and counts them. */
  lemma {:induction false} ReadRowsFresh(db: Store, p: string, sh: Sheet, col: int, last: int)
    ensures var f := Fresh(db, Candidates(sh, col, last));
      ReadRows(AppendTo(db, p, []), p, sh, col, last) == (AppendTo(db, p, f), |f|)
    decreases last
  {
    if last < 4 {
      assert Candidates(sh, col, last) == [];
    } else {
      ReadRowsFresh(db, p, sh, col, last - 1);
      ImportRowStep(db, p, sh, col, last, AppendTo(db, p, Fresh(db, Candidates(sh, col, last - 1))));
    }
  }

  /** The first n pairs: columns 1, 3, ..., 2n - 1, in order. */
  function ImportPairs(db: Store, sh: Sheet, n: nat): Store {
    if n == 0 then db else ImportPair(ImportPairs(db, sh, n - 1), sh, 2 * n - 1)
  }

  /** How many columns range(1, max_column + 1, 2) visits. */
  function PairCount(sh: Sheet): (n: nat)
    ensures n == 0 || 2 * n - 1 <= sh.maxCol
    ensures sh.maxCol < 2 * n + 1
  {
    if sh.maxCol < 1 then 0 else (sh.maxCol + 1) / 2
  }

  function ImportSheet(db: Store, sh: Sheet): Store {
    ImportPairs(db, sh, PairCount(sh))
  }

  /** Every worksheet of the workbook, in order. */
  function ImportBook(db: Store, book: seq<Sheet>): Store {
    if book == [] then db else ImportSheet(ImportBook(db, book[..|book| - 1]), book[|book| - 1])
  }

  /** One pair keeps the store's shape, the project invariant and every record already
      there, and adds exactly the fresh candidates. */
  lemma ImportPairSpec(db: Store, sh: Sheet, col: int)
    ensures var r := ImportPair(db, sh, col);
      && Extends(db, r)
      && (Cell(sh, 1, col) != "" ==> Cell(sh, 1, col) in Products(r))
      && (forall s :: Has(r, s) <==> Has(db, s) || (Cell(sh, 1, col) != "" && s in Skcs(Candidates(sh, col, sh.maxRow))))
      && (WellFormed(db) ==> WellFormed(r))
      && (WellFormed(db) && Unique(db) ==> Unique(r))
  {
    var p := Cell(sh, 1, col);
    if p != "" {
      var f := Fresh(db, Candidates(sh, col, sh.maxRow));
      AppendToKeeps(db, p, f);
      FreshSkcs(db, Candidates(sh, col, sh.maxRow));
      FreshDistinct(db, Candidates(sh, col, sh.maxRow));
      if WellFormed(db) {
        AppendToPreserves(db, p, f);
      }
    } else {
      assert forall i :: 0 <= i < |db| ==> db[i].records[..|db[i].records|] == db[i].records;
    }
  }

  /** Importing a workbook keeps the store's shape, the project invariant and every
      record already present, with its product and status. */
  lemma {:induction false} ImportBookPreserves(db: Store, book: seq<Sheet>)
    ensures Extends(db, ImportBook(db, book))
    ensures WellFormed(db) ==> WellFormed(ImportBook(db, book))
    ensures WellFormed(db) && Unique(db) ==> Unique(ImportBook(db, book))
    decreases |book|, 0
  {
    if book == [] {
      assert forall i :: 0 <= i < |db| ==> db[i].records[..|db[i].records|] == db[i].records;
    } else {
      var m := ImportBook(db, book[..|book| - 1]);
      var sh := book[|book| - 1];
      ImportBookPreserves(db, book[..|book| - 1]);
      ImportPairsPreserves(m, sh, PairCount(sh));
      ExtendsTrans(db, m, ImportBook(db, book));
    }
  }

  lemma {:induction false} ImportPairsPreserves(db: Store, sh: Sheet, n: nat)
    ensures Extends(db, ImportPairs(db, sh, n))
    ensures WellFormed(db) ==> WellFormed(ImportPairs(db, sh, n))
    ensures WellFormed(db) && Unique(db) ==> Unique(ImportPairs(db, sh, n))
  {
    if n == 0 {
      assert forall i :: 0 <= i < |db| ==> db[i].records[..|db[i].records|] == db[i].records;
    } else {
      var m := ImportPairs(db, sh, n - 1);
      ImportPairsPreserves(db, sh, n - 1);
      ImportPairSpec(m, sh, 2 * n - 1);
      ExtendsTrans(db, m, ImportPairs(db, sh, n));
    }
  }

  // ----- the round trip -----

  /** No whitespace at either end of a non-empty code: strip() leaves it alone. */
  predicate Trimmed(s: string) {
    s != [] && !IsSpace(s[0]) && !IsSpace(s[|s| - 1])
  }

  /** The stores the export writes in a form the import reads back unchanged: product
      names and statuses are non-empty (an empty cell is skipped) and codes are trimmed. */
  predicate Readable(db: Store) {
    forall i :: 0 <= i < |db| ==>
      && db[i].product != ""
      && forall j :: 0 <= j < |db[i].records| ==>
           Trimmed(db[i].records[j].skc) && db[i].records[j].status != ""
  }

  /** The cells of the k-th pair of an exported sheet. */
  lemma ExportedCell(db: Store, sh: Sheet, k: nat, r: int)
    requires Exported(db, sh) && k < |db|
    ensures Cell(sh, r, 2 * k + 1) == GroupCell(db[k], r, true)
    ensures Cell(sh, r, 2 * k + 2) == GroupCell(db[k], r, false)
  {
    LayoutAt(db, k, r);
    assert Cell(sh, r, 2 * k + 1) == LayoutCell(db, r, 2 * k + 1);
    assert Cell(sh, r, 2 * k + 2) == LayoutCell(db, r, 2 * k + 2);
  }

  lemma ReadableAt(db: Store, k: nat, j: nat)
    requires Readable(db) && k < |db| && j < |db[k].records|
    ensures db[k].product != ""
    ensures Strip(db[k].records[j].skc) == db[k].records[j].skc != "" && db[k].records[j].status != ""
  {
    StripTrimmed(db[k].records[j].skc);
  }

  /** The candidates of the k-th pair of an exported sheet are that product's records. */
  lemma {:induction false} CandidatesOfExport(db: Store, sh: Sheet, k: nat, last: int)
    requires Exported(db, sh) && Readable(db) && k < |db| && last >= 3
    ensures Candidates(sh, 2 * k + 1, last) == db[k].records[..Min(last - 3, |db[k].records|)]
  {
    var g := db[k];
    forall r | 4 <= r <= last
      ensures Cell(sh, r, 2 * k + 1) == GroupCell(g, r, true)
      ensures Cell(sh, r, 2 * k + 1 + 1) == GroupCell(g, r, false)
    {
      ExportedCell(db, sh, k, r);
    }
    forall j | 0 <= j < |g.records|
      ensures Strip(g.records[j].skc) == g.records[j].skc != "" && g.records[j].status != ""
    {
      ReadableAt(db, k, j);
    }
    CandidatesOfGroup(sh, 2 * k + 1, g, last);
  }

  /** The rows of a pair whose cells hold a product's records, one per row, read back as
      the first of those records. */
  lemma {:induction false} CandidatesOfGroup(sh: Sheet, col: int, g: Group, last: int)
    requires last >= 3
    requires forall r :: 4 <= r <= last ==>
      Cell(sh, r, col) == GroupCell(g, r, true) && Cell(sh, r, col + 1) == GroupCell(g, r, false)
    requires forall j :: 0 <= j < |g.records| ==>
      Strip(g.records[j].skc) == g.records[j].skc != "" && g.records[j].status != ""
    ensures Candidates(sh, col, last) == g.records[..Min(last - 3, |g.records|)]
    decreases last
  {
    var rs := g.records;
    if last >= 4 {
      CandidatesOfGroup(sh, col, g, last - 1);
      if last - 4 < |rs| {
        assert rs[..last - 3] == rs[..last - 4] + [rs[last - 4]];
      }
    }
  }

  /** Under the project invariant the codes of the n-th product are in none before it. */
  lemma UniqueBefore(db: Store, n: nat)
    requires Unique(db) && n < |db|
    ensures forall s :: s in Skcs(db[n].records) ==> !Has(db[..n], s)
  {
    assert forall k :: 0 <= k < n ==> db[..n][k] == db[k];
  }

  /** Product names are distinct, so the n-th is not among those before it. */
  lemma ProductsBefore(db: Store, n: nat)
    requires WellFormed(db) && n < |db|
    ensures Find(db[..n], db[n].product) < 0
  {
    assert forall k :: 0 <= k < n ==> db[..n][k].product == Products(db)[k] != Products(db)[n];
  }

  /** Reading the k-th pair of an exported sheet after the products before it appends
      the k-th product. */
  lemma PairOfExport(db: Store, sh: Sheet, k: nat)
    requires Exported(db, sh) && Readable(db) && WellFormed(db) && Unique(db) && k < |db|
    ensures ImportPair(db[..k], sh, 2 * k + 1) == db[..k + 1]
  {
    PairFacts(db, sh, k);
    PairOfGroup(db[..k], db[k], sh, 2 * k + 1);
    TakeNext(db, k);
  }

  /** The k-th pair of an exported sheet names the k-th product over exactly its
      records, and neither the product nor any of its codes occurs before it. */
  lemma PairFacts(db: Store, sh: Sheet, k: nat)
    requires Exported(db, sh) && Readable(db) && WellFormed(db) && Unique(db) && k < |db|
    ensures Cell(sh, 1, 2 * k + 1) == db[k].product != "" && Find(db[..k], db[k].product) < 0
    ensures Candidates(sh, 2 * k + 1, sh.maxRow) == db[k].records && Distinct(Skcs(db[k].records))
    ensures forall s :: s in Skcs(db[k].records) ==> !Has(db[..k], s)
  {
    var g := db[k];
    ExportedCell(db, sh, k, 1);
    assert g.product != "";
    CandidatesOfExport(db, sh, k, sh.maxRow);
    assert g.records[..|g.records|] == g.records;
    UniqueBefore(db, k);
    assert Distinct(Skcs(g.records));
    ProductsBefore(db, k);
  }

  /** Taking one more element of a prefix. Kept as a lemma of its own: proved where
      Exported and ImportPair are in scope, this sequence equality makes the solver
      unfold them and the proof of PairOfExport grows by an order of magnitude. */
  lemma TakeNext(db: Store, k: nat)
    requires k < |db|
    ensures db[..k] + [db[k]] == db[..k + 1]
  {
  }

  /** A pair that names a new product over exactly its records, none of them held yet,
      adds that product as it is. */
  lemma PairOfGroup(pre: Store, g: Group, sh: Sheet, col: int)
    requires Cell(sh, 1, col) == g.product != "" && Find(pre, g.product) < 0
    requires Candidates(sh, col, sh.maxRow) == g.records && Distinct(Skcs(g.records))
    requires forall s :: s in Skcs(g.records) ==> !Has(pre, s)
    ensures ImportPair(pre, sh, col) == pre + [g]
  {
    FreshAll(pre, g.records);
  }

  /** Each of the first n pairs of sh, read after the ones before it, adds the next
      product of db. */
  predicate PairsRebuild(db: Store, sh: Sheet, n: nat)
    requires n <= |db|
  {
    n == 0 || (PairsRebuild(db, sh, n - 1) && ImportPair(db[..n - 1], sh, 2 * (n - 1) + 1) == db[..n - 1 + 1])
  }

  /** Reading pairs one after another rebuilds a store when each pair rebuilds the next
      product. */
  lemma {:induction false} ImportPairsChain(db: Store, sh: Sheet, n: nat)
    requires n <= |db| && PairsRebuild(db, sh, n)
    ensures ImportPairs([], sh, n) == db[..n]
  {
    if n > 0 {
      ImportPairsChain(db, sh, n - 1);
    }
  }

  /** Pairs that each rebuild the next product rebuild the first n in a row. */
  lemma {:induction false} RebuildAll(db: Store, sh: Sheet, n: nat)
    requires n <= |db|
    requires forall k :: 0 <= k < n ==> ImportPair(db[..k], sh, 2 * k + 1) == db[..k + 1]
    ensures PairsRebuild(db, sh, n)
  {
    if n > 0 {
      RebuildAll(db, sh, n - 1);
    }
  }

  /** Reading the first n pairs of an exported sheet into an empty store gives the first
      n products back. */
  lemma ImportPairsOfExport(db: Store, sh: Sheet, n: nat)
    requires Exported(db, sh) && Readable(db) && WellFormed(db) && Unique(db)
    requires n <= |db|
    ensures ImportPairs([], sh, n) == db[..n]
  {
    forall k | 0 <= k < n
      ensures ImportPair(db[..k], sh, 2 * k + 1) == db[..k + 1]
    {
      PairOfExport(db, sh, k);
    }
    RebuildAll(db, sh, n);
    ImportPairsChain(db, sh, n);
  }

  /** Round trip: importing the export of a store into an empty store rebuilds it, with
      every product, code and status in the same order. */
  lemma ExportImportRoundTrip(db: Store, sh: Sheet)
    requires Exported(db, sh) && Readable(db) && WellFormed(db) && Unique(db)
    ensures ImportBook([], [sh]) == db
  {
    assert [sh][..0] == [];
    assert ImportBook([], [sh]) == ImportSheet([], sh);
    if db == [] {
      assert PairCount(sh) == 1;
      assert Cell(sh, 1, 1) == LayoutCell([], 1, 1) == "";
      assert ImportPairs([], sh, 1) == ImportPair([], sh, 1) == [];
    } else {
      assert (2 * |db| + 1) / 2 == |db|;
      assert PairCount(sh) == |db|;
      ImportPairsOfExport(db, sh, |db|);
      assert db[..|db|] == db;
    }
  }
}
