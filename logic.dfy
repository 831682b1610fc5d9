/**
  * The record-store operations behind the main window's buttons
  * (SKCManagerLogic in logic_manager.py): add, batch modify, batch delete,
  * sort by status and workbook import. Each changes the current project's
  * store in place; what the user typed or picked arrives as parameters.
  */
module SkcLogic {
  import opened Text
  import opened Records
  import opened StatusSort
  import opened Spreadsheet

  /** What add reports: the product or the code field was blank, or how many codes went in. */
  datatype AddOutcome = NoProduct | NoSkc | Added(count: nat)

  /** What batch modify and batch delete report: the counter and the codes not found. */
  datatype Report = Report(count: nat, notFound: seq<string>)

  /** What the file dialog of the import yields: no path (cancelled), a file that
      load_workbook cannot open, or the worksheets of an opened workbook, in order. */
  datatype FileChoice = NoFile | Unopenable | Workbook(sheets: seq<Sheet>)

  /** Cancelled: no file was chosen; Unreadable: the warning about a file that did
      not open; Imported: the count shown in the final message. */
  datatype ImportOutcome = Cancelled | Unreadable | Imported(count: nat)

  /** A split() token is its own strip(). */
  lemma StripWord(w: string)
    requires IsWord(w)
    ensures Strip(w) == w
  {
    StripTrimmed(w);
  }

  class SkcManager {
    /** The current project's store. */
    var db: Store

    /** Product names and, within each product, codes are dictionary keys. */
    predicate Valid()
      reads this
    {
      WellFormed(db)
    }

    constructor (store: Store)
      requires WellFormed(store)
      ensures Valid() && db == store
    {
      db := store;
    }

    /**
      * add_product: both fields are stripped and must not be blank; the product
      * becomes a key if it is not one, then each whitespace token goes under it
      * unless some product already holds that code.
      */
    method AddSkcs(productText: string, skcText: string, status: string) returns (outcome: AddOutcome)
      requires Valid()
      modifies this
      ensures Valid()
      ensures Unique(old(db)) ==> Unique(db)
      ensures Strip(productText) == [] ==> outcome == NoProduct && db == old(db)
      ensures Strip(productText) != [] && Strip(skcText) == [] ==> outcome == NoSkc && db == old(db)
      ensures Strip(productText) != [] && Strip(skcText) != [] ==>
        var p, toks := Strip(productText), Words(skcText);
        && db == AppendTo(old(db), p, Fresh(old(db), Tag(toks, status)))
        && outcome == Added(|set s | s in toks && !Has(old(db), s)|)
        && Extends(old(db), db)
        && p in Products(db)
        && (forall s :: Has(db, s) <==> Has(old(db), s) || s in toks)
    {
      var product := Strip(productText);
      if product == [] {
        return NoProduct;
      }
      var text := Strip(skcText);
      if text == [] {
        return NoSkc;
      }
      ghost var db0 := db;
      db := AppendTo(db, product, []);
      var toks := Words(text);
      WordsAreWords(text);
      var added := 0;
      var i := 0;
      assert toks[..0] == [];
      while i < |toks|
        invariant 0 <= i <= |toks|
        invariant db == AppendTo(db0, product, Fresh(db0, Tag(toks[..i], status)))
        invariant added == |Fresh(db0, Tag(toks[..i], status))|
      {
        var s := Strip(toks[i]);
        StripWord(toks[i]);
        TagSnoc(toks, i, status);
        FreshInsertStep(db0, product, Tag(toks[..i], status), Record(s, status));
        if !Has(db, s) {
          db := AppendTo(db, product, [Record(s, status)]);
          added := added + 1;
        }
        i := i + 1;
      }
      assert toks[..i] == toks;
      WordsOfStrip(skcText);
      ghost var inserted := Fresh(db0, Tag(toks, status));
      FreshCount(db0, Tag(toks, status));
      FreshSkcs(db0, Tag(toks, status));
      AppendToKeeps(db0, product, inserted);
      AppendFreshPreserves(db0, product, Tag(toks, status));
      outcome := Added(added);
    }

    /**
      * The inner loop of batch modify for one code: every product holding s gets
      * status for it; hits counts those products.
      */
    method ModifyOne(s: string, status: string) returns (hits: nat, found: bool)
      modifies this
      ensures db == Relabel(old(db), [s], status)
      ensures hits == Occurrences(old(db), s)
      ensures found <==> Has(old(db), s)
    {
      ghost var before := db;
      hits, found := 0, false;
      var k := 0;
      while k < |db|
        invariant 0 <= k <= |db| == |before|
        invariant forall j :: 0 <= j < k ==> db[j] == Relabel(before, [s], status)[j]
        invariant forall j :: k <= j < |db| ==> db[j] == before[j]
        invariant hits == Occurrences(before[..k], s)
        invariant found <==> exists j :: 0 <= j < k && s in Skcs(before[j].records)
      {
        assert before[..k + 1][..k] == before[..k];
        if s in Skcs(db[k].records) {
          db := db[k := Group(db[k].product, RelabelRecords(db[k].records, [s], status))];
          hits := hits + 1;
          found := true;
        } else {
          RelabelAbsent(db[k].records, s, status);
        }
        k := k + 1;
      }
      assert before[..k] == before;
    }

    /**
      * batch_modify_skc: nothing happens when the code dialog gives no text or the
      * status picker is cancelled (status is None); otherwise every product holding
      * each whitespace token gets the chosen status, the counter counts one per
      * product found, and the tokens no product holds are reported in input order.
      */
    method BatchModify(text: string, choice: Option<string>) returns (report: Option<Report>)
      requires Valid()
      modifies this
      ensures Valid()
      ensures Unique(old(db)) ==> Unique(db)
      ensures text == [] || choice == None ==> report == None && db == old(db)
      ensures text != [] && choice != None ==>
        var toks := Words(text);
        && db == Relabel(old(db), toks, choice.value)
        && report == Some(Report(Hits(old(db), toks), Missing(old(db), toks)))
    {
      if text == [] || choice == None {
        return None;
      }
      var status := choice.value;
      var toks := Words(Strip(text));
      WordsAreWords(Strip(text));
      ghost var db0 := db;
      RelabelNothing(db0, status);
      var modified := 0;
      var notFound: seq<string> := [];
      var i := 0;
      assert toks[..0] == [];
      while i < |toks|
        invariant 0 <= i <= |toks|
        invariant db == Relabel(db0, toks[..i], status)
        invariant modified == Hits(db0, toks[..i])
        invariant notFound == Missing(db0, toks[..i])
      {
        var s := Strip(toks[i]);
        StripWord(toks[i]);
        ModifyStep(db0, toks, i, status);
        var hits, found := ModifyOne(s, status);
        modified := modified + hits;
        if !found {
          notFound := notFound + [s];
        }
        i := i + 1;
      }
      assert toks[..i] == toks;
      WordsOfStrip(text);
      RelabelKeepsKeys(db0, toks, status);
      report := Some(Report(modified, notFound));
    }

    /**
      * The inner loop of batch delete for one code: it goes from every product
      * holding it; hits counts those products.
      */
    method DeleteOne(s: string) returns (hits: nat, found: bool)
      modifies this
      ensures db == Purge(old(db), [s])
      ensures hits == Occurrences(old(db), s)
      ensures found <==> Has(old(db), s)
    {
      ghost var before := db;
      hits, found := 0, false;
      var k := 0;
      while k < |db|
        invariant 0 <= k <= |db| == |before|
        invariant forall j :: 0 <= j < k ==> db[j] == Purge(before, [s])[j]
        invariant forall j :: k <= j < |db| ==> db[j] == before[j]
        invariant hits == Occurrences(before[..k], s)
        invariant found <==> exists j :: 0 <= j < k && s in Skcs(before[j].records)
      {
        assert before[..k + 1][..k] == before[..k];
        if s in Skcs(db[k].records) {
          db := db[k := Group(db[k].product, Drop(db[k].records, [s]))];
          hits := hits + 1;
          found := true;
        } else {
          DropAbsent(db[k].records, s);
        }
        k := k + 1;
      }
      assert before[..k] == before;
    }

    /**
      * batch_delete_skc: nothing happens when the dialog text is empty; otherwise
      * each whitespace token is deleted from every product holding it, products
      * stay even when emptied, the counter is the number of records removed and a
      * token no product holds when its turn comes is reported.
      */
    method BatchDelete(text: string) returns (report: Option<Report>)
      requires Valid()
      modifies this
      ensures Valid()
      ensures Unique(old(db)) ==> Unique(db)
      ensures text == [] ==> report == None && db == old(db)
      ensures text != [] ==>
        var toks := Words(text);
        && db == Purge(old(db), toks)
        && report.Some? && report.value.notFound == Misses(old(db), toks)
        && RecordCount(db) + report.value.count == RecordCount(old(db))
    {
      if text == [] {
        return None;
      }
      var toks := Words(Strip(text));
      WordsAreWords(Strip(text));
      ghost var db0 := db;
      var deleted := 0;
      var notFound: seq<string> := [];
      var i := 0;
      assert toks[..0] == [];
      PurgeNothing(db0);
      while i < |toks|
        invariant 0 <= i <= |toks|
        invariant db == Purge(db0, toks[..i])
        invariant RecordCount(db) + deleted == RecordCount(db0)
        invariant notFound == Misses(db0, toks[..i])
      {
        var s := Strip(toks[i]);
        StripWord(toks[i]);
        DeleteStep(db0, toks, i);
        var hits, found := DeleteOne(s);
        deleted := deleted + hits;
        if !found {
          notFound := notFound + [s];
        }
        i := i + 1;
      }
      assert toks[..i] == toks;
      WordsOfStrip(text);
      PurgeKeeps(db0, toks);
      report := Some(Report(deleted, notFound));
    }

    /**
      * auto_sort_by_status: each product's records are replaced by their stable
      * sort by status rank; products keep their order.
      */
    method AutoSort()
      requires Valid()
      modifies this
      ensures Valid()
      ensures Unique(old(db)) ==> Unique(db)
      ensures db == SortAll(old(db))
    {
      ghost var db0 := db;
      var i := 0;
      while i < |db|
        invariant 0 <= i <= |db| == |db0|
        invariant forall j :: 0 <= j < i ==> db[j] == SortAll(db0)[j]
        invariant forall j :: i <= j < |db| ==> db[j] == db0[j]
      {
        db := db[i := Group(db[i].product, Sort(db[i].records))];
        i := i + 1;
      }
      assert db == SortAll(db0);
      SortAllPreserves(db0);
    }

    /**
      * The body of import's column loop: a pair whose row-1 cell is empty is
      * skipped; otherwise its product becomes a key and its rows are read.
      */
    method ImportColumn(sh: Sheet, col: int) returns (n: nat)
      modifies this
      ensures db == ImportPair(old(db), sh, col)
      ensures RecordCount(db) == RecordCount(old(db)) + n
    {
      n := 0;
      var product := Cell(sh, 1, col);
      if product == "" {
        return;
      }
      ghost var db0 := db;
      db := AppendTo(db, product, []);
      n := ImportRows(sh, col, product);
      ReadRowsFresh(db0, product, sh, col, sh.maxRow);
      RecordCountAppendTo(db0, product, Fresh(db0, Candidates(sh, col, sh.maxRow)));
    }

    /** The row loop of one pair: rows 4 to max_row, in order; n counts the insertions. */
    method ImportRows(sh: Sheet, col: int, product: string) returns (n: nat)
      modifies this
      ensures (db, n) == ReadRows(old(db), product, sh, col, sh.maxRow)
    {
      n := 0;
      var row := 4;
      while row <= sh.maxRow
        invariant 4 <= row && (row <= sh.maxRow + 1 || row == 4)
        invariant (db, n) == ReadRows(old(db), product, sh, col, row - 1)
      {
        var took := ImportRow(sh, col, product, row);
        if took {
          n := n + 1;
        }
        row := row + 1;
      }
    }

    /** One row of a pair. */
    method ImportRow(sh: Sheet, col: int, product: string, row: int) returns (took: bool)
      modifies this
      ensures db == TakeRow(old(db), product, sh, col, row)
      ensures took == Takes(old(db), sh, col, row)
    {
      took := false;
      var skc := Cell(sh, row, col);
      var status := Cell(sh, row, col + 1);
      if skc != "" && status != "" {
        var s := Strip(skc);
        if !Has(db, s) {
          db := AppendTo(db, product, [Record(s, status)]);
          took := true;
        }
      }
    }

    /** One worksheet: the pair at column 2k + 1 for each k below PairCount(sh), that is
        columns 1, 3, 5, ... up to max_column, in order. */
    method ImportWorksheet(sh: Sheet) returns (n: nat)
      modifies this
      ensures db == ImportSheet(old(db), sh)
      ensures RecordCount(db) == RecordCount(old(db)) + n
    {
      ghost var db0 := db;
      n := 0;
      var k := 0;
      while k < PairCount(sh)
        invariant k <= PairCount(sh)
        invariant db == ImportPairs(db0, sh, k)
        invariant RecordCount(db) == RecordCount(db0) + n
      {
        var m := ImportColumn(sh, 2 * k + 1);
        n := n + m;
        k := k + 1;
      }
    }

    /**
      * import_excel_data: a cancelled file dialog and a workbook that cannot be
      * opened change nothing; otherwise every worksheet is read in order, and the
      * count reported is the number of records inserted.
      */
    method ImportWorkbook(file: FileChoice) returns (outcome: ImportOutcome)
      requires Valid()
      modifies this
      ensures Valid()
      ensures file == NoFile ==> outcome == Cancelled && db == old(db)
      ensures file == Unopenable ==> outcome == Unreadable && db == old(db)
      ensures file.Workbook? ==>
        && db == ImportBook(old(db), file.sheets)
        && outcome.Imported? && RecordCount(db) == RecordCount(old(db)) + outcome.count
      ensures Extends(old(db), db)
      ensures Unique(old(db)) ==> Unique(db)
    {
      ghost var db0 := db;
      if !file.Workbook? {
        ImportBookPreserves(db, []);
        return if file == NoFile then Cancelled else Unreadable;
      }
      var sheets := file.sheets;
      var imported := 0;
      var b := 0;
      assert sheets[..0] == [];
      while b < |sheets|
        invariant 0 <= b <= |sheets|
        invariant db == ImportBook(db0, sheets[..b])
        invariant RecordCount(db) == RecordCount(db0) + imported
      {
        assert sheets[..b + 1][..b] == sheets[..b];
        var m := ImportWorksheet(sheets[b]);
        imported := imported + m;
        b := b + 1;
      }
      assert sheets[..b] == sheets;
      ImportBookPreserves(db0, sheets);
      outcome := Imported(imported);
    }
  }
}
