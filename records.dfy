/** The record store of one project: product code -> (SKC code -> status).
    Both levels are Python dicts, so both keep insertion order; the store is
    therefore a sequence of products, each holding a sequence of records. */
module Records {

  datatype Record = Record(skc: string, status: string)
  datatype Group = Group(product: string, records: seq<Record>)
  type Store = seq<Group>

  /** A value that may be missing: a dialog the user cancelled, a file that did not open. */
  datatype Option<T> = None | Some(value: T)

  function Min(a: int, b: int): int {
    if a <= b then a else b
  }

  function Max(a: int, b: int): int {
    if a < b then b else a
  }

  /** One line of the table view: (product, skc, status). */
  datatype Row = Row(product: string, skc: string, status: string)

  /** The keys of one product's dict, in order. */
  function Skcs(rs: seq<Record>): (ks: seq<string>)
    ensures |ks| == |rs|
  {
    seq(|rs|, k requires 0 <= k < |rs| => rs[k].skc)
  }

  /** The product keys of the store, in order. */
  function Products(db: Store): (ps: seq<string>)
    ensures |ps| == |db|
  {
    seq(|db|, i requires 0 <= i < |db| => db[i].product)
  }

  predicate Distinct<T(==)>(s: seq<T>) {
    forall i, j :: 0 <= i < j < |s| ==> s[i] != s[j]
  }

  /** Every store has this shape: its product keys are distinct and so are each product's SKC keys. */
  predicate WellFormed(db: Store) {
    && Distinct(Products(db))
    && forall i :: 0 <= i < |db| ==> Distinct(Skcs(db[i].records))
  }

  /** The project invariant: no SKC code appears under two products. */
  predicate Unique(db: Store) {
    forall i, j, s :: 0 <= i < |db| && 0 <= j < |db| && s in Skcs(db[i].records) && s in Skcs(db[j].records) ==> i == j
  }

  /** any(s in skcs for p, skcs in db.items()) */
  predicate Has(db: Store, s: string) {
    exists i :: 0 <= i < |db| && s in Skcs(db[i].records)
  }

  lemma SkcsAppend(a: seq<Record>, b: seq<Record>)
    ensures Skcs(a + b) == Skcs(a) + Skcs(b)
  {
  }

  // ----- inserting under a product (add_product, import_excel_data) -----

  /** Position of product p in the store, or -1 when p is not a key. */
  function Find(db: Store, p: string): (i: int)
    ensures -1 <= i < |db|
    ensures 0 <= i ==> db[i].product == p && forall k :: 0 <= k < i ==> db[k].product != p
    ensures i < 0 ==> forall k :: 0 <= k < |db| ==> db[k].product != p
  {
    if db == [] then -1
    else if db[0].product == p then 0
    else
      var j := Find(db[1..], p);
      if j < 0 then -1 else j + 1
  }

  /** The store after `if p not in db: db[p] = {}` followed by `db[p][r.skc] = r.status`
      for each r of rs, when no code of rs is already under p: a known product keeps its
      place and gets rs at the end of its records; an unknown one is added last. */
  function AppendTo(db: Store, p: string, rs: seq<Record>): (r: Store)
    ensures |db| <= |r| <= |db| + 1
  {
    var i := Find(db, p);
    if i < 0 then db + [Group(p, rs)] else db[i := Group(p, db[i].records + rs)]
  }

  predicate IsPrefix<T(==)>(a: seq<T>, b: seq<T>) {
    |a| <= |b| && b[..|a|] == a
  }

  /** Appending under p keeps every product, its place and its records (as a prefix),
      makes p a product, and adds exactly the codes of rs to the store. */
  lemma AppendToKeeps(db: Store, p: string, rs: seq<Record>)
    ensures var r := AppendTo(db, p, rs);
      && |r| == (if p in Products(db) then |db| else |db| + 1)
      && p in Products(r)
      && (forall i :: 0 <= i < |db| ==> r[i].product == db[i].product && IsPrefix(db[i].records, r[i].records))
      && (forall s :: Has(r, s) <==> Has(db, s) || s in Skcs(rs))
  {
    var r := AppendTo(db, p, rs);
    var i := Find(db, p);
    if i < 0 {
      assert Products(r)[|db|] == p;
      forall s ensures Has(r, s) <==> Has(db, s) || s in Skcs(rs) {
        if Has(r, s) {
          var k :| 0 <= k < |r| && s in Skcs(r[k].records);
          if k < |db| { assert r[k] == db[k]; }
        }
        if s in Skcs(rs) { assert s in Skcs(r[|db|].records); }
        if Has(db, s) {
          var k :| 0 <= k < |db| && s in Skcs(db[k].records);
          assert r[k] == db[k];
        }
      }
    } else {
      assert p in Products(db) by { assert Products(db)[i] == p; }
      assert Products(r)[i] == p;
      SkcsAppend(db[i].records, rs);
      assert r[i].records[..|db[i].records|] == db[i].records;
      forall s ensures Has(r, s) <==> Has(db, s) || s in Skcs(rs) {
        if Has(r, s) {
          var k :| 0 <= k < |r| && s in Skcs(r[k].records);
          if k != i { assert r[k] == db[k]; }
        }
        if s in Skcs(rs) { assert s in Skcs(r[i].records); }
        if Has(db, s) {
          var k :| 0 <= k < |db| && s in Skcs(db[k].records);
          if k != i { assert r[k] == db[k]; } else { assert s in Skcs(r[i].records); }
        }
      }
    }
    assert p in Products(db) <==> i >= 0 by {
      if p in Products(db) {
        var k :| 0 <= k < |db| && Products(db)[k] == p;
      }
    }
  }

  /** Inserting distinct codes that occur nowhere in the store keeps its shape and
      keeps every code under a single product. */
  lemma AppendToPreserves(db: Store, p: string, rs: seq<Record>)
    requires WellFormed(db)
    requires Distinct(Skcs(rs))
    requires forall s :: s in Skcs(rs) ==> !Has(db, s)
    ensures WellFormed(AppendTo(db, p, rs))
    ensures Unique(db) ==> Unique(AppendTo(db, p, rs))
  {
    var r := AppendTo(db, p, rs);
    var i := Find(db, p);
    if i < 0 {
      assert Products(r) == Products(db) + [p];
      forall k | 0 <= k < |r| ensures Distinct(Skcs(r[k].records)) {
        if k < |db| { assert r[k] == db[k]; }
      }
      if Unique(db) {
        forall a, b, s | 0 <= a < |r| && 0 <= b < |r| && s in Skcs(r[a].records) && s in Skcs(r[b].records)
          ensures a == b
        {
          if a < |db| { assert r[a] == db[a]; }
          if b < |db| { assert r[b] == db[b]; }
        }
      }
    } else {
      assert Products(r) == Products(db);
      SkcsAppend(db[i].records, rs);
      assert Distinct(Skcs(r[i].records)) by {
        var old_ks := Skcs(db[i].records);
        forall x, y | 0 <= x < y < |Skcs(r[i].records)| ensures Skcs(r[i].records)[x] != Skcs(r[i].records)[y] {
          if y >= |old_ks| && x < |old_ks| {
            assert Skcs(r[i].records)[x] in old_ks;
            assert Skcs(r[i].records)[y] in Skcs(rs);
          }
        }
      }
      forall k | 0 <= k < |r| ensures Distinct(Skcs(r[k].records)) {
        if k != i { assert r[k] == db[k]; }
      }
      if Unique(db) {
        forall a, b, s | 0 <= a < |r| && 0 <= b < |r| && s in Skcs(r[a].records) && s in Skcs(r[b].records)
          ensures a == b
        {
          if a != i { assert r[a] == db[a]; }
          if b != i { assert r[b] == db[b]; }
          if a == i && s !in Skcs(db[i].records) {
            assert s in Skcs(rs);
            assert b != i ==> Has(db, s);
          }
          if b == i && s !in Skcs(db[i].records) {
            assert s in Skcs(rs);
            assert a != i ==> Has(db, s);
          }
        }
      }
    }
  }

  /** Two insertions under the same product are one insertion of both batches. */
  lemma AppendToTwice(db: Store, p: string, a: seq<Record>, b: seq<Record>)
    ensures AppendTo(AppendTo(db, p, a), p, b) == AppendTo(db, p, a + b)
  {
    var i := Find(db, p);
    var m := AppendTo(db, p, a);
    if i < 0 {
      assert Find(m, p) == |db| by {
        assert m[|db|].product == p;
        assert forall k :: 0 <= k < |db| ==> m[k] == db[k];
      }
    } else {
      assert Find(m, p) == i by {
        assert m[i].product == p;
        assert forall k :: 0 <= k < i ==> m[k] == db[k];
      }
      assert db[i].records + a + b == db[i].records + (a + b);
    }
  }

  /** The records of rs that an insertion loop actually inserts: those whose code is in
      no product of db and did not come earlier in rs (the first one wins). */
  function Fresh(db: Store, rs: seq<Record>): (r: seq<Record>)
    ensures |r| <= |rs|
  {
    if rs == [] then []
    else
      var init, r := rs[..|rs| - 1], rs[|rs| - 1];
      Fresh(db, init) + (if Has(db, r.skc) || r.skc in Skcs(init) then [] else [r])
  }

  /** A code is inserted exactly when it is offered and the store does not hold it. */
  lemma {:induction false} FreshSkcs(db: Store, rs: seq<Record>)
    ensures forall s :: s in Skcs(Fresh(db, rs)) <==> s in Skcs(rs) && !Has(db, s)
  {
    if rs != [] {
      var init, r := rs[..|rs| - 1], rs[|rs| - 1];
      FreshSkcs(db, init);
      assert rs == init + [r];
      SkcsAppend(init, [r]);
      SkcsAppend(Fresh(db, init), if Has(db, r.skc) || r.skc in Skcs(init) then [] else [r]);
    }
  }

  /** No code is inserted twice. */
  lemma {:induction false} FreshDistinct(db: Store, rs: seq<Record>)
    ensures Distinct(Skcs(Fresh(db, rs)))
  {
    if rs != [] {
      var init, r := rs[..|rs| - 1], rs[|rs| - 1];
      FreshDistinct(db, init);
      FreshSkcs(db, init);
      var f := Fresh(db, init);
      if !(Has(db, r.skc) || r.skc in Skcs(init)) {
        SkcsAppend(f, [r]);
        DistinctAppend(Skcs(f), r.skc);
      } else {
        assert Fresh(db, rs) == f;
      }
    }
  }

  /** Every inserted record is one of the offered records. */
  lemma {:induction false} FreshFromOffered(db: Store, rs: seq<Record>)
    ensures forall r :: r in Fresh(db, rs) ==> r in rs && !Has(db, r.skc)
  {
    if rs != [] {
      var init := rs[..|rs| - 1];
      FreshFromOffered(db, init);
      assert rs == init + [rs[|rs| - 1]];
    }
  }

  lemma DistinctAppend<T>(s: seq<T>, x: T)
    requires Distinct(s) && x !in s
    ensures Distinct(s + [x])
  {
    forall i, j | 0 <= i < j < |s| + 1 ensures (s + [x])[i] != (s + [x])[j] {
      if j == |s| { assert (s + [x])[i] == s[i]; }
    }
  }

  lemma DistinctPrepend<T>(x: T, s: seq<T>)
    requires Distinct(s) && x !in s
    ensures Distinct([x] + s)
  {
    forall i, j | 0 <= i < j < |s| + 1 ensures ([x] + s)[i] != ([x] + s)[j] {
      if i == 0 { assert ([x] + s)[j] == s[j - 1]; }
    }
  }

  /** The codes after the first record are distinct and do not include the first code. */
  lemma DistinctTail(rs: seq<Record>)
    requires rs != [] && Distinct(Skcs(rs))
    ensures Distinct(Skcs(rs[1..])) && rs[0].skc !in Skcs(rs[1..])
  {
    assert forall k :: 0 <= k < |rs| - 1 ==> Skcs(rs[1..])[k] == Skcs(rs)[k + 1];
    assert Skcs(rs)[0] == rs[0].skc;
  }

  lemma FreshStep(db: Store, rs: seq<Record>, r: Record)
    ensures Fresh(db, rs + [r]) == Fresh(db, rs) + (if Has(db, r.skc) || r.skc in Skcs(rs) then [] else [r])
  {
    assert (rs + [r])[..|rs|] == rs;
  }

  lemma {:induction false} DistinctCard<T>(s: seq<T>)
    requires Distinct(s)
    ensures |set x | x in s| == |s|
  {
    if s != [] {
      var init := s[..|s| - 1];
      DistinctCard(init);
      assert (set x | x in s) == (set x | x in init) + {s[|s| - 1]};
      assert s[|s| - 1] !in init;
    }
  }

  /** The number of inserted records is the number of distinct offered codes the store
      did not hold: an absent code offered twice counts once. */
  lemma FreshCount(db: Store, rs: seq<Record>)
    ensures |Fresh(db, rs)| == |set s | s in Skcs(rs) && !Has(db, s)|
  {
    FreshSkcs(db, rs);
    FreshDistinct(db, rs);
    DistinctCard(Skcs(Fresh(db, rs)));
    assert (set s | s in Skcs(Fresh(db, rs))) == (set s | s in Skcs(rs) && !Has(db, s));
  }

  /** The records one status gives to the whitespace tokens of an add. */
  function Tag(toks: seq<string>, status: string): (rs: seq<Record>)
    ensures Skcs(rs) == toks
  {
    seq(|toks|, k requires 0 <= k < |toks| => Record(toks[k], status))
  }

  /** The records of the first i + 1 tokens are those of the first i and one more. */
  lemma TagSnoc(toks: seq<string>, i: nat, status: string)
    requires i < |toks|
    ensures Tag(toks[..i + 1], status) == Tag(toks[..i], status) + [Record(toks[i], status)]
  {
    var a, b := Tag(toks[..i + 1], status), Tag(toks[..i], status) + [Record(toks[i], status)];
    assert |a| == |b|;
    forall k | 0 <= k < |a| ensures a[k] == b[k] {
    }
  }

  /** When the offered codes are distinct and none is in the store, all are inserted. */
  lemma {:induction false} FreshAll(db: Store, rs: seq<Record>)
    requires Distinct(Skcs(rs))
    requires forall s :: s in Skcs(rs) ==> !Has(db, s)
    ensures Fresh(db, rs) == rs
  {
    if rs != [] {
      var init, r := rs[..|rs| - 1], rs[|rs| - 1];
      DistinctInit(rs);
      assert Skcs(rs)[|rs| - 1] == r.skc;
      FreshAll(db, init);
      assert init + [r] == rs;
    }
  }

  /** The codes before the last record are distinct and do not include the last code. */
  lemma DistinctInit(rs: seq<Record>)
    requires rs != [] && Distinct(Skcs(rs))
    ensures Distinct(Skcs(rs[..|rs| - 1])) && rs[|rs| - 1].skc !in Skcs(rs[..|rs| - 1])
    ensures forall s :: s in Skcs(rs[..|rs| - 1]) ==> s in Skcs(rs)
  {
    var ks, n := Skcs(rs[..|rs| - 1]), |rs| - 1;
    assert forall k :: 0 <= k < n ==> ks[k] == Skcs(rs)[k];
    forall i, j | 0 <= i < j < n ensures ks[i] != ks[j] {
      assert ks[i] == Skcs(rs)[i] && ks[j] == Skcs(rs)[j];
    }
    assert Skcs(rs)[n] == rs[n].skc;
  }

  /** Appending rs under a product adds |rs| records to the store. */
  lemma RecordCountAppendTo(db: Store, p: string, rs: seq<Record>)
    ensures RecordCount(AppendTo(db, p, rs)) == RecordCount(db) + |rs|
  {
    var i := Find(db, p);
    if i < 0 {
      assert (db + [Group(p, rs)])[..|db|] == db;
    } else {
      RecordCountUpdate(db, i, Group(p, db[i].records + rs));
    }
  }

  /** r holds db as its beginning: every product of db keeps its place, and its records
      keep their codes, statuses and order at the front of the product. */
  predicate Extends(db: Store, r: Store) {
    |db| <= |r| && forall i :: 0 <= i < |db| ==> r[i].product == db[i].product && IsPrefix(db[i].records, r[i].records)
  }

  lemma ExtendsTrans(a: Store, b: Store, c: Store)
    requires Extends(a, b) && Extends(b, c)
    ensures Extends(a, c)
  {
    forall i | 0 <= i < |a| ensures c[i].product == a[i].product && IsPrefix(a[i].records, c[i].records) {
      assert c[i].records[..|b[i].records|][..|a[i].records|] == c[i].records[..|a[i].records|];
    }
  }

  /** One step of an insertion loop: once the fresh records among rs are under p, the
      next offered record r is skipped exactly when the store then holds its code, and
      otherwise goes last under p. */
  lemma FreshInsertStep(db: Store, p: string, rs: seq<Record>, r: Record)
    ensures var cur := AppendTo(db, p, Fresh(db, rs));
      && Fresh(db, rs + [r]) == Fresh(db, rs) + (if Has(cur, r.skc) then [] else [r])
      && AppendTo(db, p, Fresh(db, rs + [r])) == if Has(cur, r.skc) then cur else AppendTo(cur, p, [r])
  {
    var f := Fresh(db, rs);
    FreshStep(db, rs, r);
    AppendToKeeps(db, p, f);
    FreshSkcs(db, rs);
    AppendToTwice(db, p, f, [r]);
    assert f + [] == f;
  }

  /** Inserting the fresh records keeps the store's shape and the project invariant. */
  lemma AppendFreshPreserves(db: Store, p: string, rs: seq<Record>)
    requires WellFormed(db)
    ensures WellFormed(AppendTo(db, p, Fresh(db, rs)))
    ensures Unique(db) ==> Unique(AppendTo(db, p, Fresh(db, rs)))
  {
    FreshSkcs(db, rs);
    FreshDistinct(db, rs);
    AppendToPreserves(db, p, Fresh(db, rs));
  }

  // ----- batch modify -----

  /** The records with every listed code set to status. */
  function RelabelRecords(rs: seq<Record>, toks: seq<string>, status: string): seq<Record> {
    seq(|rs|, j requires 0 <= j < |rs| => if rs[j].skc in toks then Record(rs[j].skc, status) else rs[j])
  }

  /** The store with every occurrence of every listed code set to status. */
  function Relabel(db: Store, toks: seq<string>, status: string): Store {
    seq(|db|, i requires 0 <= i < |db| => Group(db[i].product, RelabelRecords(db[i].records, toks, status)))
  }

  /** Batch modify changes statuses only: products, their order, each product's codes and
      their order stay, so the shape and the project invariant are kept. */
  lemma RelabelKeepsKeys(db: Store, toks: seq<string>, status: string)
    ensures var r := Relabel(db, toks, status);
      && Products(r) == Products(db)
      && (forall i :: 0 <= i < |db| ==> Skcs(r[i].records) == Skcs(db[i].records))
      && (forall s :: Has(r, s) <==> Has(db, s))
      && (WellFormed(db) ==> WellFormed(r))
      && (Unique(db) ==> Unique(r))
  {
    var r := Relabel(db, toks, status);
    assert forall i :: 0 <= i < |db| ==> Skcs(r[i].records) == Skcs(db[i].records);
  }

  /** Relabelling with more codes in two rounds is relabelling once with all of them. */
  lemma RelabelTwice(db: Store, a: seq<string>, b: seq<string>, status: string)
    ensures Relabel(Relabel(db, a, status), b, status) == Relabel(db, a + b, status)
  {
    forall i | 0 <= i < |db|
      ensures RelabelRecords(RelabelRecords(db[i].records, a, status), b, status) == RelabelRecords(db[i].records, a + b, status)
    {
      var rs := db[i].records;
      forall j | 0 <= j < |rs|
        ensures RelabelRecords(RelabelRecords(rs, a, status), b, status)[j] == RelabelRecords(rs, a + b, status)[j]
      {
        assert rs[j].skc in a + b <==> rs[j].skc in a || rs[j].skc in b;
      }
    }
  }

  lemma RelabelNothing(db: Store, status: string)
    ensures Relabel(db, [], status) == db
  {
    forall i | 0 <= i < |db| ensures RelabelRecords(db[i].records, [], status) == db[i].records {
    }
  }

  /** Relabelling a code a product does not hold leaves its records alone. */
  lemma RelabelAbsent(rs: seq<Record>, s: string, status: string)
    requires s !in Skcs(rs)
    ensures RelabelRecords(rs, [s], status) == rs
  {
    forall j | 0 <= j < |rs| ensures RelabelRecords(rs, [s], status)[j] == rs[j] {
      assert Skcs(rs)[j] == rs[j].skc;
    }
  }

  /** Number of products holding code s. */
  function Occurrences(db: Store, s: string): nat {
    if db == [] then 0
    else Occurrences(db[..|db| - 1], s) + (if s in Skcs(db[|db| - 1].records) then 1 else 0)
  }

  /** The `modified` counter of batch modify: one per product holding each listed code. */
  function Hits(db: Store, toks: seq<string>): nat {
    if toks == [] then 0 else Hits(db, toks[..|toks| - 1]) + Occurrences(db, toks[|toks| - 1])
  }

  /** The listed codes held by no product, in input order. */
  function Missing(db: Store, toks: seq<string>): seq<string> {
    if toks == [] then []
    else
      var t := toks[|toks| - 1];
      Missing(db, toks[..|toks| - 1]) + (if Has(db, t) then [] else [t])
  }

  /** Occurrences depend on each product's codes only. */
  lemma {:induction false} OccurrencesSameCodes(a: Store, b: Store, s: string)
    requires |a| == |b|
    requires forall i :: 0 <= i < |a| ==> Skcs(a[i].records) == Skcs(b[i].records)
    ensures Occurrences(a, s) == Occurrences(b, s)
  {
    if a != [] {
      OccurrencesSameCodes(a[..|a| - 1], b[..|b| - 1], s);
    }
  }

  /** One round of batch modify, seen from the store the earlier rounds left: the next
      token adds its occurrences there to the counter, is reported when that store does
      not hold it, and relabelling it there is relabelling all tokens so far at once. */
  lemma ModifyStep(db: Store, toks: seq<string>, i: nat, status: string)
    requires i < |toks|
    ensures var cur, t := Relabel(db, toks[..i], status), toks[i];
      && Hits(db, toks[..i + 1]) == Hits(db, toks[..i]) + Occurrences(cur, t)
      && Missing(db, toks[..i + 1]) == Missing(db, toks[..i]) + (if Has(cur, t) then [] else [t])
      && Relabel(cur, [t], status) == Relabel(db, toks[..i + 1], status)
  {
    var cur, t := Relabel(db, toks[..i], status), toks[i];
    assert toks[..i + 1] == toks[..i] + [t];
    assert toks[..i + 1][..i] == toks[..i];
    RelabelKeepsKeys(db, toks[..i], status);
    OccurrencesSameCodes(cur, db, t);
    RelabelTwice(db, toks[..i], [t], status);
  }

  /** A code is held by some product exactly when it occurs at least once, and by at most
      one under the project invariant. */
  lemma {:induction false} OccurrencesHas(db: Store, s: string)
    ensures Occurrences(db, s) > 0 <==> Has(db, s)
    ensures Unique(db) ==> Occurrences(db, s) <= 1
  {
    if db != [] {
      var init := db[..|db| - 1];
      OccurrencesHas(init, s);
      assert forall k :: 0 <= k < |init| ==> init[k] == db[k];
      if Has(db, s) && !Has(init, s) {
        var k :| 0 <= k < |db| && s in Skcs(db[k].records);
        assert k == |db| - 1;
      }
      if Unique(db) {
        assert Unique(init);
        if Has(init, s) {
          var k :| 0 <= k < |init| && s in Skcs(init[k].records);
          assert s !in Skcs(db[|db| - 1].records);
        }
      }
    }
  }

  /** Under the project invariant every listed code is either modified once or reported
      not found: modified + |not_found| == number of tokens. */
  lemma {:induction false} ModifyAccounts(db: Store, toks: seq<string>)
    requires Unique(db)
    ensures Hits(db, toks) + |Missing(db, toks)| == |toks|
  {
    if toks != [] {
      ModifyAccounts(db, toks[..|toks| - 1]);
      OccurrencesHas(db, toks[|toks| - 1]);
    }
  }

  /** not_found holds exactly the listed codes no product holds. */
  lemma {:induction false} MissingMembers(db: Store, toks: seq<string>)
    ensures forall t :: t in Missing(db, toks) <==> t in toks && !Has(db, t)
  {
    if toks != [] {
      var init := toks[..|toks| - 1];
      MissingMembers(db, init);
      assert toks == init + [toks[|toks| - 1]];
    }
  }

  // ----- batch delete -----

  /** The records whose code is not listed, in their original order. */
  function Drop(rs: seq<Record>, toks: seq<string>): seq<Record> {
    if rs == [] then []
    else (if rs[0].skc in toks then [] else [rs[0]]) + Drop(rs[1..], toks)
  }

  /** The store with every listed code deleted from every product; products stay, even empty. */
  function Purge(db: Store, toks: seq<string>): Store {
    seq(|db|, i requires 0 <= i < |db| => Group(db[i].product, Drop(db[i].records, toks)))
  }

  /** Drop keeps exactly the records whose code is not listed. */
  lemma {:induction false} DropMembers(rs: seq<Record>, toks: seq<string>)
    ensures forall r :: r in Drop(rs, toks) <==> r in rs && r.skc !in toks
    ensures forall s :: s in Skcs(Drop(rs, toks)) <==> s in Skcs(rs) && s !in toks
  {
    if rs != [] {
      DropMembers(rs[1..], toks);
      assert rs == [rs[0]] + rs[1..];
      SkcsAppend([rs[0]], rs[1..]);
      SkcsAppend(if rs[0].skc in toks then [] else [rs[0]], Drop(rs[1..], toks));
    }
  }

  /** Drop keeps distinct codes distinct. */
  lemma {:induction false} DropDistinct(rs: seq<Record>, toks: seq<string>)
    requires Distinct(Skcs(rs))
    ensures Distinct(Skcs(Drop(rs, toks)))
  {
    if rs != [] {
      DistinctTail(rs);
      DropDistinct(rs[1..], toks);
      DropMembers(rs[1..], toks);
      var d := Drop(rs[1..], toks);
      if rs[0].skc in toks {
        assert Drop(rs, toks) == d;
      } else {
        assert Drop(rs, toks) == [rs[0]] + d;
        SkcsAppend([rs[0]], d);
        assert Skcs([rs[0]]) == [rs[0].skc];
        DistinctPrepend(rs[0].skc, Skcs(d));
      }
    }
  }

  lemma {:induction false} DropTwice(rs: seq<Record>, a: seq<string>, b: seq<string>)
    ensures Drop(Drop(rs, a), b) == Drop(rs, a + b)
  {
    if rs != [] {
      DropTwice(rs[1..], a, b);
      var d := Drop(rs, a);
      assert rs[0].skc in a + b <==> rs[0].skc in a || rs[0].skc in b;
      if rs[0].skc in a {
        assert d == Drop(rs[1..], a);
        assert Drop(rs, a + b) == Drop(rs[1..], a + b);
      } else {
        assert d == [rs[0]] + Drop(rs[1..], a);
        assert d[0] == rs[0] && d[1..] == Drop(rs[1..], a);
      }
    }
  }

  /** With distinct codes, deleting one code removes one record if present, none otherwise. */
  lemma {:induction false} DropOne(rs: seq<Record>, t: string)
    requires Distinct(Skcs(rs))
    ensures |Drop(rs, [t])| == |rs| - (if t in Skcs(rs) then 1 else 0)
  {
    if rs != [] {
      DistinctTail(rs);
      DropOne(rs[1..], t);
      assert t in Skcs(rs) <==> t == rs[0].skc || t in Skcs(rs[1..]) by {
        assert Skcs(rs) == [rs[0].skc] + Skcs(rs[1..]);
      }
    }
  }

  /** Deleting a code a product does not hold leaves its records alone. */
  lemma {:induction false} DropAbsent(rs: seq<Record>, s: string)
    requires s !in Skcs(rs)
    ensures Drop(rs, [s]) == rs
  {
    if rs != [] {
      assert Skcs(rs)[0] == rs[0].skc;
      assert forall j :: 0 <= j < |rs| - 1 ==> Skcs(rs[1..])[j] == Skcs(rs)[j + 1];
      DropAbsent(rs[1..], s);
      assert [rs[0]] + rs[1..] == rs;
    }
  }

  lemma PurgeNothing(db: Store)
    ensures Purge(db, []) == db
  {
    forall i | 0 <= i < |db| ensures Drop(db[i].records, []) == db[i].records {
      DropNothing(db[i].records);
    }
  }

  /** Deleting in two rounds is deleting once with all the codes. */
  lemma PurgeTwice(db: Store, a: seq<string>, b: seq<string>)
    ensures Purge(Purge(db, a), b) == Purge(db, a + b)
  {
    forall i | 0 <= i < |db| ensures Drop(Drop(db[i].records, a), b) == Drop(db[i].records, a + b) {
      DropTwice(db[i].records, a, b);
    }
  }

  /** Batch delete removes every listed code and nothing else: products and their order
      stay, the codes left are exactly the unlisted ones, and shape and invariant are kept. */
  lemma PurgeKeeps(db: Store, toks: seq<string>)
    ensures var r := Purge(db, toks);
      && Products(r) == Products(db)
      && (forall s :: Has(r, s) <==> Has(db, s) && s !in toks)
      && (WellFormed(db) ==> WellFormed(r))
      && (Unique(db) ==> Unique(r))
  {
    var r := Purge(db, toks);
    forall i | 0 <= i < |db|
      ensures forall s :: s in Skcs(r[i].records) <==> s in Skcs(db[i].records) && s !in toks
    {
      DropMembers(db[i].records, toks);
    }
    if WellFormed(db) {
      forall i | 0 <= i < |db| ensures Distinct(Skcs(r[i].records)) {
        DropDistinct(db[i].records, toks);
      }
    }
  }

  /** Total number of records in the store. */
  function RecordCount(db: Store): nat {
    if db == [] then 0 else RecordCount(db[..|db| - 1]) + |db[|db| - 1].records|
  }

  lemma {:induction false} RecordCountUpdate(db: Store, i: nat, g: Group)
    requires i < |db|
    ensures RecordCount(db[i := g]) == RecordCount(db) - |db[i].records| + |g.records|
  {
    if i < |db| - 1 {
      RecordCountUpdate(db[..|db| - 1], i, g);
      assert db[i := g][..|db| - 1] == db[..|db| - 1][i := g];
    } else {
      assert db[i := g][..|db| - 1] == db[..|db| - 1];
    }
  }

  /** The codes batch delete reports as not found: a code no product held, or one
      already deleted by an earlier occurrence of it in the input. */
  function Misses(db: Store, toks: seq<string>): seq<string> {
    if toks == [] then []
    else
      var init, t := toks[..|toks| - 1], toks[|toks| - 1];
      Misses(db, init) + (if Has(db, t) && t !in init then [] else [t])
  }

  /** One round of batch delete, seen from the store the earlier rounds left: the next
      token is reported when that store does not hold it, and deleting it there is
      deleting all tokens so far at once. */
  lemma DeleteStep(db: Store, toks: seq<string>, i: nat)
    requires i < |toks|
    ensures var cur, t := Purge(db, toks[..i]), toks[i];
      && Misses(db, toks[..i + 1]) == Misses(db, toks[..i]) + (if Has(cur, t) then [] else [t])
      && Purge(cur, [t]) == Purge(db, toks[..i + 1])
      && (WellFormed(db) ==> WellFormed(cur) && RecordCount(Purge(cur, [t])) + Occurrences(cur, t) == RecordCount(cur))
  {
    var t, cur := toks[i], Purge(db, toks[..i]);
    assert toks[..i + 1] == toks[..i] + [t];
    assert toks[..i + 1][..i] == toks[..i];
    PurgeKeeps(db, toks[..i]);
    PurgeTwice(db, toks[..i], [t]);
    if WellFormed(db) {
      assert WellFormed(cur);
      PurgeCount(cur, t);
    }
  }

  /** Deleting one code from a store that keeps the project invariant removes one record
      if some product holds it and none otherwise. */
  lemma PurgeOne(db: Store, t: string)
    requires WellFormed(db) && Unique(db)
    ensures RecordCount(Purge(db, [t])) == RecordCount(db) - (if Has(db, t) then 1 else 0)
    decreases |db|
  {
    if db != [] {
      var init, last := db[..|db| - 1], db[|db| - 1];
      InitKeeps(db);
      PurgeOne(init, t);
      assert Purge(db, [t])[..|db| - 1] == Purge(init, [t]);
      DropOne(last.records, t);
      HasInit(db, t);
    }
  }

  /** Deleting one code removes one record from each product holding it. */
  lemma {:induction false} PurgeCount(db: Store, t: string)
    requires forall i :: 0 <= i < |db| ==> Distinct(Skcs(db[i].records))
    ensures RecordCount(Purge(db, [t])) + Occurrences(db, t) == RecordCount(db)
    decreases |db|
  {
    if db != [] {
      var init, last := db[..|db| - 1], db[|db| - 1];
      PurgeCount(init, t);
      assert Purge(db, [t])[..|db| - 1] == Purge(init, [t]);
      DropOne(last.records, t);
    }
  }

  /** Removing the last product keeps the store's shape and the project invariant. */
  lemma InitKeeps(db: Store)
    requires db != [] && WellFormed(db) && Unique(db)
    ensures WellFormed(db[..|db| - 1]) && Unique(db[..|db| - 1])
  {
    var init := db[..|db| - 1];
    assert Products(init) == Products(db)[..|db| - 1];
    assert forall k :: 0 <= k < |init| ==> init[k] == db[k];
  }

  /** A code is in the store iff it is in all but the last product or in the last one,
      and under the project invariant not in both. */
  lemma HasInit(db: Store, t: string)
    requires db != [] && Unique(db)
    ensures Has(db, t) <==> Has(db[..|db| - 1], t) || t in Skcs(db[|db| - 1].records)
    ensures Has(db[..|db| - 1], t) ==> t !in Skcs(db[|db| - 1].records)
  {
    var init := db[..|db| - 1];
    if Has(db, t) {
      var k :| 0 <= k < |db| && t in Skcs(db[k].records);
      if k < |init| { assert init[k] == db[k]; }
    }
    if Has(init, t) {
      var k :| 0 <= k < |init| && t in Skcs(init[k].records);
      assert init[k] == db[k];
    }
  }

  /** Under the project invariant every listed code is either deleted once or reported not
      found: deleted + |not_found| == number of tokens, where deleted is the drop in the
      record count. */
  lemma {:induction false} DeleteAccounts(db: Store, toks: seq<string>)
    requires WellFormed(db) && Unique(db)
    ensures RecordCount(db) - RecordCount(Purge(db, toks)) + |Misses(db, toks)| == |toks|
    ensures RecordCount(Purge(db, toks)) <= RecordCount(db)
  {
    if toks == [] {
      assert Purge(db, []) == db by {
        forall i | 0 <= i < |db| ensures Drop(db[i].records, []) == db[i].records {
          DropNothing(db[i].records);
        }
      }
    } else {
      var init, t := toks[..|toks| - 1], toks[|toks| - 1];
      DeleteAccounts(db, init);
      var mid := Purge(db, init);
      PurgeKeeps(db, init);
      PurgeOne(mid, t);
      PurgeTwice(db, init, [t]);
      assert init + [t] == toks;
    }
  }

  lemma {:induction false} DropNothing(rs: seq<Record>)
    ensures Drop(rs, []) == rs
  {
    if rs != [] {
      DropNothing(rs[1..]);
    }
  }

  // ----- the table view -----

  function GroupRows(g: Group): seq<Row> {
    seq(|g.records|, j requires 0 <= j < |g.records| => Row(g.product, g.records[j].skc, g.records[j].status))
  }

  /** [(p, skc, s) for p, skcs in db.items() for skc, s in skcs.items()] */
  function Rows(db: Store): (rows: seq<Row>)
    ensures |rows| == RecordCount(db)
  {
    if db == [] then [] else Rows(db[..|db| - 1]) + GroupRows(db[|db| - 1])
  }

  /** A row is shown exactly for each record, labelled with its product. */
  lemma {:induction false} RowsMembers(db: Store)
    ensures forall p, s, st :: Row(p, s, st) in Rows(db) <==>
      exists i :: 0 <= i < |db| && db[i].product == p && Record(s, st) in db[i].records
  {
    if db != [] {
      var init, g := db[..|db| - 1], db[|db| - 1];
      RowsMembers(init);
      forall p, s, st ensures Row(p, s, st) in Rows(db) <==>
        exists i :: 0 <= i < |db| && db[i].product == p && Record(s, st) in db[i].records
      {
        if Row(p, s, st) in GroupRows(g) {
          var j :| 0 <= j < |g.records| && GroupRows(g)[j] == Row(p, s, st);
          assert g.records[j] == Record(s, st);
          assert db[|db| - 1] == g;
        }
        if exists i :: 0 <= i < |db| && db[i].product == p && Record(s, st) in db[i].records {
          var i :| 0 <= i < |db| && db[i].product == p && Record(s, st) in db[i].records;
          if i < |init| {
            assert init[i] == db[i];
          } else {
            var j :| 0 <= j < |g.records| && g.records[j] == Record(s, st);
            assert GroupRows(g)[j] == Row(p, s, st);
          }
        }
        if exists i :: 0 <= i < |init| && init[i].product == p && Record(s, st) in init[i].records {
          var i :| 0 <= i < |init| && init[i].product == p && Record(s, st) in init[i].records;
          assert init[i] == db[i];
        }
      }
    }
  }
}
