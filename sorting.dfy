/** Auto-sort: each product's records ordered by the position of their status in the
    fixed list of statuses, unknown statuses last, ties in their previous order
    (Python's sorted is stable). */
module StatusSort {
  import opened Records

  /** The statuses offered by the UI, in display order. */
  const StatusOptions: seq<string> := ["核价通过", "拉过库存", "已下架", "价格待定", "减少库存为0", "改过体积", "价格错误"]

  /** Position of the first x in xs, or |xs| when x does not occur. */
  function IndexOf(xs: seq<string>, x: string): (k: nat)
    ensures k <= |xs|
    ensures k < |xs| ==> xs[k] == x
    ensures forall j :: 0 <= j < k ==> xs[j] != x
  {
    if xs == [] then 0 else if xs[0] == x then 0 else 1 + IndexOf(xs[1..], x)
  }

  /** The sort key: status_options.index(st) if st in status_options else len(status_options). */
  function Rank(st: string): (r: nat)
    ensures r <= |StatusOptions|
    ensures st in StatusOptions <==> r < |StatusOptions|
    ensures st in StatusOptions ==> StatusOptions[r] == st
  {
    IndexOf(StatusOptions, st)
  }

  function Key(r: Record): nat {
    Rank(r.status)
  }

  predicate Sorted(rs: seq<Record>) {
    forall i, j :: 0 <= i < j < |rs| ==> Key(rs[i]) <= Key(rs[j])
  }

  /** Places r before the first record whose key is not smaller. */
  function Insert(r: Record, rs: seq<Record>): (s: seq<Record>)
    ensures |s| == |rs| + 1
  {
    if rs == [] then [r]
    else if Key(r) <= Key(rs[0]) then [r] + rs
    else [rs[0]] + Insert(r, rs[1..])
  }

  /** The stable sort of one product's records by key. */
  function Sort(rs: seq<Record>): (s: seq<Record>)
    ensures |s| == |rs|
  {
    if rs == [] then [] else Insert(rs[0], Sort(rs[1..]))
  }

  /** The records of key k, in order. */
  function OfKey(rs: seq<Record>, k: nat): seq<Record> {
    if rs == [] then [] else (if Key(rs[0]) == k then [rs[0]] else []) + OfKey(rs[1..], k)
  }

  lemma MultisetCons(rs: seq<Record>)
    requires rs != []
    ensures multiset(rs) == multiset{rs[0]} + multiset(rs[1..])
  {
    assert rs == [rs[0]] + rs[1..];
  }

  lemma {:induction false} InsertPermutes(r: Record, rs: seq<Record>)
    ensures multiset(Insert(r, rs)) == multiset{r} + multiset(rs)
  {
    if rs != [] && Key(r) > Key(rs[0]) {
      InsertPermutes(r, rs[1..]);
      MultisetCons(rs);
    }
  }

  /** The records after inserting r are r and the records before. */
  lemma {:induction false} InsertMembers(r: Record, rs: seq<Record>)
    ensures forall y :: y in Insert(r, rs) <==> y == r || y in rs
  {
    if rs != [] && Key(r) > Key(rs[0]) {
      InsertMembers(r, rs[1..]);
      assert rs == [rs[0]] + rs[1..];
    }
  }

  lemma SortedCons(x: Record, t: seq<Record>)
    requires Sorted(t) && forall y :: y in t ==> Key(x) <= Key(y)
    ensures Sorted([x] + t)
  {
    forall i, j | 0 <= i < j < |t| + 1 ensures Key(([x] + t)[i]) <= Key(([x] + t)[j]) {
      assert ([x] + t)[j] == t[j - 1];
      if i > 0 { assert ([x] + t)[i] == t[i - 1]; }
    }
  }

  lemma {:induction false} InsertSorted(r: Record, rs: seq<Record>)
    requires Sorted(rs)
    ensures Sorted(Insert(r, rs))
  {
    if rs == [] {
      SortedCons(r, []);
    } else if Key(r) <= Key(rs[0]) {
      SortedTail(rs);
      SortedCons(r, rs);
    } else {
      SortedTail(rs);
      InsertSorted(r, rs[1..]);
      InsertMembers(r, rs[1..]);
      SortedCons(rs[0], Insert(r, rs[1..]));
    }
  }

  lemma OfKeyCons(x: Record, t: seq<Record>, k: nat)
    ensures OfKey([x] + t, k) == (if Key(x) == k then [x] else []) + OfKey(t, k)
  {
    assert ([x] + t)[1..] == t;
  }

  /** Inserting r adds r to the records of its own key, in front, and leaves the others alone. */
  lemma {:induction false} InsertOfKey(r: Record, rs: seq<Record>, k: nat)
    ensures OfKey(Insert(r, rs), k) == (if Key(r) == k then [r] else []) + OfKey(rs, k)
  {
    if rs == [] {
      OfKeyCons(r, [], k);
      assert [r] + [] == [r];
    } else if Key(r) <= Key(rs[0]) {
      OfKeyCons(r, rs, k);
    } else {
      var t := Insert(r, rs[1..]);
      InsertOfKey(r, rs[1..], k);
      OfKeyCons(rs[0], t, k);
      OfKeyCons(rs[0], rs[1..], k);
      assert rs == [rs[0]] + rs[1..];
      if Key(rs[0]) == k {
        assert Key(r) != k;
      } else if Key(r) == k {
        assert OfKey(rs, k) == OfKey(rs[1..], k);
      }
    }
  }

  /** The result is ordered by key. */
  lemma {:induction false} SortSorted(rs: seq<Record>)
    ensures Sorted(Sort(rs))
  {
    if rs != [] {
      SortSorted(rs[1..]);
      InsertSorted(rs[0], Sort(rs[1..]));
    }
  }

  /** The result holds the same records, each as often. */
  lemma {:induction false} SortPermutes(rs: seq<Record>)
    ensures multiset(Sort(rs)) == multiset(rs)
  {
    if rs != [] {
      var t := Sort(rs[1..]);
      assert Sort(rs) == Insert(rs[0], t);
      SortPermutes(rs[1..]);
      InsertPermutes(rs[0], t);
      MultisetCons(rs);
    }
  }

  /** Stability: the records of each key keep their relative order. */
  lemma {:induction false} SortStable(rs: seq<Record>, k: nat)
    ensures OfKey(Sort(rs), k) == OfKey(rs, k)
  {
    if rs != [] {
      SortStable(rs[1..], k);
      InsertOfKey(rs[0], Sort(rs[1..]), k);
    }
  }

  /** Records that are already ordered are left as they are. */
  lemma {:induction false} SortOfSorted(rs: seq<Record>)
    requires Sorted(rs)
    ensures Sort(rs) == rs
  {
    if rs != [] {
      assert Sorted(rs[1..]) by {
        forall i, j | 0 <= i < j < |rs| - 1 ensures Key(rs[1..][i]) <= Key(rs[1..][j]) {
          assert rs[1..][i] == rs[i + 1] && rs[1..][j] == rs[j + 1];
        }
      }
      SortOfSorted(rs[1..]);
      if |rs| > 1 {
        assert Key(rs[0]) <= Key(rs[1]);
        assert rs == [rs[0]] + rs[1..];
      }
    }
  }

  lemma SortIdempotent(rs: seq<Record>)
    ensures Sort(Sort(rs)) == Sort(rs)
  {
    SortSorted(rs);
    SortOfSorted(Sort(rs));
  }

  lemma OfKeyHead(rs: seq<Record>)
    requires rs != []
    ensures OfKey(rs, Key(rs[0])) == [rs[0]] + OfKey(rs[1..], Key(rs[0]))
  {
  }

  lemma {:induction false} OfKeyMember(rs: seq<Record>, k: nat, y: Record)
    requires y in OfKey(rs, k)
    ensures y in rs && Key(y) == k
  {
    if rs != [] {
      if y != rs[0] || Key(rs[0]) != k {
        assert y in OfKey(rs[1..], k);
        OfKeyMember(rs[1..], k, y);
      }
    }
  }

  lemma SortedTail(rs: seq<Record>)
    requires rs != [] && Sorted(rs)
    ensures Sorted(rs[1..])
    ensures forall y :: y in rs[1..] ==> Key(rs[0]) <= Key(y)
  {
    forall i, j | 0 <= i < j < |rs| - 1 ensures Key(rs[1..][i]) <= Key(rs[1..][j]) {
      assert rs[1..][i] == rs[i + 1] && rs[1..][j] == rs[j + 1];
    }
    forall y | y in rs[1..] ensures Key(rs[0]) <= Key(y) {
      var j :| 0 <= j < |rs| - 1 && rs[1..][j] == y;
      assert rs[j + 1] == y;
    }
  }

  /** The first record of a is somewhere in b, so b does not start with a larger key. */
  lemma HeadKeyBound(a: seq<Record>, b: seq<Record>)
    requires a != [] && b != [] && Sorted(b)
    requires OfKey(a, Key(a[0])) == OfKey(b, Key(a[0]))
    ensures Key(b[0]) <= Key(a[0])
  {
    OfKeyHead(a);
    assert a[0] in OfKey(b, Key(a[0]));
    OfKeyMember(b, Key(a[0]), a[0]);
    SortedTail(b);
    assert a[0] == b[0] || a[0] in b[1..];
  }

  /** Two ordered sequences holding the same records of each key start with the same record. */
  lemma HeadKeys(a: seq<Record>, b: seq<Record>)
    requires a != [] && b != [] && Sorted(a) && Sorted(b)
    requires OfKey(a, Key(a[0])) == OfKey(b, Key(a[0])) && OfKey(a, Key(b[0])) == OfKey(b, Key(b[0]))
    ensures Key(a[0]) == Key(b[0]) && a[0] == b[0]
  {
    HeadKeyBound(a, b);
    HeadKeyBound(b, a);
    OfKeyHead(a);
    OfKeyHead(b);
    assert OfKey(a, Key(a[0]))[0] == a[0] && OfKey(b, Key(b[0]))[0] == b[0];
  }

  lemma TailsOfKey(a: seq<Record>, b: seq<Record>)
    requires a != [] && b != [] && a[0] == b[0]
    requires forall k :: OfKey(a, k) == OfKey(b, k)
    ensures forall k :: OfKey(a[1..], k) == OfKey(b[1..], k)
  {
    forall k ensures OfKey(a[1..], k) == OfKey(b[1..], k) {
      var h := if Key(a[0]) == k then [a[0]] else [];
      assert OfKey(a, k) == h + OfKey(a[1..], k);
      assert OfKey(b, k) == h + OfKey(b[1..], k);
      assert (h + OfKey(a[1..], k))[|h|..] == OfKey(a[1..], k);
      assert (h + OfKey(b[1..], k))[|h|..] == OfKey(b[1..], k);
    }
  }

  /** Two ordered sequences with the same records of each key, in the same order, are equal:
      Sort is the only ordered arrangement that keeps ties in place. */
  lemma {:induction false} StableSortUnique(a: seq<Record>, b: seq<Record>)
    requires Sorted(a) && Sorted(b)
    requires forall k :: OfKey(a, k) == OfKey(b, k)
    ensures a == b
    decreases |a|
  {
    if a == [] && b != [] {
      OfKeyHead(b);
      assert false;
    } else if a != [] && b == [] {
      OfKeyHead(a);
      assert false;
    } else if a != [] {
      HeadKeys(a, b);
      TailsOfKey(a, b);
      SortedTail(a);
      SortedTail(b);
      StableSortUnique(a[1..], b[1..]);
      assert a == [a[0]] + a[1..] && b == [b[0]] + b[1..];
    }
  }

  /** Sort agrees with every ordered, tie-preserving rearrangement of the records. */
  lemma SortCharacterised(rs: seq<Record>, s: seq<Record>)
    requires Sorted(s) && forall k :: OfKey(s, k) == OfKey(rs, k)
    ensures s == Sort(rs)
  {
    SortSorted(rs);
    forall k ensures OfKey(s, k) == OfKey(Sort(rs), k) {
      SortStable(rs, k);
    }
    StableSortUnique(s, Sort(rs));
  }

  lemma SkcsCons(x: Record, t: seq<Record>)
    ensures Skcs([x] + t) == [x.skc] + Skcs(t)
  {
  }

  /** Inserting a record with a new code keeps the codes distinct and adds its code. */
  lemma {:induction false} InsertSkcs(r: Record, rs: seq<Record>)
    ensures forall s :: s in Skcs(Insert(r, rs)) <==> s == r.skc || s in Skcs(rs)
    ensures Distinct(Skcs(rs)) && r.skc !in Skcs(rs) ==> Distinct(Skcs(Insert(r, rs)))
  {
    if rs == [] {
      assert Skcs([r]) == [r.skc];
    } else if Key(r) <= Key(rs[0]) {
      SkcsCons(r, rs);
      if Distinct(Skcs(rs)) && r.skc !in Skcs(rs) {
        DistinctPrepend(r.skc, Skcs(rs));
      }
    } else {
      var t := Insert(r, rs[1..]);
      InsertSkcs(r, rs[1..]);
      SkcsCons(rs[0], t);
      SkcsCons(rs[0], rs[1..]);
      assert rs == [rs[0]] + rs[1..];
      if Distinct(Skcs(rs)) && r.skc !in Skcs(rs) {
        DistinctTail(rs);
        DistinctPrepend(rs[0].skc, Skcs(t));
      }
    }
  }

  /** Sorting keeps one product's codes and their distinctness. */
  lemma {:induction false} SortSkcs(rs: seq<Record>)
    ensures forall s :: s in Skcs(Sort(rs)) <==> s in Skcs(rs)
    ensures Distinct(Skcs(rs)) ==> Distinct(Skcs(Sort(rs)))
  {
    if rs != [] {
      SortSkcs(rs[1..]);
      InsertSkcs(rs[0], Sort(rs[1..]));
      SkcsCons(rs[0], rs[1..]);
      assert rs == [rs[0]] + rs[1..];
      if Distinct(Skcs(rs)) {
        DistinctTail(rs);
      }
    }
  }

  // ----- the whole store -----

  /** `for product, skcs in list(db.items()): db[product] = dict(sorted(skcs.items(), key=...))`:
      reassigning an existing key keeps the product order. */
  function SortAll(db: Store): (r: Store)
    ensures |r| == |db|
  {
    seq(|db|, i requires 0 <= i < |db| => Group(db[i].product, Sort(db[i].records)))
  }

  /** Every product keeps its place and its records, now ordered stably by status. */
  lemma SortAllSpec(db: Store)
    ensures Products(SortAll(db)) == Products(db)
    ensures forall i :: 0 <= i < |db| ==> Sorted(SortAll(db)[i].records)
    ensures forall i :: 0 <= i < |db| ==> multiset(SortAll(db)[i].records) == multiset(db[i].records)
    ensures forall i, k :: 0 <= i < |db| ==> OfKey(SortAll(db)[i].records, k) == OfKey(db[i].records, k)
  {
    forall i | 0 <= i < |db| ensures Sorted(SortAll(db)[i].records) && multiset(SortAll(db)[i].records) == multiset(db[i].records) {
      SortSorted(db[i].records);
      SortPermutes(db[i].records);
    }
    forall i, k | 0 <= i < |db| ensures OfKey(SortAll(db)[i].records, k) == OfKey(db[i].records, k) {
      SortStable(db[i].records, k);
    }
  }

  /** Sorting keeps the store's shape, the project invariant and which codes it holds. */
  lemma SortAllPreserves(db: Store)
    ensures forall s :: Has(SortAll(db), s) <==> Has(db, s)
    ensures WellFormed(db) ==> WellFormed(SortAll(db))
    ensures Unique(db) ==> Unique(SortAll(db))
  {
    var r := SortAll(db);
    forall i | 0 <= i < |db| ensures (forall s :: s in Skcs(r[i].records) <==> s in Skcs(db[i].records)) && (Distinct(Skcs(db[i].records)) ==> Distinct(Skcs(r[i].records))) {
      SortSkcs(db[i].records);
    }
    assert Products(r) == Products(db);
  }

  lemma SortAllIdempotent(db: Store)
    ensures SortAll(SortAll(db)) == SortAll(db)
  {
    forall i | 0 <= i < |db| ensures Sort(Sort(db[i].records)) == Sort(db[i].records) {
      SortIdempotent(db[i].records);
    }
  }
}
