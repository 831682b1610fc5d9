/**
  * The project registry: an insertion-ordered dict from project name to a project
  * (its record store, its product images and the folder its files live in). It is
  * filled from the skc-data-* folders found at start-up (logic_manager.py:112-127)
  * and grows by one project each time the user creates one (logic_manager.py:406-422).
  */
module Projects {
  import opened Text
  import opened Records

  datatype Project = Project(name: string, db: Store, images: map<string, string>, folder: string)

  /** The default name of the n-th project, f"项目{n}". */
  function DefaultName(n: nat): string {
    "项目" + Decimal(n)
  }

  /** The n-th data folder, f"skc-data-{n}". */
  function FolderName(n: nat): string {
    "skc-data-" + Decimal(n)
  }

  function Names(ps: seq<Project>): (r: seq<string>)
    ensures |r| == |ps|
  {
    seq(|ps|, i requires 0 <= i < |ps| => ps[i].name)
  }

  function Folders(ps: seq<Project>): (r: seq<string>)
    ensures |r| == |ps|
  {
    seq(|ps|, i requires 0 <= i < |ps| => ps[i].folder)
  }

  /** What the registry must keep: names are dict keys, and two projects sharing a folder
      would write the same data.json. */
  predicate Consistent(ps: seq<Project>) {
    Distinct(Names(ps)) && Distinct(Folders(ps))
  }

  /**
    * load_all_projects, given the sorted skc-data-* folder names found: the i-th
    * folder becomes project 项目i; with no folder at all a single project 项目1 in
    * skc-data-1 is made. Every project starts with an empty store and no images.
    */
  function LoadAll(folders: seq<string>): (ps: seq<Project>)
    ensures |ps| == if folders == [] then 1 else |folders|
    ensures forall i :: 0 <= i < |ps| ==> ps[i].db == [] && ps[i].images == map[]
  {
    if folders == [] then [Project(DefaultName(1), [], map[], FolderName(1))]
    else seq(|folders|, i requires 0 <= i < |folders| => Project(DefaultName(i + 1), [], map[], folders[i]))
  }

  /** The registry loaded at start-up is consistent: names 项目1, 项目2, ... in folder
      order, each project in its own folder. */
  lemma LoadAllConsistent(folders: seq<string>)
    requires Distinct(folders)
    ensures var ps := LoadAll(folders);
      && Consistent(ps)
      && (forall i :: 0 <= i < |ps| ==> ps[i].name == DefaultName(i + 1))
      && Folders(ps) == if folders == [] then [FolderName(1)] else folders
  {
    var ps := LoadAll(folders);
    forall i, j | 0 <= i < j < |ps|
      ensures ps[i].name != ps[j].name
    {
      NumberedInjective("项目", i + 1, j + 1);
    }
    assert Folders(ps) == if folders == [] then [FolderName(1)] else folders;
  }

  // ----- the folder of a new project -----

  /** create_project_ui as written: the new project goes into skc-data-{n+1}, n the
      number of projects. */
  function FolderAsWritten(ps: seq<Project>): string {
    FolderName(|ps| + 1)
  }

  /**
    * With a gap in the folder numbers that folder may already belong to a project:
    * start-up with skc-data-2 alone loads 项目1 from it, and creating a project with
    * an empty name then makes 项目2, a new name, in skc-data-2 again, so the new
    * project's data.json overwrites the old one's.
    */
  lemma FolderClash()
    ensures var ps := LoadAll(["skc-data-2"]);
      && ps[0].folder == "skc-data-2"
      && DefaultName(|ps| + 1) !in Names(ps)
      && FolderAsWritten(ps) == "skc-data-2"
      && !Consistent(ps + [Project(DefaultName(|ps| + 1), [], map[], FolderAsWritten(ps))])
  {
    var ps := LoadAll(["skc-data-2"]);
    NumberedInjective("项目", 1, 2);
    assert Names(ps) == [DefaultName(1)];
    assert Decimal(2) == "2";
    var qs := ps + [Project(DefaultName(2), [], map[], FolderAsWritten(ps))];
    assert Folders(qs)[0] == Folders(qs)[1];
  }

  /** The first of idx, idx + 1, ..., idx + fuel whose folder name is not in used
      (idx + fuel when the others all are). */
  function FirstFree(used: seq<string>, idx: nat, fuel: nat): (r: nat)
    ensures idx <= r <= idx + fuel
    ensures forall j :: idx <= j < r ==> FolderName(j) in used
    ensures r < idx + fuel ==> FolderName(r) !in used
    decreases fuel
  {
    if fuel == 0 || FolderName(idx) !in used then idx else FirstFree(used, idx + 1, fuel - 1)
  }

  /** The corrected choice: skc-data-{n+1} unless a project already uses it, otherwise
      the next number no project uses. */
  function FreeFolder(ps: seq<Project>): (r: string)
    ensures FolderAsWritten(ps) !in Folders(ps) ==> r == FolderAsWritten(ps)
  {
    FolderName(FirstFree(Folders(ps), |ps| + 1, |ps|))
  }

  /** The folder names of n consecutive numbers, all different. */
  function Numbered(a: nat, n: nat): (r: seq<string>)
    ensures |r| == n && Distinct(r)
    ensures forall k :: 0 <= k < n ==> r[k] == FolderName(a + k)
  {
    var r := seq(n, k requires 0 <= k < n => FolderName(a + k));
    assert Distinct(r) by {
      forall i, j | 0 <= i < j < n
        ensures r[i] != r[j]
      {
        assert r[i] == FolderName(a + i) && r[j] == FolderName(a + j);
        NumberedInjective("skc-data-", a + i, a + j);
      }
    }
    r
  }

  /** A list has at most as many different elements as entries. */
  lemma {:induction false} SetOfSeqCard<T>(s: seq<T>)
    ensures |set x | x in s| <= |s|
  {
    if s != [] {
      var init := s[..|s| - 1];
      SetOfSeqCard(init);
      assert (set x | x in s) == (set x | x in init) + {s[|s| - 1]};
    }
  }

  /** The corrected folder belongs to no project yet: of the n + 1 names skc-data-{n+1}
      to skc-data-{2n+1} the n projects can use at most n. */
  lemma FreeFolderUnused(ps: seq<Project>)
    ensures FreeFolder(ps) !in Folders(ps)
  {
    var used, n := Folders(ps), |ps|;
    var r := FirstFree(used, n + 1, n);
    if FolderName(r) in used {
      var cands := Numbered(n + 1, n + 1);
      assert forall k :: 0 <= k < n + 1 ==> cands[k] in used;
      DistinctCard(cands);
      SetOfSeqCard(used);
      SubsetCard(set x | x in cands, set x | x in used);
      assert false;
    }
  }

  /** The corrected folder is the one the source writes exactly when no project uses
      that one yet; otherwise the two differ and only the corrected one is free. */
  lemma FreeFolderAsWritten(ps: seq<Project>)
    ensures FreeFolder(ps) == FolderAsWritten(ps) <==> FolderAsWritten(ps) !in Folders(ps)
  {
    FreeFolderUnused(ps);
  }

  lemma {:induction false} SubsetCard<T>(a: set<T>, b: set<T>)
    requires a <= b
    ensures |a| <= |b|
    decreases |a|
  {
    if a != {} {
      var x :| x in a;
      SubsetCard(a - {x}, b - {x});
    }
  }

  /** Adding an empty project under a new name in the corrected folder keeps the
      registry consistent. */
  lemma CreateKeepsConsistent(ps: seq<Project>, name: string)
    requires Consistent(ps) && name !in Names(ps)
    ensures Consistent(ps + [Project(name, [], map[], FreeFolder(ps))])
  {
    var qs := ps + [Project(name, [], map[], FreeFolder(ps))];
    FreeFolderUnused(ps);
    assert Names(qs) == Names(ps) + [name];
    assert Folders(qs) == Folders(ps) + [FreeFolder(ps)];
  }

  /** What creating a project reports: the dialog was cancelled, the name is taken, or
      the project made. */
  datatype CreateOutcome = Cancelled | Duplicate | Created(name: string)

  class Registry {
    var projects: seq<Project>

    predicate Valid()
      reads this
    {
      Consistent(projects)
    }

    /** load_all_projects over the folders found. */
    constructor(folders: seq<string>)
      requires Distinct(folders)
      ensures projects == LoadAll(folders)
      ensures Valid()
    {
      projects := LoadAll(folders);
      LoadAllConsistent(folders);
    }

    /**
      * create_project_ui: a cancelled dialog changes nothing; an empty name stands for
      * 项目{n+1}; a name already registered is refused and the registry left alone;
      * otherwise one empty project is added last. Its folder is the corrected
      * FreeFolder, not the source's skc-data-{n+1} as written: the two agree exactly
      * when no project uses skc-data-{n+1} yet (FreeFolderAsWritten), and where they
      * differ the source's choice is the clash FolderClash exhibits.
      */
    method Create(input: Option<string>) returns (outcome: CreateOutcome)
      requires Valid()
      modifies this
      ensures Valid()
      ensures input == None ==> outcome == Cancelled && projects == old(projects)
      ensures input != None ==>
        var name := if input.value == "" then DefaultName(|old(projects)| + 1) else input.value;
        && (name in Names(old(projects)) ==> outcome == Duplicate && projects == old(projects))
        && (name !in Names(old(projects)) ==>
              && outcome == Created(name)
              && projects == old(projects) + [Project(name, [], map[], FreeFolder(old(projects)))])
    {
      if input == None {
        return Cancelled;
      }
      var name := input.value;
      if name == "" {
        name := DefaultName(|projects| + 1);
      }
      if name in Names(projects) {
        return Duplicate;
      }
      CreateKeepsConsistent(projects, name);
      projects := projects + [Project(name, [], map[], FreeFolder(projects))];
      outcome := Created(name);
    }
  }
}
