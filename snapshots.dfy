/**
  * Retention of the timestamped workbook snapshots a project folder keeps
  * (logic_manager.py:34-43). Before a new snapshot is written, the list of
  * existing ones, oldest first, is cut from the front until fewer than
  * MaxFiles remain; the new file then goes at the end.
  */
module Snapshots {
  import opened Records

  /** The most snapshots a folder holds (logic_manager.py:11). */
  const MaxFiles: nat := 100

  /** The newest k files of a list ordered oldest first (all of them when there are fewer). */
  function Newest<T>(files: seq<T>, k: nat): (r: seq<T>)
    ensures |r| == Min(|files|, k)
    ensures files == files[..|files| - |r|] + r
  {
    files[|files| - Min(|files|, k)..]
  }

  /**
    * The pruning loop: while MaxFiles or more files are listed, the oldest is
    * removed and dropped from the list. A failed removal is ignored and the
    * name is dropped all the same, so `removed` lists the removals attempted.
    */
  method Prune<T>(files: seq<T>) returns (kept: seq<T>, removed: seq<T>)
    ensures removed + kept == files
    ensures kept == Newest(files, MaxFiles - 1)
    ensures |kept| < MaxFiles
  {
    kept, removed := files, [];
    while |kept| >= MaxFiles
      invariant removed + kept == files
      invariant |kept| >= Min(|files|, MaxFiles - 1)
      decreases |kept|
    {
      removed, kept := removed + [kept[0]], kept[1..];
    }
    assert files[|removed|..] == kept;
  }

  /** The folder's snapshot list after one save: pruned, then the new file last. */
  function Save<T>(files: seq<T>, file: T): (r: seq<T>)
    ensures 0 < |r| <= MaxFiles && r[|r| - 1] == file
  {
    Newest(files, MaxFiles - 1) + [file]
  }

  /** The list after a run of saves, one new file each, in order. */
  function SaveAll<T>(files: seq<T>, news: seq<T>): (r: seq<T>)
    ensures news != [] ==> 0 < |r| <= MaxFiles && r[|r| - 1] == news[|news| - 1]
  {
    if news == [] then files else Save(SaveAll(files, news[..|news| - 1]), news[|news| - 1])
  }

  /** Pruning and saving keeps the newest files: one save keeps the newest MaxFiles of
      the files listed and the new one. */
  lemma SaveNewest<T>(files: seq<T>, file: T)
    ensures Save(files, file) == Newest(files + [file], MaxFiles)
  {
    var all := files + [file];
    assert all[|all| - Min(|all|, MaxFiles)..] == files[|files| - Min(|files|, MaxFiles - 1)..] + [file];
  }

  /** Newest of newest: keeping the newest k of a list and then the newest m of that with
      one more file added is keeping the newest m of the whole list with it. */
  lemma NewestSnoc<T>(files: seq<T>, file: T, k: nat, m: nat)
    requires m <= k + 1
    ensures Newest(Newest(files, k) + [file], m) == Newest(files + [file], m)
  {
    var a := Newest(files, k) + [file];
    var b := files + [file];
    assert a == b[|b| - |a|..];
  }

  /**
    * However many snapshots there were, after n >= 1 saves the folder lists exactly
    * the newest MaxFiles of the old and new files together, oldest first, so never
    * more than MaxFiles.
    */
  lemma {:induction false} SaveAllNewest<T>(files: seq<T>, news: seq<T>)
    requires news != []
    ensures SaveAll(files, news) == Newest(files + news, MaxFiles)
    ensures |SaveAll(files, news)| == Min(|files| + |news|, MaxFiles)
  {
    var init, last := news[..|news| - 1], news[|news| - 1];
    assert news == init + [last];
    assert files + news == (files + init) + [last];
    if init == [] {
      SaveNewest(files, last);
    } else {
      SaveAllNewest(files, init);
      SaveNewest(Newest(files + init, MaxFiles), last);
      NewestSnoc(files + init, last, MaxFiles, MaxFiles);
    }
  }
}
