# SKC manager: the record store and its operations

The SKC manager keeps, per project, a record store. It maps each product code to
the SKC codes filed under it, and each SKC code to a status string. Both levels
are insertion-ordered Python dicts. The main window's buttons change the store:

- add codes under a product;
- relabel or delete a batch of codes wherever they occur;
- sort each product's codes by status;
- import a workbook.

A background thread writes the store to a timestamped workbook, one column pair
per product, and keeps at most 100 such snapshots per project folder. A registry
maps project names to their store, images and folder.

This Dafny model is organised by module:

- **`Records` (records.dfy)** holds the store as a sequence of products, each with a
  sequence of records, so both dict orders are kept. `WellFormed` says the keys are
  distinct at both levels. `Unique` says no code sits under two products, the
  invariant the add and import paths maintain. The specification functions of each
  operation live here: `AppendTo`/`Fresh` for insertion, `Relabel`/`Hits`/`Missing`
  for batch modify, `Purge`/`Misses` for batch delete, and `Rows` for the table view.
  So do their properties.
- **`Text` (text.dfy)** holds Python's `str.strip()` and `str.split()` over Unicode
  whitespace, and the decimal rendering `f"{n}"` used in default names.
- **`StatusSort` (sorting.dfy)** holds the status rank, the stable sort by rank,
  and its characterisation as the unique stable sorted permutation.
- **`Spreadsheet` (spreadsheet.dfy)** models a worksheet as a map from (row, column)
  to a string, plus the reported extent. It contains the export loop as a method
  proved to produce the layout, the import walk as functions, and the
  export-then-import round trip.
- **`Snapshots` (snapshots.dfy)** holds the retention loop over the snapshot list.
- **`SkcLogic` (logic.dfy)** holds the class `SkcManager`, whose `db` field the add,
  modify, delete, sort and import methods update in place. Each loop is proved
  against the specification functions in `Records`, `StatusSort` and `Spreadsheet`.
- **`Projects` (registry.dfy)** holds the registry as a class over a sequence of
  projects: loading at start-up and creating a project.

## Model

| member | source | states |
|---|---|---|
| SkcLogic.SkcManager.AddSkcs | logic_manager.py:226-254 | A blank product or code field changes nothing and reports which was blank. Otherwise the product becomes a key, and each whitespace token goes under it unless some product held it before or an earlier token was the same. The count is the number of distinct tokens absent everywhere beforehand. Every old record stays, each code is now held, and keys stay distinct and codes unique. |
| Records.AppendTo | logic_manager.py:240-247 | The store after `db[product] = {}` for a new product and the inserts: a known product keeps its place and gets the records at the end, an unknown one is added last; its contract bounds the store's growth to that one product. |
| Records.Fresh | logic_manager.py:243-247 | The records add's loop actually inserts: the offered ones whose code no product holds and no earlier token repeated, in order; its contract says it never inserts more than it was offered. |
| Records.AppendToKeeps | logic_manager.py:240-247 | Inserting under a product keeps every product's name and its records as a prefix. It adds the product last only if it was not a key. A code is held afterwards exactly when it was held before or was inserted. |
| Records.AppendToPreserves | logic_manager.py:240-248 | Inserting distinct codes no product holds keeps keys distinct at both levels and keeps codes unique across products. |
| Records.Has | logic_manager.py:245 | `any(s in skcs for p, skcs in db.items())`, the test add and import make before inserting: some product holds the code. |
| Records.FreshSkcs | logic_manager.py:243-247 | A code is inserted by add exactly when it is offered and no product holds it. |
| Records.FreshDistinct | logic_manager.py:243-248 | The codes add inserts are pairwise distinct, so a repeated token is inserted once. |
| Records.FreshFromOffered | logic_manager.py:243-247 | Every inserted record is an offered (code, status) pair whose code was held nowhere. |
| Records.FreshCount | logic_manager.py:242-248 | The `added` counter equals the number of distinct offered codes held nowhere. |
| Records.FreshInsertStep | logic_manager.py:243-248 | One iteration of add's loop: the token is inserted exactly when the store built so far does not hold it. |
| Records.AppendFreshPreserves | logic_manager.py:240-248 | Add keeps the store well formed and keeps codes unique. |
| Records.Tag | logic_manager.py:243-247 | The offered records carry the tokens as codes, in order. |
| SkcLogic.SkcManager.ModifyOne | logic_manager.py:272-277 | The inner loop over products gives every product holding the code the new status. It counts those products and says whether any held the code. |
| SkcLogic.SkcManager.BatchModify | logic_manager.py:256-286 | Empty dialog text or a cancelled status picker changes nothing and reports nothing. Otherwise the store becomes `Relabel` of the tokens. The counter is `Hits` and the not-found list is `Missing`, in input order. Keys stay well formed and codes unique. |
| Records.Relabel | logic_manager.py:270-277 | The store after batch modify: every record whose code is listed gets the chosen status, all else as it was. |
| Records.Hits | logic_manager.py:270-277 | The `modified` counter: for each token in turn, the number of products holding it. |
| Records.Missing | logic_manager.py:278-279 | The `not_found` list: the tokens no product holds, in input order, repeats included. |
| Records.RelabelKeepsKeys | logic_manager.py:268-279 | Batch modify changes statuses only. Product names, each product's codes and their order are unchanged. The set of held codes is the same, and well-formedness and uniqueness are kept. |
| Records.RelabelTwice | logic_manager.py:270-277 | Relabelling two batches in turn is relabelling their concatenation, so the token loop equals one batch. |
| Records.ModifyStep | logic_manager.py:270-279 | One round of batch modify, seen from the store the earlier rounds left, adds that store's occurrences to the counter and reports the token iff no product holds it. |
| Records.OccurrencesHas | logic_manager.py:273-277 | A code has occurrences iff some product holds it, and under uniqueness at most one. |
| Records.ModifyAccounts | logic_manager.py:268-279 | Under uniqueness every token is either counted as modified once or reported as not found. |
| Records.MissingMembers | logic_manager.py:278-279 | A token is reported not found iff it is listed and no product holds it. |
| SkcLogic.SkcManager.DeleteOne | logic_manager.py:302-306 | The inner loop over products deletes the code from every product holding it. It counts those products and says whether any held it. |
| SkcLogic.SkcManager.BatchDelete | logic_manager.py:288-315 | Empty dialog text changes nothing. Otherwise the store becomes `Purge` of the tokens and the deleted counter is the number of records removed. A token is reported when no product holds it at its turn, so a repeated token is reported the second time. |
| Records.Drop | logic_manager.py:303-304 | One product's records without those whose code is listed, in their order. |
| Records.Purge | logic_manager.py:299-306 | The store after batch delete: every product keeps its key and loses the records whose code is listed. |
| Records.Misses | logic_manager.py:307-308 | The tokens batch delete reports: a token is reported when no product holds it at its turn, that is, when it was never held or was listed earlier. |
| Records.PurgeKeeps | logic_manager.py:297-308 | Delete keeps every product key, including emptied ones. A code is held afterwards iff it was held and is not listed. Well-formedness and uniqueness are kept. |
| Records.DropMembers | logic_manager.py:303-304 | Within a product, delete keeps exactly the records whose code is not listed. |
| Records.DropTwice | logic_manager.py:299-306 | Deleting two batches in turn is deleting their concatenation within a product. |
| Records.PurgeTwice | logic_manager.py:299-306 | Deleting two batches in turn is deleting their concatenation, so the token loop equals one batch. |
| Records.DeleteStep | logic_manager.py:299-308 | One round of batch delete: the token is reported iff the store so far lacks it, and it removes that store's occurrences. |
| Records.PurgeCount | logic_manager.py:302-306 | Deleting one code removes one record per product holding it. |
| Records.PurgeOne | logic_manager.py:299-306 | In a store with unique codes, deleting one code removes one record if it was held and none otherwise. |
| Records.DeleteAccounts | logic_manager.py:297-308 | With unique codes, records removed plus tokens reported equals the number of tokens. |
| Records.Rows | logic_manager.py:218 | The table has one row per record. |
| Records.RowsMembers | logic_manager.py:218 | A row (p, skc, status) is in the table iff product p holds that record. |
| SkcLogic.SkcManager.AutoSort | logic_manager.py:317-327 | Each product's records are replaced by their sort by status rank. Product order is unchanged, and keys stay well formed and codes unique. |
| StatusSort.IndexOf | ui_manager.py:11 | The rank is the first position of the status in the options, or the options' length when absent. |
| StatusSort.Rank | logic_manager.py:322 | The sort key `status_options.index(st)` or `len(status_options)`: a known status ranks below 7 at its own position; an unknown one ranks 7. |
| StatusSort.Sort | logic_manager.py:322 | `sorted(skcs.items(), key=...)` on one product: an insertion sort by rank, same length; sortedness, permutation and stability are the lemmas below. |
| StatusSort.SortSorted | logic_manager.py:322 | The sorted records are in non-decreasing rank. |
| StatusSort.SortPermutes | logic_manager.py:322 | The sort is a permutation: same multiset of (code, status) records. |
| StatusSort.SortStable | logic_manager.py:322 | The sort is stable: the records of each rank keep their relative order. |
| StatusSort.StableSortUnique | logic_manager.py:322 | Two sorted sequences with the same records of each rank, in the same order, are equal. |
| StatusSort.SortCharacterised | logic_manager.py:322 | Any sorted arrangement keeping each rank's order is the sort's result, so the model agrees with any stable sort. |
| StatusSort.SortIdempotent | logic_manager.py:322 | Sorting twice equals sorting once. |
| StatusSort.SortSkcs | logic_manager.py:322-323 | Sorting keeps the set of codes and their distinctness. |
| StatusSort.SortAll | logic_manager.py:321-323 | Every product's records replaced by their sort, one group per product in the original order. |
| StatusSort.SortAllSpec | logic_manager.py:321-323 | Sorting the store keeps products in order. Each product's records become sorted, permuted and stable. |
| StatusSort.SortAllPreserves | logic_manager.py:321-323 | Sorting the store keeps the held codes, well-formedness and uniqueness. |
| StatusSort.SortAllIdempotent | logic_manager.py:321-323 | Auto-sort twice equals auto-sort once. |
| Spreadsheet.WriteProduct | logic_manager.py:51-75 | After one product is written, the sheet is exactly the layout of the products so far. The name is at (1, col), "SKC"/"状态" at (3, col)/(3, col+1), and the j-th record at row 4+j. |
| Spreadsheet.WriteSheet | logic_manager.py:45-80 | The sheet written is exactly the layout of the whole store, with extent 2·|db| columns and 3 + longest rows, or 1 × 1 (as openpyxl reports an empty sheet) when the store is empty. One progress value is emitted per product, each within 0..100, non-decreasing, and the last is 100. |
| Spreadsheet.Put | logic_manager.py:53-74 | `ws.cell(row=r, column=c, value=v)`: that one cell holds v and the reported extent widens to reach it. |
| Spreadsheet.Percent | logic_manager.py:79 | The progress value after the i-th product, in integer arithmetic (see Left out). |
| Spreadsheet.ExportHead | logic_manager.py:51-70 | Writing a product's name and headers in the next column pair extends an exported sheet to the export of the store with that product, still empty. |
| Spreadsheet.ExportRow | logic_manager.py:72-75 | Writing the next record at row 4 + j extends the export of a product to the export with that record. |
| Spreadsheet.LayoutAt | logic_manager.py:47-76 | The k-th product occupies columns 2k+1 and 2k+2. |
| Spreadsheet.PercentBounds | logic_manager.py:48-80 | Progress values stay within 0..100, never decrease, and reach 100 on the last product. |
| Spreadsheet.Candidates | logic_manager.py:378-384 | The (strip(skc), status) pairs of rows 4..max_row whose two cells both hold a value, in row order: at most one per row. |
| Spreadsheet.ImportPair | logic_manager.py:371-387 | One column pair: skipped when row 1 is empty, otherwise its product becomes a key and receives the fresh candidates; the store grows by at most that one product. |
| Spreadsheet.PairCount | logic_manager.py:371 | How many columns `range(1, max_col + 1, 2)` visits: the last one visited, 2n − 1, is within max_column and the next, 2n + 1, is beyond it. |
| Spreadsheet.ImportBook | logic_manager.py:369-387 | Every worksheet of the workbook read in order, each by its column pairs in order. |
| Spreadsheet.ImportPairSpec | logic_manager.py:371-387 | One column pair makes its row-1 product a key if it is non-empty, keeps every record already there, and adds exactly the fresh candidate codes. Well-formedness and uniqueness are kept. |
| Spreadsheet.ImportRowStep | logic_manager.py:379-387 | One row of a pair inserts (strip(skc), status) last under the product exactly when both cells hold a value and no product holds the stripped code. |
| Spreadsheet.ReadRowsFresh | logic_manager.py:376-387 | The row loop of a pair inserts the fresh candidates of rows 4..max_row in order, and its counter is their number. |
| Spreadsheet.ImportPairsPreserves | logic_manager.py:369-387 | Any number of column pairs keeps old records, well-formedness and uniqueness. |
| Spreadsheet.ImportBookPreserves | logic_manager.py:369-387 | Importing a whole workbook keeps old records, well-formedness and uniqueness. |
| SkcLogic.SkcManager.ImportRows | logic_manager.py:378-387 | The row loop leaves the store and counter the fold of rows 4..max_row says. |
| SkcLogic.SkcManager.ImportRow | logic_manager.py:380-387 | One row is inserted exactly when both cells hold a value and no product holds the stripped code. The result says whether it was. |
| SkcLogic.SkcManager.ImportColumn | logic_manager.py:371-387 | A pair with an empty row-1 cell is skipped. Otherwise the store becomes `ImportPair` and the count is the number of records added. |
| SkcLogic.SkcManager.ImportWorksheet | logic_manager.py:369-387 | Columns 1, 3, 5, … up to max_column are read in order, and the count is the number of records added. |
| SkcLogic.SkcManager.ImportWorkbook | logic_manager.py:360-390 | A cancelled file dialog (reported `Cancelled`) and a workbook that does not open (reported `Unreadable`) change nothing. Otherwise every sheet is read in order and the count is the number of records added. Old records stay, and well-formedness and uniqueness are kept. |
| Spreadsheet.ImportPairsOfExport | logic_manager.py:47-76 | Reading the first n column pairs of an exported sheet into an empty store gives back the first n products. |
| Spreadsheet.ExportImportRoundTrip | logic_manager.py:369-387 | Importing the export of a store with non-empty names and statuses and non-empty, stripped, unique codes rebuilds the store exactly: products, codes, statuses and both orders. |
| Text.IsSpace | logic_manager.py:231 | The characters `str.isspace()` accepts, which `strip()` and `split()` remove. |
| Text.Strip | logic_manager.py:231 | strip() removes leading and trailing whitespace only. |
| Text.StripIsSlice | logic_manager.py:231 | The stripped text is a slice of the input with only whitespace around it. |
| Text.Words | logic_manager.py:243 | `str.split()`: the maximal runs of non-whitespace, in order; every token is non-empty, so there are at most as many tokens as characters. |
| Text.WordsAreWords | logic_manager.py:243 | split() yields non-empty tokens without whitespace. |
| Text.WordsOfUnwords | logic_manager.py:243 | Splitting words joined by spaces gives the words back. |
| Text.WordsOfStrip | logic_manager.py:264 | Splitting the stripped text gives the same tokens as splitting the text. |
| Text.StripEmptyIffNoWords | logic_manager.py:235-238 | The code field strips to blank iff it has no tokens. |
| Text.ParseDecimalOfDecimal | logic_manager.py:410 | The decimal rendering of a number parses back to it. |
| Text.NumberedInjective | logic_manager.py:410-415 | Numbered names such as 项目n or skc-data-n differ for different n. |
| Snapshots.Prune | logic_manager.py:34-40 | The loop drops the oldest files first. Fewer than 100 remain, exactly the newest 99 (or all of them), and dropped plus kept is the original list. |
| Snapshots.Save | logic_manager.py:33-43 | One save: the pruned list with the new snapshot last, at most 100 files. |
| Snapshots.SaveAll | logic_manager.py:33-43 | A run of saves, one after another: after at least one, the list holds at most 100 files and ends with the newest. |
| Snapshots.SaveNewest | logic_manager.py:34-43 | After pruning and adding one snapshot, the folder lists the newest 100 of the old files and the new one. |
| Snapshots.SaveAllNewest | logic_manager.py:34-43 | After any run of saves the folder lists exactly the newest 100 (or all) files ever saved, oldest first. |
| Projects.DefaultName | logic_manager.py:411 | The default project name f"项目{n}". |
| Projects.LoadAll | logic_manager.py:112-126 | load_all_projects: one project per folder found, or 项目1 in skc-data-1 when none is found, each with an empty store and no images. |
| Projects.Registry.constructor | logic_manager.py:112-126 | The registry after start-up is `LoadAll` of the folders found, and its names and folders are distinct. |
| Projects.LoadAllConsistent | logic_manager.py:112-126 | Start-up names the projects 项目1, 项目2, … in folder order, each in its own folder, or makes 项目1 in skc-data-1. Names and folders are distinct. |
| Projects.FolderAsWritten | logic_manager.py:415-416 | The folder the source gives a new project, `skc-data-{len(projects)+1}`, whether or not a project uses it. |
| Projects.FolderClash | logic_manager.py:414-418 | As written: after start-up with only skc-data-2, an unnamed new project is accepted and placed in skc-data-2, which the existing project already uses. |
| Projects.FreeFolderUnused | logic_manager.py:414-418 | The corrected folder choice is never a folder a project already uses. |
| Projects.FreeFolder | logic_manager.py:414-415 | The corrected folder is skc-data-{n+1} whenever no project uses it already. |
| Projects.FreeFolderAsWritten | logic_manager.py:414-415 | The corrected folder equals the source's skc-data-{n+1} exactly when no project uses that folder yet. |
| Projects.CreateKeepsConsistent | logic_manager.py:410-418 | Adding an empty project under a new name, in the corrected folder, keeps names and folders distinct. |
| Projects.Registry.Create | logic_manager.py:406-422 | A cancelled dialog changes nothing. An empty name stands for 项目{n+1}, and a name already registered is refused with the registry unchanged. Otherwise one project with an empty store and no images is added last, and the registry stays consistent. Its folder is the corrected `FreeFolder`, which is the source's skc-data-{n+1} exactly when no project uses that folder (see Findings). |

## Left out

- Qt is not modelled: dialogs, message boxes, the progress dialog, signals and the combo box. Dialog input arrives as parameters. A cancelled status picker or project-name dialog is `None`. A cancelled file dialog is `FileChoice.NoFile`. A cancelled code dialog gives empty text, which the source treats like blank input.
- The background thread and its termination are not modelled. Export is modelled as a sequential method returning the sheet and the list of progress values.
- Checks that a project is selected (`get_current_database` returning `None`) are not modelled. The manager always holds the current store.
- `current_project` and switching projects are not modelled.
- The file system is not modelled: `glob`, modification times, `os.remove`, `os.makedirs`, the directory scan at start-up, `open_latest_file`, and the timestamped file name. The snapshot list is a sequence already ordered by modification time. The folders found at start-up are a sorted sequence given to the registry.
- Snapshots.SaveAllNewest: each save is assumed to succeed and to add a file under a new name. Two saves within the same second reuse one `skc_<timestamp>.xlsx` name, so the second overwrites the first and the list does not grow. A failing `wb.save` leaves the pruned list with no new file.
- Snapshots.Prune: a failed `os.remove` is ignored, so `removed` lists the removals attempted, not the files actually gone.
- The data.json sidecar (`save_project_data`, `load_project_data`) is not modelled. It is JSON I/O. Projects loaded at start-up have an empty store here.
- openpyxl's cell merging, image embedding and sizing (logic_manager.py:51-67) are not modelled, nor the saving and loading of the workbook. A workbook that does not open is `FileChoice.Unopenable`.
- Cell values are strings. An empty cell reads as "", so it is skipped like `None`. Non-string values (numbers, dates) and their `str()` rendering are not modelled.
- Spreadsheet.Percent: progress is `i * 100 / total` in integer arithmetic. The source computes `int(i / total * 100)` in floating point, which can be one lower (i = 29, total = 100 gives 28). The bounds, monotonicity and the final 100 are proved for the integer form only.
- Spreadsheet.ExportImportRoundTrip: openpyxl stores a string longer than one character that starts with "=" as a formula, and `load_workbook(..., data_only=True)` reads such a cell back as `None`. A product, code or status like "=A1" is therefore lost in the source's round trip. The model's cells hold every string as written, so the theorem does not exclude such stores. Strings with control characters, which openpyxl refuses to write, are not modelled either.
- Projects.Registry.Create: the new project's folder is the corrected `FreeFolder`. It differs from the source's `skc-data-{len(projects)+1}` when a project already uses that folder; the source's behaviour there is `FolderAsWritten`, and `FolderClash` shows it.
- `import_project_ui`, `export_project_ui`, the image slots and the other UI handlers are not part of this model.
- The options list is fixed as `StatusOptions`. Choosing a status from it is a parameter of batch modify and add.

## Findings

| source | as written | input that shows it | evidently intended | confidence | as-written member | corrected member |
|---|---|---|---|---|---|---|
| logic_manager.py:414-418 | A new project's folder is `skc-data-{len(projects)+1}`, whether or not a project already lives there. | Start-up finds only `skc-data-2`, so 项目1 uses it. Creating a project with an empty name gives 项目2, which is accepted, in `skc-data-2`. Its data.json then overwrites 项目1's. | Each project has a folder of its own. | medium, not executed | Projects.FolderClash | Projects.FreeFolderUnused |
