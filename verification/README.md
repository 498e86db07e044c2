# The hard core of the database server, verified

The server keeps dBASE tables with B-tree indexes, compiles procedure files and commands to
code of its own, and runs that code. This project models the parts of it where a mistake costs
data or runs the wrong code, and proves what they do: for every tree, every file of lines, every
run and every interleaving, and with the state changed in place where the program changes it in
place.

`dafny verify dfyconfig.toml` checks the whole project.

## What is modelled

- **Index files** (`BTree`, `Pages`, `IndexFile`, `IndexState`, `IndexOps`, `IndexSearch`,
  `Keys`, `Leaves`). Insertion and deletion are defined on trees, and the page code, which changes
  slots of page buffers and writes pages back, is proved to compute them. An index of a file is its
  sorted sequence of entries; `Leaves` says what becomes of the pages and separators. Keys are whole
  numbers; `Keys` shows that character keys are compared like that.
- **Tables in step with their indexes** (`Table`, `Rollback`, `Unique`). A stored, appended or
  rolled back record leaves every index listing exactly the keys of the records, unless an index
  refuses the new entry; it is said when that happens, which index it is, and what it and the
  others hold then.
- **Fast index build** (`Sorting`, `ExternalSort`, `BulkLoad`, `QuickIndex`). Quicksort in place,
  runs on a temporary file, merge passes between two files with refilled buffers, and a loader
  that builds the pages bottom up.
- **Procedure files** (`Control`, `CodeGen`, `Lines`, `Holes`, `Library`, `Threads`, `ObjFile`,
  `Loops`, `Nesting`, `Meaning`). The one-pass compiler meets the lines of a file one by one and
  patches jumps in the object file; calls of procedures that are not defined yet hang on a chain
  through the file. `Control` gives nested bodies a meaning that knows nothing of jumps, LOOP
  included, both as it is meant and as it is compiled. Lines that do not nest are refused, and it is
  said which and how.
- **Commands with scope clauses** (`Pcode`, `ScopeClauses`, `ScopeCompile`, `ScopeCode`,
  `ScopeRun`, `ScopeMeaning`, `ScopeCommands`, `ScopeWitness`). A loop of ten operations is laid down
  and patched as NEXT, PREV, FOR and WHILE come, in any order, with their bodies behind it. The
  meaning of the clauses is a sequence of records.
- **Expressions** (`Values`, `Expr`, `ExprValue`, `ExprRun`, `ExprCompile`, `ExprWhole`,
  `Grammar`, `Numbers`). Tokens, a grammar that is shown to be unambiguous, a compiler that appends
  code and constants as it goes, and the machine with its stack of bytes.
- **Transactions** (`Transactions`). Sessions that take steps in any order over one table, with
  the undo log of each and the marker that keeps the others out.
- **Page templates** (`Template`, `TemplateNesting`, `HtmlPage`), **PACK** (`Pack`) and the **Tiger**
  compression function (`Tiger`, `TigerReference`).

The result of a chain of modules is read at its end: `IndexOps.InsertNew`, `Table.Table.StoreUpdate`,
`QuickIndex.Qindex`, `Library.RunsAsCompiled` with `ObjFile.ProcFile.CompileProc` and
`ObjFile.ProcFile.WriteTable`, `ScopeCommands.CommandActs` with `ScopeCompile.CodeBuffer.CompileOne`,
`ExprWhole.CompileExpression`.

## Model

| member | source | states |
|---|---|---|
| `Pages.InsertEntry` | server/dbe/page.c:102-111 | An entry goes to its slot and its page pointer right of it, and no other slot changes; it is taken exactly if it has a record number (leaf) or a page number (non-leaf), where leaf means that pointer 0 of the buffer is 0 |
| `Pages.SplitPage` | server/dbe/btree.c:208-234 | A full page and one more entry are spread over two buffers: the page with the entry put in, cut at its middle, whose entry goes up. Right of the middle it is the record number that counts even in a non-leaf page |
| `Pages.RemoveEntry` | server/dbe/btree.c:335-341 | The page without entry `r` and without pointer `r` |
| `IndexState.InsFacts` | server/dbe/btree.c:164-247 | Everything about the tree an insertion makes: duplicate exactly if the entry (with UNIQUE the key) is there; refused exactly if not a duplicate and `Meets0`; otherwise the entries are the old ones with the new one in its place, in order, on well-formed pages within capacity with separators equal to the last key on their left and page numbers all different, the new ones from the end of the file |
| `BTree.InvalidExactly` | server/dbe/page.c:104-106 | An insertion that is not a duplicate is refused exactly if on the way down some full non-leaf page, entered right of its middle, receives a separator with record number 0 (`Meets0`, computed before anything is written); and which record number each split sends up |
| `BTree.NumberedNeverInvalid` | server/dbe/page.c:104-106 | Where no separator carries record number 0, which only deletion and the fast builder write, no insertion is refused, and that stays so |
| `BTree.RefusedLoses` | server/dbe/btree.c:208-240 | A refused insertion is not one that changes nothing: the tree below the root lacks one stretch of entries of the old ones and the new one, the right half of a page that had split |
| `BTree.LosesSome` | server/dbe/btree.c:208-240 | That stretch is never empty |
| `IndexState.DelFacts` | server/dbe/btree.c:249-354 | Of the tree a deletion leaves: missing exactly if the entry is not there; otherwise the entries are the old ones without it, pages keep their shape, separators follow the new last keys, page numbers are among the old ones, and the index runs empty only with its last entry. Which page and which separators change, and how, is in `Leaves.DelExactly` |
| `IndexState.InsertedIs` | server/dbe/ndx.c:352-375 | An insertion with the growth of the root, on the tree and the number of pages: what it makes of a sound index, in every case, is a sound index with the entry in its place, a duplicate exactly if there is one, or refused exactly if `Refuses` |
| `IndexState.ChangedIs` | server/dbe/ndx.c:377-410 | A change of key on the same: fails exactly if the old entry is not there (`Misses`) or the new one is refused, judged on the tree the deletion leaves (`RefusesChange`); else the entries are the old ones with the one exchanged, with UNIQUE unless the new key is there |
| `Leaves.FileInserts` | server/dbe/ndx.c:352-375 | The same of index files, where a new root page comes on top when the old one splits |
| `Leaves.FileDeletes` | server/dbe/ndx.c:377-398 | And for deletions: with the last entry the file has no pages left |
| `Leaves.FilePages` | server/dbe/ndx.c:352-375 | After an insertion the index is on the pages it was on and on all the new ones, none of which is left unused |
| `BTree.TrimCorrect` | server/dbe/btree.c:249-302 | Taking the last entry off a subtree to replace a separator drops exactly that entry, keeps the shape, and hands up the key of what is last now (its record number is in `Leaves.TrimExactly`); a page that runs empty goes, and a child left alone takes its place |
| `Leaves.TrimExactly` | server/dbe/btree.c:249-302 | Of the pages at the bottom and the separators between them, left to right: the last page loses its last entry, and what is handed up has the key of the one before it and record number 0; or the page goes, and the separator that stood before it is handed up with its own number |
| `Leaves.DelExactly` | server/dbe/btree.c:249-354 | A deletion, for every index: the page it is taken from, and all that becomes of pages and separators. If the last entry of a page goes, the separator behind it gets the key before and record number 0; if the only one goes, the page goes with the separator behind it, or the one before it at the end; nothing else changes |
| `Leaves.InsExactly` | server/dbe/btree.c:164-247 | An insertion, for every index: it is made on the first page whose last entry is not before it, or on the last; a page that becomes too long is cut behind entry `cap / 2`, which is the new separator with its record number; nothing else changes |
| `Leaves.CutInHalf` | server/dbe/btree.c:208-234 | How many entries each half of a split page has, which half keeps the page number, and which number the other gets |
| `IndexFile.Index.BtLr` | server/dbe/btree.c:29-38 | Compares a record number with that of the last leaf entry below a page, found by following the last pointers |
| `IndexFile.Index.BtSrIn` | server/dbe/btree.c:164-247 | The recursion over pages computes the insertion on the tree: same outcome, the resulting tree is in the file page by page, no page outside the subtree changes, a duplicate changes nothing, and what a refusal leaves is in the file |
| `IndexFile.Index.BtSrDel` | server/dbe/btree.c:304-354 | The recursion over pages computes the deletion on the tree: same outcome, the remaining tree is in the file, the orphan is handed up, no page outside the subtree changes, and a missing entry changes nothing |
| `IndexOps.InsertNew` | server/dbe/ndx.c:352-375 | The file after it is `Inserted` of the file before, in every case: DUPKEY exactly if the entry or, with UNIQUE, its key is there; INVALID_ENTRY exactly if `Refuses`; else the index is valid and holds the old entries and the new one, in order. Without separators numbered 0 it is never refused. After a refusal the file holds what `BTree.Remains` says |
| `IndexOps.DeleteOld` | server/dbe/ndx.c:377-398 | The entry is taken out exactly if it is there, and the file after it is `Deleted` of the file before; without a root when nothing is left |
| `IndexOps.RemoveOldInsertNew` | server/dbe/ndx.c:377-410 | For every index, with UNIQUE or without, and any two keys, also to and from NULL: NTNDX exactly if the old entry is not there, and then nothing changes; INVALID_ENTRY exactly if the insertion into the tree left by the deletion is refused, and then the file holds what that insertion leaves; else the file is `Changed` of the file before and its entries are the old ones with the one exchanged |
| `IndexSearch.BtSrch` | server/dbe/btree.c:40-114 | In the mode for equality: search finds an entry exactly if there is one, the first of the key when no record number is given, and puts the cursor on it; else the cursor stays. Pages with a single child are searched too |
| `IndexSearch.MatchesMeaning` | server/dbe/btree.c:40-114 | What a match is: some entry has the key (and the record number), and the one found is the first |
| `IndexSearch.BtXrch` | server/dbe/btree.c:116-162 | Forward: after the last entry of a page, the page to go on from starts with the next entry; none exactly at the end |
| `IndexSearch.NdxTop` | server/dbe/ndx.c:235-259 | The first entry, or 0 exactly if the index is empty |
| `IndexSearch.NextNdx` | server/dbe/ndx.c:317-350 | Forward: the entry behind the current one, or 0 exactly at the end; also after the cursor was reset |
| `IndexSearch.Walk` | server/dbe/ndx.c:235-350 | From the top, next until 0: every entry exactly once, in order |
| `Keys.Skcmp` | server/dbe/ndx.c:527-537 | The comparison of two character keys is that of the numbers their bytes are, as far as a NUL in the target lets it look |
| `Keys.RankOrders` | server/dbe/ndx.c:527-537 | For a target without NUL behind its first byte that is the order of the whole keys, and equal keys have equal numbers |
| `Keys.NulExactly` | server/dbe/ndx.c:527-537 | A target is compared rightly with every key of its length if and only if it has no NUL behind its first byte |
| `Keys.NulInFront` | server/dbe/ndx.c:527-537 | A NUL as the first byte does no harm |
| `Keys.PairExactly` | server/dbe/ndx.c:527-537 | And with one key if and only if the two are equal or differ before that NUL |
| `Keys.NulMatches` | server/dbe/ndx.c:527-537 | AB and A with a NUL compare as equal |
| `Keys.EntryTakes` | server/dbe/ndx.c:58-65 | An entry takes 16 bytes and its key, rounded up to a multiple of 4 |
| `Keys.PageTakes` | server/dbe/ndx.c:58-65 | The capacity computed from the key length is at least 3, the entries fit on the page, and one more would not |
| `Table.ReplacedMirrors` | server/dbe/ndx.c:412-454 | Replacing the entry of one record keeps an index the mirror of the table with that record changed |
| `Table.UpdNdx` | server/dbe/ndx.c:412-454 | All open indexes follow a changed or new record. It stops at the first index whose insertion is refused (`FirstRefusal`): each one before it is `Changed` and agrees with the new table, each one behind it is untouched and agrees with the old one, and the one it stopped at holds what the refused insertion left |
| `Table.FirstRefusalMeans` | server/dbe/ndx.c:412-454 | That index refuses and none before it does, judged on the indexes as they are before the call |
| `Table.Table.StoreUpdate` | server/dbe/db.c:779-802 | A record is stored and every index lists exactly the keys of the table, unless INVALID_ENTRY comes back, which it does exactly if the record changed and some index refuses its new entry; then the first such index is the one `UpdNdx` stops at, and it is said what every index holds (`Stopped`) |
| `Table.Table.StoreAppend` | server/dbe/db.c:779-802 | The same for a new record; and never refused where no separator is numbered 0 |
| `Table.BuildIndex` | server/dbe/index.c:31-69 | An index built by insertion lists exactly the keys of the records that are not skipped; with UNIQUE, the first record of each key |
| `Unique.BuiltIsFirsts` | server/dbe/index.c:31-69 | So with UNIQUE on a built index lists, for every key, the first record that has it, and nothing else |
| `Unique.UniqueMisses` | server/dbe/ndx.c:377-410 | An update of a record in such an index fails with NTNDX exactly if its key changes and an earlier record has its old key |
| `Unique.UniqueKept` | server/dbe/ndx.c:377-410 | When it does not fail, the index lists the first record of each key again exactly if no later record has the old key, and a later one has the new key only where an earlier one has it too |
| `Unique.KeyLost` | server/dbe/ndx.c:377-410 | Two records with one key, of which the first gets another: nothing of the old key is left in the index, and an update of the second fails |
| `Refusals.FullRefuses` | server/dbe/page.c:104-106 | A loaded index of three levels or more that is completely full refuses every entry behind its last |
| `Refusals.LoadAndAppend` | server/dbe/qindex.c:116-176 | So loading a stream of exactly that length and inserting behind it ends in INVALID_ENTRY, for every capacity and every height from three levels on; with two entries a page the stream has 18 entries |
| `Refusals.FullIs` | server/dbe/qindex.c:116-176 | How long such a stream is: `(cap + 1)` times `(cap + 1)` times `cap` for three levels |
| `Refusals.ChangeRefused` | server/dbe/btree.c:249-354 | An index of 14 numbered entries, two to a page, in which record 12 changes its key to 15: INVALID_ENTRY, since the deletion leaves separator 11 without record number and the insertion sends it up |
| `Sorting.QcompExactly` | server/dbe/qindex.c:53-78 | The comparison is the order of (key, record number) for all entries of tables of `n` records exactly if `n` is at most 2^31 |
| `Sorting.Insort` | server/dbe/vsort.c:177-196 | In place: a permutation of the segment, in order, and nothing outside it changed; items of which none is before another stay where they are |
| `Sorting.Partition` | server/dbe/vsort.c:198-232 | In place: everything left of `i` is not above the pivot, everything right of `j` not below it, the scans stay inside the segment without bound checks, and both parts are smaller than the segment; items that are all alike are mirrored about the middle |
| `Sorting.QsortRange` | server/dbe/vsort.c:198-248 | In place: a permutation of the segment, in order; and when its items are all alike, the one that comes first is the one that stood at place `QFirst` |
| `ExternalSort.Merge2Is` | server/dbe/vsort.c:260-341 | The merge of two sorted runs is sorted and loses nothing |
| `ExternalSort.MergeAllIs` | server/dbe/vsort.c:260-341 | Passes of doubled run length sort the whole file |
| `ExternalSort.Sorter.MergePass` | server/dbe/vsort.c:260-341 | One pass through two input buffers and an output buffer, refilled and flushed as they run out, writes exactly the merged runs to the other file |
| `ExternalSort.Sorter.ReadKeys` | server/dbe/vsort.c:425-461 | Reading the keys leaves sorted runs on the first file, the last one shorter, NULL keys left out |
| `ExternalSort.Sorter.VSort` | server/dbe/vsort.c:425-493 | The file it names holds the entries of all records whose key is not NULL, each once, in order; and which entry is first when all fit in memory and are alike |
| `BulkLoad.BuildBt` | server/dbe/qindex.c:116-176 | The recursion of the loader writes a tree of the height it was called for over the next stretch of the stream, full but at the right edge, on pages of its own |
| `BulkLoad.QIndex` | server/dbe/qindex.c:194-241 | The index holds exactly the stream and can be searched and walked; it is one that insertion and deletion keep in shape exactly if no page has a single child, which is told from the length of the stream. An empty stream is an error |
| `BulkLoad.LoneExactly` | server/dbe/qindex.c:116-176 | A loaded tree has a page with a single child exactly if its number of entries says so (`LeavesLone`) |
| `BulkLoad.SameAsInserted` | server/dbe/index.c:31-69 | Loaded or built by insertion, an index over the same table without skipped records has the same entries |
| `QuickIndex.Qindex` | server/dbe/qindex.c:194-241 | Keys read, sorted and loaded: up to 2^31 records, the index lists exactly the keys of the table; it fails exactly if no record has a key |
| `QuickIndex.QindexUnique` | server/dbe/qindex.c:80-114 | With UNIQUE on, exactly one entry for each key, of a record that has it; when all records have one key and fit in memory, of the record at place `QFirst` |
| `QuickIndex.OtherRecord` | server/dbe/qindex.c:80-114 | Of records with one key, that is not the first one, which insertion keeps, exactly if there are 256 of them or more |
| `Control.RunsAsWritten` | server/hb/proc.c:792-847 | The machine on the resolved code executes the blocks of the structured run (LOOP as it is compiled), in that order, and then halts, overflows its call stack or is cut off as that run does |
| `Control.RunsNothingElse` | server/hb/proc.c:792-847 | After any number of steps the machine has executed a prefix of what the structured run executes, endless runs included |
| `Meaning.IfMeans` | server/hb/proc.c:547-584 | IF, ELSEIF, ELSE: the part of the first condition that is true, else the last |
| `Meaning.CaseMeans` | server/hb/proc.c:585-620 | DO CASE: what stands before the first CASE, and then one part |
| `Meaning.WhileMeans` | server/hb/proc.c:431-546 | DO WHILE: the condition before each round |
| `Meaning.ExitMeans` | server/hb/proc.c:497-537 | EXIT leaves the innermost loop, also from within an IF |
| `Meaning.ReturnMeans` | server/hb/proc.c:482-496 | RETURN ends the procedure, also from within a loop; a function gives its value first |
| `Meaning.CallMeans` | server/hb/proc.c:447-481 | Arguments, the procedure up to its RETURN, and what stands behind the call; a fault exactly if the stack of return addresses is full |
| `CodeGen.RightB` | server/hb/proc.c:384-628 | Code laid down with place holders and patched later is the code of the body, whatever was patched behind it, and the jumps of EXIT lead behind the loop |
| `Lines.FeedBlock` | server/hb/proc.c:384-628 | Line by line, with stacks of open levels and of addresses: a body is accepted exactly if it nests within the limits, has no EXIT outside a loop and the RETURN its module asks for, and then the code is that of the nested body and the stacks are as before |
| `Nesting.StepJudged` | server/hb/proc.c:384-628 | Every line in every state that lines lead to: the error, and no other, that the open levels give rise to (`Verdict`, a table over levels and lines) |
| `Nesting.FeedJudged` | server/hb/proc.c:384-628 | So the error of any list of lines is that of its first bad line, told from the lines alone |
| `Nesting.CodeOfLine` | server/hb/proc.c:384-628 | The code of a line that opens and closes nothing |
| `Nesting.WalkIff` | server/hb/proc.c:384-628 | Lines each of which suits the level it comes in, and that close every level, are exactly the lines of nested bodies |
| `Nesting.WholeIff` | server/hb/proc.c:384-628 | The lines of a module are accepted with no level left open if and only if they are those of a nested body within the limits |
| `Nesting.BegunIff` | server/hb/proc.c:384-628 | They are accepted if and only if they are the first lines of one |
| `Nesting.OneBody` | server/hb/proc.c:384-628 | And no two bodies have the same lines |
| `Nesting.NameFails` | server/hb/proc.c:642-707 | Too many modules, a name defined twice, a function called before it stands: these errors come before any line is looked at |
| `Nesting.ModuleFails` | server/hb/proc.c:405-420 | A module, whatever its lines: the error of its first bad line, else what the end of the source says about the innermost open level, else a missing RETURN line |
| `Nesting.FileIff` | server/hb/proc.c:642-707 | A file of any lines compiles with no module leaving a level open if and only if it is one of nested bodies that is acceptable |
| `Holes.StepKeeps` | server/hb/proc.c:384-628 | Whatever the lines, nested or not: the places still to be patched are exactly those the two stacks account for, each once |
| `Holes.ModuleLeftOver` | server/hb/proc.c:384-628 | After a module that compiles, a place holder is left in its code exactly if a level that keeps an address is still open at its end, which only a module that is not the last one can have |
| `Holes.UnclosedIf` | server/hb/proc.c:405-420 | PROCEDURE a, IF c, PROCEDURE b compiles, with a jump that is never patched |
| `Library.CompilesIff` | server/hb/proc.c:642-707 | A file of nested bodies compiles exactly if there are at most 32767 modules, no name is defined twice, no function is called before it stands, every function but the last has a RETURN line, and each body is within the limits |
| `Library.RunsAsCompiled` | server/hb/proc.c:642-707 | Every procedure of a file that compiles and leaves no call open runs as written, but for LOOP, which runs as it is compiled |
| `Threads.FileResolved` | server/hb/proc.c:159-215 | When every called name is defined, the file with its chains patched is the code with every call resolved |
| `Threads.NoneOpen` | server/hb/proc.c:231-261 | The table has no open entry exactly if every called name is defined |
| `ObjFile.ProcFile.CallLine` | server/hb/proc.c:431-481 | A call hangs its slot on the chain of the name, or takes the address if the name is defined |
| `ObjFile.ProcFile.AddDef` | server/hb/proc.c:159-215 | A definition walks the chain and patches every slot of it; MULTI_DEF exactly if the name is defined, PROC_MISMATCH exactly if it is a function that was called before |
| `ObjFile.ProcFile.ExitJump` | server/hb/proc.c:497-537 | The search down the level stack finds the slot of the innermost loop and threads the jump into it, in the file and in the array |
| `ObjFile.ProcFile.CompileLine` | server/hb/proc.c:384-628 | One line, in place: same error, same code and same stacks as the pure line machine, and the call chains hold |
| `ObjFile.ProcFile.Ec` | server/hb/proc.c:384-628 | One module: the error of its first bad line, or of what is still open in the last module, or a missing RETURN; else its code and a closing RETURN |
| `ObjFile.ProcFile.CompileProc` | server/hb/proc.c:642-707 | The whole file, in place: the same error, or the same code, addresses and open slots as the specification; and it is accepted only if its modules are the beginnings of nested bodies and the last one is all of one |
| `ObjFile.ProcFile.WriteTable` | server/hb/proc.c:231-261 | Returns the number of names that were called and not defined; the head receives the position of the table; if the number is 0 the file is the resolved code; else only the ends of open chains are changed |
| `ObjFile.Execute` | server/hb/proc.c:792-847 | The loop of the machine makes exactly the steps of its specification |
| `Loops.LoopIsExit` | server/hb/proc.c:497-537 | Every file compiles exactly as it does with EXIT in place of every LOOP |
| `Loops.RunsAsMeant` | server/hb/proc.c:497-537 | Every procedure of a compiled file, on the machine: if no LOOP is executed it runs as it is meant to, and otherwise what is executed up to the first LOOP is how both that run and the meant one begin |
| `Loops.AgreeB` | server/hb/proc.c:497-537 | Every body, at any depth: the meant run and the compiled run are the same if no LOOP is executed, and begin with the same blocks otherwise |
| `Loops.PartAtLoop` | server/hb/proc.c:497-537 | Where they part: at the first LOOP the meant run goes on with the condition of its loop, and the compiled run behind the ENDDO |
| `Loops.LoopEnds` | server/hb/proc.c:497-537 | A loop over a condition that always holds, whose last line is LOOP: it is meant to go on as long as it is watched, and compiled it runs its body once |
| `Transactions.MarkedExactly` | server/dbe/transac.c:110-270 | After any interleaving of steps of any number of sessions, a record is marked exactly if one session has it in its log still to be treated, or it is stuck; never both; and no record is in two logs or twice in one |
| `Transactions.UndoRestores` | server/dbe/transac.c:252-270 | Whatever the other sessions do meanwhile, undoing an update of a transaction gives the record the body it had, and the whole record exactly if the update changed the body; otherwise the record stays marked. No other record changes. The index update is in `Rollback.RbkRollback` |
| `Transactions.CommitKeeps` | server/dbe/transac.c:225-250 | Whatever the other sessions do meanwhile, the record holds the new body until the commit reaches it, which removes the mark and nothing else |
| `Transactions.UpdateReads` | server/dbe/db.c:779-783 | An update of a record that is valid stores the new body, marked exactly in a transaction, and nothing else; it is read until the record is written again, whatever the sessions do. Any other update changes nothing |
| `Transactions.EventsAre` | server/dbe/transac.c:110-250 | Beginning, committing and rolling back change no record, and are ignored at the wrong time |
| `Transactions.CommitsAll` | server/dbe/transac.c:225-250 | From COMMIT to the end of the transaction, without interference |
| `Transactions.RollsBackAll` | server/dbe/transac.c:252-270 | The same from ROLLBACK |
| `Transactions.CommitAllIs` | server/dbe/transac.c:225-250 | Committed, every record of the log is valid and has its body, and the others are as they were |
| `Transactions.UndoAllIs` | server/dbe/transac.c:252-270 | Rolled back, every record of the log has its image if its body differs from it, and the others are as they were |
| `Transactions.StuckForever` | server/dbe/transac.c:258-266 | A record that is stuck stays marked in every run: no session can update it any more |
| `Transactions.StuckExactly` | server/dbe/transac.c:258-266 | Rollbacks can leave another record stuck, in some run without such updates, exactly if a record was stored as it was in a transaction that may still be rolled back |
| `Transactions.DifferNext` | server/dbe/transac.c:252-270 | A step brings that about exactly if it is an update in a transaction that stores the body it finds |
| `Transactions.Session.SaveRec` | server/dbe/db.c:690-720 | A record of another transaction is refused with TRANSAC_EXCL and one that is not valid with INVALID_REC, both without a change; else the image is logged and the record marked, in a transaction |
| `Transactions.Session.UpdateRec` | server/dbe/db.c:690-783 | An update in place, in a transaction or not: refused, with nothing changed, or the new body stored and in a transaction marked and logged |
| `Transactions.Session.TransactionCommit` | server/dbe/transac.c:225-250 | Over one table, the loop over the log unmarks every logged record, last first, and ends the transaction |
| `Transactions.Session.RbkRollback` | server/dbe/transac.c:252-270 | The loop over the log writes the images back, last first, where the body differs, and ends the transaction |
| `Transactions.UndoAllSteps` | server/dbe/transac.c:252-270 | Without interference that is as many single undo steps of the session |
| `Transactions.CommitAllSteps` | server/dbe/transac.c:225-250 | The same for commit |
| `Rollback.RbkRollback` | server/dbe/transac.c:252-270 | Rolled back with open indexes, the table is what the log says and every index lists exactly its keys, unless INVALID_ENTRY comes back, which it does exactly if an entry of the log is `Blocked`, computed on the state before; then it has stopped at that entry, with the later ones undone, and it is said what every index holds (`Halted`) |
| `Rollback.UndoOne` | server/dbe/transac.c:252-270 | One entry: refused exactly if the body differs and an index refuses the keys the record had |
| `ScopeCompile.CodeBuffer.Fcodegen` | server/hb/proc2.c:44-56 | The ten operations of the loop, or EXP_TOOLONG exactly if they do not fit |
| `ScopeCompile.CodeBuffer.ProcessFcode` | server/hb/proc2.c:58-99 | One clause: its body is appended and its operands are patched in place as the specification has it, with the same error |
| `ScopeCompile.CodeBuffer.FmodOp` | server/hb/proc2.c:101-113 | Ends the loop: a body that is always true for FOR or WHILE where not given, and the jumps out of the loop |
| `ScopeCompile.CodeBuffer.CompileOne` | server/hb/proc2.c:400-430 | A command of one operation with its clauses in any order (COUNT without TO), in place: same error, same code as the specification |
| `ScopeCompile.CodeBuffer.CompileReplace` | server/hb/proc2.c:664-733 | The same for an update, with its list of fields before or among the clauses |
| `ScopeClauses.CompilesIff` | server/hb/proc2.c:58-113 | Clauses compile exactly if none is given twice, every count is a whole number, and the code fits in 128 operations |
| `ScopeMeaning.FaultIs` | server/hb/proc2.c:58-99 | Otherwise the error is that of the first clause that is given twice, is not a whole number, does not fit, or is no clause |
| `ScopeMeaning.ClausesAre` | server/hb/proc2.c:58-99 | Which clause counts |
| `ScopeClauses.CompilePlan` | server/hb/proc2.c:58-113 | The order of the clauses does not matter: the compiled loop has the FOR body, the WHILE body, the count, the direction and the list that were given, or their defaults |
| `ScopeClauses.CloseStands` | server/hb/proc2.c:101-113 | When the loop is closed every one of its jumps and calls leads where it should |
| `ScopeCode.EdgesHold` | server/hb/code.c:60-95 | On that code the machine goes from each part of the loop where the meaning of the clauses says |
| `ScopeRun.FinalIs` | server/dbe/rec.c:200-228 | The loop acts on exactly the records the clauses choose, in order: those shown from the start on, as many as the count allows, as long as WHILE holds, and of these the ones FOR holds for |
| `ScopeMeaning.WalkIs` | server/dbe/rec.c:92-133 | The walk: its first record, hidden or not, and then those that are shown at the places after it, upward or downward |
| `ScopeCommands.StartIs` | server/hb/int.c:763-795 | What NEXT and PREV set: as many records as their constant says, or all; the direction; and where the walk begins |
| `ScopeCommands.Written` | server/hb/proc2.c:58-113 | A loop that does what it is asked does what the clauses say: the action, in order, at those that FOR holds for of the first `m` records of the walk, where `m` is the count, or ends before the first that WHILE fails at, or is all there are |
| `ScopeCommands.CommandActs` | server/hb/proc2.c:400-487 | The compiled code of COUNT, DELETE or RECALL with any clauses, run on the machine, ends and has acted on exactly the records that the clauses say (`ScopeMeaning.AsWritten`, read off the clauses and the table) |
| `ScopeCommands.UpdateActs` | server/hb/proc2.c:664-733 | The same for an update without an active index |
| `ScopeCommands.UpdateAhead` | server/hb/proc2.c:664-733 | An update under an active index whose order it leaves alone, which fetches the next entry before it changes the record, acts on exactly `ActedOn`, in order, and then ends, or stays for ever at the place after the last record |
| `ScopeMeaning.GetsIs` | server/dbe/rec.c:92-118 | Which records that is: those before the first that FOR holds for are passed over, |
| `ScopeMeaning.BurstIs` | server/dbe/rec.c:92-118 | and from there it goes on as long as the next record of the span is at the very next place and FOR holds |
| `ScopeCommands.AheadIff` | server/dbe/rec.c:92-118 | Such an update does what was asked and ends exactly if the records chosen stand next to one another in the index and the place after the last of them is not hidden |
| `ScopeWitness.EarlyEnd` | server/hb/proc2.c:664-733 | Three records, FOR false at the second: the third is not updated |
| `ScopeWitness.EndlessSkip` | server/dbe/rec.c:200-228 | Three records, the second hidden: the machine comes to a state it does not leave |
| `Pcode.Execute` | server/hb/code.c:60-113 | The recursive interpreter returns, or fails on an illegal operation, exactly as the machine with a stack of return addresses does in as many steps |
| `Pcode.CallRuns` | server/hb/code.c:60-95 | A CALL of straight code comes back behind the call with the operations done |
| `Values.Decoded` | server/hb/int.c:85-105 | A value laid down as bytes is read back from them, and its size from its head alone, whatever follows |
| `Values.Layout` | server/hb/int.c:85-105 | The bytes of each kind of value |
| `Values.OffsetFinds` | server/hb/parse.c:39-47 | The walk over the constants finds each of them |
| `Expr.ParseShows` | server/hb/parse.c:296-470 | What the parser takes, written out again, is what it read, and it uses parentheses only where they stood |
| `Expr.ParseFinds` | server/hb/parse.c:296-470 | Every expression of the grammar, written out and followed by something that cannot continue it, is what the parser finds: all six levels, association to the left, comparisons not at all |
| `Grammar.ParsesGrammar` | server/hb/parse.c:296-470 | The parser finds exactly the expressions of the grammar, six levels written out |
| `Grammar.TighterFirst` | server/hb/parse.c:406-470 | Of two operators of different kinds the one that binds tighter takes its operands first, whichever stands first: `a + b * c` and `a * b + c`, and so for every two kinds |
| `Grammar.LeftFirst` | server/hb/parse.c:406-470 | Operators of one kind go together to the left |
| `Grammar.OneComparison` | server/hb/parse.c:440-449 | A second comparison is not taken, and in parentheses is an error |
| `Grammar.SignsFirst` | server/hb/parse.c:296-404 | Signs and NOT bind tighter than every operator |
| `Grammar.Operations` | server/hb/parse.c:406-470 | The value of each operator is what the operation with its token number makes of its operands, in their order |
| `Grammar.Calls` | server/hb/parse.c:346-385 | A function gets its arguments in the order they are written |
| `Expr.Unambiguous` | server/hb/parse.c:296-470 | No two expressions are written with the same tokens |
| `ExprRun.RunsTo` | server/hb/code.c:60-113 | The code of an expression, run on the stack of bytes with its constants in memory, leaves its value on top of what was there, or fails, exactly as the evaluation does, room on the stack included |
| `ExprValue.Leaves` | server/hb/parse.c:296-470 | The same of any memory that obeys the laws of a stack |
| `ExprRun.CallRuns` | server/hb/int.c:601-605 | A function call takes as many values as its count says, in order, and leaves the result |
| `ExprCompile.Compiler.Level` | server/hb/parse.c:406-470 | The six routines of the recursive descent, in place: the tokens taken, the code and constants appended, and the error, are those of the expression the parser finds |
| `ExprCompile.Compiler.FactorRoutine` | server/hb/parse.c:296-404 | The same for a factor: constants, names, fields of an alias, function calls, signs and parentheses |
| `ExprCompile.Compiler.Load` | server/hb/parse.c:49-91 | A constant is stored behind the others and its number returned, or EXP_TOOLONG exactly if it does not fit |
| `ExprCompile.RoomyIs` | server/hb/parse.c:49-55 | The limits: 128 operations, 256 constants, and these in less than 16252 bytes |
| `ExprWhole.CompileExpression` | server/hb/parse.c:462-470 | From tokens to value: code that is accepted leaves the value of the expression of the grammar that the tokens are; it is refused only if the tokens begin with no expression, or if its code or constants do not fit |
| `ExprWhole.CodeStraight` | server/hb/parse.c:296-470 | The code of an expression is straight, as the bodies of FOR and WHILE have to be |
| `Numbers.AddExactlyIf` | server/hb/int.c:381-414 | For all operands: a sum that is returned is the exact one modulo 2^64, right exactly if that fits; and it is wrong without an error exactly if it does not fit, scaling does not turn the sign of the operand that is scaled, and the sum of what scaling leaves is not one that is noticed |
| `Numbers.AddFails` | server/hb/int.c:381-414 | For all operands: an error exactly if scaling turns the sign (`Turns`) or the sum of what it leaves is noticed (`Noticed`). For operands that can be scaled: exactly if the sum does not fit, but for the sum of the two least integers and for 0 minus the least |
| `Numbers.Unnoticed` | server/hb/int.c:381-414 | Two sums that do not fit and are returned |
| `Numbers.RelExactlyIf` | server/hb/int.c:307-379 | For all operands: compared rightly exactly if the low 64 bits of the exact difference have its sign. For operands that can be scaled: exactly if the difference fits, else the other way round |
| `Numbers.RelIs` | server/hb/int.c:307-379 | For all operands: the comparison is that of the low 64 bits of the exact difference with 0 |
| `Numbers.Reversed` | server/hb/int.c:307-379 | 10 is less than 0.000000000000000001, and 2^62 equal to 0.00 |
| `Template.ShownAsWritten` | client/cgi/db3w.c:385-449 | The lines of a nested template, interpreted one by one with a flag on each open level, put out what the nested template means |
| `Template.ShowsNothingElse` | client/cgi/db3w.c:385-449 | After any number of lines what has been put out is a prefix of that |
| `Template.AddressesAreLoops` | client/cgi/db3w.c:150-163 | Whatever the lines: the address stack holds exactly the starts of the open loops that are running, so taking one off never fails |
| `TemplateNesting.LineJudged` | client/cgi/db3w.c:385-449 | Every line in every state: the error, and no other, that the open levels give rise to |
| `TemplateNesting.ReadToTheEnd` | client/cgi/db3w.c:880-905 | Whatever the lines, the conditions and the loops taken: a template read to its end without an error and with no level open is one of nested tags |
| `HtmlPage.Page.ProcessLine` | client/cgi/db3w.c:385-449 | One line, on the arrays of levels and addresses: as the specification has it (tags that do not nest are lines of text) |
| `HtmlPage.Page.HbHtml` | client/cgi/db3w.c:880-905 | The loop over the lines, with seeks back to the starts of loops, and the error for a level that is open at the end |
| `Pack.Table.DbPack` | server/dbe/pack.c:55-76 | The loop that moves records in place leaves `Packed` of them (no memo fields) |
| `Pack.PacksIff` | server/dbe/pack.c:55-76 | That is the records that are not deleted, in order, exactly if the cursor is at neither end of the table or no record has to be moved |
| `Pack.Otherwise` | server/dbe/pack.c:55-76 | Otherwise no record goes, and each deleted one is overwritten by the first undeleted record behind a deleted one |
| `Pack.Duplicates` | server/dbe/pack.c:55-76 | Three records, the first deleted, the cursor at the end: the second is there twice and nothing is dropped |
| `Tiger.TigerCompress` | misc/tiger32/tiger.c:144-186 | The macros on pairs of 32-bit words compute the compression function on 64-bit words |
| `TigerReference.CompressIs` | misc/tiger32/tiger.c:68-142 | Which is the one its authors describe: 24 rounds, the registers taking turns, eight rounds with each of three keys, multiplied by 5, 7 and 9, and the old registers at the end |
| `TigerReference.ScheduleIs` | misc/tiger32/tiger.c:106-122 | The key schedule as its 16 assignments |
| `TigerReference.XorBit` | misc/tiger32/tiger.c:106-122 | Each bit of the exclusive or that the specification uses |
| `Tiger.AddHalves` | misc/tiger32/tiger.c:33-37 | The sum of 64-bit words from that of their halves and a carry |
| `Tiger.NotShiftLeft` | misc/tiger32/tiger.c:106-122 | The complement, shift and exclusive or of the key schedule, on halves |
| `Tiger.NotShiftRight` | misc/tiger32/tiger.c:106-122 | The same to the right |
| `Tiger.RoundAt` | misc/tiger32/tiger.c:68-94 | One round, on halves |
| `Tiger.KeySchedule` | misc/tiger32/tiger.c:106-122 | The key schedule, on halves |

## Findings

Where the code does not do what it is for. Each line names the lemma that says exactly when, and
one that shows an input.

- **Insertions refused, and entries lost.** `insert_entry` (server/dbe/page.c:104-106) looks at a
  page that is still empty to tell whether it is a leaf when the right half of a split takes the
  new entry, so that a separator with record number 0 is refused with INVALID_ENTRY. Deletion and
  the fast builder write such separators. When: `BTree.InvalidExactly`, `IndexOps.InsertNew`,
  `IndexOps.RemoveOldInsertNew`, `Table.Table.StoreUpdate`. Inputs: `Refusals.LoadAndAppend`, an
  index loaded full, and then one entry more; `Refusals.ChangeRefused`, an index of
  numbered entries in which one record changes its key. What it costs: by then the page below has
  split, and its right half is no longer in the tree (`BTree.RefusedLoses`, `BTree.LosesSome`). A rollback ends
  there as well, with the earlier entries of its log not undone (`Rollback.RbkRollback`).
- **Pages with one child.** The fast builder leaves them for some numbers of entries
  (`BulkLoad.LoneExactly`, `LeavesLone`), and then the index is not of the shape that deletion
  relies on (`BulkLoad.QIndex`). Searching and walking such an index is right.
- **More than 2^31 records.** The sort compares record numbers by a difference cut to 32 bits:
  right exactly up to 2^31 records (`Sorting.QcompExactly`).
- **Character keys with a NUL.** A target is compared rightly with every key if and only if it has
  no NUL behind its first byte (`Keys.NulExactly`), and with one key if and only if the two are
  equal or differ before the NUL (`Keys.PairExactly`). Input: `Keys.NulMatches`.
- **UNIQUE indexes** list one record of each key, and an update does not look for another one to
  take its place. `Unique.UniqueMisses` says when the update fails with NTNDX, `Unique.UniqueKept`
  when the index is still the one that would be built; `Unique.KeyLost` is an input. The fast
  builder may keep another record than insertion does: of records that all have one key exactly if
  there are 256 or more (`QuickIndex.OtherRecord`).
- **An IF that is not closed before the next PROCEDURE** compiles, with the place
  holder -1 (server/hb/proc.c:55) left in its jump (`Holes.UnclosedIf`); this happens to exactly the
  modules that leave an address open (`Holes.ModuleLeftOver`). Only the last module is checked.
- **Updates under an active index with FOR, or with hidden records.** The entry fetched ahead is
  the next of the index, not the next that is shown or chosen. The update ends early, or never:
  `ScopeCommands.AheadIff` says when it does what was asked; `ScopeWitness.EarlyEnd` and
  `ScopeWitness.EndlessSkip` are inputs.
- **PACK with the cursor at the end** of the table does not move the records it has read, and
  duplicates one instead (`Pack.PacksIff`, `Pack.Otherwise`, `Pack.Duplicates`).
- **Records left marked.** A transaction that stores a record unchanged and is rolled back leaves
  the marker: `Transactions.UndoRestores` says when, `Transactions.StuckForever` what follows.
  `Transactions.StuckExactly` and `Transactions.DifferNext`: a run is safe from it exactly as long as
  no such update has been made whose transaction may still be rolled back.
- **Numbers.** Sums that overflow are returned: exactly when, in `Numbers.AddFails` and
  `Numbers.AddExactlyIf`; inputs in `Numbers.Unnoticed`. Comparisons come out wrong exactly if the
  low 64 bits of the difference do not have its sign (`Numbers.RelExactlyIf`); inputs in
  `Numbers.Reversed`.
- **LOOP** is compiled as EXIT: server/hb/proc.c:521 compares the command with the keyword LOOP
  instead of LOOP_CTL, two different numbers in include/hbkwdef.h:140 and 406. A file compiles as
  with EXIT in its place (`Loops.LoopIsExit`), runs as it is meant to as long as no LOOP is executed
  (`Loops.RunsAsMeant`), and parts from that at the first one (`Loops.PartAtLoop`). Input:
  `Loops.LoopEnds`.

## Left out

- IndexSearch.NdxTop: needs a root with more than one child; the fast builder leaves no other.
- IndexSearch.BtSrch: only the mode for equality; the inequality modes and the position after an
  insertion are not modelled.
- IndexSearch.BtXrch: only forward, as IndexSearch.NextNdx is; the way back is not modelled.
- Table.UpdNdx: the open indexes are without UNIQUE, here and in Table.Table.StoreUpdate,
  Table.Table.StoreAppend and Rollback.RbkRollback. With UNIQUE an index need not mirror the table
  after an update, and `Unique` says when it does.
- QuickIndex.QindexUnique: which record of several with the same key gets the entry, unless all
  records have one key and fit in memory.
- QuickIndex.Qindex: up to 2^31 records, since beyond that the comparison is not an order
  (`Sorting.QcompExactly`).
- Sorting.QsortRange: ascending order, as everything in `Sorting` and `ExternalSort`: the flag for
  descending order is 0 (server/dbe/vsort.c:395) and nothing in the repository sets it.
- Numbers.AddExactlyIf: NULL, floating point and multiplication are not modelled.
- Control.RunsAsWritten: conditions are true or false; a condition that is NULL or fails ends the
  run in the program. Blocks between the jumps are opaque to `Control`, which sees only their
  order.
- ObjFile.ProcFile.AddDef: names are compared exactly, the program ignores case.
- ObjFile.ProcFile.WriteTable: the records of the table at the end of the file, lengths and line
  numbers, and the numbers written into the ends of open chains, are not modelled.
- ScopeCompile.CodeBuffer.CompileOne: the TO clause of COUNT, which stores the number.
- ScopeCommands.UpdateAhead: the order of the index is fixed during the loop, so an update that
  moves a record ahead in the index it walks is not followed to its new place.
- ScopeRun.FinalIs: actions that change what is shown of other records, or the conditions there,
  are not covered (`Local`).
- ExprWhole.CompileExpression: names, functions and the operations on values are parameters
  (`Lang`), floating point and dates among them; macros, arrays, date literals and an alias not
  followed by a name are not modelled.
- Pcode.Execute: stops after a number of steps that is given, as ObjFile.Execute and
  HtmlPage.Page.HbHtml do; the data stack of escapes and parameters is not modelled.
- Pack.Table.DbPack: the copy of memo fields, and the rebuilding of indexes afterwards.
- HtmlPage.Page.ProcessLine: tags for cookies, mail, output and debugging, and the replacement of
  fields in a line.
- Tiger.TigerCompress: padding, length and byte order of the hash around the compression.
- Keys of several parts, numeric and date keys; the bytes of pages, headers and object files.
- Locks: every operation on a table is one step for the others, as the record and file locks make
  it; waiting and giving up on a lock are not modelled.
- Transactions.Session.TransactionCommit: transactions over several tables, appending and deleting
  in a transaction, CANCEL, and the checksum of the log.
- Errors of the file system, and the space left on a disk.
- Relations between tables, filters by expression, reports, forms and the client protocol.
