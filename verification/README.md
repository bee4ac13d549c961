# A verified model of a small relational engine

The engine keeps tables in memory and pages on disk. This project models its algorithms in Dafny and
proves what they promise, subsystem by subsystem. Code that updates state in place (buffer pool,
B-tree nodes on pages, lock table, log, parser and lexer cursors, pull-based operators, heap page) is
modelled by classes and loops, each proved against a specification function or list; the theorems
are then about those functions, about whole runs, and about several subsystems together.

- **Pages and buffer pool** (`Pages`, `PoolModel`, `BufferPool`): the write-back LRU cache refines a
  flat page store over every run; its contents are the most recently used pages, so pools of
  different sizes are nested.
- **B+ tree** (`KeyOrder`, `EntryLists`, `Nodes`, `Division`, `Decimal`, `Characters`, `NodeCodec`, `BTreeModel`,
  `BTreeQueries`, `BTreeNode`, `BTreeTexts`, `BTree`, `SimpleIndex`): every insert keeps the whole
  invariant (order, separators, one depth, node sizes, one node a page, the leaf chain) on pages that
  live in the buffer pool; after any run of inserts searches and scans are compared with the inserted
  pairs and with the sorted map; a node reads back from its page exactly when its text is shorter
  than the page body, and an insert asks for no more than that of the nodes it leaves.
- **Transactions** (`Rows`, `Rollbacks`, `LostRows`, `Dml`, `DmlExecutor`, `Transactions`, `Locks`,
  `Isolation`, `Unlocked`, `TransactionManagers`): what rollback brings back, deletes included, and
  exactly when that is everything, alone and among other transactions, with locks and without.
- **Log and recovery** (`LittleEndian`, `WalCodec`, `RowText`, `Wal`, `Recovery`, `CrashAtomicity`,
  `Durability`): torn logs, restartable recovery, what recovery leaves for every log, when a crash at
  any byte leaves exactly the whole commits, with rollbacks and reused transaction ids in the log, and
  when those are the tables in memory, for statements in sequence and for interleaved writes under
  locks.
- **Queries** (`Ast`, `Expressions`, `Conditions`, `SortOrder`, `Queries`, `DroppedColumns`,
  `HashJoins`, `Plans`, `Operators`, `QueryExecutor`): both lowerings and the operators keep the
  meaning of a SELECT, and exactly when that answers the query.
- **Lexer and parser** (`Tokens`, `Lexing`, `Spelling`, `Lexers`, `TextGrammar`, `Parsing`, `Grammar`,
  `StatementGrammar`, `Printing`, `PrintStatements`, `Parsers`, `Texts`, `Spoken`, `NormalForms`): the
  lexer reads the longest token that is spelled where it stands, the parser accepts exactly what a
  grammar, written as a relation, derives, and both together read a text as what it says; statement to
  text and back is the identity, and so is source text to statement to text to statement.
- **Slotted heap page** (`HeapPages`, `TableHeaps`).

`std::stod` and `std::sort` are parameters (`Stod`, `Engine.sort`), and the iteration order of a hash
map is any order. A char stands for one byte of a page, a key or the log. The proofs use `hide` to
keep each obligation small; a lemma without a row in the table below is a step of another
proof or an instance of a result.

Where the code and its documentation differ, the model follows the code:

- An exclusive lock is granted when no *other* transaction holds the resource, not only when it is
  free (`src/lock_manager.cpp:13-18`).
- Rolling back, or undoing at recovery, a delete overwrites a row that is there; it never puts one
  back (`include/txn_manager.h:85-94`, `src/wal.cpp:188-194`).
- Recovery undoes rolled-back transactions after it has redone all commits, so it can take a later
  commit back (`src/wal.cpp:176-195`).
- Recovery knows a transaction by its id alone, and the ids start again at 1 with every transaction
  manager, while a log that exists is appended to (`include/txn_manager.h:129`, `src/wal.cpp:7-20`,
  `src/wal.cpp:135-139`): an unfinished transaction with the id of an earlier commit is taken for
  committed.
- AND, OR and NOT are keywords in any case for the lexer, but only the capitals mean anything to the
  evaluator (`src/lexer.cpp:111-132`, `src/executor.cpp:59-82`).
- An ORDER BY item may also end in DESC ASC, which means DESC (`src/parser.cpp:228-229`), and whatever
  follows the statement and its semicolon is ignored (`src/parser.cpp:50-54`).
- A slot entry takes six bytes, not five (`src/table_heap.cpp:10-21`), and rows as text end with a
  semicolon (`src/wal.cpp:29-34`).
- Inserting a key again adds a second pair to the B-tree (`src/btree.cpp:155-165`), where the sorted
  map that demonstrates the index overwrites (`main.cpp:17-19`).

## Model

| member | source | states |
|---|---|---|
| PoolModel.RunRefines | src/buffer_pool.cpp:8-118 | over every run in which writers unpin as dirty, each step keeps map, LRU list and sizes consistent, and every successful fetch hands out the last bytes written: the pool refines a flat page store |
| PoolModel.StepRefines | src/buffer_pool.cpp:8-118 | one operation of any kind matches the same operation on the flat store; only a new page changes the store's length, and not when everything is pinned |
| PoolModel.FetchKeeps | src/buffer_pool.cpp:8-37 | a fetch keeps the pool well formed: within its size, list and map the same pages without repeats, other pinned pages resident with their bytes |
| PoolModel.NewPageKeeps | src/buffer_pool.cpp:39-60 | the same for a new page, which is empty, dirty and pinned, or refused when all frames are pinned |
| PoolModel.VictimIs | src/buffer_pool.cpp:99-118 | the victim is the unpinned page nearest the back of the LRU list, and it is the only index with that property |
| PoolModel.HoldsMostRecent | src/buffer_pool.cpp:8-60 | after any run of fetches and new pages, each unpinned, a pool of size n holds exactly the n most recently used distinct pages, in that order |
| PoolModel.RecentByLastUse | src/buffer_pool.cpp:89-97 | the reference list used there is ordered by the last place of each page in the trace |
| PoolModel.StackInclusion | src/buffer_pool.cpp:8-60 | on one trace the smaller pool's LRU list is a prefix of the larger's, so every hit of the smaller is a hit of the larger |
| BufferPool.BufferPool.FetchPage | src/buffer_pool.cpp:8-37 | the class with its page map, list with handles and handle map does what the value model does, and hands out the resident page object |
| BufferPool.BufferPool.NewPage | src/buffer_pool.cpp:39-60 | the same for newPage, whose header carries the new id |
| BufferPool.BufferPool.Unpin | src/buffer_pool.cpp:62-68 | pin count down to zero at most, dirty bit only set, absent pages ignored; any page may be unpinned either way |
| PoolModel.UnpinLosesIff | src/buffer_pool.cpp:62-68 | after a last unpin the page survives its eviction iff it was unpinned as dirty, was dirty already, or had not been changed |
| PoolModel.PinsReturn | src/buffer_pool.cpp:62-68 | n fetches of a resident page and n unpins leave it with the pin count it had; each counts by one, down to zero |
| PoolModel.FlushKeeps | src/buffer_pool.cpp:70-78 | after a flush the page's frame is clean with the same bytes and pins, its block on disk has those bytes, and no other frame or block changes |
| PoolModel.FlushAllKeeps | src/buffer_pool.cpp:80-87 | the same for every dirty page at once, in any order |
| BufferPool.BufferPool.FlushPage | src/buffer_pool.cpp:70-78 | a dirty resident page is on disk and clean afterwards; nothing else changes |
| BufferPool.BufferPool.FlushAll | src/buffer_pool.cpp:80-87 | whatever order the hash map gives, all dirty pages end on disk and clean |
| BufferPool.TouchLinked | src/buffer_pool.cpp:89-97 | erasing through the stored list iterator and pushing in front moves exactly that page, and every iterator in the map still points at its own page's list node |
| BufferPool.BufferPool.Evict | src/buffer_pool.cpp:99-118 | the least recently used unpinned page goes, written out if dirty; false when all are pinned |
| BTreeModel.InsertOrdered | src/btree.cpp:149-245 | at every level an insert leaves the old pairs with the new one in its sorted place after its equals, separators bound both sides, and every leaf but the first begins with its separator |
| BTreeModel.InsertBalanced | src/btree.cpp:149-245 | an insert keeps all leaves at one depth and 2 to 4 keys in every non-root node |
| BTreeModel.InsertPages | src/btree.cpp:202-245 | an insert keeps every page used by one node and takes at most one new page a level |
| BTreeModel.InsertGood | src/btree.cpp:132-147 | insert at the root keeps the whole invariant, the height grows by at most one, and exactly the new pair is added |
| BTreeModel.BranchStored | src/btree.cpp:176-199 | the nodes on pages still represent the tree after a branch takes in a child's split, the leaf chain included |
| BTreeModel.InsertedKeeps | src/btree.cpp:155-165 | the position search keeps a list sorted and adds one pair to the multiset |
| BTreeModel.HeightBound | src/btree.cpp:82-94 | a tree of height h >= 1 holds at least 4 * 3^(h-1) pairs |
| BTreeModel.FindsLeaf | src/btree.cpp:82-94 | descent goes right on equality: before the leaf it reaches all keys are at most k, after it all are greater |
| BTreeModel.StoredChain | src/btree.cpp:217-223 | following nextLeaf visits the leaves from left to right and ends in INVALID_PAGE_ID |
| BTreeQueries.SearchIsRight | src/btree.cpp:96-105 | search is empty iff the key was never inserted, and otherwise gives a value inserted under it, with duplicates over several leaves too |
| BTreeQueries.SearchIsLookup | src/btree.cpp:96-105 | with distinct keys it is the lookup in the sorted pairs |
| BTreeQueries.SearchIsFirst | src/btree.cpp:96-105 | on any tree, copies of a key included, search gives the value of the first pair that a scan of that one key gives, and nothing iff that scan is empty |
| BTreeQueries.TreeRunOldest | src/btree.cpp:96-105 | after any run of inserts search gives the oldest value inserted under the key but for those that the scan of the key misses |
| BTreeQueries.RangeScanExact | src/btree.cpp:109-128 | the scan returns every pair in [from, to] iff the range is empty or no copy of from lies before the leaf reached |
| BTreeQueries.RangeScanMisses | src/btree.cpp:109-128 | what it misses is exactly the earlier copies of from |
| EntryLists.BetweenCount | src/btree.cpp:109-128 | the pairs in a range, against which scans are measured, are each as often there as in the whole list if their key lies between the bounds, and not at all otherwise |
| BTreeQueries.RangeScanOnce | src/btree.cpp:109-128 | the scan is exact when at most one pair has the key from, whatever other keys repeat |
| BTreeQueries.RangeScanDistinct | src/btree.cpp:109-128 | with distinct keys the scan is exact |
| BTreeQueries.DuplicateScanMisses | src/btree.cpp:109-128 | five inserts under one key: the scan of that key loses two of them |
| BTreeQueries.TreeRun | src/btree.cpp:132-147 | the tree after any run of inserts from the empty one keeps the whole invariant and holds each pair at its sorted place after its equals |
| BTreeQueries.TreeRunSorts | src/btree.cpp:132-147 | that tree's pairs, duplicates included, are sorted and are the inserted multiset |
| BTreeQueries.TreeRunStable | src/btree.cpp:155-165 | in that tree pairs under one key stay in the order of their insertion |
| BTreeQueries.TreeRunSearch | src/btree.cpp:96-105 | a search after any run is empty iff the key was not inserted, and else gives a value inserted under it |
| BTreeQueries.TreeRunScan | src/btree.cpp:109-128 | a scan after any run that inserted at most one pair under from gives exactly the inserted pairs in range, in key order |
| BTreeQueries.TreeMatchesIndex | main.cpp:15-40 | after any distinct-key run tree and SimpleIndex give the same scans, from > to included, and the same lookups |
| BTree.IndexOf | src/btree.cpp:132-147 | the index object on a pool, after any run whose tree fits its pages and page ids at every step, is valid and holds the tree of that run |
| BTree.AskIndex | src/btree.cpp:96-128 | through the pool after any such run: a search gives the oldest value under its key but for those its scan misses; scans miss at most copies of from, none if it was inserted once at most; with distinct keys both are the sorted map's |
| BTree.ShortRunFits | src/btree.cpp:24-28 | every run of pairs of at most 1015 bytes, with keys of at most 1005, fits at every step while the page ids suffice |
| SimpleIndex.PutLookup | main.cpp:17-25 | assignment in the sorted map changes the value of one key only |
| SimpleIndex.SimpleIndex.RangeScan | main.cpp:27-36 | lower_bound and the iterator loop give exactly the pairs with from <= key <= to |
| NodeCodec.SaveThenLoad | src/btree.cpp:11-44 | saving any node whose text is shorter than the page body, over any stale body, and loading it gives the node back |
| NodeCodec.SaveThenLoadIff | src/btree.cpp:24-32 | a terminated text that reads back is left iff the node's text is shorter than the body; one longer by more than a byte is read as something else |
| NodeCodec.CutIsLost | src/btree.cpp:26-27 | a node's text cut anywhere before the end of its last word decodes to another node or to none |
| NodeCodec.FirstPairIff | src/btree.cpp:24-32 | the first pair of an index survives its page iff key and value have fewer than 4067 bytes together |
| Decimal.DigitAt | src/btree.cpp:11-22 | a number is written with the digits of its places and no leading zero |
| Decimal.ParseJoined | src/btree.cpp:30-44 | digits are read by their places, leading zeros or not (Decimal.ParseDigit: one digit) |
| NodeCodec.EncodeFits | src/btree.cpp:24-28 | keys of at most 1005 bytes, and 1015 with their values, keep any leaf or branch shorter than the body |
| BTreeNode.BTreeNode.InsertPair | src/btree.cpp:156-165 | shifting the arrays in place puts the pair after its equals, inside five places |
| BTreeNode.BTreeNode.InsertChild | src/btree.cpp:183-192 | shifting keys and children in place inserts the new key at i and the new page at i + 1, inside five keys and six children |
| BTreeNode.BTreeNode.SplitOff | src/btree.cpp:202-244 | the two halves and the key pushed up are those of the value model, leaf and branch |
| BTreeNode.BTreeNode.Serialize | src/btree.cpp:11-28 | the text written is the node's encoding |
| BTreeNode.BTreeNode.Deserialize | src/btree.cpp:30-44 | reading fills exactly the decoded node's fields |
| BTree.BTree.Insert | src/btree.cpp:132-147 | on a pool of any size >= 1, with at most one pin at a time, insert never meets a full pool, keeps the invariant on the pages and leaves the value model's tree, which holds exactly one pair more; it asks that each node of that tree fits its page |
| BTree.BTree.InsertRec | src/btree.cpp:149-200 | the recursion on pages stores exactly the subtrees of the value model and touches no other page |
| BTree.BTree.SplitNode | src/btree.cpp:202-245 | two pages are written, the second one new, with the halves of the node |
| BTree.BTree.FindLeaf | src/btree.cpp:82-94 | height + 1 nodes are loaded, and the leaf is the one that descent finds |
| BTree.BTree.Search | src/btree.cpp:96-105 | the answer through the pool is the first pair that a scan of that one key gives, and right for the pairs in the tree |
| BTree.BTree.RangeScan | src/btree.cpp:109-128 | the walk over the leaf chain terminates and gives the scan; all pairs in range when keys are distinct |
| Rows.UndoInverts | include/txn_manager.h:72-95 | undoing a fitting insert or update at once restores the very row list |
| Rows.UndoRestoresIff | include/txn_manager.h:72-95 | undoing a fitting write restores the list iff it is not a delete |
| Rows.Commute | include/txn_manager.h:72-95 | an undo step commutes with any row operation on other ids, order and place in the list included |
| Rows.UndoLacking | include/txn_manager.h:72-95 | undoing any fitting write in a table that lacks some rows gives the table before it, less those rows, followed through a change of id, and less the row that the write deleted |
| Dml.SerialRollback | include/txn_manager.h:72-95 | after any INSERTs, UPDATEs and DELETEs that keep ids present and unique after every row write, replaying the log backwards gives every table list back less the rows it started with that were deleted; so it restores all iff there was none |
| Dml.SerialRestores | include/txn_manager.h:72-95 | INSERTs and UPDATEs alone, multi-row and id-changing ones included, are always taken back |
| Dml.StatementsAreRun | src/executor.cpp:189-268 | what those statements log, applied write by write, is exactly what they did to the tables |
| Dml.AssignedColumn | src/executor.cpp:223-224 | an UPDATE gives a column what its last assignment says: a literal's text, whatever its kind; the value that another column has in the row by then, or the empty text if it has none; the empty text for anything else; and leaves the other columns alone |
| Dml.InsertedColumn | src/executor.cpp:84-92 | an INSERT gives a row exactly the listed columns, each with the text of the literal at its last place, whatever the literal's kind, and the empty text for what is no literal |
| Dml.DeletePartition | src/executor.cpp:243-268 | a DELETE splits the rows into kept ones that do not match and logged ones that do |
| Dml.StatementRows | src/executor.cpp:189-268 | the rows after a statement: INSERT puts one at the end; UPDATE changes the matching rows where they stand, all of them without WHERE; DELETE keeps those that do not match, none without WHERE |
| Dml.LoggedSides | src/executor.cpp:189-268 | every write logged is on the statement's table and of its kind, with no row before an insert and none after a delete |
| DmlExecutor.Executor.ExecuteInsert | src/executor.cpp:189-210 | missing table: error and no change; otherwise the literal row at the end and one log entry if the transaction runs; with fewer values than columns, the read past the end is met before anything changes |
| DmlExecutor.Executor.ExecuteUpdate | src/executor.cpp:212-241 | rows changed in place by assignments that see earlier ones; each logged with the id it has afterwards |
| DmlExecutor.Executor.ExecuteDelete | src/executor.cpp:243-268 | matching rows removed in order, each logged |
| Locks.ExclusiveExcludes | src/lock_manager.cpp:6-33 | over every run from the empty table, an exclusive entry excludes every other holder |
| Locks.GrantedIff | src/lock_manager.cpp:6-22 | after any run a request is granted iff no other holder clashes; a grant takes nothing from anyone |
| Locks.ReleaseMembers | src/lock_manager.cpp:24-33 | after a release an entry is there iff it was and belongs to another transaction |
| LockManagers.LockManager.AcquireLock | src/lock_manager.cpp:6-22 | the loop decides exactly that, and the resource gets an entry list even when the answer is no |
| LockManagers.LockManager.ReleaseAll | src/lock_manager.cpp:24-33 | exactly the transaction's entries go, everywhere |
| LockManagers.LockManager.IsLocked | src/lock_manager.cpp:35-39 | true iff some transaction holds the resource |
| Isolation.RollbackRestores | include/txn_manager.h:67-126 | in any interleaving of row writes under exclusive locks kept to the end, with other rollbacks and commits among them and deletes by anyone, rolling t back gives the table lists of the same interleaving without t's writes, less the rows of those that t had deleted; so exactly those lists iff there was none; and the run without t is a legal run |
| Isolation.RollbackRestoresAll | include/txn_manager.h:67-126 | so a transaction of inserts and updates is always taken back, whatever the others delete |
| Isolation.StaysUnique | include/txn_manager.h:67-126 | in such a run every table keeps its ids present and unique at every point, after lossy rollbacks too |
| Isolation.LogCovered | src/lock_manager.cpp:6-33 | a running transaction still holds the exclusive lock on every id it has written |
| Unlocked.UnlockedRollbackIff | include/txn_manager.h:85-94 | for any interleaving of fitting updates without locks, rolling x back leaves what the others alone would iff on every id that x wrote no other transaction wrote after x's first write, or the last such write put back the row that x had found |
| Unlocked.UnlockedWriteIsLost | include/txn_manager.h:85-94 | so of two writes to one row the second is lost with the first one's rollback, unless it restored the first row |
| TransactionManagers.TransactionManager.Begin | include/txn_manager.h:17-29 | a fresh running transaction under the next id and one Begin record |
| TransactionManagers.TransactionManager.Commit | include/txn_manager.h:31-65 | one record for each write in order and a Commit record appended, status and locks changed; unknown or finished transactions change nothing |
| TransactionManagers.TransactionManager.Rollback | include/txn_manager.h:67-126 | the tables are the log undone backwards, then the records, the status and the locks as for commit |
| TransactionManagers.CommitIsFaithful | include/txn_manager.h:36-61 | what commit appends reads back as the write log when its rows hold no delimiters |
| TransactionManagers.RollbackIsFaithful | include/txn_manager.h:97-122 | so does what rollback appends |
| WalCodec.CutReadsWhole | src/wal.cpp:62-100 | a log cut at any byte reads back as exactly its whole records |
| WalCodec.RecordRoundTrip | src/wal.cpp:62-100 | a record whose numbers fit and whose texts are shorter than 4 GiB reads back as itself and leaves the rest |
| WalCodec.RecordBytes | src/wal.cpp:62-78 | the bytes of a record: the numbers in their order and widths, each text after its length, and the kind's code |
| LittleEndian.LeDigit | src/wal.cpp:62-78 | byte i of a number is its digit i in base 256 |
| RowText.RowRoundTripIff | src/wal.cpp:29-60 | a row written in any column order reads back as itself iff it has no delimiter where it would be misread |
| Wal.ReopenContinues | src/wal.cpp:18-20 | reopening a log goes on numbering after its last record |
| Wal.WAL.Append | src/wal.cpp:106-114 | the record, stamped with the next number, goes to the end |
| Wal.WAL.ReadRecords | src/wal.cpp:120-130 | reading from the start gives the whole records |
| Wal.WAL.Recover | src/wal.cpp:132-196 | the three loops do the redo steps forwards and the undo steps backwards, for every storage |
| Wal.WAL.SerializeRow | src/wal.cpp:29-34 | the text lists each column once, in the map's order |
| Wal.WAL.DeserializeRow | src/wal.cpp:36-60 | the cursor loop reads what the grammar of the text says |
| Recovery.PlayIsCell | src/wal.cpp:141-195 | redo and undo act on each (table, id) on its own, whatever the order of rows |
| Recovery.Restartable | src/wal.cpp:132-196 | stopping after any number of redo and undo rounds and starting over gives the same ids and rows as one full run |
| Recovery.Idempotent | src/wal.cpp:132-196 | recovering twice is recovering once |
| Recovery.LoopsFill | src/wal.cpp:156-195 | a redo or undo looks for the first row with the id, replaces it where it stands, and appends only when redoing and there is none; every row it passes that has no id is left with an empty one |
| Recovery.RecoveredCell | src/wal.cpp:132-196 | for every log and every storage, under each id: the row the committed transactions leave; if others wrote it, nothing when one of them inserted it or there is no row, and else what the first of them had found |
| Recovery.RecoverIsRedoIff | src/wal.cpp:132-196 | recovery leaves exactly what the committed transactions leave iff on every id with a row the others inserted nothing and the first of them had found that very row |
| CrashAtomicity.CutCell | src/wal.cpp:132-196 | cut the encoded log of any begins, commits and rollbacks at any byte, decode and recover into empty storage: under each id what redoing the writes of every transaction id with a whole Commit record gives, the torn call's and rolled-back ones included, less what undoing the others takes |
| CrashAtomicity.CrashRecoversIff | src/wal.cpp:132-196 | if no rolled-back or torn transaction shares its id with a whole Commit record, that is exactly the replay of the whole commits iff those undone writes are harmless on every id |
| CrashAtomicity.CrashRecoversEverywhere | src/wal.cpp:132-196 | with ids so kept apart it is right at every cut iff at every call of the log the rollbacks before it, with the call's own writes, are harmless |
| CrashAtomicity.OnceSeparate | include/txn_manager.h:17-29 | ids that each end once, as within one transaction manager, are kept apart at every cut |
| CrashAtomicity.CrashAtomicIff | src/wal.cpp:132-196 | with commits alone, under any ids: right at a cut iff the cut commit had not logged an insert of an id whose row was there or, if its id is that of an earlier commit, what it had logged changes nothing |
| CrashAtomicity.CrashAtomicEverywhere | src/wal.cpp:132-196 | with commits alone, under any ids: right at every cut iff no transaction deletes a row and inserts its id again, and each whose id is that of an earlier commit only updates rows to what they were |
| CrashAtomicity.TornUnderUsedId | src/wal.cpp:135-139 | a committed insert, and after a restart a torn commit of an update under the same transaction id: recovery redoes the update, right only if it changes nothing |
| CrashAtomicity.AbortUnderUsedId | src/wal.cpp:135-139 | the same with a rolled-back update, which recovery brings back |
| CrashAtomicity.AbortedUndoWins | src/wal.cpp:176-195 | an update rolled back, under an id of its own, between two commits of one row id: the last commit survives recovery iff it wrote the row that was there before |
| Durability.WriteAgreesIff | src/wal.cpp:158-165 | one write that fits the tables does the same to them and to what the log stands for iff it leaves its row under the id it had |
| Durability.SessionIsHistory | include/txn_manager.h:17-126 | statements run one transaction after another, committed or rolled back, none of these having deleted a row it found: their log is a history with ids that end once, and the tables in memory hold exactly its replay |
| Durability.SessionAgreesIff | include/txn_manager.h:67-126 | for all such sessions, any deletes included: the tables hold what the commits stand for after every transaction iff no transaction that was rolled back had deleted a row of those it found |
| Durability.SessionRecovers | src/wal.cpp:132-196 | cut that log at any byte: recovery gives the ids and rows that the tables had after the last transaction whose end is whole, iff what is left to undo is harmless |
| Durability.InMemory | include/txn_manager.h:31-126 | at any point of an interleaving under row locks in which rollbacks lost no row, the tables show, under each id, the replay of the commits in their order and on top of it the writes of the one running transaction that wrote the id |
| Durability.InMemoryIff | include/txn_manager.h:67-126 | they show that at every point of an interleaving, deletes by anyone included, iff no transaction that was rolled back had deleted a row of those it found |
| Durability.OpenLegal | include/txn_manager.h:31-65 | what a running transaction of such an interleaving has written is legal after the commits so far, whatever the others do |
| Durability.RunRecovers | src/wal.cpp:132-196 | cut the log of such an interleaving, committed deletes included, at any byte: recovery gives the ids and rows that the tables had when those calls were done and nothing was running, iff what is left to undo is harmless |
| Expressions.ComparisonsAgree | src/executor.cpp:36-57 | the six comparisons agree with one another on any two values, mixed ones and NaN included |
| Expressions.TrichotomyIff | src/executor.cpp:36-57 | one of <, =, > holds unless both sides are numbers and one is NaN |
| Conditions.ComparisonHolds | src/executor.cpp:36-82 | a condition that compares holds of a row iff its left value stands to its right one as the operator says: as numbers if both are, and as texts if not; a value is a column's, the empty text if the row lacks it, or a literal's |
| Conditions.KeptComparison | include/filter.h:17-27 | so of the rows of a table it keeps exactly those, in order and as often as they are there |
| Conditions.BareConditions | src/executor.cpp:59-82 | a bare literal as a condition keeps all rows if its text is `true` or `1`, and none otherwise; a bare column keeps all |
| Conditions.KeptLaws | src/executor.cpp:59-82 | De Morgan, absorption and commutativity hold of the lists of rows that conditions keep |
| Conditions.KeptSplits | include/filter.h:17-27 | AND filters twice, and a condition and its NOT share out the rows of a table |
| Conditions.LowerCaseFindsNothing | src/executor.cpp:59-82 | a SELECT whose condition is joined by "and" or "or" in other than capitals is read from its text, and its answer is empty for every table |
| Conditions.LowerCaseNotKeepsAll | src/executor.cpp:59-82 | with "not" in other than capitals every row is kept |
| SortOrder.FilterAgreesWithSort | include/sort.h:53-65 | WHERE and ORDER BY agree on what is smaller, and exactly NaN ties without being equal |
| SortOrder.BeforeIff | include/sort.h:37-51 | a row goes before another iff there is a clause on which they differ in its direction while they tie on every earlier one |
| SortOrder.SignMeans | include/sort.h:53-65 | the comparison of two keys goes by their numbers if both are numerals, NaN tying with everything, and by their texts otherwise |
| KeyOrder.LessIff | include/sort.h:53-65 | texts are compared by the first character in which they differ, or the shorter one first |
| SortOrder.KeysStrictWeakIff | include/sort.h:53-65 | the comparator is a strict weak order on a column iff NaN meets only equal numbers and numerals are in numeric order across every text between them |
| SortOrder.MixedColumnFails | include/sort.h:53-65 | a column that holds +7, a comma and 2 meets neither condition: the comparator is no strict weak order on it |
| SortOrder.RowsStrictWeak | include/sort.h:37-51 | comparable columns make the multi-clause comparator a strict weak order on the rows |
| SortOrder.OneClauseIff | include/sort.h:37-51 | for one clause, ascending or descending, the condition is also necessary |
| Queries.SortAfterProject | src/optimizer.cpp:30-38 | sorting projected rows answers filter, sort, project, limit when the projection keeps comparable ORDER BY columns |
| Queries.ProjectionKeepsOrder | include/sort.h:37-51 | such a projection keeps the comparator's verdict on any two rows |
| Queries.InDirection | include/sort.h:15-22 | in sorted rows two that tie on the first clauses stand in the direction of the next |
| Queries.ProjectedColumn | include/projection.h:18-28 | without * a projected row has a column iff it is listed and the row has it, with the row's value; with * alone it is the row |
| Queries.KeptCount | include/filter.h:17-27 | a filter keeps each matching row as often as it is there, and no other |
| Queries.LimitedFirst | include/limit.h:16-22 | a limit gives the first n rows, or all if there are fewer |
| HashJoins.HashJoinIsNestedLoop | src/hash_join.cpp:12-58 | build and probe give the nested-loop join as a list: probe order outside, build order inside, rows without a key dropped, probe columns winning |
| Queries.JoinedIff | src/hash_join.cpp:12-58 | a row is in that join iff some build row and some probe row have the same value under their keys and it has the columns of both, the probe row's value where both have one |
| Queries.MatchesExactly | src/hash_join.cpp:32-58 | each such pair gives one row, in build order for one probe row; Queries.JoinExactly says so of the probe rows |
| Plans.JoinDelivers | src/optimizer.cpp:80-131 | a join plan delivers exactly such rows of its two inputs, left ones probing |
| Plans.LoweringKeepsMeaning | src/optimizer.cpp:80-131 | choosing physical operators keeps the rows of every plan, joins included |
| Plans.SelectIsPipeline | src/optimizer.cpp:19-48 | both lowerings of any SELECT give limit(sort(project(filter(rows)))), or an error for a missing table |
| Plans.SelectAnswers | src/optimizer.cpp:19-48 | with comparable ORDER BY columns that the projection keeps, the result is a right answer in SQL's order |
| Plans.UniformAnswers | src/optimizer.cpp:19-48 | so it is when each kept ORDER BY column holds only numbers without NaN, or only texts that are no numbers |
| DroppedColumns.DroppedColumnIff | src/optimizer.cpp:30-38 | when the projection drops the one comparable ORDER BY column, every order the sort may deliver is a right answer iff all filtered rows tie on that column or all have the same projection |
| DroppedColumns.DroppedColumnFails | src/optimizer.cpp:30-38 | two rows for which it is not |
| Operators.Pull | include/operator.h:12-24 | every operator's next hands out the first of the rows still to come and leaves the others; a chain's scan stops just past the row that got through |
| Operators.Start | include/operator.h:12-24 | after open the rows to come are those of a full run, for a fresh or used tree |
| Operators.Filter.Next | include/filter.h:17-27 | the skip loop delivers the next matching row and reads no further |
| Operators.Limit.Next | include/limit.h:16-22 | once the count is reached the child is not asked again |
| Operators.HashJoin.Next | src/hash_join.cpp:32-58 | pending matches first, then the next probe row with any |
| Operators.HashJoin.Open | src/hash_join.cpp:12-25 | the build phase groups rows by key in order and forgets earlier matches |
| Operators.Sort.Open | include/sort.h:15-22 | the child is drained and its rows sorted |
| Operators.PastNthIs | include/limit.h:16-22 | the n-th row that gets through is the last table row read |
| QueryExecutor.Executor.Execute | src/executor.cpp:172-185 | build, open and drain give exactly the plan's rows |
| QueryExecutor.Executor.Build | src/executor.cpp:111-168 | the operator tree has the plan's shape, shares no state, and is missing iff a table is |
| QueryExecutor.Executor.RunSelect | src/executor.cpp:172-185 | from statement to rows: limit(sort(project(filter(rows)))) |
| QueryExecutor.LimitReads | include/limit.h:16-22 | without ORDER BY: LIMIT 0 reads nothing, a filled limit stops just past the n-th match, an unfilled one reads the table |
| Parsers.Parser.Parse | src/parser.cpp:50-54 | the cursor class does what the grammar functions say and never passes the last token |
| Parsers.Parser.ParseExpression | src/parser.cpp:253-269 | the AND/OR loop builds left-associated trees |
| Parsers.Parser.ParseComparison | src/parser.cpp:271-287 | the same on the comparison rung |
| Parsers.Parser.ParsePrimary | src/parser.cpp:302-355 | literals, columns and parentheses |
| Parsers.Parser.ParseConstraints | src/parser.cpp:181-192 | the loop over PRIMARY KEY and NOT NULL |
| Grammar.ExprReads | src/parser.cpp:253-356 | on every rung of the ladder, any token string that the expression grammar derives is read as its tree, with all the parentheses one may write, and exactly its tokens are taken |
| Grammar.ExpressionDerived | src/parser.cpp:253-356 | whatever is read as an expression is derived by the grammar from the tokens taken |
| Grammar.ExpressionIff | src/parser.cpp:253-356 | so the first n tokens are read as e iff the grammar derives e from them and what follows does not go on with it |
| StatementGrammar.OrderItemReads | src/parser.cpp:226-230 | a name alone or with ASC is read as ascending, with DESC or DESC ASC as descending, and exactly those tokens are taken |
| StatementGrammar.StatementReads | src/parser.cpp:58-239 | every way to write a statement that the grammar has (ASC or not, constraints in any order, any parentheses) is read as that statement, and exactly its tokens are taken |
| StatementGrammar.StatementDerived | src/parser.cpp:58-239 | whatever is read as a statement is derived by the grammar from the tokens taken |
| StatementGrammar.StatementIff | src/parser.cpp:58-239 | so up to a semicolon or the end the parser reads exactly what the grammar derives |
| StatementGrammar.OneMeaning | src/parser.cpp:58-239 | the grammar derives no two statements from the same tokens |
| StatementGrammar.SemicolonTaken | src/parser.cpp:50-54 | a closing semicolon is taken if it is there, and nothing after it |
| Printing.PrintReadsBack | src/parser.cpp:253-356 | in particular an expression printed on any rung with only the parentheses needed reads back as the same tree |
| NormalForms.TokensHeard | src/lexer.cpp:134-205 | every token the lexer makes, of any source text, carries a text that its kind can have |
| NormalForms.ParsedPrintsBack | src/parser.cpp:253-356 | any expression parsed from a source text can be printed, and its printed tokens parse to the same tree |
| NormalForms.SourceReadsBack | src/parser.cpp:50-356 | whatever statement a source text is read as, that statement printed, rendered, lexed and parsed is the same |
| NormalForms.HasTextIff | src/parser.cpp:50-356 | the statements that some source text is read as are exactly those of non-keyword names, numerals, strings and operator words, with no list empty and an int for a limit |
| PrintStatements.StatementReadsBack | src/parser.cpp:50-212 | in particular every statement that has a text reads back from its tokens printed with nothing optional |
| PrintStatements.StoiFormat | src/parser.cpp:235-239 | a limit's digits read back as the limit up to INT_MAX and are an error beyond |
| PrintStatements.StoiPrefix | src/parser.cpp:235-239 | only the leading digits of a limit count, and it is an error when they exceed INT_MAX |
| Spelling.LongestMatch | src/lexer.cpp:134-205 | what the lexer reads next is the longest text there that spells a token (a keyword in any case, a name, a numeral, a symbol, a quoted string whose escapes stand for what they should), with its kind and value |
| Spelling.NoMatch | src/lexer.cpp:198-202 | and it is an error exactly where no token is spelled |
| Spelling.OneReading | src/lexer.cpp:134-205 | no text spells two tokens |
| Spelling.BodyReads | src/lexer.cpp:65-80 | inside quotes a backslash with n is a line break, with t a tab, and with any other character that one; the quote itself ends the string |
| Lexing.ScanReadsBack | src/lexer.cpp:134-205 | a token's text followed by a space scans as that token, escaped strings included |
| Lexing.RenderLexes | src/lexer.cpp:134-205 | a rendering of any list of valid tokens lexes to the same kinds and values |
| Lexers.Lexer.Advance | src/lexer.cpp:37-42 | line and column stay those of the text before the cursor |
| Lexers.Lexer.ReadString | src/lexer.cpp:60-90 | the loop unescapes up to the closing quote; an unterminated string, a trailing backslash included, is an error |
| Lexers.Lexer.ReadNumber | src/lexer.cpp:92-109 | digits, and a point only with a digit after it |
| Lexers.Lexer.Tokenize | src/lexer.cpp:134-205 | the loop gives the specified tokens with their places, the end-of-file token last |
| Lexers.TokensPlaced | src/lexer.cpp:37-42 | every token's line and column are those of the source before it, and the text there scans as the token |
| Lexers.PlaceIs | include/lexer.h:18-20 | lines and columns count from 1, and a line break starts the next line at column 1 |
| TextGrammar.LexesIff | src/lexer.cpp:134-205 | the lexer reads a text as a list of tokens iff the text is those tokens, each the longest that is spelled where it starts, with blanks and comments between |
| Lexers.CommentSkipped | src/lexer.cpp:54-57 | a comment up to the end of its line changes no token |
| Texts.TextReadsBack | src/lexer.cpp:134-205 | printing, rendering, lexing and parsing a statement gives it back |
| Texts.SaidIsRead | src/parser.cpp:50-54 | a text that is spelled as tokens which begin with a way to write a statement, and then a semicolon or the end, is read as that statement |
| Texts.ReadIsSaid | src/parser.cpp:50-54 | whatever a text is read as, it is spelled so |
| Texts.ReadStatement | src/parser.cpp:50-54 | lexer and parser objects run one after the other do exactly that |
| Texts.StreamEnds | src/lexer.cpp:134-205 | the lexer's output ends with its only end-of-file token, which is what the parser relies on |
| Spoken.SpokenReadsBack | src/lexer.cpp:111-132 | it holds for every statement built of names that are no keywords, numerals, any strings, and operator words in any case |
| HeapPages.RunKeepsHeap | src/table_heap.cpp:68-181 | any run of fitting operations keeps live rows disjoint, inside the page and above the slot directory, and a row keeps its slot until that slot is deleted or updated |
| HeapPages.OutcomeCases | src/table_heap.cpp:84-92 | the free-space test in 64-bit and the offset in 16-bit arithmetic: an insert writes past the page iff the row's 16-bit length exceeds the data start, and is stored iff it fits above the directory |
| HeapPages.InsertRows | src/table_heap.cpp:68-103 | no insert changes another row, and a stored row reads back as itself iff it has no delimiters |
| HeapPages.DeleteRows | src/table_heap.cpp:156-181 | a delete empties one slot and changes no other row |
| HeapPages.UpdateRows | src/table_heap.cpp:124-154 | an update empties the slot and stores the new row in the next one iff there is room: otherwise the row is lost, and the answer is still true |
| HeapPages.LiveIff | src/table_heap.cpp:124-181 | the slots that can be deleted or updated are those with a row; on any other slot a delete or update changes nothing |
| TableHeaps.TableHeap.Create | src/table_heap.cpp:53-58 | a heap on a new page is well formed and has no rows |
| TableHeaps.TableHeap.InsertIntoPage | src/table_heap.cpp:68-103 | the bytes copied and the header count are those of the specification |
| TableHeaps.TableHeap.GetRow | src/table_heap.cpp:105-122 | the row in a live slot, nothing for a dead or missing one |
| TableHeaps.TableHeap.DeleteRow | src/table_heap.cpp:156-181 | true iff the slot was live; its valid byte is cleared |
| TableHeaps.TableHeap.UpdateRow | src/table_heap.cpp:124-154 | true iff the slot was live, whatever came of the new row |

## Left out

- File streams, their flags and real flushing: the disk is a sequence of blocks and the log a sequence of bytes; appending after a torn tail is not modelled.
- The prevLsn chain and the checksum and freeSpace fields of the page header: nothing reads them.
- MVCC visibility: one boolean expression, and every row is wrapped as created by transaction 1.
- `TableHeap::scan`, which ends only by a thrown read, and the fetch and unpin around each heap operation: the heap's operations are modelled on its one page.
- Bytes copied past the end of a heap page: an insert that would do so has the outcome `OutOfPage` and no resulting page.
- The demo in `main`, printing helpers, error-message texts, the plan stubs for INSERT, DELETE and UPDATE, and the execution of CREATE TABLE.
- The mutex: each lock call is one atomic step.
- Integer widths of transaction ids, line and column numbers, and the pin count.
- List iterators are handles, std::map is its sequence of pairs, shared_ptr trees are values, and a scan holds the rows its table had when the operator was built.
- Loops that the source writes in one function are sometimes a method of their own here (draining a child, grouping build rows, the write-up of a log).
- BTree.BTree.Insert: asks that each node of the tree it leaves has keys and values that are non-empty and free of whitespace and NUL and a text shorter than a page body, and that page ids stay below INVALID_PAGE_ID; the source checks none of it, and a node that does not fit is lost (NodeCodec.SaveThenLoadIff, NodeCodec.CutIsLost).
- BTreeNode.BTreeNode.Deserialize: page texts that the source would leave half read have no decoded node; signs in front of numbers are not read.
- DmlExecutor.Executor.ExecuteInsert: with fewer values than columns it stops with the outcome `PastTheEnd`, where what C++ does is undefined.
- Durability.RunRecovers: writes that keep the id of their row, since an id-changing update is replayed under its new id while the old row stays (`src/wal.cpp:158-165`, Durability.WriteAgreesIff), and rollbacks that lose no row, without which the tables differ already in memory (Durability.InMemoryIff). One transaction manager: a run goes on over one log without a restart.
- CrashAtomicity.CutCell: recovery starts from empty storage, as the program does; Recovery.RecoveredCell is for any storage.
- TransactionManagers.TransactionManager.Begin: the uninitialised lsn and prevLsn of a new record start as 0; append overwrites the first and nothing reads the second.
