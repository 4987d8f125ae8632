# A verified model of the SQL database

A Dafny 4.11 model of a small SQL database in C: a B+ tree per table over 4096-byte pages, a write-back
page cache, a planner with pull-based cursors, a row codec, an SQL lexer and parser, and the in-memory
study B-tree that came before. `dafny verify dfyconfig.toml` checks everything.

## What is modelled

| file | what it holds |
|---|---|
| `Rows.dfy` | values, rows, schemas, WHERE conditions, SET lists, row sizes and leaf capacity |
| `Meaning.dfy` | what names, literals, conditions and column lists mean, without the functions that compute it |
| `Pages.dfy` | a page read as a leaf, an internal node or the catalog; the binary searches; the in-page edits |
| `Tree.dfy` | the tree invariant over a heap of pages, the descent, the table as a map from key to row |
| `Splits.dfy` | what a leaf split, an internal split and a root split do to a tree, and that they keep it |
| `Pager.dfy` | the page cache as an object: get, store, mark, flush, close, reopen |
| `Insert.dfy`, `LeafInsert.dfy` | INSERT: descent, duplicate check, leaf insert, and splits that ripple to the root |
| `Chain.dfy` | the next-leaf chain and the enumeration of a table in key order |
| `Bulk.dfy`, `Update.dfy` | DELETE and UPDATE: walks along the chain that edit leaves in place |
| `Scan.dfy` | what the table scan returns, empty leaves included |
| `Planner.dfy`, `Cursor.dfy` | plans and what they mean; the cursor objects that pull the rows |
| `Occupancy.dfy` | the counting argument for tree height and page consumption |
| `Database.dfy` | many tables over one catalog |
| `Semantics.dfy`, `Effects.dfy` | statements as functions on maps from key to row, and what each of them accepts, answers and does in terms of column names and literals |
| `Statements.dfy` | each statement against the pages |
| `Sessions.dfy` | the database as an object, whole sessions on it, and what any run of statements keeps |
| `Persistence.dfy` | closing a database and opening its file again |
| `Codec.dfy`, `PageBytes.dfy` | rows, leaves and internal nodes as bytes, and the edits made on those bytes |
| `Lexer.dfy`, `Spelling.dfy` | SQL text to tokens; which characters are which token |
| `Parser.dfy`, `Grammar.dfy` | tokens to syntax trees; the grammar the parser accepts |
| `ParserRoundTrip.dfy` | which texts are which statements, and printing as the way back |
| `StudyTree.dfy` | the study B-tree on a heap of node objects |

The tree lives in a page heap, a map from page number to page. A ghost `shape` gives every page of a tree
the half-open key interval it owns, its level, and the page that holds it; the invariant `WellFormed` is
local to each page: separators sorted and inside the interval, kid i owning exactly the interval between
separators i-1 and i one level down, leaf cells sorted and inside, every next-leaf link leading to the leaf
whose interval starts where this one ends, non-root internal nodes never below 170 separators.
`Parented` (each parent field names the holder) is a separate predicate, because it does not survive a
restart. `Overfull(t, q)` is the same invariant with page q allowed one separator too many: it is what
holds between the levels of a split ripple. The operations that change pages are methods on `Pager`; each is
tied to a function or a relation on trees, and the lemmas are about those. `Database` puts the
tables together: its state is a list of maps from key to row, `Apply` and `ChangeReply` say what a
statement means on that state and how it is answered, and `Execute` and `Run` are proved to do it.

A session (`Run`) ends early only when fewer than three page numbers a statement were left. Then all
statements before the last have done what they mean, and at most the table of the INSERT that broke off is
left half way. A SELECT is answered right if and only if its plan is a primary-key lookup or no
empty leaf shows a stale row that passes, so in a session every lookup is, and every SELECT before the first
DELETE. What a session preserves beside its tables: no empty later leaves (without DELETE), no text
that fills its buffer (without one in the statements), and parent fields that a restart would bring back
(up to 342 pages).

Two descriptions stand beside what the code computes, and use none of the functions that search, compare, project,
resolve, overwrite or parse. `Effects.dfy` says of every
statement when it is accepted and what it does, with nothing but the first column of a name, the number, flag or
text a reader finds in a value, and quantifiers over rows; `ApplyDoes` ties `Apply` to it, `SelectedIsRight` the
answers. `Spelling.dfy` and `Grammar.dfy` describe SQL text: blanks, keywords in any case, lists with commas
anywhere in SELECT, INSERT and UPDATE; `ParserExact` says that a text parses to a statement if and only if
it begins so and no next token continues it. What follows, a semicolon for one, does not matter.

## Where code and expectation part

Where the code does not do what one would expect, the exact condition under which it does is proved:

- A scan that leaves one leaf looks at slot 0 of the next without checking its count
  (`src/table.c:414-427`). `ScanExact` and `FilteredScanExact`: the scan is right if and only if no later
  leaf is empty (with a condition: no empty later leaf shows a matching stale row). `DeletedRowsReturn`:
  after DELETE has emptied a table with L non-empty leaves, `SELECT *` returns L - 1 deleted rows, against
  the promise at line 93 of the repository's README.
- The planner decides on a lookup by comparing with the primary key column's name only, the filter uses the
  first column of that name (`src/ast.c:325`, `src/table.c:275-289`). `LookupPlanIffUnshadowed`: the
  lookup plan is right for all tables of a schema if and only if no earlier column has the same name.
- UPDATE checks the length of a text only when it meets a matching row, but it does so before writing
  anything, so a statement that fails has changed nothing (`UpdateRows`). A primary key in SET changes
  the row but not the cell's key: `UpdateKeysAgree` says when the two still agree.
- A shorter text over a longer one keeps the old tail. `LastAssignmentWins`: the last text that SET assigns to
  a column reads back if and only if it is no shorter than the text that was there and than every text the same
  SET list has put there before. That is so in every database statements can lead to, because
  INSERT, UPDATE and DELETE all keep stored texts padded with NUL bytes (`ReachableTextsPadded`,
  `StatementTextReadsBack`).
- An internal split rewrites the parent fields of the children it moves without marking their pages dirty.
  `Reopen`: after a restart everything else is back, and the pages form a database again if and only if the
  file's copies of the clean pages name the right parents. `ParentsAfterStep`: a statement keeps that so if and only
  if it moves no clean page to another parent. DELETE, UPDATE and CREATE move none, nor does an
  INSERT whose leaf has room or hangs below a page with fewer than 340 separators, and below 343
  pages every INSERT is like that (`FewPagesSplitNoHolder`). When a full internal page does split, the clean
  children it moves are left behind: `SplitLeavesParentsBehind` and, for the first such split of
  a growing table, that of the root, `RootSplitLeavesParentsBehind`.
- `INSERT` checks for a duplicate key before it checks the length of texts, so of a statement with both
  faults the duplicate is reported (`InsertCommand`).

## Model

| member | source | states |
|---|---|---|
| Pages.LeafNodeFind | src/btree.c:69-88 | the binary search returns the first live cell whose key is not smaller, also when it stops early at an equal key |
| Pages.InternalNodeFind | src/btree.c:152-171 | the same for separators |
| Pages.DescendSlot | src/btree.c:178-181 | the linear scan from the right stops behind the last separator not larger than the key |
| Trees.SameLevelDisjoint | src/btree.c:173-192 | pages on one level own disjoint key intervals, whatever has been split or deleted |
| Trees.LeafForUnique | src/btree.c:173-192 | the descent ends at the only leaf whose interval holds the key |
| Trees.CellKeysUnique | src/table.c:60-66 | no two cells of a table share a key |
| Trees.ContentsAt | src/btree.c:173-192 | a key is in the table exactly when the leaf its descent reaches holds it |
| Rows.LeafCapacity | src/btree.c:48-54 | every schema of one to eight columns with an INTEGER key leaves room for 2 to 255 cells per leaf, so both halves of a split are non-empty |
| Meanings.MatchesMeans | src/table.c:269-291 | a row meets a condition if and only if the first column of its name shows the literal |
| Meanings.EqualsShown | src/table.c:264-288 | a comparison asks for the same number or flag, or for a text that is the buffer up to its first NUL |
| Meanings.StoredEquals | src/table.c:264-288 | a stored literal equals another in WHERE if and only if they are the same |
| Meanings.ConditionUnique | src/table.c:269-291 | conditions on one column that the same row meets ask for the same literal |
| Rows.FindColumn | src/btree.c:639-653 | the first column of that name in any case, or the number of columns |
| Rows.ApplySets | src/table.c:154-195 | a row keeps its type and length under any SET list |
| Splits.LeafSplitKeepsTree | src/btree.c:410-508 | a leaf split with its separator handed up keeps the tree, the holder possibly one key too large |
| Splits.InternalSplitKeepsTree | src/btree.c:309-360 | splitting an overfull internal page and handing its middle separator up keeps the tree, the holder possibly one key too large |
| Splits.RootSplitKeepsTree | src/btree.c:252-306 | splitting the overfull root into two new pages keeps the tree and the root's page number |
| Splits.LeafRootSplitKeepsTree | src/btree.c:438-474 | a full root leaf becomes an internal root over two leaves |
| Splits.InternalSplitParented | src/btree.c:343-357 | after an internal split every parent field names the holder, also where the split page itself is a moved child one level up |
| Splits.RootSplitParented | src/btree.c:286-297 | after a root split every parent field names the holder |
| Splits.InternalSplitSameLeaves | src/btree.c:309-360 | an internal split moves separators only: leaves, their cells, links and intervals stay |
| Splits.RootSplitSameLeaves | src/btree.c:252-306 | so does a root split |
| Pagers.Pager.Open | src/pager.c:16-52 | an opened pager shows the file, with nothing cached |
| Pagers.Pager.GetPage | src/pager.c:54-94 | a page past the last one becomes a zero page, an existing one comes from the cache or the file, and NULL comes back only past the limit |
| Pagers.Pager.Flush | src/pager.c:100-115 | a flush changes that page of the file and at most appends zero pages before it |
| Pagers.Pager.Close | src/pager.c:117-134 | closing writes every dirty page and no other |
| Pagers.CloseAndReopen | src/pager.c:16-134 | a reopened file shows every dirty page as last written and every clean page as the file had it |
| Inserts.LeafNodeForKey | src/btree.c:173-192 | the descent of the code is the descent of the tree |
| Inserts.InternalNodeInsert | src/btree.c:194-220 | with room, the pair goes in at the given index and exactly that page becomes dirty; a full page is reported and left alone |
| Inserts.SlotAgreement | src/btree.c:152-171 | a promoted separator is strictly inside the splitting child's interval, so the binary search for it finds the child's own slot |
| Inserts.ReparentKids | src/btree.c:289-296 | exactly the moved children get the new parent, and none becomes dirty |
| Inserts.SplitInternalNode | src/btree.c:223-379 | the ripple ends, takes one page per splitting level and two at the root, keeps tree, parents, leaves and cells, and fails exactly when the page numbers run out |
| Inserts.PromoteSeparator | src/btree.c:359-376 | handing a separator to a full holder splits it in turn, with the same guarantees |
| Inserts.SplitPagesBound | src/btree.c:256-320 | a ripple takes at most one page more than there are levels above it |
| LeafInserts.LeafNodeInsert | src/btree.c:91-111 | LEAF_FULL exactly when the leaf is at capacity, otherwise the cell goes in at its place |
| LeafInserts.InsertEntry | src/btree.c:402-408 | the shifting loop leaves the cells plus the new one, sorted |
| LeafInserts.LeafSplitCells | src/btree.c:410-450 | a leaf split holds exactly the old cells and the new one |
| LeafInserts.SplitRootLeaf | src/btree.c:438-474 | the root-leaf split stores one new cell and keeps tree, parents and links |
| LeafInserts.SplitLeafNode | src/btree.c:382-508 | any leaf split with its ripple stores exactly one new cell, keeps tree, parents, chain order and non-emptiness of later leaves, and allocates the pages counted beforehand |
| LeafInserts.BuildRow | src/table.c:68-92 | the loop over the literals fails exactly when some text is over 255 bytes; otherwise value i of the row shows literal i, number, flag or text |
| LeafInserts.InsertCommand | src/table.c:20-103 | for every table and every value list the outcome is exactly the specified one: bad values, duplicate, too long, no page left, or one new row; refusals change nothing, running out of page numbers changes only the table's own pages, and an INSERT whose leaf or whose leaf's holder has room moves no page to another parent |
| LeafInserts.InsertedContents | src/table.c:20-103 | a stored insert is the map with one new entry |
| LeafInserts.InsertPagesBound | src/btree.c:382-508 | one insert takes at most height + 1 pages |
| Chains.ChainVisitsLeavesInOrder | src/btree.c:439-492 | the chain from the leftmost leaf visits the tree's leaves from left to right, each once, and ends at page 0 |
| Chains.InOrderEnumerates | src/table.c:392-431 | along the chain every cell occurs once, in strictly increasing key order |
| Bulk.DeleteCells | src/table.c:226-243 | the inner loop leaves the non-matching cells of a leaf, in order |
| Bulk.DeleteRefinesFilter | src/table.c:209-255 | DELETE keeps the tree and its chain and leaves exactly the non-matching cells in their order, over empty leaves too |
| Bulk.DeleteContents | src/table.c:209-255 | as a map: exactly the matching rows are gone |
| Bulk.DeleteRows | src/table.c:209-255 | the walk along the chain does that to the page heap and nothing to other pages |
| Updates.UnassignedStays | src/table.c:154-195 | a column that SET does not name keeps its value |
| Updates.LastAssignmentWins | src/table.c:154-195 | the last assignment to an INTEGER or BOOLEAN column decides, and the last text assigned to a padded TEXT column reads back if and only if no longer text, old or assigned before it, lies under it |
| Updates.TextOverwriteExact | src/table.c:174-188 | a text assignment reads back as assigned if and only if it is not shorter than the old text |
| Updates.UpdateTextReadsBack | src/table.c:105-206 | the same for every row of the table an UPDATE leaves behind; rows that do not match are as they were |
| Meanings.FreshTextReadsBack | src/table.c:44-52 | a text stored by INSERT reads back as written |
| Updates.UpdateRow | src/table.c:154-195 | the loop over SET fails exactly when some text is too long, and otherwise assigns from left to right |
| Updates.UpdateRows | src/table.c:105-206 | UPDATE fails if and only if a text is too long and some row matches, and then no page has changed |
| Updates.UpdateRefinesMap | src/table.c:105-206 | UPDATE keeps tree and keys and rewrites exactly the matching rows |
| Updates.UpdateKeysAgree | src/table.c:160-195 | rows still carry their cell's key after UPDATE if and only if every matching row is given back its own key |
| Scans.ScanByLeaves | src/table.c:392-431 | what the scan returns, leaf by leaf: live rows, or for an empty later leaf whatever slot 0 holds |
| Scans.ScanExact | src/table.c:410-430 | the scan returns exactly the stored rows if and only if no leaf after the first is empty |
| Scans.FilteredScanExact | src/table.c:470-479 | a filtered scan is exact if and only if no empty later leaf shows a stale row that matches |
| Scans.DeletedRowsReturn | src/table.c:414-427 | after deleting everything, a full scan returns the last row of each later leaf |
| Planner.LookupIsFilter | src/ast.c:324-332 | looking a key up returns what filtering all rows on the key column returns |
| Planner.PlannerExact | src/ast.c:300-365 | the plan's rows are those the SELECT means if and only if the scan it contains shows no stale row that passes |
| Planner.PlannerPreservesMeaning | src/ast.c:300-365 | with no empty later leaf, every SELECT's plan returns project(filter(all rows in key order)) |
| Planner.LookupPlanIffUnshadowed | src/btree.c:558-567 | a key condition's plan is right on every table of the schema if and only if no earlier column has the key's name |
| Cursors.BuildCursor | src/ast.c:387-421 | the cursor built for a plan still has all the plan's rows ahead of it |
| Cursors.TableScanNext | src/table.c:392-431 | one call returns the next row of the scan and moves past it, or ends it |
| Cursors.PkLookupNext | src/table.c:433-453 | the first call returns the row of the key if there is one, every later call nothing |
| Cursors.FilterNext | src/table.c:470-479 | one call returns the next row that passes, having skipped exactly those that do not |
| Cursors.ProjectionNext | src/table.c:481-504 | one call returns the projection of the child's next row |
| Cursors.ProjectOne | src/table.c:492-500 | the loops give, for every requested name, the value of the first column of that name |
| Planner.ProjectRowMeans | src/table.c:492-500 | the projected row has one value for every requested name, that of the first column of the name, and is the only such row |
| Cursors.Drain | src/command.c:190-212 | draining a cursor yields exactly the rows its plan promises |
| Cursors.RunSelect | src/command.c:180-218 | planning, building and draining returns the plan's rows |
| Occupancy.LeavesCount | src/btree.c:326-360 | a non-root page of level n has at least 171^n leaves below it |
| Occupancy.HeightBound | include/pager.h:10 | no tree under 20000 pages has more than three levels |
| Occupancy.HolderHasRoom | src/btree.c:371-376 | when an internal page below the root splits, its holder has room: the recursive call is never taken |
| Occupancy.InsertNeedsAtMostThreePages | src/btree.c:382-508 | one insert takes at most three pages |
| Databases.OtherTablesStay | src/btree.c:256-265 | a step of one table leaves every other table's pages, cells and tree alone |
| Databases.TableStepKeepsDatabase | src/pager.c:10-14 | after a step of one table every page but the catalog still belongs to exactly one tree |
| Databases.CreateKeepsDatabase | src/table.c:293-334 | so does CREATE TABLE, which adds an empty tree on a new page |
| Effects.InsertMeans | src/table.c:20-103 | INSERT is accepted exactly for as many values as columns, of their types, no text over 255 bytes and a new key; then exactly one row joins, and it shows the values one by one |
| Effects.InsertedThenDeleted | src/table.c:264-288 | a row just inserted goes under DELETE .. WHERE column = lit if and only if the value given for the column was lit |
| Effects.DeleteMeans | src/table.c:209-255 | exactly the rows that meet the condition are gone |
| Effects.ResolveExact | src/table.c:127-147 | a SET list is resolved if and only if every name is that of some column, the first of which has the literal's type; each assignment goes to that column |
| Effects.UpdateMeans | src/table.c:105-206 | UPDATE is accepted exactly for such a list with no text over 255 bytes, or with no row to change; every row that meets the condition then shows, in each named column, the last literal given for it, a text if and only if no longer one lies under it |
| Effects.SelectedIsRight | src/command.c:176-214 | what is selected is one row for every stored row that meets the condition, by key, showing the requested columns, and nothing else is |
| Effects.AnswersUnique | src/command.c:176-214 | a SELECT has one right answer |
| Effects.ApplyDoes | src/command.c:108-224 | every statement, CREATE TABLE included, does what its names and literals say, and is accepted exactly when it can be done |
| Statements.ExecInsert | src/table.c:20-103 | INSERT on one table of many is refused exactly when the values or the key are wrong; a stored row shows its literals, no other row or table changes, and page numbers run out only with fewer than three left |
| Statements.ExecDelete | src/table.c:209-255 | DELETE with a condition that has a meaning leaves the stored rows that do not meet it, and every other table |
| Statements.ExecUpdate | src/table.c:105-206 | UPDATE is done exactly when the SET list can be resolved and fits or no row is to change; it sets the rows that meet the condition and changes nothing else |
| Statements.ExecCreate | src/table.c:293-334 | CREATE TABLE adds an empty table behind the others |
| Statements.ExecQuery | src/command.c:176-214 | SELECT changes nothing; it is refused exactly when it names a column that does not exist, and with keys and rows in agreement it returns the rows that meet the condition, in key order, with the columns asked for, if and only if the plan is a lookup or no empty leaf shows a stale row that passes |
| Statements.StepPreserves | src/btree.c:289-296 | a step of one table keeps what holds of the whole database: no empty later leaves, no unended texts, and parent fields current in the file |
| Databases.ParentsAfterStep | src/btree.c:289-296 | after a step of one table the file has every clean page's parent right if and only if the step has moved no clean page to another parent |
| Occupancy.FewPagesSplitNoHolder | src/btree.c:194-220 | with fewer than 343 page numbers in use no INSERT splits an internal page |
| Sessions.ApplyKeepsKeys | src/table.c:105-206 | no statement but an UPDATE of a primary key makes a row disagree with its key |
| Sessions.ApplyKeepsPadding | src/table.c:44-52 | every statement leaves every stored text followed by nothing but NUL bytes |
| Sessions.ReachableTextsPadded | src/table.c:44-52 | so they are after any run of statements on a new database |
| Sessions.SessionDoes | src/command.c:108-224 | in any run of statements on a new database, each does what its names and literals say and is accepted exactly when it can be done |
| Sessions.StatementTextReadsBack | src/table.c:174-188 | in any database with padded texts, the last text an UPDATE statement assigns to a column of a matching row reads back if and only if no longer text lies under it |
| Sessions.Database.Lookup | src/btree.c:569-581 | the catalog search finds the first table of that name |
| Sessions.Database.Execute | src/command.c:108-224 | every statement with a meaning does to the state what it means and is answered as it should, or a change that was due has run out of page numbers and left all but its own table whole; a SELECT is right exactly when its plan shows no stale row |
| Sessions.Database.Run | src/command.c:108-224 | a session does what its statements mean, in order; it breaks off only with fewer than three page numbers a statement left, the statements before having done their work; all changes are answered exactly, SELECTs by primary key always right, other SELECTs right up to the first DELETE |
| Persistence.ReadBackKeepsTree | src/pager.c:16-134 | a tree whose parent fields alone may have changed is the same table |
| Persistence.Reopen | src/btree.c:289-296 | a closed and reopened file has every table with every row, and is a database in order again if and only if the file's parent fields were right for the clean pages |
| Persistence.Restart | src/pager.c:16-134 | then the session goes on: same state, no new empty leaves, and parent fields that survive the next restart |
| Persistence.SplitLeavesParentsBehind | src/btree.c:349-355 | the file of a moved clean child names the wrong holder after an internal split |
| Persistence.RootSplitLeavesParentsBehind | src/btree.c:289-296 | after a root split the file of every clean child of the root does |
| Codec.KeyRoundTrip | src/btree.c:60-62 | an int64 survives its eight bytes |
| Codec.RowRoundTrip | src/table.c:338-389 | a row takes exactly the bytes of its schema and reads back unchanged |
| Codec.LittleEndianDigit | src/btree.c:60-62 | byte i of a number is its i-th digit to the base 256, lowest first |
| Codec.RowLayout | src/table.c:338-356 | column i lies behind those before it: a number in eight bytes, a text in all of its buffer, a flag as 1 or 0 |
| Codec.SerializeRow | src/table.c:338-356 | the loop writes the row's bytes column after column |
| Codec.DeserializeRow | src/table.c:358-389 | the loop reads the row those bytes stand for |
| PageBytes.LeafNodeInsertBytes | src/btree.c:91-111 | memmove, key, row and count on the 4096 bytes are the leaf insert of the page they show, all other bytes included |
| PageBytes.LeafNodeDeleteBytes | src/table.c:232-238 | memmove and count are the removal of the cell, the last cell's bytes staying behind |
| PageBytes.InternalNodeInsertBytes | src/btree.c:194-220 | on the bytes too, the new child goes to the next cell or, past the last key, to the right-child slot |
| PageBytes.LeafFields | include/btree.h:11-16 | every header field of a leaf reads back from its offset |
| PageBytes.InternalFields | include/btree.h:23-31 | every header field of an internal page reads back, the right child being the last kid |
| PageBytes.LeafCellReads | src/btree.c:56-66 | key and row of any slot read back from the offset the accessors compute |
| PageBytes.InternalCellReads | src/btree.c:140-150 | separator and child of any cell read back |
| PageBytes.TreePageFits | include/btree.h:11-31 | every page of every well-formed tree has such an image |
| Lexer.Tokenizer.GetNextToken | src/lexer.c:105-266 | the loops return the token at the cursor and move behind it |
| Lexer.LexerProgress | src/lexer.c:187-260 | the lexer stays in place exactly at the end of the text and on a character no token starts with, where it returns the number 0 |
| Spellings.PrintedTokenLexes | src/lexer.c:105-266 | a printed token lexes back to itself |
| Lexer.LexedTokensPrintable | src/lexer.c:105-266 | every token returned, except the end and an unterminated string, is one that some text spells |
| Spellings.LexerExact | src/lexer.c:105-266 | the lexer returns a token and ends behind it if and only if the text has it there: behind blanks, keywords in any case, words up to the first other character, quotes closed |
| Spellings.KeywordExact | src/lexer.c:196-252 | a word is a keyword exactly when it is its letters in any mix of cases |
| Parsers.Parser.ParseSelectStatement | src/parser.c:103-171 | the loop ends on every text and returns what the parse function gives, which `GrammarExact` ties to the grammar |
| Parsers.Parser.ParseInsertStatement | src/parser.c:306-380 | the same for INSERT |
| Parsers.Parser.ParseCreateStatement | src/parser.c:391-510 | the same for CREATE TABLE |
| Parsers.Parser.ParseUpdateStatement | src/parser.c:178-262 | the same for UPDATE |
| Parsers.Parser.ParseDeleteStatement | src/parser.c:268-304 | the same for DELETE |
| Parsers.Parser.CheckKeys | src/parser.c:487-507 | the count of primary keys accepts exactly one INTEGER key |
| Parsers.Columns | src/parser.c:121-139 | the column loop ends although the lexer may stand still, and returns at most eight names |
| Parsers.Parse | src/command.c:108-134 | a line of text parses, in finitely many steps, to the statement its first token and grammar give |
| Grammars.GrammarExact | src/parser.c:78-510 | a stream of tokens parses to a statement, and ends behind it, if and only if they are the statement's tokens and the next does not continue it: no WHERE where one could stand, no `=` behind a lone expression |
| Grammars.SingleKeyCounted | src/parser.c:487-507 | the count accepts exactly the column lists with one primary key, which is an INTEGER |
| ParserRoundTrips.ParserExact | src/parser.c:78-510 | a text parses to a statement if and only if it begins with that statement's tokens, in any spelling and spacing, and the next token does not continue it |
| ParserRoundTrips.ParseFollowed | src/parser.c:160-170 | the canonical text of every expressible statement parses to it whatever follows, unless that continues it |
| ParserRoundTrips.ParseSemicolon | src/parser.c:294-303 | so it does before a semicolon, behind any blanks, and anything after it |
| ParserRoundTrips.ParseAfterPrint | src/parser.c:78-510 | the canonical text of every expressible statement parses to that statement |
| ParserRoundTrips.ParsedStatementOK | src/parser.c:78-510 | whatever parses is expressible: names, numbers in range, at most eight items, one INTEGER primary key |
| ParserRoundTrips.ParserImage | src/parser.c:78-510 | some text parses to a statement if and only if it is expressible, and printing what was parsed parses to the same |
| StudyTrees.NodeInsertAt | tests/Btree.c:139-152 | the shifting loop puts the key and its right child at the place the order gives them |
| StudyTrees.Halve | tests/Btree.c:158-179 | keys and children behind the middle move to the new node, and exactly those children get it as parent |
| StudyTrees.SplitKeepsTree | tests/Btree.c:158-196 | splitting a node keeps the tree legal, its parent possibly one key too large |
| StudyTrees.SplitKeepsKeys | tests/Btree.c:158-196 | a split keeps all keys |
| StudyTrees.SlotAgrees | tests/Btree.c:139-152 | the promoted key's place in the parent is the slot of the node that split |
| StudyTrees.BTree.Split | tests/Btree.c:158-196 | the ripple ends with a legal tree of the same keys |
| StudyTrees.BTree.Insert | tests/Btree.c:203-230 | a present key changes nothing, any other joins the key set, and no overflow survives |
| StudyTrees.BTree.Search | tests/Btree.c:85-99 | true exactly for the keys in the tree |
| StudyTrees.BTree.SearchRec | tests/Btree.c:101-112 | the recursive search, which walks into NULL below a leaf, is true for the same keys |
| StudyTrees.UniformDepth | tests/Btree.c:158-196 | all leaves are equally far from the root |
| StudyTrees.BuildTree | tests/Btree.c:203-230 | any run of inserts builds a legal tree of exactly the inserted keys: 2 to 4 keys per non-root node, correct parents |
| StudyTrees.SearchBothWays | tests/Btree.c:85-112 | both searches agree with the key set |

## Left out

- LeafInserts.InsertCommand: when the page numbers run out in the middle of a split, the half-split pages the code
  leaves in the table are not described; all other pages are proved untouched.
- Sessions.Database.Execute: says nothing of the rows of the table whose INSERT has run out of page numbers; CREATE
  TABLE with no page left is answered with an error, where the code would store through a NULL pointer.
- Statements.ExecQuery, Statements.ExecUpdate, Statements.ExecDelete: say nothing of a condition that compares values
  of different types, for which the code reads the wrong member of a union (`src/table.c:280-287`,
  `src/ast.c:324-332`), or a stored text of exactly 255 bytes, which has no NUL in its buffer. So do
  `Execute` and `Run`.
- Statements.ExecCreate: says nothing of table and column names longer than 31 bytes, which do not fit the catalog.
- Inserts.SplitInternalNode: works on pages as sequences of separators and children; the two temporary arrays
  and the stores into them are one sequence edit. The bytes of the single-page edits are in `PageBytes.dfy`.
- Cursors.RunSelect: returns the rows; printing them is not modelled.
- Lexer.Tokenizer.GetNextToken: lines and columns, which only appear in error messages, are not modelled; a text
  ends where its terminating NUL would be.
- Parsers.Parser.ParseSelectStatement: that an error message is set is modelled, its wording is not.
- Ill-formed conditions: the parser accepts a bare literal or column as a condition; statements are executed in
  the model only with conditions of the form `column = literal`, and the step from syntax tree to statement
  is not modelled.
- The bytes of the catalog page: it is a list of table definitions.
- Storage for syntax trees, plans and cursors, file descriptors, short reads and `errno`.
- The REPL, the meta commands, and the printing of trees, plans and schemas.
- Rebalancing after DELETE and transactions: the repository does not implement them.
