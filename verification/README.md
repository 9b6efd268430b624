# GNU SQL server: models and proofs of its core

The GNU SQL server (0.7b6.0) is a small SQL database in C. This project models the parts of it in which
the logic is hardest and proves what they promise.

- **Simulated virtual memory** (`PageLayout`, `Page`, `Heap`, `Segment`). A page is an array of bytes;
  block descriptors with 16-bit sizes and relative links live in these bytes. A segment is a chain of
  pages, and its meaning is a map from addresses to the bytes of the objects there. Allocation, freeing
  and reallocation are proved against this map.
- **Expressions** (`Expressions`, `Like`, `ThreeValued`). The evaluator with its data stack and operation
  stack is proved equal to a recursive evaluation, and that to SQL's three-valued logic.
- **Scan conditions** (`ScanConditions`, `ScanBuffer`, `RowTest`, `BufferTest`, `TableTest`). The predicates
  of a column narrow one interval, by a table of actions; all intervals are written to a buffer, from which
  the engine tests rows. The interval accepts what all predicates accept, the buffer can be read back, and
  the test on its bytes decides the predicates, for the numbers and strings of the queries here as for any
  coding that the columns understand.
- **Compiled queries** (`Program`, `Interp`, `Cursor`, `Answers`, `Joins`, `Statement`). Nested scan loops
  are emitted into chunks of memory that are linked by jumps, the interpreter carries them out, cursors
  resume it row by row. The result is the set of combinations of rows on which every condition is TRUE, in
  the order of the loops; another order of the tables gives the same rows equally often.
- **Choice of the scan order** (`TableOrder`, `Optimizer`, `CostMeaning`, `Placement`, `Planning`). The
  search goes through all orders in place, keeps the cheapest, and distributes the conjuncts to scans,
  indexes and WHERE. The query compiled after that has the rows of the query as it was written.
- **Types** (`TypeCasts`). Which type can be cast to which, and the type inferred for an operation as the
  least one its operands can be cast to.
- **Local remote calls** (`MessageCache`, `Protocol`, `Settling`). Any number of clients and one server over
  one typed message queue, as steps with an invariant; every run comes to rest, and how the calls end.
- **Administrator of transactions** (`Administrator`). Identifiers that survive crashes, the least
  identifier in use, and the table of running transactions.

`Basics` holds what several parts share. Source code that changes fields, arrays or stacks is a class or
a method with loops here, and its contract ties the new state to the old one; the laws are lemmas about the
specifications.

## Where the code falls short of its promise

Each of these is proved, those that depend on the input with the exact condition.

- `ob_alloc` can end the process although a fresh page would hold the request: a last page of full size is
  made longer instead (`Segment.ObAlloc`, condition `Dies`;
  `Segment.LongerPageReached` gives two requests).
- Freeing leaves two free blocks touching when the free block before the freed one is not adjacent but the
  one behind it is (`PageLayout.CoalescedIff`; `Page.TouchingLeft` gives such a page).
- The engine's test of a row leaves the upper bound of a two-sided interval unread when the value equals
  the closed lower bound; a later column is then compared with the wrong value (`RowTest.RowLost`,
  with the condition in `RowTest.PassesIff`). The results about queries hold for scans that meet it.
- Over the integers incompatible predicates go unnoticed when some real number would satisfy them
  (`ScanConditions.IncompatibleOverIntegers`); the result is still right, since the scan then finds nothing.
- A client never finishes if the reply is a positive multiple of the message size (`Protocol.FinishesIff`);
  a request with an unknown command stops the server for good (`Protocol.StoppedForever`).
- The search for the least identifier takes empty places for identifiers and then gives 0, so that the
  least identifier can go down (`Administrator.MinidFallsIff`, `Administrator.MinidFalls`); the comments call
  for the least one in use.
- Identifiers repeat after a crash if the step of the ceiling is 0, or 1 with a ceiling of 0
  (`Administrator.UniqueIff`); unique names repeat far more easily (`Administrator.NamesRepeatIff`).
- Casting is an order on types in normal form (`TypeCasts.CastedOrder`); on others it is transitive exactly
  where the outer lengths fit (`TypeCasts.TransitiveIff`). Number types whose length is not compared are no
  exception (`TypeCasts.TransitiveEnds`). That types as in `TypeCasts.NotTransitive` are compared at all is
  not shown.
- LIKE with a wildcard as escape character reads patterns differently from the standard
  (`Like.EscapeStandardIff`); with another escape character it takes patterns that the standard does not
  allow (`Like.NotAllowedIff`, `Like.AcceptsNotAllowed`).

## Model

| member | source | states |
|---|---|---|
| PageLayout.PrevInvertsNext | gnusql-0.7b6.0/src/other/vmemory.c:368-391 | in a page with the invariant, following `next` from one free block and `prev` from where it leads are inverse, at both ends of the list too |
| PageLayout.UsedBytes | gnusql-0.7b6.0/src/other/vmemory.c:393-478 | `used` is the sum of the bytes of the blocks in use with their descriptors, and it is 0 exactly when no block is in use |
| PageLayout.DeleteInv | gnusql-0.7b6.0/src/other/vmemory.c:582-618 | taking a free block out of the list keeps tiling, order, links, ends and accounting; all other bytes stay |
| PageLayout.InsertInv | gnusql-0.7b6.0/src/other/vmemory.c:510-580 | linking a freed block in at its place keeps the page invariant and every byte of the other blocks |
| PageLayout.AbsorbInv | gnusql-0.7b6.0/src/other/vmemory.c:480-508 | merging a free block with the adjacent one behind keeps the invariant: one block less, the same bytes covered |
| PageLayout.CutInv | gnusql-0.7b6.0/src/other/vmemory.c:620-646 | cutting a block in two keeps the tiling and the accounting, with the rest ready to be freed |
| PageLayout.GrowInv | gnusql-0.7b6.0/src/other/vmemory.c:713-823 | making the last page longer keeps the invariant, whether the last free block grows or a new one is added |
| PageLayout.FreshInv | gnusql-0.7b6.0/src/other/vmemory.c:687-711 | a new page is one free block and satisfies the invariant |
| PageLayout.CoalescedIff | gnusql-0.7b6.0/src/other/vmemory.c:510-580 | when freeing a block into a page without touching free blocks leaves two that touch: exactly when the free block before it is not adjacent and the one behind it is |
| PageLayout.FitsIff | gnusql-0.7b6.0/src/other/vmemory.c:944-962 | a free block has room for a request exactly if somewhere in its bytes an aligned object of the size lies whole |
| PageLayout.WritePayloadInv | gnusql-0.7b6.0/src/other/vmemory.c:927-1028 | writing inside the bytes of a block in use disturbs no descriptor and no other block |
| PageLayout.ExtendInv | gnusql-0.7b6.0/src/other/vmemory.c:1108-1124 | taking the free block behind into a block in use keeps the invariant and the bytes it had |
| Page.Page.constructor | gnusql-0.7b6.0/src/other/vmemory.c:687-711 | the new page is one free block of the given size |
| Page.Page.DeleteFvmb | gnusql-0.7b6.0/src/other/vmemory.c:582-618 | the block leaves the free list, everything else of the page stays; the invariant with one pending block holds |
| Page.Page.JoinFvmb | gnusql-0.7b6.0/src/other/vmemory.c:480-508 | a free block is merged with the next one if they touch, and not otherwise |
| Page.Page.Seek | gnusql-0.7b6.0/src/other/vmemory.c:516-556 | the place of a freed block in the address-ordered list: its free neighbours on both sides |
| Page.Page.InsertFvmb | gnusql-0.7b6.0/src/other/vmemory.c:510-580 | the block is free and in the list, `used` falls by its bytes, every other live block keeps its bytes, and touching free blocks remain exactly in the case of `PageLayout.CoalescedIff` |
| Page.Page.SplitVmb | gnusql-0.7b6.0/src/other/vmemory.c:620-646 | a block is cut when at least a descriptor for a free block is left over; the rest becomes free and the kept part its bytes |
| Page.Page.CutVmb | gnusql-0.7b6.0/src/other/vmemory.c:628-645 | the cut itself: the kept part ends where the rest begins, its bytes stay, and on a page without free blocks the rest is the only one |
| Page.Page.TouchingLeft | gnusql-0.7b6.0/src/other/vmemory.c:510-580 | a new page cut and freed in an order that leaves two free blocks touching: the missed case occurs |
| Page.Page.Enlarge | gnusql-0.7b6.0/src/other/vmemory.c:732-749 | the bytes are copied to a longer page, and its new end is a block pending to be freed |
| Page.Page.Grow | gnusql-0.7b6.0/src/other/vmemory.c:713-823 | the page is longer and has a free block at its end with room for the request |
| Page.Page.FindFit | gnusql-0.7b6.0/src/other/vmemory.c:944-962 | the first free block of the list in which the aligned request fits, or none exists |
| Page.Page.Claim | gnusql-0.7b6.0/src/other/vmemory.c:963-1028 | the found block is in use, zeroed, cut to size, and the returned offset is aligned inside it |
| Page.Page.ClearVmb | gnusql-0.7b6.0/src/other/vmemory.c:1006-1007 | the bytes of the block are zeroed and its alignment noted; other blocks and the bounds of all blocks stay |
| Page.Page.FindBlock | gnusql-0.7b6.0/src/other/vmemory.c:648-685 | the block in use whose bytes contain the address, or there is none |
| Page.Page.Extend | gnusql-0.7b6.0/src/other/vmemory.c:1112-1124 | the free block behind is taken in; bytes and other blocks stay |
| Page.Page.Paste | gnusql-0.7b6.0/src/other/vmemory.c:1125-1132 | copying into a live block changes only its bytes |
| Heap.Separate | gnusql-0.7b6.0/src/other/vmemory.c:927-1028 | two live objects are at least a descriptor apart |
| Heap.OneObject | gnusql-0.7b6.0/src/other/vmemory.c:927-1133 | an operation on one page that touches one block changes one object of the whole segment |
| Segment.Segment.constructor | gnusql-0.7b6.0/src/other/vmemory.c:1266-1290 | an empty segment has no objects |
| Segment.Segment.AddPage | gnusql-0.7b6.0/src/other/vmemory.c:687-711 | a page added behind the others leaves all objects and is one free block |
| Segment.Segment.GrowLast | gnusql-0.7b6.0/src/other/vmemory.c:713-823 | growing the last page leaves all objects |
| Segment.Segment.Search | gnusql-0.7b6.0/src/other/vmemory.c:944-962 | pages are searched in order, and none has room if nothing is found |
| Segment.PageSizeLeast | gnusql-0.7b6.0/src/other/vmemory.c:951-952 | the size of a new page is doubled only while the request does not leave room for the system |
| Segment.Segment.GetRoom | gnusql-0.7b6.0/src/other/vmemory.c:963-984 | if no page has room, a page is added or the last one grows, unless the request would pass the largest page; then some page has room |
| Segment.Segment.Room | gnusql-0.7b6.0/src/other/vmemory.c:936-984 | the search ends: after one round of making room the request fits |
| Segment.Segment.ObAlloc | gnusql-0.7b6.0/src/other/vmemory.c:927-1028 | nothing for size 0; the process ends exactly when no block has room and the page that would be made is too large; otherwise a range of the size, zeroed, in one new object apart from every other, at an address that is a multiple of 4, of 8 for more than 4 bytes and of 16 for more than 8, unless an alignment of at most 4 is asked for, and a multiple of 16 if that is; all other objects keep address and bytes; the pages keep their lengths if one has room, else the first page gets the bytes asked for, a later one those less what the system needs, or the last one grows by them |
| Segment.Segment.DiesIff | gnusql-0.7b6.0/src/other/vmemory.c:951-984 | the process ends exactly if one of the pages, lengthened or added as the request needs, would be longer than a page can be |
| Segment.Segment.LongerPageDies | gnusql-0.7b6.0/src/other/vmemory.c:963-984 | after the only page has full size and nothing free but its last quarter, a request of 9000 bytes ends the process, although a fresh page would hold it |
| Segment.LongerPageReached | gnusql-0.7b6.0/src/other/vmemory.c:927-1028 | from an empty segment: allocating 24000 bytes succeeds, allocating 9000 bytes then ends the process |
| Segment.Segment.FreeVmpage | gnusql-0.7b6.0/src/other/vmemory.c:825-843 | only pages without objects are dropped |
| Segment.Segment.FindVmb | gnusql-0.7b6.0/src/other/vmemory.c:648-685 | finds the live object around an address if there is one |
| Segment.Segment.FoundObject | gnusql-0.7b6.0/src/other/vmemory.c:648-685 | what is found is the object of the segment around the address |
| Segment.Segment.VmFree | gnusql-0.7b6.0/src/other/vmemory.c:1135-1150 | exactly the object around the address is gone; the process ends if there is none |
| Segment.Segment.VPointer | gnusql-0.7b6.0/src/other/vmemory.c:1211-1236 | an address inside a live object leads to its bytes |
| Segment.Segment.Shorten | gnusql-0.7b6.0/src/other/vmemory.c:1104-1111 | the object is cut behind the new size |
| Segment.Segment.Append | gnusql-0.7b6.0/src/other/vmemory.c:1114-1119 | the object takes the free block behind when that is large enough; its bytes and every other object stay |
| Segment.Segment.Lengthen | gnusql-0.7b6.0/src/other/vmemory.c:1112-1128 | in place if the block behind is free and large enough, else by moving; the process ends exactly when neither can be done |
| Segment.Segment.Move | gnusql-0.7b6.0/src/other/vmemory.c:1121-1127 | a new object is allocated, the bytes are copied and the old one is freed |
| Segment.Segment.HeldOnce | gnusql-0.7b6.0/src/other/vmemory.c:648-685 | at most one block in use holds an address, so that the block named in the contract of reallocation is determined |
| Segment.Segment.VmRealloc | gnusql-0.7b6.0/src/other/vmemory.c:1092-1133 | the first min(old, new) bytes are kept, there is room for the new size, every other object stays; the process ends if and only if no object holds the address, or the size is 0 at the start of a block of more than a free descriptor, or the bytes there are too few, no free block behind gives the rest and allocating fails |
| Like.MatchIffPartitioned | gnusql-0.7b6.0/src/interpr/intlib.c:398-424 | the recursive matcher accepts a string iff it can be cut into pieces that fit the characters, `_` and `%` of the pattern |
| Like.LikeIff | gnusql-0.7b6.0/src/interpr/intlib.c:398-424 | in the characters of the pattern, with or without ESCAPE: string and pattern can be cut into equally many pieces, `%` against anything, `_` against one character, and a character or one behind the escape character against itself |
| Like.EvalLike | gnusql-0.7b6.0/src/interpr/intlib.c:398-424 | the loop with its recursion ends and answers 1 iff the string matches, for patterns with and without an escape character |
| Like.EscapeStandardIff | gnusql-0.7b6.0/src/interpr/intlib.c:398-424 | all patterns that the standard allows are read as the standard reads them if and only if the escape character is neither `%` nor `_` |
| Like.NotAllowedIff | gnusql-0.7b6.0/src/interpr/intlib.c:398-424 | with an escape character that is no wildcard, the patterns that the standard does not allow are exactly those with an odd run of escape characters that is last or precedes an ordinary character |
| Like.AcceptsNotAllowed | gnusql-0.7b6.0/src/interpr/intlib.c:398-424 | on such a pattern the standard calls for an error, but the matcher accepts some string, unless the odd run ends the pattern |
| Like.EscapeAgrees | gnusql-0.7b6.0/src/interpr/intlib.c:398-424 | with an escape character that is no wildcard the tokens read from a pattern that the standard allows are the standard's |
| Expressions.Calculator.Operand | gnusql-0.7b6.0/src/interpr/intlib.c:699-790 | one operand handled on the data stack does what one step of the recursive evaluation does, including dropped neutral operands and early ends |
| Expressions.Calculator.Calculate | gnusql-0.7b6.0/src/interpr/intlib.c:589-799 | the machine with two stacks ends, returns the value or error of the recursive evaluation of the tree, and leaves both stacks as they were |
| ThreeValued.RunMeans | gnusql-0.7b6.0/src/interpr/intlib.c:589-799 | for every well-typed tree whose subtrees all have values, the evaluator returns SQL's three-valued value: AND and OR by what occurs among the operands, NULL through comparisons, arithmetic and LIKE |
| ThreeValued.LogicMeans | gnusql-0.7b6.0/src/interpr/intlib.c:744-762 | AND and OR over any number of operands: dropping neutral ones and stopping at a deciding one never changes the value |
| ThreeValued.LogicSnoc | gnusql-0.7b6.0/src/other/type_lib.c:376-446 | the two tables of AND and OR are one step of the three-valued connectives |
| ThreeValued.ArithmeticMeans | gnusql-0.7b6.0/src/other/type_lib.c:449-567 | arithmetic over any number of operands associates to the left, NULL absorbs, and only a division by 0 has no value |
| ThreeValued.PairMeans | gnusql-0.7b6.0/src/other/type_lib.c:449-567 | comparisons of numbers by size and of strings as in a dictionary, `<>` as being different, and LIKE, on two operands, NULL if one is |
| ThreeValued.CompareBefore | gnusql-0.7b6.0/src/other/type_lib.c:487-526 | the three-way comparison of strings is negative exactly if the first is a proper prefix or smaller where they first differ, and 0 exactly if they are equal |
| ThreeValued.QuotientIs | gnusql-0.7b6.0/src/other/type_lib.c:550-562 | the quotient is the number whose product with the divisor comes nearest to the dividend without passing it, with the sign of a division toward zero |
| ThreeValued.UnaryMeans | gnusql-0.7b6.0/src/other/type_lib.c:386-437 | NOT, unary minus, IS NULL and IS NOT NULL |
| ScanConditions.Position | gnusql-0.7b6.0/src/interpr/intlib.c:814-873 | the eight position codes say where a value lies against an equality or an interval, open and closed ends told apart |
| ScanConditions.NarrowExact | gnusql-0.7b6.0/src/interpr/intlib.c:884-1003 | one predicate narrows the interval so that it accepts exactly what both did, or they are incompatible and nothing satisfies both |
| ScanConditions.ColumnExact | gnusql-0.7b6.0/src/interpr/intlib.c:884-1003 | for any list of predicates in any order, the final interval and NULL test accept a value iff every predicate is TRUE of it |
| ScanConditions.BoundsFrom | gnusql-0.7b6.0/src/interpr/intlib.c:930-1001 | every bound of the interval has the constant of one of the predicates, and its code unless it is an equality |
| ScanConditions.IncompatibleIff | gnusql-0.7b6.0/src/interpr/intlib.c:884-1003 | over a dense order without ends, the answer incompatible is given if and only if nothing satisfies the predicates |
| ScanConditions.RealsDense | gnusql-0.7b6.0/src/interpr/intlib.c:884-1003 | the real numbers are such an order |
| ScanConditions.IncompatibleOverIntegers | gnusql-0.7b6.0/src/interpr/intlib.c:884-1003 | over the integers incompatible is answered if and only if no real number either, nor NULL, satisfies the predicates |
| ScanConditions.GapUnnoticed | gnusql-0.7b6.0/src/interpr/intlib.c:884-1003 | so `> 1` and `< 2` are taken as compatible, although no integer satisfies them |
| ScanBuffer.PutAs | gnusql-0.7b6.0/src/interpr/intlib.c:805-811 | a half byte is set by OR without touching its neighbour |
| ScanBuffer.OrShift | gnusql-0.7b6.0/src/interpr/intlib.c:805-811 | OR of numbers without a common bit is addition |
| ScanBuffer.DuToBuf | gnusql-0.7b6.0/src/other/type_lib.c:185-214 | a value is written with its length before it and nothing else changes |
| ScanBuffer.NarrowColumn | gnusql-0.7b6.0/src/interpr/intlib.c:906-1001 | the loop over the predicates of a column computes the interval |
| ScanBuffer.PutColumn | gnusql-0.7b6.0/src/interpr/intlib.c:1018-1033 | a column's bounds go behind the earlier ones and its code into its half byte, never past the end |
| ScanBuffer.CondBuf | gnusql-0.7b6.0/src/interpr/intlib.c:884-1036 | the buffer has the computed size, the codes of all columns, the end mark and all bounds in order; without a buffer, the first column that fails or is incompatible decides |
| ScanBuffer.ScaleIs | gnusql-0.7b6.0/src/interpr/intlib.c:1018-1033 | of two columns that share a byte the first has its code in the lower half, and the end mark stands in the half byte behind the last column |
| ScanBuffer.ValuesStart | gnusql-0.7b6.0/src/engine/trans/aggravg.c:257-260 | reading half bytes to the end mark leads to the first value, for even and odd numbers of columns |
| ScanBuffer.FieldsRoundTrip | gnusql-0.7b6.0/src/other/type_lib.c:185-214 | values written one behind the other are read back, whatever follows, if their lengths fit in two bytes |
| ScanBuffer.BufferRoundTrip | gnusql-0.7b6.0/src/interpr/intlib.c:1004-1036 | from the whole buffer every code and every bound come back |
| BufferTest.ReadValue | gnusql-0.7b6.0/src/other/type_lib.c:185-214 | the next value and the place behind it, read from the bytes as they were written |
| BufferTest.TestValue | gnusql-0.7b6.0/src/engine/trans/aggravg.c:210-239 | a value against the next one or two values in the buffer, under every code, as the column understands their bytes, and the place where reading goes on |
| BufferTest.RowPasses | gnusql-0.7b6.0/src/engine/trans/aggravg.c:243-274 | the engine's test of a row, on the bytes of a written buffer: it finds the values behind the scale, goes through codes and values side by side, each column with its own type, and computes the row test on what was written, also where a bound is left unread |
| BufferTest.BytesExact | gnusql-0.7b6.0/src/engine/trans/aggravg.c:210-274 | where the intervals are read right and the columns understand their bounds, also one that an earlier column has left, that test accepts exactly the rows that all intervals accept |
| BufferTest.PassesMeans | gnusql-0.7b6.0/src/engine/trans/aggravg.c:210-274 | for intervals that are read right, the row test on the bounds is TRUE if and only if every predicate of every column is |
| BufferTest.CodedLegible | gnusql-0.7b6.0/src/interpr/intlib.c:884-1036 | every bound is a constant of the predicates, so that it is enough that columns understand these |
| BufferTest.TestRow | gnusql-0.7b6.0/src/interpr/intlib.c:884-1036 | both sides together: unless computing a constant fails, a row passes the buffer that was written for the predicates if and only if all of them are TRUE of it, and incompatible ones are TRUE of none; asked of the coding is only that columns understand the constants of the predicates |
| TableTest.FitCoded | gnusql-0.7b6.0/src/other/type_lib.c:185-214 | numbers of four bytes and strings are such a coding for all constants that fit the types of their columns |
| TableTest.TestTableRow | gnusql-0.7b6.0/src/interpr/interpr.c:196-248 | for a table in a query: a row passes the bytes written for its scan if and only if all conditions of the scan are TRUE of it, and it is then a row that the scan delivers |
| RowTest.PassesExact | gnusql-0.7b6.0/src/engine/trans/aggravg.c:210-274 | for one row: the test is right about it if behind every column whose closed lower end the row's value equals, and whose upper bound it therefore leaves unread, the columns read only that bound's value |
| RowTest.PassesIff | gnusql-0.7b6.0/src/engine/trans/aggravg.c:210-274 | over a dense order the test is right about all rows if and only if no column behind a two-sided interval with a closed lower end reads another value than its upper bound |
| RowTest.ReadableExact | gnusql-0.7b6.0/src/engine/trans/aggravg.c:210-274 | under that condition it is right about every row, over any linear order |
| RowTest.RowLost | gnusql-0.7b6.0/src/engine/trans/aggravg.c:210-239 | the row (1, 7) meets `a BETWEEN 1 AND 5` and `b = 7` and is dropped, because the upper bound 5 was left unread |
| RowTest.GapSpared | gnusql-0.7b6.0/src/engine/trans/aggravg.c:210-274 | density is needed for that: with `a BETWEEN 1 AND 5` and `b > 4 AND b < 5` over the integers the condition fails, and still every row is judged right |
| Program.Module.constructor | gnusql-0.7b6.0/src/synthes/codegen.c:226-228 | a fresh chunk is empty and has room |
| Program.Module.SetCommand | gnusql-0.7b6.0/src/synthes/struct.c:46-79 | a command is put behind the others or, after a link, into a new chunk; it never passes the end of its chunk, nothing is overwritten and room for the next link remains |
| Program.Module.PlaceCmd | gnusql-0.7b6.0/src/synthes/syndef.h:62-66 | the structure of an emitted command is filled in, nothing else changes |
| Program.Module.UntilConjuncts | gnusql-0.7b6.0/src/synthes/codegen.c:1463-1478 | takes out exactly the unused conjuncts whose tables are covered, in order |
| Program.Module.OpenLoop | gnusql-0.7b6.0/src/synthes/codegen.c:1449-1502 | the head of a scan loop: open, fetch, handle, test of the level's conjuncts |
| Program.Module.CloseLoop | gnusql-0.7b6.0/src/synthes/codegen.c:1559-1564 | the end of a scan loop: back to its fetch, and the end of its scan |
| Program.Module.ScanTable | gnusql-0.7b6.0/src/synthes/codegen.c:1322-1588 | memory from the start to the end of emission holds the nested loops of all tables around the body, with every branch target resolved, whatever chunk boundaries lie between; the used conjuncts are taken out |
| Program.Module.Conjuncts | gnusql-0.7b6.0/src/synthes/codegen.c:1643-1662 | every conjunct with the places it refers to |
| Program.Module.Query | gnusql-0.7b6.0/src/synthes/codegen.c:1592-1672 | the code of a query: its loops with each conjunct at the first level that covers it, then the end |
| Program.LoopsKept | gnusql-0.7b6.0/src/synthes/struct.c:46-79 | later emission does not change loops that are complete |
| Program.Complete | gnusql-0.7b6.0/src/synthes/codegen.c:1561-1572 | filling in the scan's two reserved commands completes the loop |
| Interp.OutsIff | gnusql-0.7b6.0/src/interpr/interpr.c:478-487 | a row is produced if and only if it has as many values as there are expressions, each the value of the expression in the same place |
| Interp.AtRuns | gnusql-0.7b6.0/src/interpr/interpr.c:100-281 | a command reached over a chunk link is carried out as if it were next: chunk links are invisible |
| Interp.OverRuns | gnusql-0.7b6.0/src/interpr/interpr.c:107-123 | a loop with rows still to come runs through all of them and comes out behind it with its scan closed, or breaks off |
| Interp.RowRuns | gnusql-0.7b6.0/src/interpr/interpr.c:142-157 | one pass of a loop: test, inner part, and back to its fetch |
| Interp.LoopRuns | gnusql-0.7b6.0/src/interpr/interpr.c:100-281 | the emitted loops of any number of levels end, produce exactly the rows of the nested-loop meaning in order, leave the other scans alone and SQLCODE 100 behind |
| Interp.NestedAgree | gnusql-0.7b6.0/src/synthes/codegen.c:1463-1478 | rows left over in the places of inner tables are never looked at |
| Interp.LevelsReady | gnusql-0.7b6.0/src/synthes/codegen.c:1403-1478 | by the masks every conjunct is tested only when all rows it refers to are current |
| Interp.QueryRuns | gnusql-0.7b6.0/src/interpr/interpr.c:100-281 | running a compiled query from its start reaches the end with all rows, or breaks off at the first failing evaluation with the rows before it |
| Cursor.Interpreter.Command | gnusql-0.7b6.0/src/interpr/interpr.c:107-326 | each command changes scans, current rows, SQLCODE and results as specified |
| Cursor.Interpreter.Values | gnusql-0.7b6.0/src/interpr/interpr.c:478-487 | the expressions are computed one after the other, each into its place of the row; it stops at the first failure |
| Cursor.Interpreter.ProcWork | gnusql-0.7b6.0/src/interpr/interpr.c:100-281 | the interpreter's loop ends, at a row, at the end or at a failure, at the state that as many single steps lead to |
| Cursor.FillTemp | gnusql-0.7b6.0/src/interpr/interpr.c:306-325 | a query whose rows go to a temporary table adds exactly its rows |
| Cursor.CursorHeader.constructor | gnusql-0.7b6.0/src/interpr/int_servlib.c:121-128 | a cursor starts closed |
| Cursor.CursorHeader.Open | gnusql-0.7b6.0/src/interpr/int_servlib.c:143-147 | an opened cursor stands before exactly the rows of its query; opening it again is an error |
| Cursor.CursorHeader.Fetch | gnusql-0.7b6.0/src/interpr/int_servlib.c:149-157 | each fetch resumes where the last one stopped and gives the next row of the uninterrupted run with SQLCODE 0; behind the last row SQLCODE 100; before OPEN an error |
| Cursor.CursorHeader.FetchAll | gnusql-0.7b6.0/src/interpr/int_servlib.c:149-157 | fetching up to SQLCODE 100 gives the rows of one uninterrupted run, in order |
| Cursor.CursorHeader.Close | gnusql-0.7b6.0/src/interpr/int_servlib.c:159-191 | closing closes the scans and allows opening again |
| Cursor.StepsGrow | gnusql-0.7b6.0/src/interpr/interpr.c:449-497 | rows given out stay as they are |
| Answers.UntilMeans | gnusql-0.7b6.0/src/synthes/codegen.c:1482-1497 | the test of a level, a single conjunct or their AND, lets a row through iff each is TRUE, not NULL and not FALSE |
| Answers.SimpleMeans | gnusql-0.7b6.0/src/interpr/intlib.c:930-962 | a scan condition holds of a column value iff its tree is TRUE of the row |
| Answers.LessLinear | gnusql-0.7b6.0/src/interpr/intlib.c:812 | the comparison of the evaluator orders numbers and strings linearly |
| Answers.ScanMeans | gnusql-0.7b6.0/src/interpr/interpr.c:196-248 | the engine's row test on the bounds of a scan delivers exactly the rows on which all its conditions are TRUE, and the scan is skipped only when there are none; for lists whose bounds are read right (`Answers.ScanReadable`) |
| Answers.PlainReadable | gnusql-0.7b6.0/src/engine/trans/aggravg.c:210-274 | they are read right for all rows in every environment if no column with tests lies behind one with both a `>=` and a `<=` or `<` |
| Answers.LevelSplits | gnusql-0.7b6.0/src/synthes/codegen.c:1463-1478 | what a level tests and what is left to the inner ones together are all conditions |
| Answers.NestedMeans | gnusql-0.7b6.0/src/synthes/codegen.c:1322-1588 | the nested loops produce the rows of the full product on which every conjunct and scan condition is TRUE in SQL's logic, in the order of the loops |
| Joins.CompiledQueryAnswers | gnusql-0.7b6.0/src/interpr/interpr.c:100-281 | the compiled query gives exactly its answer, each row with SQLCODE 0, and ends with SQLCODE 100 |
| Statement.SelectAll | gnusql-0.7b6.0/src/synthes/codegen.c:1592-1672 | a SELECT of sound conjuncts, with scans whose bounds are read right, that is compiled, opened as a cursor and fetched to the end gives exactly its answer, rows in order |
| Joins.BagPermuted | gnusql-0.7b6.0/src/synthes/optim.c:549-554 | the product taken in any order of the tables gives the same rows equally often |
| Joins.ReorderedAnswer | gnusql-0.7b6.0/src/synthes/optim.c:549-554 | scanning the tables in another order gives the same rows equally often |
| Joins.ReorderedRuns | gnusql-0.7b6.0/src/synthes/optim.c:549-554 | so do the compiled programs for two orders of the tables |
| Joins.PushedDown | gnusql-0.7b6.0/src/synthes/optim.c:577-608 | a conjunct of WHERE that becomes a condition of a scan leaves the answer as it is, row by row |
| Joins.WhereReordered | gnusql-0.7b6.0/src/synthes/optim.c:480-493 | the order of the conjuncts does not matter |
| Joins.ConjunctsConserved | gnusql-0.7b6.0/src/synthes/codegen.c:1463-1478 | the conjuncts of all levels and those left over are those given, each once |
| Joins.QueryTestsEachOnce | gnusql-0.7b6.0/src/synthes/codegen.c:1592-1672 | a compiled query tests every conjunct at exactly one level |
| Joins.SampleSound | gnusql-0.7b6.0/src/synthes/codegen.c:1592-1672 | a query over two tables with a scan condition and a join that meets the conditions for compiling and running |
| TableOrder.NothingBetween | gnusql-0.7b6.0/src/synthes/optim.c:343-369 | no order lies between an order and the one it is rearranged to |
| TableOrder.DescendingEnd | gnusql-0.7b6.0/src/synthes/optim.c:346-353 | the descending end of the order is noted in ascending order |
| TableOrder.Refill | gnusql-0.7b6.0/src/synthes/optim.c:358-368 | the end is refilled in ascending order with the least larger number in front |
| TableOrder.NextOrderOfTablesScan | gnusql-0.7b6.0/src/synthes/optim.c:343-369 | rearranges the order in place to its lexicographic successor; false, and nothing changed, only for the last order |
| TableOrder.NextIsNext | gnusql-0.7b6.0/src/synthes/optim.c:343-369 | every order before the new one is the old one or before it |
| TableOrder.LastIsLast | gnusql-0.7b6.0/src/synthes/optim.c:355-356 | when it answers no, all other orders came before |
| Optimizer.Estimator.constructor | gnusql-0.7b6.0/src/synthes/optim.c:449-464 | at the start no conjunct is marked |
| Optimizer.Estimator.SimplePredicates | gnusql-0.7b6.0/src/synthes/optim.c:272-294 | the simple predicates that become usable with a table, and the best selectivity of each column and of the indexed ones |
| Optimizer.Estimator.OtherConjuncts | gnusql-0.7b6.0/src/synthes/optim.c:300-309 | the other conjuncts that become usable, each with the default selectivity |
| Optimizer.Estimator.Table | gnusql-0.7b6.0/src/synthes/optim.c:264-316 | rows read from and coming out of the table at one position |
| Optimizer.Estimator.Subqueries | gnusql-0.7b6.0/src/synthes/optim.c:322-334 | each subquery is charged at the first position that completes its tables; the search for it ends |
| Optimizer.Estimator.EstCostOrder | gnusql-0.7b6.0/src/synthes/optim.c:256-341 | the estimate is a function of the order alone: conjuncts count at the first table that covers them, and every mark is taken back |
| Optimizer.CostPositive | gnusql-0.7b6.0/src/synthes/optim.c:256-341 | every estimate is positive, so that the guard of the search never turns one away |
| CostMeaning.CostIs | gnusql-0.7b6.0/src/synthes/optim.c:256-338 | the cost of an order is the sum over its positions of the rows read and of an open scan for every row that comes in, and over the conjuncts of their subqueries for every row read at the first position that covers their tables; the rows read are those of the table times the least selectivity of an indexed column times the rows that come in |
| CostMeaning.RowsInIs | gnusql-0.7b6.0/src/synthes/optim.c:311-315 | the rows that come to a position are the product, over the tables before it, of their rows and selectivities |
| CostMeaning.SelectivityIs | gnusql-0.7b6.0/src/synthes/optim.c:296-309 | the selectivity of a table is the product over its columns, times the default for every other conjunct that comes in there |
| CostMeaning.ColumnsAre | gnusql-0.7b6.0/src/synthes/optim.c:276-294 | the selectivity of a column is the least of 1 and of those of the simple predicates on it that come in there |
| CostMeaning.IndexedIs | gnusql-0.7b6.0/src/synthes/optim.c:285-291 | so is that of the columns with an index, where it depends on the column whether there is one |
| Optimizer.OptQuery | gnusql-0.7b6.0/src/synthes/optim.c:516-543 | the search ends, tries every permutation exactly once, and returns the lexicographically first one of least estimated cost with that cost |
| Placement.SimpleFirst | gnusql-0.7b6.0/src/synthes/optim.c:480-495 | the partition in place keeps all elements and puts exactly the simple ones first |
| Placement.PlaceAtTable | gnusql-0.7b6.0/src/synthes/optim.c:577-612 | a simple predicate is placed at a table if and only if it is one of that table, refers to no later one and was not placed before |
| Placement.MoveToIndex | gnusql-0.7b6.0/src/synthes/optim.c:655-680 | conditions of leading index columns move to the index, none is lost |
| Placement.PlaceConjuncts | gnusql-0.7b6.0/src/synthes/optim.c:556-730 | the conjuncts are the disjoint union of the scan lists, the index lists and the rest of WHERE; what can be placed at a table is in its lists or those of an earlier one, and not in the rest |
| MessageCache.Cache.MsgRead | gnusql-0.7b6.0/src/other/conn_handler.c:170-180 | takes the next bytes, or -1 if there are none |
| MessageCache.Cache.MsgWrite | gnusql-0.7b6.0/src/other/conn_handler.c:182-197 | appends, growing the buffer, and starts from the beginning |
| MessageCache.Cache.SendAll | gnusql-0.7b6.0/src/other/conn_handler.c:379-388 | the messages sent are the consecutive pieces of the contents |
| MessageCache.CarriedAll | gnusql-0.7b6.0/src/other/conn_handler.c:379-388 | the pieces together are the whole, and the last is full exactly when the length is a positive multiple of the message size |
| Protocol.StepKeeps | gnusql-0.7b6.0/src/other/conn_handler.c:297-424 | every step of any client or of the server keeps the invariant of the protocol |
| Protocol.ArgumentsRebuilt | gnusql-0.7b6.0/src/other/conn_handler.c:640-664 | when the server starts a command it has rebuilt exactly the argument bytes of the client it serves |
| Protocol.Safety | gnusql-0.7b6.0/src/other/conn_handler.c:297-730 | in every run with any number of clients: no message of the wrong kind is met, at most one client is between READY and its last argument, and a finished client holds the whole reply to its own request |
| Protocol.FinishesIff | gnusql-0.7b6.0/src/other/conn_handler.c:396-412 | a client whose reply is sent finishes with it if and only if its length is not a positive multiple of the message size |
| Protocol.WaitsForever | gnusql-0.7b6.0/src/other/conn_handler.c:396-412 | otherwise it waits forever, whatever the others do |
| Protocol.StoppedForever | gnusql-0.7b6.0/src/other/conn_handler.c:585-606 | after a request with an unknown command the server never does anything again |
| Protocol.EndsIff | gnusql-0.7b6.0/src/other/conn_handler.c:540-730 | in every reachable state, a call under way, be it queued, sending or waiting for its reply, can be brought to its end by further steps if and only if the server neither has stopped before it nor has an unknown command queued before it, nor has given it an endless reply |
| Protocol.HopelessForever | gnusql-0.7b6.0/src/other/conn_handler.c:396-412 | a client that has been given an endless reply, even if not all of it is sent, waits in every continuation |
| Protocol.Onward | gnusql-0.7b6.0/src/other/conn_handler.c:297-730 | from every state in which a call is not blocked and not left with an endless reply, steps of the server and of the clients already calling lead to its end |
| Protocol.BlockedForever | gnusql-0.7b6.0/src/other/conn_handler.c:585-606 | a blocked client stays where it is in every continuation |
| Settling.RunsBounded | gnusql-0.7b6.0/src/other/conn_handler.c:297-730 | a run without new calls, in whatever order the steps come, has no more steps than a number that depends only on its start and on the most messages of a reply |
| Settling.AtRestIff | gnusql-0.7b6.0/src/other/conn_handler.c:297-730 | nothing but a new call can happen exactly when the server has no request left or has stopped, and every client is idle, done, queued behind the stopped server, or has taken all of a reply and waits for more |
| Settling.CallsEnd | gnusql-0.7b6.0/src/other/conn_handler.c:297-730 | at the end of every such run a blocked call is where it was, and every other call has ended with a reply or a refusal, unless the server gave it an endless reply |
| Settling.ComesToRest | gnusql-0.7b6.0/src/other/conn_handler.c:297-730 | from every state of the protocol such an end is reached |
| Planning.PlannedAnswer | gnusql-0.7b6.0/src/synthes/optim.c:556-690 | for any order of the tables and any distribution of the conjuncts over scans, indexes and WHERE as `Placement.PlaceConjuncts` makes it, the answer is the one of the query with all its conjuncts in WHERE, row by row |
| Planning.SameAnswer | gnusql-0.7b6.0/src/synthes/optim.c:516-690 | against the query as written, with its tables in the given order: the same rows equally often |
| Planning.PlannedSound | gnusql-0.7b6.0/src/synthes/optim.c:556-690 | if the engine reads the planned scans right, the distributed query is sound for the compiler: every scan condition refers only to tables before it, and no evaluation fails |
| Planning.PlannedRuns | gnusql-0.7b6.0/src/interpr/interpr.c:100-281 | running the compiled code of a distributed query ends with SQLCODE 100 and the rows of the query as written, equally often |
| Planning.SelectPlanned | gnusql-0.7b6.0/src/synthes/optim.c:470-751 | search for the cheapest order, distribution, compilation, cursor and fetching together give the rows of the query as written |
| Planning.CalmReadable | gnusql-0.7b6.0/src/engine/trans/aggravg.c:210-274 | whatever the search ends with, its scans are read right if, among the simple predicates of a table, no column with tests lies behind one that has a `>=` and a `<=` or `<` |
| Planning.WrittenSound | gnusql-0.7b6.0/src/synthes/optim.c:577-608 | a query over two tables with a scan condition and a join that is sound as these results ask |
| Planning.WrittenReadable | gnusql-0.7b6.0/src/synthes/optim.c:577-608 | and whose scans are read right whatever the search ends with |
| Administrator.Dispatcher.constructor | gnusql-0.7b6.0/src/engine/adm.c:718-780 | the start reads the ceiling, raises it on disk and begins with an empty table |
| Administrator.Dispatcher.IAmModifying | gnusql-0.7b6.0/src/engine/adm.c:214-233 | the transaction gets the next identifier; when the next one reaches the ceiling, this is raised on disk |
| Administrator.Dispatcher.WriteEnd | gnusql-0.7b6.0/src/engine/adm.c:260-290 | the record of the end of a transaction as the loop over the table computes it |
| Administrator.Dispatcher.SearchMinid | gnusql-0.7b6.0/src/engine/adm.c:311-323 | the search for the least identifier as it is written |
| Administrator.Dispatcher.EndOfTransaction | gnusql-0.7b6.0/src/engine/adm.c:295-377 | the place is free and keeps its identifier unless that was the least, which is then searched again; no other place changes, one transaction is counted less, and if they were counted up to the last place, the range of places in use shrinks to the last one with a process |
| Administrator.Dispatcher.CreateTransaction | gnusql-0.7b6.0/src/engine/adm.c:989-1046 | the first free place is taken, or a new one behind, with the table doubled when it is full |
| Administrator.PlaceFits | gnusql-0.7b6.0/src/engine/adm.c:989-1010 | the place taken is always inside the table, because the places in use are counted |
| Administrator.ApplyInv | gnusql-0.7b6.0/src/engine/adm.c:214-377 | every operation and every crash keeps the invariant of the administrator |
| Administrator.MinidBelowAll | gnusql-0.7b6.0/src/engine/adm.c:295-331 | in every reachable state the least identifier is at most that of every modifying transaction in the table, and these are below the next one |
| Administrator.NewMinidIs | gnusql-0.7b6.0/src/engine/adm.c:311-323 | what the search finds: 0 if behind the first identifier a place has none, else the least one, or the next one to come if there is none |
| Administrator.MinidFallsIff | gnusql-0.7b6.0/src/engine/adm.c:295-323 | the least identifier goes down exactly when its holder ends and behind the first identifier left there is a place without one; it is 0 then |
| Administrator.TwoModify | gnusql-0.7b6.0/src/engine/adm.c:214-323 | the state reached from a start by creating two transactions, of which the later one modifies first |
| Administrator.MinidFalls | gnusql-0.7b6.0/src/engine/adm.c:295-323 | from that reached state, the end of the holder of the least identifier makes it 0 |
| Administrator.RecordNames | gnusql-0.7b6.0/src/engine/adm.c:260-290 | an identifier is in the record iff some other place in range holds it |
| Administrator.RecordPlaces | gnusql-0.7b6.0/src/engine/adm.c:260-290 | the record goes through the other places with an identifier, each once, in their order |
| Administrator.RecordComplete | gnusql-0.7b6.0/src/engine/adm.c:260-290 | the record names every other running modifying transaction |
| Administrator.FinishedStillNamed | gnusql-0.7b6.0/src/engine/adm.c:295-331 | a transaction that ends without holding the least identifier is still named by later records |
| Administrator.IdsIncrease | gnusql-0.7b6.0/src/engine/adm.c:214-233 | identifiers grow strictly over any sequence of transactions and crashes |
| Administrator.UniqueIff | gnusql-0.7b6.0/src/engine/adm.c:214-233 | no identifier is handed out twice, whatever crashes occur, if and only if the step of the ceiling is at least 2, or 1 with a ceiling on disk that is not 0 |
| Administrator.NamesRepeatIff | gnusql-0.7b6.0/src/engine/adm.c:235-253 | for every step and ceiling, after any number of names: the next name after a crash was handed out before exactly if the names went past the first ceiling and did not stop at a ceiling, because the name and not the raised ceiling goes to disk; where the ceiling is never met, exactly if there was any name |
| TypeCasts.PackedIff | gnusql-0.7b6.0/src/other/sql_type.c:114-209 | the normal forms are exactly the types that packing leaves alone, and packing always gives one |
| TypeCasts.PackedFirst | gnusql-0.7b6.0/src/other/sql_type.c:150-209 | numbers pack to the first type with room for their digits: without a fraction to SHORT or LONG, else to REAL or, whatever their length, DOUBLE; strings keep their length |
| TypeCasts.NumFitsIff | gnusql-0.7b6.0/src/other/sql_type.c:525-528 | the length check between two NUM types lets a cast through exactly if every number the one type can note is one the other can note |
| TypeCasts.CastingFalls | gnusql-0.7b6.0/src/other/sql_type.c:491-505 | the table of casts has no cycle, so that the recursion along it ends |
| TypeCasts.IsCasted | gnusql-0.7b6.0/src/other/sql_type.c:481-539 | the loop over the table with its recursion decides whether a chain of casts and a length that fits exist |
| TypeCasts.CastedBelow | gnusql-0.7b6.0/src/other/sql_type.c:481-539 | between normal forms castable means: undefined to anything, strings to no shorter ones, numbers along short, int, long, real, double |
| TypeCasts.CastedOrder | gnusql-0.7b6.0/src/other/sql_type.c:481-539 | on normal forms casting is reflexive, antisymmetric and transitive |
| TypeCasts.CastedIff | gnusql-0.7b6.0/src/other/sql_type.c:481-539 | castable means: a path in the table of casts from one code to the other, and at its end the length of the one fits the other as for equal codes |
| TypeCasts.TransitiveIff | gnusql-0.7b6.0/src/other/sql_type.c:481-539 | two casts after each other make one cast if and only if the length fits between the outer types |
| TypeCasts.TransitiveEnds | gnusql-0.7b6.0/src/other/sql_type.c:481-539 | they do whenever the outer types are in normal form, or the last one is a number type whose length is not compared |
| TypeCasts.NotTransitive | gnusql-0.7b6.0/src/other/sql_type.c:481-539 | an unpacked type for which they do not |
| TypeCasts.FoldLeast | gnusql-0.7b6.0/src/other/check_tp.c:131-142 | folding the operands' types fails exactly if a string meets a number, and otherwise gives the least type to which all can be cast |
| TypeCasts.ClashIff | gnusql-0.7b6.0/src/other/check_tp.c:45-59 | a string meets a number exactly if there is no type to which all operands can be cast |
| TypeCasts.FoldOrderFree | gnusql-0.7b6.0/src/other/check_tp.c:131-142 | another order of the operands clashes just the same, and without a clash gives the same type |
| TypeCasts.FoldTypes | gnusql-0.7b6.0/src/other/check_tp.c:131-142 | the loop computes the fold and notices an operand without a type |
| TypeCasts.CheckArgTypes | gnusql-0.7b6.0/src/other/check_tp.c:114-156 | the operation gets the common type if it has none, and every operand without a type gets it too |
| TypeCasts.OperandsFit | gnusql-0.7b6.0/src/other/check_tp.c:114-156 | after that every operand can be cast to the inferred type; one that had a type keeps it, and the others get the common type or, without one, that of the operation |

## Left out

- Segment.Segment.VmRealloc: an allocation that leaves the first 2^20 bytes of the segment, whose address the copying would take for one in another segment, ends as `Outside`, without the copy.
- Segment.Segment.ObAlloc: sizes and addresses are unbounded integers; the source's 32-bit arithmetic could wrap for requests near 2^31.
- Answers.ScanMeans: for scan lists whose bounds the engine reads right for every row, that is, which meet the condition of `RowTest.PassesIff`; `Answers.PlainReadable` gives a condition on the list as written. On any other list some row is misjudged if the order is dense (`RowTest.PassesIff`), but not always over the integers (`RowTest.GapSpared`).
- Statement.SelectAll: the same condition is asked of every scan of the query, as part of `Joins.QuerySound`.
- TableTest.TestTableRow: for constants that fit their columns, numbers of four bytes or strings shorter than 65536; conversion of a constant to the type of its column is not modelled. `BufferTest.TestRow` holds for any coding of the constants.
- Planning.SelectPlanned: the same condition is asked of the scans of every plan that the search may end with (`Planning.OutcomesReadable`; `Planning.Calm` is a condition on the query as written under which it holds). The tables as written have no scan conditions yet. The conditions of a table on its scan and on its index are one list and one buffer here; the source writes two buffers and tests them one after the other (gnusql-0.7b6.0/src/interpr/interpr.c:198 and 213), so that a bound left in the one is not read by columns of the other, and the condition asks more than needed there.
- Segment.Segment.Move: the source keeps the address of the old block's descriptor while it allocates, which can move the page to other storage (gnusql-0.7b6.0/src/other/vmemory.c:1122-1126 with 736 and 997); the model names blocks by their offsets in the page, and an address that became stale does not show.
- Answers.NestedMeans: all evaluations are assumed to succeed (well-typed trees, no division by 0 on any combination of rows); `Interp.QueryRuns` covers failures.
- Cursor.CursorHeader.Fetch: not after SQLCODE 100, where the source reports the error but goes on with whatever lies behind the end of the procedure, and not after a failed fetch.
- Vmemory: joining all pages of a segment, compression, export, import and relocation, several segments and the address cache are not modelled; 16-byte alignment is the largest one assumed, and an address above 2^20 names another segment.
- Vmemory: the order of stores inside one relinking step is not always the source's; the page after the step is.
- Numbers are integers and strings are sequences of characters. Short and floating operands, whose comparison results stay in the operands' representation, are not modelled, nor characters of code 0 inside strings.
- Evaluation with saved results of subtrees, subqueries called from expressions, IN lists and LIKE with three operands inside expressions are not modelled; the escape character is modelled for LIKE itself.
- `<>` is no scan condition, since the extraction of simple predicates skips it (gnusql-0.7b6.0/src/synthes/synlib.c:193).
- Scans deliver the rows of a table in its order that satisfy the condition; index scans, filters and the storage engine below are not modelled apart from the test of a row. Every value in the buffer has its length before it; the engine's stripping of lengths from values of fixed size is not modelled.
- Commands for changing rows, deleting, grouping, sorting, unions and subqueries, single-row SELECT, temporary tables inside joins, and the catalogue are not modelled. Every command has the size its structure has with words of four bytes.
- A table's bit in the masks is its own; the source shares one bit among tables beyond the thirty-first.
- Chunks of module memory come from a growing address with arbitrary gaps.
- In the estimation, selectivities of predicates and row counts are inputs; costs are real numbers. The choice of an index is an input, and how many of its columns take conditions is arbitrary.
- Inference gives an operand without a type the common type but does not descend into it, and the two types of a parameter are not merged; lengths of types are not negative.
- Calls do not time out, sending does not fail, and one service with one table of commands is registered. Encoding and decoding of arguments are the identity on their bytes.
- Writes to the administrator's file succeed. Creation of a transaction's process succeeds, and its end is reported once; signals are not modelled.
