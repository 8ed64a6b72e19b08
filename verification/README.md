# A verified model of cJSON and of the GoAhead run-time

This project models two third-party components of the repository and proves what they are for.

**cJSON and cJSON_Utils** (`third/cjson-code-73`). JSON trees are values (`CJson.Json`). The
printers, the parser, the minifier, JSON Pointer, the structural compare, and the diff and patch
engine are modelled twice: as functions that say what the text or tree is, and as the loops and
in-place buffers of the source, each proved against its function; sorting and editing of child lists are also
modelled on linked nodes. On top of that stand the theorems that relate them to each other.

- *Diff then patch* (`DiffPatch.DiffThenPatch`, `DiffRun.DiffAndPatch`): for two arrays or two
  objects with case-distinct sibling names, the generated patches apply with code 0, and the result
  compares equal to the target **if and only if** no compared array has to lose two or more elements.
  The general result tree is given too: of a surplus, every second element survives
  (`SurplusSurvives`), because removals are emitted at increasing indices. Roots that are not both
  arrays or both objects lead to a patch at the empty path, on which the code dereferences null
  (`RootReplacementFaults`).
- *Diff then patch in place* (`DiffRun.DiffThenPatchInPlace`): the diff sorts the objects it compares,
  so on the tree that was diffed the run ends in a cyclic list **if and only if** some compared object
  does not start with its least name and that member is to be removed or replaced (`InPlace.Snags`).
  Otherwise it does what it does on a copy.
- *What a patch means* (`PatchMeaning.ApplyMeans`): for all five editing operations, the code and the value
  left, in every case: missing fields, sources, parents, positions past the end, values below scalars.
- *What is parsed* (`Grammar.ArrayIff`, `Grammar.ObjectIff`, `Numerals.NumberReads`,
  `RoundTrip.EscapeDecodes`): arrays and objects are read from exactly the texts of their form, numerals and
  escapes as what they stand for.
- *Parse undoes print* and *the two printers agree* (`RoundTrip.ParseUndoesPrint`,
  `PrintBuffered.BothPrinters`, `JsonRun.PrintThenParse`), *minifying undoes formatting*
  (`Minify.MinifyUndoesFormatting`, `JsonRun.PrintThenMinify`), *Get undoes Find*
  (`Pointer.GetUndoesFind`), *Compare decides equality up to member order* (`Compare.CmpIff`).
- *Sorting and editing lists* (`ListSortHeap.SortList`, `ListEdit`): on nodes with `next` and `prev`.
  The sort leaves the new head with the `prev` it had. Detaching a first node leaves the list of the
  others **if and only if** that node's `prev` is not one of them; otherwise a cycle is left
  (`ListEdit.Container.DetachFirst`, `ListEdit.StaleHead`). If the `prev` is in another list, that list
  goes on with the others behind it, so it is as it was exactly when there are no others and the `prev`
  was its last node (`DetachBeside`).
- *Patches with tests* (`PatchRun`, `PatchSafety`, `TestRuns`, `PatchOrder`): the "test" operation sorts
  members of the document in place, so it can leave such a first node behind. A document is therefore its
  tree together with the identity of every node and the `prev` of the first node of every list, and taking
  a first node out can end in damage of three kinds: its own list becomes a cycle (`Loop`), another list
  goes on differently (`Splice`), or freed memory is written (`Freed`). A node that a move has lost without
  freeing it can be written to without harm (`MoveLosesThenRemove`). No node ever occurs twice
  (`NodeIds.RunSound`), and what the marks say of a list is what sorting and detaching its linked nodes do
  (`Links`). Without tests nothing is damaged (`RunWithoutTests`). After a test, removing a
  member of any object at or below the tested node makes its list a cycle **if and only if** the test
  passes and the member has the least name and was not the first (`TestThenRemoveBelow`). A passing test
  is harmless, whatever patch follows, **if and only if** every object at or below the tested node has its
  least name first (`HarmlessIff`), and a run of such tests and any edits damages nothing
  (`CarefulRunIsHarmless`). A run that damages nothing, tests among its patches, computes what it would
  if tests changed nothing (`RunAgrees`).
- *String buffers* (`StringBuffer`, `PrintFits`): the length measured by the parser's first pass is enough
  for the decoded string whenever that pass, for each `\u`, comes to stand exactly behind the four
  characters that follow (`MeasuredCovers`). Text that is decoded and breaks this at some escape has, up to that
  escape, a continuation whose decoded string is longer than the buffer by any amount (`IrregularOverflows`). The
  whole parser stays inside its buffers on text that keeps to it behind every quote, which printed text
  does (`ParserOps.ParseValueAt`, `PrintedAllRegular`, `JsonRun.PrintThenParse`).

**The GoAhead run-time** (`third/goahead-2.5.0`). Each component is a class with the source's fields.

- The block allocator keeps its pool partitioned over every run (`Balloc.Run`).
- The ring queue refines a sequence; the socket layer over it conserves the output stream
  (`SockOut.Run`) and delivers the lines of the stream the network holds, however it arrives
  (`SockIn.LinesDelivered`).
- The request reader calls the handler at most once, and then for the request that the bytes received
  hold: the head is that of the bytes, by a definition of its own (`RequestHead`), and exactly the body it
  announces has been read and joined to the query. Once a whole request has arrived the handler has been
  called, unless only empty lines in front of it have been read so far (`Webs.Serve`).
- The MD5 streaming is that of the padded message for any split (`Md5.DigestOf`), for any
  compression function.
- The symbol table answers every run as a finite map does (`Sym.Run`) and its walk returns every
  symbol once (`Sym.SymTab.Walk`).
- The scheduler is fair within a bound (`Fairness.Fair`), and without that bound a due callback can
  be passed over for ever (`Fairness.Starves`).
- The calendar functions are a bijection between dates and day numbers; the year is recovered for
  every day from year 1 on, and exactly which earlier days go wrong is stated
  (`Calendar.YearFromFixedIff`).

## Conventions

`send`, `recv` and `malloc` are modelled by their answers: a sequence of arbitrary answers that a run
consumes, or an argument. The clock is an argument. Strings are sequences of characters without NUL
where the source has C strings; a character of a JSON string stands for one byte. A run in which the
code would dereference null is the outcome `Crash`, `Fault` or `Faulted`. Asserts of the run-time compile to
nothing; they are preconditions here only where the code has no other behaviour to offer. Integers
are unbounded unless a width matters, which is then written out (`Sym.Hash`, `Md5`, `Bits`).

Where code and comment disagree the model follows the code: the increment of the ring queue is said
to double and quadruples (`Ringq.IncrementQuadruples`); delays are said to be rounded up and are
rounded to the nearest second (`Sched.SecondsRounds`). The buffered object printer reuses its start
offset as a loop counter, so for a nested formatted object it returns a pointer into the middle of the
buffer; callers only use that of the outermost value, which is right (`PrintBuffer.PrintValue`).

## Model

| member | source | states |
|---|---|---|
| `CString.CmpTrichotomy` | third/cjson-code-73/cJSON_Utils.c:7-12 | the case-insensitive comparison is 0 exactly for strings equal after folding, and antisymmetric |
| `CString.LessTransitive` | third/cjson-code-73/cJSON.c:53-58 | it is transitive, so it orders names |
| `CString.FirstDifference` | third/cjson-code-73/cJSON_Utils.c:10-11 | the first position at which the folded strings differ decides, and how |
| `CString.ToLowerIs` | third/cjson-code-73/cJSON_Utils.c:10-11 | folding changes exactly the 26 upper-case letters, each to its lower case |
| `CString.ScanDecimal` | third/cjson-code-73/cJSON_Utils.c:78 | scanning digits reads back a printed number and stops behind it |
| `CString.ScanValue` | third/cjson-code-73/cJSON_Utils.c:78 | any digits, leading zeros included, are read to their end as the number they stand for |
| `ListSort.SortPermutes` | third/cjson-code-73/cJSON_Utils.c:302-338 | the merge sort, with its shortcut for ascending lists, returns a permutation |
| `ListSort.SortOrders` | third/cjson-code-73/cJSON_Utils.c:302-338 | the result is non-decreasing under the folded name order |
| `ListSort.MergeOrdered` | third/cjson-code-73/cJSON_Utils.c:319-335 | merging two ordered lists gives an ordered list |
| `ListSort.SortMap` | third/cjson-code-73/cJSON_Utils.c:302-338 | the order in which entries come out depends only on their names |
| `ListSort.TiesSwap` | third/cjson-code-73/cJSON_Utils.c:319-325 | two entries of the same name change places: the sort is not stable |
| `ListSortHeap.IsAscending` | third/cjson-code-73/cJSON_Utils.c:308-309 | the early test accepts exactly the strictly ascending lists |
| `ListSortHeap.FindMiddle` | third/cjson-code-73/cJSON_Utils.c:310-312 | the two-pointer walk stops at the middle node |
| `ListSortHeap.Split` | third/cjson-code-73/cJSON_Utils.c:312-313 | the chain is cut into two null-terminated chains of its halves |
| `ListSortHeap.MergeLists` | third/cjson-code-73/cJSON_Utils.c:317-337 | relinking the nodes of two chains gives the chain of their merge, with every non-head `prev` right |
| `ListSortHeap.SortList` | third/cjson-code-73/cJSON_Utils.c:302-338 | the returned chain consists of the same nodes in sorted order, null-terminated, every non-head `prev` its predecessor and the head's `prev` as it was |
| `ListEdit.Container.Item` | third/cjson-code-73/cJSON.c:676 | the walk to a position, negative positions counting as 0 |
| `ListEdit.Container.AddItemToArray` | third/cjson-code-73/cJSON.c:685 | hangs the node behind the last one with the `next` it has; the first node keeps its `prev` |
| `ListEdit.Container.DetachItemFromArray` | third/cjson-code-73/cJSON.c:691-692 | a node behind the first, or a first node whose `prev` is null or no node of the list, leaves the list of the others; a `prev` outside gets the second node as its `next`; a first node whose `prev` is a later node leaves a cycle |
| `ListEdit.Container.DetachItemFromObject` | third/cjson-code-73/cJSON.c:694 | the same for the first node of a name |
| `ListEdit.Container.DetachFirst` | third/cjson-code-73/cJSON.c:691-692 | detaching the first node leaves the list of the others exactly when its `prev` is not one of them, and otherwise no list of any nodes |
| `ListEdit.Container.DetachBeside` | third/cjson-code-73/cJSON.c:691-692 | when the `prev` is in another list, that list goes on with the others behind it, and is as it was exactly when there are none and the `prev` was its last |
| `ListEdit.Container.MoveOntoFirst` | third/cjson-code-73/cJSON.c:685-692 | when the `prev` is the node then appended, the others and that node form a cycle |
| `ListEdit.Container.InsertItemInArray` | third/cjson-code-73/cJSON.c:698-699 | the list with the node at its position; the first node has the `prev` the first one had |
| `ListEdit.Container.SortObject` | third/cjson-code-73/cJSON_Utils.c:340 | after a sort the first node has no `prev` exactly when the first had none and stayed first |
| `ListEdit.CycleIsNoList` | third/cjson-code-73/cJSON.c:691-692 | a cycle is no null-terminated chain |
| `ListEdit.StaleHead` | third/cjson-code-73/cJSON_Utils.c:323-332 | two nodes sorted and the first detached: what is left points to itself |
| `CJson.FindMemberByKey` | third/cjson-code-73/cJSON.c:677 | look-up by name finds the entry of the object's map from folded names, and nothing else |
| `CJson.SortMembersProps` | third/cjson-code-73/cJSON_Utils.c:340 | sorting an object's members changes neither the map it stands for nor the distinctness of its names |
| `CJson.AbsPermutation` | third/cjson-code-73/cJSON_Utils.c:340 | any permutation of distinct members stands for the same map |
| `CJson.AbsRemoveMember` | third/cjson-code-73/cJSON.c:694-695 | what detaching by name means: exactly that key goes (the links are `ListEdit.Container.DetachItemFromObject`) |
| `CJson.AbsAppendMember` | third/cjson-code-73/cJSON.c:686 | what adding a new name means: exactly that key is set (the links are `ListEdit.Container.AddItemToArray`) |
| `Pointer.MatchesEncoded` | third/cjson-code-73/cJSON_Utils.c:15-24 | a name matches an escaped segment exactly when it equals the unescaped name up to case |
| `Pointer.DecodeEncode` | third/cjson-code-73/cJSON_Utils.c:26-37 | unescaping undoes escaping, for any mix of tildes and slashes, and escaped text has no slash |
| `Pointer.FirstMatchIsFind` | third/cjson-code-73/cJSON_Utils.c:84 | the member found by an escaped segment is the one found by name |
| `Pointer.GetResolves` | third/cjson-code-73/cJSON_Utils.c:72-90 | following the text of a path leads to the node the path resolves to |
| `Pointer.GetUndoesFind` | third/cjson-code-73/cJSON_Utils.c:39-90 | the pointer built for any node leads back to that very node |
| `Pointer.GetExactly` | third/cjson-code-73/cJSON_Utils.c:72-90 | a path of positions in arrays and names in objects leads to its node, and to none when there is none |
| `Pointer.Tildes` | third/cjson-code-73/cJSON_Utils.c:15-37 | what a tilde and the character behind it mean to the decoder and to the comparison, which disagree on other characters than 0 and 1 |
| `PointerOps.Pstrcasecmp` | third/cjson-code-73/cJSON_Utils.c:15-24 | the loop returns 0 exactly when the name matches the segment |
| `PointerOps.PointerEncodedStrlen` | third/cjson-code-73/cJSON_Utils.c:26 | the length of the escaped name |
| `PointerOps.PointerEncodedStrcpy` | third/cjson-code-73/cJSON_Utils.c:28-37 | writes the escaped name and its terminator and touches nothing else |
| `PointerOps.FieldPath` | third/cjson-code-73/cJSON_Utils.c:59-63 | the computed buffer holds the segment, what follows it and the terminator, with no byte to spare |
| `PointerOps.FindSegment` | third/cjson-code-73/cJSON_Utils.c:84 | the search among members finds the first that matches the segment |
| `PointerOps.InplaceDecode` | third/cjson-code-73/cJSON_Utils.c:93-98 | unescapes in the same buffer, the write position never ahead of the read position |
| `PointerOps.FindPointer` | third/cjson-code-73/cJSON_Utils.c:39-70 | a pointer is returned exactly when the target is in the tree below the node, and it is the target's path |
| `PointerOps.GetPointer` | third/cjson-code-73/cJSON_Utils.c:72-90 | the loop finds the node the recursive definition names, or none |
| `Compare.CmpIff` | third/cjson-code-73/cJSON_Utils.c:115-140 | compare is 0 exactly for trees equal up to member order and case of names |
| `Compare.CmpItemsIff` | third/cjson-code-73/cJSON_Utils.c:122-123 | arrays compare equal exactly position by position |
| `Compare.CmpMembersIff` | third/cjson-code-73/cJSON_Utils.c:124-135 | sorted members compare equal exactly when the maps are equal |
| `Compare.CmpScalars` | third/cjson-code-73/cJSON_Utils.c:117-121 | the code for different types, numbers and strings, and that nothing is changed |
| `Compare.CmpArrays` | third/cjson-code-73/cJSON_Utils.c:122-123 | for arrays the code is that of the first items that differ, or the one for the length |
| `Compare.CmpObjects` | third/cjson-code-73/cJSON_Utils.c:124-135 | for objects the code is that of the first sorted members that differ: another name, another value, or a member too many |
| `Compare.ReorderedSame` | third/cjson-code-73/cJSON_Utils.c:125-126 | trees that differ by member order only stand for the same value |
| `Compare.CompareTrees` | third/cjson-code-73/cJSON_Utils.c:115-140 | the code returned, the exact tree the first argument becomes, and that the second changes only in member order |
| `Compare.CompareItems` | third/cjson-code-73/cJSON_Utils.c:122-123 | the array loop, with the same effect up to the first mismatch |
| `Compare.CompareMembers` | third/cjson-code-73/cJSON_Utils.c:127-135 | the member loop, with the same effect up to the first mismatch |
| `Compare.SweptReordered` | third/cjson-code-73/cJSON_Utils.c:125-126 | what a comparison makes of its first tree differs from it only in member order |
| `Compare.SweptArrays` | third/cjson-code-73/cJSON_Utils.c:122-123 | compared items are left as their own comparison leaves them, the others as they were |
| `Compare.SweptObjects` | third/cjson-code-73/cJSON_Utils.c:125-135 | a compared object is left with its members sorted; values up to the first mismatch are swept and the others untouched |
| `Patch.GetValid` | third/cjson-code-73/cJSON_Utils.c:72-90 | a found location lies in the tree |
| `Patch.AtoiReads` | third/cjson-code-73/cJSON_Utils.c:193 | white space, a sign and digits are read as the number they stand for, anything else as 0 |
| `Patch.LastSlash` | third/cjson-code-73/cJSON_Utils.c:184 | the last slash, -1 when there is none |
| `Patch.InsertedAt` | third/cjson-code-73/cJSON.c:698-699 | the value stands at the position, or at the end when the list is shorter, and the others around it in order |
| `PatchMeaning.ApplyMeans` | third/cjson-code-73/cJSON_Utils.c:142-202 | each of the five editing operations returns exactly the code and leaves exactly the value its request means, for every document and every path of positions and names: what is missing is reported, a value once taken out stays out |
| `PatchMeaning.DetachMeans` | third/cjson-code-73/cJSON_Utils.c:101-113 | taking out what a path names: found exactly when it is there, and exactly that goes |
| `PatchMeaning.AddMeans` | third/cjson-code-73/cJSON_Utils.c:182-201 | adding at a path: 9 without a parent; a position, the end of an array, a name; nothing below a scalar |
| `PatchMeaning.Malformed` | third/cjson-code-73/cJSON_Utils.c:146-156 | 2 without an operation or a path, 3 for an unknown operation, the document untouched |
| `PatchCanon.FieldsOf` | third/cjson-code-73/cJSON_Utils.c:218-232 | the generated object has the operation, escaped path and value that ApplyPatch looks up |
| `PatchCanon.SplitPathText` | third/cjson-code-73/cJSON_Utils.c:104-106 | splitting at the last slash and unescaping gives back parent and child |
| `PatchCanon.ResolveAbs` | third/cjson-code-73/cJSON_Utils.c:72-90 | a path resolves in a tree exactly when it exists in the tree's canonical form, to the same subtree |
| `PatchCanon.PutAbs` | third/cjson-code-73/cJSON_Utils.c:182-199 | replacing the subtree at a path commutes with taking the canonical form |
| `PatchCanon.ReplaceChild` | third/cjson-code-73/cJSON_Utils.c:158-199 | detaching a child and adding another under its segment sets exactly that child |
| `PatchCanon.ApplySimulates` | third/cjson-code-73/cJSON_Utils.c:142-202 | applying a generated patch returns 0 and has on the canonical form the effect of its edit |
| `Diff.RemoveLeads` | third/cjson-code-73/cJSON_Utils.c:258 | removals at increasing indices keep every second surplus element |
| `Diff.AppendLeads` | third/cjson-code-73/cJSON_Utils.c:259 | the additions append the missing elements |
| `Diff.ItemsLead` | third/cjson-code-73/cJSON_Utils.c:252-262 | what the array part of a diff turns the array into |
| `Diff.MembersLead` | third/cjson-code-73/cJSON_Utils.c:264-287 | what the object part turns the object into |
| `Diff.DiffLeads` | third/cjson-code-73/cJSON_Utils.c:236-291 | for any surrounding tree, every emitted operation finds its target and together they turn the node into the patched one |
| `DiffPatch.DiffGood` | third/cjson-code-73/cJSON_Utils.c:236-291 | every emitted operation is one the patch engine handles |
| `DiffPatch.ApplyAllSimulates` | third/cjson-code-73/cJSON_Utils.c:205-216 | applying a list of generated patches runs the edits in order |
| `DiffPatch.PatchedIff` | third/cjson-code-73/cJSON_Utils.c:252-262 | the patched value is the target exactly when no array is to lose two or more elements |
| `DiffPatch.DiffThenPatch` | third/cjson-code-73/cJSON_Utils.c:142-299 | diff then patch: code 0, the exact resulting value, and equal to the target if and only if no compared array is to lose two or more elements |
| `DiffPatch.RootReplacementFaults` | third/cjson-code-73/cJSON_Utils.c:104-106 | roots of other kinds: nothing to do when equal, a null dereference otherwise |
| `DiffPatch.SurplusSurvives` | third/cjson-code-73/cJSON_Utils.c:258 | emptying an array leaves half of it |
| `DiffPatch.TwoSurplusCounterexample` | third/cjson-code-73/cJSON_Utils.c:258 | the smallest input whose patched result is not the target |
| `PatchOps.Document.Detach` | third/cjson-code-73/cJSON_Utils.c:100-113 | the node taken out, the tree left and the nodes and links left |
| `PatchOps.Document.Add` | third/cjson-code-73/cJSON_Utils.c:182-201 | the code, the tree and the nodes and links; adding to an object first deletes the member of that name |
| `PatchOps.Document.Test` | third/cjson-code-73/cJSON_Utils.c:155 | the code of the comparison, the exact tree with its sorted members, and the `prev` the sorting leaves at each first node |
| `PatchOps.Document.ApplyEdit` | third/cjson-code-73/cJSON_Utils.c:146-201 | every return code, tree, nodes and links of the operations other than test |
| `PatchOps.Document.ApplyPatch` | third/cjson-code-73/cJSON_Utils.c:142-202 | the same for every operation that neither faults nor damages a list |
| `PatchOps.Document.ApplyPatches` | third/cjson-code-73/cJSON_Utils.c:205-216 | patches in order, tests among them, stopping at the first code that is not 0, for every run that neither faults nor damages a list |
| `PatchOps.DetachFrom` | third/cjson-code-73/cJSON.c:691-694 | the position and name walks of detach find the child the specification takes |
| `PatchOps.AddTo` | third/cjson-code-73/cJSON_Utils.c:190-199 | the insertion walks put the value where the specification does |
| `PatchOps.LastSegment` | third/cjson-code-73/cJSON_Utils.c:104-106 | the last segment, unescaped in its own copy |
| `Marks.OrderOf` | third/cjson-code-73/cJSON_Utils.c:302-338 | entries of the same names are sorted by one order |
| `Marks.HeadStays` | third/cjson-code-73/cJSON_Utils.c:323-332 | on linked nodes the first node stays first exactly when that order starts with position 0 |
| `Marks.HeadStaysIff` | third/cjson-code-73/cJSON_Utils.c:323-332 | with distinct names: exactly when the first name is the least |
| `Marks.SweptFits` | third/cjson-code-73/cJSON_Utils.c:115-140 | the marks after a comparison belong to the tree after it |
| `PatchRun.DetachFits` | third/cjson-code-73/cJSON_Utils.c:100-113 | the marks after a detach belong to the tree left and to the node taken |
| `PatchRun.EditFits` | third/cjson-code-73/cJSON_Utils.c:142-202 | the same for every edit |
| `NodeIds.RunSound` | third/cjson-code-73/cJSON_Utils.c:205-216 | over every run no node occurs twice, be it lost or not, and no `prev` names a node still to be made, so where a node is, is definite |
| `NodeIds.MoveLoses` | third/cjson-code-73/cJSON_Utils.c:185-201 | a move below a node that is no container returns 0 and loses the node moved without freeing it |
| `NodeIds.MoveLosesThenRemove` | third/cjson-code-73/cJSON_Utils.c:185-201 | a first node that points back to a node so lost can be taken out without damage |
| `NodeIds.RemoveThenRemove` | third/cjson-code-73/cJSON_Utils.c:158-162 | when the node that a first node points back to has been removed, taking the first node out writes to freed memory |
| `Links.DetachFromArray` | third/cjson-code-73/cJSON.c:691-692 | on linked nodes a detach leaves a cycle exactly when the marks say `Loop`, and otherwise the list and the `prev` that `PatchRun.Without` gives |
| `Links.DetachFromObject` | third/cjson-code-73/cJSON.c:694 | the same by name |
| `Links.SortObject` | third/cjson-code-73/cJSON_Utils.c:340 | on linked nodes a sort gives the order and the `prev` of the first node that the marks of a comparison give |
| `Links.BesideHarm` | third/cjson-code-73/cJSON.c:691-692 | a `prev` in another list of the document is harmless by the marks exactly when there are no others and it is the last of that list |
| `Links.DetachBeside` | third/cjson-code-73/cJSON.c:691-692 | which is exactly when the detach leaves the links of that list as they were |
| `PatchSafety.EditErases` | third/cjson-code-73/cJSON_Utils.c:142-202 | an edit that damages nothing has the code and tree of the specification without links |
| `PatchSafety.RunWithoutTests` | third/cjson-code-73/cJSON_Utils.c:205-216 | without tests a run on a document without such first nodes damages nothing and is the run of that specification |
| `PatchSafety.RunErases` | third/cjson-code-73/cJSON_Utils.c:205-216 | without tests any run that damages nothing is the run of that specification |
| `PatchSafety.TestReorders` | third/cjson-code-73/cJSON_Utils.c:155 | a test changes only the order of members below its path, and not the document's value |
| `PatchSafety.SweptClear` | third/cjson-code-73/cJSON_Utils.c:155 | testing a node whose objects all have their least name first leaves every first node without a `prev` |
| `PatchSafety.TestThenRemove` | third/cjson-code-73/cJSON_Utils.c:155-161 | after a test of an object, passing or not, removing one of its members makes the list a cycle exactly when the test's value is an object and sorting has brought the member to the front, and does no other damage |
| `PatchSafety.TestThenRemoveExample` | third/cjson-code-73/cJSON_Utils.c:155-161 | the smallest run that ends in a cycle |
| `TestRuns.SweptResolve` | third/cjson-code-73/cJSON_Utils.c:115-140 | after a comparison that ends with 0 the path to a node still leads to it, and its lists are those a comparison of the node itself leaves |
| `TestRuns.TestThenRemoveBelow` | third/cjson-code-73/cJSON_Utils.c:142-161 | as a run of two patches: removing a member of any object at or below the tested node makes its list a cycle exactly when the test passes and sorting brings the member to the front |
| `TestRuns.HarmlessIff` | third/cjson-code-73/cJSON_Utils.c:142-216 | a passing test is harmless whatever patch comes next exactly when every object at or below the tested node has its least name first |
| `TestRuns.CarefulRunIsHarmless` | third/cjson-code-73/cJSON_Utils.c:205-216 | runs whose tests are all about such nodes damage nothing, whatever the edits between them |
| `TestRuns.MoveThenRemove` | third/cjson-code-73/cJSON_Utils.c:158-199 | once the neighbour a first node points back to has been moved to the end of an array, taking out that node when it is alone in its list damages nothing |
| `PatchOrder.GetSame` | third/cjson-code-73/cJSON_Utils.c:72-90 | a pointer finds nodes of the same value in trees of the same value |
| `PatchOrder.ApplySame` | third/cjson-code-73/cJSON_Utils.c:142-202 | every edit takes documents of the same value to documents of the same value, with the same code |
| `PatchOrder.CmpSame` | third/cjson-code-73/cJSON_Utils.c:115-140 | the comparison's code depends only on the value of its first tree |
| `PatchOrder.RunAgrees` | third/cjson-code-73/cJSON_Utils.c:205-216 | a run that damages nothing, tests among its patches, returns the code and leaves the value of the run in which tests change nothing |
| `DiffGen.CompareToPatch` | third/cjson-code-73/cJSON_Utils.c:236-291 | appends exactly the patches of the diff; the exact tree the first argument becomes, and that the second changes only in member order |
| `DiffGen.CompareItemsToPatch` | third/cjson-code-73/cJSON_Utils.c:252-262 | the array branch, with the same effect |
| `DiffGen.CompareMembersToPatch` | third/cjson-code-73/cJSON_Utils.c:264-287 | the object branch, with the same effect |
| `DiffGen.GeneratePatches` | third/cjson-code-73/cJSON_Utils.c:294-299 | the patch array of two trees, and the trees as they are left |
| `DiffRun.RenderedUsable` | third/cjson-code-73/cJSON_Utils.c:218-232 | every generated patch is well formed and can be applied |
| `DiffRun.DiffAndPatch` | third/cjson-code-73/cJSON_Utils.c:205-299 | generating patches and applying them to a copy made before: code 0, and compare-equal to the target if and only if no compared array is to lose two or more elements |
| `DiffSweep.DiffSweptReordered` | third/cjson-code-73/cJSON_Utils.c:264-271 | what a diff makes of its first tree differs from it only in member order |
| `DiffSweep.DiffMarksFit` | third/cjson-code-73/cJSON_Utils.c:264-271 | the nodes and links after a diff belong to the tree after it |
| `EditAt.RemoveAtNode` | third/cjson-code-73/cJSON_Utils.c:158-161 | a generated removal, seen from the container: the child is gone and nothing else changes, or the list becomes a cycle |
| `EditAt.AddAtNode` | third/cjson-code-73/cJSON_Utils.c:182-199 | the same for a generated addition of a new child |
| `EditAt.ReplaceAtNode` | third/cjson-code-73/cJSON_Utils.c:158-199 | the same for a generated replacement, which takes the old child out first |
| `InPlace.ItemsRun` | third/cjson-code-73/cJSON_Utils.c:252-262 | the patches of two arrays, on the array that was diffed: a cycle exactly when a compared pair of elements leads to one, and otherwise changes inside that array only |
| `InPlace.MembersRun` | third/cjson-code-73/cJSON_Utils.c:264-287 | the same for two objects whose first node can be taken out safely |
| `InPlace.SnagRun` | third/cjson-code-73/cJSON_Utils.c:264-287 | the same for two objects whose first node cannot: a cycle also when that member is to be removed or replaced |
| `DiffRun.DiffThenPatchInPlace` | third/cjson-code-73/cJSON_Utils.c:142-299 | patching the tree that was diffed: a cyclic list if and only if some compared object does not start with its least name and that member is removed or replaced; otherwise code 0 and the result of patching a copy |
| `DiffRun.LeastFirstNeverSnags` | third/cjson-code-73/cJSON_Utils.c:264-287 | trees whose objects start with their least names can be patched where they are |
| `DiffRun.InPlaceCounterexample` | third/cjson-code-73/cJSON_Utils.c:264-287 | the smallest pair of trees for which the run ends in a cycle |
| `DiffRun.DiffAndPatchInPlace` | third/cjson-code-73/cJSON_Utils.c:205-299 | the two calls on one tree, when the condition does not hold: code 0 and the same if and only if as on a copy |
| `JsonText.TextNulFree` | third/cjson-code-73/cJSON.c:266-321 | printed text holds no terminator of its own |
| `JsonText.EscapeIs` | third/cjson-code-73/cJSON.c:292-318 | which characters are escaped and how, all of them |
| `JsonText.ArrayText` | third/cjson-code-73/cJSON.c:448-525 | the items of an array joined by commas, with a space behind each in the formatted layout |
| `JsonText.ObjectText` | third/cjson-code-73/cJSON.c:564-672 | the members of an object joined by commas; formatted, one to a line behind as many tabs as the depth |
| `ParserOps.SkipWhite` | third/cjson-code-73/cJSON.c:334 | the white-space loop |
| `Parser.SkipIs` | third/cjson-code-73/cJSON.c:334 | exactly the characters up to the space that stand in front go |
| `Parser.TrailingText` | third/cjson-code-73/cJSON.c:337-351 | when the terminator is required, a text is accepted exactly if the value in front is and only white space follows |
| `ParserOps.ParseNumberAt` | third/cjson-code-73/cJSON.c:110-129 | the three digit loops read the number the grammar gives |
| `Numerals.NumberReads` | third/cjson-code-73/cJSON.c:110-129 | a numeral with any fraction and exponent is read to its end as the number it stands for, in exact arithmetic |
| `Numerals.TruncIs` | third/cjson-code-73/cJSON.c:126 | the int beside it is that number without its fraction |
| `Grammar.ValueBehind` | third/cjson-code-73/cJSON.c:371-383 | what is left behind a value is the end of the text |
| `Grammar.ArrayIff` | third/cjson-code-73/cJSON.c:420-445 | behind an opening bracket a text is read as an array exactly if it is values with commas between them, white space around each, and the closing bracket |
| `Grammar.ObjectIff` | third/cjson-code-73/cJSON.c:528-561 | the same for members and braces |
| `Grammar.MemberRead` | third/cjson-code-73/cJSON.c:539-553 | a string, a colon and a value, with white space in front of each, are read as a member |
| `Grammar.MemberWritten` | third/cjson-code-73/cJSON.c:539-553 | and every member read is such a text |
| `Grammar.ValueOpens` | third/cjson-code-73/cJSON.c:371-383 | what a value can start with; a string that the text ends in needs no closing quote |
| `Grammar.SimpleEscape` | third/cjson-code-73/cJSON.c:221-253 | what a backslash and one character stand for, for every character but u |
| `ParserOps.ParseArrayLoop` | third/cjson-code-73/cJSON.c:420-445 | the comma loop builds the items the grammar gives, and stays inside its string buffers on regular text |
| `ParserOps.ParseMemberAt` | third/cjson-code-73/cJSON.c:539-544 | a name, a colon and a value, with the same about buffers |
| `ParserOps.ParseObjectLoop` | third/cjson-code-73/cJSON.c:528-561 | the comma loop builds the members the grammar gives, and stays inside its string buffers on regular text |
| `ParserOps.ParseValueAt` | third/cjson-code-73/cJSON.c:371-383 | the dispatcher returns the value and the text behind it; no string outgrows its buffer if the first pass is right behind every quote |
| `RoundTrip.StringRoundTrip` | third/cjson-code-73/cJSON.c:206-321 | parsing a printed string gives it back and stops behind the quote |
| `RoundTrip.NumberRoundTrip` | third/cjson-code-73/cJSON.c:110-129 | parsing a printed integer gives it back |
| `RoundTrip.ArrayRoundTrip` | third/cjson-code-73/cJSON.c:420-525 | the same for arrays, in both layouts |
| `RoundTrip.ObjectRoundTrip` | third/cjson-code-73/cJSON.c:528-672 | the same for objects, in both layouts |
| `RoundTrip.ValueRoundTrip` | third/cjson-code-73/cJSON.c:371-417 | parsing a printed tree followed by a delimiter gives the tree and the rest, at any depth and in both layouts |
| `RoundTrip.ParseUndoesPrint` | third/cjson-code-73/cJSON.c:337-357 | parsing the printed text of a tree consumes all of it and returns the tree |
| `RoundTrip.EscapeDecodes` | third/cjson-code-73/cJSON.c:230-250 | every escape of a Unicode scalar value but NUL, in digits of either case, surrogate pairs included, decodes to its UTF-8 bytes |
| `RoundTrip.Utf8RoundTrip` | third/cjson-code-73/cJSON.c:243-250 | those bytes decode, by section 3 of RFC 3629, to the code point |
| `RoundTrip.Hex4RoundTrip` | third/cjson-code-73/cJSON.c:191-202 | four hexadecimal digits in any mix of cases read as the number they spell |
| `RoundTrip.HexValIs` | third/cjson-code-73/cJSON.c:191-202 | a character has the value d exactly when it is digit d, in lower or upper case, and none otherwise |
| `RoundTrip.UnitDropped` | third/cjson-code-73/cJSON.c:230-234 | an escape of NUL, of the second half of a pair, or without four digits gives nothing |
| `RoundTrip.HighDropped` | third/cjson-code-73/cJSON.c:236-238 | nor does the first half of a pair with no escape behind it |
| `RoundTrip.PairDropped` | third/cjson-code-73/cJSON.c:236-240 | nor do both when the second is not the second half of a pair |
| `Utf8Ops.ContinuationIs` | third/cjson-code-73/cJSON.c:246-248 | setting bit 7 and masking with 0xBF gives 0x80 plus the low six bits |
| `Utf8Ops.JoinedIs` | third/cjson-code-73/cJSON.c:240 | the surrogate pair expression is the code point of the pair |
| `Utf8Ops.Utf8CodeIs` | third/cjson-code-73/cJSON.c:243-250 | the masks, shifts and length marks give the UTF-8 bytes of every code point |
| `Utf8Ops.WriteUtf8` | third/cjson-code-73/cJSON.c:243-250 | the bytes are written from the last to the first and nothing else changes |
| `StringBuffer.Measure` | third/cjson-code-73/cJSON.c:211 | the first pass counts one for each character or escape |
| `StringBuffer.CodePoint` | third/cjson-code-73/cJSON.c:230-241 | the code point of an escape or pair, or none for an invalid one, and its length |
| `StringBuffer.MeasuredCovers` | third/cjson-code-73/cJSON.c:211-213 | the measured length is enough when the first pass, started behind each `\u`, stands exactly behind the next four characters |
| `StringBuffer.IrregularOverflows` | third/cjson-code-73/cJSON.c:211-213 | otherwise text that is decoded has, up to that escape, a continuation whose decoded string exceeds its buffer by any given amount |
| `StringBuffer.MeasuredTooShort` | third/cjson-code-73/cJSON.c:211-213 | the smallest such text: the decoder jumps over the quote at which the first pass stopped |
| `PrintFits.PrintedAllRegular` | third/cjson-code-73/cJSON.c:298-319 | the text of every printable tree keeps to that condition behind each of its quotes, in both layouts |
| `StringBuffer.ParseStringAt` | third/cjson-code-73/cJSON.c:206-263 | the parsed string is left in the measured buffer with its terminator, exactly unless it is longer than was measured |
| `Minify.MinifyText` | third/cjson-code-73/cJSON.c:749-764 | minifying formatted text in front of anything gives the unformatted text and then the minified rest |
| `Minify.MinifyUndoesFormatting` | third/cjson-code-73/cJSON.c:356-357 | minifying the formatted print of any tree gives its unformatted print |
| `Minify.MinifyChar` | third/cjson-code-73/cJSON.c:754-761 | outside literals and comments space, tab, carriage return and newline go and every other character stays |
| `Minify.MinifyLineComment` | third/cjson-code-73/cJSON.c:758 | a comment of two slashes goes up to its newline or the end of the text |
| `Minify.MinifyBlockComment` | third/cjson-code-73/cJSON.c:759 | the other kind goes up to the first star and slash, which may share the star it begins with; one never closed has no end |
| `Minify.MinifyAnyLiteral` | third/cjson-code-73/cJSON.c:760 | any literal stays as it is, whatever it holds; one never closed has no end |
| `Minify.CopyLiteral` | third/cjson-code-73/cJSON.c:760 | a string literal is copied byte for byte |
| `Minify.MinifyInPlace` | third/cjson-code-73/cJSON.c:749-764 | the pass over the buffer leaves the minified text and its terminator, never writing ahead of reading |
| `Bits.Pow2gtIsLeast` | third/cjson-code-73/cJSON.c:131 | the bit smearing gives the least power of two not below its argument |
| `PrintAlloc.PrintString` | third/cjson-code-73/cJSON.c:266-321 | the measured buffer holds exactly the quoted string |
| `PrintAlloc.WriteString` | third/cjson-code-73/cJSON.c:275-320 | the quoting and escaping loops write exactly the quoted string behind what the buffer holds |
| `PrintAlloc.PrintValue` | third/cjson-code-73/cJSON.c:386-417 | a fresh buffer holds exactly the text of the tree |
| `PrintAlloc.PrintArray` | third/cjson-code-73/cJSON.c:448-525 | the same for arrays: the length added up is enough for everything written |
| `PrintAlloc.PrintObject` | third/cjson-code-73/cJSON.c:564-672 | the same for objects |
| `PrintAlloc.ItemsFit` | third/cjson-code-73/cJSON.c:490-500 | the length reserved for items covers their text |
| `PrintAlloc.MembersFit` | third/cjson-code-73/cJSON.c:633-643 | the length reserved for members covers their text |
| `PrintBuffered.PrintBuffer.Ensure` | third/cjson-code-73/cJSON.c:135-150 | the requested room is there and nothing written before is lost |
| `PrintBuffered.PrintBuffer.Update` | third/cjson-code-73/cJSON.c:152-158 | the offset moves to the terminator |
| `PrintBuffered.PrintBuffer.PrintValue` | third/cjson-code-73/cJSON.c:386-417 | the text of the tree is appended behind the offset, every write inside the room reserved |
| `PrintBuffered.PrintBuffer.PrintString` | third/cjson-code-73/cJSON.c:266-321 | the same for strings, by the same loops |
| `PrintBuffered.PrintBuffer.PrintArray` | third/cjson-code-73/cJSON.c:456-482 | the same for arrays |
| `PrintBuffered.PrintBuffer.PrintObject` | third/cjson-code-73/cJSON.c:584-621 | the same for objects |
| `PrintBuffered.PrintBuffered` | third/cjson-code-73/cJSON.c:359-367 | the buffer holds the text of the tree from its start, for any starting size |
| `PrintBuffered.BothPrinters` | third/cjson-code-73/cJSON.c:356-417 | both printers produce the same text |
| `JsonRun.ParseWithOpts` | third/cjson-code-73/cJSON.c:337-351 | the value and the end of its text, or failure on trailing text when that is asked for, inside the buffers on regular text |
| `JsonRun.PrintThenParse` | third/cjson-code-73/cJSON.c:337-417 | printing with either printer and parsing returns the tree, and the parser stays inside every string buffer |
| `JsonRun.PrintThenMinify` | third/cjson-code-73/cJSON.c:356-764 | minifying the formatted print in its buffer leaves the unformatted print |
| `Balloc.FlagTests` | third/goahead-2.5.0/balloc.c:377-392 | the integrity mask accepts exactly the flags of blocks handed out, the malloc bit exactly those from the system |
| `Balloc.GetSize` | third/goahead-2.5.0/balloc.c:501-512 | the class of a request, and the bytes of its blocks: room for the request and the header, less than twice the request above the least size |
| `Balloc.ClassIsLeast` | third/goahead-2.5.0/balloc.c:503-512 | the class is the least whose payload is large enough |
| `Balloc.ClassOfPayload` | third/goahead-2.5.0/balloc.c:381 | the class recomputed from a payload size is the class it was allocated for |
| `Balloc.Allocator.constructor` | third/goahead-2.5.0/balloc.c:137-188 | an empty pool and empty queues |
| `Balloc.Allocator.Balloc` | third/goahead-2.5.0/balloc.c:212-356 | which block is returned and every change it makes: queue first, then pool, then malloc; large enough, and not one in use |
| `Balloc.Allocator.Bfree` | third/goahead-2.5.0/balloc.c:365-405 | a block in use goes to the front of its own class queue or back to the system; a block still queued is left alone |
| `Balloc.Allocator.Queue` | third/goahead-2.5.0/balloc.c:381 | the queue computed at free is that of the class at allocation |
| `Balloc.Allocator.Brealloc` | third/goahead-2.5.0/balloc.c:470-493 | in place when it fits; otherwise a new block, the old one freed only on success |
| `Balloc.Allocator.Partition` | third/goahead-2.5.0/balloc.c:212-405 | in every reachable state a carved block is in use or on exactly one queue, its own, and overlaps no other |
| `Balloc.Run` | third/goahead-2.5.0/balloc.c:212-493 | over every run: carved bytes plus what is left make up the pool, no overlap, every block accounted for; the bytes a client holds meet no other block in use |
| `Ringq.GetBinBlockSize` | third/goahead-2.5.0/ringq.c:572-581 | a power of two strictly above the argument |
| `Ringq.IncrementQuadruples` | third/goahead-2.5.0/ringq.c:560 | growing quadruples the increment |
| `Ringq.Ring.constructor` | third/goahead-2.5.0/ringq.c:79-98 | an empty queue |
| `Ringq.Ring.Contents` | third/goahead-2.5.0/ringq.c:125-135 | the number of bytes queued is the length the queue reports, at most one less than the buffer |
| `Ringq.Ring.Getc` | third/goahead-2.5.0/ringq.c:142-171 | takes the front byte, or -1 |
| `Ringq.Ring.Putc` | third/goahead-2.5.0/ringq.c:179-197 | appends a byte, or -1 exactly when full at the limit |
| `Ringq.Ring.Insertc` | third/goahead-2.5.0/ringq.c:204-221 | puts a byte in front |
| `Ringq.Ring.PutBlk` | third/goahead-2.5.0/ringq.c:346-379 | appends a prefix of the data, all of it unless the limit stops it |
| `Ringq.Ring.GetBlk` | third/goahead-2.5.0/ringq.c:386-417 | takes a prefix of the contents for every wrap position |
| `Ringq.Ring.PutBlkAdj` | third/goahead-2.5.0/ringq.c:462-479 | bytes copied behind the end become contents |
| `Ringq.Ring.GetBlkAdj` | third/goahead-2.5.0/ringq.c:486-503 | bytes copied from the front leave the contents |
| `Ringq.Ring.Flush` | third/goahead-2.5.0/ringq.c:510-520 | empties the queue |
| `Ringq.Ring.Grow` | third/goahead-2.5.0/ringq.c:529-563 | larger with the same contents for every wrap position, refused exactly at the limit |
| `SockOut.OutSocket.DoOutput` | third/goahead-2.5.0/sock.c:470-530 | what send takes, and nothing else, leaves the front of the queue for the sent stream; the result for every answer |
| `SockOut.OutSocket.Send` | third/goahead-2.5.0/sock.c:470-530 | the sent stream grows by exactly the bytes the answer of send takes |
| `SockOut.OutSocket.Flush` | third/goahead-2.5.0/sock.c:272-346 | nothing lost or reordered; the user's event mask survives waiting |
| `SockOut.OutSocket.Write` | third/goahead-2.5.0/sock.c:41-87 | exactly the reported prefix of the data is accepted, in order |
| `SockOut.Run` | third/goahead-2.5.0/sock.c:41-346 | over every run and every behaviour of send: accepted bytes are the sent bytes and then the queued ones |
| `SockIn.ScanIsSplit` | third/goahead-2.5.0/sock.c:236-260 | the line rule byte by byte is splitting at newlines and dropping carriage returns, for lines up to the limit |
| `SockIn.SplitIs` | third/goahead-2.5.0/sock.c:248-256 | the segments hold no newline and give the text back when joined by newlines |
| `SockIn.DropCrIs` | third/goahead-2.5.0/sock.c:258-259 | no carriage return stays and a text without any is unchanged |
| `SockIn.DropCrJoins` | third/goahead-2.5.0/sock.c:258-259 | dropping them piece by piece is dropping them in the whole |
| `SockIn.LongLine` | third/goahead-2.5.0/sock.c:241-247 | a line of 2049 characters is ended by the next character, which is lost |
| `SockIn.InSocket.GetInput` | third/goahead-2.5.0/sockGen.c:407-468 | bytes received and bytes still to come are one stream, of which the next portion is received; nothing only at its end, on an error or when nothing has arrived |
| `SockIn.StreamParts` | third/goahead-2.5.0/sockGen.c:407-468 | a portion taken in part leaves the rest of it in the stream |
| `SockIn.InSocket.Read` | third/goahead-2.5.0/sock.c:124-193 | the bytes returned are the next of the stream the network delivers, fewer than asked for only when the input buffer is then empty; the input buffer never wraps |
| `SockIn.InSocket.Gets` | third/goahead-2.5.0/sock.c:206-264 | the lines returned so far are those of the bytes used so far, however they arrived; -1 only when every byte received has been used |
| `SockIn.ReadLines` | third/goahead-2.5.0/sock.c:206-264 | any number of calls keeps that |
| `SockIn.LinesDelivered` | third/goahead-2.5.0/sock.c:206-264 | in every reachable state the lines are the newline-split of the bytes used, a prefix of the stream the network delivers; after end of file they account for the whole stream, the last line unfinished or not |
| `PostData.AppendPortion` | third/goahead-2.5.0/webs.c:480-523 | joining a portion to the query continues the joining of the body before it |
| `PostData.PostedMore` | third/goahead-2.5.0/webs.c:571-587 | of the lines of a POST without a content length only the last is kept, and only a single one is joined to the query of the URL |
| `PostData.CStrIs` | third/goahead-2.5.0/webs.c:571-587 | a posted text ends in front of its first NUL |
| `RequestHead.HeadStays` | third/goahead-2.5.0/webs.c:384-605 | what follows a head in the byte stream does not change it |
| `RequestHead.HeadEndStays` | third/goahead-2.5.0/webs.c:384-605 | nor where it ends |
| `RequestHead.HeadEndIs` | third/goahead-2.5.0/webs.c:384-605 | the bytes up to the end of the head have a complete head, and no fewer do |
| `RequestHead.ClosesHead` | third/goahead-2.5.0/webs.c:750-755 | an empty line behind a first line and header lines that are not empty completes the head, which ends with that byte |
| `Webs.Webs.GetInput` | third/goahead-2.5.0/webs.c:620-785 | what websGetInput obtains in each state; a return with the head or the body open means that the rest of it has not arrived, but for empty lines in front of a request |
| `Webs.Webs.EndHeader` | third/goahead-2.5.0/webs.c:750-778 | the kind and length of the body and the query are those the parsed head announces |
| `Webs.Webs.Take` | third/goahead-2.5.0/webs.c:384-605 | one turn of the state switch: the first line and the header lines are stored, posted data joined, a rejected first line ends the request |
| `Webs.Webs.ReadEvent` | third/goahead-2.5.0/webs.c:384-605 | one read event ends, keeping the invariant; with the head open every byte received has been read, with the body open part of it is missing |
| `Webs.Webs.IsHandled` | third/goahead-2.5.0/webs.c:384-785 | what the handler is called with for each kind of request, in terms of the bytes received |
| `Webs.Webs.ArrivedIsHandled` | third/goahead-2.5.0/webs.c:384-785 | between events a whole request that has arrived has been handled, but for empty lines in front of it |
| `Webs.Serve` | third/goahead-2.5.0/webs.c:384-785 | for every portioning: the handler is called at most once, for the request the bytes received hold, with the query and exactly the announced body; once a whole request has arrived it has been called, but for empty lines in front of it, each of which ends an event |
| `Md5.CarryAdds` | third/goahead-2.5.0/md5c.c:280-284 | the carry between the two counter words adds modulo 2^64 |
| `Md5.LittlePair` | third/goahead-2.5.0/md5c.c:341-342 | the two words stored are the eight bytes of the length, lowest first |
| `Md5.PaddedIs` | third/goahead-2.5.0/md5c.c:313-342 | the padding byte by byte: the message, one byte 0x80, zeros up to the least multiple of 64 that has room, and the number of bits in the last eight bytes |
| `Md5.Context.constructor` | third/goahead-2.5.0/md5c.c:247-256 | an empty message |
| `Md5.Context.Update` | third/goahead-2.5.0/md5c.c:262-289 | the message fed so far grows by the data, for every alignment |
| `Md5.Context.Final` | third/goahead-2.5.0/md5c.c:291-353 | the state after compressing exactly the padded message (`Md5.PaddedIs`) of sections 3.1 and 3.2 of RFC 1321 |
| `Md5.DigestOf` | third/goahead-2.5.0/md5c.c:247-353 | the digest of any split is that of the concatenation |
| `Sym.HashIndex` | third/goahead-2.5.0/sym.c:410-428 | the loop computes the 32-bit shifted sum and stays inside the table |
| `Sym.HashIs` | third/goahead-2.5.0/sym.c:410-428 | the hash is the sum of the characters, each shifted by seven more bits modulo 24, in 32 bits modulo the table size |
| `Sym.IsPrime` | third/goahead-2.5.0/sym.c:435-448 | trying divisors up to half decides having no divisor |
| `Sym.CalcPrime` | third/goahead-2.5.0/sym.c:455-467 | the largest such number up to the size |
| `Sym.SymTab.constructor` | third/goahead-2.5.0/sym.c:76-113 | an empty table |
| `Sym.SymTab.Lookup` | third/goahead-2.5.0/sym.c:228-253 | the symbol stored under the name, none for the empty name |
| `Sym.SymTab.Enter` | third/goahead-2.5.0/sym.c:263-336 | sets the name and leaves every other |
| `Sym.SymTab.Delete` | third/goahead-2.5.0/sym.c:343-388 | removes the name and leaves every other; -1 exactly when it was not there |
| `Sym.SymTab.First` | third/goahead-2.5.0/sym.c:156-184 | the first of the symbols in chain order, leaving the rest |
| `Sym.SymTab.Next` | third/goahead-2.5.0/sym.c:191-220 | the first of the symbols left, none exactly when none is; after none the walk may only go on if it had come to the end of the last chain |
| `Sym.SymTab.Walk` | third/goahead-2.5.0/sym.c:156-220 | every stored symbol exactly once and nothing else |
| `Sym.FlattenDistinct` | third/goahead-2.5.0/sym.c:156-220 | no name comes twice in the walk, across all chains |
| `Sym.Run` | third/goahead-2.5.0/sym.c:228-388 | every run answers as a finite map does |
| `Handles.HandleMap.Alloc` | third/goahead-2.5.0/h.c:45-100 | the first free handle, from a new chunk when all are used |
| `Handles.HandleMap.Free` | third/goahead-2.5.0/h.c:108-142 | exactly the slot of the handle is cleared, every other is as it was, one less is used, and one past the largest handle in use is returned |
| `Handles.FreedIs` | third/goahead-2.5.0/h.c:108-142 | the slots after a free, slot by slot |
| `Handles.EnteredIs` | third/goahead-2.5.0/h.c:152-188 | the slots after an entry, slot by slot, the table grown by sixteen free ones if it was full |
| `Handles.HandleMap.AllocEntry` | third/goahead-2.5.0/h.c:152-188 | fills the slot and keeps the maximum one past the largest in use |
| `Handles.TopEntered` | third/goahead-2.5.0/h.c:184-186 | raising the maximum only for a handle past it keeps it exact |
| `Handles.TopFreed` | third/goahead-2.5.0/h.c:127-141 | freeing never raises the maximum and keeps every other entry |
| `Sched.SecondsRounds` | third/goahead-2.5.0/websuemf.c:126-129 | the delay becomes the nearest number of seconds, for a negative one as well |
| `Sched.Scheduler.SchedCallback` | third/goahead-2.5.0/websuemf.c:112-132 | the callback is in the slot returned, due at the rounded time |
| `Sched.Scheduler.ReschedCallback` | third/goahead-2.5.0/websuemf.c:139-148 | only the time of that callback changes, to the rounded time; unknown ids do nothing |
| `Sched.Scheduler.UnschedCallback` | third/goahead-2.5.0/websuemf.c:152-162 | the slot of that callback is free and every other is as it was; the maximum is exact again |
| `Sched.SchedKeepsOthers` | third/goahead-2.5.0/websuemf.c:112-132 | scheduling keeps every callback there is |
| `Sched.Scheduler.SchedProcess` | third/goahead-2.5.0/websuemf.c:169-208 | runs at most one callback, the first due in cyclic order from the cursor, and where the cursor ends |
| `Fairness.Drive` | third/goahead-2.5.0/websuemf.c:112-208 | what the scheduler does under any plan of calls is a run in the sense of the theorems |
| `Fairness.RoundAdvances` | third/goahead-2.5.0/websuemf.c:169-208 | a round that passes over a due callback leaves fewer ahead of it, also when the table shrinks |
| `Fairness.RunsInTurn` | third/goahead-2.5.0/websuemf.c:169-208 | a callback that stays due runs once those ahead of it have |
| `Fairness.Fair` | third/goahead-2.5.0/websuemf.c:169-208 | in a table of at most m slots it is run by one of the first m calls, whatever the others do |
| `Fairness.FairWithoutAdditions` | third/goahead-2.5.0/websuemf.c:169-208 | with no additions the present maximum is the bound |
| `Fairness.Starves` | third/goahead-2.5.0/websuemf.c:169-208 | when each callback adds another, runs of every length pass over a due one |
| `Calendar.LeapYearPIff` | third/goahead-2.5.0/webs.c:2755-2774 | the leap test is right except exactly for negative centuries that are not multiples of 400 |
| `Calendar.FixedCounts` | third/goahead-2.5.0/webs.c:2781-2802 | the fixed date counts the days from the first of year 1, year by year and month by month |
| `Calendar.FixedOfNext` | third/goahead-2.5.0/webs.c:2781-2802 | consecutive days get consecutive numbers |
| `Calendar.EveryDayHasADate` | third/goahead-2.5.0/webs.c:2781-2802 | every number from 1 on is the number of a valid date |
| `Calendar.FixedInjective` | third/goahead-2.5.0/webs.c:2781-2802 | and of only one |
| `Calendar.YearFromFixedIff` | third/goahead-2.5.0/webs.c:2809-2829 | the year computed is the year of the day exactly from day 1 on and on the first days of earlier 400-year cycles |
| `Calendar.YearRecovered` | third/goahead-2.5.0/webs.c:2781-2829 | the year of every valid date is recovered, last days of cycles included |
| `Calendar.DayZero` | third/goahead-2.5.0/webs.c:2809-2829 | the day before year 1 is given to year -504 |

## Left out

- Floating point: numbers are printed for integral values only, and the parser's decimal arithmetic is exact.
- RoundTrip.ParseUndoesPrint: for null, booleans, 32-bit integers, NUL-free strings, arrays and objects; fractional numbers depend on printf and rounding.
- Numerals.NumberReads: the doubles and the 32-bit conversion of the source are exact numbers here, and a second leading zero ends a numeral.
- Malformed JSON text that makes the code read past the terminator: the parser model fails there.
- ParserOps.ParseValueAt: where a decoded string outgrows its buffer the source writes behind it; the model says so and goes on with the string.
- Minify.MinifyInPlace: for text in which every string literal ends; otherwise the code runs past the terminator.
- PointerOps.InplaceDecode: for text that does not end in a lone tilde; otherwise the code runs past the terminator.
- PatchOps.Document.Detach: for paths on which the code neither dereferences null nor damages a list; those outcomes are `Faulted` and `Corrupted` of `PatchRun.RemoveStep`, and the run ends there. What is left of a damaged list is stated for linked nodes only.
- PatchMeaning.ApplyMeans: for paths that look up positions in arrays and names in objects up to the parent, and documents whose sibling names differ; what other segments match is `Patch.Apply`.
- PatchOps.Document.Add: for the same paths, by `PatchRun.AddStep`.
- PatchOps.Document.ApplyPatch: for well-formed patches whose outcome by `PatchRun.RunPatch` is neither of the two.
- PointerOps.GetPointer: array indices in the pointer are unbounded integers.
- PatchOps.Document.ApplyPatches: for runs whose outcome by `PatchRun.RunAll` is neither of the two.
- DiffRun.DiffAndPatchInPlace: for trees on which the run does not end in a cycle; that it does on all others is `DiffRun.DiffThenPatchInPlace`.
- PrintBuffered.PrintBuffered: for texts up to 2^30 - 64 characters, beyond which the 32-bit sizes overflow.
- Aliasing of cJSON nodes: trees are values, with an identity for each node and the `prev` of each first node; linked nodes are modelled for sorting and list editing. Names that remain on nodes moved into arrays, reference nodes, constant names, the Create functions and explicit deletion are not modelled.
- Failure of malloc in cJSON and in the handle table.
- Ringq.Ring.Grow: the allocation of the larger buffer succeeds.
- SockOut.OutSocket.Flush: datagram sockets, and a run of send answers that ends counts as an error.
- Socket plumbing: opening, accepting, selecting, closing, SSL.
- Webs.Webs.EndHeader: parsing the request line and headers is an arbitrary function given to the model; CGI bodies are left out.
- Balloc.Allocator.Brealloc: the copy of the payload is not modelled; block contents are abstracted away. Closing and reopening the pool, statistics and verification of filled blocks are left out.
- Md5.Context.Final: the 64 rounds of `_md5_compress` are an arbitrary function; its block input is exact. Clearing the context afterwards is left out.
- Sym.SymTab.Enter: values are integers; freeing of old values and symClose are left out. The word one past the table that the walk reads is a value of its own; looking at what it points to is excluded.
- Handles.HandleMap.Alloc: handles are slots of a sequence; the layout of counts and pointers in one int array is not modelled.
- Sched.Scheduler.SchedProcess: a callback's effect on the scheduler is an arbitrary list of scheduler calls; a callback that calls the scheduler loop itself is not modelled. Times are unbounded integers.
- Calendar.FixedCounts: quotients taken through doubles are exact floor divisions.
- Ejscript, forms, user management, URL and MIME tables, the embedded file system and Windows, VxWorks and UNICODE variants.
