# SimpleTrieSpellChecker in Dafny

A model of the core of SimpleTrieSpellChecker, a C spell checker. The
dictionary is a trie whose branches (`NonLeafNode`) keep a sorted edge set of
letters with a parallel array of child pointers and an `EndOfWord` flag. Its
leaves (`LeafNode`) store the whole remaining suffix of one word, which is path
compression at the last hop. Words are inserted by descending letter by letter. A
descent that lands on a leaf splits it: the shared letters are hoisted into
fresh branches, and the split ends in case A (the new word ends), case B (the
old word ends) or case C (both go on with different letters). Lookup is exact.
Suggestions come from a depth-first walk that may spend one Damerau edit
(insertion, substitution, deletion or adjacent transposition). At a leaf a
tail matcher compares the stored suffix with the rest of the query.

The model, module by module:

- `Common`: `Option` and `Result`. `NullChild` stands for the one failure the
  model keeps, which is dereferencing a null child pointer.
- `TrieNode`: `Node` = `Branch(eow, edges)` | `Leaf(suffix)`. An edge pairs a
  letter with an optional child; a `None` child is a null pointer. `Words(n)`
  is the set of words stored below a node, and `Valid` means every edge set
  is sorted. `Complete` means no edge has a null child.
- `EdgeSet`: `Position`, `AddCell`, `CreateNonLeaf` and `CreateLeaf`.
- `Lookup`: `SearchTrie`.
- `Insertion`: `TrieInsert`, as `Insert` plus the split function `Hoist`, and
  the bootstrap pair of `main.c` as `CreateTrie`. `Build` folds a word list
  into a dictionary. The `Mode` parameter runs case A either as written
  (`AsWritten`) or with the fix described under Findings (`Corrected`).
- `EditDistance`: an independent definition of "within one Damerau edit". Two
  strings share a prefix and a suffix, and the middle parts differ by one
  elementary edit.
- `TailMatch`: `tailWithinOneEdit`. Its four loops are modelled by three
  recursive functions that keep the C control flow, including the early
  `break`s: `Mismatches` (the counting loop), `SwapAtFirstMismatch` (the
  transposition loop) and `GreedySkip`, which serves both the insertion loop
  and, with the two tails exchanged, the deletion loop.
- `Suggest`: `add_suggestion`, `dfsSuggest` (split into `Dfs`, the edge loop
  `Moves`, one move onto a child `Visit`, and `Transpose`) and
  `SuggestCorrections`. `emit_word_from_prefix_and_leaf` is the call of
  `AddSuggestion` on the prefix followed by the leaf suffix, inside `Visit`
  and `Transpose`.
- `SpellChecker`: the checker end to end.

Two facts about the code that shape the model:

- The split loop (`src/SimpleTrieSpellChecker.c:205-250`) is a `do`/`while`,
  so at least one shared letter is always hoisted into a fresh branch, and the
  two leaves of case C always hang below such a fresh branch. `Insertion.Hoist`
  does the same.
- `TrieInsert` on the empty word sets `EndOfWord` on the root.

## Model

| member | source | states |
|---|---|---|
| EdgeSet.Position | src/SimpleTrieSpellChecker.c:22-28 | the index returned is the first edge carrying the letter; no index is returned exactly when no edge carries it |
| EdgeSet.SortedSlot | src/SimpleTrieSpellChecker.c:94-96 | the slot chosen for a new letter lies after every smaller letter and at a letter not smaller |
| EdgeSet.AddCell | src/SimpleTrieSpellChecker.c:34-64 | the edge set grows by exactly one fresh null-child edge at the given index, all old pairs are kept (as a multiset), and placing the letter between the smaller and larger letters keeps the set sorted |
| EdgeSet.CreateNonLeaf | src/SimpleTrieSpellChecker.c:66-79 | a new branch is not end-of-word, stores no word, and has the one seeded letter with a null child |
| EdgeSet.CreateLeaf | src/SimpleTrieSpellChecker.c:81-100 | afterwards the letter's edge leads to a leaf holding the suffix, edges for other letters are kept both ways, the set grows only when the letter was absent, and sortedness is preserved |
| EdgeSet.CreateLeafWords | src/SimpleTrieSpellChecker.c:81-100 | on an absent letter or a null slot, the stored words grow by exactly the letter followed by the suffix |
| EdgeSet.CreateLeafValid | src/SimpleTrieSpellChecker.c:94-99 | adding a leaf keeps every edge set sorted |
| EdgeSet.CreateLeafComplete | src/SimpleTrieSpellChecker.c:94-99 | adding a leaf to a branch whose other edges have children leaves no null child |
| EdgeSet.SortedUnique | include/SimpleTrieSpellChecker.h:41 | in a sorted edge set the edge found by the scan is the only one with its letter |
| EdgeSet.BranchMember | src/SimpleTrieSpellChecker.c:116-124 | in a sorted branch a non-empty word is stored exactly when the edge for its first letter leads to a node storing the rest; the empty word is stored exactly when the branch is end-of-word |
| Lookup.SearchIsMembership | src/SimpleTrieSpellChecker.c:106-126 | on a sorted trie exact search succeeds exactly for the stored words |
| Insertion.Insert | src/SimpleTrieSpellChecker.c:168-273 | insertion returns a branch that is end-of-word exactly when it was before or the word is empty |
| Insertion.HoistWords | src/SimpleTrieSpellChecker.c:200-266 | the node that replaces a split leaf stores exactly the new remainder and the old tail |
| Insertion.InsertWords | src/SimpleTrieSpellChecker.c:168-273 | a completed insertion adds exactly the inserted word to the stored set, whichever exit is taken |
| Insertion.InsertValid | src/SimpleTrieSpellChecker.c:183-187 | insertion keeps every edge set sorted |
| Insertion.HoistComplete | src/SimpleTrieSpellChecker.c:226-266 | cases B and C, and the corrected case A, leave no null child |
| Insertion.InsertComplete | src/SimpleTrieSpellChecker.c:183-190 | on a sorted trie without null children insertion never faults, and the result has no null child unless the as-written case A ran |
| Insertion.InsertIdempotent | src/SimpleTrieSpellChecker.c:172-198 | re-inserting a stored word leaves the trie unchanged, taking the end-of-word or duplicate-leaf exit |
| Insertion.CaseALeavesNullEdge | src/SimpleTrieSpellChecker.c:208-224 | as written, case A ends the new word and keeps the old tail, but when the seed letter differs from the tail's next letter it adds a second edge with a null child, so the node is complete exactly when the letters agree; seeding with the tail's letter gives the single-edge branch |
| Insertion.CaseBSingleBranch | src/SimpleTrieSpellChecker.c:226-240 | when the old word ends where the new one goes on, the leaf is replaced by exactly one end-of-word branch with a single edge, keyed by the new word's next letter, leading to a leaf with the rest of the new word |
| Insertion.CreateTrie | src/main.c:26-27 | the bootstrap pair gives a sorted branch root with no null child that stores exactly the first word |
| Insertion.BuildWords | src/main.c:22-30 | a dictionary built without a fault is sorted and stores exactly the listed words |
| Insertion.BuildCorrected | src/main.c:22-30 | with the corrected case A, building never faults and leaves no null child |
| Insertion.CaseAFaultExample | src/SimpleTrieSpellChecker.c:190-218 | inserting "CAT", "CA", "CAA" as written faults on the null edge case A left; the corrected build completes |
| TailMatch.MismatchesOne | src/SimpleTrieSpellChecker.c:330-335 | the counting loop, with its early break, counts exactly one mismatch exactly when the strings differ at a single position |
| TailMatch.EqualLengthSpec | src/SimpleTrieSpellChecker.c:330-352 | for distinct strings of equal length, the substitution count or the swap test accepts exactly when they are within one edit |
| TailMatch.GreedySkipSpec | src/SimpleTrieSpellChecker.c:354-372 | the skip-one scan accepts exactly when the longer string is the shorter with one letter inserted |
| TailMatch.TailMatchSpec | src/SimpleTrieSpellChecker.c:321-374 | with no edit spent the matcher accepts exactly the pairs within one Damerau edit; with one spent, exactly equal pairs; with more, none |
| Suggest.AddSuggestion | src/SimpleTrieSpellChecker.c:294-305 | the word is in the box afterwards exactly when it was before or the box had room; old entries are kept in order, at most one is appended, the cap is respected and no duplicate appears |
| Suggest.Visit | src/SimpleTrieSpellChecker.c:401-411 | one move onto a child only appends to the box, within the cap and without duplicates |
| Suggest.Dfs | src/SimpleTrieSpellChecker.c:377-472 | the walk only appends to the box, within the cap and without duplicates |
| Suggest.Moves | src/SimpleTrieSpellChecker.c:396-438 | the edge loop only appends to the box, within the cap and without duplicates |
| Suggest.Transpose | src/SimpleTrieSpellChecker.c:440-471 | the transposition move only appends to the box, within the cap and without duplicates |
| Suggest.SuggestCorrections | src/SimpleTrieSpellChecker.c:474-485 | the suggestions are distinct and at most the requested number |
| Suggest.ChildReaches | src/SimpleTrieSpellChecker.c:396-398 | following an edge extends the dictionary prefix by its letter and stays inside the dictionary |
| Suggest.EmitSound | src/SimpleTrieSpellChecker.c:308-319 | a leaf accepted by the tail matcher completes a word within one edit of the query |
| Suggest.EndSound | src/SimpleTrieSpellChecker.c:382-386 | a word end reached with the query consumed yields a stored word within one edit |
| Suggest.SkipTrack | src/SimpleTrieSpellChecker.c:391-392 | the insertion move spends the edit on one skipped query letter |
| Suggest.MatchTrack | src/SimpleTrieSpellChecker.c:401-408 | the exact move keeps the prefix in step with the query |
| Suggest.SubstituteTrack | src/SimpleTrieSpellChecker.c:414-421 | the substitution move spends the edit on one replaced letter |
| Suggest.DeleteTrack | src/SimpleTrieSpellChecker.c:427-434 | the deletion move spends the edit on one letter missing from the query |
| Suggest.VisitSound | src/SimpleTrieSpellChecker.c:401-437 | a move onto a child collects only stored words within one edit, and never faults below a node with no null child |
| Suggest.DfsSound | src/SimpleTrieSpellChecker.c:377-472 | the walk collects only stored words within one edit of the query, and never faults on a trie with no null child |
| Suggest.MovesSound | src/SimpleTrieSpellChecker.c:396-438 | the edge loop collects only stored words within one edit, and never faults below a node with no null child |
| Suggest.TransposeSound | src/SimpleTrieSpellChecker.c:440-471 | the swap of two adjacent query letters collects only stored words within one edit, and never faults below a node with no null child |
| Suggest.SuggestionsSound | include/SimpleTrieSpellChecker.h:89-93 | every suggestion is a dictionary word within Damerau distance one of the query, and on a trie with no null child suggesting always completes |
| SpellChecker.CorrectedChecker | src/main.c:22-30 | with the corrected case A: the dictionary builds, lookup answers membership in the word list, and suggesting completes with distinct listed words within one edit, at most the requested number |
| SpellChecker.AsWrittenChecker | src/main.c:22-30 | as written, whenever building and suggesting complete, lookup and suggestions are as correct as in the corrected checker: the defect shows only as a fault |
| SpellChecker.SuggestFaultExample | src/SimpleTrieSpellChecker.c:413-416 | after "CAT" and "CA" are inserted as written, suggesting for "CAX" faults on the null edge of the "CA" branch; the corrected dictionary answers |

## Left out

- File input, tokenising, upper-casing (`strupr_local`) and printing in `main.c`, `Error` with `exit`, and the debugging printer `TrieSideView`. They are I/O.
- Allocation failure: every `malloc`/`calloc` is taken to succeed. This covers the `calloc` failure of the suggestion array in `SuggestCorrections` and the silent drop in `add_suggestion` when copying a word fails.
- `free`, `FreeSuggestBox` and the freeing of the disconnected leaf during a split. Nodes are immutable values here, so nothing needs freeing.
- `TrieCreateWithFirstWord` is declared in the header but has no definition in the source. The bootstrap pair in `main.c` is modelled instead (`Insertion.CreateTrie`).
- Strings are sequences with explicit length. The NUL terminator, the 256-byte `prefix` buffer (a word longer than 255 letters overflows it), the signedness of `char` and the one-bit `kind`/`EndOfWord` fields are not modelled. Inputs are assumed to contain no NUL character. Letters compare by code point, as the C `<` on `char` does for ASCII.
- `TrieInsert` is a loop over a mutable tree; it is modelled as a recursive function that rebuilds the path it changes. The trie is reached only from its root, so no aliasing is lost.
- Suggestion completeness is not proved. The walk is not shown to find every dictionary word within one edit, only that it finds no wrong word, stays within the cap, and does not fault on a trie without null edges.
- Suggest.SuggestCorrections: the cap is stated as "at most `max` suggestions, or none", because a non-positive `max` also yields an empty box.

## Findings

| source | as written | input that shows it | evidently intended | confidence | as-written member | corrected member |
|---|---|---|---|---|---|---|
| src/SimpleTrieSpellChecker.c:213 | case A seeds the new branch with the new word's last letter `word[offset]`, then adds the old tail's letter `lf->word[offset]` with `CreateLeaf`. When the two differ, the seeded edge keeps a null child. | insert "CAT", then "CA", then "CAA": the third insert dereferences that null child at line 190 | seed the branch with `lf->word[offset]` so that it ends the new word and has exactly one edge, for the old tail | high; not executed | Insertion.CaseAFaultExample | Insertion.BuildCorrected |
| src/SimpleTrieSpellChecker.c:416 | the substitution move reads `child->kind` without checking for a null child, so the edge left by line 213 crashes suggestions as well | dictionary "CAT", "CA"; query "CAX": the substitution of 'A' for 'X' below "CA" dereferences the null child | the same correction at line 213; with it no edge is ever null and the walk never faults | high; not executed | SpellChecker.SuggestFaultExample | SpellChecker.CorrectedChecker |
