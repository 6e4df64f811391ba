# ym-mincov core, modelled in Dafny

This project models the sequential core of ym-mincov, a solver for the
minimum-cost covering problem. Its input is a sparse 0/1 matrix of rows and
columns with a cost per column. The solver picks columns until every row has a
cell in a picked column, trying to keep the total cost low.

The model covers five parts of the solver:

- **The cover matrix and its deletion stack** (`src/McMatrix.h`).
  - The matrix is modelled by its observable state: the live rows and columns, the cells, the cost array and the two live counters.
  - The active row and column lists are the ascending enumerations of the live positions, closed by a sentinel head.
  - The deletion stack is a flat `int` array with a top index. Each word is a tagged entry: `0` is a marker, `(pos << 2) | 1` a deleted row and `(pos << 2) | 3` a deleted column.
  - `save` pushes a marker. `restore` pops entries back to the most recent marker and links each popped row or column back in.
  - Files: `del_stack.dfy`, `cover_matrix.dfy`, `checkpoint.dfy`.
- **The composite lower bound** (`src/LbMAX.cc`).
  - It is the largest of a list of lower-bound calculators, and never below zero.
  - The calculators are opaque functions of the matrix.
  - File: `lb_max.dfy`.
- **The independent-set helper** (`src/MaxClique.cc`).
  - Symmetric adjacency lists.
  - The greedy `solve`, which repeatedly picks the unmarked node with the fewest neighbours.
  - The in-place list intersection `merge_nlist`.
  - File: `max_clique.dfy`.
- **The node record of the independent-set bound** (`src/MisNode.h`). File: `mis_node.dfy`.
- **The heuristic driver** (`src/McSolver.cc`).
  - Set-up with unit costs and the dispatch on the algorithm name.
  - The greedy loop.
  - The `random` heuristic: 1000 trials that each walk to the `(r mod n)`-th cell of the front row, keeping the earliest cheapest trial.
  - File: `mc_solver.dfy`.

`sets.dfy` holds one shared fact about set cardinality.

Some operations have bodies in implementation files that are not part of this model: `reduce`, `select_col`, `delete_row` and `block_partition`. They appear as set-level functions with the contracts their header comments give, or as function-valued parameters with stated contracts.

Each operation is paired with an independent statement of what it computes:

- a loop method with a recursive reference function;
- an encoding with its decoding;
- `save`/deletions/`restore` with the unchanged matrix;
- the greedy and random runs with covering lemmas.

## Model

| member | source | states |
|---|---|---|
| DelStack.Encode | src/McMatrix.h:520-542 | A marker is written as 0 and only a marker is 0. A deleted row at `pos` is written as a word whose low two bits are `01` and whose remaining bits are `pos`; a deleted column uses `11`. Every word is a non-negative 32-bit int. |
| DelStack.ShiftAgreement | src/McMatrix.h:531-542 | On 32-bit words below 2^29, `(p << 2) \| 1` and `(p << 2) \| 3` have low bits 1 and 3. Shifting right by two gives `p` back, and the word's value is `4p + 1` or `4p + 3`. |
| DelStack.Decode | src/McMatrix.h:520-542 | Reading a word back by its low two bits: every word it accepts is exactly the encoding of the entry it returns, and it returns a marker exactly for 0. |
| DelStack.DecodeEncode | src/McMatrix.h:520-542 | Decoding an encoded entry gives the entry back. |
| DelStack.EncodeInjective | src/McMatrix.h:520-542 | Two different entries never share a word, so a marker is never taken for a row or column deletion. |
| DelStack.IsEmpty | src/McMatrix.h:512-518 | `stack_empty()` holds exactly when the stack holds no words. |
| DelStack.Push | src/McMatrix.h:544-551 | `push` writes only the slot at the old top, raises the top by exactly one and appends the word to the log. |
| DelStack.Pop | src/McMatrix.h:553-560 | `pop` lowers the top by exactly one and leaves the array untouched. The old log is the new log followed by the popped word. |
| DelStack.PushPop | src/McMatrix.h:544-560 | A pop right after a push returns the pushed word and restores the old top and log. |
| DelStack.PushMarker | src/McMatrix.h:520-526 | Appends one word that decodes to a marker; the words below are unchanged. |
| DelStack.PushRow | src/McMatrix.h:528-534 | Appends one word that decodes to a deletion of that row; the words below are unchanged. |
| DelStack.PushCol | src/McMatrix.h:536-542 | Appends one word that decodes to a deletion of that column; the words below are unchanged. |
| CoverMatrix.RowList | src/McMatrix.h:329-333 | The active row list holds exactly the live rows. |
| CoverMatrix.ColList | src/McMatrix.h:338-342 | The active column list holds exactly the live columns. |
| CoverMatrix.RowNum | src/McMatrix.h:427-434 | `row_num()` equals both the length of the active row list and the number of live rows. This is the commented-out assertion made true. |
| CoverMatrix.ColNum | src/McMatrix.h:486-493 | `col_num()` equals both the length of the active column list and the number of live columns. |
| CoverMatrix.WalkEnds | src/McMatrix.h:417-425 | Walking `next` links from the sentinel, `is_row_end` / `is_col_end` is false while members remain. It first holds one step after the last member, so the loop visits every member and stops there. |
| CoverMatrix.RowFront | src/McMatrix.h:401-407 | `row_front()` is the sentinel's next link. It is the end exactly when no row is live; otherwise it is the smallest live row. |
| CoverMatrix.RowBack | src/McMatrix.h:409-415 | `row_back()` is the end exactly when no row is live; otherwise it is the largest live row. |
| CoverMatrix.ColFront | src/McMatrix.h:460-466 | `col_front()` is the sentinel's next link. It is the end exactly when no column is live; otherwise it is the smallest live column. |
| CoverMatrix.ColBack | src/McMatrix.h:468-474 | `col_back()` is the end exactly when no column is live; otherwise it is the largest live column. |
| CoverMatrix.WalkVisitsList | src/McMatrix.h:401-425 | Following `next` links from the sentinel reaches the `k`-th live member after `k + 1` steps, and the sentinel again after one step per member. |
| CoverMatrix.AscendingSorted | src/McMatrix.h:326-342 | Every active list is strictly increasing, so no position appears twice. |
| CoverMatrix.RowCols | src/McSolver.cc:220-221 | The cells of a row, as walked from `rh->front()`, are exactly its cells in live columns. |
| CoverMatrix.RowColsSorted | src/McSolver.cc:220-221 | A row's cells are listed by strictly increasing column. |
| CoverMatrix.CostAppend | src/McMatrix.h:137-140 | The cost of a concatenation of column lists is the sum of their costs. |
| CoverMatrix.ColCost | src/McMatrix.h:495-502 | `col_cost(c)` is the cost of the one-column list `[c]`. |
| CoverMatrix.RowCovered | src/McMatrix.h:155-160 | The scan over a column list finds a cell in row `r` exactly when one of the listed columns has one. |
| CoverMatrix.Verify | src/McMatrix.h:155-160 | `verify(col_list)` is true exactly when every live row has a cell in a listed column. |
| CoverMatrix.New | src/McMatrix.h:29-36 | The constructor gives a matrix with the given sizes and costs, no cells and nothing live. |
| CoverMatrix.InsertElem | src/McMatrix.h:183-189 | `insert_elem` adds exactly the cell, makes its row and column live, and keeps sizes, costs and the counters consistent. |
| McSolver.NewCoverable | src/McSolver.cc:56-70 | A freshly sized matrix meets the solver's requirement that every live row has a cell in a live column. |
| McSolver.InsertElemKeepsCoverable | src/McMatrix.h:183-189 | `insert_elem` keeps that requirement, so every matrix built by `set_size` and `insert_elem` meets it. |
| CoverMatrix.InsertElemIdempotent | src/McMatrix.h:183-189 | Inserting the same cell a second time changes nothing. |
| CoverMatrix.DeleteRow | src/McMatrix.h:196-198 | `delete_row` removes exactly that row from the live set; the counter drops by one and nothing else changes. |
| CoverMatrix.DeleteCol | src/McMatrix.h:200-202 | `delete_col` removes exactly that column from the live set; the counter drops by one and nothing else changes. |
| CoverMatrix.RestoreRow | src/McMatrix.h:271-273 | `restore_row` makes exactly that row live again; the counter grows by one and nothing else changes. |
| CoverMatrix.RestoreCol | src/McMatrix.h:275-277 | `restore_col` makes exactly that column live again; the counter grows by one and nothing else changes. |
| CoverMatrix.RestoreRowUndoesDelete | src/McMatrix.h:271-273 | Restoring a row right after deleting it gives back the same matrix. |
| CoverMatrix.RestoreColUndoesDelete | src/McMatrix.h:275-277 | Restoring a column right after deleting it gives back the same matrix. |
| CoverMatrix.DeleteRows | src/McMatrix.h:196-198 | Deleting distinct live rows one after the other removes exactly those rows and touches nothing but the live rows and their counter. |
| CoverMatrix.SelectCol | src/McMatrix.h:191-194 | `select_col` deletes exactly the live rows the column covers. No remaining live row has a cell in the column, columns, cells and costs stay, and the row count drops when the column covers a live row. |
| CoverMatrix.SelectColDeletesInOrder | src/McMatrix.h:191-198 | Selecting a column is the same as deleting its covered live rows one at a time, in ascending order. |
| CoverMatrix.CostSplits | src/McMatrix.h:137-140 | For columns drawn from two disjoint groups, the cost of the list is the cost of its first-group part plus the cost of its second-group part. |
| CoverMatrix.BlockCoverSplits | src/McMatrix.h:142-153 | After a successful block partition, a list of live columns covers the matrix exactly when each block's columns cover that block's rows, and its cost is the sum of the two parts. |
| Checkpoint.Save | src/McMatrix.h:225-227 | `save` pushes one marker word, appending `0` to the log; the matrix and the words below are unchanged. |
| Checkpoint.DeleteRow | src/McMatrix.h:528-534 | A logged row deletion unlinks the row and pushes a word that decodes to that row. The words below are unchanged and the state stays consistent. |
| Checkpoint.DeleteCol | src/McMatrix.h:536-542 | A logged column deletion unlinks the column and pushes a word that decodes to that column. The words below are unchanged and the state stays consistent. |
| Checkpoint.Undo | src/McMatrix.h:271-277 | One step of `restore`: pops the top entry and links back the row or column it names. A marker further down stays on the stack. |
| Checkpoint.Restore | src/McMatrix.h:229-231 | Popping back to the most recent marker lowers the top and never rewrites the array. It only makes rows and columns live again and leaves sizes, costs and cells alone. |
| Checkpoint.RestoreCongruent | src/McMatrix.h:229-231 | `restore` depends only on the matrix and on the words below the top. |
| Checkpoint.Apply | src/McMatrix.h:196-202 | One logged deletion pushes a word that decodes to it, and its effect on the matrix is exactly `delete_row` or `delete_col` of that position: that row or column dies, its counter drops by one, nothing else changes. |
| Checkpoint.ApplyAll | src/McMatrix.h:196-202 | A sequence of logged deletions pushes one word each, leaves the words below and the matrix shape unchanged, and keeps every other live row and column deletable. |
| Checkpoint.ApplyAllRemoves | src/McMatrix.h:196-202 | After a sequence of logged deletions the live rows are exactly the previously live rows minus the deleted row positions, and the same for columns; rows and columns already dead stay dead. |
| Checkpoint.ApplyAllLast | src/McMatrix.h:196-202 | The last deletion of a sequence removes its own position from the matching live set and changes the other live set not at all. |
| Checkpoint.RestoreApply | src/McMatrix.h:229-231 | A `restore` after one more logged deletion ends where a `restore` before it would. |
| Checkpoint.RestoreUndoesDeletes | src/McMatrix.h:225-231 | After a marker and any logged deletions of distinct live rows and columns, `restore` gives back the matrix as it was at the marker and pops the marker. |
| Checkpoint.SaveDeletesRestore | src/McMatrix.h:225-231 | `save`, any logged deletions, then `restore`: the matrix and the log are exactly as they were before the `save`. |
| LbMax.Empty | src/LbMAX.cc:19-22 | A fresh composite bound has no calculators. |
| LbMax.AddCalc | src/LbMAX.cc:46-51 | `add_calc` appends the calculator at the end; the earlier ones keep their order and the count grows by one. |
| LbMax.MaxOrZero | src/LbMAX.cc:33-44 | The reference value is at least zero and at least every value, and it is zero or one of the values. |
| LbMax.Bound | src/LbMAX.cc:33-44 | `operator()` is at least zero and at least every calculator's value. It is zero or one of those values, zero with no calculators, and equal to the reference value. |
| LbMax.MaxOrZeroAdmissible | src/LbMAX.cc:33-44 | If every value is at most a non-negative `opt`, so is the maximum. |
| LbMax.BoundAdmissible | src/LbMAX.cc:33-44 | If every calculator stays at or below a non-negative optimum, so does the composite bound. |
| LbMax.AddCalcBound | src/LbMAX.cc:46-51 | After `add_calc(c)`, the bound is the larger of the old bound and `c`'s value. |
| MaxClique.New | src/MaxClique.cc:19-25 | The constructor gives `size` nodes with cost zero and empty neighbour lists, a symmetric adjacency. |
| MaxClique.SetCost | src/MaxClique.cc:32-38 | `set_cost` changes only the cost of that node. |
| MaxClique.Connect | src/MaxClique.cc:40-48 | `connect(a, b)` appends `b` to `a`'s list and `a` to `b`'s list, leaves every other list alone, and keeps a symmetric adjacency symmetric. |
| MaxClique.ConnectAll | src/MaxClique.cc:40-48 | A sequence of `connect` calls only adds neighbours, keeps the costs, and keeps symmetry. |
| MaxClique.BuildSymmetric | src/MaxClique.cc:40-48 | Starting from symmetric lists, any sequence of `connect` calls gives symmetric lists holding every connected pair in both directions. |
| MaxClique.PickMin | src/MaxClique.cc:126-143 | The inner scan finds a node exactly when one is unmarked. The node it returns is unmarked and has the fewest neighbours, with ties going to the lowest index. |
| MaxClique.MarkAll | src/MaxClique.cc:145-150 | After choosing `m`, exactly `m`, its neighbours and the nodes marked before are marked. |
| MaxClique.SolveStep | src/MaxClique.cc:141-151 | Choosing the scan's pick keeps the loop invariant: the marks record the chosen nodes and their neighbours, no chosen node repeats or neighbours an earlier one, and each was the scan's pick. |
| MaxClique.UnmarkedShrinks | src/MaxClique.cc:141-150 | Each round marks at least one more node, so the loop runs at most once per node. |
| MaxClique.Solve | src/MaxClique.cc:116-154 | `solve` starts from an empty answer, in which no node repeats or neighbours an earlier one. Every node ends up chosen or next to a chosen node. Each chosen node was the unmarked node with the fewest neighbours (lowest index on ties), and the result is the sum of the chosen costs. |
| MaxClique.SymmetricIndependent | src/MaxClique.cc:145-150 | With symmetric adjacency, no two chosen nodes are adjacent in either direction. |
| MaxClique.IntersectMembers | src/MaxClique.cc:53 | The reference intersection holds exactly the elements of `left` that also occur in `right`. |
| MaxClique.IntersectIncreasing | src/MaxClique.cc:53 | The intersection of an increasing list is increasing. |
| MaxClique.MergeScan | src/MaxClique.cc:73-102 | On any input, the loop of `merge_nlist` keeps the length and copies only elements of `left`. On strictly increasing inputs it writes exactly the intersection before the write position and leaves the rest of `left` untouched. It stops through the erasing branch exactly when `right` runs out while `left` still has elements. |
| MaxClique.MergeNlist | src/MaxClique.cc:54-111 | `merge_nlist` as written never grows the list and never adds a value absent from `left`, on any input. On strictly increasing inputs, its result is the intersection followed by the stale tail when `left` runs out first. |
| MaxClique.MergeAsWrittenKeepsStaleTail | src/MaxClique.cc:78-86 | For `left = [1, 2]` and `right = [2]` the written result is `[2, 2]`, not the intersection `[2]`. |
| MaxClique.MergeAsWrittenPrefix | src/MaxClique.cc:78-86 | The written result always starts with the intersection. It equals the intersection exactly when the erasing branch is taken or no element of `left` was dropped. |
| MaxClique.MergeNlistCorrected | src/MaxClique.cc:53-56 | With the tail erased on both exits, the result is exactly the elements of `left` that occur in `right`, still increasing. |
| MisNode.Set | src/MisNode.h:93-104 | `set(r)` gives `row_pos() == r`, `adj_size() == adj_num() == 0`, and `deleted()`. |
| MisNode.SetAdjLink | src/MisNode.h:106-115 | `set_adj_link(k, l)` gives `adj_size() == adj_num() == k` and `adj_node(p) == l[p]`, and keeps the row position and the deleted flag. |
| MisNode.DecAdjNum | src/MisNode.h:158-164 | `dec_adj_num()` lowers `adj_num` by exactly one; `adj_size`, the links, the row position and the deleted flag stay. |
| MisNode.CountAfterDrops | src/MisNode.h:106-164 | After `set_adj_link(k, l)` and `j` decrements, `adj_num == k - j`. It stays between zero and `adj_size` while `j <= k`, and the links are still those installed. |
| McSolver.SetSize | src/McSolver.cc:56-70 | `set_size` gives a matrix of that size with every column cost 1 and nothing inserted. |
| McSolver.SetColCost | src/McSolver.cc:72-80 | `set_col_cost(c, k)` changes only column `c`'s cost. |
| McSolver.ParseAlgorithm | src/McSolver.cc:118-133 | `"random"` and `"MCT"` are recognised. `"greedy"` and every other name run greedy. |
| McSolver.GreedyStep | src/McSolver.cc:175-188 | One greedy round appends the selected column, then `reduce`'s columns, and continues on a matrix with strictly fewer live rows, so the loop ends. |
| McSolver.GreedyRunCovers | src/McSolver.cc:173-188 | The greedy columns are all live and cover every live row of the matrix. |
| McSolver.GreedyLoop | src/McSolver.cc:145-189 | `greedy` appends exactly the greedy reference run to the solution. |
| McSolver.PickCell | src/McSolver.cc:216-226 | The walk along a row with draw `d` stops at the `(d mod n)`-th cell, `n` being the number of cells. Its column is live and covers the row. |
| McSolver.RowHasCell | src/McSolver.cc:216-218 | A live row of a coverable matrix has at least one live cell (`n > 0`). |
| McSolver.Pick | src/McSolver.cc:214-226 | A trial's pick is a live column that covers the front row. |
| McSolver.PickFront | src/McSolver.cc:214-226 | Walking from `row_front()` picks the column of the trial's reference pick. |
| McSolver.TrialStep | src/McSolver.cc:213-232 | One round of a trial appends the picked column and `reduce`'s columns, then continues from the next draw on a matrix with strictly fewer rows. |
| McSolver.TrialCovers | src/McSolver.cc:210-233 | Every trial's columns are all live and cover every live row. |
| McSolver.RunTrial | src/McSolver.cc:210-233 | The inner `while` loop of `random` collects exactly one trial's columns and uses exactly that trial's draws. |
| McSolver.TrialsCover | src/McSolver.cc:209-233 | Every one of the trials uses only live columns and covers the matrix. |
| McSolver.TrialCosts | src/McSolver.cc:234 | The cost of each trial, in order. |
| McSolver.EarliestMin | src/McSolver.cc:235-238 | The index of the first minimum: no cost is smaller, and every earlier cost is strictly larger. |
| McSolver.EarliestMinStep | src/McSolver.cc:235-238 | One more trial takes over as the best exactly when it is strictly cheaper than the best so far. |
| McSolver.RandomRunCheapest | src/McSolver.cc:204-245 | What `random` keeps is one of the 1000 trials, and no trial is cheaper. |
| McSolver.RandomRunCovers | src/McSolver.cc:209-249 | What `random` appends uses only live columns and covers the matrix. |
| McSolver.Keep | src/McSolver.cc:234-244 | The comparison leaves a non-first state holding either the new trial or the old best. |
| McSolver.RandomAfter | src/McSolver.cc:206-245 | The state after `count` trials is "first" exactly when no trial has run, and its best lies inside the cost array. |
| McSolver.KeepStep | src/McSolver.cc:234-244 | If the state held the first cheapest of the earlier trials, then after the comparison it holds the first cheapest of the trials including the new one, with its cost. |
| McSolver.FirstCheapestStep | src/McSolver.cc:234-244 | If the state after `count` trials holds the first cheapest of them, one more trial and comparison gives the first cheapest of `count + 1`, with its cost and the next draw. |
| McSolver.RandomAfterFirstCheapest | src/McSolver.cc:206-245 | The trial-by-trial state continues from the draw the trials stopped at. After at least one trial it holds the first cheapest trial and that trial's cost. |
| McSolver.RandomRunIsLast | src/McSolver.cc:204-249 | The first cheapest of the 1000 trials is the best the loop keeps. |
| McSolver.RandomStep | src/McSolver.cc:210-244 | One pass of the trial loop moves the state from `count` to `count + 1` trials. |
| McSolver.RandomLoop | src/McSolver.cc:194-250 | `random` appends exactly the first cheapest of its 1000 trials to the solution. |
| McSolver.Heuristic | src/McSolver.cc:109-140 | `heuristic` returns the first `reduce`'s columns, followed by the named algorithm's when rows remain. The returned value is that list's cost on the original matrix, and except after `"MCT"` the list covers every live row. |
| McSolver.HeuristicCovers | src/McSolver.cc:113-135 | The solution stays inside the cost array, and except after `"MCT"` it covers the matrix, as the source asserts before computing its cost. |

## Left out

- The implementation file of the matrix is not part of this model. This covers `reduce`, `row_dominance`, `col_dominance`, `essential_col`, `block_partition`, the copy constructors, `merge`, `clear`, `resize`, `mark_rows`/`mark_cols` and `print`.
  - `select_col`, `delete_row`/`delete_col` and `restore_row`/`restore_col` are modelled by their effect on the live sets.
  - `block_partition` is modelled by the predicate its result must satisfy.
  - `reduce` is a function-valued parameter, with the contract `ReducerOk`:
    - `ReducerKeeps`: sizes, costs and cells stay, rows are only removed, and a coverable matrix stays coverable.
    - `ReducerLive`: columns are only removed, and the chosen columns are live.
    - `ReducerSound`: any cover of what is left by columns that are still live, after the chosen columns, covers the input.
  - This is what row dominance, column dominance and essential-column selection guarantee. A cover through a column `reduce` has deleted carries no such guarantee, so `ReducerSound` does not quantify over it.
- The row and column head records and the cells are not part of this model.
  - The active lists are taken to be in ascending position order, and a row's cells in ascending column order.
  - A row head's `num()` is taken to be the number of its cells in live columns.
- CoverMatrix.SelectCol: `select_col` is modelled as deleting the live rows its column covers. Whether the source also unlinks the column itself, or columns left empty, is not modelled, because that body is not part of the model.
- Memory management is left out: the cell allocator, raw-pointer links, the lazy `new` in `row()`/`col()` and the size of the stack array. Free room on the stack is a precondition (`Room`).
- `RandGen` is the sequence of its draws (`rand(k)` for the `k`-th call). The draws are taken to be non-negative, so `r % n` lies in `[0, n)`. A negative `int32()` would make the C++ remainder negative, and the walk would leave `col` at 0; that is not modelled.
- Console output is left out: the debug prints in `greedy` and `random`, the "best so far" report, and `print_matrix`.
- `MaxClique` keeps costs as `double`; the model uses integers. Column costs and their sums are unbounded integers, so no overflow of a cost sum is modelled.
- MisNode.DecAdjNum: the count is an unbounded integer, so decrementing below zero gives a negative count rather than modelling 32-bit wrap-around. The source has no guard either.
- MisNode.SetAdjLink: neighbours are named by their indices instead of `MisNode*` pointers. The heap that sets the heap index is not part of the model.
- `src/LbMIS3.cc` is not part of this model. It is unfinished: it always returns 0 and relies on a graph library.
- `McSolverImpl` (`exact`, branch and bound) is not part of this model, because its body is not available. Neither are the `MinCov` facade, the `McSolver` constructor with its concrete bounds and selector, or `McSolver::insert_elem`, which forwards to `CoverMatrix.InsertElem` unchanged.
- McSolver.Heuristic: coverage is stated only for names other than `"MCT"`. On `"MCT"` with rows left after `reduce`, the source appends nothing and its own coverage assertion would not hold.
- McSolver.GreedyLoop: termination and coverage rely on `SelectorOk`, meaning the selector picks a live column that covers a live row. The selector's body is not part of this model.
- MaxClique.MergeNlist: accepts any input. Only on strictly increasing inputs does it state the exact result (the intersection, plus the stale tail when `left` runs out first). Sortedness is an assumption the source does not establish:
  - `connect` appends neighbours in call order;
  - nothing in `src/MaxClique.cc` sorts the lists;
  - `merge_nlist` has no caller in that file.
  - On unsorted inputs, the model only says the list never grows and gains no new value.
- MaxClique.MergeScan: accepts any input. The intersection, untouched-tail and truncation facts are stated only for strictly increasing inputs, for the same reason as `MaxClique.MergeNlist`.
- MaxClique.MergeNlistCorrected: requires strictly increasing inputs. On unsorted lists, even the corrected merge does not compute the intersection.
- DelStack.Encode / Checkpoint.Valid: row and column positions are required to be below 2^29 (`PosLimit`).
  - `push_row`/`push_col` compute `(pos << 2) | 1` and `(pos << 2) | 3` on a signed 32-bit `int`.
  - From 2^29 on, the shift overflows: the word comes out negative or loses the position's high bits.
  - Decoding such words belongs to `restore`, whose body is not part of this model, so these sizes are not modelled.
- MaxClique.SizesFit: `PickMin` and `Solve` require every neighbour list to be shorter than `INT_MAX`.
  - The source reads `size()` into an `int` and compares it with a running minimum that starts at `INT_MAX`, by `min_num > num`.
  - A node with `INT_MAX` or more neighbours would be truncated or never picked. Such sizes are not modelled.
- Checkpoint.Restore: `restore`'s body is not part of this model; only a stack holding a marker is modelled. Every modelled use saves first. `DelStack.IsEmpty` models `stack_empty()`, which the modelled operations do not call.
- CoverMatrix.Valid does not require cells to lie inside the sizes; that is the separate `CellsInRange`, which `New` and `InsertElem` keep. Cells never change after construction, so no operation needs it.

## Findings

| source | as written | input that shows it | evidently intended | confidence | as-written member | corrected member |
|---|---|---|---|---|---|---|
| src/MaxClique.cc:78-86 | The list is cut back to the write position only on the branch where `right` runs out first. When `left` runs out first, the slots from the write position on keep their old values. | `left = [1, 2]`, `right = [2]`: `2` is written over slot 0 and the loop stops with `left` exhausted, leaving `[2, 2]` | `left` keeps only its elements that also occur in `right`, as the comment at line 53 says: `[2]` | high; not executed | MaxClique.MergeAsWrittenKeepsStaleTail | MaxClique.MergeNlistCorrected |
