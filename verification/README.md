# BinOM: verified models of the hard core

BinOM is an in-memory hierarchical data store. This project models the five parts of it that hold the
most state and the most case analysis, and proves what they keep. The functions and methods do what the
C++ code does, branch by branch. Where the code does not meet the law it is there for, the model follows
the code: a lemma names an input on which the law fails, another lemma says exactly when it holds, and,
where the law is central, the evidently intended line is modelled beside the written one and proved too.

## The parts

**Query rewriting** (`Query*.dfy`, `ConditionQuery.dfy`, `Iteration.dfy`). A nested AND/OR list of
conditions is flattened in place, one subexpression per round. The class `ConditionQuery` is the source
statement by statement; `Query.Step` is one round and `Query.Run` a number of rounds. The meaning of a
query is its disjunctive expansion (`QueryTerms`). With every copy closed as intended, the rescan always
ends with an equivalent flat query. As written, it copies closing relations verbatim. It then never adds
an answer, it coincides with the intended round in exactly three situations, and for queries whose
conditions are pairwise distinct it ends with an equivalent flat query if and only if the query is `Safe`,
a syntactic condition. For every well-formed query, `QueryRounds.BadRounds` counts, without running anything, the
rounds that are not the intended ones: every such round lowers the count by exactly one and no other changes it.
The rescan ends if and only if the count is finite, and a query is `Safe` if and only if it is zero.
`(a OR b) AND (c OR d)` never stops growing, nor does `(a OR b) AND (c OR (d OR e)) OR f`; `(a OR b) OR c` loses the
rows that only satisfy `b`. For queries that repeat conditions, `Safe` is still sufficient for an equivalent
result, but a lost copy may happen to be implied by another one, so it is not necessary.

**AVL trees with parent pointers** (`AVL*.dfy`). Node objects are on the heap; a ghost value of type `Tree`
holds what they represent, stored depths included, out of date or not. `AVLTrees.AVLTree` has the rotations,
the balancing loop, `insert`, `extract`, `swapPosition`, `unpin` and `clear`, each proved to turn the
represented value into a function of the old one; the laws are proved about these functions. `readsRoot`
tells whether the left-heavy cases ask for the balance of `root->left`, as written, or of `node->left`, as in
the mirrored cases. Order and links are kept either way. The balance is kept by the second form; by the written form
exactly if no round on the way up is `Misled`, that is, takes a double rotation for a node whose left child is not
heavy on the inner side. A single rotation taken by mistake repairs itself in the next round. `AVLInsertion` and
`AVLRemoval` read this off the tree before the operation: from the lowest node above the new leaf that is higher on one
side, and from the heights beside the way up from the place that loses a level.

`extract` leaves the depth in the node that it returns, and `insert` neither resets it nor looks at it. So depths are
only `Sound` in general: computed from those of the children, with any depth from 1 on in a leaf. On every run, nodes
that are put back included, trees are ordered and sound, and the second form never crashes. As long as every node that
is put `Lands` (its depth is 1, or a rotation computes it anew, read off its place and its depth), the second form
keeps AVL trees with exact depths; the first node that does not land ends that. `AVLPutBack` has such a run.

**Multi trees** (`Value*.dfy`, `MultiAVL*.dfy`). A tree of key nodes with a doubly linked list of values below each. The
list fields of a key node are an object of their own; the tree of key nodes is the one above, asked for `node->left`
and balanced from the parent of a removed leaf (as written, no balancing follows there: `AVLLookup.LeafRemovalExact`
tells when that does no harm). Every operation is proved on the map from keys to non-empty sequences, and the
iterators on the concatenation of these sequences. `leftOnly` tells whether lookups go left in any case, as
written, or to the side of the key.

**Recursive shared locks and transaction locks** (`Locks*.dfy`). Threads take steps at mutexes; a step is
one operation on a `std::shared_mutex` with the thread-local counter updates around it. Over every
interleaving, counters equal live locks, agree with the held mode, and no mutex is used against the rules
of [thread.sharedmutex.requirements] of the C++20 standard. TransactionLock takes all or nothing and, for a thread
that holds nothing when it begins, waits only empty-handed, so that it is in no circle of waiting threads. Two
readers that begin a transaction on the mutex they read do end up waiting for each other. A thread may also wait in the
constructor of a plain lock. `LocksSteps` says of every step when it is possible and what it does; a thread that has a
lock keeps holding the mutex but for the two changes of mode, and a transaction that has come to its end has taken
everything.

**Search in a table** (`TableSearch.dfy`, `TableFind.dfy`, `TableQueries.dfy`), **rows, indexes and their cross-links**
(`TableFields.dfy`, `TableRows.dfy`, `TableViews.dfy`). An index is its entries in order; `find` gives the first of several
equal entries and `end` if there is none, as in the standard containers. For every operator the exact
condition is proved under which the range walk visits the matching entries. What the search of a block and of a
whole flat query finds is stated for every table, mistakes included, and so is exactly when it equals a scan.
`usesFind` tells whether ranges begin at `find`, as written, or at the lower bound, from where every walk is right.
Registration keeps fields and indexes linked in both directions, which makes the indexes what the search needs.
`TableQueries` joins the flattening of nested queries with the search for flat ones. An insertion is refused
exactly if a field is, given those in front of it. As written (`undoesAll` is false), it is then undone except for the first field and the registration of the table at the row.

**Packed bits** (`Bits.dfy`, `BitArrays.dfy`, `BitNumbers.dfy`) and **key order** (`KeyOrder.dfy`). A byte is
its eight bits, the lowest first, as in the source's own struct. The in-place shifts are proved bit by bit
and as multiplication and division of little-endian numbers; `removeBits` deletes a slice exactly when the
following shift stays inside the bytes in use. The key comparison gives the intended total order exactly
if no unsigned value meets a negative one and the first array is not exhausted first; the sets of keys that can be seen
as numbers, as the other parts do, are exactly those on which it always does (`KeyRanks.dfy`).

Some places need a word on what the code does. In `simplifyConjunctionBlock` and `find`, the test
`it->getNextRelation() == OR || it == end` reads behind the list before it looks for the end; what it reads has
no influence on the result, and the models look for the end first. A loop that wraps a `size_t` below zero,
dereferences the end or a null pointer, or uses a mutex against its rules is modelled as a failed outcome.
Keys and column values are seen through the order of `getCompare`; a column value is null or a rank.

## Model

| member | source | states |
|---|---|---|
| QueryTerms.TermsHold | libbinom/source/binom_impl/ram_storage_implementation/table_impl.cxx:321-342 | a nested query holds under a truth assignment exactly when one of the terms of its disjunctive expansion does |
| QueryRewrite.IntendedStepExpand | libbinom/source/binom_impl/query.cxx:99-142 | distributing prefix and suffix over every AND-block, every copy closing with OR but the last, keeps the expansion and shrinks the termination measure |
| QueryWritten.StepTighter | libbinom/source/binom_impl/query.cxx:121-132 | the written round differs from the intended one only by turning some ORs into ANDs |
| QueryWritten.TighterImplies | libbinom/source/binom_impl/query.cxx:121-132 | a query with ORs turned into ANDs has no answer that the other one has not |
| QueryWritten.StepWellFormed | libbinom/source/binom_impl/query.cxx:99-142 | a round leaves no empty subexpression and no dangling OR inside one, and adds no dangling OR to the list itself |
| QueryWritten.Lost | libbinom/source/binom_impl/query.cxx:121-132 | a strictly tighter query without redundant terms loses the answer of one of them |
| QueryGood.GoodStepExact | libbinom/source/binom_impl/query.cxx:114-132 | the written round equals the intended one in exactly three situations: no suffix and last block; a suffix closing with OR; a suffix and a single sub-block |
| QuerySafe.SafeStep | libbinom/source/binom_impl/query.cxx:153-172 | a query is safe exactly when its next round is a good one and leaves a safe query |
| QueryReadOnce.ReadOnceTerms | libbinom/source/binom_impl/query.cxx:99-142 | a query with pairwise distinct conditions expands to terms none of which implies another |
| QueryExact.IntendedFlattens | libbinom/source/binom_impl/query.cxx:153-172 | with the intended closing relations, the rescan of every nested query without empty sub-lists or dangling ORs inside ends with a flat query of the same meaning |
| QueryExact.SafeFlattens | libbinom/source/binom_impl/query.cxx:153-172 | as written, the rescan of every safe query ends with a flat query of the same meaning |
| QueryExact.SafeResult | libbinom/source/binom_impl/query.cxx:153-172 | whenever the rescan of a safe query has ended, the result has the meaning of the query |
| QueryExact.WrittenSound | libbinom/source/binom_impl/query.cxx:153-172 | after any number of written rounds, every answer is an answer of the original query |
| QueryExact.UnsafeLoses | libbinom/source/binom_impl/query.cxx:153-172 | an unsafe query without redundant terms loses one particular answer in every flat result |
| QueryExact.WrittenExact | libbinom/source/binom_impl/query.cxx:153-172 | for pairwise distinct conditions, the rescan reaches a flat query of the same meaning if and only if the query is safe |
| QueryRounds.StepCount | libbinom/source/binom_impl/query.cxx:99-142 | the number read off a query goes down by exactly one with every round that is not the intended one, and is not changed by any other |
| QueryEnding.EndsExact | libbinom/source/binom_impl/query.cxx:153-172 | for every well-formed query, the rescan comes to an end if and only if this number is finite |
| QueryEnding.CountExact | libbinom/source/binom_impl/query.cxx:153-172 | the number is how many such rounds the rescan makes until the query is flat |
| QueryEnding.SafeCount | libbinom/source/binom_impl/query.cxx:153-172 | a query is safe if and only if the number is zero |
| QueryFailures.Diverges | libbinom/source/binom_impl/query.cxx:153-172 | a query that ends with alternatives in two places of its last AND-block, subexpressions inside included, never becomes flat |
| QueryFailures.SimplestEndlessQuery | libbinom/source/binom_impl/query.cxx:153-172 | (a OR b) AND (c OR d) is such a query, for any conditions |
| QueryFailures.EndlessInFront | libbinom/source/binom_impl/query.cxx:153-172 | (x OR y) AND (a OR (v OR w)) OR r never ends either, with its alternatives in front of the last AND-block |
| QueryFailures.LostAnswer | libbinom/source/binom_impl/query.cxx:121-132 | (a OR b) OR c becomes a OR (b AND c) and no longer finds what only satisfies b |
| ConditionQueries.ConditionQuery.InsertCopy | libbinom/source/binom_impl/query.cxx:114-132 | one pass inserts prefix, sub-block and suffix in front of a position, linking the sub-block to the suffix by AND |
| ConditionQueries.ConditionQuery.InsertCopies | libbinom/source/binom_impl/query.cxx:109-141 | the copying loop inserts one copy per AND-block of the subexpression, in order |
| ConditionQueries.ConditionQuery.SimplifyConjunctionBlock | libbinom/source/binom_impl/query.cxx:99-142 | the block around the subexpression is replaced by its copies and the position of the first one is returned |
| ConditionQueries.ConditionQuery.SimplifyBlockAround | libbinom/source/binom_impl/query.cxx:157-163 | one round of the scan advances the query by one round of the specification, and the scan goes on behind an unchanged front |
| ConditionQueries.ConditionQuery.SimplifySubExpressions | libbinom/source/binom_impl/query.cxx:153-172 | on the queries with a finite number of rounds, the list is left flat and equal to a number of rounds on the old one |
| AVLNodes.AVLNode.constructor | libbinom/source/binom_impl/avl_tree.cxx:74 | a new node has depth 1 and no neighbours |
| AVLShapes.RoundExact | libbinom/source/binom_impl/avl_tree.cxx:202-220 | a rotation leaves exact subtrees behind although a left rotation computes the new root's depth from an outdated one, and a round without rotation leaves an exact tree |
| AVLShapes.RoundDecreases | libbinom/source/binom_impl/avl_tree.cxx:202-220 | repeated rotations at one node come to an end, on unbalanced trees, whatever balance is asked for and whatever depths leaves carry |
| AVLBalance.SettleIs | libbinom/source/binom_impl/avl_tree.cxx:202-220 | all rounds at one node together are one single or one double rotation, also when a single rotation was taken by mistake first |
| AVLBalance.RebuiltBalanced | libbinom/source/binom_impl/avl_tree.cxx:207-217 | a node settles into a subtree that is balanced by its depths exactly when both subtrees are and the round is not misled |
| AVLBalance.ClimbExact | libbinom/source/binom_impl/avl_tree.cxx:202-220 | after one change of depth below, the whole loop ends without a crash in a tree balanced by its depths exactly when it starts on such subtrees and is never misled |
| AVLBalance.ExactBalanced | libbinom/source/binom_impl/avl_tree.cxx:202-220 | with exact depths, these trees are the AVL trees |
| AVLBalance.ChildTestNeverMisled | libbinom/source/binom_impl/avl_tree.cxx:207-217 | asking for the left child's balance, the loop is never misled |
| AVLOrder.ClimbKeeps | libbinom/source/binom_impl/avl_tree.cxx:202-220 | balanced or not, the loop keeps the in-order sequence of the whole tree and leaves depths that fit each other, exact ones if they were |
| AVLOrder.FindSeparates | libbinom/source/binom_impl/avl_tree.cxx:191-200 | the descent ends where all lower keys are on the left and all higher ones on the right |
| AVLResults.FindExact | libbinom/source/binom_impl/avl_tree.cxx:229-237 | the descent meets a node with the key exactly when the tree has one |
| AVLResults.InsertKeeps | libbinom/source/binom_impl/avl_tree.cxx:187-223 | insertion refuses exactly the present keys, puts the node in its place in the order and changes nothing else there; depths fit each other, and are exact if they were and the node carries the depth 1 |
| AVLResults.InsertExact | libbinom/source/binom_impl/avl_tree.cxx:187-223 | a new node goes into an AVL tree without a crash and keeps it one exactly when the loop is never misled; asking for the left child's balance it never is |
| AVLInsertion.WrittenInsertExact | libbinom/source/binom_impl/avl_tree.cxx:187-223 | the insertion of a new key as written goes wrong if and only if the lowest node above the new leaf that was higher on one side was so on the left, the leaf goes to the left of its left child, and `root->left` reads high on its right |
| AVLResults.DetachKeeps | libbinom/source/binom_impl/avl_tree.cxx:238-251 | unlinking a node with a missing child loses no other node exactly when its only child is a leaf |
| AVLResults.ExtractKeeps | libbinom/source/binom_impl/avl_tree.cxx:225-288 | removal fails exactly for absent keys, takes out the node with the key, keeps exact depths, and keeps all other nodes in order exactly when an only child is a leaf |
| AVLResults.ExtractOrdered | libbinom/source/binom_impl/avl_tree.cxx:225-288 | the remaining nodes are in order in any case |
| AVLResults.ExtractExact | libbinom/source/binom_impl/avl_tree.cxx:225-288 | in an AVL tree the only child is a leaf, and removal keeps the balance exactly when the loop is never misled |
| AVLRemoval.WrittenExtractExact | libbinom/source/binom_impl/avl_tree.cxx:225-288 | the removal of a key as written goes right if and only if, on the way up from the place that loses a level, told from the tree before, no node is mistaken: two higher on the left, about a left child not high on its inner side, while `root->left` further up is high on its right |
| AVLRemoval.MistakenRemoval | libbinom/source/binom_impl/avl_tree.cxx:225-288 | a balanced tree on which the written removal goes wrong |
| AVLCarried.CarriesOne | libbinom/source/binom_impl/avl_tree.cxx:225-288 | an extracted node carries the depth 1 exactly if it was a leaf, or had two children and changed places with a leaf that was not its own child; neighbours keep their depths |
| AVLCarried.InsertCarried | libbinom/source/binom_impl/avl_tree.cxx:187-223 | the insertion of a node that carries any depth leaves exact depths, and an AVL tree, if and only if it lands: the depth is 1, or it hangs below a node and the depth is at least 3, or it has no sibling, or it hangs on the inner side next to a leaf |
| AVLCarried.NeverCrashes | libbinom/source/binom_impl/avl_tree.cxx:187-288 | asking for the left child's balance, no operation crashes, whatever depths nodes carry |
| AVLRuns.RunKeeps | libbinom/source/binom_impl/avl_tree.cxx:187-288 | on every run of insertions and removals, as written or not, nodes put back included, every tree is ordered and its depths fit each other; they are exact as long as every node put carries the depth 1 |
| AVLRuns.RunBalanced | libbinom/source/binom_impl/avl_tree.cxx:187-288 | on every run that asks for the left child's balance, as long as every node put lands, every tree is an AVL tree with exact depths that holds the keys it should, and every node taken out may be put back |
| AVLRuns.RunSpoiled | libbinom/source/binom_impl/avl_tree.cxx:187-288 | the first node that does not land leaves depths that are not exact |
| AVLRuns.RunGoesOn | libbinom/source/binom_impl/avl_tree.cxx:187-288 | on every run that asks for the left child's balance, every tree takes every further operation without a crash |
| AVLPutBack.PutBack | libbinom/source/binom_impl/avl_tree.cxx:187-288 | a run of eight operations, as written or not, that takes out 7 and puts it back with the depth 2: the root stores 4 over a height of 3 |
| AVLRuns.FibNodes | libbinom/source/binom_impl/avl_tree.cxx:202-220 | a balanced tree of depth h has at least Fib(h + 2) - 1 nodes |
| AVLRuns.DescentsAreShort | libbinom/source/binom_impl/avl_tree.cxx:187-288 | on every run that asks for the left child's balance, as long as every node lands, a descent through d nodes happens in a tree of at least Fib(d + 2) - 1 nodes only |
| AVLLookup.GetExact | libbinom/source/binom_impl/avl_tree.cxx:341-353 | `get` tells whether a key is present exactly when the key is absent or on the left edge of the tree |
| AVLLookup.SeekExact | libbinom/source/binom_impl/avl_tree.cxx:341-353 | a lookup that goes to the side of the key finds exactly the present keys |
| AVLLookup.MissingChild | libbinom/source/binom_impl/avl_tree.cxx:207-211 | a balanced tree on which the written insertion rotates about a missing child |
| AVLHeap.FocusExact | libbinom/source/binom_impl/avl_tree.cxx:92-113 | child and parent pointers agree in the whole tree exactly when they agree around a place and below it |
| AVLTrees.AVLTree.constructor | libbinom/include/binom_impl/avl_tree.hxx:141 | a new tree is empty |
| AVLTrees.AVLTree.RotateRight | libbinom/source/binom_impl/avl_tree.cxx:121-143 | the pointer updates rotate the represented tree at any place, root included |
| AVLTrees.AVLTree.RotateLeft | libbinom/source/binom_impl/avl_tree.cxx:145-167 | likewise, with the outdated depth of the new root |
| AVLTrees.AVLTree.BalanceNode | libbinom/source/binom_impl/avl_tree.cxx:203-217 | one round on the heap is one round on the represented tree, and fails exactly where that rotates about a missing child |
| AVLTrees.AVLTree.BalanceUp | libbinom/source/binom_impl/avl_tree.cxx:202-220 | the loop turns the represented tree into the one that the specification computes |
| AVLTrees.AVLTree.LinkLeaf | libbinom/source/binom_impl/avl_tree.cxx:193-198 | the new node is linked at the free side of its parent |
| AVLTrees.AVLTree.Insert | libbinom/source/binom_impl/avl_tree.cxx:187-223 | the heap represents the specified insertion, with the depth that the node carries; null for a present key, with the tree unchanged |
| AVLTrees.AVLTree.Extract | libbinom/source/binom_impl/avl_tree.cxx:225-288 | the heap represents the specified removal; the node is returned unlinked with the specified depth, without children if its only child was a leaf, and no pointer to it is left |
| AVLTrees.AVLTree.SwapPosition | libbinom/source/binom_impl/avl_tree.cxx:10-65 | two nodes have exchanged their places in the represented tree; the stored depths go with the places unless the second node is a child of the first |
| AVLTrees.AVLTree.Unpin | libbinom/source/binom_impl/avl_tree.cxx:67-72 | a node is taken off its place with everything below it |
| AVLTrees.AVLTree.MinKeyNode | libbinom/source/binom_impl/avl_tree.cxx:171-175 | the leftmost node of a subtree |
| AVLTrees.AVLTree.DetachInner | libbinom/source/binom_impl/avl_tree.cxx:245-251 | an only child takes the place of the node before the loop starts at it |
| AVLTrees.AVLTree.Clear | libbinom/source/binom_impl/avl_tree.cxx:371-387 | the tree is empty afterwards and the nodes have been destroyed in the specified order |
| AVLSwaps.Exchange | libbinom/source/binom_impl/avl_tree.cxx:10-65 | in all three neighbourhood cases every pointer is renamed and each of the two nodes has the pointers of the other |
| AVLRenaming.RenamedLowered | libbinom/source/binom_impl/avl_tree.cxx:252-261 | after the exchange with the leftmost node on the right, the node is found at that node's place with no left child |
| AVLWalks.ClearExact | libbinom/source/binom_impl/avl_tree.cxx:371-387 | the nodes are destroyed once each, children first, exactly when every node without a left child has a leaf on its right at most |
| AVLWalks.ClearPruned | libbinom/source/binom_impl/avl_tree.cxx:371-387 | on any tree, exactly those nodes are destroyed, children first, that are not below the right child of a node without a left child |
| AVLWalks.BalancedClears | libbinom/source/binom_impl/avl_tree.cxx:374-380 | so it is in every balanced tree |
| AVLWalks.ClearOnce | libbinom/source/binom_impl/avl_tree.cxx:371-387 | no node is destroyed twice, balanced or not |
| AVLWalks.Last | libbinom/source/binom_impl/avl_tree.cxx:179-183 | down to the rightmost node, the last one in order |
| AVLWalks.Previous | libbinom/source/binom_impl/avl_tree.cxx:418-427 | the decrement goes to the node right in front, or to null in front of the first one |
| AVLLookup.LeafRemovalExact | libbinom/source/binom_impl/avl_tree.cxx:290-297 | a leaf removal without balancing leaves an AVL tree with exact depths exactly if the leaf was the root or had a leaf as its sibling |
| ValueLists.ValueList.PushBack | libbinom/source/binom_impl/multi_avl_tree.cxx:90-101 | the value is linked behind the others, which requires that it points nowhere on |
| ValueLists.ValueList.PushFront | libbinom/source/binom_impl/multi_avl_tree.cxx:103-114 | the value is linked in front of the others |
| ValueLists.ValueList.Extract | libbinom/source/binom_impl/multi_avl_tree.cxx:116-130 | exactly this value leaves the sequence, both chains and both ends are right again, and it points nowhere |
| MultiAVLTrees.InsertGood | libbinom/source/binom_impl/multi_avl_tree.cxx:345-406 | a new key node goes into a balanced tree without a crash, keeps it balanced and is its only change |
| MultiAVLTrees.ExtractGood | libbinom/source/binom_impl/multi_avl_tree.cxx:415-458 | a key node goes out of a balanced tree likewise |
| MultiAVLTrees.MultiAVLTree.Insert | libbinom/source/binom_impl/multi_avl_tree.cxx:345-406 | the value goes in front of the values of its key or behind them, or makes a new sequence; all other keys are untouched |
| MultiAVLTrees.MultiAVLTree.Extract | libbinom/source/binom_impl/multi_avl_tree.cxx:408-461 | the value leaves the sequence of its key; the key goes with its last value |
| MultiAVLTrees.MultiAVLTree.RemoveKey | libbinom/source/binom_impl/multi_avl_tree.cxx:465-531 | the key goes with all its values, destroyed in order, exactly if the lookup finds it; that is, if it is there, for lookups to the side of the key |
| MultiAVLWalks.FindEnd | libbinom/source/binom_impl/multi_avl_tree.cxx:533-555 | the first or the last value of the key exactly if the lookup finds it; that is, if it is there, for lookups to the side of the key |
| MultiAVLWalks.AllSorted | libbinom/source/binom_impl/multi_avl_tree.cxx:581-603 | all values come in the order of their keys, and those of one key in their own order |
| MultiAVLWalks.AllThere | libbinom/source/binom_impl/multi_avl_tree.cxx:581-603 | every value of every key is among them |
| MultiAVLWalks.Begin | libbinom/source/binom_impl/multi_avl_tree.cxx:581 | the first of all values, key by key |
| MultiAVLWalks.ReverseBegin | libbinom/source/binom_impl/multi_avl_tree.cxx:327-341 | the last of all values |
| MultiAVLWalks.Next | libbinom/source/binom_impl/multi_avl_tree.cxx:736-758 | the forward iterator goes from every position of the concatenated sequences to the next one, and to null at the end |
| MultiAVLWalks.Previous | libbinom/source/binom_impl/multi_avl_tree.cxx:1002-1024 | the reverse iterator goes from every position to the one before, so it is the exact reversal |
| MultiAVLWalks.ConstPrevious | libbinom/source/binom_impl/multi_avl_tree.cxx:1059-1081 | the const reverse iterator does the same inside a sequence, but from the first value of a key it goes to the first one of the next key |
| MultiAVLWalks.SameValues | libbinom/source/binom_impl/multi_avl_tree.cxx:605-632 | the values in postorder of the keys are all values, each as often as in order |
| MultiAVLWalks.Clear | libbinom/source/binom_impl/multi_avl_tree.cxx:605-632 | every value is destroyed once, key by key in the order of the tree's `clear`, no pointer of a destroyed key node is read, and the tree is empty |
| AVLWalks.Clear | libbinom/source/binom_impl/avl_tree.cxx:371-387 | the walk over the pointers destroys in the specified order and reads no pointer of a destroyed node |
| AVLWalks.Begin | libbinom/source/binom_impl/avl_tree.cxx:171-175 | the first node in order of a subtree |
| AVLWalks.Next | libbinom/source/binom_impl/avl_tree.cxx:407-416 | `++` goes to the next node in order, and to null behind the last one only |
| LocksSafety.StepSafe | libbinom/source/utils/shared_recursive_mutex_wrapper.cxx:68-171 | every step keeps counters equal to live locks, the held mode in agreement with them outside the gaps, exclusive holders alone, and every mutex operation within its rules |
| LocksSafety.RunSafe | libbinom/source/utils/shared_recursive_mutex_wrapper.cxx:68-171 | so at every moment of every interleaving |
| LocksSafety.MakeOk | libbinom/source/utils/shared_recursive_mutex_wrapper.cxx:74-104 | a new lock raises its counter by one and changes the held mode only as the mutex allows; the thread waits exactly without a lock on a mutex it cannot have, and goes through the gap exactly to make a unique lock while it has shared ones only |
| LocksSafety.DestroyOk | libbinom/source/utils/shared_recursive_mutex_wrapper.cxx:106-134 | a destroyed lock lowers its counter by one and releases the mutex in the mode held, through the gap exactly if it is the last unique one and shared ones are left |
| LocksSafety.HeldIs | libbinom/source/utils/shared_recursive_mutex_wrapper.cxx:68-72 | a thread holds a mutex in the unique mode if it has a unique lock, in the shared mode if it has shared ones only, and else not |
| LocksSafety.NothingToRelease | libbinom/source/utils/shared_recursive_mutex_wrapper.cxx:106-134 | without a lock of the kind, a release does nothing |
| LocksSafety.DropWrapperExact | libbinom/source/utils/shared_recursive_mutex_wrapper.cxx:16-25 | the last plain wrapper misuses the mutex exactly when locks of both kinds are left |
| LocksSteps.CreateExact | libbinom/source/utils/shared_recursive_mutex_wrapper.cxx:74-104 | when a lock can be made, and that the thread has one more of the kind then and nothing else has changed |
| LocksSteps.DeleteExact | libbinom/source/utils/shared_recursive_mutex_wrapper.cxx:106-134 | a lock can be destroyed if there is one; the thread has one less of the kind then |
| LocksSteps.GapExact | libbinom/source/utils/shared_recursive_mutex_wrapper.cxx:80-118 | behind a gap, the thread waits for the mode that it needs, gets it and goes on |
| LocksSteps.StaysHeld | libbinom/source/utils/shared_recursive_mutex_wrapper.cxx:68-134 | a thread with a lock on a mutex before and after a step holds the mutex after it, unless the step is its own change from shared locks to a unique one or back |
| LocksTransactions.RunOk | libbinom/source/utils/shared_recursive_mutex_wrapper.cxx:235-293 | on every run, a thread inside the constructor has what it had before and one lock more on each mutex taken so far |
| LocksSteps.BeginExact | libbinom/source/utils/shared_recursive_mutex_wrapper.cxx:235-249 | the constructor begins with the first mutex of the set and with what the thread has, unless the set is empty or no lock is asked for |
| LocksSteps.TakeExact | libbinom/source/utils/shared_recursive_mutex_wrapper.cxx:250-265 | the first mutex is waited for, all others are tried; success adds one lock, and a failed attempt adds none and turns back |
| LocksSteps.UndoExact | libbinom/source/utils/shared_recursive_mutex_wrapper.cxx:255-261 | turning back destroys the locks made, from the last one to the first |
| LocksSteps.UndoGoesOn | libbinom/source/utils/shared_recursive_mutex_wrapper.cxx:255-261 | turning back never waits |
| LocksSteps.AgainExact | libbinom/source/utils/shared_recursive_mutex_wrapper.cxx:246-266 | a round that has been taken back is followed by the next one, for the same mutexes |
| LocksSteps.InsideStays | libbinom/source/utils/shared_recursive_mutex_wrapper.cxx:246-290 | a step leaves the constructor only behind the last mutex of its set, whose kind and set stay the same until then |
| LocksSteps.TransactionExact | libbinom/source/utils/shared_recursive_mutex_wrapper.cxx:235-293 | on every run, a thread that begins a transaction and is idle next has one lock more on each mutex of the set, held in the mode asked for or a stronger one, and everything else as before |
| LocksTransactions.AllTaken | libbinom/source/utils/shared_recursive_mutex_wrapper.cxx:235-293 | when the constructor is through, every mutex of the set is held in the mode asked for or a stronger one, and nothing else has changed |
| LocksTransactions.RoundRestored | libbinom/source/utils/shared_recursive_mutex_wrapper.cxx:250-257 | a failed round restores the counters of the thread exactly |
| LocksTransactions.WaitsEmptyHanded | libbinom/source/utils/shared_recursive_mutex_wrapper.cxx:244-261 | a thread that began holding nothing waits only while it holds nothing |
| LocksTransactions.NoWaitCycle | libbinom/source/utils/shared_recursive_mutex_wrapper.cxx:235-293 | a thread that is waited for and began holding nothing does not wait itself; and whoever waits, in a transaction, a change of mode or the constructor of a plain lock, waits for somebody |
| LocksDeadlock.Deadlock | libbinom/source/utils/shared_recursive_mutex_wrapper.cxx:146-150 | a run after which two readers with transactions on the mutex they read wait for each other |
| TableSearch.TwoBounds | libbinom/source/binom_impl/ram_storage_implementation/index_impl.cxx:215-293 | where `find`, the lower bound and `upper_bound` point among the lower, equal and higher entries |
| TableSearch.VisitExact | libbinom/source/binom_impl/ram_storage_implementation/index_impl.cxx:118-196 | the range walk of an operator visits exactly the matching entries, once and in order, if and only if: for equal, lower and higher_or_equal the key is present or nothing is higher; for not_equal the key is absent or something is higher; from the lower bound on, always |
| TableSearch.VisitFails | libbinom/source/binom_impl/ram_storage_implementation/table_impl.cxx:482-518 | the walks that run past the end: as written, equal for an absent key with a higher one; not_equal for a present key without a higher one |
| TableFind.WalkExact | libbinom/source/binom_impl/ram_storage_implementation/table_impl.cxx:460-519 | the walk for one condition leads to exactly the rows that satisfy it if and only if its range fits and no row without the column satisfies it |
| TableFind.ReachedRow | libbinom/source/binom_impl/ram_storage_implementation/table_impl.cxx:460-519 | the walk for one condition leads to a row exactly if the row satisfies the condition and is not missed, or is an extra one: for an absent key, `lower` takes the higher rows and `higher_or_equal` leaves them out |
| TableFind.MistakesCount | libbinom/source/binom_impl/ram_storage_implementation/table_impl.cxx:398-519 | a row found by mistake does not satisfy the block, and one left out by mistake does, so that mistakes never cancel out in a block |
| TableFind.IntendedFits | libbinom/source/binom_impl/ram_storage_implementation/table_impl.cxx:478-518 | from the lower bound on, the indexed search of a block equals the scan whenever its operator is contains, or equal, higher or higher_or_equal with a value, or every row has the column |
| TableFind.OneEntry | libbinom/source/binom_impl/ram_storage_implementation/index_impl.cxx:118-196 | on an index with one entry, as written, equal and not_equal run past the end, lower finds a wrong row and higher_or_equal misses one |
| TableFind.QueryFitsExact | libbinom/source/binom_impl/ram_storage_implementation/table_impl.cxx:321-342 | the answers of a query are found if and only if all walks end, every row that a block finds by mistake satisfies another block, and every row that one misses is found by another |
| TableFind.Table.ChooseIndex | libbinom/source/binom_impl/ram_storage_implementation/table_impl.cxx:403-445 | the condition preferred to all others; none exactly if no column is indexed; the null index is never read |
| TableFind.ScoreGrades | libbinom/source/binom_impl/ram_storage_implementation/table_impl.cxx:415-441 | the scores rank the searches: unique equal; multi equal, unique higher and lower; unique with or-equal; unique not_equal; unique contains; multi higher and lower; multi with or-equal; multi not_equal; multi contains; inside a grade fewer entries are preferred, then the first position |
| TableFind.EqualFirst | libbinom/source/binom_impl/ram_storage_implementation/table_impl.cxx:406-444 | a query whose search goes by equal and ends, where the one by not_equal would run past the end |
| TableFind.IterateRange | libbinom/source/binom_impl/ram_storage_implementation/table_impl.cxx:465-476 | the loop visits a range and fails exactly if it begins behind its end |
| TableFind.IterateAround | libbinom/source/binom_impl/ram_storage_implementation/table_impl.cxx:485-504 | the loop jumps from the first range to the second without looking for the end |
| TableFind.Table.FilterByConjunctionBlock | libbinom/source/binom_impl/ram_storage_implementation/table_impl.cxx:398-519 | the search of a block ends exactly if the chosen walk does, finds the rows that satisfy all conditions but for the named mistakes, each once, and equals the scan if and only if it ends and no row that satisfies the other conditions is mistaken |
| TableFind.Table.Scan | libbinom/source/binom_impl/ram_storage_implementation/table_impl.cxx:447-458 | the scan finds exactly these rows, each once |
| TableFind.Table.Find | libbinom/source/binom_impl/ram_storage_implementation/table_impl.cxx:321-342 | the block walk over a flat query finds what its blocks find, and answers it with exactly the rows under which it holds if and only if all walks end and the blocks make up for each other's mistakes |
| TableQueries.FindNested | libbinom/source/binom_impl/ram_storage_implementation/table_impl.cxx:321-342 | flattening and search of a nested query: a safe one is answered with exactly the rows under which it holds if and only if the flat query fits; any other fitting one with such rows only |
| TableQueries.FindSafe | libbinom/source/binom_impl/ram_storage_implementation/table_impl.cxx:321-342 | a safe nested query whose blocks fit is answered with exactly the rows under which it holds |
| TableQueries.LostRows | libbinom/source/binom_impl/ram_storage_implementation/table_impl.cxx:321-342 | an unsafe nested query without redundant terms loses the rows with only the conditions of one term |
| TableFind.Table.TestQuery | libbinom/source/binom_impl/ram_storage_implementation/table_impl.cxx:305-318 | the early-exit loop computes the meaning of the query, except that an empty query and one ending in OR are satisfied by every row |
| TableFields.AddRemove | libbinom/source/binom_impl/ram_storage_implementation/index_impl.cxx:501-565 | registering a field and removing it again restores its state, and neither changes its key |
| TableFields.AddAllRemoveAll | libbinom/source/binom_impl/ram_storage_implementation/index_impl.cxx:501-565 | registering a field at any indexes of its column and removing it from all of them in any order restores its state |
| TableFields.AddedIs | libbinom/source/binom_impl/ram_storage_implementation/index_impl.cxx:501-521 | a registration adds one index to those of a field and keeps its key |
| TableFields.RemovedIs | libbinom/source/binom_impl/ram_storage_implementation/index_impl.cxx:523-544 | the end of a registration takes one index away and keeps the key |
| TableFields.Field.GetKey | libbinom/source/binom_impl/ram_storage_implementation/index_impl.cxx:604-611 | the key does not depend on which index is asked |
| TableFields.Index.Add | libbinom/source/binom_impl/ram_storage_implementation/index_impl.cxx:342-362 | adds an entry and the pointer back, or fails and changes nothing: for a wrong column, a value that is no key, a value taken in a unique index; fields and indexes stay linked unless the field is added to the same index again |
| TableFields.Index.Remove | libbinom/source/binom_impl/ram_storage_implementation/index_impl.cxx:364-381 | takes back both, or fails exactly if the field is not registered; keeps the links |
| TableFields.Index.Clear | libbinom/source/binom_impl/ram_storage_implementation/index_impl.cxx:383-393 | ends with an empty index because every entry points back; every former entry has left it |
| TableFields.EntriesFollow | libbinom/source/binom_impl/ram_storage_implementation/index_impl.cxx:342-393 | the entries of all indexes are determined by the states of the fields |
| TableRows.EnterLeave | libbinom/source/binom_impl/ram_storage_implementation/table_impl.cxx:99-110 | leaving the index of a column undoes entering it |
| TableRows.Table.RefusedIs | libbinom/source/binom_impl/ram_storage_implementation/table_impl.cxx:91-110 | whether an index refuses a field is known before the insertion: it has no key value, or its value is taken in a unique index, by then or by a field in front of it |
| TableRows.Table.RefusedExact | libbinom/source/binom_impl/ram_storage_implementation/table_impl.cxx:91-110 | a field is refused exactly if its column has an index and its value is no key, or is taken in that index, which is unique, by a field there or in front of it in the row |
| TableRows.Table.RollBack | libbinom/source/binom_impl/ram_storage_implementation/table_impl.cxx:99-110 | the rollback takes out the fields in front of the refused one, as written except the first; its removals never fail |
| TableRows.Table.Insert | libbinom/source/binom_impl/ram_storage_implementation/table_impl.cxx:73-117 | refuses exactly if the row is there, a constraint fails or a field is refused, with the error of the first such field; success registers every field of an indexed column; failure leaves everything as before, and rows, indexes and fields linked, if and only if it undoes all, or the first field is refused or has no index to its column; as written, the table stays registered at the row; every field but the first has the state it had |
| TableRows.OrphanEntry | libbinom/source/binom_impl/ram_storage_implementation/table_impl.cxx:99-110 | a row of two fields, the second value taken: as written, the failed insertion leaves the first field in its index |
| TableRows.InsertTaken | libbinom/source/binom_impl/ram_storage_implementation/table_impl.cxx:73-117 | the insertion of such a row, which leaves that entry and the table at the row as written, and nothing if it undoes all |
| TableRows.Table.Remove | libbinom/source/binom_impl/ram_storage_implementation/table_impl.cxx:187-216 | the row and exactly its fields leave the indexes of the table; the rest stays linked, and every field keeps its key and the indexes of other tables |
| TableRows.Table.Clear | libbinom/source/binom_impl/ram_storage_implementation/table_impl.cxx:174-178 | all indexes and the table are empty, and fields and indexes stay linked; every field keeps its key and the indexes of other tables |
| TableViews.IndexShown | libbinom/source/binom_impl/ram_storage_implementation/table_impl.cxx:73-117 | the indexes of a table, as insertion, removal and clearing keep them, hold every row with the column once under its value, as the search needs it |
| Bits.DoRightShift | libbinom/include/utils/util_functions.hxx:33-52 | bit by bit, every bit comes from `shift` places further up, zeros follow, and nothing outside the range changes |
| Bits.DoLeftShift | libbinom/include/utils/util_functions.hxx:14-31 | bit by bit, every bit comes from `shift` places further down, for every shift that does not leave the loop running away |
| BitNumbers.RightShiftDivides | libbinom/include/utils/util_functions.hxx:33-52 | as a little-endian number, divided by 2^shift, rounding down |
| BitNumbers.LeftShiftMultiplies | libbinom/include/utils/util_functions.hxx:14-31 | as a little-endian number, multiplied by 2^shift modulo 2^(8 * size) |
| BitArrays.BeginByteIs | libbinom/source/binom_impl/ram_storage_implementation/bit_array_impl.cxx:119-166 | the byte in which the removed range begins is put together right in all three unaligned cases |
| BitArrays.RemovedBits | libbinom/source/binom_impl/ram_storage_implementation/bit_array_impl.cxx:111-168 | the bytes after a removal hold the other bits in order |
| BitArrays.CutOutAt | libbinom/source/binom_impl/ram_storage_implementation/bit_array_impl.cxx:105-170 | a removal position by position: a range behind the end takes nothing, one that reaches the end everything from its begin on, any other one its own bits |
| BitArrays.InsideLastByte | libbinom/source/binom_impl/ram_storage_implementation/bit_array_impl.cxx:119-140 | a range inside the last byte can be removed only if it is byte-aligned |
| BitArrays.BitArray.ReduceSize | libbinom/source/binom_impl/ram_storage_implementation/bit_array_impl.cxx:53-61 | the size is lowered, to zero at least |
| BitArrays.BitArray.RemoveBits | libbinom/source/binom_impl/ram_storage_implementation/bit_array_impl.cxx:105-170 | removal deletes the slice from the bit sequence exactly if the range reaches the end, is aligned, ends before the last byte in use, or ends at a lower bit than it begins; otherwise the shift leaves the bytes |
| KeyOrder.TotalOrder | libbinom/source/variables/key_value.cxx:181-246 | the intended order of keys is total: it never fails, is antisymmetric and transitive, and is equal exactly on equal keys |
| KeyOrder.GetCompare | libbinom/source/variables/key_value.cxx:181-246 | the walk over both keys computes the specified comparison |
| KeyOrder.KindsOrder | libbinom/source/variables/key_value.cxx:181-183 | as written, null is below all other keys, numbers are below arrays, and bit arrays below other arrays |
| KeyOrder.NumbersOrder | libbinom/source/variables/key_value.cxx:187-195 | the greater of two numbers is the higher key whatever their types, unless an unsigned one is compared with a negative one |
| KeyOrder.TiesOrder | libbinom/include/binom_impl/types.hxx:175-201 | equal numbers and equal arrays are ordered by their types, from boolean to 64-bit signed |
| KeyOrder.ArraysOrder | libbinom/source/variables/key_value.cxx:197-240 | the first difference decides between two arrays; the longer one is higher if it comes first, and if it comes second the comparison reads behind the end |
| KeyOrder.RangeIs | libbinom/include/binom_impl/types.hxx:175-201 | the values of each type, and so which types are signed |
| KeyOrder.CompareExact | libbinom/source/variables/key_value.cxx:181-246 | the written comparison gives the intended order if and only if no unsigned value meets a negative one before the first difference and the first array is not a proper prefix of the second |
| KeyOrder.ValuesExact | libbinom/include/utils/generic_arithmetic.hxx:212-322 | the comparison of two numbers is right exactly unless the first is unsigned and the second negative |
| KeyOrder.BothLower | libbinom/include/utils/generic_arithmetic.hxx:221-322 | an unsigned number and a negative one are each lower than the other |
| KeyOrder.SameSignSound | libbinom/source/variables/key_value.cxx:181-246 | keys of one signedness, none a proper prefix of the other, are ordered as intended |
| KeyRanks.RanksExact | libbinom/source/variables/key_value.cxx:181-246 | numbers that agree with the written comparison exist for a set of keys if and only if the keys are pairwise sound |
| KeyRanks.SeenOrder | libbinom/source/variables/key_value.cxx:181-246 | such numbers put null first, so that the order of the searches is that of the comparison |

## Left out

- QueryExact.WrittenExact: for queries that repeat conditions only the direction from safe to correct is stated (SafeFlattens), because a lost copy may be implied by another one.
- ConditionQueries.ConditionQuery.SimplifySubExpressions: requires a well-formed query on which the rescan ends (QueryEnding.EndsExact: on all others it never does). List iterators are positions.
- Sub-lists that are empty or end in OR: an empty one with a suffix and nothing in front of it never goes away, and a dangling OR means different things to the two evaluators.
- AVLTrees.AVLTree.Extract: the overloads by node and by iterator are not modelled; they start the balancing of a leaf removal at null (AVLLookup.LeafRemovalExact).
- AVLTrees.AVLTree.Insert: the node must have no neighbours; a node that carries away the children of its only child, which happens in unbalanced trees only, is not put back.
- AVLRuns.RunKeeps: likewise, a node is put that is new or has been returned without children; a node that was lost with such a child is not put back.
- AVLWalks.Next: the const and reverse iterators repeat Next and Previous and are not repeated here.
- MultiAVLTrees.MultiAVLTree.Insert: requires the balanced tree that asking for the left child's balance keeps; what the written test of root->left does to a tree of keys is the subject of AVLResults. Descent, new key node and balancing are done before the value is linked to a new key node.
- MultiAVLTrees.MultiAVLTree.Extract: after the removal of a leaf the balancing starts at its parent; the written start at null is the subject of AVLLookup.LeafRemovalExact.
- MultiAVLWalks.Next: the const, decrementing and key-wise steps that repeat Next and Previous are not modelled.
- LocksSafety.RunSafe: moving lock objects between owners, and counters that exceed 64 bits, are not modelled; a mutex is an atomic shared/exclusive lock, and its attempts may fail without reason.
- LocksTransactions.NoWaitCycle: says nothing about waited-for threads that hold locks when they begin (see LocksDeadlock.Deadlock), nor that two transactions cannot keep undoing each other's attempts.
- TableFind.Table.FilterByConjunctionBlock: multimap rows are not modelled; for them higher_or_equal tests for higher.
- TableFind.Table.Find: takes a flat query (for nested ones, see TableQueries.FindNested); the result is the set of rows; the insertion of these rows into the result table is not modelled.
- TableRows.Table.Insert: the result of the constraint checks is a parameter, resource locks are granted, and rows are identities.
- Renaming the key or replacing the value of an indexed field, and the move from one map to another.
- Bits.DoLeftShift: the calls without a shift, or with one beyond the size, that make the source loop wrap around are excluded by its precondition.
- BitArrays.BitArray.RemoveBits: sizes are unbounded, so that at + count does not wrap; capacity, growth and insertBits are not modelled.
- KeyOrder.Compare: floating-point keys, and the overload that compares a key with a variable.
- The bit masks and getNearestPow2 of util_functions.hxx.
- Output, serialization, memory-mapped files, reference counting, and the storage of arrays, lists and buffer arrays.
