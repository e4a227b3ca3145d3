# Automata union and intersection (aag_2.cpp), modelled in Dafny

`aag_2.cpp` computes the union and the intersection of two nondeterministic
finite automata over a byte alphabet. It returns the result as a minimised,
partial deterministic automaton. The steps are:

- `unify` builds a union NFA with a fresh start state 0.
- `intersect` builds the product NFA over state pairs.
- `ToDFA` determinises either one by the subset construction. Its helper
  `addToQueue` gives each newly discovered set of NFA states the next
  dense id.
- `ToMinimalDFA` minimises the result in four stages:
  - `removeUnreachable` drops the states that cannot be reached;
  - `removeRedundant` drops the states from which no final state can be
    reached;
  - a Hopcroft-style partition refinement built on `splitSet` groups the
    remaining states;
  - the blocks are renumbered in the order of `std::set<std::set<State>>`.
- `remapSet` renames a set of states through a map.

The model keeps every one of these steps, with the same branches, the same
iteration orders where they decide the result, and the same degenerate
cases. It is split into these modules:

| file | module | what it holds |
|---|---|---|
| `set_order.dfy` | `SetOrder` | ascending iteration of `std::set<State>`, and the lexicographic order of `std::set<std::set<State>>` |
| `automata.dfy` | `Automata` | the `NFA`/`DFA` records, well-formedness, NFA runs and DFA acceptance, renamings, `remapSet` |
| `graph.dfy` | `Graph` | walks, reachability, and the breadth-first worklist both pruning passes run |
| `subset.dfy` | `Subset` | `addToQueue`, `ToDFA` |
| `prune.dfy` | `Prune` | `removeUnreachable`, `removeRedundant` |
| `refine.dfy` | `Refine` | `splitSet` and the refinement loop |
| `minimize.dfy` | `Minimize` | `ToMinimalDFA`: pruning, the empty case, renumbering, the quotient |
| `combine.dfy` | `Combine` | `unify`, `intersect` |

Two things the code does are kept as properties rather than assumed away:

- When every state left after pruning is final, the first `splitSet`
  yields an empty half of non-final states. (Some final state always
  survives pruning, so the other half is never empty.) The code does not
  drop an empty half, as a textbook split would: it goes into the partition
  and the worklist.
  It is never removed, and it becomes output state 0, a state with no
  transitions that is not final and not initial
  (`Minimize.LemmaPhantomState`).
- When the quotient merges states that disagree on a symbol, the transition
  written last wins. That is the one of the greatest such source state
  (`Minimize.LemmaCollapse`).

## Model

| member | source | states |
|---|---|---|
| Automata.RemapSet | aag_2.cpp:48-55 | every member of the set has its image in the result, and every member of the result is the image of some member |
| Automata.LemmaRemapMember | aag_2.cpp:48-55 | under an injective map, the image of `x` is in the renamed subset exactly when `x` is in the subset |
| Automata.LemmaRemapSetInjective | aag_2.cpp:48-55 | renaming through an injective map keeps the number of states |
| Automata.LemmaRenaming | aag_2.cpp:343-352 | the ascending renaming from an offset is an order-preserving bijection onto the `size(s)` ids starting at `offset` |
| SetOrder.Min | aag_2.cpp:82 | the next symbol a `std::set` loop visits is a member of the remaining symbols no greater than any other |
| SetOrder.LemmaSorted | aag_2.cpp:328 | the ascending listing of a set, the order in which `std::map` visits its keys, has the set's size, exactly its members, and strictly increases |
| SetOrder.LemmaSetLeTotal | aag_2.cpp:244-245 | the lexicographic order on blocks compares any two blocks |
| SetOrder.LemmaSetLeAntisymmetric | aag_2.cpp:244-245 | two blocks ordered both ways are equal, so the order lists distinct blocks unambiguously |
| SetOrder.LemmaSetLeTransitive | aag_2.cpp:244-245 | the lexicographic order on blocks is transitive |
| SetOrder.LemmaMinBlockLeast | aag_2.cpp:255 | `queue.begin()` is a block of the worklist no greater than any other |
| SetOrder.BlockOrder | aag_2.cpp:304 | the iteration of the partition lists every block exactly once |
| SetOrder.LemmaBlockOrderSorted | aag_2.cpp:304 | that listing is in ascending lexicographic order |
| SetOrder.LemmaEmptyBlockFirst | aag_2.cpp:304-309 | an empty block, when present, comes first and so gets id 0 |
| Subset.AddToQueue | aag_2.cpp:57-69 | a new non-empty set is appended with id equal to the number of sets seen; an empty or known set changes nothing; queue and id map stay in agreement |
| Subset.LemmaQueueBounded | aag_2.cpp:79-97 | the queue holds distinct subsets of the NFA's states, so it is never longer than the number of such subsets |
| Subset.ToDfa | aag_2.cpp:71-107 | DFA state `i` is the `i`-th discovered set, with `{initial}` first; every queued set is non-empty and is reached from `{initial}` by a word over the alphabet; the states are exactly `0 .. k-1`; `(i, c)` has a transition iff the successor set on `c` is non-empty, and it leads to that set's id; `i` is final iff its set meets the NFA's final states |
| Subset.LemmaSubsetRun | aag_2.cpp:71-107 | from the state of a discovered set, the DFA accepts a word iff the word is over the alphabet and the NFA reads it from that set into a final state |
| Subset.LemmaSubsetAccepts | aag_2.cpp:71-107 | the DFA accepts exactly the words over the alphabet that the NFA accepts |
| Subset.LemmaQueueReached | aag_2.cpp:57-107 | a set of NFA states is queued iff it is non-empty and some word over the alphabet leads from `{initial}` to exactly that set, so the DFA has one state per such set |
| Graph.VisitSuccs | aag_2.cpp:120-130 | one expansion adds exactly the successors of the head not yet reached, and lists each of them once for the queue |
| Graph.Bfs | aag_2.cpp:110-133 | the worklist ends holding exactly the nodes reachable from the seeds |
| Prune.RemoveUnreachable | aag_2.cpp:109-157 | the states are exactly those reachable by alphabet symbols from the initial state; finals and transitions are restricted to them; alphabet and initial state are unchanged; the result is accessible |
| Prune.LemmaAccessibleFixpoint | aag_2.cpp:109-157 | an automaton with no unreachable state is returned unchanged, so the pass is idempotent |
| Prune.LemmaReachableAccepts | aag_2.cpp:139-156 | the pruned automaton accepts no word the original rejects, and accepts every word over the alphabet the original accepts |
| Prune.RemoveRedundant | aag_2.cpp:159-200 | the states are exactly those from which a final state can be reached along any transition; transitions are restricted to them; finals, alphabet and initial state are untouched; every kept state is useful |
| Prune.LemmaCoAccessibleFixpoint | aag_2.cpp:159-200 | an automaton whose every state is useful is returned unchanged |
| Prune.LemmaAcceptingUseful | aag_2.cpp:159-185 | a state from which some word is accepted is among the useful states |
| Prune.LemmaUsefulAccepts | aag_2.cpp:187-199 | dropping the useless states changes the acceptance of no word from any state |
| Refine.SplitSet | aag_2.cpp:202-215 | the halves are disjoint, their union is the source, the first lies inside the divisor and the second outside it |
| Refine.LemmaSplitSetUnique | aag_2.cpp:202-215 | any two sets with those properties are the two halves |
| Refine.LemmaPieces | aag_2.cpp:274-281 | the pieces of a block cover it; a block the splitter cuts becomes two non-empty pieces, one inside the splitter and one outside it; any other block stays as it is |
| Refine.LemmaSplitPass | aag_2.cpp:271-297 | the pass over the blocks in set order yields every block replaced by its pieces, and the worklist updated block by block: both halves for a waiting block, else the smaller half, with the first half on a tie |
| Refine.LemmaSplitAllPartition | aag_2.cpp:271-297 | splitting every block keeps a partition of the same states |
| Refine.LemmaSplitAllRespects | aag_2.cpp:271-297 | splitting keeps final and non-final states in separate blocks |
| Refine.LemmaSplitAllEmpty | aag_2.cpp:276-280 | splitting neither creates nor removes the empty block |
| Refine.LemmaSplitAllCard | aag_2.cpp:271-297 | splitting never loses a block, and adds one whenever some block is cut |
| Refine.LemmaPartitionBound | aag_2.cpp:254-300 | a partition of `n` states, the empty block included, has at most `n + 1` blocks, which bounds the refinement |
| Refine.LemmaRefineStart | aag_2.cpp:248-252 | the first split puts the final and non-final states, possibly one of them empty, into both the partition and the worklist |
| Refine.LemmaApplySplitter | aag_2.cpp:270-298 | one splitter keeps partition, separation of finals and worklist-inside-partition, and either changes nothing or grows the partition |
| Refine.SplitByBlock | aag_2.cpp:258-299 | the loop over the alphabet for one removed block keeps the refinement invariant and either changes nothing or grows the partition |
| Refine.RefinePartition | aag_2.cpp:244-300 | the refinement ends with a partition of the states that never mixes finals with non-finals, and holds the empty block exactly when all states are final or none is |
| Minimize.Trim | aag_2.cpp:217-219 | the first pass keeps exactly the states a word reaches, and the second exactly the states useful after the first; the result holds the final states and the transitions of the input among its states, and lies within its states; it is accessible, co-accessible, and empty exactly when no final state can be reached; a trim automaton is left unchanged; no word is gained, and no word over the alphabet is lost |
| Minimize.LemmaBlockIds | aag_2.cpp:302-309 | every state of the `i`-th listed block gets id `i`, and every id names the block its state is in |
| Minimize.LemmaWrites | aag_2.cpp:326-332 | writing the transitions in ascending order of source leaves for `(block, c)` exactly the write of the greatest state of that block with a transition on `c` |
| Minimize.LemmaCollapse | aag_2.cpp:326-332 | a block has a transition on `c` iff one of its states has, and it leads to the block of the target of the greatest such state |
| Minimize.LemmaQuotient | aag_2.cpp:302-332 | the quotient is well formed; its initial state is the block of the initial state; block `i` is final iff it holds a final state; its transitions are those of `LemmaCollapse` |
| Minimize.LemmaRemappedFinals | aag_2.cpp:318-324 | a block id is among the renamed finals iff its block holds a final state |
| Minimize.LemmaRenumberedFinals | aag_2.cpp:318-324 | output state `i` is final iff its block is non-empty and made of final states only |
| Minimize.Renumber | aag_2.cpp:244-333 | the refined blocks are listed in set order, disjoint, covering the states, never mixing finals with non-finals, and the result is the quotient by them |
| Minimize.LemmaPhantomState | aag_2.cpp:248-309 | when a final state is left, an empty block exists iff every state is final, and then output state 0 is that block: not initial, not final, with no transitions |
| Minimize.ToMinimalDfa | aag_2.cpp:217-333 | the pruned automaton is what the two passes leave, as for `Trim`; with nothing left the result is the one state 0, initial, not final, with no transitions; otherwise it is the quotient of the pruned automaton by its refined blocks in set order; it is the empty automaton exactly when no final state can be reached, and accepts the empty word exactly when the input does |
| Minimize.LemmaMinimalEmpty | aag_2.cpp:220-224 | the result is the one-state empty automaton exactly when no final state of the input can be reached |
| Combine.Merge | aag_2.cpp:367-383 | a key is present iff some write targets it, and its set is the union of everything written to it |
| Combine.UnionNfa | aag_2.cpp:336-383 | the union NFA starts in 0 and its alphabet is the union of both alphabets |
| Combine.LemmaUnionNames | aag_2.cpp:342-352 | `a`'s states are renamed into `1 .. size(a)` and `b`'s into `size(a)+1 .. size(a)+size(b)`, and these with 0 cover every id |
| Combine.LemmaUnionNfa | aag_2.cpp:336-383 | the union NFA is well formed; 0 is final iff either initial state is; a renamed state is final iff the original was; each renamed state has exactly the renamed transitions of the original; 0 has a transition on `c` iff either initial state has, to the union of their renamed successors |
| Combine.LemmaUnionAccepts | aag_2.cpp:336-383 | the union NFA accepts a word iff `a` or `b` accepts it |
| Combine.LemmaPairIdBound | aag_2.cpp:394-401 | pair ids lie below `size(a) * size(b)` |
| Combine.LemmaPairIdInjective | aag_2.cpp:394-401 | distinct pairs get distinct ids |
| Combine.LemmaPairIdsDense | aag_2.cpp:394-401 | the pair ids are exactly `0 .. size(a) * size(b) - 1` |
| Combine.ProductNfa | aag_2.cpp:392-431 | the product NFA's alphabet is the union of both alphabets |
| Combine.LemmaProductStates | aag_2.cpp:395-401 | the product's states are exactly the pair ids |
| Combine.LemmaProductKey | aag_2.cpp:405-420 | a pair has a transition on `c` iff both components have non-empty transitions on `c`, and it leads to all pairs of their targets |
| Combine.LemmaProductNfa | aag_2.cpp:392-429 | the product is well formed, a pair is final iff both components are, and its transitions are those of `LemmaProductKey` |
| Combine.LemmaProductAccepts | aag_2.cpp:392-429 | the product NFA accepts a word iff both `a` and `b` accept it |
| Combine.Unify | aag_2.cpp:336-390 | the determinised union is the subset automaton of the union NFA and accepts exactly the words over the joint alphabet that `a` or `b` accepts; the result is what `ToMinimalDfa` makes of it (pruning, blocks, quotient); it is well formed over the joint alphabet, is the one-state empty automaton exactly when no final state of the determinised union can be reached, and accepts the empty word exactly when `a` or `b` does |
| Combine.Intersect | aag_2.cpp:392-435 | the determinised product is the subset automaton of the product NFA and accepts exactly the words over the joint alphabet that both `a` and `b` accept; the result is what `ToMinimalDfa` makes of it (pruning, blocks, quotient); it is well formed over the joint alphabet, is the one-state empty automaton exactly when no final state of the determinised product can be reached, and accepts the empty word exactly when both do |

## Left out

- The test harness: `operator==`, `main` and their fixtures (aag_2.cpp:437-619). The empty-language case `main` checks is stated by `Minimize.LemmaMinimalEmpty`.
- Includes and preprocessor guards (aag_2.cpp:1-23). Only the record shapes are kept.
- `State` is `unsigned int`, but the model uses an unbounded `nat`. The ids the code hands out (at most `2^n` subsets, `|a| + |b| + 1` union states, `|a| * |b|` pairs) are assumed to stay below 2^32, so no wrap-around is modelled.
- `charSplitedB` is keyed by `char` where the symbols are `uint8_t` (aag_2.cpp:405). The model uses one symbol type, 0 to 255.
- `std::map::operator[]` inserts a default 0 when the key is missing (aag_2.cpp:51, 311, 321, 329, 355, 359, 413, 416, 424). The model replaces these with lookups that must succeed, backed by `WellFormedNfa`: the initial state, the final states and every transition endpoint are states. The code's behaviour on malformed inputs, such as a final state that is not a state, is not modelled.
- Combine.Unify: states that the minimised result is the quotient of the pruned determinised union, but not that it accepts the same words. The refinement's final partition is not proved to be a congruence, and minimality does not hold because of the empty block.
- Combine.Intersect: does not state the language of the minimised result, for the same reason.
- Minimize.ToMinimalDfa: the contract states the shape of the quotient. It does not claim that the quotient accepts the same words as its input, or that it is minimal.
- Refine.RefinePartition: the contract does not claim that the final partition is stable under every symbol. It also makes no claim on the number of splitting rounds: the smaller-half rule (aag_2.cpp:288-292) is modelled exactly, but no complexity bound is proved.
- Subset.ToDfa: the contract numbers the states by their position in the discovery queue, and `Subset.LemmaQueueReached` fixes which sets are queued, but neither fixes the breadth-first order in which they are discovered. The body follows that order: queue position first, then ascending symbols.
- Graph.Bfs: the contract states the set of nodes reached, not the order of the queue. Only the set is used afterwards.
- Minimize.Trim: `removeUnreachable` follows only symbols of the alphabet, but keeps every transition between the states it keeps, whatever its symbol, as the code does. So the contract claims that no word over the alphabet is lost and that no word at all is gained, not that the language is unchanged.
