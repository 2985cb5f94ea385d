# PDB2PQR utilities: graph search, sorting, warning filter, factorial

This project models and proves properties of the general-purpose helpers in
`pdb2pqr/utilities.py` that the rest of PDB2PQR builds on:

- `shortest_path(graph, start, end, path=[])` is the naive recursive path
  search over an unweighted graph given as a mapping from a node to its
  list of neighbours. It tries every neighbour not yet on the current path
  and keeps a new path only when it is strictly shorter than the one kept.
  The model (`ShortestPaths`) has a ghost specification (`Search`, `Explore`,
  `Found`) and a recursive method `ShortestPath` with the source's loop,
  proved equal to it. The lemmas then show:
  - the default call returns a shortest repeat-free path;
  - it returns `None` exactly when `end` is unreachable;
  - `[start]` comes back when `start == end`;
  - among equally short paths, the result is the first one the neighbour
    order yields.
- `analyze_connectivity(map_, key)` is a worklist flood fill. The method
  `AnalyzeConnectivity` (`Connectivity`) keeps the source's `while` loop and
  inner `for` loop. It is proved to return, without repeats, exactly the
  nodes reachable from `key`, starting with `key`. It terminates on cyclic
  maps.
- `sort_dict_by_value(inputdict)` builds the `(value, key)` items, sorts
  them with `list.sort()`, reverses them and keeps the keys. The method
  `SortDictByValue` (`SortByValue`) does these four steps on an array:
  - listing the items;
  - an in-place insertion sort under Python's tuple order;
  - an in-place reverse;
  - the key projection.

  It is proved to list every key once, in descending `(value, key)` order.
  A separate lemma shows that this order fixes the result, so the
  dictionary's own order does not matter.
- `DuplicateFilter.filter` is the logging filter that rate-limits warnings
  starting with one of the prefixes in `FILTER_WARNINGS`. A class keeps the
  counter, and a `Filter` method has the source's loop. `Filter` is proved
  to agree with the one-step function `Decide`. `Replay` runs the filter over
  a whole log. Its lemmas show:
  - exactly which records pass;
  - that a fresh filter lets at most `FILTER_WARNINGS_LIMIT - 1` records of
    each prefix through;
  - that the suppression notice is logged at most once per prefix;
  - that the notice, itself logged through the same filter, passes it
    unchanged.
- `factorial(num)` is modelled as `Factorial` on integers, with 1 for every
  argument up to 1. Lemmas show that it equals the product `1 * ... * n`,
  that every `k` in `1..n` divides it, and that it is monotone.

Graph nodes and map keys are generic values with equality. Dictionary keys in
`sort_dict_by_value` are strings and values are integers. Strings compare as
Python compares `str`: code point by code point, with a proper prefix first.

## Model

| member | source | states |
|---|---|---|
| ShortestPaths.Keep | pdb2pqr/utilities.py:113-115 | the kept path is the old one or the new one; it is no longer than either; it changes only to a strictly shorter returned path |
| ShortestPaths.ShortestPath | pdb2pqr/utilities.py:104-116 | the recursive search with its neighbour loop returns exactly the specified result `Search(g, start, end, path)` |
| ShortestPaths.SearchSound | pdb2pqr/utilities.py:104-116 | any returned path extends the current path by graph edges, ends at `end` and repeats no node |
| ShortestPaths.SearchFinds | pdb2pqr/utilities.py:109-116 | if some repeat-free continuation to `end` exists, a result is returned and it is no longer than that continuation |
| ShortestPaths.ShortestPathCorrect | pdb2pqr/utilities.py:88-116 | top-level call: `[start]` when `start == end`; `None` when `start` is not a key; a result exists iff a simple path (equivalently, any walk) reaches `end`; the result is a simple path from `start` to `end` and no simple path is shorter |
| ShortestPaths.ShortestPathFirstFound | pdb2pqr/utilities.py:109-116 | `None` iff no neighbour yields a path; otherwise the result is the first of the shortest candidate paths, in neighbour-list order |
| Graphs.ReachableIffSimplePath | pdb2pqr/utilities.py:100-102 | a node is reachable by a walk iff it is reachable by a path without repeated nodes |
| Connectivity.Uncollected | pdb2pqr/utilities.py:135-137 | every value it keeps is a listed value not yet collected |
| Connectivity.QueueUncollected | pdb2pqr/utilities.py:135-137 | the new worklist is the old one followed by the uncollected listed values in list order, repeats kept; so only uncollected values are added, and every listed value ends up collected or queued |
| Connectivity.ClosedHoldsWalkEnd | pdb2pqr/utilities.py:130-139 | a node list closed under the map that holds a walk's start holds the walk's end |
| Connectivity.AnalyzeConnectivity | pdb2pqr/utilities.py:119-139 | the result starts with `key`, has no repeats, holds exactly the nodes reachable from `key`, and is closed under the map |
| SortByValue.StrLtTransitive | pdb2pqr/utilities.py:82 | Python's string order is transitive |
| SortByValue.StrLtTotal | pdb2pqr/utilities.py:82 | any two different strings are ordered one way or the other |
| SortByValue.StrLtIrreflexive | pdb2pqr/utilities.py:82 | no string is below itself |
| SortByValue.ItemLtTotal | pdb2pqr/utilities.py:82 | any two different `(value, key)` tuples are ordered |
| SortByValue.ItemLtTransitive | pdb2pqr/utilities.py:82 | the tuple order is transitive |
| SortByValue.ItemLtAsymmetric | pdb2pqr/utilities.py:82 | the tuple order is asymmetric |
| SortByValue.AdjacentSorted | pdb2pqr/utilities.py:82 | a list in order at each adjacent pair is in order at every pair |
| SortByValue.ListItems | pdb2pqr/utilities.py:81 | the new array holds one `(d[k], k)` item for every key `k`, with no other items and no repeats |
| SortByValue.SortItems | pdb2pqr/utilities.py:82 | the array ends in ascending tuple order and is a permutation of what it held |
| SortByValue.ReverseItems | pdb2pqr/utilities.py:83 | the array ends holding its old contents in reverse |
| SortByValue.Keys | pdb2pqr/utilities.py:84 | the result is the keys of the items, in order |
| SortByValue.ItemsPermuted | pdb2pqr/utilities.py:81-82 | sorting keeps every key's item and introduces no other item and no repeat |
| SortByValue.KeysListed | pdb2pqr/utilities.py:81-85 | reading the keys from the back of the sorted items lists every key exactly once |
| SortByValue.KeysDescending | pdb2pqr/utilities.py:82-85 | reading the keys from the back of the sorted items gives them by descending value, equal values by descending key |
| SortByValue.SortDictByValue | pdb2pqr/utilities.py:73-85 | the result lists every key once, by descending value and equal values by descending key |
| SortByValue.SortedKeysUnique | pdb2pqr/utilities.py:81-85 | two lists that both meet that description are equal, so the result does not depend on the dictionary's order |
| WarningFilter.FirstPrefix | pdb2pqr/utilities.py:35-36 | the index returned is the first prefix the message starts with; `None` iff it starts with none |
| WarningFilter.Hit | pdb2pqr/utilities.py:34-36 | only a `WARNING` record counts, against the first listed prefix its message starts with |
| WarningFilter.Decide | pdb2pqr/utilities.py:33-46 | non-matching records pass and change nothing; a match raises only its prefix's count by one; it passes iff the new count is under 30; the notice is logged iff the new count is exactly 30, and then the record is dropped |
| WarningFilter.PrefixesExclusive | pdb2pqr/utilities.py:21-22 | no message starts with both listed prefixes, so the order of the loop does not change the outcome |
| WarningFilter.NoticePasses | pdb2pqr/utilities.py:42 | the suppression notice, filtered as a warning, passes and leaves every count unchanged |
| WarningFilter.SuppressNoticeInjective | pdb2pqr/utilities.py:42 | different prefixes give different notices |
| WarningFilter.DuplicateFilter.constructor | pdb2pqr/utilities.py:29-31 | a new filter has counted nothing |
| WarningFilter.DuplicateFilter.Filter | pdb2pqr/utilities.py:33-46 | the new count, the verdict and the notice are exactly `Decide` of the old count and the record |
| WarningFilter.ReplayPrefix | pdb2pqr/utilities.py:33-46 | the verdicts on a log's first records do not depend on what follows |
| WarningFilter.ReplayCounts | pdb2pqr/utilities.py:37 | after a log, each prefix's count has grown by the number of records that count against it |
| WarningFilter.ReplayVerdict | pdb2pqr/utilities.py:33-46 | a record passes iff it counts against no prefix, or its prefix's running count including it stays under 30; the notice comes exactly from the record whose running count is 30 |
| WarningFilter.ReplayPassCount | pdb2pqr/utilities.py:20-45 | the matching records that pass number `min(c + hits, 29) - min(c, 29)`, with `c` the starting count |
| WarningFilter.ReplayNoticeCount | pdb2pqr/utilities.py:41-43 | the notice for a prefix is logged once if its count crosses 30 during the log, and never otherwise |
| WarningFilter.FreshFilterBounds | pdb2pqr/utilities.py:20-46 | from a fresh filter, `min(hits, 29)` matching records pass per prefix, and the notice is logged once iff there are at least 30 hits |
| Factorials.Factorial | pdb2pqr/utilities.py:326-330 | the result is at least 1, and at least `n` when `n >= 1` |
| Factorials.FactorialIsProduct | pdb2pqr/utilities.py:326-330 | the recursive definition equals the product `1 * 2 * ... * n`, and 1 for `n < 1` |
| Factorials.FactorialDivisible | pdb2pqr/utilities.py:326-330 | every `k` in `1..n` divides `n!`, with the cofactor returned |
| Factorials.FactorialMonotone | pdb2pqr/utilities.py:326-330 | the factorial never decreases as its argument grows |

## Left out

- The geometry helpers in `pdb2pqr/utilities.py` are not modelled: `angle`, `distance`, `add`, `subtract`, `cross`, `dot`, `normalize` and `dihedral`. They compute with floating-point NumPy arrays.
- The file and network helpers are not modelled: `test_for_file`, `test_dat_file`, `test_names_file` and `get_pdb_file`. They depend on the file system and on downloads.
- `PROPKAoptions` is not modelled. It is a plain record of PROPKA settings: its constructor stores its arguments and fixed defaults. Nothing in this core reads it, and `pdb2pqr/run.py` does not use it either.
- The logging framework is not modelled: logger objects, handlers and `record.getMessage()` formatting. A record is its level name and its already-formatted message. The notice `Filter` would log is returned instead of being sent to the logger.
- ShortestPaths.ShortestPath: returns a result for every graph. Python instead raises `RecursionError` once the recursion nests past its limit (about 1000 calls), for example along a chain of 2000 nodes. The recursion limit is not modelled.
- ShortestPaths.ShortestPath: no bound on its running time. The source enumerates every simple path, which takes exponential time; the model keeps that behaviour.
- Connectivity.AnalyzeConnectivity: specifies the first element, the node set and the absence of repeats, but not the exact order of the rest. That order is the worklist's first-in order of first collection.
- SortByValue.SortDictByValue: `list.sort()` is modelled as an insertion sort. The result is the same, because the tuples are all different and the order is total. Keys other than strings and values other than integers are not modelled.
- SortByValue.ListItems: takes the dictionary's items in an arbitrary order. Python's insertion order is not modelled, because `SortedKeysUnique` shows that it cannot change the result.
- Factorials.Factorial: returns a value for every integer. Python's `factorial(2000)` and larger raise `RecursionError` at the recursion limit (about 1000 nested calls), and that limit is not modelled.
- Factorials.Factorial: covers integer arguments only. Python would also accept a float and return a float.
