# Binary search trees for rectangular city queries

This project models the core of a small C library. The library answers
"which cities lie inside a latitude/longitude rectangle?" in three ways, and
all three are built on one generic binary search tree.

- **The binary search tree** (`BinarySearchTree.c`). It stores borrowed
  key/value references and orders them with a caller-supplied three-way
  comparator. Equal keys are placed to the right.
  - `insertInBST` adds a leaf.
  - `searchBST` follows the single descent path.
  - `getInRange` performs a pruned in-order walk (`InOrderTreeWalk`). The walk
    lists the values whose keys lie in a closed interval, in nondecreasing key
    order.
- **List intersection** (`intersect.c`). It keeps the elements of the first
  list that compare equal to some element of the second list, in the order of
  the first list.
- **Three query strategies.** They share the signature
  `findCities(cities, latMin, latMax, lonMin, lonMax)`.
  - `findCities1BST.c` builds a latitude tree, queries the latitude band, and
    filters that band by longitude.
  - `findCities2BST.c` builds a latitude tree and a longitude tree, queries
    both bands, and intersects them using coordinate equality
    (`comparison_city`).
  - `findCitiesZBST.c` builds a tree keyed by a 64-bit Z-order code. It
    queries between the codes of the two rectangle corners, then filters the
    candidates by the rectangle.

The modules follow the files:

| module | file | models |
|---|---|---|
| `Order` | `order.dfy` | what the C code asks of a comparator |
| `Seqs` | `seqs.dfy` | an order-preserving filter over sequences |
| `BinarySearchTree` | `bst.dfy` | `BinarySearchTree.c` |
| `Intersection` | `intersect.dfy` | `intersect.c` |
| `Cities` | `cities.dfy` | the city record, the comparators, and the tree-building, range and filter steps shared by the strategies |
| `FindCities1` | `find_cities_1.dfy` | `findCities1BST.c` |
| `FindCities2` | `find_cities_2.dfy` | `findCities2BST.c` |
| `FindCitiesZ` | `find_cities_z.dfy` | `findCitiesZBST.c` |
| `Strategies` | `strategies.dfy` | how the three strategies relate |

**Pure functions and allocation methods.** Every operation has a pure
function that gives its result when every allocation succeeds. These
operations also have a method in the C shape:

- `getInRange` and `InOrderTreeWalk` (`BinarySearchTree.GetInRangeAlloc`,
  `BinarySearchTree.InOrderTreeWalk`);
- `intersect` (`Intersection.IntersectLists`, `Intersection.IntersectLoop`);
- both `filter` functions (`Cities.FilterList`);
- the three `findCities` (`FindCities1.FindCitiesAlloc`,
  `FindCities2.FindCitiesAlloc`, `FindCitiesZ.FindCitiesAlloc`, plus
  `FindCitiesZ.FindCitiesAsWritten`).

A failing `insertInBST` appears inside the insertion loops of the
`findCities` methods (`Cities.InsertCities`, `FindCities2.InsertCity`,
`FindCities2.InsertCitiesTwice`). A failing `newBST` is the opening budget
check of each `findCities` method. `FindCities1.FindCitiesAlloc` needs one
tree and `FindCities2.FindCitiesAlloc` two. `FindCitiesZ.FindCitiesAlloc` needs
the tree plus the key array, and `FindCitiesZ.FindCitiesAsWritten` checks only
the tree before the unchecked key-array allocation.
`newBST`, `sizeOfBST`, `insertInBST`, `searchBST` and the comparators have a
pure model only.

These methods work as follows:

- A method threads an allocation budget `avail`. The budget is the number of
  further `malloc` calls that would succeed.
- It returns `None` where the C code returns `NULL`.
- Its contract says exactly which budgets lead to success, and that a success
  returns the pure function's result.
- The model counts one allocation for each of:
  - creating a tree;
  - inserting a tree node;
  - creating a linked list;
  - appending a list node;
  - the Z-key array.

**Comparator assumptions.**

- Tree comparators must satisfy `Order.ValidComparator`: sign antisymmetry and
  transitivity of "at most". The C code leaves misuse undefined.
- Coordinates are mathematical reals.
- The Z-order encoder (`zscore.h` is not part of this model) is a parameter
  `(real, real) -> uint64`.
- Statements that need the encoder to be monotone in both coordinates say so
  through `FindCitiesZ.ZMonotone`.

**Facts about the code that the model keeps.**

- The range walk descends right whenever the node key is at most `keyMax`
  (`BinarySearchTree.c:202-205`). Since ties go right, this is needed to find
  the duplicates of `keyMax`.
- Range results are nondecreasing by key, with duplicates kept.
- The dual-axis strategy returns exactly the single-axis strategy's list
  (`FindCities2.FindCities`), because the intersection keeps the order of the
  latitude band.

## Model

| member | source | states |
|---|---|---|
| BinarySearchTree.NewBST | BinarySearchTree.c:62-71 | a new tree is well formed, empty (size 0, no entries) and keeps the given comparator |
| BinarySearchTree.SizeOfBST | BinarySearchTree.c:103-106 | the stored size equals the number of entries in the tree |
| BinarySearchTree.InsertNode | BinarySearchTree.c:117-134 | insertion only adds one leaf: the entry multiset grows by exactly the new (key, value) pair |
| BinarySearchTree.InsertKeepsBST | BinarySearchTree.c:119-134 | descending left on "less" and right otherwise preserves the search-tree order |
| BinarySearchTree.InsertInBST | BinarySearchTree.c:110-144 | insertion keeps the tree well formed, increments the size by one and adds exactly the new entry as a leaf |
| BinarySearchTree.InsertInOrder | BinarySearchTree.c:119-134 | in-order, the new entry lands after every entry whose key is at most its key and before every entry whose key is greater (ties go right) |
| BinarySearchTree.InsertAll | findCities1BST.c:54-65 | inserting a list of values keeps the tree well formed, adds the list length to the size, and adds exactly the keyed values |
| BinarySearchTree.InsertAllStep | findCities1BST.c:56-65 | one loop iteration inserts the next city and leaves the rest of the list for the following iterations |
| BinarySearchTree.InsertAllIsStableSort | BinarySearchTree.c:110-144 | the in-order sequence of a tree built by successive insertion is the stable sort of the inserted entries by key |
| BinarySearchTree.SearchNode | BinarySearchTree.c:148-165 | a value found belongs to an entry whose key compares equal to the searched key |
| BinarySearchTree.SearchMissesOnlyAbsent | BinarySearchTree.c:148-165 | on a search tree, the single descent path reports "not found" if and only if no entry has an equal key |
| BinarySearchTree.SearchBST | BinarySearchTree.c:148-165 | the search returns a value of an equal-keyed entry, and returns NULL exactly when no entry's key is equal (for non-NULL stored values) |
| BinarySearchTree.PruneLeftSound | BinarySearchTree.c:192-195 | skipping the left subtree of a node whose key is at most keyMin loses no in-range entry |
| BinarySearchTree.PruneRightSound | BinarySearchTree.c:202-205 | skipping the right subtree of a node whose key exceeds keyMax loses no in-range entry |
| BinarySearchTree.Walk | BinarySearchTree.c:186-207 | the pure walk (left if the key is above keyMin, emit if inside [keyMin, keyMax], right if the key is at most keyMax) emits no more values than the tree has entries, each of them a value of the tree; WalkIsFilteredInOrder gives its exact result |
| BinarySearchTree.WalkVisitsEachEntryOnce | BinarySearchTree.c:186-207 | the walk visits each node at most once: the multiset of emitted values is contained in the multiset of the tree's values |
| BinarySearchTree.WalkIsFilteredInOrder | BinarySearchTree.c:186-207 | the pruned walk emits exactly the values of the in-order entries whose keys are in [keyMin, keyMax], in in-order sequence |
| BinarySearchTree.InOrderSorted | BinarySearchTree.c:186-207 | the in-order sequence of a search tree is nondecreasing by key |
| BinarySearchTree.EmptyInterval | BinarySearchTree.c:197-200 | when keyMin is greater than keyMax, no entry satisfies the emit condition |
| BinarySearchTree.GetInRange | BinarySearchTree.c:169-183 | the range query returns the values of all entries with keys in the closed interval, in nondecreasing key order, and returns nothing for an inverted interval |
| BinarySearchTree.InOrderTreeWalk | BinarySearchTree.c:186-207 | the recursive walk succeeds exactly when every emitted value can be appended, and then extends the list by the in-range values in order |
| BinarySearchTree.GetInRangeAlloc | BinarySearchTree.c:169-183 | the allocating range query returns a list exactly when the list and all its nodes can be allocated, and the list holds the range-query result |
| BinarySearchTree.RangeOfKeyed | findCities1BST.c:54-72 | querying a tree built from a list returns, as a multiset, exactly the list elements whose keys lie in the interval |
| BinarySearchTree.RangeOfKeyedSorted | findCities1BST.c:54-72 | that query result is nondecreasing by key |
| BinarySearchTree.RangeOfKeyedExact | findCities1BST.c:54-72 | that query result is the stable sort, by key, of the list elements in range |
| Intersection.HasMatch | intersect.c:23-35 | the inner scan finds a match if and only if some element of the second list compares equal |
| Intersection.Intersect | intersect.c:18-39 | the result is no longer than the first list, and holds exactly the first-list elements that have a match |
| Intersection.IntersectCounts | intersect.c:18-39 | every matched element keeps its multiplicity in the first list (no deduplication), unmatched ones vanish, and the result is a subsequence of the first list |
| Intersection.IntersectWithEmpty | intersect.c:18-35 | intersecting with an empty list gives an empty list |
| Intersection.IntersectWithSelf | intersect.c:18-35 | with a reflexive comparator, a list intersected with itself is unchanged |
| Intersection.ScanForMatch | intersect.c:23-35 | the loop with early exit reports a match exactly when one exists |
| Intersection.IntersectLists | intersect.c:6-42 | a NULL input gives an empty list; otherwise the result is non-NULL exactly when the list and one node per match can be allocated, and it holds the intersection |
| Intersection.IntersectLoop | intersect.c:18-39 | the outer loop succeeds exactly when every match can be appended, and then builds the intersection |
| Cities.CompareDouble | findCities1BST.c:121-126 | the double comparator returns -1, 0 or 1, negative exactly when a < b and positive exactly when a > b |
| Cities.CompareDoubleIsValid | findCities2BST.c:114-119 | the double comparator is a valid tree ordering |
| Cities.CompareCity | findCities2BST.c:122-128 | comparison_city returns 0 or 1, and 0 exactly when latitude and longitude are both equal; CompareCityIsEquality adds that this is an equivalence |
| Cities.CompareCityIsEquality | findCities2BST.c:122-128 | comparison_city is never negative; it is zero exactly when latitude and longitude agree; it is reflexive, symmetric and transitive on zero |
| Cities.CoordinateTree | findCities1BST.c:49-65 | the tree built over all cities is well formed, orders by the coordinate under comparison_double, and holds exactly one entry per city, keyed by that city's own coordinate |
| Cities.CoordinateRange | findCities1BST.c:68-72 | the coordinate band query returns, with multiplicity, exactly the cities inside the closed band, in nondecreasing coordinate order |
| Cities.InsertCities | findCities1BST.c:53-65 | the insertion loop succeeds exactly when one node per city can be allocated, and then yields the fully built tree |
| Cities.FilterList | findCities1BST.c:90-117 | filtering succeeds exactly when the list and one node per kept city can be allocated, and then keeps exactly the cities satisfying the bound, in order |
| FindCities1.FilterLongitude | findCities1BST.c:97-109 | the longitude filter keeps exactly the cities inside [lonMin, lonMax], each as often as in its input, as a subsequence of its input |
| FindCities1.FindCities | findCities1BST.c:45-86 | the single-axis query returns, with multiplicity, exactly the cities inside the closed rectangle, in nondecreasing latitude |
| FindCities1.RectangleFacts | findCities1BST.c:68-79 | filtering the latitude band by longitude yields the same multiset as filtering all cities by the rectangle |
| FindCities1.BoundsAreClosed | findCities1BST.c:106 | a city lying on the rectangle border is in the result |
| FindCities1.FindCitiesAlloc | findCities1BST.c:45-86 | the allocating query returns a list exactly when the tree, the band list and the result list all fit the budget, and the list is the rectangle query result |
| FindCities2.FindCities | findCities2BST.c:46-111 | the dual-axis query returns exactly the single-axis result, hence exactly the cities inside the rectangle |
| FindCities2.MatchIsLongitudeBand | findCities2BST.c:79-101 | a latitude-band city matches some city of the longitude band under comparison_city exactly when its own longitude is in the band |
| FindCities2.InsertCity | findCities2BST.c:62-75 | one loop step succeeds exactly when both insertions can allocate, and inserts the city into both trees |
| FindCities2.InsertCitiesTwice | findCities2BST.c:58-77 | the build loop succeeds exactly when two nodes per city can be allocated, and then yields both coordinate trees |
| FindCities2.FindCitiesAlloc | findCities2BST.c:46-111 | the allocating query returns a list exactly when both trees, both band lists and the intersection fit the budget, and the list is the dual-axis result |
| FindCitiesZ.CompareUint64 | findCitiesZBST.c:136-140 | the 64-bit comparator returns -1, 0 or 1, negative exactly when a < b and positive exactly when a > b |
| FindCitiesZ.CompareUint64IsValid | findCitiesZBST.c:136-140 | the 64-bit comparator is a valid tree ordering |
| FindCitiesZ.FilterRectangle | findCitiesZBST.c:106-133 | the rectangle filter keeps exactly the cities inside the closed rectangle, each as often as in its input, as a subsequence of its input |
| FindCitiesZ.ZTree | findCitiesZBST.c:53-74 | the Z tree is well formed, ordered by unsigned comparison, and holds exactly one entry per city, keyed by zEncode of that city's own coordinates |
| FindCitiesZ.ZRange | findCitiesZBST.c:77-86 | the Z range query returns, with multiplicity, exactly the cities whose code lies between the corner codes, in nondecreasing code order |
| FindCitiesZ.FindCities | findCitiesZBST.c:49-103 | every returned city is an input city inside the rectangle whose code lies between the corner codes; results are in code order and never exceed the rectangle's multiset; with a monotone encoder they are exactly the rectangle's cities |
| FindCitiesZ.ZSound | findCitiesZBST.c:81-94 | every candidate kept by the filter is an input city inside the rectangle with its code between the corners |
| FindCitiesZ.ZKeeps | findCitiesZBST.c:81-94 | the result is the multiset of cities that are both inside the code range and inside the rectangle |
| FindCitiesZ.ZComplete | findCitiesZBST.c:77-81 | with an encoder monotone in both coordinates, every city in the rectangle has its code between the corner codes, so none is lost |
| FindCitiesZ.ZSorted | findCitiesZBST.c:113-125 | filtering a code-ordered list keeps it code-ordered |
| FindCitiesZ.MissedOutsideCorners | findCitiesZBST.c:77-86 | a city whose code falls outside the corner codes is never returned, even when it lies in the rectangle |
| FindCitiesZ.MonotoneIsNeeded | findCitiesZBST.c:77-86 | with a non-monotone encoder, a city inside the rectangle can be missed |
| FindCitiesZ.QueryAlloc | findCitiesZBST.c:62-101 | after the tree and key array exist, the insertions, range list and filter list succeed exactly when they fit the budget, and yield the Z result |
| FindCitiesZ.FindCitiesAsWritten | findCitiesZBST.c:49-103 | as written, when the key array allocation fails for a non-empty list, behaviour is undefined; every other budget gives NULL or the Z result |
| FindCitiesZ.FindCitiesAlloc | findCitiesZBST.c:49-103 | with the key array allocation checked, the query returns a list exactly when all its allocations fit, and the list is the Z result |
| Strategies.StrategiesAgree | findCities2BST.c:46-111 | for a monotone encoder, the three strategies return the same cities: the first two the same sequence, the Z-order one the same multiset |
| Strategies.ThreeCities | findCities1BST.c:45-86 | for cities at (10,20), (50,50) and (-5,100) and the box [0,60]x[0,60], the strategies return exactly the first two cities |

## Left out

- BinarySearchTree.SearchBST: stored values are taken to be non-NULL, because `searchBST` returns the stored value pointer and so cannot tell a stored NULL value from a miss (`BinarySearchTree.c:155`, `BinarySearchTree.c:163-164`); the model's values have no NULL. Every caller in the repository stores `City` pointers.
- City records are values (name, latitude, longitude); the pointer identity of a `City` in the C lists is not modelled, so two cities with equal fields are indistinguishable. The name is carried but never read by the modelled code.
- Releasing memory is not modelled. This covers `freeBST`, `freeNode` (a post-order release of every node, optionally freeing keys and values) and every `free`/`freeLinkedList` call. The model has no heap.
- Memory leaks on failure paths are not modelled, since they do not change what is returned (`NULL`, in the model as in the code). These are: the longitude tree when a latitude insertion fails (`findCities2BST.c:65-68`); the latitude tree when a longitude insertion fails (`findCities2BST.c:71-74`); and the latitude tree when `filter` fails (`findCities1BST.c:76-79`).
- Parent pointers in tree nodes are not modelled. No modelled operation reads them.
- `LinkedList.c` is not part of this model. A list is a sequence. `newLinkedList` and `insertInLinkedList` are taken to allocate once each, and to append at the tail.
- `zscore.h` is not part of this model. `zEncode` is a parameter.
- FindCitiesZ.FindCities: proves completeness (every city in the rectangle is returned) only for an encoder that is monotone in both coordinates. `FindCitiesZ.MonotoneIsNeeded` shows a non-monotone encoder losing a city.
- IEEE-754 doubles are modelled as reals. NaN, signed zero and rounding are absent.
- `size_t` counters and sizes are unbounded integers. Wrap-around at 2^64 entries is not modelled.
- `malloc(0)` for the key array of an empty city list is counted as an ordinary allocation.
- The C `cities->size` field is taken to be the real length of the list.
- BinarySearchTree.InOrderTreeWalk: on failure it says nothing about the partially extended list, because `getInRange` releases that list.
- Reading city files, the command-line driver and result display are outside this core and are not modelled.

## Findings

| source | as written | input that shows it | evidently intended | confidence | as-written member | corrected member |
|---|---|---|---|---|---|---|
| findCitiesZBST.c:60-65 | the result of `malloc` for the Z-key array is not checked, and the loop writes through it | a non-empty city list when only the tree allocation succeeds (budget 1): the key array is `NULL` and `tabKeyZ[i] = ...` is undefined behaviour | check the pointer, free the tree and return `NULL`, as every other allocation in the file does | not executed | FindCitiesZ.FindCitiesAsWritten | FindCitiesZ.FindCitiesAlloc |
