# Sparse N-dimensional matrices, modelled in Dafny

This project models the core of a small C++ header library. It provides two sparse
matrices of fixed dimension DIM that store only the cells whose value differs from a
per-matrix default value.

- `HealthyMatrix<T, DIM>` (humanity.h) keeps a `std::map` from position (an
  `std::array<int, DIM>`) to value. `set` overwrites, erases or inserts so that the map
  never holds the default. `get` returns the stored value or the default. `size` is the
  number of stored cells. A `ConstIterator` walks the map in ascending lexicographic
  order of position, and dereferencing it yields one flat tuple: the coordinates, then
  the value.
- `SmokerMatrix<T, DIM>` (pain.h) adds chained indexing `m[i1][i2]...[iDIM]`. Every
  index but the last yields a `View` holding a partly filled position. The last one
  yields a `Cell`, a write-back proxy. A `Cell` copies the cell's value when it is
  created, and assignments change only that copy. When it is destroyed it calls the
  owner's `set(pos, elem)`. A moved-from `Cell` has no owner and writes nothing.
- `makeTuple` (lib.h) flattens an array and a value into one tuple.

Modules, one per file:

- `Lib` (lib.dfy): `makeTuple`, plus its inverse `Unflatten`.
- `Order` (order.dfy): the lexicographic order of `std::array` (`Less`) and the
  ascending enumeration of a set of positions (`SortedKeys`).
- `Humanity` (humanity.dfy): the store as a value (`Lookup`, `Written`, `NoDefault`),
  the class `HealthyMatrix` and the class `ConstIterator`.
- `Pain` (pain.dfy): the class `SmokerMatrix`, the class `Cell` and the datatype `View`.

Modelling choices:

- A position is a `seq<int>` of length `dim`. The compile-time checks on the number of
  indices become `requires |pos| == dim`.
- The store is a `map<seq<int>, T>` field that `Set` reassigns. `HealthyMatrix.Valid()`
  is the elision invariant: no stored value is the default, and every key has length
  `dim`.
- An iterator is an index into `Keys()`, the stored positions in ascending order; the
  index `|container|` is `end()`.
- `SmokerMatrix` inherits from `HealthyMatrix` in C++. Here it holds its
  `HealthyMatrix` as the field `base`. `Cell.owner` is a `SmokerMatrix?`; null is the
  moved-from state.
- The `Cell` destructor is the explicit method `Commit`. The move constructor is the
  explicit constructor `MoveFrom`. `View<N>::operator[]` chooses its result type at
  compile time. It becomes two members: `Subscript` (N > 1, returns a `View`) and
  `SubscriptCell` (N == 1, returns a `Cell`).
- No count of open cells: pain.h keeps none. Each `Cell` commits its own copy, so commits
  take effect in destruction order and the last one decides the store. A cell that was
  opened earlier and never assigned still writes back its stale copy. That undoes a
  write committed through a later cell in the meantime (`StaleCellRestores`). The model
  follows the code here, not a design with a per-position counter.
- `SmokerMatrix` calls the base class's `set(Position, T)` and `get(Position)`. Both are
  declared before `public:` (humanity.h:92), so they are private. The model treats them
  as accessible.

## Model

| member | source | states |
|---|---|---|
| `Lib.IndexSequence` | lib.h:14 | `make_index_sequence<N>`: exactly N indices, the k-th being k |
| `Lib.MakeTupleImpl` | lib.h:8-12 | one component per index, in index order, each the array element at that index, followed by the value as the last component |
| `Lib.MakeTuple` | lib.h:14-18 | the tuple has N+1 components; component k is `arr[k]` for every k < N; the last is `value` |
| `Lib.UnflattenMakeTuple` | lib.h:14-18 | splitting a made tuple gives back exactly the array and the value (round trip) |
| `Lib.MakeTupleUnflatten` | lib.h:14-18 | every tuple that splits into an array and a value is the made tuple of those two (the other direction) |
| `Order.LessAtFirstDifference` | humanity.h:14 | the recursive order is the lexicographic order: at the first differing index the smaller element wins, or a proper prefix is smaller |
| `Order.LessIrreflexive` | humanity.h:14 | no position is below itself |
| `Order.LessAsymmetric` | humanity.h:14 | two positions are never each below the other |
| `Order.LessTransitive` | humanity.h:14 | the order is transitive |
| `Order.LessTotal` | humanity.h:14 | any two distinct positions are ordered one way or the other, so the map's order is total |
| `Order.Minimum` | humanity.h:128-130 | a non-empty set has one least element, which `begin()` reaches first |
| `Order.SortedKeys` | humanity.h:80-82 | the ascending enumeration has exactly the set's elements, each once, strictly ascending |
| `Order.SortedKeysUnique` | humanity.h:14 | any strictly ascending sequence holding exactly the set's elements is that enumeration, so the iteration order is fully determined |
| `Order.AscendingInjective` | humanity.h:64-70 | in a strictly ascending sequence distinct indices hold distinct positions |
| `Humanity.Lookup` | humanity.h:36-43 | the value shown is the stored one when present; under the elision invariant it is the default exactly when nothing is stored |
| `Humanity.Written` | humanity.h:20-34 | after a write, the position shows the written value; every other position keeps its key and value; the elision invariant is preserved; size rises by one on an insert, drops by one on an erase, and is unchanged on an overwrite or on writing the default at an absent position |
| `Humanity.WrittenLookupIdempotent` | humanity.h:20-43 | writing back the value a position shows (`set(p, get(p))`) leaves the store unchanged; this includes writing the default at an absent position |
| `Humanity.WrittenLastWins` | humanity.h:25-29 | of two writes to one position, the later alone decides the store |
| `Humanity.HealthyMatrix.constructor` | humanity.h:93-94 | a new matrix stores nothing and satisfies the elision invariant, whatever the default |
| `Humanity.HealthyMatrix.Set` | humanity.h:20-34 | the new store is the old one written at `pos`; the invariant is kept; `get(pos)` then returns `elem`; `get` at every other position is unchanged |
| `Humanity.HealthyMatrix.Get` | humanity.h:36-43 | returns the stored value when present; under the invariant it returns the default exactly when nothing is stored; reading changes nothing |
| `Humanity.HealthyMatrix.SetAt` | humanity.h:104-110 | the variadic `set(elem, x1, p...)` is `set` at the position `x1` followed by `p` |
| `Humanity.HealthyMatrix.GetAt` | humanity.h:112-118 | the variadic `get(x1, p...)` is the value shown at the position `x1` followed by `p` |
| `Humanity.SizeCountsLive` | humanity.h:121-123 | `size()` equals the number of positions holding a non-default value |
| `Humanity.HealthyMatrix.Keys` | humanity.h:14 | the stored positions in map order: each stored key exactly once, strictly ascending |
| `Humanity.HealthyMatrix.Entries` | humanity.h:128-134 | what a walk from `begin()` to `end()` yields has one tuple per stored cell |
| `Humanity.HealthyMatrix.Begin` | humanity.h:128-130 | `begin()` (also `cbegin()`, humanity.h:136-138) is a new iterator at the first position of this matrix |
| `Humanity.HealthyMatrix.End` | humanity.h:132-134 | `end()` (also `cend()`, humanity.h:140-142) is a new iterator one past the last stored position |
| `Humanity.ConstIterator.constructor` | humanity.h:55 | an iterator at the given map position of its owner |
| `Humanity.ConstIterator.Equals` | humanity.h:64-70 | two iterators over one matrix are equal exactly when both are at `end()` or both are at the same stored position; `operator!=` is its negation |
| `Humanity.ConstIterator.Deref` | humanity.h:72-74 | `operator*` yields the walk's tuple for the iterator's position |
| `Humanity.DerefUnflattens` | humanity.h:72-74 | the dereferenced tuple has DIM+1 components and splits into the current stored position and its non-default value |
| `Humanity.ConstIterator.Next` | humanity.h:80-82 | prefix `++` moves to the next position in ascending order |
| `Humanity.ConstIterator.PostNext` | humanity.h:84-88 | postfix `++` returns a new iterator at the old position and moves this one on |
| `Humanity.Traverse` | humanity.h:128-134 | a range-`for` from `begin()` while `!= end()`, dereferencing and incrementing, collects exactly `Entries()` |
| `Humanity.EntriesSplit` | humanity.h:121-134 | the walk yields `size()` tuples; the k-th splits into the k-th key of the ascending order and its stored value, so the walk visits every stored cell once in strictly ascending order |
| `Humanity.Demo` | main.cpp:6-19 | the driver's assertions on a 3-dimensional integer matrix with default 0: sizes 0, 1 and 2, and `get(0,1,2) == 9` |
| `Pain.SmokerMatrix.constructor` | pain.h:95 | a new matrix over a new, empty base that satisfies the invariant |
| `Pain.SmokerMatrix.At` | pain.h:64-66 | `at(pos)` is a new cell owned by this matrix, for `pos`, holding `get(pos)`; the store is not modified |
| `Pain.SmokerMatrix.Subscript` | pain.h:97-99 | `operator[](i)` for DIM > 1 gives a view with DIM-1 indices left, first coordinate `i`, others 0 |
| `Pain.SmokerMatrix.SubscriptCell` | pain.h:97-99 | `operator[](i)` for DIM == 1 gives a new cell for `[i]` holding `get([i])`; the store ends as it was |
| `Pain.Cell.constructor` | pain.h:27-28 | a cell with the given owner, position and value |
| `Pain.Cell.MoveFrom` | pain.h:23-25 | the new cell takes the source's owner, position and value; the source's owner becomes null, and nothing else of it changes |
| `Pain.Cell.Assign` | pain.h:41-47 | `operator=` sets the cell's own value and may change nothing else, so the owner's store is untouched |
| `Pain.Cell.Commit` | pain.h:30-35 | with an owner, the owner's store becomes the old store written at `pos` with `elem`, and the invariant holds; without one, nothing may change |
| `Pain.View.Subscript` | pain.h:79-83 | for N > 1 the result has coordinate DIM-N set to `i`, every other coordinate kept, one index fewer, and the same matrix; the view is not changed |
| `Pain.View.SubscriptCell` | pain.h:84-88 | for N == 1 a new cell for the position with its last coordinate `i`, holding the value shown there; the temporary `at(a)` writes back what it read, so the store ends as it was |
| `Pain.Subscripts` | pain.h:78-89 | applying k indices to a view with N left sets coordinates DIM-N to DIM-N+k-1 to those indices and keeps the rest |
| `Pain.Chain` | pain.h:97-99 | after DIM chained indices the cell's position is exactly `[i1, ..., iDIM]`, its value is `get` there, and the store is as it was |
| `Pain.OverlappingCells` | pain.h:30-35 | two cells open on one position commit independently; the store ends as if only the last commit happened |
| `Pain.StaleCellRestores` | pain.h:64-66 | an earlier cell that was never assigned commits its stale copy and undoes a later cell's committed write |
| `Pain.MoveThenCommit` | pain.h:23-35 | a moved-from cell commits nothing; the cell moved into commits as the original would have |
| `Pain.Demo` | pain.h:30-59 | chained writes on a 2-dimensional integer matrix: 28 at (1,2) is invisible (size 0) until the cell commits, then size 1 and value 28; writing 0 brings size 0 and value 0 |

## Left out

- The default constructors `HealthyMatrix()` and `SmokerMatrix()` (humanity.h:93, pain.h:94) use `T()` as the default. Dafny has no value-initialised generic value. The modelled constructors take the default explicitly, and `T()` is one such argument.
- The defaulted copy and move constructors and assignments of `HealthyMatrix` and `ConstIterator` (humanity.h:58-62, humanity.h:96-100) carry no logic.
- `ConstIterator::operator->` (humanity.h:76-78) only yields a raw pointer to the value.
- `Cell`'s conversion operators (pain.h:38-39) are read as the field `elem`. A write through the returned `T&` is the same as `Cell.Assign`.
- The templated `operator=` overloads (pain.h:49-57) convert `U` to `T` first. Only assignment of a `T` is modelled.
- C++ object lifetimes are not modelled: temporaries, copy elision and the point at which a destructor runs. A destructor is an explicit `Commit` call.
- Integer widths are not modelled. Coordinates are unbounded `int`s rather than 32-bit, and `size()` is a `nat` rather than `size_t`. The code does no arithmetic on coordinates or sizes, so no result depends on the width.
- An iterator is modelled as an index into the key order. So iterators are not kept valid across a change to the matrix, as `std::map` iterators would be. The model does not cover mutation during iteration.
- `cbegin()`/`cend()` behave exactly like `begin()`/`end()` and have no separate members.
- DIM is the runtime field `dim`, fixed at construction, rather than a template parameter. For `SmokerMatrix` the model needs DIM >= 1, as `Position{i}` does.
- Values are compared only with `==`. Nothing else about `T` is modelled.
