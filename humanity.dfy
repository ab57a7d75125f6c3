/**
  `HealthyMatrix<T, DIM>`: a sparse DIM-dimensional matrix that stores, in an
  ordered map keyed by position, only the cells whose value differs from the
  matrix's default value; and its `ConstIterator`, which walks the stored
  cells in ascending lexicographic order of position.

  A position (`std::array<int, DIM>`) is a `seq<int>` of length `dim`; the
  compile-time check on the number of indices becomes a `requires`.
 */
module Humanity {
  import opened Lib
  import opened Order

  type Position = seq<int>

  // -------------------------------------------------------------------------
  // The store as a value: the specification the class is proved against.

  /** No stored entry holds the default value (the elision invariant). */
  predicate NoDefault<T(==)>(m: map<Position, T>, d: T)
  {
    forall p :: p in m ==> m[p] != d
  }

  /** The value the matrix shows at `pos`: the stored one, or the default. */
  function Lookup<T(==)>(m: map<Position, T>, d: T, pos: Position): (v: T)
    ensures pos in m ==> v == m[pos]
    ensures NoDefault(m, d) ==> (v == d <==> pos !in m)
  {
    if pos in m then m[pos] else d
  }

  /** The positions that hold a value other than the default. */
  function Live<T(==)>(m: map<Position, T>, d: T): set<Position>
  {
    set p | p in m && m[p] != d
  }

  /**
    The store after writing `elem` at `pos`: writing the default removes the
    position, any other value is stored there. Every other position keeps
    what it had, the elision invariant is kept, and the number of stored
    entries grows by one on an insertion, drops by one on an erasure and
    stays the same otherwise.
   */
  function Written<T(==)>(m: map<Position, T>, d: T, pos: Position, elem: T): (r: map<Position, T>)
    ensures Lookup(r, d, pos) == elem
    ensures forall q :: q != pos ==> (q in r <==> q in m)
    ensures forall q :: q != pos && q in r ==> r[q] == m[q]
    ensures NoDefault(m, d) ==> NoDefault(r, d)
    ensures pos in m && elem == d ==> |r| == |m| - 1
    ensures pos !in m && elem != d ==> |r| == |m| + 1
    ensures (pos in m) == (elem != d) ==> |r| == |m|
  {
    if elem == d then
      assert m.Keys - {pos} == (m - {pos}).Keys;
      m - {pos}
    else
      m[pos := elem]
  }

  /** Writing back the value a position already shows leaves the store as it is. */
  lemma WrittenLookupIdempotent<T>(m: map<Position, T>, d: T, pos: Position)
    requires NoDefault(m, d)
    ensures Written(m, d, pos, Lookup(m, d, pos)) == m
  {
    var r := Written(m, d, pos, Lookup(m, d, pos));
    assert r.Keys == m.Keys;
  }

  /** Of two writes to the same position, the later one decides the store. */
  lemma WrittenLastWins<T>(m: map<Position, T>, d: T, pos: Position, a: T, b: T)
    ensures Written(Written(m, d, pos, a), d, pos, b) == Written(m, d, pos, b)
  {
    var r1 := Written(Written(m, d, pos, a), d, pos, b);
    var r2 := Written(m, d, pos, b);
    assert r1.Keys == r2.Keys;
  }


  /** One tuple per position of `ks`, in order: its coordinates, then its value in `m`. */
  function EntriesOf<T>(ks: seq<Position>, m: map<Position, T>): (es: seq<seq<Component<T>>>)
    requires forall k :: 0 <= k < |ks| ==> ks[k] in m
    ensures |es| == |ks|
  {
    if ks == [] then [] else [MakeTuple(ks[0], m[ks[0]])] + EntriesOf(ks[1..], m)
  }

  lemma {:induction false} EntriesOfAt<T>(ks: seq<Position>, m: map<Position, T>, k: nat)
    requires forall i :: 0 <= i < |ks| ==> ks[i] in m
    requires k < |ks|
    ensures EntriesOf(ks, m)[k] == MakeTuple(ks[k], m[ks[k]])
  {
    if k > 0 { EntriesOfAt(ks[1..], m, k - 1); }
  }

  // -------------------------------------------------------------------------
  // The matrix.

  class HealthyMatrix<T(==)> {
    /** DIM, the number of indices of a position. */
    const dim: nat
    const defaultValue: T
    var container: map<Position, T>

    /** Every stored key is a position of this matrix and no stored value is the default. */
    ghost predicate Valid()
      reads this
    {
      && (forall p :: p in container ==> |p| == dim)
      && NoDefault(container, defaultValue)
    }

    /** `HealthyMatrix(defaultValue)`: a matrix with no stored cells. */
    constructor (dim: nat, defaultValue: T)
      ensures this.dim == dim && this.defaultValue == defaultValue
      ensures container == map[]
      ensures Valid()
    {
      this.dim := dim;
      this.defaultValue := defaultValue;
      container := map[];
    }

    /**
      `set(pos, elem)`: overwrite a stored cell, erase it when `elem` is the
      default, or insert it when absent and not the default.
     */
    method Set(pos: Position, elem: T)
      requires Valid() && |pos| == dim
      modifies this
      ensures Valid()
      ensures container == Written(old(container), defaultValue, pos, elem)
      ensures Get(pos) == elem
      ensures forall q :: |q| == dim && q != pos ==> Get(q) == old(Get(q))
    {
      var found := pos in container;
      if found && elem != defaultValue {
        container := container[pos := elem];
      } else if found && elem == defaultValue {
        container := container - {pos};
      } else if elem != defaultValue {
        container := container[pos := elem];
      }
    }

    /** `get(pos)`: the stored value, or the default when nothing is stored at `pos`. */
    function Get(pos: Position): (v: T)
      reads this
      requires |pos| == dim
      ensures pos in container ==> v == container[pos]
      ensures Valid() ==> (v == defaultValue <==> pos !in container)
    {
      Lookup(container, defaultValue, pos)
    }

    /** The public `set(elem, x1, p...)`: the position is `x1` followed by `p`. */
    method SetAt(elem: T, x1: int, p: seq<int>)
      requires Valid() && |p| + 1 == dim
      modifies this
      ensures Valid()
      ensures container == Written(old(container), defaultValue, [x1] + p, elem)
    {
      Set([x1] + p, elem);
    }

    /** The public `get(x1, p...)`: the value at the position `x1` followed by `p`. */
    function GetAt(x1: int, p: seq<int>): (v: T)
      reads this
      requires |p| + 1 == dim
      ensures v == Lookup(container, defaultValue, [x1] + p)
    {
      Get([x1] + p)
    }

    /** `size()`: the number of stored cells. */
    function Size(): nat
      reads this
    {
      |container|
    }

    /** The stored positions in the map's order: ascending lexicographically, each once. */
    function Keys(): (ks: seq<Position>)
      reads this
      ensures |ks| == |container|
      ensures forall k :: 0 <= k < |ks| ==> ks[k] in container
      ensures StrictlyAscending(ks)
      ensures forall p :: p in ks <==> p in container
    {
      SortedKeys(container.Keys)
    }

    /**
      What iterating from `begin()` to `end()` yields: one tuple per stored
      cell, in the order of `Keys()`, each the cell's coordinates followed by
      its value.
     */
    function Entries(): (es: seq<seq<Component<T>>>)
      reads this
      ensures |es| == |container|
    {
      EntriesOf(Keys(), container)
    }

    /** `begin()` (and `cbegin()`): an iterator at the least stored position. */
    method Begin() returns (it: ConstIterator<T>)
      ensures fresh(it) && it.owner == this && it.index == 0
    {
      it := new ConstIterator(this, 0);
    }

    /** `end()` (and `cend()`): the iterator one past the greatest stored position. */
    method End() returns (it: ConstIterator<T>)
      ensures fresh(it) && it.owner == this && it.index == |container|
      ensures it.AtEnd()
    {
      it := new ConstIterator(this, |container|);
    }
  }

  /**
    `HealthyMatrix::ConstIterator`: a position in the owner's map, modelled
    as an index into the owner's keys in ascending order; the index equal to
    the number of stored cells is `end()`.
   */
  class ConstIterator<T(==)> {
    const owner: HealthyMatrix<T>
    var index: nat

    ghost predicate Valid()
      reads this, owner
    {
      owner.Valid() && index <= |owner.container|
    }

    constructor (owner: HealthyMatrix<T>, index: nat)
      requires index <= |owner.container|
      ensures this.owner == owner && this.index == index
    {
      this.owner := owner;
      this.index := index;
    }

    predicate AtEnd()
      reads this, owner
    {
      index == |owner.container|
    }

    /** The stored position the iterator is at. */
    function Key(): (p: Position)
      reads this, owner
      requires index < |owner.container|
      ensures p in owner.container
    {
      owner.Keys()[index]
    }

    /**
      `operator==`: two iterators over the same matrix are equal exactly when
      both are at `end()` or both are at the same stored position.
     */
    predicate Equals(rhs: ConstIterator<T>)
      reads this, owner, rhs
      requires owner == rhs.owner
      requires index <= |owner.container| && rhs.index <= |owner.container|
      ensures Equals(rhs) <==> (AtEnd() == rhs.AtEnd() && (!AtEnd() ==> Key() == rhs.Key()))
    {
      AscendingInjective(owner.Keys());
      index == rhs.index
    }

    /** `operator*`: the position's coordinates followed by the value stored there. */
    function Deref(): (t: seq<Component<T>>)
      reads this, owner
      requires index < |owner.container|
      ensures t == owner.Entries()[index]
    {
      EntriesOfAt(owner.Keys(), owner.container, index);
      var p := Key();
      MakeTuple(p, owner.container[p])
    }

    /** Prefix `operator++`: move to the next stored position in ascending order. */
    method Next()
      requires index < |owner.container|
      modifies this
      ensures index == old(index) + 1
    {
      index := index + 1;
    }

    /** Postfix `operator++`: a copy at the old position; this one moves on. */
    method PostNext() returns (prev: ConstIterator<T>)
      requires index < |owner.container|
      modifies this
      ensures fresh(prev) && prev.owner == owner && prev.index == old(index)
      ensures index == old(index) + 1
    {
      prev := new ConstIterator(owner, index);
      index := index + 1;
    }
  }

  /**
    A range-based `for` over a matrix: walking from `begin()` to `end()` with
    `operator!=`, `operator*` and `operator++` yields one tuple per stored
    cell, in ascending order of position, each coordinates-then-value.
   */
  method Traverse<T(==)>(m: HealthyMatrix<T>) returns (tuples: seq<seq<Component<T>>>)
    ensures tuples == m.Entries()
  {
    ghost var es := m.Entries();
    var it := m.Begin();
    var last := m.End();
    tuples := [];
    while !it.Equals(last)
      invariant it != last && fresh(it)
      invariant last.owner == m && last.index == |m.container|
      invariant it.owner == m && it.index <= |m.container|
      invariant tuples == es[..it.index]
      decreases |m.container| - it.index
    {
      ghost var i := it.index;
      var t := it.Deref();
      tuples := tuples + [t];
      assert tuples == es[..i + 1];
      it.Next();
    }
    assert it.index == |es|;
    assert es[..|es|] == es;
  }

  /**
    `size()` counts exactly the live cells: under the elision invariant the
    stored positions are the positions whose value is not the default.
   */
  lemma SizeCountsLive<T>(m: HealthyMatrix<T>)
    requires m.Valid()
    ensures m.Size() == |Live(m.container, m.defaultValue)|
  {
    assert Live(m.container, m.defaultValue) == m.container.Keys;
  }

  /**
    Dereferencing yields a tuple that splits back into a stored position and
    the (non-default) value stored there.
   */
  lemma DerefUnflattens<T>(it: ConstIterator<T>)
    requires it.Valid() && it.index < |it.owner.container|
    ensures |it.Deref()| == it.owner.dim + 1
    ensures Unflatten(it.Deref()) == Some((it.Key(), it.owner.container[it.Key()]))
    ensures it.owner.container[it.Key()] != it.owner.defaultValue
  {
    UnflattenMakeTuple(it.Key(), it.owner.container[it.Key()]);
  }

  /**
    Iteration yields, in order, each stored position of `Keys()` (which are
    strictly ascending and exactly the stored ones) with the value stored
    there, one tuple per stored cell: as many as `size()` counts.
   */
  lemma EntriesSplit<T>(m: HealthyMatrix<T>)
    ensures |m.Entries()| == |m.Keys()|
    ensures |m.Entries()| == m.Size()
    ensures forall k :: 0 <= k < |m.Entries()| ==>
      Unflatten(m.Entries()[k]) == Some((m.Keys()[k], m.container[m.Keys()[k]]))
  {
    var ks, es := m.Keys(), m.Entries();
    forall k | 0 <= k < |es| ensures Unflatten(es[k]) == Some((ks[k], m.container[ks[k]])) {
      EntriesOfAt(ks, m.container, k);
      UnflattenMakeTuple(ks[k], m.container[ks[k]]);
    }
  }

  /**
    The assertions of the demonstration driver on a 3-dimensional matrix of
    integers with default 0: sizes 0, 1 and, after writing and then clearing
    (3,4,5), 2.
   */
  method Demo() returns (size0: nat, size1: nat, at012: int, size2: nat)
    ensures size0 == 0 && size1 == 1 && at012 == 9 && size2 == 2
  {
    var matrix := new HealthyMatrix<int>(3, 0);
    size0 := matrix.Size();
    matrix.SetAt(9, 0, [1, 2]);
    assert [0] + [1, 2] == [0, 1, 2];
    assert matrix.container == map[[0, 1, 2] := 9];
    size1 := matrix.Size();
    at012 := matrix.GetAt(0, [1, 2]);
    matrix.SetAt(8, 2, [3, 4]);
    assert [2] + [3, 4] == [2, 3, 4];
    assert matrix.container == map[[0, 1, 2] := 9, [2, 3, 4] := 8];
    matrix.SetAt(7, 3, [4, 5]);
    assert [3] + [4, 5] == [3, 4, 5];
    matrix.SetAt(0, 3, [4, 5]);
    assert matrix.container == map[[0, 1, 2] := 9, [2, 3, 4] := 8];
    size2 := matrix.Size();
  }
}
