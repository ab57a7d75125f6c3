/**
  `SmokerMatrix<T, DIM>`: a `HealthyMatrix` that is also indexed one
  coordinate at a time, `m[i1][i2]...[iDIM]`. Each `[]` but the last yields a
  `View` that holds a partly filled position; the last yields a `Cell`, a
  write-back proxy that holds its own copy of the cell's value and writes it
  back with `set` when it is destroyed.

  C++ inheritance becomes composition: the matrix's state is its `base`
  `HealthyMatrix`. The destructor of a `Cell` is the explicit `Commit`, and
  its move constructor is the explicit `MoveFrom`.
 */
module Pain {
  import opened Humanity

  class SmokerMatrix<T(==)> {
    const base: HealthyMatrix<T>

    ghost predicate Valid()
      reads this, base
    {
      base.Valid()
    }

    /** `SmokerMatrix(defaultValue)`: an empty matrix. */
    constructor (dim: nat, defaultValue: T)
      ensures fresh(base) && base.dim == dim && base.defaultValue == defaultValue
      ensures base.container == map[]
      ensures Valid()
    {
      base := new HealthyMatrix(dim, defaultValue);
    }

    /**
      `at(pos)`: a cell for `pos` holding a copy of the value shown there.
      It has no `modifies` clause: creating a cell leaves the store as it is.
     */
    method At(pos: Position) returns (c: Cell<T>)
      requires Valid() && |pos| == base.dim
      ensures fresh(c)
      ensures c.owner == this && c.pos == pos && c.elem == base.Get(pos)
      ensures c.Valid()
    {
      c := new Cell(this, pos, base.Get(pos));
    }

    /**
      `operator[](i)` when DIM > 1: the view `View<DIM>(this, Position{i})`
      indexed by `i`, so the first coordinate is `i`, the others are still 0,
      and DIM - 1 indices remain.
     */
    function Subscript(i: int): (v: View<T>)
      reads this
      requires base.dim > 1
      ensures v.matrix == this && v.n == base.dim - 1 && |v.pos| == base.dim
      ensures v.pos[0] == i
      ensures forall k :: 1 <= k < base.dim ==> v.pos[k] == 0
    {
      View(this, base.dim, [i] + Zeros(base.dim - 1)).Subscript(i)
    }

    /** `operator[](i)` when DIM == 1: the cell at position `[i]`. */
    method SubscriptCell(i: int) returns (c: Cell<T>)
      requires Valid() && base.dim == 1
      modifies base
      ensures fresh(c)
      ensures c.owner == this && c.pos == [i] && c.elem == base.Get([i])
      ensures base.container == old(base.container)
      ensures c.Valid()
    {
      c := View(this, 1, [i]).SubscriptCell(i);
    }
  }

  /** `n` zeros: the coordinates `Position{i}` leaves value-initialised. */
  function Zeros(n: nat): (z: seq<int>)
    ensures |z| == n
    ensures forall k :: 0 <= k < n ==> z[k] == 0
  {
    if n == 0 then [] else Zeros(n - 1) + [0]
  }

  /**
    `SmokerMatrix::Cell`: a proxy for one position. A cell whose `owner` is
    null (one that has been moved from) writes nothing back.
   */
  class Cell<T(==)> {
    var owner: SmokerMatrix?<T>
    var pos: Position
    var elem: T

    ghost predicate Valid()
      reads this, owner, if owner != null then {owner.base} else {}
    {
      owner != null ==> owner.Valid() && |pos| == owner.base.dim
    }

    /** `Cell(owner, pos, elem)`. */
    constructor (owner: SmokerMatrix?<T>, pos: Position, elem: T)
      ensures this.owner == owner && this.pos == pos && this.elem == elem
    {
      this.owner := owner;
      this.pos := pos;
      this.elem := elem;
    }

    /**
      The move constructor `Cell(Cell&& c)`: the new cell takes over `c`'s
      owner, position and value, and `c` loses its owner.
     */
    constructor MoveFrom(c: Cell<T>)
      modifies c
      ensures owner == old(c.owner) && pos == old(c.pos) && elem == old(c.elem)
      ensures c.owner == null && c.pos == old(c.pos) && c.elem == old(c.elem)
    {
      owner := c.owner;
      pos := c.pos;
      elem := c.elem;
      new;
      c.owner := null;
    }

    /**
      `operator=`: replaces the cell's own copy of the value. It may change
      nothing but `elem`, so the owner's store is untouched until `Commit`.
     */
    method Assign(rhs: T)
      modifies this`elem
      ensures elem == rhs
    {
      elem := rhs;
    }

    /**
      `commit()`, run by the destructor: with an owner, the same as the
      owner's `set(pos, elem)`; without one, nothing.
     */
    method Commit()
      requires Valid()
      modifies if owner != null then {owner.base} else {}
      ensures owner != null ==> owner.Valid()
      ensures owner != null ==>
        owner.base.container == Written(old(owner.base.container), owner.base.defaultValue, pos, elem)
    {
      if owner != null {
        owner.base.Set(pos, elem);
      }
    }
  }

  /**
    `SmokerMatrix::View<N>`: a position whose first DIM - N coordinates are
    chosen, with N indices still to apply. DIM is `|pos|`.
   */
  datatype View<T(==)> = View(matrix: SmokerMatrix<T>, n: nat, pos: Position) {

    /**
      `operator[](i)` when N != 1: a copy of the view with coordinate DIM - N
      set to `i` and one index fewer to apply.
     */
    function Subscript(i: int): (r: View<T>)
      requires 1 < n <= |pos|
      ensures r.matrix == matrix && r.n == n - 1 && |r.pos| == |pos|
      ensures r.pos[|pos| - n] == i
      ensures forall k :: 0 <= k < |pos| && k != |pos| - n ==> r.pos[k] == pos[k]
    {
      View(matrix, n - 1, pos[|pos| - n := i])
    }

    /**
      `operator[](i)` when N == 1: a cell for the position with its last
      coordinate set to `i`, built from the value of the temporary cell
      `at(a)`; that temporary is destroyed at the end of the expression and
      writes back the value it read, which leaves the store unchanged.
     */
    method SubscriptCell(i: int) returns (c: Cell<T>)
      requires n == 1 <= |pos|
      requires matrix.Valid() && |pos| == matrix.base.dim
      modifies matrix.base
      ensures fresh(c)
      ensures c.owner == matrix && c.pos == pos[|pos| - 1 := i] && c.elem == matrix.base.Get(c.pos)
      ensures matrix.base.container == old(matrix.base.container)
      ensures c.Valid()
    {
      var a := pos[|pos| - 1 := i];
      var temporary := matrix.At(a);
      c := new Cell(matrix, a, temporary.elem);
      temporary.Commit();
      WrittenLookupIdempotent(old(matrix.base.container), matrix.base.defaultValue, a);
    }
  }

  /**
    Applying the indices `idx` one after the other to a view: coordinates
    DIM - N, ..., DIM - N + |idx| - 1 become `idx`, the rest are kept.
   */
  function Subscripts<T(==)>(v: View<T>, idx: seq<int>): (r: View<T>)
    requires |idx| < v.n <= |v.pos|
    ensures r.matrix == v.matrix && r.n == v.n - |idx| && |r.pos| == |v.pos|
    ensures r.pos == v.pos[..|v.pos| - v.n] + idx + v.pos[|v.pos| - v.n + |idx|..]
    decreases |idx|
  {
    if idx == [] then v
    else
      var w := v.Subscript(idx[0]);
      SpliceStep(v.pos, |v.pos| - v.n, idx);
      Subscripts(w, idx[1..])
  }

  /** Setting `p[s]` to `idx[0]` and then splicing in the rest of `idx` splices in all of `idx`. */
  lemma SpliceStep(p: seq<int>, s: nat, idx: seq<int>)
    requires idx != [] && s + |idx| <= |p|
    ensures p[s := idx[0]][..s + 1] + idx[1..] + p[s := idx[0]][s + |idx|..] == p[..s] + idx + p[s + |idx|..]
  {
    var q := p[s := idx[0]];
    assert q[..s + 1] == p[..s] + [idx[0]];
    assert q[s + |idx|..] == p[s + |idx|..];
    assert [idx[0]] + idx[1..] == idx;
  }

  /**
    The whole chain `m[i1][i2]...[iDIM]`: the cell it yields is for the
    position `[i1, ..., iDIM]`, holds the value shown there, and the store
    is as it was.
   */
  method Chain<T(==)>(m: SmokerMatrix<T>, idx: seq<int>) returns (c: Cell<T>)
    requires m.Valid() && |idx| == m.base.dim >= 1
    modifies m.base
    ensures fresh(c)
    ensures c.owner == m && c.pos == idx && c.elem == m.base.Get(idx)
    ensures m.base.container == old(m.base.container)
    ensures c.Valid()
  {
    var d := |idx|;
    if d == 1 {
      c := m.SubscriptCell(idx[0]);
      assert idx == [idx[0]];
    } else {
      var first := m.Subscript(idx[0]);
      var last := Subscripts(first, idx[1..d - 1]);
      assert last.pos == [idx[0]] + idx[1..d - 1] + [0];
      c := last.SubscriptCell(idx[d - 1]);
      assert c.pos == idx;
    }
  }

  /**
    Two cells for the same position, both open at once: each writes back its
    own copy, so the one committed last decides the store.
   */
  method OverlappingCells<T(==)>(m: SmokerMatrix<T>, p: Position, a: T, b: T)
    requires m.Valid() && |p| == m.base.dim
    modifies m.base
    ensures m.Valid()
    ensures m.base.container == Written(old(m.base.container), m.base.defaultValue, p, b)
    ensures m.base.Get(p) == b
  {
    var first := m.At(p);
    var second := m.At(p);
    second.Assign(a);
    second.Commit();
    first.Assign(b);
    first.Commit();
    WrittenLastWins(old(m.base.container), m.base.defaultValue, p, a, b);
  }

  /**
    With no count of open cells, a cell that was opened first and never
    assigned writes back the value it copied: the write committed through a
    later cell in the meantime is undone.
   */
  method StaleCellRestores<T(==)>(m: SmokerMatrix<T>, p: Position, a: T)
    requires m.Valid() && |p| == m.base.dim
    modifies m.base
    ensures m.Valid()
    ensures m.base.container == old(m.base.container)
  {
    var stale := m.At(p);
    var later := m.At(p);
    later.Assign(a);
    later.Commit();
    stale.Commit();
    WrittenLastWins(old(m.base.container), m.base.defaultValue, p, a, stale.elem);
    WrittenLookupIdempotent(old(m.base.container), m.base.defaultValue, p);
  }

  /**
    A moved-from cell commits nothing; the cell it was moved into commits
    as the original would have.
   */
  method MoveThenCommit<T(==)>(m: SmokerMatrix<T>, p: Position, v: T)
    requires m.Valid() && |p| == m.base.dim
    modifies m.base
    ensures m.Valid()
    ensures m.base.container == Written(old(m.base.container), m.base.defaultValue, p, v)
  {
    var source := m.At(p);
    source.Assign(v);
    var target := new Cell.MoveFrom(source);
    source.Commit();
    assert m.base.container == old(m.base.container);
    target.Commit();
  }

  /**
    Writing through chained indices on a 2-dimensional matrix of integers
    with default 0: a write is seen only once its cell commits, and writing
    the default removes the cell again.
   */
  method Demo() returns (sizeOpen: nat, size1: nat, value1: int, size2: nat, value2: int)
    ensures sizeOpen == 0 && size1 == 1 && value1 == 28 && size2 == 0 && value2 == 0
  {
    var m := new SmokerMatrix<int>(2, 0);
    var c := Chain(m, [1, 2]);
    c.Assign(28);
    sizeOpen := m.base.Size();
    c.Commit();
    size1 := m.base.Size();
    value1 := m.base.Get([1, 2]);
    c := Chain(m, [1, 2]);
    c.Assign(0);
    c.Commit();
    size2 := m.base.Size();
    value2 := m.base.Get([1, 2]);
  }
}
