/**
  Flattening of a coordinate array plus a value into one tuple, as done by
  `makeTuple` when a matrix iterator is dereferenced.

  A C++ tuple `(a[0], ..., a[N-1], value)` mixes `int` components with one
  component of the value type; here it is a sequence of `Component`s, the
  first N of them `Coord`s and the last one a `Value`.
 */
module Lib {

  datatype Option<+T> = None | Some(value: T)

  /** One component of a flattened tuple. */
  datatype Component<T> = Coord(coord: int) | Value(value: T)

  /** `std::make_index_sequence<n>`: the indices 0, 1, ..., n-1 in order. */
  function IndexSequence(n: nat): (r: seq<nat>)
    ensures |r| == n
    ensures forall k :: 0 <= k < n ==> r[k] == k
  {
    if n == 0 then [] else IndexSequence(n - 1) + [n - 1]
  }

  /**
    `makeTupleImpl`: the components `a[I]...` for the indices in `indices`,
    in that order, followed by `value`.
   */
  function MakeTupleImpl<T>(a: seq<int>, indices: seq<nat>, value: T): (t: seq<Component<T>>)
    requires forall k :: 0 <= k < |indices| ==> indices[k] < |a|
    ensures |t| == |indices| + 1
    ensures forall k :: 0 <= k < |indices| ==> t[k] == Coord(a[indices[k]])
    ensures t[|indices|] == Value(value)
  {
    if indices == [] then [Value(value)]
    else [Coord(a[indices[0]])] + MakeTupleImpl(a, indices[1..], value)
  }

  /**
    `makeTuple`: an N-array and a value become an (N+1)-tuple whose first N
    components are the array's, in order, and whose last is the value.
    The array is a value here, so the caller's copy cannot change.
   */
  function MakeTuple<T>(arr: seq<int>, value: T): (t: seq<Component<T>>)
    ensures |t| == |arr| + 1
    ensures forall k :: 0 <= k < |arr| ==> t[k] == Coord(arr[k])
    ensures t[|arr|] == Value(value)
  {
    MakeTupleImpl(arr, IndexSequence(|arr|), value)
  }

  /**
    The inverse of `MakeTuple` (what `std::tie(x, y, v) = tuple` does with a
    dereferenced iterator): the coordinates and the value, or `None` when the
    tuple is not coordinates followed by exactly one value.
   */
  function Unflatten<T>(t: seq<Component<T>>): Option<(seq<int>, T)>
  {
    if |t| == 0 then None
    else match t[0]
      case Value(v) => if |t| == 1 then Some(([], v)) else None
      case Coord(c) =>
        match Unflatten(t[1..])
        case None => None
        case Some(rest) => Some(([c] + rest.0, rest.1))
  }

  /** Unflattening a made tuple gives back the array and the value. */
  lemma {:induction false} UnflattenMakeTuple<T>(arr: seq<int>, value: T)
    ensures Unflatten(MakeTuple(arr, value)) == Some((arr, value))
  {
    var t := MakeTuple(arr, value);
    if arr == [] {
      assert t == [Value(value)];
    } else {
      UnflattenMakeTuple(arr[1..], value);
      var t' := MakeTuple(arr[1..], value);
      assert t[1..] == t' by {
        forall k | 0 <= k < |t'| ensures t[1..][k] == t'[k] {
          if k < |arr[1..]| { assert t[1..][k] == Coord(arr[k + 1]); }
        }
      }
      assert arr == [arr[0]] + arr[1..];
    }
  }

  /** A tuple that unflattens is exactly the made tuple of its parts. */
  lemma {:induction false} MakeTupleUnflatten<T>(t: seq<Component<T>>, arr: seq<int>, value: T)
    requires Unflatten(t) == Some((arr, value))
    ensures t == MakeTuple(arr, value)
  {
    match t[0]
    case Value(v) =>
      assert t == [Value(value)];
    case Coord(c) =>
      var rest := Unflatten(t[1..]).value;
      MakeTupleUnflatten(t[1..], rest.0, rest.1);
      var m := MakeTuple(arr, value);
      assert |m| == |t|;
      forall k | 0 <= k < |t| ensures m[k] == t[k] {
        if 0 < k { assert t[k] == t[1..][k - 1]; }
      }
  }
}
