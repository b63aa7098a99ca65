/** Three ways of producing the squares 0, 1, 4, ..., (m-1)^2 of the numbers in
    `range(m)`: an eager list, a generator and a cursor object. */
module Squares {
  import opened Yields

  /** How many numbers `range(m)` produces: m, or none when m <= 0. */
  function RangeLength(m: int): nat {
    if m > 0 then m else 0
  }

  /** `gen_squares(m)`: the whole sequence the generator yields. */
  function GenSquares(maxRoot: int): (r: seq<int>)
    ensures |r| == RangeLength(maxRoot)
    ensures forall i :: 0 <= i < |r| ==> r[i] == i * i
    decreases RangeLength(maxRoot)
  {
    if maxRoot <= 0 then [] else GenSquares(maxRoot - 1) + [(maxRoot - 1) * (maxRoot - 1)]
  }

  /** `fetch_squares(m)`: appends n^2 to a list for each n in `range(m)`; the list is
      what the generator yields. */
  method FetchSquares(maxRoot: int) returns (squares: seq<int>)
    ensures |squares| == RangeLength(maxRoot)
    ensures forall i :: 0 <= i < |squares| ==> squares[i] == i * i
    ensures squares == GenSquares(maxRoot)
  {
    squares := [];
    var n := 0;
    while n < maxRoot
      invariant 0 <= n && (n <= maxRoot || n == 0)
      invariant squares == GenSquares(n)
    {
      squares := squares + [n * n];
      n := n + 1;
    }
  }

  /** The squares of lo, lo + 1, ..., hi - 1. */
  function SquaresFrom(lo: int, hi: int): (r: seq<int>)
    ensures |r| == RangeLength(hi - lo)
    ensures forall i :: 0 <= i < |r| ==> r[i] == (lo + i) * (lo + i)
    decreases hi - lo
  {
    if lo >= hi then [] else [lo * lo] + SquaresFrom(lo + 1, hi)
  }

  /** A cursor started at 0 has exactly the generator's squares still to produce. */
  lemma SquaresFromZero(maxRoot: int)
    ensures SquaresFrom(0, maxRoot) == GenSquares(maxRoot)
  {
  }

  /** `SquaresIterator`: an object holding the bound and a cursor. */
  class SquaresIterator {
    var maxRootValue: int
    var currentRootValue: int

    /** The squares the object has still to produce. */
    function Remaining(): seq<int>
      reads this
    {
      SquaresFrom(currentRootValue, maxRootValue)
    }

    /** The object signals exhaustion on its next pull. */
    predicate Exhausted()
      reads this
    {
      currentRootValue >= maxRootValue
    }

    constructor (maxRoot: int)
      ensures maxRootValue == maxRoot && currentRootValue == 0
      ensures Remaining() == GenSquares(maxRoot)
    {
      maxRootValue := maxRoot;
      currentRootValue := 0;
      SquaresFromZero(maxRoot);
    }

    /** `__next__`: the square of the cursor, advancing the cursor by one, or None
        (StopIteration) once the cursor has reached the bound, changing nothing. */
    method Next() returns (r: Option<int>)
      modifies this
      ensures maxRootValue == old(maxRootValue)
      ensures old(currentRootValue) < old(maxRootValue) ==>
        r == Some(old(currentRootValue) * old(currentRootValue)) && currentRootValue == old(currentRootValue) + 1
      ensures old(currentRootValue) >= old(maxRootValue) ==>
        r == None && currentRootValue == old(currentRootValue)
      ensures r.None? <==> old(Remaining()) == []
      ensures r.Some? ==> r.value == old(Remaining())[0] && Remaining() == old(Remaining())[1..]
      ensures r.None? ==> Exhausted()
    {
      if currentRootValue >= maxRootValue {
        return None;
      }
      var squareValue := currentRootValue * currentRootValue;
      currentRootValue := currentRootValue + 1;
      r := Some(squareValue);
    }

    /** A `for` loop over the object: pulls until exhaustion and collects what it gets. */
    method Drain() returns (out: seq<int>)
      modifies this
      ensures out == old(Remaining())
      ensures Exhausted() && Remaining() == []
      ensures maxRootValue == old(maxRootValue)
      ensures currentRootValue ==
        if old(currentRootValue) < old(maxRootValue) then old(maxRootValue) else old(currentRootValue)
    {
      out := [];
      var r := Next();
      while r.Some?
        invariant out + (if r.Some? then [r.value] else []) + Remaining() == old(Remaining())
        invariant r.None? ==> Exhausted()
        invariant maxRootValue == old(maxRootValue)
        invariant old(currentRootValue) <= currentRootValue
        invariant old(currentRootValue) < currentRootValue ==> currentRootValue <= maxRootValue
        invariant r.None? ==>
          currentRootValue == (if old(currentRootValue) < old(maxRootValue) then old(maxRootValue) else old(currentRootValue))
        decreases |Remaining()| + (if r.Some? then 1 else 0)
      {
        out := out + [r.value];
        r := Next();
      }
    }
  }

  /** Iterating over a fresh `SquaresIterator(m)` yields what `gen_squares(m)` yields. */
  method IterateSquares(maxRoot: int) returns (squares: seq<int>)
    ensures squares == GenSquares(maxRoot)
  {
    var it := new SquaresIterator(maxRoot);
    squares := it.Drain();
  }

  /** `return_squares_class(m)`: returns from inside the first loop iteration, so
      it gives the first square, 0, when there is one, and None otherwise. */
  method ReturnSquaresClass(maxRoot: int) returns (first: Option<int>)
    ensures first == if maxRoot > 0 then Some(0) else None
    ensures first == if GenSquares(maxRoot) == [] then None else Some(GenSquares(maxRoot)[0])
  {
    var it := new SquaresIterator(maxRoot);
    var r := it.Next();
    if r.Some? {
      return Some(r.value);
    }
    return None;
  }
}
