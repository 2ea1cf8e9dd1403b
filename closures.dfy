/** The two closure generators. Each call of a generator creates a fresh
    cell for the variables it captures; the returned closure is modelled as
    an object whose fields are those variables and whose `Call` method is
    the closure's body. */
module Closures {
  import opened Int64

  /** The exact sum of `xs`. */
  function Sum(xs: seq<int>): (t: int)
  {
    if xs == [] then 0 else Sum(xs[..|xs| - 1]) + xs[|xs| - 1]
  }

  /** The closure returned by `adder()`: it captures its own `sum`, which
      starts at 0, adds each argument to it and returns the new total. */
  class Adder {
    var sum: Int64
    /** The arguments of every call so far. */
    ghost var args: seq<int>

    ghost predicate Valid()
      reads this
    {
      sum == Wrap(Sum(args))
    }

    constructor ()
      ensures Valid() && args == [] && sum == 0
    {
      sum := 0;
      args := [];
    }

    method Call(x: Int64) returns (r: Int64)
      requires Valid()
      modifies this
      ensures Valid() && args == old(args) + [x]
      ensures sum == Wrap(old(sum) + x)
      ensures r == sum == Wrap(Sum(args))
    {
      WrapAdd(Sum(args), x);
      sum := Wrap(sum + x);
      args := args + [x];
      assert args[..|args| - 1] == old(args);
      r := sum;
    }
  }

  /** A fresh adder driven with `xs`: the k-th call returns the running
      total of the first k+1 arguments, as a Go `int`. */
  method RunAdder(xs: seq<Int64>) returns (outs: seq<Int64>)
    ensures |outs| == |xs|
    ensures forall k :: 0 <= k < |xs| ==> outs[k] == Wrap(Sum(xs[..k + 1]))
  {
    var f := new Adder();
    outs := [];
    for i := 0 to |xs|
      invariant f.Valid() && f.args == xs[..i]
      invariant |outs| == i
      invariant forall k :: 0 <= k < i ==> outs[k] == Wrap(Sum(xs[..k + 1]))
    {
      var r := f.Call(xs[i]);
      assert xs[..i + 1] == xs[..i] + [xs[i]];
      outs := outs + [r];
    }
  }

  /** The sum 0 + 1 + ... + (n - 1). */
  function Triangle(n: nat): (t: nat)
  {
    if n == 0 then 0 else Triangle(n - 1) + (n - 1)
  }

  lemma {:induction false} TriangleBound(n: nat)
    requires n <= 10
    ensures Triangle(n) <= 45
  {
    assert Triangle(5) == 10;
    if n < 10 {
      TriangleMonotone(n, 10);
    }
  }

  lemma {:induction false} TriangleMonotone(i: nat, j: nat)
    requires i <= j
    ensures Triangle(i) <= Triangle(j)
  {
    if i < j {
      TriangleMonotone(i, j - 1);
    }
  }

  /** The first ten triangular numbers and their negated doubles. */
  lemma TriangleTable()
    ensures seq(10, k requires 0 <= k => Triangle(k + 1)) == [0, 1, 3, 6, 10, 15, 21, 28, 36, 45]
    ensures seq(10, k requires 0 <= k => -2 * Triangle(k + 1)) == [0, -2, -6, -12, -20, -30, -42, -56, -72, -90]
  {
    assert Triangle(5) == 10;
    assert Triangle(10) == 45;
  }

  /** The loop of `func_closure_demo`: two adders `pos` and `neg` driven in
      turn with `i` and `-2*i` for i = 0..n-1. Each keeps its own sum, so
      `pos` yields the triangular numbers and `neg` minus twice them. */
  method DriveTwoAdders(n: nat) returns (posOuts: seq<Int64>, negOuts: seq<Int64>)
    requires n <= 10
    ensures |posOuts| == |negOuts| == n
    ensures forall k :: 0 <= k < n ==> posOuts[k] == Triangle(k + 1) && negOuts[k] == -2 * Triangle(k + 1)
  {
    var pos := new Adder();
    var neg := new Adder();
    posOuts, negOuts := [], [];
    for i := 0 to n
      invariant pos != neg
      invariant pos.Valid() && neg.Valid()
      invariant pos.sum == Triangle(i) && neg.sum == -2 * Triangle(i)
      invariant |posOuts| == |negOuts| == i
      invariant forall k :: 0 <= k < i ==> posOuts[k] == Triangle(k + 1) && negOuts[k] == -2 * Triangle(k + 1)
    {
      TriangleBound(i + 1);
      var p := pos.Call(i);
      var n := neg.Call(-2 * i);
      posOuts, negOuts := posOuts + [p], negOuts + [n];
    }
  }

  /** `func_closure_demo`: ten rounds of the two adders. */
  method ClosureDemo() returns (posOuts: seq<Int64>, negOuts: seq<Int64>)
    ensures posOuts == [0, 1, 3, 6, 10, 15, 21, 28, 36, 45]
    ensures negOuts == [0, -2, -6, -12, -20, -30, -42, -56, -72, -90]
  {
    posOuts, negOuts := DriveTwoAdders(10);
    TriangleTable();
    assert posOuts == seq(10, k requires 0 <= k => Triangle(k + 1));
    assert negOuts == seq(10, k requires 0 <= k => -2 * Triangle(k + 1));
  }

  /** The Fibonacci numbers 0, 1, 1, 2, 3, 5, ... */
  function Fib(n: nat): (f: nat)
  {
    if n < 2 then n else Fib(n - 2) + Fib(n - 1)
  }

  /** The closure returned by `fibonacci()`: it captures the pair
      `(numA, numB)`, starting at (0, 1); each call returns `numA` and
      shifts the pair to `(numB, numA + numB)`. */
  class Fibonacci {
    var numA: Int64
    var numB: Int64
    /** The number of calls so far. */
    ghost var calls: nat

    ghost predicate Valid()
      reads this
    {
      numA == Wrap(Fib(calls)) && numB == Wrap(Fib(calls + 1))
    }

    constructor ()
      ensures Valid() && calls == 0 && numA == 0 && numB == 1
    {
      numA, numB := 0, 1;
      calls := 0;
    }

    method Call() returns (r: Int64)
      requires Valid()
      modifies this
      ensures Valid() && calls == old(calls) + 1
      ensures r == Wrap(Fib(old(calls)))
    {
      assert Fib(calls + 2) == Fib(calls) + Fib(calls + 1);
      WrapAddBoth(Fib(calls), Fib(calls + 1));
      assert Wrap(numA + numB) == Wrap(Fib(calls + 2));
      var tmp := numA;
      numA := numB;
      numB := Wrap(tmp + numB);
      calls := calls + 1;
      r := tmp;
    }
  }

  /** The first `n` Fibonacci numbers as Go `int`s. */
  function FibInts(n: nat): (s: seq<Int64>)
    ensures |s| == n
    ensures forall k :: 0 <= k < n ==> s[k] == Wrap(Fib(k))
  {
    if n == 0 then [] else FibInts(n - 1) + [Wrap(Fib(n - 1))]
  }

  /** A fresh Fibonacci closure called `n` times yields Fib(0), ..., Fib(n-1),
      as Go `int`s. */
  method FirstFibs(n: nat) returns (outs: seq<Int64>)
    ensures outs == FibInts(n)
    ensures forall k :: 0 <= k < n ==> outs[k] == Wrap(Fib(k))
  {
    var f := new Fibonacci();
    outs := [];
    for i := 0 to n
      invariant f.Valid() && f.calls == i
      invariant outs == FibInts(i)
    {
      var r := f.Call();
      outs := outs + [r];
    }
  }

  /** `fibonacciDriver`: ten calls of one closure. */
  method FibonacciDriver() returns (outs: seq<Int64>)
    ensures outs == [0, 1, 1, 2, 3, 5, 8, 13, 21, 34]
  {
    outs := FirstFibs(10);
    assert Fib(9) == 34;
  }
}
