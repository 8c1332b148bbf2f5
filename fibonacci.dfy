/**
 * The two Fibonacci functions of tests/graphs/correct/complex_structures.c:
 * the doubly recursive definition, and the loop that carries the last two
 * values forward.  Both take a C `int` and return a `long long`.
 */
module Fibonacci {
  import opened CTypes

  /** `fibonacci_recursive`: `n` itself for `n <= 1` (negative `n` included), else the sum of the two before. */
  function FibonacciRecursive(n: Int32): (r: int)
    ensures 0 <= n ==> 0 <= r
    ensures 1 <= n ==> 1 <= r
  {
    if n <= 1 then n else FibonacciRecursive(n - 1) + FibonacciRecursive(n - 2)
  }

  /** From 0 on the sequence is non-negative and never decreases. */
  lemma {:induction false} FibonacciMonotone(a: Int32, b: Int32)
    requires 0 <= a <= b
    ensures 0 <= FibonacciRecursive(a) <= FibonacciRecursive(b)
    decreases b
  {
    if b >= 1 {
      if a < b {
        FibonacciMonotone(a, b - 1);
      } else {
        FibonacciMonotone(0, b - 1);
      }
      if b >= 2 {
        FibonacciMonotone(0, b - 2);
      }
    }
  }

  /** The 92nd number is the largest that a `long long` holds. */
  lemma Fibonacci92()
    ensures FibonacciRecursive(92) == 7540113804746346429 <= LongLongMax
    ensures FibonacciRecursive(91) + FibonacciRecursive(92) > LongLongMax
  {
    assert FibonacciRecursive(10) == 55;
    assert FibonacciRecursive(11) == 89;
    assert FibonacciRecursive(20) == 6765;
    assert FibonacciRecursive(21) == 10946;
    assert FibonacciRecursive(30) == 832040;
    assert FibonacciRecursive(31) == 1346269;
    assert FibonacciRecursive(40) == 102334155;
    assert FibonacciRecursive(41) == 165580141;
    assert FibonacciRecursive(50) == 12586269025;
    assert FibonacciRecursive(51) == 20365011074;
    assert FibonacciRecursive(60) == 1548008755920;
    assert FibonacciRecursive(61) == 2504730781961;
    assert FibonacciRecursive(70) == 190392490709135;
    assert FibonacciRecursive(71) == 308061521170129;
    assert FibonacciRecursive(80) == 23416728348467685;
    assert FibonacciRecursive(81) == 37889062373143906;
    assert FibonacciRecursive(90) == 2880067194370816120;
    assert FibonacciRecursive(91) == 4660046610375530309;
  }

  /** Up to 92 every value fits in a `long long`. */
  lemma FibonacciFitsLongLong(n: Int32)
    requires n <= 92
    ensures LongLongMin <= FibonacciRecursive(n) <= LongLongMax
  {
    if 0 <= n {
      FibonacciMonotone(n, 92);
      Fibonacci92();
    }
  }

  /**
   * `fibonacci_iterative`: the loop from 2 to `n` carrying the previous two
   * values computes the recursive definition, and no intermediate sum
   * leaves the `long long` range while `n <= 92`.
   */
  method FibonacciIterative(n: Int32) returns (r: int)
    requires n <= 92
    ensures r == FibonacciRecursive(n)
    ensures LongLongMin <= r <= LongLongMax
  {
    if n <= 1 {
      return n;
    }
    var prev := 0;
    var curr := 1;
    var i: Int32 := 2;
    while i <= n
      invariant 2 <= i <= n + 1
      invariant prev == FibonacciRecursive(i - 2) && curr == FibonacciRecursive(i - 1)
    {
      FibonacciFitsLongLong(i);
      var next := prev + curr;
      assert LongLongMin <= next <= LongLongMax;
      prev := curr;
      curr := next;
      i := i + 1;
    }
    FibonacciFitsLongLong(n);
    return curr;
  }
}
