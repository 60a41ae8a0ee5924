/** The Fibonacci list exercise: `fib_rec(n)` gives the first n + 1 Fibonacci
    numbers, and `fibonnaci_sequence` guards it against negative lengths. */
module Fibonacci {

  /** The error raised for a negative length; its message is not modelled. */
  datatype InvalidEntryError = InvalidEntryError

  datatype Result<T> = Success(value: T) | Failure(error: InvalidEntryError)

  /** Reference definition of the i-th Fibonacci number, F0 = 0, F1 = 1. */
  function Fib(i: nat): nat
  {
    if i < 2 then i else Fib(i - 1) + Fib(i - 2)
  }

  /** `fib_rec`: the list [F0, ..., Fn]. The recursive case takes the list
      for n - 1 and pushes the sum of its last two entries onto it. */
  function FibRec(n: nat): (r: seq<int>)
    ensures |r| == n + 1
    ensures r[0] == 0
    ensures n >= 1 ==> r[1] == 1
    ensures n >= 2 ==> r[n] == r[n - 1] + r[n - 2]
  {
    if n == 0 then [0]
    else if n == 1 then [0, 1]
    else
      var result := FibRec(n - 1);
      result + [result[|result| - 1] + result[|result| - 2]]
  }

  /** Every entry of `fib_rec(n)` is the Fibonacci number of its index. */
  lemma {:induction false} FibRecIsFib(n: nat)
    ensures forall i :: 0 <= i <= n ==> FibRec(n)[i] == Fib(i)
  {
    if n >= 2 {
      FibRecIsFib(n - 1);
      var prev, r := FibRec(n - 1), FibRec(n);
      assert r == prev + [prev[n - 1] + prev[n - 2]];
      assert forall i :: 0 <= i < n ==> r[i] == prev[i];
    }
  }

  /** Every entry after the first two is the sum of the two before it. */
  lemma FibRecRecurrence(n: nat)
    ensures forall i :: 2 <= i <= n ==> FibRec(n)[i] == FibRec(n)[i - 1] + FibRec(n)[i - 2]
  {
    FibRecIsFib(n);
    var r := FibRec(n);
    forall i | 2 <= i <= n
      ensures r[i] == r[i - 1] + r[i - 2]
    {
      assert r[i] == Fib(i) && r[i - 1] == Fib(i - 1) && r[i - 2] == Fib(i - 2);
    }
  }

  /** `fib_rec(n)` is a prefix of `fib_rec(m)` whenever n <= m: growing the
      length only appends. */
  lemma FibRecPrefix(n: nat, m: nat)
    requires n <= m
    ensures FibRec(n) <= FibRec(m)
  {
    FibRecIsFib(n);
    FibRecIsFib(m);
    assert FibRec(n) == FibRec(m)[..n + 1];
  }

  /** `fibonnaci_sequence`: a negative length raises InvalidEntryError,
      any other length gives the Fibonacci list of that length plus one. */
  function FibonacciSequence(sequenceLength: int): (r: Result<seq<int>>)
    ensures r.Failure? <==> sequenceLength < 0
    ensures r.Success? ==> r.value == FibRec(sequenceLength)
    ensures r.Success? ==> |r.value| == sequenceLength + 1
    ensures r.Success? ==> forall i :: 0 <= i < |r.value| ==> r.value[i] == Fib(i)
  {
    if sequenceLength < 0 then Failure(InvalidEntryError)
    else
      FibRecIsFib(sequenceLength);
      Success(FibRec(sequenceLength))
  }
}
