/** The two Fibonacci functions of the library, `fibonacci_recursive` and
    `fibonacci_iterative`, over `i64`. */
module Fibonacci {

  const I64_MIN: int := -0x8000_0000_0000_0000
  const I64_MAX: int := 0x7fff_ffff_ffff_ffff

  /** The largest argument whose Fibonacci number is an i64. */
  const MAX_FIB_ARG: int := 92

  /** `fibonacci_recursive`: arguments below 2 are returned unchanged (so a
      negative argument comes back as it is), larger ones are the sum of the
      two previous numbers. */
  function FibRecursive(n: int): (r: int)
    ensures n >= 0 ==> r >= 0
    ensures n >= 1 ==> r >= 1
    decreases n
  {
    if n < 2 then n else FibRecursive(n - 1) + FibRecursive(n - 2)
  }

  /** Fibonacci numbers never decrease from index 0 on. */
  lemma {:induction false} FibMonotone(a: int, b: int)
    requires 0 <= a <= b
    ensures FibRecursive(a) <= FibRecursive(b)
    decreases b - a
  {
    if a < b {
      FibMonotone(a, b - 1);
      assert FibRecursive(b - 1) <= FibRecursive(b) by {
        if b >= 2 {
          assert FibRecursive(b) == FibRecursive(b - 1) + FibRecursive(b - 2);
        }
      }
    }
  }

  // Fibonacci numbers 92 and 93, evaluated in stages so that no single
  // proof unfolds the recursion too far.

  lemma FibUpTo24()
    ensures FibRecursive(24) == 46368
    ensures FibRecursive(25) == 75025
  {
    assert FibRecursive(8) == 21;
    assert FibRecursive(9) == 34;
    assert FibRecursive(16) == 987;
    assert FibRecursive(17) == 1597;
    assert FibRecursive(24) == 46368;
    assert FibRecursive(25) == 75025;
  }

  lemma FibUpTo48()
    ensures FibRecursive(48) == 4807526976
    ensures FibRecursive(49) == 7778742049
  {
    FibUpTo24();
    assert FibRecursive(32) == 2178309;
    assert FibRecursive(33) == 3524578;
    assert FibRecursive(40) == 102334155;
    assert FibRecursive(41) == 165580141;
    assert FibRecursive(48) == 4807526976;
    assert FibRecursive(49) == 7778742049;
  }

  lemma FibUpTo72()
    ensures FibRecursive(72) == 498454011879264
    ensures FibRecursive(73) == 806515533049393
  {
    FibUpTo48();
    assert FibRecursive(56) == 225851433717;
    assert FibRecursive(57) == 365435296162;
    assert FibRecursive(64) == 10610209857723;
    assert FibRecursive(65) == 17167680177565;
    assert FibRecursive(72) == 498454011879264;
    assert FibRecursive(73) == 806515533049393;
  }

  lemma FibUpTo92()
    ensures FibRecursive(92) == 7540113804746346429
    ensures FibRecursive(93) == 12200160415121876738
  {
    FibUpTo72();
    assert FibRecursive(80) == 23416728348467685;
    assert FibRecursive(81) == 37889062373143906;
    assert FibRecursive(88) == 1100087778366101931;
    assert FibRecursive(89) == 1779979416004714189;
    assert FibRecursive(92) == 7540113804746346429;
    assert FibRecursive(93) == 12200160415121876738;
  }

  /** Up to 92, the recursive function returns a value that fits i64 at every
      call, so none of its additions overflow. */
  lemma FibFitsI64(n: int)
    requires I64_MIN <= n <= MAX_FIB_ARG
    ensures I64_MIN <= FibRecursive(n) <= I64_MAX
  {
    if n >= 0 {
      FibMonotone(n, 92);
      FibUpTo92();
    }
  }

  /** At 93 the sum leaves i64: 92 is the last argument either function can take. */
  lemma FibOverflowsAt93()
    ensures FibRecursive(MAX_FIB_ARG + 1) > I64_MAX
    ensures FibRecursive(MAX_FIB_ARG) <= I64_MAX
  {
    FibUpTo92();
  }

  /** `fibonacci_iterative`: starts from `current = 1` at `i = 1` and shifts
      the pair up until `i` reaches `n`. For `n <= 1` the loop does not run and
      1 is returned, where the recursive function returns `n`. */
  method FibIterative(n: int) returns (r: int)
    requires I64_MIN <= n <= MAX_FIB_ARG
    ensures n >= 1 ==> r == FibRecursive(n)
    ensures n < 1 ==> r == 1
    ensures 1 <= r <= I64_MAX
  {
    var firstNumber := 0;
    var secondNumber := 0;
    var currentNumber := 1;
    var i := 1;
    while i < n
      invariant 1 <= i <= (if n < 1 then 1 else n)
      invariant secondNumber == FibRecursive(i - 1)
      invariant currentNumber == FibRecursive(i)
      invariant currentNumber <= I64_MAX
      decreases n - i
    {
      firstNumber := secondNumber;
      secondNumber := currentNumber;
      FibFitsI64(i + 1);
      currentNumber := firstNumber + secondNumber;
      i := i + 1;
    }
    FibFitsI64(i);
    r := currentNumber;
  }
}
