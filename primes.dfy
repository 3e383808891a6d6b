/**
 * The Sieve of Eratosthenes that `is_winner` uses to list the primes of a round:
 * a boolean array of size n + 1 is filled in place, the multiples of every
 * surviving i with i * i <= n are cleared from i * i on, and the indices still
 * marked are returned in ascending order.
 */
module Primes {
  import opened Results

  /** k is prime: at least 2 and not divisible by any d with 2 <= d < k. */
  predicate IsPrime(k: int) {
    k >= 2 && forall d :: 2 <= d < k ==> k % d != 0
  }

  predicate StrictlyAscending(s: seq<int>) {
    forall a, b :: 0 <= a < b < |s| ==> s[a] < s[b]
  }

  /** The primes in [2, n] in ascending order: what `sieve(n)` promises to return. */
  function PrimesUpTo(n: int): (r: seq<int>)
    ensures forall k :: k in r <==> 2 <= k <= n && IsPrime(k)
    ensures StrictlyAscending(r)
    decreases n
  {
    if n < 2 then []
    else
      var smaller := PrimesUpTo(n - 1);
      assert forall a :: 0 <= a < |smaller| ==> smaller[a] < n by {
        forall a | 0 <= a < |smaller|
          ensures smaller[a] < n
        {
          assert smaller[a] in smaller;
        }
      }
      smaller + (if IsPrime(n) then [n] else [])
  }

  /** The number of primes in [2, n]. */
  function PrimeCount(n: int): nat
    decreases n
  {
    if n < 2 then 0 else PrimeCount(n - 1) + (if IsPrime(n) then 1 else 0)
  }

  /** The sieve's list has exactly PrimeCount(n) entries. */
  lemma {:induction false} PrimesUpToLength(n: int)
    ensures |PrimesUpTo(n)| == PrimeCount(n)
    decreases n
  {
    if n >= 2 {
      PrimesUpToLength(n - 1);
    }
  }

  /** The indices of `marks` that are still true, ascending (the comprehension that ends the sieve). */
  function TrueIndices(marks: seq<bool>): (r: seq<int>)
    ensures forall k :: k in r <==> 0 <= k < |marks| && marks[k]
  {
    if marks == [] then []
    else TrueIndices(marks[..|marks| - 1]) + (if marks[|marks| - 1] then [|marks| - 1] else [])
  }

  /** k has a divisor d with 2 <= d < i and d * d <= k: the sieve has cleared k once i has passed d. */
  ghost predicate HasFactorBelow(k: int, i: int) {
    exists d :: 2 <= d < i && d * d <= k && k % d == 0
  }

  lemma MulLe(a: int, b: int, c: int)
    requires a <= b && c >= 0
    ensures a * c <= b * c
  {
    assert b * c - a * c == (b - a) * c;
  }

  lemma SquareLe(a: int, b: int)
    requires 0 <= a <= b
    ensures a * a <= b * b
  {
    MulLe(a, b, a);
    MulLe(a, b, b);
  }

  lemma MulMod(a: int, b: int)
    requires a >= 1
    ensures (a * b) % a == 0
  {
    var q, r := (a * b) / a, (a * b) % a;
    assert a * b == a * q + r;
    assert a * (b - q) == r;
    if b - q >= 1 {
      MulLe(1, b - q, a);
      assert false;
    } else if b - q <= -1 {
      MulLe(1, q - b, a);
      assert false;
    }
  }

  lemma NextMultiple(i: int, j: int)
    requires i >= 1 && j % i == 0
    ensures (j + i) % i == 0
  {
    var a := j / i;
    assert j + i == i * (a + 1);
    MulMod(i, a + 1);
  }

  /** Divisibility is transitive. */
  lemma DividesTrans(d: int, i: int, k: int)
    requires d >= 1 && i >= 1
    requires i % d == 0 && k % i == 0
    ensures k % d == 0
  {
    var a, b := i / d, k / i;
    assert k == d * (a * b);
    MulMod(d, a * b);
  }

  /** Of a proper divisor d of k and its cofactor k / d, the smaller one is at most the square root of k. */
  lemma SmallCofactor(k: int, d: int) returns (f: int)
    requires 2 <= d < k && k % d == 0
    ensures 2 <= f && f * f <= k && k % f == 0
  {
    var e := k / d;
    assert k == d * e;
    if e <= 1 {
      if e >= 0 { MulLe(e, 1, d); } else { MulLe(0, -e, d); }
      assert false;
    }
    if d <= e {
      MulLe(d, e, d);
      f := d;
    } else {
      MulLe(e, d, e);
      MulMod(e, d);
      f := e;
    }
  }

  lemma FactorBelow(k: int, i: int, f: int)
    requires 0 <= i && 2 <= f && f * f <= k < i * i && k % f == 0
    ensures HasFactorBelow(k, i)
  {
    if i <= f {
      SquareLe(i, f);
      assert false;
    }
  }

  /** Every index the sieve clears (beyond 0 and 1) is composite: a prime index is never cleared. */
  lemma ClearedIsComposite(k: int, i: int)
    requires HasFactorBelow(k, i)
    ensures !IsPrime(k)
  {
    var d :| 2 <= d < i && d * d <= k && k % d == 0;
    MulLe(2, d, d);
  }

  /** Once i * i exceeds k, having no factor below i is exactly being prime. */
  lemma NoFactorBelowIsPrime(k: int, i: int)
    requires 0 <= i && 2 <= k < i * i
    requires !HasFactorBelow(k, i)
    ensures IsPrime(k)
  {
    forall d | 2 <= d < k
      ensures k % d != 0
    {
      if k % d == 0 {
        var f := SmallCofactor(k, d);
        FactorBelow(k, i, f);
      }
    }
  }

  /** Two consecutive multiples of i have no multiple of i between them. */
  lemma NoMultipleBetween(i: int, j: int, k: int)
    requires i >= 1 && j % i == 0 && j < k < j + i
    ensures k % i != 0
  {
    if k % i == 0 {
      var a, b := j / i, k / i;
      assert j == a * i;
      assert k == b * i;
      if b <= a {
        MulLe(b, a, i);
        assert false;
      } else {
        MulLe(a + 1, b, i);
        assert false;
      }
    }
  }

  /** Passing a prime i clears exactly the multiples of i from i * i on. */
  lemma ExtendFactorBound(k: int, i: int)
    requires i >= 2
    ensures HasFactorBelow(k, i + 1) <==> HasFactorBelow(k, i) || (i * i <= k && k % i == 0)
  {
    if HasFactorBelow(k, i + 1) && !HasFactorBelow(k, i) {
      var d :| 2 <= d < i + 1 && d * d <= k && k % d == 0;
      assert d == i;
    }
  }

  /** Passing an i that is already cleared clears nothing new. */
  lemma SkipClearedIndex(k: int, i: int)
    requires i >= 2 && HasFactorBelow(i, i)
    ensures HasFactorBelow(k, i + 1) <==> HasFactorBelow(k, i)
  {
    ExtendFactorBound(k, i);
    if i * i <= k && k % i == 0 {
      var d :| 2 <= d < i && d * d <= i && i % d == 0;
      DividesTrans(d, i, k);
      MulLe(1, i, i);
      assert HasFactorBelow(k, i);
    }
  }

  /** A marks array whose true entries are exactly the primes lists exactly the primes. */
  lemma {:induction false} TrueIndicesOfPrimeMarks(marks: seq<bool>)
    requires forall k :: 0 <= k < |marks| ==> marks[k] == IsPrime(k)
    ensures TrueIndices(marks) == PrimesUpTo(|marks| - 1)
  {
    if marks != [] {
      TrueIndicesOfPrimeMarks(marks[..|marks| - 1]);
    }
  }

  /** The inner loop of the sieve: clears i * i, i * i + i, ... up to the end of `marks`. */
  method ClearMultiples(marks: array<bool>, i: int)
    requires i >= 2
    modifies marks
    ensures forall k :: 0 <= k < marks.Length ==>
      marks[k] == (old(marks[k]) && !(i * i <= k && k % i == 0))
  {
    var j := i * i;
    MulMod(i, i);
    while j < marks.Length
      invariant i * i <= j && j % i == 0
      invariant forall k :: 0 <= k < marks.Length ==>
        marks[k] == (old(marks[k]) && !(i * i <= k < j && k % i == 0))
    {
      marks[j] := false;
      forall k | j < k < j + i
        ensures k % i != 0
      {
        NoMultipleBetween(i, j, k);
      }
      NextMultiple(i, j);
      j := j + i;
    }
  }

  /**
   * The state of the marks once every i' < i has been processed: 0 and 1 are
   * cleared, and an index k >= 2 is still marked exactly when it has no factor
   * d < i with d * d <= k.
   */
  ghost predicate ClearedBelow(marks: seq<bool>, i: int) {
    && |marks| >= 2 && !marks[0] && !marks[1]
    && forall k :: 2 <= k < |marks| ==> (marks[k] <==> !HasFactorBelow(k, i))
  }

  /** Once i * i exceeds the last index, the marked indices are exactly the primes. */
  lemma ClearedBelowMarksPrimes(marks: seq<bool>, i: int)
    requires 0 <= i && |marks| <= i * i && ClearedBelow(marks, i)
    ensures forall k :: 0 <= k < |marks| ==> marks[k] == IsPrime(k)
  {
    forall k | 2 <= k < |marks|
      ensures marks[k] == IsPrime(k)
    {
      if marks[k] {
        NoFactorBelowIsPrime(k, i);
      } else {
        ClearedIsComposite(k, i);
      }
    }
  }

  /** One pass of the outer loop: if i is still marked, clear its multiples from i * i on. */
  method CrossOff(marks: array<bool>, i: int)
    requires 2 <= i < marks.Length && ClearedBelow(marks[..], i)
    modifies marks
    ensures ClearedBelow(marks[..], i + 1)
  {
    if marks[i] {
      ClearMultiples(marks, i);
      forall k | 2 <= k < marks.Length
        ensures marks[k] <==> !HasFactorBelow(k, i + 1)
      {
        ExtendFactorBound(k, i);
      }
    } else {
      assert HasFactorBelow(i, i);
      forall k | 2 <= k < marks.Length
        ensures marks[k] <==> !HasFactorBelow(k, i + 1)
      {
        SkipClearedIndex(k, i);
      }
    }
  }

  /**
   * sieve(n): for n >= 1 the ascending primes up to n; for n < 1 the Python code
   * fails with an IndexError while clearing entries 0 and 1.
   */
  method Sieve(n: int) returns (r: Result<seq<int>>)
    ensures r.IndexError? <==> n < 1
    ensures r.Ok? ==> r.value == PrimesUpTo(n)
    ensures r.Ok? ==> StrictlyAscending(r.value)
    ensures r.Ok? ==> forall k :: k in r.value <==> 2 <= k <= n && IsPrime(k)
  {
    if n < 1 {
      return IndexError;
    }
    var marks := new bool[n + 1](_ => true);
    marks[0], marks[1] := false, false;
    var i := 2;
    while i * i <= n
      invariant 2 <= i
      invariant ClearedBelow(marks[..], i)
    {
      MulLe(1, i, i);
      CrossOff(marks, i);
      i := i + 1;
    }
    ClearedBelowMarksPrimes(marks[..], i);
    TrueIndicesOfPrimeMarks(marks[..]);
    r := Ok(TrueIndices(marks[..]));
  }
}
