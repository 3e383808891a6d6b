/**
 * `is_winner(x, nums)`: plays one round per board size in `nums`, credits the
 * value each round returns to Maria (1) or Ben (2), and names whoever has more
 * rounds, or nobody on a tie.
 */
module PrimeGame {
  import opened Results
  import opened Primes
  import opened Round

  /** The board of a round: the integers 1 to n. */
  function Board(n: int): (board: set<int>)
    ensures forall k :: k in board <==> 1 <= k <= n
    decreases n
  {
    if n < 1 then {} else Board(n - 1) + {n}
  }

  /** Every board size lets the sieve run; a size below 1 makes the Python code raise. */
  predicate ValidRounds(nums: seq<int>) {
    forall i :: 0 <= i < |nums| ==> nums[i] >= 1
  }

  /**
   * The value `play(n)` returns on a fresh board 1..n, in closed form: 1 (Maria)
   * when the number of primes up to n is even, 2 (Ben) when it is odd.
   * RoundWinnerParity proves that the move-by-move round arrives at this value.
   */
  function RoundWinner(n: int): (winner: int)
    ensures winner == 1 || winner == 2
  {
    if PrimeCount(n) % 2 == 0 then 1 else 2
  }

  /** The number of rounds of `nums` for which `play` returns `player`. */
  function Wins(nums: seq<int>, player: int): nat
  {
    if nums == [] then 0
    else Wins(nums[..|nums| - 1], player) + (if RoundWinner(nums[|nums| - 1]) == player then 1 else 0)
  }

  /** Playing one more round adds that round's credit to the tally. */
  lemma WinsAppend(nums: seq<int>, n: int, player: int)
    ensures Wins(nums + [n], player) == Wins(nums, player) + if RoundWinner(n) == player then 1 else 0
  {
    assert (nums + [n])[..|nums|] == nums;
  }

  /** The final comparison of the two tallies. */
  function Verdict(mariaWins: int, benWins: int): (r: Option<string>)
    ensures r == Some("Maria") <==> mariaWins > benWins
    ensures r == Some("Ben") <==> benWins > mariaWins
    ensures r == None <==> mariaWins == benWins
  {
    if mariaWins > benWins then Some("Maria")
    else if benWins > mariaWins then Some("Ben")
    else None
  }

  /** When every member of `primes` is available, each of them is a possible move: there are |primes| moves. */
  lemma {:induction false} AllAvailableMoves(primes: seq<int>, available: set<int>)
    requires forall i :: 0 <= i < |primes| ==> primes[i] in available
    ensures |PossibleMoves(primes, available)| == |primes|
  {
    if primes != [] {
      var earlier := primes[..|primes| - 1];
      forall i | 0 <= i < |earlier|
        ensures earlier[i] in available
      {
        assert earlier[i] == primes[i];
      }
      AllAvailableMoves(earlier, available);
    }
  }

  /**
   * The move-by-move round on a fresh board 1..n returns RoundWinner(n): it is
   * credited to Maria exactly when the number of primes up to n is even.
   */
  lemma RoundWinnerParity(n: int)
    ensures Simulate(PrimesUpTo(n), Board(n), 1, n) == RoundWinner(n)
  {
    var primes := PrimesUpTo(n);
    forall i | 0 <= i < |primes|
      ensures primes[i] in Board(n)
    {
      assert primes[i] in primes;
    }
    AllAvailableMoves(primes, Board(n));
    SimulateParity(primes, Board(n), 1, n);
    PrimesUpToLength(n);
  }

  /** Every round is credited to exactly one of the two players. */
  lemma {:induction false} WinsCoverRounds(nums: seq<int>)
    ensures Wins(nums, 1) + Wins(nums, 2) == |nums|
  {
    if nums != [] {
      WinsCoverRounds(nums[..|nums| - 1]);
    }
  }

  /** `play(n)` on a fresh board 1..n: the IndexError for n < 1, otherwise the round's winner. */
  method PlayRound(n: int) returns (r: Result<int>)
    ensures r.IndexError? <==> n < 1
    ensures r.Ok? ==> r.value == RoundWinner(n)
  {
    r := Play(n, Board(n));
    RoundWinnerParity(n);
  }

  /**
   * is_winner(x, nums): the IndexError of the first round whose board is
   * smaller than 1, otherwise the verdict on the two tallies. `x` is not used.
   */
  method IsWinner(x: int, nums: seq<int>) returns (r: Result<Option<string>>)
    ensures r.Ok? <==> ValidRounds(nums)
    ensures r.Ok? ==> r.value == Verdict(Wins(nums, 1), Wins(nums, 2))
  {
    var mariaWins := 0;
    var benWins := 0;
    for idx := 0 to |nums|
      invariant ValidRounds(nums[..idx])
      invariant mariaWins == Wins(nums[..idx], 1)
      invariant benWins == Wins(nums[..idx], 2)
    {
      var n := nums[idx];
      var winner :- PlayRound(n);
      assert nums[..idx + 1] == nums[..idx] + [n];
      WinsAppend(nums[..idx], n, 1);
      WinsAppend(nums[..idx], n, 2);
      if winner == 1 {
        mariaWins := mariaWins + 1;
      } else if winner == 2 {
        benWins := benWins + 1;
      }
    }
    assert nums[..|nums|] == nums;
    r := Ok(Verdict(mariaWins, benWins));
  }

  /** A single round on 1..1: no prime, so `play` returns 1 and the tally goes to Maria. */
  lemma SingleRoundOfOne()
    ensures ValidRounds([1]) && Verdict(Wins([1], 1), Wins([1], 2)) == Some("Maria")
  {
    WinsAppend([], 1, 1);
    WinsAppend([], 1, 2);
    assert [] + [1] == [1];
  }

  /** Rounds on 1..1 and 1..2: Maria is credited with the first, Ben with the second, so nobody wins. */
  lemma RoundsOfOneAndTwoTie()
    ensures ValidRounds([1, 2]) && Verdict(Wins([1, 2], 1), Wins([1, 2], 2)) == None
  {
    assert IsPrime(2);
    assert RoundWinner(1) == 1 && RoundWinner(2) == 2;
    WinsAppend([], 1, 1);
    WinsAppend([], 1, 2);
    assert [] + [1] == [1];
    WinsAppend([1], 2, 1);
    WinsAppend([1], 2, 2);
    assert [1] + [2] == [1, 2];
  }
}
