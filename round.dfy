/**
 * One round of the game (`play(n)`): starting with player 1, the player to move
 * takes the largest prime still available, strikes it and its multiples up to n
 * from the available set, and hands the turn over; the round ends when no prime
 * is available, and `play` returns the player who is then to move.
 */
module Round {
  import opened Results
  import opened Primes

  lemma MultipleHasIndex(move: int, n: int, k: int)
    requires move >= 1 && move <= k <= n && k % move == 0
    ensures 1 <= k / move <= n / move && k == (k / move) * move
  {
    var t := k / move;
    assert k == t * move;
    if t < 1 {
      MulLe(t, 0, move);
      assert false;
    }
    if n / move < t {
      assert n == (n / move) * move + n % move;
      MulLe(n / move + 1, t, move);
      assert false;
    }
  }

  lemma IndexGivesMultiple(move: int, n: int, t: int)
    requires move >= 1 && 1 <= t <= n / move
    ensures move <= t * move <= n && (t * move) % move == 0
  {
    MulLe(1, t, move);
    MulLe(t, n / move, move);
    assert n == (n / move) * move + n % move;
    MulMod(move, t);
  }

  /** `range(move, n + 1, move)`: move and its multiples up to n. */
  function Multiples(move: int, n: int): (r: set<int>)
    requires move >= 1
    ensures forall k :: k in r <==> move <= k <= n && k % move == 0
  {
    var r := set t | 1 <= t <= n / move :: t * move;
    forall k | move <= k <= n && k % move == 0
      ensures k in r
    {
      MultipleHasIndex(move, n, k);
    }
    forall k | k in r
      ensures move <= k <= n && k % move == 0
    {
      var t :| 1 <= t <= n / move && k == t * move;
      IndexGivesMultiple(move, n, t);
    }
    r
  }

  /** Line 66: the available set once `move` and its multiples up to n have been struck. */
  function Move(available: set<int>, move: int, n: int): (after: set<int>)
    requires move >= 1
    ensures after <= available
    ensures forall k :: k in after <==> k in available && !(move <= k <= n && k % move == 0)
    ensures move in available && move <= n ==> |after| < |available|
  {
    var after := available - Multiples(move, n);
    if move in available && move <= n then
      assert move % move == 0;
      assert after <= available - {move};
      assert |after| <= |available - {move}|;
      after
    else
      after
  }

  /** Line 58: the members of `primes` that are still available, in the order of `primes`. */
  function PossibleMoves(primes: seq<int>, available: set<int>): (moves: seq<int>)
    ensures forall q :: q in moves <==> q in primes && q in available
    ensures |moves| <= |primes|
    ensures StrictlyAscending(primes) ==> StrictlyAscending(moves)
  {
    if primes == [] then []
    else
      var last := primes[|primes| - 1];
      var earlier := PossibleMoves(primes[..|primes| - 1], available);
      assert StrictlyAscending(primes) ==> forall a :: 0 <= a < |earlier| ==> earlier[a] < last by {
        if StrictlyAscending(primes) {
          forall a | 0 <= a < |earlier|
            ensures earlier[a] < last
          {
            assert earlier[a] in primes[..|primes| - 1];
          }
        }
      }
      earlier + (if last in available then [last] else [])
  }

  /** What `play` gets from `sieve(n)`: ascending primes, none above n. */
  ghost predicate IsPrimeList(primes: seq<int>, n: int) {
    StrictlyAscending(primes) && forall q :: q in primes ==> IsPrime(q) && q <= n
  }

  /** Filtering by two sets that agree on the members of `primes` gives the same moves. */
  lemma {:induction false} MovesAgree(primes: seq<int>, a: set<int>, b: set<int>)
    requires forall q :: q in primes ==> (q in a <==> q in b)
    ensures PossibleMoves(primes, a) == PossibleMoves(primes, b)
  {
    if primes != [] {
      MovesAgree(primes[..|primes| - 1], a, b);
    }
  }

  /** Taking away exactly the last possible move p drops p from the end of the possible moves. */
  lemma {:induction false} MovesDropLast(primes: seq<int>, a: set<int>, b: set<int>, p: int)
    requires StrictlyAscending(primes)
    requires PossibleMoves(primes, a) != []
    requires p == PossibleMoves(primes, a)[|PossibleMoves(primes, a)| - 1]
    requires forall q :: q in primes ==> (q in b <==> q in a && q != p)
    ensures PossibleMoves(primes, b) == PossibleMoves(primes, a)[..|PossibleMoves(primes, a)| - 1]
  {
    var earlier := primes[..|primes| - 1];
    var last := primes[|primes| - 1];
    if last in a {
      forall q | q in earlier
        ensures q in b <==> q in a
      {
        var idx :| 0 <= idx < |earlier| && earlier[idx] == q;
        assert primes[idx] == q;
      }
      MovesAgree(earlier, a, b);
    } else {
      MovesDropLast(earlier, a, b, p);
    }
  }

  /**
   * Each greedy move uses up exactly one available prime: the largest available
   * prime p is struck, and every other multiple of p is composite.
   */
  lemma GreedyMoveTakesOnePrime(primes: seq<int>, available: set<int>, n: int)
    requires IsPrimeList(primes, n)
    requires PossibleMoves(primes, available) != []
    ensures var moves := PossibleMoves(primes, available);
      && moves[|moves| - 1] in primes
      && PossibleMoves(primes, Move(available, moves[|moves| - 1], n)) == moves[..|moves| - 1]
  {
    var moves := PossibleMoves(primes, available);
    var p := moves[|moves| - 1];
    assert p in moves;
    var after := Move(available, p, n);
    forall q | q in primes
      ensures q in after <==> q in available && q != p
    {
    }
    MovesDropLast(primes, available, after, p);
  }

  /** The last entry of a strictly ascending sequence is its largest. */
  lemma AscendingLastIsMax(s: seq<int>, q: int)
    requires StrictlyAscending(s) && q in s
    ensures q <= s[|s| - 1]
  {
    var idx :| 0 <= idx < |s| && s[idx] == q;
    if idx < |s| - 1 {
      assert s[idx] < s[|s| - 1];
    }
  }

  /**
   * The greedy rule of lines 58 and 65: the last possible move is the largest
   * prime up to n that is still available, and there is none exactly when no
   * prime up to n is available.
   */
  lemma GreedyMoveIsLargest(n: int, available: set<int>)
    ensures var moves := PossibleMoves(PrimesUpTo(n), available);
      && (moves == [] <==> forall q :: IsPrime(q) && q <= n ==> q !in available)
      && (moves != [] ==>
            var p := moves[|moves| - 1];
            && p in available && IsPrime(p) && p <= n
            && forall q :: IsPrime(q) && q <= n && q in available ==> q <= p)
  {
    var primes := PrimesUpTo(n);
    var moves := PossibleMoves(primes, available);
    if moves != [] {
      var p := moves[|moves| - 1];
      assert p in moves;
      forall q | IsPrime(q) && q <= n && q in available
        ensures q <= p
      {
        assert q in primes;
        AscendingLastIsMax(moves, q);
      }
    } else {
      forall q | IsPrime(q) && q <= n
        ensures q !in available
      {
        assert q in primes;
      }
    }
  }

  /**
   * The round played out from `available` with `player` to move: the player who
   * is to move once no prime of `primes` is available.
   */
  function Simulate(primes: seq<int>, available: set<int>, player: int, n: int): (stuck: int)
    requires IsPrimeList(primes, n)
    requires player == 1 || player == 2
    ensures stuck == 1 || stuck == 2
    decreases |PossibleMoves(primes, available)|
  {
    var moves := PossibleMoves(primes, available);
    if moves == [] then player
    else
      var move := moves[|moves| - 1];
      assert move in primes;
      GreedyMoveTakesOnePrime(primes, available, n);
      Simulate(primes, Move(available, move, n), 3 - player, n)
  }

  /** One step of the round: the player to move takes the largest available prime and the turn passes. */
  lemma SimulateStep(primes: seq<int>, available: set<int>, player: int, n: int)
    requires IsPrimeList(primes, n)
    requires player == 1 || player == 2
    requires PossibleMoves(primes, available) != []
    ensures var moves := PossibleMoves(primes, available);
      && moves[|moves| - 1] >= 2
      && var after := Move(available, moves[|moves| - 1], n);
      && |PossibleMoves(primes, after)| == |moves| - 1
      && Simulate(primes, available, player, n) == Simulate(primes, after, 3 - player, n)
  {
    var moves := PossibleMoves(primes, available);
    assert moves[|moves| - 1] in primes;
    GreedyMoveTakesOnePrime(primes, available, n);
  }

  /** Handing the turn over once more flips whose turn it is after an odd number of moves. */
  lemma ParityStep(m: int, player: int)
    requires m >= 1
    ensures (if (m - 1) % 2 == 0 then 3 - player else player) == if m % 2 == 0 then player else 3 - player
  {
  }

  /**
   * The round lasts exactly as many moves as there are available primes, so the
   * player left without a move is decided by the parity of that number.
   */
  lemma {:induction false} SimulateParity(primes: seq<int>, available: set<int>, player: int, n: int)
    requires IsPrimeList(primes, n)
    requires player == 1 || player == 2
    ensures Simulate(primes, available, player, n)
      == if |PossibleMoves(primes, available)| % 2 == 0 then player else 3 - player
    decreases |PossibleMoves(primes, available)|
  {
    var moves := PossibleMoves(primes, available);
    if moves != [] {
      SimulateStep(primes, available, player, n);
      var after := Move(available, moves[|moves| - 1], n);
      SimulateParity(primes, after, 3 - player, n);
      ParityStep(|moves|, player);
    }
  }

  /**
   * play(n) on the available set `available` (the set the Python code reads from
   * the enclosing scope): the IndexError of the sieve for n < 1, otherwise the
   * player who is to move when no prime up to n is left.
   */
  method Play(n: int, available: set<int>) returns (r: Result<int>)
    ensures r.IndexError? <==> n < 1
    ensures r.Ok? ==> r.value == Simulate(PrimesUpTo(n), available, 1, n)
  {
    var primes :- Sieve(n);
    assert IsPrimeList(primes, n);
    var avail := available;
    var player := 1;
    while true
      invariant player == 1 || player == 2
      invariant Simulate(primes, avail, player, n) == Simulate(primes, available, 1, n)
      decreases |PossibleMoves(primes, avail)|
    {
      var possibleMoves := PossibleMoves(primes, avail);
      if possibleMoves == [] {
        return Ok(player);
      }
      var move := possibleMoves[|possibleMoves| - 1];
      SimulateStep(primes, avail, player, n);
      avail := Move(avail, move, n);
      player := 3 - player;
    }
  }
}
