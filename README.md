# Prime game

This is a Dafny model of `is_winner(x, nums)`, the prime game. Maria (player 1) and Ben (player 2) play one round per entry n of `nums`. A round is played on the board 1..n. Its two helpers are modelled here:

- `sieve(n)` is a Sieve of Eratosthenes over a boolean array of size n + 1.
- `play(n)` alternates moves until no prime is left on the board. A move takes the largest available prime and strikes it and its multiples up to n. It returns the player who is then to move.

`is_winner` counts, for each player, the rounds for which `play` returns that player. It answers `"Maria"`, `"Ben"` or `None` by strict comparison of the two counts.

The model has four modules:

- `Results` (results.dfy) defines the `Option` and `Result` types. `Result` carries the `IndexError` the code raises for a board size below 1.
- `Primes` (primes.dfy) models the sieve in place on an `array<bool>`. It proves the sieve against `PrimesUpTo(n)`, the ascending list of primes in [2, n].
- `Round` (round.dfy) models `play` as a `while` loop over an explicit available set. It is proved against `Simulate`, the round as a recursive function. The main theorem is that each move uses up exactly one available prime. So a round lasts as many moves as there are available primes, and its result depends only on the parity of that number.
- `PrimeGame` (prime_game.dfy) models the tally loop and the verdict.

## Model

| member | source | states |
|---|---|---|
| `Primes.PrimesUpTo` | 0x0A-primegame/0-prime_game.py:18-39 | The list the sieve promises: it contains exactly the primes k with 2 <= k <= n, and it is strictly ascending. |
| `Primes.PrimesUpToLength` | 0x0A-primegame/0-prime_game.py:39 | The sieve's list has exactly `PrimeCount(n)` entries, the number of primes in [2, n]. |
| `Primes.TrueIndices` | 0x0A-primegame/0-prime_game.py:39 | The final comprehension: k is in the result exactly when index k is in range and still marked. |
| `Primes.TrueIndicesOfPrimeMarks` | 0x0A-primegame/0-prime_game.py:39 | If the marks are true exactly at the prime indices, the comprehension yields `PrimesUpTo` of the last index. |
| `Primes.ClearMultiples` | 0x0A-primegame/0-prime_game.py:35-36 | The inner loop clears exactly the indices k >= i*i that are multiples of i. Every other entry is unchanged. |
| `Primes.CrossOff` | 0x0A-primegame/0-prime_game.py:34-36 | One outer pass keeps the sieve invariant from i to i + 1. The invariant: 0 and 1 are cleared, and k >= 2 is marked exactly when k has no divisor d < i with d*d <= k. |
| `Primes.ClearedIsComposite` | 0x0A-primegame/0-prime_game.py:33-36 | Every index >= 2 the sieve has cleared is composite, so a prime index is never cleared. |
| `Primes.NoFactorBelowIsPrime` | 0x0A-primegame/0-prime_game.py:33 | Once i*i > k, an index k that was never cleared is prime. This is why the outer loop can stop at the square root of n. |
| `Primes.ClearedBelowMarksPrimes` | 0x0A-primegame/0-prime_game.py:33-36 | When the outer loop ends, the marks are true exactly at the primes. |
| `Primes.Sieve` | 0x0A-primegame/0-prime_game.py:18-39 | `sieve(n)` raises IndexError exactly when n < 1. Otherwise it returns `PrimesUpTo(n)`: exactly the primes in [2, n], strictly ascending. |
| `Round.Multiples` | 0x0A-primegame/0-prime_game.py:66 | `range(move, n + 1, move)` holds exactly the k with move <= k <= n that are divisible by move. |
| `Round.Move` | 0x0A-primegame/0-prime_game.py:66 | `difference_update` keeps exactly the available numbers that are not multiples of the move up to n. Nothing else changes. The set shrinks when the move itself was available and <= n. |
| `Round.PossibleMoves` | 0x0A-primegame/0-prime_game.py:58 | The filter keeps exactly the primes that are available, in their order, and it keeps an ascending list ascending. |
| `Round.MovesAgree` | 0x0A-primegame/0-prime_game.py:58 | Two available sets that agree on the primes give the same possible moves. |
| `Round.MovesDropLast` | 0x0A-primegame/0-prime_game.py:58-66 | Removing exactly the last possible move from the available primes removes it from the end of the moves. |
| `Round.GreedyMoveTakesOnePrime` | 0x0A-primegame/0-prime_game.py:58-66 | A move takes exactly one available prime: afterwards the possible moves are the old ones without their last entry. |
| `Round.GreedyMoveIsLargest` | 0x0A-primegame/0-prime_game.py:58-65 | The chosen move is the largest available prime <= n. There is no move exactly when no prime <= n is available. |
| `Round.Simulate` | 0x0A-primegame/0-prime_game.py:55-69 | The round as a function. Its result is always 1 or 2, and it terminates because the number of possible moves decreases. |
| `Round.SimulateStep` | 0x0A-primegame/0-prime_game.py:61-69 | One step: the move is a prime (>= 2), one fewer move remains, and the result is that of the rest of the round with the other player to move. |
| `Round.SimulateParity` | 0x0A-primegame/0-prime_game.py:55-69 | The round returns the starting player when the number of possible moves is even, and the other player when it is odd. |
| `Round.Play` | 0x0A-primegame/0-prime_game.py:41-69 | `play(n)` raises IndexError exactly when n < 1. Otherwise its loop returns the value of `Simulate`. Loop invariants: `player` is always 1 or 2, and the outcome of the rest of the round is unchanged. |
| `PrimeGame.Board` | 0x0A-primegame/0-prime_game.py:58 | The available set at the start of a round is exactly the integers 1..n. |
| `PrimeGame.RoundWinner` | 0x0A-primegame/0-prime_game.py:77 | The value credited for a round is always 1 or 2. |
| `PrimeGame.AllAvailableMoves` | 0x0A-primegame/0-prime_game.py:58 | With every prime available, there are as many possible moves as primes. |
| `PrimeGame.RoundWinnerParity` | 0x0A-primegame/0-prime_game.py:41-69 | On the board 1..n, the move-by-move round returns 1 exactly when the number of primes up to n is even. |
| `PrimeGame.PlayRound` | 0x0A-primegame/0-prime_game.py:77 | A round on a fresh board raises IndexError exactly when n < 1. Otherwise it returns `RoundWinner(n)`. |
| `PrimeGame.WinsAppend` | 0x0A-primegame/0-prime_game.py:76-81 | One more round adds one to the tally of the player it is credited to, and nothing to the other. |
| `PrimeGame.WinsCoverRounds` | 0x0A-primegame/0-prime_game.py:72-81 | Every round is credited to exactly one player, so the two tallies add up to the number of rounds. |
| `PrimeGame.Verdict` | 0x0A-primegame/0-prime_game.py:84-89 | The verdict is "Maria" iff her tally is larger, "Ben" iff his is larger, and None iff they are equal. |
| `PrimeGame.IsWinner` | 0x0A-primegame/0-prime_game.py:1-89 | `is_winner` raises IndexError exactly when some round's n is below 1. Otherwise it returns the verdict on the number of rounds credited to each player. |
| `PrimeGame.SingleRoundOfOne` | 0x0A-primegame/0-prime_game.py:61-62 | With `nums = [1]` there is no prime, so `play` returns 1 and the answer is "Maria". |
| `PrimeGame.RoundsOfOneAndTwoTie` | 0x0A-primegame/0-prime_game.py:76-89 | With `nums = [1, 2]` the rounds go to Maria and Ben, so the answer is None. |

## Left out

- The code takes `int(n**0.5)` as the bound of the outer sieve loop. The model uses the integer condition i*i <= n instead, which gives the same range without floating point.
- The parameter `x` is never read. `IsWinner` takes it and ignores it.
- Optimal play is not modelled. The docstring speaks of both players playing optimally, but the code only takes the largest available prime. Only that greedy rule is modelled; nothing is proved about optimal strategies.
- The code reads and updates the enclosing `nums` as the set of available numbers (lines 58 and 66). `nums` is the list of rounds, and it is also iterated while being changed. Lists have no `difference_update`, so that would raise. The model gives each round its own available set, `Board(n)` = {1..n}, passed to `Play` as a parameter. The Python runtime errors that the shared object would cause are not modelled.
- `play` returns the player who is to move when no prime is left. The docstring says that player loses, but `is_winner` credits the returned value as the round's winner. The model follows the code, so a round on 1..1 counts for Maria.
- The IndexError that `sieve` raises for n < 1 is modelled as the `IndexError` result. No other exceptions are modelled, such as those from a non-integer n.
