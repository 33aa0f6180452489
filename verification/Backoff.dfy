/** The shipper's shared backoff (`internal/ship/ship.go`), in the 64-bit arithmetic of a Go duration. */
module Backoff {

  const TWO_62: int := 0x4000_0000_0000_0000
  const MAX_INT64: int := 2 * TWO_62 - 1

  /** The value left in a signed 64-bit integer. */
  function Wrap64(n: int): (r: int)
    ensures -MAX_INT64 - 1 <= r <= MAX_INT64
    ensures -MAX_INT64 - 1 <= n <= MAX_INT64 ==> r == n
    ensures MAX_INT64 < n <= 2 * MAX_INT64 ==> r < 0
  {
    (n + 2 * TWO_62) % (4 * TWO_62) - 2 * TWO_62
  }

  /** What happened to one attempt: a terminal outcome, a failure slept through, or a failure whose sleep the
      context cut short. */
  datatype Attempt = Terminal | Slept | Cut

  /** The sleep after `b`, once slept through. */
  function Grow(b: int, maxBackoff: int): int {
    if Wrap64(2 * b) > maxBackoff then maxBackoff else Wrap64(2 * b)
  }

  /** The `backoff` field after these attempts, across segments and across calls of `Run`. */
  function After(minBackoff: int, maxBackoff: int, attempts: seq<Attempt>): int {
    if attempts == [] then minBackoff
    else
      var b := After(minBackoff, maxBackoff, attempts[..|attempts| - 1]);
      match attempts[|attempts| - 1]
      case Terminal => minBackoff
      case Slept => Grow(b, maxBackoff)
      case Cut => b
  }

  /** How many failures have been slept through since the last terminal outcome. */
  function Streak(attempts: seq<Attempt>): nat {
    if attempts == [] then 0
    else
      var k := Streak(attempts[..|attempts| - 1]);
      match attempts[|attempts| - 1]
      case Terminal => 0
      case Slept => k + 1
      case Cut => k
  }

  function Pow2(k: nat): (r: int)
    ensures r > 0
  {
    if k == 0 then 1 else 2 * Pow2(k - 1)
  }

  function Min(a: int, b: int): int {
    if a <= b then a else b
  }

  /** Closed form: after `k` failures in a row that were slept through, whatever came before, the next sleep
      is the minimum doubled `k` times, capped. */
  lemma {:induction false} ClosedForm(minBackoff: int, maxBackoff: int, attempts: seq<Attempt>)
    requires 0 < minBackoff <= maxBackoff < TWO_62
    ensures After(minBackoff, maxBackoff, attempts) == Min(minBackoff * Pow2(Streak(attempts)), maxBackoff)
    ensures minBackoff <= After(minBackoff, maxBackoff, attempts) <= maxBackoff
  {
    if attempts != [] {
      var prior := attempts[..|attempts| - 1];
      ClosedForm(minBackoff, maxBackoff, prior);
      var k := Streak(prior);
      assert minBackoff * Pow2(k + 1) == 2 * (minBackoff * Pow2(k));
    }
  }

  function Failures(n: nat): seq<Attempt> {
    if n == 0 then [] else Failures(n - 1) + [Slept]
  }

  lemma FailuresStep(minBackoff: int, maxBackoff: int, n: nat)
    ensures After(minBackoff, maxBackoff, Failures(n + 1)) == Grow(After(minBackoff, maxBackoff, Failures(n)), maxBackoff)
  {
    assert Failures(n + 1)[..|Failures(n + 1)| - 1] == Failures(n);
  }

  /** A run of failures long enough to leave the bounds, when the cap is so large that doubling wraps. */
  lemma {:induction false} Overflows(minBackoff: int, maxBackoff: int, n: nat) returns (m: nat)
    requires 0 < minBackoff <= maxBackoff <= MAX_INT64 && TWO_62 <= maxBackoff
    requires minBackoff <= After(minBackoff, maxBackoff, Failures(n)) <= maxBackoff
    ensures After(minBackoff, maxBackoff, Failures(m)) < minBackoff
    decreases maxBackoff - After(minBackoff, maxBackoff, Failures(n))
  {
    var b := After(minBackoff, maxBackoff, Failures(n));
    FailuresStep(minBackoff, maxBackoff, n);
    if b >= TWO_62 {
      m := n + 1;
    } else {
      m := Overflows(minBackoff, maxBackoff, n + 1);
    }
  }

  /** Every sleep in every run lies within the configured bounds exactly when the bounds are in order and
      doubling the upper one cannot wrap. (The zero-value defaults alone do not ensure the first: an upper
      bound configured below the default lower one is accepted.) */
  lemma WithinBoundsIff(minBackoff: int, maxBackoff: int)
    requires 0 < minBackoff < 0x8000_0000_0000_0000 && 0 < maxBackoff < 0x8000_0000_0000_0000
    ensures (forall attempts :: minBackoff <= After(minBackoff, maxBackoff, attempts) <= maxBackoff)
            <==> minBackoff <= maxBackoff < 0x4000_0000_0000_0000
  {
    if minBackoff <= maxBackoff < TWO_62 {
      forall attempts ensures minBackoff <= After(minBackoff, maxBackoff, attempts) <= maxBackoff {
        ClosedForm(minBackoff, maxBackoff, attempts);
      }
    } else if minBackoff > maxBackoff {
      assert After(minBackoff, maxBackoff, []) == minBackoff;
    } else {
      var m := Overflows(minBackoff, maxBackoff, 0);
      assert !(minBackoff <= After(minBackoff, maxBackoff, Failures(m)));
    }
  }
}
