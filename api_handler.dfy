/**
 The `/` handler of otel-grafana-stack/cmd/main.go: every request bumps a
 request counter `i` and adds one to the `api.counter` instrument, labelled
 `outcome=failure` when `i` is a multiple of `5 + r` and `outcome=success`
 otherwise, where `r` is a fresh random draw from {0, 1}. The draw is a
 parameter here; the instrument is modelled by its two per-outcome sums.
 */
module ApiHandler {

  /** The value of the `outcome` attribute. */
  datatype Outcome = Success | Failure

  /** The outcome of the request that brought the counter to `count`, given
      the draw `draw` in {0, 1}: a failure on multiples of `5 + draw`. Whatever
      the draw, only multiples of 5 or 6 can fail, and multiples of 30 always
      do. */
  function OutcomeOf(count: int, draw: int): (o: Outcome)
    requires 0 <= draw < 2
    ensures o == Failure ==> count % 5 == 0 || count % 6 == 0
    ensures count % 30 == 0 ==> o == Failure
  {
    if count % (5 + draw) == 0 then Failure
    else
      assert count % 30 != 0 by {
        if count % 30 == 0 {
          MultipleOfFactor(count, 5 + draw, 30 / (5 + draw));
        }
      }
      Success
  }

  /** Every draw is one `rand.Intn(2)` can return. */
  predicate ValidDraws(draws: seq<int>) {
    forall k :: 0 <= k < |draws| ==> 0 <= draws[k] < 2
  }

  /** How many of the requests served with these draws (the `k`-th request
      bringing the counter to `k + 1`) were failures. */
  function Failures(draws: seq<int>): (n: nat)
    requires ValidDraws(draws)
    ensures n <= |draws|
  {
    if draws == [] then 0
    else
      var prefix := draws[..|draws| - 1];
      assert ValidDraws(prefix) by {
        forall k | 0 <= k < |prefix| ensures 0 <= prefix[k] < 2 {
          assert prefix[k] == draws[k];
        }
      }
      Failures(prefix) + (if OutcomeOf(|draws|, draws[|draws| - 1]) == Failure then 1 else 0)
  }

  /** Whatever the draw, a count that is a multiple of neither 5 nor 6 is a
      success and a multiple of 30 is a failure; a multiple of exactly one of
      5 and 6 depends on the draw. */
  lemma OutcomeForEveryDraw(count: int)
    ensures count % 5 != 0 && count % 6 != 0 ==> OutcomeOf(count, 0) == Success && OutcomeOf(count, 1) == Success
    ensures count % 30 == 0 ==> OutcomeOf(count, 0) == Failure && OutcomeOf(count, 1) == Failure
    ensures count % 5 == 0 && count % 6 != 0 ==> OutcomeOf(count, 0) == Failure && OutcomeOf(count, 1) == Success
    ensures count % 6 == 0 && count % 5 != 0 ==> OutcomeOf(count, 0) == Success && OutcomeOf(count, 1) == Failure
  {
    if count % 30 == 0 {
      MultipleOfFactor(count, 5, 6);
      MultipleOfFactor(count, 6, 5);
    }
  }

  /** A multiple of `a * b` is a multiple of `a`. */
  lemma MultipleOfFactor(n: int, a: int, b: int)
    requires a > 0 && b > 0 && n % (a * b) == 0
    ensures n % a == 0
  {
    var q := n / (a * b);
    assert n == (q * b) * a;
    DivUnique(n, a, q * b, 0);
  }

  /** Euclidean division is determined by its quotient and remainder. */
  lemma DivUnique(n: int, m: int, q: int, r: int)
    requires m > 0 && 0 <= r < m && n == q * m + r
    ensures n / m == q && n % m == r
  {
    var q', r' := n / m, n % m;
    assert q' * m + r' == q * m + r;
    var d := q - q';
    assert d * m == q * m - q' * m;
    assert d * m == r' - r;
    assert d >= 1 ==> d * m == m + (d - 1) * m;
    assert d <= -1 ==> -d * m == m + (-d - 1) * m;
  }

  /** Stepping from `n - 1` to `n` adds one to `n / m` exactly when `n` is a
      multiple of `m`. */
  lemma DivStep(n: int, m: int)
    requires n >= 1 && m >= 1
    ensures n / m == (n - 1) / m + (if n % m == 0 then 1 else 0)
  {
    var q, r := (n - 1) / m, (n - 1) % m;
    if r == m - 1 {
      DivUnique(n, m, q + 1, 0);
    } else {
      DivUnique(n, m, q, r + 1);
    }
  }

  /** With a constant divisor the failures are exactly the multiples of it:
      `n` requests with the same draw `draw` fail `n / (5 + draw)` times. */
  lemma {:induction false} ConstantDrawFailures(draws: seq<int>, draw: int)
    requires 0 <= draw < 2
    requires forall k :: 0 <= k < |draws| ==> draws[k] == draw
    ensures Failures(draws) == |draws| / (5 + draw)
  {
    if draws != [] {
      var n, m := |draws|, 5 + draw;
      var prefix := draws[..n - 1];
      assert forall k :: 0 <= k < |prefix| ==> prefix[k] == draws[k];
      ConstantDrawFailures(prefix, draw);
      assert Failures(draws) == Failures(prefix) + (if n % m == 0 then 1 else 0);
      DivStep(n, m);
    }
  }

  /** Whatever the draws, `n` requests give at least the `n / 30` failures
      both divisors agree on and at most the `n / 5 + n / 6 - n / 30`
      numbers up to `n` that either divisor can hit. */
  lemma {:induction false} FailureBounds(draws: seq<int>)
    requires ValidDraws(draws)
    ensures var n := |draws|; n / 30 <= Failures(draws) <= n / 5 + n / 6 - n / 30
  {
    if draws != [] {
      var n := |draws|;
      var prefix := draws[..n - 1];
      FailureBounds(prefix);
      DivStep(n, 5);
      DivStep(n, 6);
      DivStep(n, 30);
      OutcomeForEveryDraw(n);
    }
  }

  /** The handler's state: the request counter `i` and the sums that
      `api.counter` holds for each outcome, together with the draws made so
      far. */
  class RequestCounter {
    var i: int
    var successes: nat
    var failures: nat
    ghost var draws: seq<int>

    /** One draw per request served, the counter counting them, and every
        request added once to the sum of its own outcome. */
    ghost predicate Valid()
      reads this
    {
      ValidDraws(draws) && i == |draws| && failures == Failures(draws) && successes + failures == i
    }

    /** `i := 0`, and an instrument that holds nothing yet. */
    constructor()
      ensures Valid()
      ensures i == 0 && successes == 0 && failures == 0 && draws == []
    {
      i := 0;
      successes := 0;
      failures := 0;
      draws := [];
    }

    /** Whatever the draws have been, the failures `api.counter` holds after
        `i` requests are between `i / 30` and `i / 5 + i / 6 - i / 30`. */
    lemma FailureSumBounds()
      requires Valid()
      ensures i / 30 <= failures <= i / 5 + i / 6 - i / 30
    {
      FailureBounds(draws);
    }

    /** One request to `/`: the counter goes up by one, the outcome is a
        failure exactly when the new count is a multiple of `5 + draw`, and
        the instrument gains one under that outcome and nothing under the
        other. */
    method Serve(draw: int) returns (outcome: Outcome)
      requires Valid() && 0 <= draw < 2
      modifies this
      ensures Valid()
      ensures i == old(i) + 1 && draws == old(draws) + [draw]
      ensures outcome == Failure <==> i % (5 + draw) == 0
      ensures outcome == OutcomeOf(i, draw)
      ensures outcome == Failure ==> failures == old(failures) + 1 && successes == old(successes)
      ensures outcome == Success ==> successes == old(successes) + 1 && failures == old(failures)
    {
      i := i + 1;
      outcome := Success;
      if i % (5 + draw) == 0 {
        outcome := Failure;
      }
      if outcome == Failure {
        failures := failures + 1;
      } else {
        successes := successes + 1;
      }
      var previous := draws;
      draws := draws + [draw];
      assert draws[..|draws| - 1] == previous;
    }
  }
}
