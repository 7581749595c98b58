/** Bounded polling against a monotonic clock. */
module Poll {
  import opened Wrappers

  /** What the outside does during one call: the value of the k-th probe, and the k-th reading of the
      clock. Reading 0 sets the deadline; reading k + 1 follows probe k. */
  datatype World<!T> = World(probe: nat -> T, clock: nat -> real)

  function Deadline<T>(world: World<T>, timeout: real): real
  {
    world.clock(0) + timeout
  }

  function Min(a: real, b: real): real
  {
    if a <= b then a else b
  }

  /** The clock does not go back, and a sleep takes at least as long as it was asked to. */
  ghost predicate ClockRuns<T>(world: World<T>, timeout: real, interval: real)
  {
    && world.clock(0) <= world.clock(1)
    && forall k: nat | 1 <= k && world.clock(k) < Deadline(world, timeout) ::
         world.clock(k + 1) >= world.clock(k) + Min(interval, Deadline(world, timeout) - world.clock(k))
  }

  function Ceil(x: real): int
  {
    -((-x).Floor)
  }

  function MaxProbes(timeout: real, interval: real): int
    requires interval > 0.0
  {
    if timeout <= 0.0 then 1 else Ceil(timeout / interval) + 1
  }

  /** These probes were all rejected, each before the deadline. */
  ghost predicate Rejected<T>(world: World<T>, accept: T -> bool, timeout: real, probes: nat)
  {
    forall k: nat | k < probes :: !accept(world.probe(k)) && world.clock(k + 1) < Deadline(world, timeout)
  }

  /** The call made this many probes: it stopped at the first that satisfies the predicate, or at the
      first that the clock found at or after the deadline. */
  ghost predicate Polled<T>(world: World<T>, accept: T -> bool, timeout: real, probes: nat, result: Result<T, T>)
  {
    && probes >= 1
    && Rejected(world, accept, timeout, probes - 1)
    && (match result
        case Ok(value) => value == world.probe(probes - 1) && accept(value)
        case Err(last) =>
          && last == world.probe(probes - 1) && !accept(last)
          && world.clock(probes) >= Deadline(world, timeout))
  }

  /** `poll`: at most `MaxProbes` probes; only an accepted value is returned. Whatever the clock does, each probe
      after the second stands for a whole interval before the deadline, and without a positive timeout there is one
      probe. */
  method Poll<T>(world: World<T>, accept: T -> bool, timeout: real, interval: real)
    returns (result: Result<T, T>, probes: nat)
    requires interval > 0.0 && ClockRuns(world, timeout, interval)
    ensures Polled(world, accept, timeout, probes, result)
    ensures probes <= MaxProbes(timeout, interval)
    ensures if timeout <= 0.0 then probes == 1 else probes >= 2 ==> (probes - 2) as real * interval < timeout
  {
    var deadline := world.clock(0) + timeout;
    probes := 0;
    MaxProbesPositive(timeout, interval);
    while true
      invariant Rejected(world, accept, timeout, probes)
      invariant probes < MaxProbes(timeout, interval)
      invariant probes >= 1 ==> Elapsed(world, timeout, interval, probes)
      decreases MaxProbes(timeout, interval) - probes
    {
      var last := world.probe(probes);
      probes := probes + 1;
      if accept(last) {
        return Ok(last), probes;
      }
      var remaining := deadline - world.clock(probes);
      if remaining <= 0.0 {
        return Err(last), probes;
      }
      ElapsedStep(world, timeout, interval, probes);
    }
  }

  /** Before the deadline, each probe after the first stands for a whole interval. */
  ghost predicate Elapsed<T>(world: World<T>, timeout: real, interval: real, probes: nat)
    requires probes >= 1
  {
    && world.clock(probes) < Deadline(world, timeout)
    && (probes - 1) as real * interval <= world.clock(probes) - world.clock(0)
  }

  lemma MaxProbesPositive(timeout: real, interval: real)
    requires interval > 0.0
    ensures MaxProbes(timeout, interval) >= 1
  {
    if timeout > 0.0 {
      assert timeout / interval > 0.0;
    }
  }

  lemma ElapsedStep<T>(world: World<T>, timeout: real, interval: real, probes: nat)
    requires interval > 0.0 && ClockRuns(world, timeout, interval) && probes >= 1
    requires probes >= 2 ==> Elapsed(world, timeout, interval, probes - 1)
    requires world.clock(probes) < Deadline(world, timeout)
    ensures Elapsed(world, timeout, interval, probes)
    ensures probes < MaxProbes(timeout, interval)
  {
    if probes >= 2 {
      var k: nat := probes - 1;
      assert world.clock(k + 1) >= world.clock(k) + Min(interval, Deadline(world, timeout) - world.clock(k));
      OneMore(probes - 2, interval);
    }
    assert (probes - 1) as real * interval < timeout;
    BelowQuotient(probes - 1, timeout, interval);
  }

  lemma BelowQuotient(n: nat, timeout: real, interval: real)
    requires interval > 0.0 && n as real * interval < timeout
    ensures n < Ceil(timeout / interval)
  {
    var q := timeout / interval;
    if q <= n as real {
      Scale(q, n as real, interval);
      assert false;
    }
  }

  lemma Scale(a: real, b: real, unit: real)
    requires a <= b && unit > 0.0
    ensures a * unit <= b * unit
  {
  }

  lemma OneMore(n: nat, interval: real)
    ensures (n + 1) as real * interval == n as real * interval + interval
  {
  }

  /** No false timeout: if probes take no time, so that each shows the state at the clock's next reading,
      and the predicate holds from some time up to the deadline onward, then polling succeeds. */
  lemma NoFalseTimeout<T>(world: World<T>, state: real -> T, accept: T -> bool, timeout: real,
                          since: real, probes: nat, result: Result<T, T>)
    requires Polled(world, accept, timeout, probes, result)
    requires forall k: nat :: world.probe(k) == state(world.clock(k + 1))
    requires since <= Deadline(world, timeout)
    requires forall t: real | t >= since :: accept(state(t))
    ensures result.Ok?
  {
    var k: nat := probes - 1;
    assert world.probe(k) == state(world.clock(k + 1));
  }

  /** Two calls that see the same world end alike. */
  lemma PolledUnique<T>(world: World<T>, accept: T -> bool, timeout: real,
                        n: nat, first: Result<T, T>, m: nat, second: Result<T, T>)
    requires Polled(world, accept, timeout, n, first) && Polled(world, accept, timeout, m, second)
    ensures n == m && first == second
  {
  }

  /** A clock on which probes take no time and sleeps take exactly what they were asked for. */
  function ExactAt(timeout: real, interval: real, k: nat): real
  {
    if k == 0 then 0.0 else Min((k - 1) as real * interval, timeout)
  }

  function ExactWorld<T>(probe: nat -> T, timeout: real, interval: real): World<T>
  {
    World(probe, (k: nat) => ExactAt(timeout, interval, k))
  }

  lemma ExactClockRuns<T>(probe: nat -> T, timeout: real, interval: real)
    requires interval > 0.0 && timeout >= 0.0
    ensures ClockRuns(ExactWorld(probe, timeout, interval), timeout, interval)
  {
    var world := ExactWorld(probe, timeout, interval);
    assert world.clock(1) == Min(0.0, timeout) by {
      assert 0.0 * interval == 0.0;
    }
    forall k: nat | 1 <= k && world.clock(k) < Deadline(world, timeout)
      ensures world.clock(k + 1) >= world.clock(k) + Min(interval, Deadline(world, timeout) - world.clock(k))
    {
      OneMore(k - 1, interval);
    }
  }

  /** The bound is tight: on such a clock a predicate that never holds is probed exactly that often. */
  lemma BoundIsAttained<T>(probe: nat -> T, accept: T -> bool, timeout: real, interval: real,
                           probes: nat, result: Result<T, T>)
    requires interval > 0.0 && timeout >= 0.0
    requires forall k: nat :: !accept(probe(k))
    requires Polled(ExactWorld(probe, timeout, interval), accept, timeout, probes, result)
    ensures ClockRuns(ExactWorld(probe, timeout, interval), timeout, interval)
    ensures probes == MaxProbes(timeout, interval)
  {
    var world := ExactWorld(probe, timeout, interval);
    ExactClockRuns(probe, timeout, interval);
    assert world.clock(probes) == Min((probes - 1) as real * interval, timeout);
    AboveQuotient(probes - 1, timeout, interval);
    if probes >= 2 {
      var k: nat := probes - 2;
      assert !accept(world.probe(k)) && world.clock(k + 1) < Deadline(world, timeout);
      BelowQuotient(k, timeout, interval);
    } else {
      assert 0 as real * interval == 0.0;
    }
  }

  lemma AboveQuotient(n: nat, timeout: real, interval: real)
    requires interval > 0.0 && n as real * interval >= timeout
    ensures Ceil(timeout / interval) <= n
  {
    var q := timeout / interval;
    if q > n as real {
      ScaleStrictly(n as real, q, interval);
      assert false;
    }
  }

  lemma ScaleStrictly(a: real, b: real, unit: real)
    requires a < b && unit > 0.0
    ensures a * unit < b * unit
  {
  }
}
