/** When a crash point can be armed and observed at once: the exact condition on the order of a run's steps. */
module CrashArming {
  import opened CrashProtocol

  predicate Both(s: State)
  {
    s.armed && s.observed.Some?
  }

  // --- What the order of the steps says about the flags ------------------------------------------------------

  /** Step `j` is a crash, and no arming has started since. */
  predicate CrashSinceDelete(actions: seq<Action>, j: int, n: int)
    requires n <= |actions|
  {
    0 <= j < n && actions[j].Trap? && forall m | j < m < n :: !actions[m].ArmDelete?
  }

  /** Step `k` ends an arming, and no crash has used it up since. */
  predicate ArmedSince(actions: seq<Action>, k: int, n: int)
    requires n <= |actions|
  {
    0 <= k < n && actions[k].ArmSet? && forall m | k < m < n :: !actions[m].Trap?
  }

  /** Step `i` starts an arming that has not ended since. */
  predicate ArmingSince(actions: seq<Action>, i: int, n: int)
    requires n <= |actions|
  {
    0 <= i < n && actions[i].ArmDelete? && forall m | i < m < n :: !actions[m].ArmSet? && !actions[m].ArmDelete?
  }

  ghost predicate Crashed(actions: seq<Action>, n: int)
    requires n <= |actions|
  {
    exists j :: CrashSinceDelete(actions, j, n)
  }

  ghost predicate Armed(actions: seq<Action>, n: int)
    requires n <= |actions|
  {
    exists k :: ArmedSince(actions, k, n)
  }

  ghost predicate Arming(actions: seq<Action>, n: int)
    requires n <= |actions|
  {
    exists i :: ArmingSince(actions, i, n)
  }

  /** The flags after the first `n` steps are exactly what those steps say. */
  ghost predicate FlagsTell(actions: seq<Action>, n: int, s: State)
    requires n <= |actions|
  {
    && (s.observed.Some? <==> Crashed(actions, n))
    && (s.armed <==> Armed(actions, n))
    && (s.arming <==> Arming(actions, n))
  }

  lemma ObservedStep(actions: seq<Action>, n: nat, s: State)
    requires n < |actions| && Enabled(s, actions[n])
    requires s.observed.Some? <==> Crashed(actions, n)
    ensures Do(s, actions[n]).observed.Some? <==> Crashed(actions, n + 1)
  {
    var next := n + 1;
    assert actions[n].Trap? ==> CrashSinceDelete(actions, n, next);
    forall j | j < n
      ensures CrashSinceDelete(actions, j, next) <==> CrashSinceDelete(actions, j, n) && !actions[n].ArmDelete?
    {
    }
    if Crashed(actions, n) {
      var j :| CrashSinceDelete(actions, j, n);
      assert CrashSinceDelete(actions, j, next) <==> !actions[n].ArmDelete?;
    }
  }

  lemma ArmedStep(actions: seq<Action>, n: nat, s: State)
    requires n < |actions| && Enabled(s, actions[n])
    requires s.armed <==> Armed(actions, n)
    ensures Do(s, actions[n]).armed <==> Armed(actions, n + 1)
  {
    var next := n + 1;
    assert actions[n].ArmSet? ==> ArmedSince(actions, n, next);
    forall k | k < n
      ensures ArmedSince(actions, k, next) <==> ArmedSince(actions, k, n) && !actions[n].Trap?
    {
    }
    if Armed(actions, n) {
      var k :| ArmedSince(actions, k, n);
      assert ArmedSince(actions, k, next) <==> !actions[n].Trap?;
    }
  }

  lemma ArmingStep(actions: seq<Action>, n: nat, s: State)
    requires n < |actions| && Enabled(s, actions[n])
    requires s.arming <==> Arming(actions, n)
    ensures Do(s, actions[n]).arming <==> Arming(actions, n + 1)
  {
    var next := n + 1;
    assert actions[n].ArmDelete? ==> ArmingSince(actions, n, next);
    forall i | i < n
      ensures ArmingSince(actions, i, next)
         <==> ArmingSince(actions, i, n) && !actions[n].ArmSet? && !actions[n].ArmDelete?
    {
    }
    if Arming(actions, n) {
      var i :| ArmingSince(actions, i, n);
      assert ArmingSince(actions, i, next) <==> !actions[n].ArmSet? && !actions[n].ArmDelete?;
    }
  }

  lemma {:induction false} FlagsFollowSteps(operatorLabel: string, actions: seq<Action>, n: nat)
    requires Runs(Init(operatorLabel), actions) && n <= |actions|
    ensures Runs(Init(operatorLabel), actions[..n])
    ensures FlagsTell(actions, n, After(Init(operatorLabel), actions[..n]))
    decreases n
  {
    if n == 0 {
      assert actions[..0] == [];
    } else {
      FlagsFollowSteps(operatorLabel, actions, n - 1);
      PrefixStep(Init(operatorLabel), actions, n - 1);
      var s := After(Init(operatorLabel), actions[..n - 1]);
      ObservedStep(actions, n - 1, s);
      ArmedStep(actions, n - 1, s);
      ArmingStep(actions, n - 1, s);
    }
  }

  // --- The exact condition --------------------------------------------------------------------------------

  /** Steps `i` and `k` are the two commands of one arming, and step `j` between them is a crash. */
  predicate CrashInsideArming(actions: seq<Action>, i: int, j: int, k: int)
  {
    && 0 <= i < j < k < |actions|
    && actions[i].ArmDelete? && actions[j].Trap? && actions[k].ArmSet?
    && forall m | i < m < k :: !actions[m].ArmDelete? && !actions[m].ArmSet?
  }

  /** Some state along the run is armed and observed. */
  ghost predicate EverBoth(s: State, actions: seq<Action>)
    requires Runs(s, actions)
  {
    exists n: nat | n <= |actions| :: Runs(s, actions[..n]) && Both(After(s, actions[..n]))
  }

  lemma CrashInsideEndsBoth(operatorLabel: string, actions: seq<Action>, i: int, j: int, k: int)
    requires Runs(Init(operatorLabel), actions) && CrashInsideArming(actions, i, j, k)
    ensures EverBoth(Init(operatorLabel), actions)
  {
    FlagsFollowSteps(operatorLabel, actions, k + 1);
    assert CrashSinceDelete(actions, j, k + 1) && ArmedSince(actions, k, k + 1);
    assert Both(After(Init(operatorLabel), actions[..k + 1]));
  }

  lemma BothNeedsCrashInside(operatorLabel: string, actions: seq<Action>, n: nat) returns (i: int, j: int, k: int)
    requires Runs(Init(operatorLabel), actions) && n <= |actions| && Runs(Init(operatorLabel), actions[..n])
    requires Both(After(Init(operatorLabel), actions[..n]))
    ensures CrashInsideArming(actions, i, j, k)
  {
    FlagsFollowSteps(operatorLabel, actions, n);
    j :| CrashSinceDelete(actions, j, n);
    k :| ArmedSince(actions, k, n);
    FlagsFollowSteps(operatorLabel, actions, k);
    PrefixStep(Init(operatorLabel), actions, k);
    i :| ArmingSince(actions, i, k);
  }

  /** In every run, with any number of live workers and any arming discipline: some state is armed and observed
      if and only if a worker crashes between the two commands of some arming that is completed. */
  lemma ArmedAndObservedIff(operatorLabel: string, actions: seq<Action>)
    requires Runs(Init(operatorLabel), actions)
    ensures EverBoth(Init(operatorLabel), actions) <==> exists i, j, k :: CrashInsideArming(actions, i, j, k)
  {
    if EverBoth(Init(operatorLabel), actions) {
      var n: nat :| n <= |actions| && Runs(Init(operatorLabel), actions[..n])
                    && Both(After(Init(operatorLabel), actions[..n]));
      var i, j, k := BothNeedsCrashInside(operatorLabel, actions, n);
    }
    if i, j, k :| CrashInsideArming(actions, i, j, k) {
      CrashInsideEndsBoth(operatorLabel, actions, i, j, k);
    }
  }

  // --- Armings come in pairs ----------------------------------------------------------------------------------

  function Starts(actions: seq<Action>): nat
  {
    if actions == [] then 0 else (if actions[0].ArmDelete? then 1 else 0) + Starts(actions[1..])
  }

  function Ends(actions: seq<Action>): nat
  {
    if actions == [] then 0 else (if actions[0].ArmSet? then 1 else 0) + Ends(actions[1..])
  }

  /** The harness runs the two commands of an arming one after the other, and no second arming meanwhile: in every
      run the starts are the ends, one more while an arming is under way, and the ends are what is counted. */
  lemma {:induction false} ArmingsPair(s: State, actions: seq<Action>)
    requires Runs(s, actions)
    ensures Starts(actions) + (if s.arming then 1 else 0) == Ends(actions) + if After(s, actions).arming then 1 else 0
    ensures After(s, actions).armings == s.armings + Ends(actions)
    decreases |actions|
  {
    if actions != [] {
      HarnessFrame(s, actions[0]);
      ArmingsPair(Do(s, actions[0]), actions[1..]);
    }
  }
}
