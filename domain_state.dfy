/**
 * The per-domain bookkeeping of one check cycle, as pure functions: how one
 * probe outcome changes the two maps the checker keeps for the whole process
 * lifetime, and how a pass over the configured domains composes those
 * changes. `Sentry.App.CheckOnce` is proved to compute exactly `Sweep`.
 */
module DomainState {
  import opened Durations

  /**
   * What probing one domain produced: the certificate's remaining lifetime in
   * nanoseconds, or a failure, observed together with whether the process
   * context had been cancelled by then.
   */
  datatype Probe = Probed(remaining: int) | ProbeFailed(contextDone: bool)

  /** `willExpireSoon`: domain to remaining lifetime; `errorCounts`: domain to consecutive failures. */
  datatype Tracker = Tracker(willExpireSoon: map<string, int>, errorCounts: map<string, int>)

  /** A pass over the domains: the state reached, and whether it ran to the end. */
  datatype Pass = Pass(state: Tracker, completed: bool)

  /** Reading a Go map yields the zero value for a missing key. */
  function Count(m: map<string, int>, d: string): (c: int)
    ensures d in m ==> c == m[d]
    ensures d !in m ==> c == 0
  {
    if d in m then m[d] else 0
  }

  ghost predicate EqualOnKey(m: map<string, int>, m': map<string, int>, d: string)
  {
    (d !in m && d !in m') || (d in m && d in m' && m[d] == m'[d])
  }

  /** Both maps agree on domain `d`. */
  ghost predicate SameAt(t: Tracker, t': Tracker, d: string)
  {
    EqualOnKey(t.willExpireSoon, t'.willExpireSoon, d) && EqualOnKey(t.errorCounts, t'.errorCounts, d)
  }

  /** The outcome on which the cycle is abandoned at once. */
  predicate Abandons(o: Probe)
  {
    o == ProbeFailed(true)
  }

  /**
   * Processing one domain's outcome when the cycle is not abandoned. A
   * failure raises the error count by one and leaves the near-expiry entry
   * alone; a success resets the count to zero and then keeps the domain in
   * `willExpireSoon` exactly when its remaining lifetime is at most the
   * threshold. No other domain is touched.
   */
  function Step(t: Tracker, d: string, o: Probe, threshold: int): (r: Tracker)
    requires !Abandons(o)
    ensures o.ProbeFailed? ==> r.willExpireSoon == t.willExpireSoon
    ensures o.ProbeFailed? ==> d in r.errorCounts && r.errorCounts[d] == Count(t.errorCounts, d) + 1
    ensures o.Probed? ==> d in r.errorCounts && r.errorCounts[d] == 0
    ensures o.Probed? && o.remaining > threshold ==> d !in r.willExpireSoon
    ensures o.Probed? && o.remaining <= threshold ==> d in r.willExpireSoon && r.willExpireSoon[d] == o.remaining
    ensures r.errorCounts.Keys == t.errorCounts.Keys + {d}
    ensures forall k :: k != d ==> SameAt(t, r, k)
  {
    match o
    case ProbeFailed(_) =>
      Tracker(t.willExpireSoon, t.errorCounts[d := Count(t.errorCounts, d) + 1])
    case Probed(remaining) =>
      var errors := t.errorCounts[d := 0];
      if remaining > threshold then Tracker(t.willExpireSoon - {d}, errors)
      else Tracker(t.willExpireSoon[d := remaining], errors)
  }

  /**
   * The threshold boundary: one second above it is healthy, one second below
   * it and exactly at it are near expiry.
   */
  lemma ThresholdBoundary(t: Tracker, d: string, threshold: int)
    ensures d !in Step(t, d, Probed(threshold + Second), threshold).willExpireSoon
    ensures d in Step(t, d, Probed(threshold - Second), threshold).willExpireSoon
    ensures var r := Step(t, d, Probed(threshold), threshold);
      d in r.willExpireSoon && r.willExpireSoon[d] == threshold
  {
  }

  /**
   * One pass over the configured domains, in order, with their outcomes. The
   * first abandoning outcome ends the pass: updates made for earlier domains
   * stay, that domain and the later ones are not processed. Domains not in
   * the list are never touched.
   */
  function Sweep(t: Tracker, domains: seq<string>, outcomes: seq<Probe>, threshold: int): (r: Pass)
    requires |domains| == |outcomes|
    ensures r.completed <==> forall i :: 0 <= i < |outcomes| ==> !Abandons(outcomes[i])
    ensures forall d :: d !in domains ==> SameAt(t, r.state, d)
    decreases |domains|
  {
    if |domains| == 0 then Pass(t, true)
    else
      var n := |domains| - 1;
      assert forall d :: d in domains[..n] ==> d in domains;
      var prev := Sweep(t, domains[..n], outcomes[..n], threshold);
      if !prev.completed then prev
      else if Abandons(outcomes[n]) then Pass(prev.state, false)
      else Pass(Step(prev.state, domains[n], outcomes[n], threshold), true)
  }

  /** A pass over one more domain: the pass over the shorter prefix, then that domain. */
  lemma SweepNext(t: Tracker, domains: seq<string>, outcomes: seq<Probe>, threshold: int, i: nat)
    requires |domains| == |outcomes| && i < |domains|
    ensures var prev := Sweep(t, domains[..i], outcomes[..i], threshold);
      Sweep(t, domains[..i + 1], outcomes[..i + 1], threshold) ==
        if !prev.completed then prev
        else if Abandons(outcomes[i]) then Pass(prev.state, false)
        else Pass(Step(prev.state, domains[i], outcomes[i], threshold), true)
  {
    assert domains[..i + 1][..i] == domains[..i] && outcomes[..i + 1][..i] == outcomes[..i];
  }

  /** Once a prefix of the pass has been abandoned, the rest of the list changes nothing. */
  lemma {:induction false} AbandonedIsFinal(t: Tracker, domains: seq<string>, outcomes: seq<Probe>, threshold: int, k: nat)
    requires |domains| == |outcomes| && k <= |domains|
    requires !Sweep(t, domains[..k], outcomes[..k], threshold).completed
    ensures Sweep(t, domains, outcomes, threshold) == Sweep(t, domains[..k], outcomes[..k], threshold)
    decreases |domains|
  {
    if k < |domains| {
      var n := |domains| - 1;
      assert domains[..n][..k] == domains[..k] && outcomes[..n][..k] == outcomes[..k];
      AbandonedIsFinal(t, domains[..n], outcomes[..n], threshold, k);
    } else {
      assert domains[..k] == domains && outcomes[..k] == outcomes;
    }
  }

  /**
   * Cancellation at the k-th domain: the pass reports that it was abandoned,
   * and its state is what the domains before k produced.
   */
  lemma StopsAtCancel(t: Tracker, domains: seq<string>, outcomes: seq<Probe>, threshold: int, k: nat)
    requires |domains| == |outcomes| && k < |domains|
    requires Abandons(outcomes[k]) && forall j :: 0 <= j < k ==> !Abandons(outcomes[j])
    ensures var prefix := Sweep(t, domains[..k], outcomes[..k], threshold);
      prefix.completed && Sweep(t, domains, outcomes, threshold) == Pass(prefix.state, false)
  {
    var ds, os := domains[..k + 1], outcomes[..k + 1];
    assert ds[..k] == domains[..k] && os[..k] == outcomes[..k];
    AbandonedIsFinal(t, domains, outcomes, threshold, k + 1);
  }

  /** Some probe of domain `d` in the pass succeeded. */
  ghost predicate Succeeds(domains: seq<string>, outcomes: seq<Probe>, d: string)
    requires |domains| == |outcomes|
  {
    exists i :: 0 <= i < |domains| && domains[i] == d && outcomes[i].Probed?
  }

  /**
   * The state of domain `d` after a completed pass is decided by its last
   * probe: a success there leaves a zero error count, and `d` is in
   * `willExpireSoon` (with that remaining lifetime) exactly when the lifetime
   * is at most the threshold. Equality with the threshold counts as near expiry.
   */
  lemma {:induction false} LastProbeDecides(t: Tracker, domains: seq<string>, outcomes: seq<Probe>, threshold: int, i: nat)
    requires |domains| == |outcomes| && i < |domains|
    requires forall j :: 0 <= j < |outcomes| ==> !Abandons(outcomes[j])
    requires outcomes[i].Probed?
    requires forall j :: i < j < |domains| ==> domains[j] != domains[i]
    ensures var r := Sweep(t, domains, outcomes, threshold).state;
      var d := domains[i];
      && d in r.errorCounts && r.errorCounts[d] == 0
      && (outcomes[i].remaining > threshold ==> d !in r.willExpireSoon)
      && (outcomes[i].remaining <= threshold ==> d in r.willExpireSoon && r.willExpireSoon[d] == outcomes[i].remaining)
    decreases |domains|
  {
    var n := |domains| - 1;
    if i < n {
      LastProbeDecides(t, domains[..n], outcomes[..n], threshold, i);
    }
  }

  /** Number of non-abandoning failed probes of `d` in the pass. */
  function Failures(domains: seq<string>, outcomes: seq<Probe>, d: string): nat
    requires |domains| == |outcomes|
    decreases |domains|
  {
    if |domains| == 0 then 0
    else
      var n := |domains| - 1;
      Failures(domains[..n], outcomes[..n], d) + (if domains[n] == d && outcomes[n].ProbeFailed? then 1 else 0)
  }

  /**
   * A domain that never succeeds during a completed pass keeps its
   * near-expiry entry as it was, and its error count grows by exactly the
   * number of its failed probes (a missing count counting as zero).
   */
  lemma {:induction false} FailuresAccumulate(t: Tracker, domains: seq<string>, outcomes: seq<Probe>, threshold: int, d: string)
    requires |domains| == |outcomes|
    requires forall j :: 0 <= j < |outcomes| ==> !Abandons(outcomes[j])
    requires !Succeeds(domains, outcomes, d)
    ensures var r := Sweep(t, domains, outcomes, threshold).state;
      && EqualOnKey(t.willExpireSoon, r.willExpireSoon, d)
      && Count(r.errorCounts, d) == Count(t.errorCounts, d) + Failures(domains, outcomes, d)
      && (d in r.errorCounts <==> d in t.errorCounts || Failures(domains, outcomes, d) > 0)
    decreases |domains|
  {
    if |domains| > 0 {
      var n := |domains| - 1;
      forall i | 0 <= i < n ensures !(domains[..n][i] == d && outcomes[..n][i].Probed?) {
        assert domains[..n][i] == domains[i] && outcomes[..n][i] == outcomes[i];
      }
      FailuresAccumulate(t, domains[..n], outcomes[..n], threshold, d);
    }
  }

  /**
   * Where `d` succeeds at least once in a completed pass, its near-expiry
   * entry afterwards does not depend on the state the pass started from.
   */
  lemma {:induction false} ExpiryForgetsStart(t1: Tracker, t2: Tracker, domains: seq<string>, outcomes: seq<Probe>, threshold: int, d: string)
    requires |domains| == |outcomes|
    requires forall j :: 0 <= j < |outcomes| ==> !Abandons(outcomes[j])
    requires Succeeds(domains, outcomes, d)
    ensures EqualOnKey(Sweep(t1, domains, outcomes, threshold).state.willExpireSoon,
                       Sweep(t2, domains, outcomes, threshold).state.willExpireSoon, d)
    decreases |domains|
  {
    var n := |domains| - 1;
    if !(domains[n] == d && outcomes[n].Probed?) {
      var i :| 0 <= i < |domains| && domains[i] == d && outcomes[i].Probed?;
      assert i < n;
      assert domains[..n][i] == d && outcomes[..n][i].Probed?;
      ExpiryForgetsStart(t1, t2, domains[..n], outcomes[..n], threshold, d);
    }
  }

  /**
   * Two consecutive completed cycles with the same outcomes leave the same
   * `willExpireSoon` as the first one alone.
   */
  lemma RepeatedCycleKeepsExpiry(t: Tracker, domains: seq<string>, outcomes: seq<Probe>, threshold: int)
    requires |domains| == |outcomes|
    requires forall j :: 0 <= j < |outcomes| ==> !Abandons(outcomes[j])
    ensures var once := Sweep(t, domains, outcomes, threshold).state;
      Sweep(once, domains, outcomes, threshold).state.willExpireSoon == once.willExpireSoon
  {
    var once := Sweep(t, domains, outcomes, threshold).state;
    var twice := Sweep(once, domains, outcomes, threshold).state;
    forall d
      ensures d in twice.willExpireSoon <==> d in once.willExpireSoon
      ensures d in once.willExpireSoon ==> twice.willExpireSoon[d] == once.willExpireSoon[d]
    {
      if Succeeds(domains, outcomes, d) {
        ExpiryForgetsStart(once, t, domains, outcomes, threshold, d);
      } else {
        FailuresAccumulate(once, domains, outcomes, threshold, d);
      }
    }
  }

  /**
   * When every probe of a cycle succeeds, each listed domain ends with a zero
   * error count, whatever the counts were before.
   */
  lemma {:induction false} SuccessesResetCounts(t: Tracker, domains: seq<string>, outcomes: seq<Probe>, threshold: int, d: string)
    requires |domains| == |outcomes|
    requires forall j :: 0 <= j < |outcomes| ==> outcomes[j].Probed?
    requires d in domains
    ensures var r := Sweep(t, domains, outcomes, threshold).state;
      d in r.errorCounts && r.errorCounts[d] == 0
    decreases |domains|
  {
    var n := |domains| - 1;
    if domains[n] != d {
      assert d in domains[..n];
      SuccessesResetCounts(t, domains[..n], outcomes[..n], threshold, d);
    }
  }

  /**
   * Two consecutive cycles in which every probe succeeds with the same
   * remaining lifetimes leave the same state as one.
   */
  lemma RepeatedHealthyCycleIsIdempotent(t: Tracker, domains: seq<string>, outcomes: seq<Probe>, threshold: int)
    requires |domains| == |outcomes|
    requires forall j :: 0 <= j < |outcomes| ==> outcomes[j].Probed?
    ensures var once := Sweep(t, domains, outcomes, threshold).state;
      Sweep(once, domains, outcomes, threshold).state == once
  {
    var once := Sweep(t, domains, outcomes, threshold).state;
    var twice := Sweep(once, domains, outcomes, threshold).state;
    RepeatedCycleKeepsExpiry(t, domains, outcomes, threshold);
    forall d
      ensures d in twice.errorCounts <==> d in once.errorCounts
      ensures d in once.errorCounts ==> twice.errorCounts[d] == once.errorCounts[d]
    {
      if d in domains {
        SuccessesResetCounts(t, domains, outcomes, threshold, d);
        SuccessesResetCounts(once, domains, outcomes, threshold, d);
      } else {
        assert SameAt(once, twice, d);
      }
    }
  }
  /**
   * The process runs cycle after cycle on the same maps; the lemmas about it
   * assume that none of these cycles is abandoned.
   */
  function Cycles(t: Tracker, domains: seq<string>, rounds: seq<seq<Probe>>, threshold: int): (r: Tracker)
    requires forall k :: 0 <= k < |rounds| ==> |rounds[k]| == |domains|
    ensures forall d :: d !in domains ==> SameAt(t, r, d)
    decreases |rounds|
  {
    if |rounds| == 0 then t
    else
      var n := |rounds| - 1;
      Sweep(Cycles(t, domains, rounds[..n], threshold), domains, rounds[n], threshold).state
  }

  /** `d` is listed once, at index `i`, and its probe failed there. */
  lemma {:induction false} SingleFailure(domains: seq<string>, outcomes: seq<Probe>, i: nat)
    requires |domains| == |outcomes| && i < |domains|
    requires forall j :: 0 <= j < |domains| && j != i ==> domains[j] != domains[i]
    requires outcomes[i].ProbeFailed?
    ensures Failures(domains, outcomes, domains[i]) == 1
    ensures !Succeeds(domains, outcomes, domains[i])
    decreases |domains|
  {
    var n := |domains| - 1;
    if i < n {
      SingleFailure(domains[..n], outcomes[..n], i);
    } else {
      NotListedNoFailures(domains[..n], outcomes[..n], domains[i]);
    }
  }

  lemma {:induction false} NotListedNoFailures(domains: seq<string>, outcomes: seq<Probe>, d: string)
    requires |domains| == |outcomes| && d !in domains
    ensures Failures(domains, outcomes, d) == 0
    decreases |domains|
  {
    if |domains| > 0 {
      var n := |domains| - 1;
      assert d !in domains[..n];
      NotListedNoFailures(domains[..n], outcomes[..n], d);
    }
  }

  /**
   * Consecutive failures across cycles: a domain listed once whose probe fails
   * in each of k cycles has its error count raised by exactly k.
   */
  lemma {:induction false} FailureStreak(t: Tracker, domains: seq<string>, rounds: seq<seq<Probe>>, threshold: int, i: nat)
    requires i < |domains| && forall j :: 0 <= j < |domains| && j != i ==> domains[j] != domains[i]
    requires forall k :: 0 <= k < |rounds| ==> |rounds[k]| == |domains|
    requires forall k, j :: 0 <= k < |rounds| && 0 <= j < |domains| ==> !Abandons(rounds[k][j])
    requires forall k :: 0 <= k < |rounds| ==> rounds[k][i].ProbeFailed?
    ensures Count(Cycles(t, domains, rounds, threshold).errorCounts, domains[i]) == Count(t.errorCounts, domains[i]) + |rounds|
    decreases |rounds|
  {
    if |rounds| > 0 {
      var n := |rounds| - 1;
      FailureStreak(t, domains, rounds[..n], threshold, i);
      SingleFailure(domains, rounds[n], i);
      FailuresAccumulate(Cycles(t, domains, rounds[..n], threshold), domains, rounds[n], threshold, domains[i]);
    }
  }
}
