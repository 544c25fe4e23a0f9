/**
 * The memo cell `storeInstance` of src/App.js and `getInstance`, which returns the cached
 * store handle or runs one resolution (`createStoreInstance`, an external, possibly failing
 * step) and caches its handle on success. The outcome that resolution would have is passed
 * in as a value.
 */
module StoreCache {
  import opened Outcomes

  /** What one `getInstance` call leaves behind: the new cell, its answer, whether it resolved. */
  datatype Served<H, E> = Served(cache: Option<H>, result: Result<H, E>, resolved: bool)

  /** One `getInstance` call on cell `cached`, where `outcome` is what a resolution would yield. */
  function Lookup<H, E>(cached: Option<H>, outcome: Result<H, E>): (s: Served<H, E>)
    ensures s.resolved <==> cached.None?
    ensures cached.Some? ==> s.cache == cached && s.result == Ok(cached.value)
    ensures cached.None? ==> s.result == outcome
    ensures s.cache.Some? <==> cached.Some? || outcome.Ok?
    ensures s.result.Ok? ==> s.cache == Some(s.result.value)
  {
    match cached
    case Some(h) => Served(cached, Ok(h), false)
    case None =>
      match outcome
      case Ok(h) => Served(Some(h), outcome, true)
      case Err(_) => Served(None, outcome, true)
  }

  /** What a run of calls leaves behind: the final cell, each call's answer, how many resolved. */
  datatype Trace<H, E> = Trace(cache: Option<H>, results: seq<Result<H, E>>, resolutions: nat)

  /** Consecutive `getInstance` calls, the i-th of which would see resolution outcome `outcomes[i]`. */
  function Replay<H, E>(cached: Option<H>, outcomes: seq<Result<H, E>>): (t: Trace<H, E>)
    ensures |t.results| == |outcomes|
    ensures t.resolutions <= |outcomes|
    decreases |outcomes|
  {
    if outcomes == [] then Trace(cached, [], 0)
    else
      var s := Lookup(cached, outcomes[0]);
      var t := Replay(s.cache, outcomes[1..]);
      Trace(t.cache, [s.result] + t.results, (if s.resolved then 1 else 0) + t.resolutions)
  }

  /** The number of failed resolutions before the first successful one. */
  function LeadingFailures<H, E>(outcomes: seq<Result<H, E>>): (n: nat)
    ensures n <= |outcomes|
    ensures forall i :: 0 <= i < n ==> outcomes[i].Err?
    ensures n < |outcomes| ==> outcomes[n].Ok?
  {
    if outcomes == [] || outcomes[0].Ok? then 0 else 1 + LeadingFailures(outcomes[1..])
  }

  /** Once a handle is cached, every later call answers with it and none resolves. */
  lemma {:induction false} ReplayFromCached<H, E>(h: H, outcomes: seq<Result<H, E>>)
    decreases |outcomes|
    ensures Replay(Some(h), outcomes).cache == Some(h)
    ensures Replay(Some(h), outcomes).resolutions == 0
    ensures forall i :: 0 <= i < |outcomes| ==> Replay(Some(h), outcomes).results[i] == Ok(h)
  {
    if outcomes != [] {
      ReplayFromCached(h, outcomes[1..]);
    }
  }

  /**
   * From an empty cell, calls resolve until the first success and never again; each call up to
   * that one answers with its own outcome, and every later call with the handle it produced.
   * A failed resolution is not cached, so the next call resolves afresh.
   */
  lemma {:induction false} ReplayFromEmpty<H, E>(outcomes: seq<Result<H, E>>)
    ensures var t, n := Replay(None, outcomes), LeadingFailures(outcomes);
      && t.resolutions == (if n < |outcomes| then n + 1 else n)
      && (forall i :: 0 <= i < |outcomes| && i <= n ==> t.results[i] == outcomes[i])
      && (forall i :: n < i < |outcomes| ==> t.results[i] == outcomes[n])
      && t.cache == (if n < |outcomes| then Some(outcomes[n].value) else None)
  {
    if outcomes != [] {
      if outcomes[0].Ok? {
        ReplayFromCached(outcomes[0].value, outcomes[1..]);
      } else {
        ReplayFromEmpty(outcomes[1..]);
      }
    }
  }

  /** All callers that get a handle get the same one. */
  lemma SameHandleForAll<H, E>(cached: Option<H>, outcomes: seq<Result<H, E>>, i: nat, j: nat)
    requires i < |outcomes| && j < |outcomes|
    requires Replay(cached, outcomes).results[i].Ok? && Replay(cached, outcomes).results[j].Ok?
    ensures Replay(cached, outcomes).results[i] == Replay(cached, outcomes).results[j]
  {
    match cached
    case Some(h) => ReplayFromCached(h, outcomes);
    case None => ReplayFromEmpty(outcomes);
  }

  /** The module-level `storeInstance` variable. */
  class InstanceCache<H> {
    var storeInstance: Option<H>
    /** How many times `createStoreInstance` has been started. */
    ghost var resolutions: nat

    constructor ()
      ensures storeInstance == None && resolutions == 0
    {
      storeInstance := None;
      resolutions := 0;
    }

    /** `getInstance()`, with `outcome` the result `createStoreInstance()` would settle with. */
    method GetInstance<E>(outcome: Result<H, E>) returns (r: Result<H, E>)
      modifies this
      ensures var s := Lookup(old(storeInstance), outcome);
        && storeInstance == s.cache
        && r == s.result
        && resolutions == old(resolutions) + (if s.resolved then 1 else 0)
    {
      if storeInstance.Some? {
        r := Ok(storeInstance.value);
      } else {
        resolutions := resolutions + 1;
        r := outcome;
        if outcome.Ok? {
          storeInstance := Some(outcome.value);
        }
      }
    }
  }
}
