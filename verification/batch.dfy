/**
 * The batch runs: `download_all_departamentos` (every catalog department,
 * with success and failure counters) and `download_specific_departamentos`
 * (the requested departments only). Browser start-up, navigation and the
 * per-department attempt (`download_departamento_data`, which ends in the
 * download watcher) are supplied by the environment; the pause between
 * departments (`time.sleep(3)`) and `driver.quit()` are recorded as events.
 */
module Batch {
  import opened Wrappers
  import opened Catalog

  /** How `setup_driver` ended: it raised before a driver existed, it
      raised after `self.driver` was assigned, or it completed. */
  datatype Setup = NoDriver | Broken | Ready

  datatype Event =
    | Attempt(region: Region, ok: bool)   // one `download_departamento_data` call
    | Pause                               // `time.sleep(3)` between downloads
    | Quit                                // `driver.quit()` in the `finally` block

  datatype Status = SetupFailed | NavigationFailed | NoRegions | NoMatch | Completed

  /** Number of successful attempts among the first `n`. */
  function CountOk(attempt: nat -> bool, n: nat): (c: nat)
    ensures c <= n
  {
    if n == 0 then 0 else CountOk(attempt, n - 1) + (if attempt(n - 1) then 1 else 0)
  }

  /** True when `driver.quit()` is the last event and occurs nowhere else. */
  predicate QuitsOnceAtEnd(trace: seq<Event>) {
    |trace| > 0 && trace[|trace| - 1] == Quit && forall j :: 0 <= j < |trace| - 1 ==> trace[j] != Quit
  }

  /** `download_all_departamentos`. `navigated` is what
      `navigate_to_servicios_page` returned, `select` what the drop-down
      offered, and `attempt(i)` the result of the i-th department attempt. */
  method DownloadAll(setup: Setup, navigated: bool, select: Option<seq<SelectOption>>, attempt: nat -> bool)
    returns (trace: seq<Event>, status: Status, successful: nat, failed: nat)
    ensures status.Completed? <==> setup.Ready? && navigated && select.Some? && CatalogOf(select.value) != []
    ensures status.SetupFailed? <==> !setup.Ready?
    ensures status.NavigationFailed? <==> setup.Ready? && !navigated
    ensures status.NoRegions? <==> setup.Ready? && navigated && (select.None? || CatalogOf(select.value) == [])
    ensures !status.Completed? ==>
      successful == 0 && failed == 0 && trace == (if setup.NoDriver? then [] else [Quit])
    ensures status.Completed? ==>
      var regions := CatalogOf(select.value);
      var n := |regions|;
      && |trace| == 2 * n
      && (forall i :: 0 <= i < n ==> trace[2 * i] == Attempt(regions[i], attempt(i)))
      && (forall j :: 0 <= j < 2 * n - 1 && j % 2 == 1 ==> trace[j] == Pause)
      && successful + failed == n
      && successful == CountOk(attempt, n)
    ensures setup.NoDriver? ==> Quit !in trace
    ensures !setup.NoDriver? ==> QuitsOnceAtEnd(trace)
  {
    trace, successful, failed := [], 0, 0;
    if !setup.Ready? {
      status := SetupFailed;
    } else if !navigated {
      status := NavigationFailed;
    } else {
      var regions := GetRegions(select);
      if regions == [] {
        status := NoRegions;
      } else {
        var n := |regions|;
        var i := 0;
        while i < n
          invariant 0 <= i <= n
          invariant |trace| == if i == n then 2 * n - 1 else 2 * i
          invariant forall k :: 0 <= k < i ==> trace[2 * k] == Attempt(regions[k], attempt(k))
          invariant forall j :: 0 <= j < |trace| && j % 2 == 1 ==> trace[j] == Pause
          invariant successful + failed == i && successful == CountOk(attempt, i)
          invariant Quit !in trace
        {
          var ok := attempt(i);
          if ok {
            successful := successful + 1;
          } else {
            failed := failed + 1;
          }
          trace := trace + [Attempt(regions[i], ok)];
          if i + 1 < n {
            trace := trace + [Pause];
          }
          i := i + 1;
        }
        status := Completed;
      }
    }
    if !setup.NoDriver? {
      assert forall j :: 0 <= j < |trace| ==> trace[j] != Quit;
      trace := trace + [Quit];
    }
  }

  /** `download_specific_departamentos`: like `DownloadAll`, but over the
      requested departments only, with a pause after every department
      (the last included) and no counters. */
  method DownloadSpecific(
    setup: Setup, navigated: bool, select: Option<seq<SelectOption>>,
    requested: seq<string>, attempt: nat -> bool)
    returns (trace: seq<Event>, status: Status)
    ensures status.SetupFailed? <==> !setup.Ready?
    ensures status.NavigationFailed? <==> setup.Ready? && !navigated
    ensures status.NoRegions? <==> setup.Ready? && navigated && (select.None? || CatalogOf(select.value) == [])
    ensures status.NoMatch? <==>
      && setup.Ready? && navigated && select.Some? && CatalogOf(select.value) != []
      && SelectRequested(CatalogOf(select.value), requested) == []
    ensures !status.Completed? ==> trace == (if setup.NoDriver? then [] else [Quit])
    ensures status.Completed? ==>
      var chosen := SelectRequested(CatalogOf(select.value), requested);
      var n := |chosen|;
      && |trace| == 2 * n + 1
      && (forall i :: 0 <= i < n ==> trace[2 * i] == Attempt(chosen[i], attempt(i)) && trace[2 * i + 1] == Pause)
    ensures setup.NoDriver? ==> Quit !in trace
    ensures !setup.NoDriver? ==> QuitsOnceAtEnd(trace)
  {
    trace := [];
    if !setup.Ready? {
      status := SetupFailed;
    } else if !navigated {
      status := NavigationFailed;
    } else {
      var all := GetRegions(select);
      if all == [] {
        status := NoRegions;
      } else {
        var chosen := SelectRequested(all, requested);
        if chosen == [] {
          status := NoMatch;
        } else {
          var i := 0;
          while i < |chosen|
            invariant 0 <= i <= |chosen|
            invariant |trace| == 2 * i
            invariant forall k :: 0 <= k < i ==> trace[2 * k] == Attempt(chosen[k], attempt(k)) && trace[2 * k + 1] == Pause
            invariant Quit !in trace
          {
            trace := trace + [Attempt(chosen[i], attempt(i)), Pause];
            i := i + 1;
          }
          status := Completed;
        }
      }
    }
    if !setup.NoDriver? {
      assert forall j :: 0 <= j < |trace| ==> trace[j] != Quit;
      trace := trace + [Quit];
    }
  }
}
