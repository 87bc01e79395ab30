/** The sliding-window rate limiter: a pruned list per key against the full admission history. */
module RateLimiting {

  const WINDOW: real := 60.0

  datatype Request = Request(key: string, at: real)

  /** The times later than a cutoff, in order. */
  function Recent(times: seq<real>, cutoff: real): seq<real> {
    if times == [] then [] else
      var kept, t := Recent(times[..|times| - 1], cutoff), times[|times| - 1];
      if t > cutoff then kept + [t] else kept
  }

  /** The times later than a cutoff, counted. */
  lemma {:induction false} RecentCount(times: seq<real>, cutoff: real)
    ensures |Recent(times, cutoff)| == |set i | 0 <= i < |times| && times[i] > cutoff|
  {
    var all := set i | 0 <= i < |times| && times[i] > cutoff;
    if times == [] {
      assert all == {};
    } else {
      var n := |times| - 1;
      RecentCount(times[..n], cutoff);
      var before := set i | 0 <= i < n && times[..n][i] > cutoff;
      if times[n] > cutoff {
        assert all == before + {n};
      } else {
        assert all == before;
      }
    }
  }

  /** They stand in their old order, and all of them. */
  lemma {:induction false} RecentPlaces(times: seq<real>, cutoff: real) returns (at: seq<nat>)
    ensures |at| == |Recent(times, cutoff)|
    ensures forall i :: 0 <= i < |at| ==> at[i] < |times| && Recent(times, cutoff)[i] == times[at[i]]
    ensures forall i, j :: 0 <= i < j < |at| ==> at[i] < at[j]
    ensures forall k | 0 <= k < |times| :: k in at <==> times[k] > cutoff
  {
    at := [];
    if times != [] {
      var n := |times| - 1;
      at := RecentPlaces(times[..n], cutoff);
      if times[n] > cutoff {
        at := at + [n];
      }
      assert forall k :: 0 <= k < n ==> times[..n][k] == times[k];
    }
  }

  class RateLimiter {
    const rpm: int
    var requests: map<string, seq<real>>

    constructor (rpm: int)
      ensures this.rpm == rpm && requests == map[]
    {
      this.rpm := rpm;
      requests := map[];
    }

    /** Prune the key's list, then refuse or admit. Other keys are untouched. */
    method IsRateLimited(key: string, now: real) returns (limited: bool)
      modifies this`requests
      ensures requests == Step(rpm, old(requests), Request(key, now))
      ensures limited == Refuses(rpm, old(requests), Request(key, now))
    {
      var cutoff := now - WINDOW;
      var held := if key in requests then requests[key] else [];
      requests := requests[key := Recent(held, cutoff)];
      if |requests[key]| >= rpm {
        return true;
      }
      requests := requests[key := requests[key] + [now]];
      return false;
    }
  }

  function Held(requests: map<string, seq<real>>, key: string): seq<real> {
    if key in requests then requests[key] else []
  }

  predicate Refuses(rpm: int, requests: map<string, seq<real>>, r: Request) {
    |Recent(Held(requests, r.key), r.at - WINDOW)| >= rpm
  }

  function Step(rpm: int, requests: map<string, seq<real>>, r: Request): map<string, seq<real>> {
    var pruned := Recent(Held(requests, r.key), r.at - WINDOW);
    requests[r.key := if Refuses(rpm, requests, r) then pruned else pruned + [r.at]]
  }

  /** What one request does: it is refused iff the key holds `rpm` or more times later than 60 seconds before it. Of the
      key's times those are kept, with the new one behind if it is admitted; other keys keep theirs. */
  lemma {:induction false} StepExact(rpm: int, requests: map<string, seq<real>>, r: Request)
    ensures var held := if r.key in requests then requests[r.key] else [];
            && (Refuses(rpm, requests, r) <==> |set i | 0 <= i < |held| && held[i] > r.at - 60.0| >= rpm)
            && Step(rpm, requests, r)
               == requests[r.key := Recent(held, r.at - 60.0) + if Refuses(rpm, requests, r) then [] else [r.at]]
  {
    hide Recent;
    RecentCount(Held(requests, r.key), r.at - WINDOW);
    assert Recent(Held(requests, r.key), r.at - WINDOW) + [] == Recent(Held(requests, r.key), r.at - WINDOW);
  }

  // ---------------------------------------------------------------------
  // Whole runs
  // ---------------------------------------------------------------------

  function After(rpm: int, run: seq<Request>): map<string, seq<real>> {
    if run == [] then map[] else Step(rpm, After(rpm, run[..|run| - 1]), run[|run| - 1])
  }

  /** Every admission of a key over the run, never pruned. */
  function Admitted(rpm: int, run: seq<Request>, key: string): seq<real> {
    if run == [] then [] else
      var before, r := run[..|run| - 1], run[|run| - 1];
      var past := Admitted(rpm, before, key);
      if r.key == key && !Refuses(rpm, After(rpm, before), r) then past + [r.at] else past
  }

  ghost predicate ClockNeverBack(run: seq<Request>) {
    forall i, j :: 0 <= i < j < |run| ==> run[i].at <= run[j].at
  }

  /** No request of the run comes after this instant. */
  ghost predicate EndsBy(run: seq<Request>, now: real) {
    forall i :: 0 <= i < |run| ==> run[i].at <= now
  }

  /** The times in the half-open window of a minute that ends at an instant. */
  function InWindow(times: seq<real>, end: real): seq<real> {
    if times == [] then [] else
      var kept, t := InWindow(times[..|times| - 1], end), times[|times| - 1];
      if end - WINDOW < t <= end then kept + [t] else kept
  }

  lemma {:induction false} RecentOfRecent(times: seq<real>, early: real, late: real)
    requires early <= late
    ensures Recent(Recent(times, early), late) == Recent(times, late)
  {
    if times != [] {
      var n := |times| - 1;
      RecentOfRecent(times[..n], early, late);
      var r := Recent(times[..n], early);
      assert (r + [times[n]])[..|r|] == r;
    }
  }

  lemma {:induction false} RecentAppend(times: seq<real>, t: real, cutoff: real)
    ensures Recent(times + [t], cutoff) == if t > cutoff then Recent(times, cutoff) + [t] else Recent(times, cutoff)
  {
    assert (times + [t])[..|times|] == times;
  }

  /** Nothing admitted lies beyond the end of the run. */
  lemma {:induction false} AdmittedBy(rpm: int, run: seq<Request>, key: string, now: real)
    requires EndsBy(run, now)
    ensures forall t :: t in Admitted(rpm, run, key) ==> t <= now
  {
    if run != [] {
      AdmittedBy(rpm, run[..|run| - 1], key, now);
    }
  }

  lemma {:induction false} OneMore(rpm: int, run: seq<Request>, r: Request, key: string)
    ensures After(rpm, run + [r]) == Step(rpm, After(rpm, run), r)
    ensures Admitted(rpm, run + [r], key) ==
              if r.key == key && !Refuses(rpm, After(rpm, run), r) then Admitted(rpm, run, key) + [r.at]
              else Admitted(rpm, run, key)
  {
    assert (run + [r])[..|run|] == run;
  }

  lemma {:induction false} EndsAtLast(run: seq<Request>, r: Request)
    requires ClockNeverBack(run + [r])
    ensures EndsBy(run + [r], r.at)
  {
    var h := run + [r];
    assert h[|run|] == r;
  }

  lemma {:induction false} ClockPrefix(run: seq<Request>, r: Request, now: real)
    requires ClockNeverBack(run + [r]) && EndsBy(run + [r], now)
    ensures ClockNeverBack(run) && EndsBy(run, r.at) && EndsBy(run, now) && r.at <= now
  {
    var h := run + [r];
    assert h[|run|] == r;
    assert forall i :: 0 <= i < |run| ==> h[i] == run[i];
  }

  /** What is held for a key and its full history agree on the window that ends at this instant. */
  ghost predicate Agree(rpm: int, run: seq<Request>, key: string, now: real) {
    Recent(Held(After(rpm, run), key), now - WINDOW) == Recent(Admitted(rpm, run, key), now - WINDOW)
  }

  lemma {:induction false} AgreeStep(rpm: int, run: seq<Request>, r: Request, key: string, now: real)
    requires Agree(rpm, run, key, r.at) && Agree(rpm, run, key, now) && r.at <= now
    ensures Agree(rpm, run + [r], key, now)
  {
    hide After, Admitted, Recent;
    OneMore(rpm, run, r, key);
    SamePruned(Held(After(rpm, run), key), Admitted(rpm, run, key), r.at, now);
  }

  /** Pruning loses nothing that matters: for every key, what is held and the full admission history
      agree on the window ending now. */
  lemma {:induction false} HeldStandsForHistory(rpm: int, run: seq<Request>, key: string, now: real)
    requires ClockNeverBack(run) && EndsBy(run, now)
    ensures Agree(rpm, run, key, now)
  {
    if run != [] {
      hide ClockNeverBack, EndsBy, Agree;
      var n := |run| - 1;
      assert run == run[..n] + [run[n]];
      ClockPrefix(run[..n], run[n], now);
      HeldStandsForHistory(rpm, run[..n], key, run[n].at);
      HeldStandsForHistory(rpm, run[..n], key, now);
      AgreeStep(rpm, run[..n], run[n], key, now);
    }
  }

  /** Lists that agree on the window ending at t agree on any later one, pruned and extended or not. */
  lemma {:induction false} SamePruned(held: seq<real>, past: seq<real>, t: real, now: real)
    requires Recent(held, t - WINDOW) == Recent(past, t - WINDOW) && t <= now
    ensures var pruned := Recent(held, t - WINDOW);
            && Recent(pruned, now - WINDOW) == Recent(past, now - WINDOW)
            && Recent(pruned + [t], now - WINDOW) == Recent(past + [t], now - WINDOW)
  {
    hide Recent;
    RecentOfRecent(past, t - WINDOW, now - WINDOW);
    RecentAppend(Recent(held, t - WINDOW), t, now - WINDOW);
    RecentAppend(past, t, now - WINDOW);
  }

  lemma {:induction false} WindowEndingNow(times: seq<real>, now: real)
    requires forall t :: t in times ==> t <= now
    ensures InWindow(times, now) == Recent(times, now - WINDOW)
  {
    if times != [] {
      var n := |times| - 1;
      assert forall i :: 0 <= i < n ==> times[..n][i] in times;
      WindowEndingNow(times[..n], now);
      assert times[n] in times;
    }
  }

  lemma {:induction false} WindowAppend(times: seq<real>, t: real, end: real)
    ensures InWindow(times + [t], end)
            == if end - WINDOW < t <= end then InWindow(times, end) + [t] else InWindow(times, end)
  {
    assert (times + [t])[..|times|] == times;
  }

  /** A window that ends later holds no more of the past. */
  lemma {:induction false} LaterWindowHoldsLess(times: seq<real>, now: real, end: real)
    requires now <= end
    ensures |InWindow(times, end)| <= |Recent(times, now - WINDOW)|
  {
    if times != [] { LaterWindowHoldsLess(times[..|times| - 1], now, end); }
  }

  lemma {:induction false} InWindowSpelled(times: seq<real>, end: real)
    ensures |InWindow(times, end)| == |set i | 0 <= i < |times| && end - 60.0 < times[i] <= end|
  {
    var all := set i | 0 <= i < |times| && end - 60.0 < times[i] <= end;
    if times == [] {
      assert all == {};
    } else {
      var n := |times| - 1;
      InWindowSpelled(times[..n], end);
      var before := set i | 0 <= i < n && end - 60.0 < times[..n][i] <= end;
      if end - 60.0 < times[n] <= end {
        assert all == before + {n};
      } else {
        assert all == before;
      }
    }
  }

  /** The limit: in every run with a clock that never goes back, for every key and every instant, at most
      `rpm` requests are admitted in the 60 seconds that end there. */
  lemma {:induction false} WindowBound(rpm: int, run: seq<Request>, key: string, end: real)
    requires forall i, j :: 0 <= i < j < |run| ==> run[i].at <= run[j].at
    ensures var times := Admitted(rpm, run, key);
            |set i | 0 <= i < |times| && end - 60.0 < times[i] <= end| <= if rpm > 0 then rpm else 0
  {
    InWindowBound(rpm, run, key, end);
    InWindowSpelled(Admitted(rpm, run, key), end);
  }

  lemma {:induction false} InWindowBound(rpm: int, run: seq<Request>, key: string, end: real)
    requires ClockNeverBack(run)
    ensures |InWindow(Admitted(rpm, run, key), end)| <= if rpm > 0 then rpm else 0
  {
    if run != [] {
      hide After, Admitted, Recent, InWindow, ClockNeverBack, EndsBy;
      var n := |run| - 1;
      var before, r := run[..n], run[n];
      assert run == before + [r];
      OneMore(rpm, before, r, key);
      EndsAtLast(before, r);
      ClockPrefix(before, r, r.at);
      InWindowBound(rpm, before, key, end);
      if r.key == key && !Refuses(rpm, After(rpm, before), r) {
        var past := Admitted(rpm, before, key);
        HeldStandsForHistory(rpm, before, key, r.at);
        WindowAppend(past, r.at, end);
        if r.at <= end { LaterWindowHoldsLess(past, r.at, end); }
      }
    } else {
      assert InWindow([], end) == [];
    }
  }

  /** A request is refused exactly when the 60 seconds that end with it already hold `rpm` admissions
      (always, if `rpm` is not positive). */
  lemma {:induction false} RefusedIff(rpm: int, run: seq<Request>, r: Request)
    requires forall i, j :: 0 <= i < j < |run| ==> run[i].at <= run[j].at
    requires forall i :: 0 <= i < |run| ==> run[i].at <= r.at
    ensures var times := Admitted(rpm, run, r.key);
            Refuses(rpm, After(rpm, run), r)
            <==> rpm <= 0 || |set i | 0 <= i < |times| && r.at - 60.0 < times[i] <= r.at| == rpm
  {
    hide After, Admitted, Recent, InWindow;
    InWindowSpelled(Admitted(rpm, run, r.key), r.at);
    HeldStandsForHistory(rpm, run, r.key, r.at);
    AdmittedBy(rpm, run, r.key, r.at);
    WindowEndingNow(Admitted(rpm, run, r.key), r.at);
    InWindowBound(rpm, run, r.key, r.at);
  }

  /** Requests of other keys change neither what is held for a key nor what it was admitted. */
  lemma {:induction false} KeysIndependent(rpm: int, run: seq<Request>, r: Request, key: string)
    requires r.key != key
    ensures Held(After(rpm, run + [r]), key) == Held(After(rpm, run), key)
    ensures Admitted(rpm, run + [r], key) == Admitted(rpm, run, key)
  {
    OneMore(rpm, run, r, key);
  }

  // ---------------------------------------------------------------------
  // The clock matters
  // ---------------------------------------------------------------------

  /** If the clock goes back, a limit of two admits all four of these, three of them in one minute: a reading at 200 prunes the two
      admissions at 100, and a later reading of 101 no longer sees them. */
  lemma {:induction false} ClockBackBreaksBound()
    ensures var run := [Request("k", 100.0), Request("k", 100.0), Request("k", 200.0), Request("k", 101.0)];
            Admitted(2, run, "k") == [100.0, 100.0, 200.0, 101.0]
  {
    hide After, Admitted, Recent, InWindow;
    var a, c, d := Request("k", 100.0), Request("k", 200.0), Request("k", 101.0);
    Nothing(2, "k");
    assert [] + [a] == [a] && [a] + [a] == [a, a] && [a, a] + [c] == [a, a, c] && [a, a, c] + [d] == [a, a, c, d];
    Replay([], [], [], a, [100.0], [100.0]);
    Replay([a], [100.0], [100.0], a, [100.0, 100.0], [100.0, 100.0]);
    Replay([a, a], [100.0, 100.0], [100.0, 100.0], c, [200.0], [100.0, 100.0, 200.0]);
    Replay([a, a, c], [200.0], [100.0, 100.0, 200.0], d, [200.0, 101.0], [100.0, 100.0, 200.0, 101.0]);
  }

  lemma {:induction false} Nothing(rpm: int, key: string)
    ensures After(rpm, []) == map[] && Admitted(rpm, [], key) == []
  {
  }

  /** Times that are all the same are pruned together. */
  lemma {:induction false} SameTimes(times: seq<real>, v: real, cutoff: real)
    requires forall i :: 0 <= i < |times| ==> times[i] == v
    ensures Recent(times, cutoff) == if v > cutoff then times else []
  {
    if times != [] {
      var n := |times| - 1;
      SameTimes(times[..n], v, cutoff);
      assert times == times[..n] + [times[n]];
    }
  }

  /** One step of the example, with at most two times held, all equal. */
  lemma {:induction false} Replay(run: seq<Request>, held: seq<real>, past: seq<real>, r: Request,
                                  held': seq<real>, past': seq<real>)
    requires r.key == "k" && |held| <= 2 && (|held| == 2 ==> held[0] == held[1])
    requires Held(After(2, run), "k") == held && Admitted(2, run, "k") == past
    requires var pruned := if held != [] && held[0] > r.at - WINDOW then held else [];
             |pruned| < 2 && held' == pruned + [r.at] && past' == past + [r.at]
    ensures Held(After(2, run + [r]), "k") == held' && Admitted(2, run + [r], "k") == past'
  {
    hide After, Admitted, Recent;
    OneMore(2, run, r, "k");
    SameTimes(held, if held == [] then 0.0 else held[0], r.at - WINDOW);
  }
}
