/**
 The per-client sliding-window limiter of `RateLimitMiddleware.dispatch`. Each client's
 log is pruned on every request, yet decides like a log that forgets nothing.
 */
module RateLimiter {
  import opened Text

  const RATE_WINDOW: real := 60.0
  const RATE_MAX_REQ: nat := 2000
  const EXEMPT_PREFIXES := ["/api/v1/health"]

  /** A request as the limiter sees it; `now` is the clock reading before it waits for the lock. */
  datatype Request = Request(path: string, ip: string, now: real)

  type Store = map<string, seq<real>>

  predicate Exempt(path: string) {
    exists i :: 0 <= i < |EXEMPT_PREFIXES| && StartsWith(path, EXEMPT_PREFIXES[i])
  }

  function Log(store: Store, ip: string): seq<real> {
    if ip in store then store[ip] else []
  }

  /** The timestamps that are still inside the window at time `now`. */
  function Recent(log: seq<real>, now: real): seq<real> {
    if log == [] then []
    else Recent(log[..|log| - 1], now) + if now - log[|log| - 1] < RATE_WINDOW then [log[|log| - 1]] else []
  }

  function Admits(store: Store, r: Request): bool {
    Exempt(r.path) || |Recent(Log(store, r.ip), r.now)| < RATE_MAX_REQ
  }

  function After(store: Store, r: Request): Store {
    if Exempt(r.path) then store
    else
      var recent := Recent(Log(store, r.ip), r.now);
      store[r.ip := if |recent| < RATE_MAX_REQ then recent + [r.now] else recent]
  }

  class RateLimitMiddleware {
    var store: Store

    constructor ()
      ensures store == map[]
    {
      store := map[];
    }

    /** The step taken under the lock; a refused request is answered with status 429. */
    method Dispatch(r: Request) returns (admitted: bool)
      modifies this
      ensures admitted == Admits(old(store), r)
      ensures store == After(old(store), r)
    {
      if Exempt(r.path) {
        return true;
      }
      store := store[r.ip := Recent(Log(store, r.ip), r.now)];
      if |store[r.ip]| >= RATE_MAX_REQ {
        return false;
      }
      store := store[r.ip := store[r.ip] + [r.now]];
      return true;
    }
  }

  // ---------------------------------------------------------------- runs, and the limiter that forgets nothing

  function RunStore(rs: seq<Request>): Store {
    if rs == [] then map[] else After(RunStore(rs[..|rs| - 1]), rs[|rs| - 1])
  }

  predicate Decision(rs: seq<Request>, i: nat)
    requires i < |rs|
  {
    Admits(RunStore(rs[..i]), rs[i])
  }

  /** Every admitted timestamp of a client, when nothing is ever discarded. */
  function History(rs: seq<Request>, ip: string): seq<real> {
    if rs == [] then []
    else
      var h, r := History(rs[..|rs| - 1], ip), rs[|rs| - 1];
      if !Exempt(r.path) && r.ip == ip && |Recent(h, r.now)| < RATE_MAX_REQ then h + [r.now] else h
  }

  predicate UnboundedDecision(rs: seq<Request>, i: nat)
    requires i < |rs|
  {
    Exempt(rs[i].path) || |Recent(History(rs[..i], rs[i].ip), rs[i].now)| < RATE_MAX_REQ
  }

  /** The limited requests of one client that the run admitted. */
  function AdmittedTimes(rs: seq<Request>, ip: string): seq<real> {
    if rs == [] then []
    else
      var r := rs[|rs| - 1];
      AdmittedTimes(rs[..|rs| - 1], ip)
      + if !Exempt(r.path) && r.ip == ip && Decision(rs, |rs| - 1) then [r.now] else []
  }

  /** The timestamps in the interval that is open at `lo` and closed at `hi`. */
  function InWindow(times: seq<real>, lo: real, hi: real): seq<real> {
    if times == [] then []
    else InWindow(times[..|times| - 1], lo, hi) + if lo < times[|times| - 1] <= hi then [times[|times| - 1]] else []
  }

  /** The window that is open at `lo` holds no more admitted requests of the client than the limit. */
  predicate WindowHolds(rs: seq<Request>, ip: string, lo: real) {
    |InWindow(AdmittedTimes(rs, ip), lo, lo + RATE_WINDOW)| <= RATE_MAX_REQ
  }

  predicate ClockNeverGoesBack(rs: seq<Request>) {
    forall i, j :: 0 <= i < j < |rs| ==> rs[i].now <= rs[j].now
  }

  lemma {:induction false} RecentSnoc(log: seq<real>, t: real, now: real)
    ensures Recent(log + [t], now) == Recent(log, now) + if now - t < RATE_WINDOW then [t] else []
  {
  }

  /** Pruning earlier loses nothing that a later look would still see. */
  lemma {:induction false} RecentOfRecent(log: seq<real>, earlier: real, now: real)
    requires earlier <= now
    ensures Recent(Recent(log, earlier), now) == Recent(log, now)
  {
    if log != [] {
      var t, rest := log[|log| - 1], log[..|log| - 1];
      RecentOfRecent(rest, earlier, now);
      RecentSnoc(Recent(rest, earlier), t, now);
      assert Recent(rest, earlier) + [] == Recent(rest, earlier);
    }
  }

  lemma {:induction false} StoreSeesHistory(rs: seq<Request>, ip: string, now: real)
    requires ClockNeverGoesBack(rs)
    requires rs != [] ==> rs[|rs| - 1].now <= now
    ensures Recent(Log(RunStore(rs), ip), now) == Recent(History(rs, ip), now)
  {
    if rs != [] {
      var p, r := rs[..|rs| - 1], rs[|rs| - 1];
      StoreSeesHistory(p, ip, now);
      if !Exempt(r.path) && r.ip == ip {
        var log, h := Log(RunStore(p), ip), History(p, ip);
        StoreSeesHistory(p, ip, r.now);
        RecentOfRecent(log, r.now, now);
        RecentSnoc(Recent(log, r.now), r.now, now);
        RecentSnoc(h, r.now, now);
      }
    }
  }

  /** Under a clock that never goes back, pruning never changes a decision. */
  lemma DecisionsAgree(rs: seq<Request>, i: nat)
    requires ClockNeverGoesBack(rs) && i < |rs|
    ensures Decision(rs, i) <==> UnboundedDecision(rs, i)
  {
    StoreSeesHistory(rs[..i], rs[i].ip, rs[i].now);
  }

  lemma {:induction false} WindowIsRecent(times: seq<real>, lo: real, hi: real, now: real)
    requires now <= lo + RATE_WINDOW
    ensures |InWindow(times, lo, hi)| <= |Recent(times, now)|
  {
    if times != [] {
      WindowIsRecent(times[..|times| - 1], lo, hi, now);
    }
  }

  lemma {:induction false} HistoryBounded(rs: seq<Request>, ip: string, lo: real)
    ensures |InWindow(History(rs, ip), lo, lo + RATE_WINDOW)| <= RATE_MAX_REQ
  {
    if rs != [] {
      var p, r := rs[..|rs| - 1], rs[|rs| - 1];
      var h := History(p, ip);
      HistoryBounded(p, ip, lo);
      assert (h + [r.now])[..|h|] == h;
      if r.now <= lo + RATE_WINDOW {
        WindowIsRecent(h, lo, lo + RATE_WINDOW, r.now);
      }
    }
  }

  lemma {:induction false} AdmittedIsHistory(rs: seq<Request>, ip: string)
    requires ClockNeverGoesBack(rs)
    ensures AdmittedTimes(rs, ip) == History(rs, ip)
  {
    if rs != [] {
      AdmittedIsHistory(rs[..|rs| - 1], ip);
      DecisionsAgree(rs, |rs| - 1);
    }
  }

  /** No window of the given length ever holds more admitted requests of one client than the limit. */
  lemma NeverTooMany(rs: seq<Request>, ip: string, lo: real)
    requires ClockNeverGoesBack(rs)
    ensures WindowHolds(rs, ip, lo)
  {
    AdmittedIsHistory(rs, ip);
    HistoryBounded(rs, ip, lo);
  }

  lemma {:induction false} RecentIsWindow(times: seq<real>, now: real)
    requires forall i :: 0 <= i < |times| ==> times[i] <= now
    ensures Recent(times, now) == InWindow(times, now - 60.0, now)
  {
    if times != [] {
      RecentIsWindow(times[..|times| - 1], now);
    }
  }

  lemma {:induction false} HistoryInPast(rs: seq<Request>, ip: string, now: real)
    requires forall i :: 0 <= i < |rs| ==> rs[i].now <= now
    ensures forall i :: 0 <= i < |History(rs, ip)| ==> History(rs, ip)[i] <= now
  {
    if rs != [] {
      HistoryInPast(rs[..|rs| - 1], ip, now);
    }
  }

  lemma ExemptExact(path: string)
    ensures Exempt(path) <==> |path| >= 14 && path[..14] == "/api/v1/health"
  {
    if |path| >= 14 && path[..14] == "/api/v1/health" {
      assert StartsWith(path, EXEMPT_PREFIXES[0]);
    }
  }

  /** A request is refused exactly if it is not exempt and the window that ends with it is full without it. */
  lemma RefusedIffFull(rs: seq<Request>, i: nat)
    requires ClockNeverGoesBack(rs) && i < |rs|
    ensures !Decision(rs, i) <==>
      && !(|rs[i].path| >= 14 && rs[i].path[..14] == "/api/v1/health")
      && 2000 <= |InWindow(AdmittedTimes(rs[..i], rs[i].ip), rs[i].now - 60.0, rs[i].now)|
  {
    DecisionsAgree(rs, i);
    ExemptExact(rs[i].path);
    AdmittedIsHistory(rs[..i], rs[i].ip);
    HistoryInPast(rs[..i], rs[i].ip, rs[i].now);
    RecentIsWindow(History(rs[..i], rs[i].ip), rs[i].now);
    hide Exempt, History, InWindow, Recent, AdmittedTimes;
  }

  // ---------------------------------------------------------------- a clock that is set back

  /** The last two readings are `a` and `b`, and up to the first of them the clock never went back. */
  predicate StepsFrom(rs: seq<Request>, a: real, b: real) {
    && 2 <= |rs| && rs[|rs| - 2].now == a && rs[|rs| - 1].now == b
    && ClockNeverGoesBack(rs[..|rs| - 1])
  }

  function Repeated(t: real, n: nat): seq<real> {
    if n == 0 then [] else Repeated(t, n - 1) + [t]
  }

  function At(t: real): Request {
    Request("/", "c", t)
  }

  /** A burst of `n` requests at time `t`. */
  function Burst(t: real, n: nat): seq<Request> {
    if n == 0 then [] else Burst(t, n - 1) + [At(t)]
  }

  lemma {:induction false} RepeatedSeen(t: real, n: nat, now: real)
    ensures |Repeated(t, n)| == n
    ensures now - t < RATE_WINDOW ==> Recent(Repeated(t, n), now) == Repeated(t, n)
    ensures RATE_WINDOW <= now - t ==> Recent(Repeated(t, n), now) == []
  {
    if n > 0 {
      RepeatedSeen(t, n - 1, now);
      RecentSnoc(Repeated(t, n - 1), t, now);
      hide Recent;
    }
  }

  lemma {:induction false} RepeatedWithin(t: real, n: nat, lo: real, hi: real)
    requires lo < t <= hi
    ensures |InWindow(Repeated(t, n), lo, hi)| == n
  {
    if n > 0 {
      RepeatedWithin(t, n - 1, lo, hi);
      assert Repeated(t, n)[..|Repeated(t, n)| - 1] == Repeated(t, n - 1);
    }
  }

  lemma RootIsLimited()
    ensures !Exempt("/")
  {
  }

  /** One more request that both limiters admit. */
  lemma AdmittedNext(rs: seq<Request>, r: Request)
    requires !Exempt(r.path)
    requires Log(RunStore(rs), r.ip) == History(rs, r.ip) && |Recent(History(rs, r.ip), r.now)| < RATE_MAX_REQ
    ensures Log(RunStore(rs + [r]), r.ip) == Recent(History(rs, r.ip), r.now) + [r.now]
    ensures History(rs + [r], r.ip) == History(rs, r.ip) + [r.now]
  {
  }

  lemma {:induction false} BurstTimes(t: real, n: nat)
    ensures |Burst(t, n)| == n && forall i :: 0 <= i < n ==> Burst(t, n)[i].now == t
  {
    if n > 0 {
      BurstTimes(t, n - 1);
    }
  }

  lemma BurstSnoc(t: real, n: nat)
    requires 0 < n
    ensures Burst(t, n) == Burst(t, n - 1) + [At(t)]
    ensures Repeated(t, n) == Repeated(t, n - 1) + [t]
  {
  }

  lemma {:induction false} BurstAdmitted(t: real, n: nat)
    requires n <= RATE_MAX_REQ
    ensures Log(RunStore(Burst(t, n)), "c") == History(Burst(t, n), "c") == Repeated(t, n)
  {
    if n > 0 {
      BurstSnoc(t, n);
      RepeatedSeen(t, n - 1, t);
      RootIsLimited();
      hide Recent, Exempt, Log, RunStore, History, Burst, Repeated;
      BurstAdmitted(t, n - 1);
      AdmittedNext(Burst(t, n - 1), At(t));
    }
  }

  /** A window before `a`, or `b` if that is earlier. */
  function BurstTime(a: real, b: real): real {
    if a - RATE_WINDOW < b then a - RATE_WINDOW else b
  }

  /** A full burst, then a request at `a` that finds it expired, then one at `b` that would still see it. */
  function SetBackRun(a: real, b: real): seq<Request> {
    Burst(BurstTime(a, b), RATE_MAX_REQ) + [At(a)] + [At(b)]
  }

  lemma SetBackSteps(a: real, b: real)
    requires b < a
    ensures StepsFrom(SetBackRun(a, b), a, b)
  {
    var full := Burst(BurstTime(a, b), RATE_MAX_REQ);
    BurstTimes(BurstTime(a, b), RATE_MAX_REQ);
    hide Burst;
    assert SetBackRun(a, b)[..|SetBackRun(a, b)| - 1] == full + [At(a)];
  }

  /** The request at `a` empties the log, so the one at `b` is admitted although the history holds a full burst. */
  lemma SetBackDecisions(a: real, b: real)
    requires b < a
    ensures var rs := SetBackRun(a, b);
      && Decision(rs, |rs| - 1) && !UnboundedDecision(rs, |rs| - 1)
      && History(rs[..|rs| - 1], "c") == Repeated(BurstTime(a, b), RATE_MAX_REQ) + [a]
  {
    var t := BurstTime(a, b);
    var n, full, rs := RATE_MAX_REQ, Burst(t, RATE_MAX_REQ), SetBackRun(a, b);
    var late := full + [At(a)];
    RootIsLimited();
    BurstAdmitted(t, n);
    RepeatedSeen(t, n, a);
    RepeatedSeen(t, n, b);
    hide Exempt, Burst, RunStore, History, Repeated;
    AdmittedNext(full, At(a));
    assert rs[..|rs| - 1] == late && rs[|rs| - 1] == At(b);
    assert [] + [a] == [a];
    RecentSnoc(Repeated(t, n), a, b);
    RecentSnoc([], a, b);
  }

  lemma SetBackOverfull(a: real, b: real)
    requires b < a
    ensures |InWindow(AdmittedTimes(SetBackRun(a, b), "c"), b - RATE_WINDOW, b)| == RATE_MAX_REQ + 1
  {
    var rs, burst := SetBackRun(a, b), Repeated(BurstTime(a, b), RATE_MAX_REQ);
    var late := rs[..|rs| - 1];
    var lo := b - RATE_WINDOW;
    SetBackSteps(a, b);
    SetBackDecisions(a, b);
    AdmittedIsHistory(late, "c");
    RepeatedWithin(BurstTime(a, b), RATE_MAX_REQ, lo, b);
    RootIsLimited();
    assert rs[|rs| - 1] == At(b);
    hide SetBackRun, Decision, UnboundedDecision, History, Repeated, Exempt;
    assert AdmittedTimes(rs, "c") == burst + [a] + [b];
    assert (burst + [a] + [b])[..|burst| + 1] == burst + [a] && (burst + [a])[..|burst|] == burst;
    assert InWindow(burst + [a], lo, b) == InWindow(burst, lo, b);
  }

  lemma StepForward(rs: seq<Request>, a: real, b: real)
    requires StepsFrom(rs, a, b) && a <= b
    ensures ClockNeverGoesBack(rs)
  {
    var front := rs[..|rs| - 1];
    assert front[|front| - 1].now == a;
    forall i, j | 0 <= i < j < |rs|
      ensures rs[i].now <= rs[j].now
    {
      assert rs[i] == front[i];
      if j < |front| {
        assert rs[j] == front[j];
      }
    }
  }

  /**
   A step of the clock from `a` to `b` leaves the next decision that of the full history, for every run, exactly
   when it does not go back.
   */
  lemma DecisionNeedsClock(a: real, b: real)
    ensures (forall rs :: StepsFrom(rs, a, b) ==> (Decision(rs, |rs| - 1) <==> UnboundedDecision(rs, |rs| - 1)))
      <==> a <= b
  {
    hide Decision, UnboundedDecision, SetBackRun;
    if a <= b {
      forall rs | StepsFrom(rs, a, b)
        ensures Decision(rs, |rs| - 1) <==> UnboundedDecision(rs, |rs| - 1)
      {
        StepForward(rs, a, b);
        DecisionsAgree(rs, |rs| - 1);
      }
    } else {
      SetBackSteps(a, b);
      SetBackDecisions(a, b);
    }
  }

  /**
   After such a step no window holds more admitted requests than the limit, for every run, exactly when it does
   not go back.
   */
  lemma BoundNeedsClock(a: real, b: real)
    ensures (forall rs, ip, lo :: StepsFrom(rs, a, b) ==> WindowHolds(rs, ip, lo)) <==> a <= b
  {
    if a <= b {
      forall rs, ip, lo | StepsFrom(rs, a, b)
        ensures WindowHolds(rs, ip, lo)
      {
        StepForward(rs, a, b);
        NeverTooMany(rs, ip, lo);
      }
    } else {
      SetBackSteps(a, b);
      SetBackOverfull(a, b);
      assert !WindowHolds(SetBackRun(a, b), "c", b - RATE_WINDOW) by {
        assert b - RATE_WINDOW + RATE_WINDOW == b;
      }
    }
  }
}
