/** The reconnect loop: its budget of attempts, its waits, and what it does to the host's policy
    rules, over every sequence of outcomes. */
module Reconnect {
  import opened PolicyRules
  import opened Serial

  /** How one turn of the loop goes. The environment decides. */
  datatype Turn =
    | DialFailed
      /** the first `good` routes are installed, then a command fails */
    | RouteFailed(routes: seq<Prefix>, good: nat)
      /** the rules are in place, but a further bonded tunnel cannot be opened; closing the
          devices loses some routes */
    | LaterTunnelFailed(routes: seq<Prefix>, lost: set<Prefix>)
      /** a session that lasted `uptime` nanoseconds; closing its device loses some routes */
    | Session(routes: seq<Prefix>, uptime: nat, lost: set<Prefix>)

  const MAX_BACKOFF := 15
  const STABLE_UPTIME := 10_000_000_000

  predicate ValidTurn(t: Turn) {
    t.RouteFailed? ==> t.good < |t.routes|
  }

  predicate Stable(t: Turn) {
    t.Session? && t.uptime >= STABLE_UPTIME
  }

  /** Consecutive failures at the end, with no stable session after or between them. */
  function Streak(ts: seq<Turn>): nat {
    if ts == [] || Stable(ts[|ts| - 1]) then 0 else Streak(ts[..|ts| - 1]) + 1
  }

  /** The turn at which a budget of `max` is used up for the first time. */
  ghost predicate ExhaustedAt(ts: seq<Turn>, max: nat, i: nat) {
    && i < |ts| && Streak(ts[..i + 1]) >= max
    && forall j :: 0 <= j <= i ==> Streak(ts[..j]) < max
  }

  /** 2^k seconds, at most 15. */
  function Backoff(k: nat): (s: nat)
    ensures 1 <= s <= MAX_BACKOFF
  {
    Min(Pow2(k), MAX_BACKOFF)
  }

  function Min(a: int, b: int): int {
    if a <= b then a else b
  }

  /** The number of waits since the last successful establishment, or since the start. */
  function WaitsSinceUp(ts: seq<Turn>): nat {
    if ts == [] then 0
    else if ts[|ts| - 1].Session? then (if Stable(ts[|ts| - 1]) then 0 else 1)
    else WaitsSinceUp(ts[..|ts| - 1]) + 1
  }

  /** The wait after turn `i`: none after a stable session; after a session that never became
      stable, the first wait since it came up; otherwise one more than were waited before. */
  function WaitAfter(ts: seq<Turn>, i: nat): nat
    requires i < |ts|
  {
    if Stable(ts[i]) then 0
    else if ts[i].Session? then Backoff(0)
    else Backoff(WaitsSinceUp(ts[..i]))
  }

  // ---------------------------------------------------------------- the loop

  /** Rule counts and table right after an establishment. */
  datatype Snapshot = Snapshot(turn: nat, tableRules: nat, suppressRules: nat, table: set<Prefix>)

  /** The turn gets as far as `Bootstrap`. */
  predicate Bootstraps(t: Turn) {
    t.LaterTunnelFailed? || t.Session?
  }

  /** The stale rules are few enough for one round of deletions. */
  predicate FewStale(tableRules: nat, suppressRules: nat) {
    tableRules <= RULE_LIMIT && suppressRules <= SUPPRESS_LIMIT
  }

  /** `establishAllTunnels`, as far as the host can tell. */
  method Establish(host: Host, t: Turn) returns (ok: bool)
    requires ValidTurn(t)
    modifies host
    ensures ok == t.Session?
    ensures !Bootstraps(t) ==> host.tableRules == old(host.tableRules) && host.suppressRules == old(host.suppressRules)
    ensures Bootstraps(t) ==>
      && host.tableRules == Left(old(host.tableRules), RULE_LIMIT) + 1
      && host.suppressRules == Left(old(host.suppressRules), SUPPRESS_LIMIT) + (if "0.0.0.0/0" in t.routes then 1 else 0)
    ensures t.DialFailed? ==> host.table == old(host.table)
    ensures t.RouteFailed? ==> forall p :: p in host.table <==> p in old(host.table) || p in t.routes[..t.good]
    ensures t.LaterTunnelFailed? ==>
      forall p :: p in host.table <==> (p in old(host.table) || p in t.routes) && p !in t.lost
    ensures t.Session? ==> forall p :: p in host.table <==> p in old(host.table) || p in t.routes
  {
    match t
    case DialFailed => ok := false;
    case RouteFailed(routes, good) => ok := host.InstallRoutes(routes, good);
    case LaterTunnelFailed(routes, lost) =>
      ok := host.InstallRoutes(routes, |routes|);
      host.Bootstrap();
      host.table := host.table - lost;
      ok := false;
    case Session(routes, _, _) =>
      ok := host.InstallRoutes(routes, |routes|);
      host.Bootstrap();
  }

  /** What every successful establishment leaves behind. */
  ghost predicate RulesInPlace(ts: seq<Turn>, s: Snapshot) {
    && s.turn < |ts| && ts[s.turn].Session? && s.tableRules == 1
    && s.suppressRules == (if "0.0.0.0/0" in ts[s.turn].routes then 1 else 0)
    && forall p :: p in ts[s.turn].routes ==> p in s.table
  }

  /** The log has a correct entry for every session among the first `n` turns. */
  ghost predicate Logged(ts: seq<Turn>, ups: seq<Snapshot>, n: nat)
    requires n <= |ts|
  {
    && (forall i :: 0 <= i < |ups| ==> RulesInPlace(ts, ups[i]))
    && (forall i :: 0 <= i < n && ts[i].Session? ==> HasEntry(ups, i))
  }

  ghost predicate HasEntry(ups: seq<Snapshot>, i: nat) {
    exists j :: 0 <= j < |ups| && ups[j].turn == i
  }

  lemma LogMore(ts: seq<Turn>, ups: seq<Snapshot>, s: Snapshot, n: nat)
    requires n < |ts| && Logged(ts, ups, n) && RulesInPlace(ts, s) && s.turn == n
    ensures Logged(ts, ups + [s], n + 1)
  {
    hide RulesInPlace;
    forall i | 0 <= i <= n && ts[i].Session? ensures HasEntry(ups + [s], i) {
      if i < n {
        var j :| 0 <= j < |ups| && ups[j].turn == i;
        assert (ups + [s])[j].turn == i;
      } else {
        assert (ups + [s])[|ups|].turn == i;
      }
    }
  }

  /** min(2^k, 15) seconds. */
  ghost function Doubling(k: nat): int {
    if Pow2(k) <= 15 then Pow2(k) else 15
  }

  /** No session comes up at turns `lo` to `i`. */
  ghost predicate AllFail(ts: seq<Turn>, lo: nat, i: nat)
    requires i < |ts|
  {
    forall j :: lo <= j <= i ==> !ts[j].Session?
  }

  /** A session that came up and stayed up for ten seconds. */
  ghost predicate StayedUp(t: Turn) {
    t.Session? && t.uptime >= 10_000_000_000
  }

  /** The waits, in terms of the turns alone: none after a session that stayed up; min(2^k, 15)
      seconds after the k-th failure in a row that follows such a session or the start; and the
      same counted from a session that did not stay up. */
  ghost predicate ExactWaits(ts: seq<Turn>, waits: seq<nat>) {
    && |waits| <= |ts|
    && (forall i :: 0 <= i < |waits| && StayedUp(ts[i]) ==> waits[i] == 0)
    && (forall lo, i :: 0 <= lo <= i < |waits| && AllFail(ts, lo, i) && (lo == 0 || StayedUp(ts[lo - 1])) ==>
          waits[i] == Doubling(i - lo))
    && (forall j, i :: 0 <= j <= i < |waits| && ts[j].Session? && !StayedUp(ts[j]) && AllFail(ts, j + 1, i) ==>
          waits[i] == Doubling(i - j))
  }

  /** The waits so far are the prescribed ones. */
  ghost predicate Prescribed(ts: seq<Turn>, waits: seq<nat>) {
    |waits| <= |ts| && forall i :: 0 <= i < |waits| ==> waits[i] == WaitAfter(ts, i)
  }

  /** The reconnect loop against a given sequence of turns. It returns when the budget of
      `maxAttempts` is exhausted (`gaveUp`) or when the turns are used up while it is still
      running. `waits[i]` is the wait after turn `i`. */
  method Reconnect(host: Host, maxAttempts: nat, ts: seq<Turn>)
    returns (gaveUp: bool, waits: seq<nat>, ups: seq<Snapshot>)
    requires maxAttempts >= 1 && forall i :: 0 <= i < |ts| ==> ValidTurn(ts[i])
    modifies host
    ensures ExactWaits(ts, waits) && Prescribed(ts, waits) && (gaveUp <==> |waits| < |ts|)
    ensures gaveUp ==> ExhaustedAt(ts, maxAttempts, |waits|)
    ensures !gaveUp ==> forall j :: 0 <= j <= |ts| ==> Streak(ts[..j]) < maxAttempts
    ensures FewStale(old(host.tableRules), old(host.suppressRules)) ==>
      && Logged(ts, ups, if gaveUp then |waits| + 1 else |waits|)
      && (gaveUp ==> host.tableRules == 0 && host.suppressRules == 0)
    ensures gaveUp ==> host.table == {}
  {
    hide Streak, WaitsSinceUp, Backoff, Logged, RulesInPlace, ExactWaits;
    var attempts, backoff := 0, 1;
    waits, ups := [], [];
    AtStart(ts);
    ghost var few := FewStale(host.tableRules, host.suppressRules);
    for n := 0 to |ts|
      invariant |waits| == n && Prescribed(ts, waits) && (few ==> Logged(ts, ups, n))
      invariant attempts == Streak(ts[..n]) && backoff == Backoff(WaitsSinceUp(ts[..n]))
      invariant forall j :: 0 <= j <= n ==> Streak(ts[..j]) < maxAttempts
      invariant few ==> FewStale(host.tableRules, host.suppressRules)
    {
      var t := ts[n];
      NextTurn(ts, n);
      DoubledBackoff(WaitsSinceUp(ts[..n]));
      DoubledBackoff(0);
      var ok := Establish(host, t);
      if !ok {
        if few { LogSkip(ts, ups, n); }
        attempts := attempts + 1;
        if attempts >= maxAttempts {
          host.GracefullyShutdown();
          WaitsExactly(ts, waits);
          return true, waits, ups;
        }
        waits := waits + [backoff];
        backoff := Min(backoff * 2, MAX_BACKOFF);
        continue;
      }
      var s := Snapshot(n, host.tableRules, host.suppressRules, host.table);
      if few {
        SnapshotRight(ts, s);
        LogMore(ts, ups, s, n);
      }
      ups := ups + [s];
      backoff := 1;
      host.table := host.table - t.lost;
      if t.uptime >= STABLE_UPTIME {
        attempts := 0;
        backoff := 1;
        waits := waits + [0];
        continue;
      }
      attempts := attempts + 1;
      if attempts >= maxAttempts {
        host.GracefullyShutdown();
        WaitsExactly(ts, waits);
        return true, waits, ups;
      }
      waits := waits + [backoff];
      backoff := Min(backoff * 2, MAX_BACKOFF);
    }
    assert ts[..|ts|] == ts;
    WaitsExactly(ts, waits);
    gaveUp := false;
  }

  lemma AtStart(ts: seq<Turn>)
    ensures Streak(ts[..0]) == 0 && Backoff(WaitsSinceUp(ts[..0])) == 1 && Logged(ts, [], 0)
  {
  }

  lemma SnapshotRight(ts: seq<Turn>, s: Snapshot)
    requires s.turn < |ts| && ts[s.turn].Session? && s.tableRules == 1
    requires s.suppressRules == if "0.0.0.0/0" in ts[s.turn].routes then 1 else 0
    requires forall p :: p in ts[s.turn].routes ==> p in s.table
    ensures RulesInPlace(ts, s)
  {
  }

  lemma LogSkip(ts: seq<Turn>, ups: seq<Snapshot>, n: nat)
    requires n < |ts| && !ts[n].Session? && Logged(ts, ups, n)
    ensures Logged(ts, ups, n + 1)
  {
  }

  lemma NextTurn(ts: seq<Turn>, n: nat)
    requires n < |ts|
    ensures Streak(ts[..n + 1]) == if Stable(ts[n]) then 0 else Streak(ts[..n]) + 1
    ensures WaitsSinceUp(ts[..n + 1]) ==
      if ts[n].Session? then (if Stable(ts[n]) then 0 else 1) else WaitsSinceUp(ts[..n]) + 1
  {
    assert ts[..n + 1][..n] == ts[..n];
  }

  lemma DoubledBackoff(k: nat)
    ensures Min(Backoff(k) * 2, MAX_BACKOFF) == Backoff(k + 1)
    ensures Backoff(0) == 1
  {
  }

  // ---------------------------------------------------------------- what the counts mean

  /** A streak counts the turns since the last stable session. */
  lemma {:induction false} StreakCounts(ts: seq<Turn>, j: nat)
    requires j <= |ts| && (j == 0 || Stable(ts[j - 1])) && forall i :: j <= i < |ts| ==> !Stable(ts[i])
    ensures Streak(ts) == |ts| - j
  {
    if j < |ts| {
      StreakCounts(ts[..|ts| - 1], j);
    }
  }

  /** The loop gives up exactly when `max` failures in a row have no stable session among them. */
  lemma ExhaustedMeans(ts: seq<Turn>, max: nat, i: nat)
    requires max >= 1 && ExhaustedAt(ts, max, i)
    ensures i + 1 >= max && forall j :: i + 1 - max <= j <= i ==> !Stable(ts[j])
    ensures i + 1 == max || Stable(ts[i - max])
  {
    NextTurn(ts, i);
    StreakSpan(ts[..i + 1], max);
    forall j | i + 1 - max <= j <= i ensures !Stable(ts[j]) { assert ts[..i + 1][j] == ts[j]; }
    if i + 1 > max { assert ts[..i + 1][i - max] == ts[i - max]; }
  }

  lemma {:induction false} StreakSpan(ts: seq<Turn>, n: nat)
    requires Streak(ts) == n
    ensures n <= |ts| && forall j :: |ts| - n <= j < |ts| ==> !Stable(ts[j])
    ensures n < |ts| ==> Stable(ts[|ts| - n - 1])
  {
    if n > 0 {
      StreakSpan(ts[..|ts| - 1], n - 1);
      forall j | |ts| - n <= j < |ts| ensures !Stable(ts[j]) {
        if j < |ts| - 1 { assert ts[..|ts| - 1][j] == ts[j]; }
      }
    }
  }

  /** Waits since the last session that came up at turn `j`. */
  lemma {:induction false} WaitsCount(ts: seq<Turn>, j: nat)
    requires j < |ts| && ts[j].Session? && forall i :: j < i < |ts| ==> !ts[i].Session?
    ensures WaitsSinceUp(ts) == |ts| - 1 - j + if Stable(ts[j]) then 0 else 1
  {
    if j < |ts| - 1 {
      WaitsCount(ts[..|ts| - 1], j);
    }
  }

  /** Waits since the start when no session ever came up. */
  lemma {:induction false} WaitsFromStart(ts: seq<Turn>)
    requires forall i :: 0 <= i < |ts| ==> !ts[i].Session?
    ensures WaitsSinceUp(ts) == |ts|
  {
    if ts != [] {
      WaitsFromStart(ts[..|ts| - 1]);
    }
  }

  /** The prescribed waits are min(2^k, 15) seconds, k counted from the turns. */
  lemma WaitsExactly(ts: seq<Turn>, waits: seq<nat>)
    requires Prescribed(ts, waits)
    ensures ExactWaits(ts, waits)
  {
    forall lo, i | 0 <= lo <= i < |waits| && AllFail(ts, lo, i) && (lo == 0 || StayedUp(ts[lo - 1]))
      ensures waits[i] == Doubling(i - lo)
    {
      WaitSince(ts, lo, i);
    }
    forall j, i | 0 <= j <= i < |waits| && ts[j].Session? && !StayedUp(ts[j]) && AllFail(ts, j + 1, i)
      ensures waits[i] == Doubling(i - j)
    {
      WaitSinceDrop(ts, j, i);
    }
  }

  lemma WaitSince(ts: seq<Turn>, lo: nat, i: nat)
    requires lo <= i < |ts| && AllFail(ts, lo, i) && (lo == 0 || StayedUp(ts[lo - 1]))
    ensures WaitAfter(ts, i) == Doubling(i - lo)
  {
    if lo == 0 { WaitsFromStart(ts[..i]); } else { WaitsCount(ts[..i], lo - 1); }
  }

  lemma WaitSinceDrop(ts: seq<Turn>, j: nat, i: nat)
    requires j <= i < |ts| && ts[j].Session? && !StayedUp(ts[j]) && AllFail(ts, j + 1, i)
    ensures WaitAfter(ts, i) == Doubling(i - j)
  {
    if j < i { WaitsCount(ts[..i], j); }
  }

  // ---------------------------------------------------------------- total wait

  function Sum(xs: seq<nat>): nat {
    if xs == [] then 0 else Sum(xs[..|xs| - 1]) + xs[|xs| - 1]
  }

  /** The first n waits of an uninterrupted backoff. */
  function BackoffSum(n: nat): nat {
    if n == 0 then 0 else BackoffSum(n - 1) + Backoff(n - 1)
  }

  lemma {:induction false} BackoffGrows(j: nat, k: nat)
    requires j <= k
    ensures Backoff(j) <= Backoff(k)
  {
    if j < k {
      BackoffGrows(j, k - 1);
      DoubledBackoff(k - 1);
    }
  }

  lemma {:induction false} BackoffSumGrows(m: nat, n: nat)
    requires m <= n
    ensures BackoffSum(m) <= BackoffSum(n)
  {
    if m < n { BackoffSumGrows(m, n - 1); }
  }

  lemma {:induction false} WaitsAtMostStreak(ts: seq<Turn>)
    ensures WaitsSinceUp(ts) <= Streak(ts)
  {
    if ts != [] { WaitsAtMostStreak(ts[..|ts| - 1]); }
  }

  lemma SumMore(xs: seq<nat>, lo: nat, hi: nat)
    requires lo < hi <= |xs|
    ensures Sum(xs[lo..hi]) == Sum(xs[lo..hi - 1]) + xs[hi - 1]
  {
    assert xs[lo..hi][..hi - 1 - lo] == xs[lo..hi - 1] && xs[lo..hi][hi - 1 - lo] == xs[hi - 1];
  }

  lemma SumNothing(xs: seq<nat>, lo: nat)
    requires lo <= |xs|
    ensures Sum(xs[lo..lo]) == 0
  {
    assert xs[lo..lo] == [];
  }

  /** Between stable sessions the waits add up to no more than an uninterrupted backoff. */
  lemma {:induction false} TotalWait(ts: seq<Turn>, waits: seq<nat>, lo: nat, hi: nat)
    requires lo <= hi <= |waits| <= |ts| && (lo == 0 || Stable(ts[lo - 1]))
    requires forall i :: lo <= i < hi ==> !Stable(ts[i])
    requires forall i :: 0 <= i < |waits| ==> waits[i] == WaitAfter(ts, i)
    ensures Sum(waits[lo..hi]) <= BackoffSum(hi - lo)
    decreases hi
  {
    hide WaitAfter, Backoff, Sum, Stable;
    if lo == hi {
      SumNothing(waits, lo);
    } else {
      TotalWait(ts, waits, lo, hi - 1);
      SumMore(waits, lo, hi);
      OneWait(ts, lo, hi - 1);
    }
  }

  /** When no session comes up in between, the waits add up to exactly that. */
  lemma {:induction false} TotalWaitExact(ts: seq<Turn>, waits: seq<nat>, lo: nat, hi: nat)
    requires ExactWaits(ts, waits) && lo <= hi <= |waits| && (lo == 0 || StayedUp(ts[lo - 1]))
    requires hi > lo ==> AllFail(ts, lo, hi - 1)
    ensures Sum(waits[lo..hi]) == BackoffSum(hi - lo)
    decreases hi
  {
    if lo < hi {
      TotalWaitExact(ts, waits, lo, hi - 1);
      SumMore(waits, lo, hi);
      assert waits[hi - 1] == Doubling(hi - 1 - lo) == Backoff(hi - 1 - lo);
    }
  }

  lemma OneWait(ts: seq<Turn>, lo: nat, i: nat)
    requires lo <= i < |ts| && (lo == 0 || Stable(ts[lo - 1])) && forall j :: lo <= j <= i ==> !Stable(ts[j])
    ensures WaitAfter(ts, i) <= Backoff(i - lo)
  {
    hide Backoff, Stable;
    StreakCounts(ts[..i], lo);
    WaitsAtMostStreak(ts[..i]);
    BackoffGrows(WaitsSinceUp(ts[..i]), i - lo);
    BackoffGrows(0, i - lo);
  }

  /** The total wait between stable sessions is at most the sum of min(2^i, 15) seconds for i from
      0 to maxAttempts - 2, for as long as the loop runs. */
  lemma TotalWaitBounded(ts: seq<Turn>, waits: seq<nat>, max: nat, lo: nat, hi: nat)
    requires max >= 1 && lo <= hi <= |waits| <= |ts| && (lo == 0 || Stable(ts[lo - 1]))
    requires forall i :: lo <= i < hi ==> !Stable(ts[i])
    requires forall i :: 0 <= i < |waits| ==> waits[i] == WaitAfter(ts, i)
    requires Streak(ts[..hi]) < max
    ensures Sum(waits[lo..hi]) <= BackoffSum(max - 1)
  {
    TotalWait(ts, waits, lo, hi);
    hide WaitAfter, Backoff, Sum, BackoffSum;
    StreakCounts(ts[..hi], lo);
    BackoffSumGrows(hi - lo, max - 1);
  }
}
