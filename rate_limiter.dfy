/**
 * The sliding-window rate limiter with escalating temporary bans
 * (utils/rate_limiter.py). Timestamps are whole seconds and every operation
 * takes the current time `now` as a parameter instead of reading a clock.
 *
 * `Admit` is the pure specification of one `check_rate_limit` call; the
 * `RateLimiter` class keeps the two dictionaries of the source as map fields
 * and its methods are proved against `Admit` and the other functions here.
 */
module RateLimiting {
  import opened Wrappers

  /** Timestamps oldest first, each no later than the next: the order in which the window is filled. */
  predicate Sorted(w: seq<int>) {
    |w| <= 1 || (w[0] <= w[1] && Sorted(w[1..]))
  }

  /** A sorted window whose newest timestamp is no later than `now`. */
  predicate SortedUpTo(w: seq<int>, now: int) {
    Sorted(w) && (w == [] || w[|w| - 1] <= now)
  }

  /** In a sorted window every timestamp lies between the oldest and the newest. */
  lemma {:induction false} SortedBetween(w: seq<int>)
    requires Sorted(w) && w != []
    ensures forall i :: 0 <= i < |w| ==> w[0] <= w[i] <= w[|w| - 1]
  {
    if |w| > 1 {
      SortedBetween(w[1..]);
      assert forall i :: 1 <= i < |w| ==> w[i] == w[1..][i - 1];
    }
  }

  /** The window of `user`, empty when the user is not tracked (`dict.get(user, deque())`). */
  function Window(requests: map<int, seq<int>>, user: int): seq<int> {
    if user in requests then requests[user] else []
  }

  /** The most entries a window can hold: `maxRequests`, or none when that is not positive. */
  function Capacity(maxRequests: int): nat {
    if maxRequests < 0 then 0 else maxRequests
  }

  /** Every tracked window holds at most `maxRequests` timestamps. */
  predicate WindowsBounded(requests: map<int, seq<int>>, maxRequests: int) {
    forall u :: u in requests ==> |requests[u]| <= Capacity(maxRequests)
  }

  /** Every tracked window is sorted and holds no timestamp later than `now`. */
  predicate WindowsSortedUpTo(requests: map<int, seq<int>>, now: int) {
    forall u :: u in requests ==> SortedUpTo(requests[u], now)
  }

  /**
   * The `popleft` loop: drops exactly the leading timestamps strictly older
   * than `windowStart`; a timestamp equal to `windowStart` stays.
   */
  function Evict(w: seq<int>, windowStart: int): (r: seq<int>)
    ensures |r| <= |w|
    ensures r == [] || r[0] >= windowStart
  {
    if w != [] && w[0] < windowStart then Evict(w[1..], windowStart) else w
  }

  /** Eviction keeps a suffix of the window and drops only timestamps older than the window start. */
  lemma {:induction false} EvictSuffix(w: seq<int>, windowStart: int)
    ensures var r := Evict(w, windowStart);
            && r == w[|w| - |r|..]
            && forall i :: 0 <= i < |w| - |r| ==> w[i] < windowStart
  {
    if w != [] && w[0] < windowStart {
      EvictSuffix(w[1..], windowStart);
      var r := Evict(w, windowStart);
      assert w[1..][|w| - 1 - |r|..] == w[|w| - |r|..];
      assert forall i :: 1 <= i < |w| - |r| ==> w[i] == w[1..][i - 1];
    }
  }

  /** How many timestamps of `w` are at or after `windowStart`, wherever they sit. */
  function CountRecent(w: seq<int>, windowStart: int): (n: nat)
    ensures n <= |w|
  {
    if w == [] then 0
    else (if w[0] >= windowStart then 1 else 0) + CountRecent(w[1..], windowStart)
  }

  /** The ban expiry `_apply_penalty` sets for a caller with `count` requests in the window. */
  function PenaltyExpiry(count: int, maxRequests: int, now: int): (until: int)
    ensures until - now in {60, 600, 3600}
    ensures until - now == 3600 <==> count >= maxRequests * 3
    ensures until - now == 60 <==> count < maxRequests * 2 && count < maxRequests * 3
  {
    if count >= maxRequests * 3 then now + 3600
    else if count >= maxRequests * 2 then now + 600
    else now + 60
  }

  /** The result of one admission check and the limiter state after it. */
  datatype Outcome = Outcome(allowed: bool, requests: map<int, seq<int>>, bans: map<int, int>)

  /** A ban on `user` that is still running at `now`. */
  predicate BannedAt(bans: map<int, int>, user: int, now: int) {
    user in bans && now < bans[user]
  }

  /** One `check_rate_limit(user)` call at time `now`. */
  function Admit(requests: map<int, seq<int>>, bans: map<int, int>, user: int, now: int,
                 maxRequests: int, windowSeconds: int): (o: Outcome)
    // an active ban denies and touches nothing
    ensures BannedAt(bans, user, now) ==> !o.allowed && o.requests == requests && o.bans == bans
    // a denial always leaves the caller banned; an admission always leaves the caller tracked
    ensures !o.allowed ==> user in o.bans
    ensures o.allowed ==> user in o.requests
  {
    if BannedAt(bans, user, now) then Outcome(false, requests, bans)
    else
      var bans' := bans - {user};
      var w := Evict(Window(requests, user), now - windowSeconds);
      if |w| >= maxRequests then
        Outcome(false, requests[user := w], bans'[user := PenaltyExpiry(|w|, maxRequests, now)])
      else
        Outcome(true, requests[user := w + [now]], bans')
  }

  /**
   * Without an active ban, any expired ban is forgotten and the call is
   * admitted exactly when the evicted window has room; an admitted call is
   * appended at the newest end, a denied one sets the penalty ban.
   */
  lemma AdmitDecision(requests: map<int, seq<int>>, bans: map<int, int>, user: int, now: int,
                      maxRequests: int, windowSeconds: int)
    requires !BannedAt(bans, user, now)
    ensures var o := Admit(requests, bans, user, now, maxRequests, windowSeconds);
            var w := Evict(Window(requests, user), now - windowSeconds);
            && user in o.requests
            && (o.allowed <==> |w| < maxRequests)
            && (o.allowed ==> o.requests[user] == w + [now] && user !in o.bans)
            && (!o.allowed ==> o.requests[user] == w && user in o.bans && o.bans[user] == PenaltyExpiry(|w|, maxRequests, now))
  {
  }

  /** For a caller with no ban on record, the whole outcome of a call. */
  lemma AdmitUntracked(requests: map<int, seq<int>>, bans: map<int, int>, user: int, now: int,
                       maxRequests: int, windowSeconds: int)
    requires user !in bans
    ensures var o := Admit(requests, bans, user, now, maxRequests, windowSeconds);
            var w := Evict(Window(requests, user), now - windowSeconds);
            && (|w| >= maxRequests ==> !o.allowed && o.requests == requests[user := w]
                                       && o.bans == bans[user := PenaltyExpiry(|w|, maxRequests, now)])
            && (|w| < maxRequests ==> o.allowed && o.requests == requests[user := w + [now]] && o.bans == bans)
  {
    assert bans - {user} == bans;
  }

  /** A denied call never appends: the caller's window only loses its oldest entries. */
  lemma DenialNeverAppends(requests: map<int, seq<int>>, bans: map<int, int>, user: int, now: int,
                           maxRequests: int, windowSeconds: int)
    requires !Admit(requests, bans, user, now, maxRequests, windowSeconds).allowed
    ensures var before := Window(requests, user);
            var after := Window(Admit(requests, bans, user, now, maxRequests, windowSeconds).requests, user);
            |after| <= |before| && after == before[|before| - |after|..]
  {
    EvictSuffix(Window(requests, user), now - windowSeconds);
  }

  /** No other caller's window or ban is touched. */
  lemma AdmitIsolatesCallers(requests: map<int, seq<int>>, bans: map<int, int>, user: int, now: int,
                             maxRequests: int, windowSeconds: int, other: int)
    requires other != user
    ensures var o := Admit(requests, bans, user, now, maxRequests, windowSeconds);
            && (other in o.requests <==> other in requests) && Window(o.requests, other) == Window(requests, other)
            && (other in o.bans <==> other in bans) && (other in bans ==> o.bans[other] == bans[other])
  {
  }

  /** The only append needs room, so no window ever exceeds `maxRequests`. */
  lemma AdmitKeepsBound(requests: map<int, seq<int>>, bans: map<int, int>, user: int, now: int,
                        maxRequests: int, windowSeconds: int)
    requires WindowsBounded(requests, maxRequests)
    ensures WindowsBounded(Admit(requests, bans, user, now, maxRequests, windowSeconds).requests, maxRequests)
  {
    var o := Admit(requests, bans, user, now, maxRequests, windowSeconds);
    forall u | u in o.requests ensures |o.requests[u]| <= Capacity(maxRequests) {
      if u != user {
        AdmitIsolatesCallers(requests, bans, user, now, maxRequests, windowSeconds, u);
      } else {
        assert |Window(requests, user)| <= Capacity(maxRequests);
      }
    }
  }

  /** A sorted window with nothing later than `now` stays so once evicted, with or without `now` appended. */
  lemma {:induction false} EvictSortedUpTo(w: seq<int>, windowStart: int, now: int)
    requires SortedUpTo(w, now)
    ensures SortedUpTo(Evict(w, windowStart), now)
    ensures SortedUpTo(Evict(w, windowStart) + [now], now)
  {
    if w != [] && w[0] < windowStart {
      assert SortedUpTo(w[1..], now);
      EvictSortedUpTo(w[1..], windowStart, now);
    } else {
      AppendNowSorted(w, now);
    }
  }

  /** Appending `now` to a window with nothing later keeps it sorted. */
  lemma {:induction false} AppendNowSorted(w: seq<int>, now: int)
    requires SortedUpTo(w, now)
    ensures SortedUpTo(w + [now], now)
  {
    if |w| == 1 {
      assert w + [now] == [w[0], now];
      assert [w[0], now][1..] == [now];
    } else if |w| > 1 {
      assert (w + [now])[1..] == w[1..] + [now];
      AppendNowSorted(w[1..], now);
    }
  }

  /** Under a clock that does not run backwards, every window stays sorted. */
  lemma AdmitKeepsSorted(requests: map<int, seq<int>>, bans: map<int, int>, user: int, now: int,
                         maxRequests: int, windowSeconds: int)
    requires WindowsSortedUpTo(requests, now)
    ensures WindowsSortedUpTo(Admit(requests, bans, user, now, maxRequests, windowSeconds).requests, now)
  {
    var o := Admit(requests, bans, user, now, maxRequests, windowSeconds);
    var v := Window(o.requests, user);
    CallerWindowChoices(requests, bans, user, now, maxRequests, windowSeconds);
    WindowSorted(requests, user, now);
    SortedChoice(Window(requests, user), now - windowSeconds, now, v);
    UpdateSorted(requests, o.requests, user, v, now);
  }

  /** `v` is `before` unchanged, evicted, or evicted with `now` appended. */
  predicate EvictionOf(before: seq<int>, v: seq<int>, windowStart: int, now: int) {
    v == before || v == Evict(before, windowStart) || v == Evict(before, windowStart) + [now]
  }

  /** `after` is `requests` unchanged or with the window of `user` replaced by `v`. */
  predicate ReplacedAt(requests: map<int, seq<int>>, after: map<int, seq<int>>, user: int, v: seq<int>) {
    after == requests || after == requests[user := v]
  }

  /** The window of any caller, tracked or not, is sorted when all tracked windows are. */
  lemma WindowSorted(requests: map<int, seq<int>>, user: int, now: int)
    requires WindowsSortedUpTo(requests, now)
    ensures SortedUpTo(Window(requests, user), now)
  {
  }

  /** Leaving the windows alone or replacing one by a sorted one keeps every window sorted. */
  lemma UpdateSorted(requests: map<int, seq<int>>, after: map<int, seq<int>>, user: int, v: seq<int>, now: int)
    requires WindowsSortedUpTo(requests, now) && SortedUpTo(v, now)
    requires ReplacedAt(requests, after, user, v)
    ensures WindowsSortedUpTo(after, now)
  {
  }

  /** The caller's own window after a call: unchanged, evicted, or evicted with `now` appended. */
  lemma CallerWindowChoices(requests: map<int, seq<int>>, bans: map<int, int>, user: int, now: int,
                            maxRequests: int, windowSeconds: int)
    ensures var after := Admit(requests, bans, user, now, maxRequests, windowSeconds).requests;
            && EvictionOf(Window(requests, user), Window(after, user), now - windowSeconds, now)
            && ReplacedAt(requests, after, user, Window(after, user))
  {
    if !BannedAt(bans, user, now) {
      AdmitDecision(requests, bans, user, now, maxRequests, windowSeconds);
    }
  }

  /** Each window a call can leave behind is sorted with nothing later than `now`. */
  lemma SortedChoice(before: seq<int>, windowStart: int, now: int, v: seq<int>)
    requires SortedUpTo(before, now)
    requires EvictionOf(before, v, windowStart, now)
    ensures SortedUpTo(v, now)
  {
    if v != before {
      EvictSortedUpTo(before, windowStart, now);
    }
  }

  /**
   * With at least one request allowed per window, a window is full exactly
   * when it holds `maxRequests` entries, so a denial is always the one-minute ban.
   */
  lemma OnlyShortBanReachable(requests: map<int, seq<int>>, bans: map<int, int>, user: int, now: int,
                              maxRequests: int, windowSeconds: int)
    requires maxRequests >= 1 && WindowsBounded(requests, maxRequests)
    requires !BannedAt(bans, user, now)
    requires !Admit(requests, bans, user, now, maxRequests, windowSeconds).allowed
    ensures Admit(requests, bans, user, now, maxRequests, windowSeconds).bans[user] == now + 60
  {
    var w := Evict(Window(requests, user), now - windowSeconds);
    assert |Window(requests, user)| <= maxRequests;
    assert |w| == maxRequests;
  }

  /** With `maxRequests == 0` every unbanned call is denied with the one-hour ban. */
  lemma ZeroLimitBansForAnHour(requests: map<int, seq<int>>, bans: map<int, int>, user: int, now: int,
                               windowSeconds: int)
    requires !BannedAt(bans, user, now)
    ensures !Admit(requests, bans, user, now, 0, windowSeconds).allowed
    ensures Admit(requests, bans, user, now, 0, windowSeconds).bans[user] == now + 3600
  {
  }

  /** Once a ban has expired, the call is decided as if the caller had never been banned. */
  lemma ExpiredBanForgotten(requests: map<int, seq<int>>, bans: map<int, int>, user: int, now: int,
                            maxRequests: int, windowSeconds: int)
    requires user in bans && bans[user] <= now
    ensures Admit(requests, bans, user, now, maxRequests, windowSeconds)
         == Admit(requests, bans - {user}, user, now, maxRequests, windowSeconds)
  {
    assert (bans - {user}) - {user} == bans - {user};
  }

  /** A call whose window holds nothing old enough to evict is decided on that window as it is. */
  lemma AdmitRecentWindow(requests: map<int, seq<int>>, bans: map<int, int>, user: int, now: int,
                          maxRequests: int, windowSeconds: int, w: seq<int>)
    requires !BannedAt(bans, user, now) && Window(requests, user) == w
    requires w == [] || w[0] >= now - windowSeconds
    ensures var o := Admit(requests, bans, user, now, maxRequests, windowSeconds);
            && (o.allowed <==> |w| < maxRequests)
            && (o.allowed ==> Window(o.requests, user) == w + [now] && user !in o.bans)
            && (!o.allowed ==> o.bans[user] == PenaltyExpiry(|w|, maxRequests, now))
  {
    assert Evict(w, now - windowSeconds) == w;
    AdmitDecision(requests, bans, user, now, maxRequests, windowSeconds);
  }

  /** With one request a minute, a second call 59 seconds later is denied and banned for a minute. */
  lemma SecondCallInAMinuteDenied(user: int, t: int)
    ensures var o1 := Admit(map[], map[], user, t, 1, 60);
            var o2 := Admit(o1.requests, o1.bans, user, t + 59, 1, 60);
            o1.allowed && !o2.allowed && o2.bans[user] == t + 119 && Window(o2.requests, user) == [t]
  {
    var o1 := Admit(map[], map[], user, t, 1, 60);
    AdmitRecentWindow(map[], map[], user, t, 1, 60, []);
    assert Window(o1.requests, user) == [t];
    AdmitRecentWindow(o1.requests, o1.bans, user, t + 59, 1, 60, [t]);
    AdmitDecision(o1.requests, o1.bans, user, t + 59, 1, 60);
  }

  /** For a sorted window, the status count equals what eviction would keep. */
  lemma {:induction false} CountRecentIsEvictedLength(w: seq<int>, windowStart: int)
    requires Sorted(w)
    ensures CountRecent(w, windowStart) == |Evict(w, windowStart)|
  {
    if w == [] {
    } else if w[0] < windowStart {
      CountRecentIsEvictedLength(w[1..], windowStart);
      assert Evict(w, windowStart) == Evict(w[1..], windowStart);
      assert CountRecent(w, windowStart) == CountRecent(w[1..], windowStart);
    } else {
      CountRecentIsEvictedLength(w[1..], windowStart);
      RecentFrontKeepsRest(w, windowStart);
      assert Evict(w, windowStart) == w;
      assert CountRecent(w, windowStart) == 1 + CountRecent(w[1..], windowStart);
    }
  }

  /** When the oldest timestamp of a sorted window is recent, so is all the rest. */
  lemma RecentFrontKeepsRest(w: seq<int>, windowStart: int)
    requires Sorted(w) && w != [] && w[0] >= windowStart
    ensures Evict(w[1..], windowStart) == w[1..]
  {
    if |w| > 1 {
      assert w[1..][0] == w[1];
    }
  }

  /** One sweep pass: expired timestamps evicted, callers left with nothing forgotten. */
  function SweepWindows(requests: map<int, seq<int>>, windowStart: int): map<int, seq<int>> {
    map u | u in requests && Evict(requests[u], windowStart) != [] :: Evict(requests[u], windowStart)
  }

  /** A sweep keeps exactly the callers with something left in the window, with their evicted windows. */
  lemma SweepWindowsKeepsNonEmpty(requests: map<int, seq<int>>, windowStart: int)
    ensures forall u :: u in SweepWindows(requests, windowStart) <==> u in requests && Evict(requests[u], windowStart) != []
    ensures forall u :: u in SweepWindows(requests, windowStart) ==>
              SweepWindows(requests, windowStart)[u] != [] && SweepWindows(requests, windowStart)[u] == Evict(requests[u], windowStart)
  {
  }

  /** One sweep pass over the bans: every ban whose time has come is dropped. */
  function SweepBans(bans: map<int, int>, now: int): (r: map<int, int>)
    ensures forall u :: u in r ==> u in bans && r[u] == bans[u] && now < r[u]
    ensures forall u :: u in bans && now < bans[u] ==> u in r
  {
    map u | u in bans && now < bans[u] :: bans[u]
  }

  /** After a sweep of sorted windows no window holds a timestamp older than the window start. */
  lemma SweepLeavesOnlyRecent(requests: map<int, seq<int>>, windowStart: int)
    requires forall u :: u in requests ==> Sorted(requests[u])
    ensures forall u :: u in SweepWindows(requests, windowStart) ==>
              forall i :: 0 <= i < |SweepWindows(requests, windowStart)[u]| ==> SweepWindows(requests, windowStart)[u][i] >= windowStart
  {
    var r := SweepWindows(requests, windowStart);
    SweepWindowsKeepsNonEmpty(requests, windowStart);
    forall u | u in r ensures forall i :: 0 <= i < |r[u]| ==> r[u][i] >= windowStart {
      EvictLeavesRecent(requests[u], windowStart);
    }
  }

  /** A sweep only drops leading timestamps, so sorted windows stay sorted. */
  lemma SweepKeepsSorted(requests: map<int, seq<int>>, windowStart: int, now: int)
    requires WindowsSortedUpTo(requests, now)
    ensures WindowsSortedUpTo(SweepWindows(requests, windowStart), now)
  {
    SweepWindowsKeepsNonEmpty(requests, windowStart);
    forall u | u in SweepWindows(requests, windowStart) ensures SortedUpTo(SweepWindows(requests, windowStart)[u], now) {
      EvictSortedUpTo(requests[u], windowStart, now);
    }
  }

  /** Windows with nothing later than `t` have nothing later than any later time either. */
  lemma SortedUntilLater(requests: map<int, seq<int>>, t: int, later: int)
    requires WindowsSortedUpTo(requests, t) && t <= later
    ensures WindowsSortedUpTo(requests, later)
  {
  }

  /** Evicting a sorted window leaves nothing older than the window start. */
  lemma {:induction false} EvictLeavesRecent(w: seq<int>, windowStart: int)
    requires Sorted(w)
    ensures forall i :: 0 <= i < |Evict(w, windowStart)| ==> Evict(w, windowStart)[i] >= windowStart
  {
    if w != [] {
      if w[0] < windowStart {
        EvictLeavesRecent(w[1..], windowStart);
      } else {
        SortedBetween(w);
      }
    }
  }

  /** The callers with at least one request in the current window. */
  function ActiveUsers(requests: map<int, seq<int>>, windowStart: int): set<int> {
    set u | u in requests && CountRecent(requests[u], windowStart) > 0
  }

  /** The bans still running at `now`. */
  function ActiveBans(bans: map<int, int>, now: int): set<int> {
    set u | u in bans && now < bans[u]
  }

  /** The in-window requests of the callers in `users`, summed. */
  ghost function RecentTotal(requests: map<int, seq<int>>, users: set<int>, windowStart: int): nat
    requires users <= requests.Keys
    decreases users
  {
    if users == {} then 0
    else
      HasMember(users);
      var u :| u in users;
      CountRecent(requests[u], windowStart) + RecentTotal(requests, users - {u}, windowStart)
  }

  /** The sum does not depend on the order in which callers are visited. */
  lemma {:induction false} RecentTotalRemove(requests: map<int, seq<int>>, users: set<int>, u: int, windowStart: int)
    requires users <= requests.Keys && u in users
    ensures RecentTotal(requests, users, windowStart)
         == CountRecent(requests[u], windowStart) + RecentTotal(requests, users - {u}, windowStart)
    decreases users
  {
    assert users != {};
    var v :| v in users && RecentTotal(requests, users, windowStart)
                         == CountRecent(requests[v], windowStart) + RecentTotal(requests, users - {v}, windowStart);
    if v != u {
      RecentTotalRemove(requests, users - {v}, u, windowStart);
      RecentTotalRemove(requests, users - {u}, v, windowStart);
      assert users - {v} - {u} == users - {u} - {v};
    }
  }

  /** What `get_user_status` reports. */
  datatype UserStatus = UserStatus(
    userId: int,
    recentRequests: nat,
    maxRequests: int,
    windowSeconds: int,
    remainingRequests: nat,
    isBanned: bool,
    banExpires: Option<int>,
    banTimeRemaining: nat)

  /** What `get_statistics` reports. */
  datatype Statistics = Statistics(
    activeUsers: nat,
    totalRecentRequests: nat,
    activeBans: nat,
    maxRequestsPerWindow: int,
    windowSeconds: int,
    trackedUsers: nat,
    totalBannedUsers: nat)

  /** Counting one more caller adds one exactly when its ban is still running. */
  lemma ActiveBansStep(bans: map<int, int>, now: int, done: set<int>, u: int)
    requires u in bans && u !in done
    ensures |ActiveBans(bans, now) * (done + {u})| == |ActiveBans(bans, now) * done| + (if now < bans[u] then 1 else 0)
  {
    var banned := ActiveBans(bans, now);
    if now < bans[u] {
      assert banned * (done + {u}) == banned * done + {u};
    } else {
      assert banned * (done + {u}) == banned * done;
    }
  }

  /** A non-empty set has a member to pick. */
  lemma HasMember(s: set<int>)
    requires s != {}
    ensures exists u :: u in s
  {
    if forall u :: u !in s {
      assert false;
    }
  }

  lemma {:induction false} SubsetNoLarger(a: set<int>, b: set<int>)
    requires a <= b
    ensures |a| <= |b|
    decreases a
  {
    if a != {} {
      HasMember(a);
      var x :| x in a;
      SubsetNoLarger(a - {x}, b - {x});
    }
  }

  /** The `popleft` loop on one window. */
  method PopExpired(window: seq<int>, windowStart: int) returns (kept: seq<int>)
    ensures kept == Evict(window, windowStart)
  {
    kept := window;
    while kept != [] && kept[0] < windowStart
      invariant Evict(kept, windowStart) == Evict(window, windowStart)
      decreases |kept|
    {
      kept := kept[1..];
    }
  }

  /** The loop of `get_statistics` over every tracked window. */
  method SumRecent(requests: map<int, seq<int>>, windowStart: int) returns (activeUsers: nat, totalRecent: nat)
    ensures activeUsers == |ActiveUsers(requests, windowStart)|
    ensures totalRecent == RecentTotal(requests, requests.Keys, windowStart)
    ensures activeUsers <= totalRecent
  {
    activeUsers, totalRecent := 0, 0;
    var pending := requests.Keys;
    ghost var active := ActiveUsers(requests, windowStart);
    assert active * pending == active;
    while pending != {}
      invariant pending <= requests.Keys
      invariant activeUsers + |active * pending| == |active|
      invariant totalRecent + RecentTotal(requests, pending, windowStart) == RecentTotal(requests, requests.Keys, windowStart)
      invariant activeUsers <= totalRecent
      decreases pending
    {
      HasMember(pending);
      var u :| u in pending;
      var recentCount := CountRecent(requests[u], windowStart);
      RecentTotalRemove(requests, pending, u, windowStart);
      if recentCount > 0 {
        assert active * pending == active * (pending - {u}) + {u};
        activeUsers := activeUsers + 1;
      } else {
        assert active * pending == active * (pending - {u});
      }
      totalRecent := totalRecent + recentCount;
      pending := pending - {u};
    }
  }

  /**
   * The first loop of the cleanup pass: every window evicted, and the
   * callers whose window became empty collected for removal.
   */
  method EvictAll(requests: map<int, seq<int>>, windowStart: int)
    returns (evicted: map<int, seq<int>>, usersToRemove: set<int>)
    ensures evicted.Keys == requests.Keys
    ensures forall u :: u in evicted ==> evicted[u] == Evict(requests[u], windowStart)
    ensures forall u :: u in usersToRemove <==> u in evicted && evicted[u] == []
  {
    evicted := requests;
    usersToRemove := {};
    var pending := requests.Keys;
    while pending != {}
      invariant pending <= requests.Keys && evicted.Keys == requests.Keys
      invariant forall u :: u in pending ==> evicted[u] == requests[u]
      invariant forall u :: u in evicted && u !in pending ==> evicted[u] == Evict(requests[u], windowStart)
      invariant forall u :: u in usersToRemove <==> u in evicted && u !in pending && evicted[u] == []
      decreases pending
    {
      HasMember(pending);
      var u :| u in pending;
      var kept := PopExpired(evicted[u], windowStart);
      evicted := evicted[u := kept];
      if kept == [] {
        usersToRemove := usersToRemove + {u};
      }
      pending := pending - {u};
    }
  }

  /** The window half of the cleanup pass: evict every window, then drop the emptied ones. */
  method SweepRequests(requests: map<int, seq<int>>, windowStart: int) returns (swept: map<int, seq<int>>)
    ensures swept == SweepWindows(requests, windowStart)
  {
    var evicted, usersToRemove := EvictAll(requests, windowStart);
    SweepRemovesEmpty(requests, evicted, usersToRemove, windowStart);
    swept := evicted - usersToRemove;
  }

  /** Dropping the emptied windows after the eviction loop leaves exactly `SweepWindows`. */
  lemma SweepRemovesEmpty(requests: map<int, seq<int>>, evicted: map<int, seq<int>>, usersToRemove: set<int>, windowStart: int)
    requires evicted.Keys == requests.Keys
    requires forall u :: u in evicted ==> evicted[u] == Evict(requests[u], windowStart)
    requires forall u :: u in usersToRemove <==> u in evicted && evicted[u] == []
    ensures evicted - usersToRemove == SweepWindows(requests, windowStart)
  {
    var kept := evicted - usersToRemove;
    var swept := SweepWindows(requests, windowStart);
    SweepWindowsKeepsNonEmpty(requests, windowStart);
    assert forall u :: u in kept <==> u in swept;
    assert kept.Keys == swept.Keys;
    forall u | u in kept ensures kept[u] == swept[u] {
    }
  }

  /** A sweep only shortens windows, so the bound on their length survives it. */
  lemma SweepKeepsBound(requests: map<int, seq<int>>, windowStart: int, maxRequests: int)
    requires WindowsBounded(requests, maxRequests)
    ensures WindowsBounded(SweepWindows(requests, windowStart), maxRequests)
  {
    SweepWindowsKeepsNonEmpty(requests, windowStart);
  }

  /** Deleting the bans collected as expired leaves exactly `SweepBans`. */
  lemma ExpiredBansRemoved(bans: map<int, int>, now: int)
    ensures bans - (set u | u in bans && now >= bans[u]) == SweepBans(bans, now)
  {
    var kept := bans - (set u | u in bans && now >= bans[u]);
    var swept := SweepBans(bans, now);
    assert forall u :: u in kept <==> u in swept;
    assert kept.Keys == swept.Keys;
  }

  class RateLimiter {
    const maxRequests: int
    const windowSeconds: int
    /** Caller id to its timestamps, oldest first. */
    var userRequests: map<int, seq<int>>
    /** Caller id to the time its ban ends. */
    var bannedUsers: map<int, int>
    /** The latest time a check or a sweep ran at; None before the first. */
    ghost var clock: Option<int>

    /**
     * No window exceeds `maxRequests`, and every window is sorted with
     * nothing later than the clock (nothing is tracked before the first call).
     */
    ghost predicate Valid()
      reads this
    {
      && WindowsBounded(userRequests, maxRequests)
      && (clock.None? ==> userRequests == map[])
      && (clock.Some? ==> WindowsSortedUpTo(userRequests, clock.value))
    }

    /** `now` is no earlier than the clock: time does not run backwards. */
    ghost predicate NotBefore(now: int)
      reads this
    {
      clock.None? || clock.value <= now
    }

    constructor (maxRequests: int, windowSeconds: int)
      ensures this.maxRequests == maxRequests && this.windowSeconds == windowSeconds
      ensures userRequests == map[] && bannedUsers == map[] && clock.None?
      ensures Valid()
    {
      this.maxRequests := maxRequests;
      this.windowSeconds := windowSeconds;
      userRequests := map[];
      bannedUsers := map[];
      clock := None;
    }

    /** `check_rate_limit`: admit or deny one request of `userId` at `now`. */
    method CheckRateLimit(userId: int, now: int) returns (allowed: bool)
      requires Valid() && NotBefore(now)
      modifies this
      ensures Valid() && clock == Some(now)
      ensures var o := Admit(old(userRequests), old(bannedUsers), userId, now, maxRequests, windowSeconds);
              allowed == o.allowed && userRequests == o.requests && bannedUsers == o.bans
    {
      if clock.Some? {
        SortedUntilLater(userRequests, clock.value, now);
      }
      clock := Some(now);
      if userId in bannedUsers {
        if now < bannedUsers[userId] {
          return false;
        }
        ExpiredBanForgotten(userRequests, bannedUsers, userId, now, maxRequests, windowSeconds);
        bannedUsers := bannedUsers - {userId};
      }
      allowed := CountRequest(userId, now);
    }

    /** The part of `check_rate_limit` after the ban check: evict, then deny with a penalty or record. */
    method CountRequest(userId: int, now: int) returns (allowed: bool)
      requires Valid() && clock == Some(now) && userId !in bannedUsers
      modifies this
      ensures Valid() && clock == Some(now)
      ensures var o := Admit(old(userRequests), old(bannedUsers), userId, now, maxRequests, windowSeconds);
              allowed == o.allowed && userRequests == o.requests && bannedUsers == o.bans
    {
      ghost var requests0, bans0 := userRequests, bannedUsers;
      ghost var o := Admit(requests0, bans0, userId, now, maxRequests, windowSeconds);
      AdmitUntracked(requests0, bans0, userId, now, maxRequests, windowSeconds);
      AdmitKeepsBound(requests0, bans0, userId, now, maxRequests, windowSeconds);
      AdmitKeepsSorted(requests0, bans0, userId, now, maxRequests, windowSeconds);
      var window := Window(userRequests, userId);
      window := PopExpired(window, now - windowSeconds);
      if |window| >= maxRequests {
        userRequests := userRequests[userId := window];
        ApplyPenalty(userId, |window|, now);
        return false;
      }
      userRequests := userRequests[userId := window + [now]];
      return true;
    }

    /** `_apply_penalty`: the new ban overwrites any earlier one. */
    method ApplyPenalty(userId: int, requestCount: int, now: int)
      modifies this
      ensures userRequests == old(userRequests) && clock == old(clock)
      ensures bannedUsers == old(bannedUsers)[userId := PenaltyExpiry(requestCount, maxRequests, now)]
    {
      var banDuration;
      if requestCount >= maxRequests * 3 {
        banDuration := 3600;
      } else if requestCount >= maxRequests * 2 {
        banDuration := 600;
      } else {
        banDuration := 60;
      }
      bannedUsers := bannedUsers[userId := now + banDuration];
    }

    /** `get_user_status`: a read-only report that creates no entry. */
    method GetUserStatus(userId: int, now: int) returns (status: UserStatus)
      ensures status.userId == userId
      ensures status.recentRequests == CountRecent(Window(userRequests, userId), now - windowSeconds)
      ensures Valid() ==> status.recentRequests == |Evict(Window(userRequests, userId), now - windowSeconds)|
      ensures status.remainingRequests == if maxRequests - status.recentRequests < 0 then 0 else maxRequests - status.recentRequests
      ensures status.isBanned <==> BannedAt(bannedUsers, userId, now)
      ensures status.banExpires == if status.isBanned then Some(bannedUsers[userId]) else None
      ensures status.banTimeRemaining == if status.isBanned && bannedUsers[userId] != 0 then bannedUsers[userId] - now else 0
      ensures status.maxRequests == maxRequests && status.windowSeconds == windowSeconds
    {
      var window := Window(userRequests, userId);
      var windowStart := now - windowSeconds;
      var recent := 0;
      var i := 0;
      while i < |window|
        invariant 0 <= i <= |window|
        invariant recent + CountRecent(window[i..], windowStart) == CountRecent(window, windowStart)
      {
        assert window[i..][1..] == window[i + 1..];
        if window[i] >= windowStart {
          recent := recent + 1;
        }
        i := i + 1;
      }
      if Valid() {
        assert Sorted(window);
        CountRecentIsEvictedLength(window, windowStart);
      }
      var isBanned := userId in bannedUsers && now < bannedUsers[userId];
      var banExpires := if isBanned then Some(bannedUsers[userId]) else None;
      var remaining := if maxRequests - recent < 0 then 0 else maxRequests - recent;
      var timeRemaining := if banExpires.Some? && banExpires.value != 0 then banExpires.value - now else 0;
      status := UserStatus(userId, recent, maxRequests, windowSeconds, remaining, isBanned, banExpires, timeRemaining);
    }

    /** `reset_user_limits`: the admin override for one caller. */
    method ResetUserLimits(userId: int)
      requires Valid()
      modifies this
      ensures Valid() && clock == old(clock)
      ensures userRequests == if userId in old(userRequests) then old(userRequests)[userId := []] else old(userRequests)
      ensures bannedUsers == old(bannedUsers) - {userId}
    {
      if userId in userRequests {
        userRequests := userRequests[userId := []];
      }
      if userId in bannedUsers {
        bannedUsers := bannedUsers - {userId};
      }
    }

    /** One pass of the periodic cleanup task of `_cleanup_old_data`. */
    method Sweep(now: int)
      requires Valid() && NotBefore(now)
      modifies this
      ensures Valid() && clock == Some(now)
      ensures userRequests == SweepWindows(old(userRequests), now - windowSeconds)
      ensures bannedUsers == SweepBans(old(bannedUsers), now)
      ensures forall u :: u in userRequests ==>
                forall i :: 0 <= i < |userRequests[u]| ==> userRequests[u][i] >= now - windowSeconds
    {
      if clock.Some? {
        SortedUntilLater(userRequests, clock.value, now);
      }
      clock := Some(now);
      SweepKeepsBound(userRequests, now - windowSeconds, maxRequests);
      SweepKeepsSorted(userRequests, now - windowSeconds, now);
      SweepLeavesOnlyRecent(userRequests, now - windowSeconds);
      userRequests := SweepRequests(userRequests, now - windowSeconds);
      ExpiredBansRemoved(bannedUsers, now);
      var expiredBans := set u | u in bannedUsers && now >= bannedUsers[u];
      bannedUsers := bannedUsers - expiredBans;
    }

    /** `get_statistics`: aggregate counts over all callers, read-only. */
    method GetStatistics(now: int) returns (stats: Statistics)
      ensures stats.activeUsers == |ActiveUsers(userRequests, now - windowSeconds)|
      ensures stats.totalRecentRequests == RecentTotal(userRequests, userRequests.Keys, now - windowSeconds)
      ensures stats.activeBans == |ActiveBans(bannedUsers, now)|
      ensures stats.activeUsers <= stats.trackedUsers == |userRequests|
      ensures stats.activeBans <= stats.totalBannedUsers == |bannedUsers|
      ensures stats.activeUsers <= stats.totalRecentRequests
      ensures stats.maxRequestsPerWindow == maxRequests && stats.windowSeconds == windowSeconds
    {
      var activeUsers, totalRecent := SumRecent(userRequests, now - windowSeconds);
      var activeBans := CountActiveBans(now);
      SubsetNoLarger(ActiveUsers(userRequests, now - windowSeconds), userRequests.Keys);
      SubsetNoLarger(ActiveBans(bannedUsers, now), bannedUsers.Keys);
      stats := Statistics(activeUsers, totalRecent, activeBans, maxRequests, windowSeconds, |userRequests|, |bannedUsers|);
    }

    /** The bans still running, counted as `get_statistics` does. */
    method CountActiveBans(now: int) returns (activeBans: nat)
      ensures activeBans == |ActiveBans(bannedUsers, now)|
    {
      activeBans := 0;
      var pending := bannedUsers.Keys;
      ghost var done: set<int> := {};
      ghost var banned := ActiveBans(bannedUsers, now);
      while pending != {}
        invariant pending + done == bannedUsers.Keys && pending !! done
        invariant activeBans == |banned * done|
        decreases pending
      {
        HasMember(pending);
        var u :| u in pending;
        ActiveBansStep(bannedUsers, now, done, u);
        if now < bannedUsers[u] {
          activeBans := activeBans + 1;
        }
        pending := pending - {u};
        done := done + {u};
      }
      assert banned * done == banned;
    }
  }
}
