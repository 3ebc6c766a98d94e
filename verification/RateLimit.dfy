/**
  The two fixed-window rate limiters: windows aligned to the first request (in
  memory) and to the clock (PostgreSQL, with pruning). Times are reals, in seconds.
*/
module RateLimit {
  import opened Prelude

  datatype Config = Config(requests: int, windowSeconds: int, burst: Option<int>) {
    function Capacity(): int {
      if burst.Some? then burst.value else requests
    }

    /** What the environment parser enforces; a window of zero seconds is refused there. */
    predicate Valid() {
      windowSeconds > 0
    }
  }

  datatype Decision = Decision(allowed: bool, limit: int, remaining: int, retryAfterSeconds: int)

  function Ceiling(x: real): int {
    -(-x).Floor
  }

  /** The decision for the `count`-th request of a window that ends in `left` seconds. */
  function Decide(config: Config, count: int, left: real): Decision {
    Decision(count <= config.Capacity(), config.Capacity(), Max(0, config.Capacity() - count), Max(1, Ceiling(left)))
  }

  ghost predicate Rising(times: seq<real>) {
    forall i, j :: 0 <= i <= j < |times| ==> times[i] <= times[j]
  }

  // ---------------------------------------------------------------------------
  // Windows as a numbering of the requests
  // ---------------------------------------------------------------------------

  /** Requests admitted so far in [from, to] when request i is the n-th of its window and n <= capacity. */
  function Admitted(times: seq<real>, windows: seq<int>, capacity: int, from: real, to: real): nat
    requires |times| == |windows|
  {
    if times == [] then 0
    else
      var n := |times| - 1;
      Admitted(times[..n], windows[..n], capacity, from, to)
      + (if from <= times[n] <= to && multiset(windows)[windows[n]] <= capacity then 1 else 0)
  }

  /** If an interval meets only the windows v and v + 1, it admits at most two capacities. */
  lemma {:induction false} TwoWindowsAdmit(times: seq<real>, windows: seq<int>, capacity: nat, from: real, to: real,
                                           v: int)
    requires |times| == |windows|
    requires forall i :: 0 <= i < |times| && from <= times[i] <= to ==> windows[i] == v || windows[i] == v + 1
    ensures Admitted(times, windows, capacity, from, to)
         <= Min(capacity, multiset(windows)[v]) + Min(capacity, multiset(windows)[v + 1])
  {
    if times != [] {
      var n := |times| - 1;
      TwoWindowsAdmit(times[..n], windows[..n], capacity, from, to, v);
      assert windows == windows[..n] + [windows[n]];
    }
  }

  /** Requests at most one window apart in time are at most one window apart in number. */
  ghost predicate Spaced(times: seq<real>, windows: seq<int>, span: real) {
    |times| == |windows| && forall i, j :: 0 <= i <= j < |times| ==>
      windows[i] <= windows[j] && (times[j] <= times[i] + span ==> windows[j] <= windows[i] + 1)
  }

  /** The sliding bound of a fixed window: any closed interval of one window length admits at most 2 * capacity. */
  lemma SlidingBound(times: seq<real>, windows: seq<int>, capacity: nat, span: real, from: real)
    requires Rising(times) && Spaced(times, windows, span)
    ensures Admitted(times, windows, capacity, from, from + span) <= 2 * capacity
  {
    if i :| 0 <= i < |times| && from <= times[i] <= from + span {
      var first := FirstAtLeast(times, from, i);
      TwoWindowsAdmit(times, windows, capacity, from, from + span, windows[first]);
    } else {
      TwoWindowsAdmit(times, windows, capacity, from, from + span, 0);
    }
  }

  lemma FirstAtLeast(times: seq<real>, from: real, i: nat) returns (first: nat)
    requires Rising(times) && i < |times| && from <= times[i]
    ensures first <= i && from <= times[first]
    ensures forall j :: 0 <= j < |times| && from <= times[j] ==> first <= j
  {
    first := i;
    while first > 0 && from <= times[first - 1]
      invariant first <= i && from <= times[first]
    {
      first := first - 1;
    }
  }

  // ---------------------------------------------------------------------------
  // In memory: a window starts with the first request that finds none open
  // ---------------------------------------------------------------------------

  datatype Window = Window(startedAt: real, count: int)

  /** The window of one key after a history of requests, with its number. */
  datatype Opened = Opened(window: Window, number: int)

  function Replay(times: seq<real>, span: real): (o: Opened)
    requires times != []
  {
    var n := |times| - 1;
    if n == 0 then Opened(Window(times[0], 1), 0)
    else
      var before := Replay(times[..n], span);
      if times[n] - before.window.startedAt >= span then Opened(Window(times[n], 1), before.number + 1)
      else before.(window := before.window.(count := before.window.count + 1))
  }

  /** The window after one more request. */
  function Following(window: Window, t: real, span: real): Window {
    if t - window.startedAt >= span then Window(t, 1) else window.(count := window.count + 1)
  }

  lemma ReplayNext(times: seq<real>, t: real, span: real)
    ensures Replay(times + [t], span).window
      == if times == [] then Window(t, 1) else Following(Replay(times, span).window, t, span)
  {
    assert (times + [t])[..|times|] == times;
  }

  /** The window number of every request. */
  function Numbers(times: seq<real>, span: real): seq<int> {
    if times == [] then []
    else Numbers(times[..|times| - 1], span) + [Replay(times, span).number]
  }

  lemma {:induction false} NumbersAt(times: seq<real>, span: real, i: nat)
    requires i < |times|
    ensures |Numbers(times, span)| == |times|
    ensures Numbers(times, span)[i] == Replay(times[..i + 1], span).number
  {
    var n := |times| - 1;
    NumbersLength(times, span);
    NumbersLength(times[..n], span);
    if i < n {
      NumbersAt(times[..n], span, i);
      assert times[..n][..i + 1] == times[..i + 1];
    } else {
      assert times[..i + 1] == times;
    }
  }

  lemma {:induction false} NumbersLength(times: seq<real>, span: real)
    ensures |Numbers(times, span)| == |times|
  {
    if times != [] {
      NumbersLength(times[..|times| - 1], span);
    }
  }

  /** The count is the rank of the request in its window: how many of the whole history share its number. */
  lemma {:induction false} CountIsRank(times: seq<real>, span: real)
    requires times != []
    ensures Replay(times, span).window.count == multiset(Numbers(times, span))[Replay(times, span).number]
    ensures forall k :: k in Numbers(times, span) ==> k <= Replay(times, span).number
  {
    var n := |times| - 1;
    if n == 0 {
      assert times[..n] == [];
      assert Numbers(times, span) == [0];
    } else {
      var (last, now) := (Replay(times[..n], span), Replay(times, span));
      var before := Numbers(times[..n], span);
      CountIsRank(times[..n], span);
      assert Numbers(times, span) == before + [now.number];
      assert (now.number == last.number && now.window.count == last.window.count + 1)
        || (now.number == last.number + 1 && now.window.count == 1);
      hide Replay, Numbers;
      assert multiset(before + [now.number])[now.number] == multiset(before)[now.number] + 1;
      if now.number > last.number {
        assert now.number !in before;
      }
    }
  }

  /** How far the window number of a later request can be, by the start of its window. */
  lemma {:induction false} WindowsAreSpaced(times: seq<real>, span: real, i: nat, j: nat)
    requires Rising(times) && i <= j < |times| && span > 0.0
    ensures var (a, b) := (Replay(times[..i + 1], span), Replay(times[..j + 1], span));
      && a.number <= b.number && b.window.startedAt <= times[j] < b.window.startedAt + span
      && (b.number == a.number ==> b.window.startedAt == a.window.startedAt)
      && (b.number == a.number + 1 ==> b.window.startedAt > times[i])
      && (b.number >= a.number + 2 ==> b.window.startedAt > times[i] + span)
    decreases j
  {
    if j > 0 {
      assert times[..j + 1][..j] == times[..j];
      WindowsAreSpaced(times, span, if i < j then i else j - 1, j - 1);
    }
  }

  lemma NumbersAreSpaced(times: seq<real>, span: real)
    requires Rising(times) && span > 0.0
    ensures Spaced(times, Numbers(times, span), span)
  {
    NumbersLength(times, span);
    forall i, j | 0 <= i <= j < |times|
      ensures Numbers(times, span)[i] <= Numbers(times, span)[j]
      ensures times[j] <= times[i] + span ==> Numbers(times, span)[j] <= Numbers(times, span)[i] + 1
    {
      NumbersAt(times, span, i);
      NumbersAt(times, span, j);
      WindowsAreSpaced(times, span, i, j);
    }
  }

  /** The decision for the last request of a key's history. */
  function InMemoryDecision(config: Config, times: seq<real>): Decision
    requires times != []
  {
    var window, span := Replay(times, config.windowSeconds as real).window, config.windowSeconds as real;
    Decide(config, window.count, span - (times[|times| - 1] - window.startedAt))
  }

  /**
    A request belongs to the window of an earlier one exactly while less than the window length has
    passed since that window began.
  */
  lemma {:induction false} SameWindowIff(times: seq<real>, span: real, i: nat, j: nat)
    requires Rising(times) && i <= j < |times| && span > 0.0
    ensures var (a, b) := (Replay(times[..i + 1], span), Replay(times[..j + 1], span));
      && (a.number == b.number <==> times[j] < a.window.startedAt + span)
      && (i == 0 ==> a.window.startedAt == times[0])
    decreases j
  {
    WindowsAreSpaced(times, span, i, j);
    assert i == 0 ==> times[..1] == [times[0]];
    if i < j {
      assert times[..j + 1][..j] == times[..j];
      SameWindowIff(times, span, i, j - 1);
      WindowsAreSpaced(times, span, i, j - 1);
    }
  }

  /** The limit of a window: the burst when one is configured, the request rate otherwise. */
  predicate IsLimit(config: Config, limit: int) {
    (config.burst.Some? ==> limit == config.burst.value) && (config.burst.None? ==> limit == config.requests)
  }

  /** The decision for the `rank`-th request of a window: the first `limit` are admitted, and how many are left. */
  predicate DecidesByRank(decision: Decision, limit: int, rank: int) {
    && decision.limit == limit
    && (decision.allowed <==> rank <= limit)
    && (rank < limit ==> decision.remaining == limit - rank)
    && (rank >= limit ==> decision.remaining == 0)
  }

  /** Every decision is that of the request's rank in its window, over the whole history. */
  lemma InMemoryDecidesByRank(config: Config, times: seq<real>, limit: int)
    requires times != [] && IsLimit(config, limit)
    ensures var numbers := Numbers(times, config.windowSeconds as real);
      && |numbers| == |times|
      && DecidesByRank(InMemoryDecision(config, times), limit, multiset(numbers)[numbers[|times| - 1]])
  {
    NumbersLength(times, config.windowSeconds as real);
    CountIsRank(times, config.windowSeconds as real);
    hide Replay, Ceiling;
  }

  /** How many requests of the interval [from, to] were allowed. */
  function InMemoryAllowed(config: Config, times: seq<real>, from: real, to: real): nat {
    if times == [] then 0
    else
      var n := |times| - 1;
      InMemoryAllowed(config, times[..n], from, to)
      + (if from <= times[n] <= to && InMemoryDecision(config, times).allowed then 1 else 0)
  }

  lemma {:induction false} InMemoryAllowedByRank(config: Config, times: seq<real>, from: real, to: real)
    ensures var numbers := Numbers(times, config.windowSeconds as real);
      |numbers| == |times|
      && InMemoryAllowed(config, times, from, to) == Admitted(times, numbers, config.Capacity(), from, to)
  {
    var span := config.windowSeconds as real;
    NumbersLength(times, span);
    if times != [] {
      var n := |times| - 1;
      CountIsRank(times, span);
      InMemoryAllowedByRank(config, times[..n], from, to);
      assert Numbers(times, span)[..n] == Numbers(times[..n], span);
    }
  }

  /** Any closed interval of `window_seconds` allows at most 2 * capacity requests of one key. */
  lemma InMemorySlidingBound(config: Config, times: seq<real>, from: real)
    requires config.Valid() && config.Capacity() >= 0 && Rising(times)
    ensures InMemoryAllowed(config, times, from, from + config.windowSeconds as real) <= 2 * config.Capacity()
  {
    hide Spaced, Rising, Admitted, Numbers, InMemoryAllowed;
    var span := config.windowSeconds as real;
    NumbersLength(times, span);
    NumbersAreSpaced(times, span);
    SlidingBound(times, Numbers(times, span), config.Capacity(), span, from);
    InMemoryAllowedByRank(config, times, from, from + span);
  }

  class InMemoryRateLimiter {
    const config: Config
    var windows: map<string, Window>
    ghost var history: map<string, seq<real>>  // every request ever made, by key

    ghost predicate Valid()
      reads this
    {
      && windows.Keys == history.Keys
      && forall key :: key in windows ==>
           history[key] != [] && windows[key] == Replay(history[key], config.windowSeconds as real).window
    }

    ghost function HistoryOf(key: string): seq<real>
      reads this
    {
      if key in history then history[key] else []
    }

    constructor (config: Config)
      ensures this.config == config && Valid() && history == map[]
    {
      this.config := config;
      windows, history := map[], map[];
    }

    /** Each decision is the one computed from the full history of the key, and only that. */
    method Check(key: string, current: real) returns (decision: Decision)
      requires Valid() && config.Valid()
      modifies this`windows, this`history
      ensures Valid()
      ensures history == old(history)[key := old(HistoryOf(key)) + [current]]
      ensures decision == InMemoryDecision(config, HistoryOf(key))
    {
      ghost var before := HistoryOf(key);
      var span := config.windowSeconds as real;
      ReplayNext(before, current, span);
      hide Replay, Ceiling;
      var window := if key in windows then Some(windows[key]) else None;
      if window.None? || current - window.value.startedAt >= span {
        window := Some(Window(current, 0));
      }
      var counted := window.value.(count := window.value.count + 1);
      windows := windows[key := counted];
      history := history[key := before + [current]];
      var limit := config.Capacity();
      var allowed := counted.count <= limit;
      var remaining := Max(0, limit - counted.count);
      var retryAfter := Max(1, Ceiling(span - (current - counted.startedAt)));
      return Decision(allowed, limit, remaining, retryAfter);
    }
  }

  /**
    Retry-After is honest and tight (section 10.2.3 of RFC 9110): a key that stays silent for the
    announced seconds, or longer, opens a new window and is admitted there if anything can be;
    after fewer whole seconds it would still be in the same window.
  */
  lemma InMemoryRetryAfter(config: Config, times: seq<real>, wait: real, shorter: int)
    requires config.Valid() && Rising(times) && times != []
    ensures var (span, last) := (config.windowSeconds as real, times[|times| - 1]);
      var window := Replay(times, span).window;
      var retry := InMemoryDecision(config, times).retryAfterSeconds;
      && (wait >= retry as real ==> Replay(times + [last + wait], span).window == Window(last + wait, 1))
      && (1 <= shorter < retry ==>
            Replay(times + [last + shorter as real], span).window == Window(window.startedAt, window.count + 1))
  {
    hide Replay, Rising;
    var span, last := config.windowSeconds as real, times[|times| - 1];
    RetryCovers(span - (last - Replay(times, span).window.startedAt), wait, shorter);
    ReplayNext(times, last + wait, span);
    ReplayNext(times, last + shorter as real, span);
    hide Ceiling;
  }

  /** The announced seconds cover what is left of a window, fewer whole seconds do not. */
  lemma RetryCovers(left: real, wait: real, shorter: int)
    ensures var retry := Max(1, Ceiling(left));
      (wait >= retry as real ==> wait >= left) && (1 <= shorter < retry ==> (shorter as real) < left)
  {
  }

  // ---------------------------------------------------------------------------
  // PostgreSQL: windows are aligned to the clock, rows are pruned on every write
  // ---------------------------------------------------------------------------

  const MAX_KEY_LENGTH := 512

  datatype Row = Row(windowId: int, count: int)

  datatype Request = Request(key: string, now: real)

  function WindowId(config: Config, now: real): int
    requires config.Valid()
  {
    (now / config.windowSeconds as real).Floor
  }

  function TableKey(key: string): string {
    if |key| <= MAX_KEY_LENGTH then key else key[..MAX_KEY_LENGTH]
  }

  function Counted(rows: map<string, Row>, key: string, windowId: int): Row {
    if key in rows && rows[key].windowId == windowId then Row(windowId, rows[key].count + 1) else Row(windowId, 1)
  }

  function Upserted(rows: map<string, Row>, key: string, windowId: int): map<string, Row> {
    rows[key := Counted(rows, key, windowId)]
  }

  function Pruned(rows: map<string, Row>, oldest: int): map<string, Row> {
    map key | key in rows && rows[key].windowId >= oldest :: rows[key]
  }

  function PostgresDecision(config: Config, row: Row, now: real): Decision
    requires config.Valid()
  {
    Decide(config, row.count, ((row.windowId + 1) * config.windowSeconds) as real - now)
  }

  class PostgresRateLimiter {
    const config: Config
    var rows: map<string, Row>

    constructor (config: Config)
      ensures this.config == config && rows == map[]
    {
      this.config := config;
      rows := map[];
    }

    method Check(key: string, current: real) returns (decision: Decision)
      requires config.Valid()
      modifies this`rows
      ensures var windowId := WindowId(config, current);
        && rows == Pruned(Upserted(old(rows), TableKey(key), windowId), windowId - 1)
        && decision == PostgresDecision(config, Counted(old(rows), TableKey(key), windowId), current)
    {
      var windowId := (current / config.windowSeconds as real).Floor;
      var column := TableKey(key);
      var count := if column in rows && rows[column].windowId == windowId then rows[column].count + 1 else 1;
      rows := rows[column := Row(windowId, count)];
      rows := map k | k in rows && rows[k].windowId >= windowId - 1 :: rows[k];
      var limit := config.Capacity();
      var allowed := count <= limit;
      var remaining := Max(0, limit - count);
      var resetAt := ((windowId + 1) * config.windowSeconds) as real;
      return Decision(allowed, limit, remaining, Max(1, Ceiling(resetAt - current)));
    }
  }

  function DecisionFor(config: Config, rows: map<string, Row>, r: Request): Decision
    requires config.Valid()
  {
    PostgresDecision(config, Counted(rows, TableKey(r.key), WindowId(config, r.now)), r.now)
  }

  /** The table after one request; `prune` says whether old rows are deleted, as the limiter does. */
  function AfterRequest(config: Config, rows: map<string, Row>, r: Request, prune: bool): map<string, Row>
    requires config.Valid()
  {
    var windowId := WindowId(config, r.now);
    var counted := Upserted(rows, TableKey(r.key), windowId);
    if prune then Pruned(counted, windowId - 1) else counted
  }

  /** The decisions for a stream of requests of any keys, with or without pruning. */
  function Decisions(config: Config, rows: map<string, Row>, requests: seq<Request>, prune: bool): seq<Decision>
    requires config.Valid()
    decreases |requests|
  {
    if requests == [] then []
    else
      [DecisionFor(config, rows, requests[0])]
      + Decisions(config, AfterRequest(config, rows, requests[0], prune), requests[1..], prune)
  }

  /** No clock reading is more than one window behind `high` or any reading before it. */
  ghost predicate SmallLag(config: Config, high: int, requests: seq<Request>)
    requires config.Valid()
    decreases |requests|
  {
    requests != [] ==>
      var windowId := WindowId(config, requests[0].now);
      windowId >= high - 1 && SmallLag(config, Max(high, windowId), requests[1..])
  }

  /** The pruned table lacks only rows too old for any later request. */
  ghost predicate OnlyOldMissing(kept: map<string, Row>, all: map<string, Row>, high: int) {
    && (forall key :: key in kept ==> key in all && kept[key] == all[key])
    && (forall key :: key in all && key !in kept ==> all[key].windowId < high - 1)
  }

  /** Pruning never shows: the same decisions for every key, as long as clocks lag at most one window. */
  lemma PruningIsInvisible(config: Config, requests: seq<Request>, high: int)
    requires config.Valid() && SmallLag(config, high, requests)
    ensures Decisions(config, map[], requests, true) == Decisions(config, map[], requests, false)
  {
    PrunedDecisions(config, map[], map[], requests, high);
  }

  lemma {:induction false} PrunedDecisions(config: Config, kept: map<string, Row>, all: map<string, Row>,
                                           requests: seq<Request>, high: int)
    requires config.Valid() && SmallLag(config, high, requests) && OnlyOldMissing(kept, all, high)
    ensures Decisions(config, kept, requests, true) == Decisions(config, all, requests, false)
    decreases |requests|
  {
    if requests != [] {
      var key, windowId := TableKey(requests[0].key), WindowId(config, requests[0].now);
      var kept' := AfterRequest(config, kept, requests[0], true);
      var all' := AfterRequest(config, all, requests[0], false);
      assert Counted(kept, key, windowId) == Counted(all, key, windowId);
      PrunedDecisions(config, kept', all', requests[1..], Max(high, windowId));
    }
  }

  /**
    With a larger lag pruning does show: a key counted in window 0, pruned by a request of
    another key in window 2, starts again from one when a clock still reads window 0.
  */
  lemma LaggingClockSeesPruning(config: Config)
    requires config.Valid() && config.Capacity() >= 1
    ensures var late := [Request("a", 0.0), Request("b", (2 * config.windowSeconds) as real), Request("a", 0.0)];
      Decisions(config, map[], late, true) != Decisions(config, map[], late, false)
  {
    var span := config.windowSeconds as real;
    var later := (2 * config.windowSeconds) as real;
    DivisionIs(later, 2.0, span);
    DivisionIs(0.0, 0.0, span);
    var a, b := Request("a", 0.0), Request("b", later);
    assert "a" != "b";
    var one: map<string, Row> := map["a" := Row(0, 1)];
    assert AfterRequest(config, map[], a, true) == one && AfterRequest(config, map[], a, false) == one;
    var kept, all := AfterRequest(config, one, b, true), AfterRequest(config, one, b, false);
    assert "a" !in kept && all["a"] == Row(0, 1);
    assert DecisionFor(config, kept, a) != DecisionFor(config, all, a);
    ThirdDecision(config, a, b, a, true);
    ThirdDecision(config, a, b, a, false);
  }

  lemma ThirdDecision(config: Config, a: Request, b: Request, c: Request, prune: bool)
    requires config.Valid()
    ensures |Decisions(config, map[], [a, b, c], prune)| == 3
    ensures Decisions(config, map[], [a, b, c], prune)[2]
         == DecisionFor(config, AfterRequest(config, AfterRequest(config, map[], a, prune), b, prune), c)
  {
    var one := AfterRequest(config, map[], a, prune);
    var two := AfterRequest(config, one, b, prune);
    assert [a, b, c][1..] == [b, c] && [b, c][1..] == [c] && [c][1..] == [];
    assert Decisions(config, two, [c], prune) == [DecisionFor(config, two, c)];
    assert Decisions(config, one, [b, c], prune) == [DecisionFor(config, one, b), DecisionFor(config, two, c)];
  }

  /** The window ids of one key's requests. */
  function WindowIds(config: Config, times: seq<real>): seq<int>
    requires config.Valid()
  {
    seq(|times|, i requires 0 <= i < |times| => WindowId(config, times[i]))
  }

  lemma WindowIdsAreSpaced(config: Config, times: seq<real>)
    requires config.Valid() && Rising(times)
    ensures Spaced(times, WindowIds(config, times), config.windowSeconds as real)
  {
    hide WindowId;
    var span := config.windowSeconds as real;
    forall i, j | 0 <= i <= j < |times|
      ensures WindowId(config, times[i]) <= WindowId(config, times[j])
      ensures times[j] <= times[i] + span ==> WindowId(config, times[j]) <= WindowId(config, times[i]) + 1
    {
      WindowIdRises(config, times[i], times[j]);
    }
  }

  lemma WindowIdRises(config: Config, a: real, b: real)
    requires config.Valid() && a <= b
    ensures WindowId(config, a) <= WindowId(config, b)
    ensures b <= a + config.windowSeconds as real ==> WindowId(config, b) <= WindowId(config, a) + 1
  {
    var span := config.windowSeconds as real;
    DivisionRises(a, b, span);
    if b <= a + span {
      DivisionRises(b, a + span, span);
      DivisionIs(a + span, a / span + 1.0, span);
    }
  }

  lemma DivisionIs(a: real, q: real, span: real)
    requires span > 0.0 && a == q * span
    ensures a / span == q
  {
  }

  lemma DivisionRises(a: real, b: real, span: real)
    requires a <= b && span > 0.0
    ensures a / span <= b / span
  {
    assert (b - a) / span >= 0.0;
  }

  /** The row of one key after its own requests, whatever other keys do. */
  function RowAfter(config: Config, times: seq<real>): Row
    requires config.Valid() && times != []
  {
    var n := |times| - 1;
    var windowId := WindowId(config, times[n]);
    if n == 0 then Row(windowId, 1)
    else
      var before := RowAfter(config, times[..n]);
      if before.windowId == windowId then Row(windowId, before.count + 1) else Row(windowId, 1)
  }

  /** The request times of one table key. */
  function TimesOf(requests: seq<Request>, key: string): seq<real> {
    if requests == [] then []
    else
      var last := requests[|requests| - 1];
      TimesOf(requests[..|requests| - 1], key) + (if TableKey(last.key) == key then [last.now] else [])
  }

  /** The table after a stream of requests. */
  function TableAfter(config: Config, requests: seq<Request>, prune: bool): map<string, Row>
    requires config.Valid()
  {
    if requests == [] then map[]
    else AfterRequest(config, TableAfter(config, requests[..|requests| - 1], prune), requests[|requests| - 1], prune)
  }

  lemma {:induction false} TableHoldsHistories(config: Config, requests: seq<Request>, key: string)
    requires config.Valid()
    ensures key in TableAfter(config, requests, false) <==> TimesOf(requests, key) != []
    ensures key in TableAfter(config, requests, false) ==>
      TableAfter(config, requests, false)[key] == RowAfter(config, TimesOf(requests, key))
  {
    if requests != [] {
      var init, last := requests[..|requests| - 1], requests[|requests| - 1];
      TableHoldsHistories(config, init, key);
      var before := TimesOf(init, key);
      if TableKey(last.key) == key {
        assert TimesOf(requests, key) == before + [last.now];
        assert (before + [last.now])[..|before|] == before;
        assert RowAfter(config, before + [last.now])
          == Counted(TableAfter(config, init, false), key, WindowId(config, last.now));
      } else {
        assert TimesOf(requests, key) == before;
      }
    }
  }

  lemma {:induction false} DecisionAt(config: Config, prior: seq<Request>, requests: seq<Request>, prune: bool, i: nat)
    requires config.Valid() && i < |requests|
    ensures |Decisions(config, TableAfter(config, prior, prune), requests, prune)| == |requests|
    ensures Decisions(config, TableAfter(config, prior, prune), requests, prune)[i]
         == DecisionFor(config, TableAfter(config, prior + requests[..i], prune), requests[i])
    decreases |requests|
  {
    hide AfterRequest, DecisionFor;
    var next, rest := prior + [requests[0]], requests[1..];
    assert next[..|next| - 1] == prior;
    if i == 0 {
      assert prior + requests[..0] == prior;
    } else {
      assert next + rest[..i - 1] == prior + requests[..i];
    }
    hide TableAfter;
    if rest != [] {
      DecisionAt(config, next, rest, prune, if i > 0 then i - 1 else 0);
    }
  }

  /** Every decision of the pruning limiter is the one computed from the full history of its key. */
  lemma DecisionsFollowTheHistory(config: Config, requests: seq<Request>, high: int, i: nat)
    requires config.Valid() && SmallLag(config, high, requests) && i < |requests|
    ensures |Decisions(config, map[], requests, true)| == |requests|
    ensures var history := TimesOf(requests[..i + 1], TableKey(requests[i].key));
      history != []
      && Decisions(config, map[], requests, true)[i]
         == HistoryDecision(config, history)
  {
    PruningIsInvisible(config, requests, high);
    DecisionAt(config, [], requests, false, i);
    assert [] + requests[..i] == requests[..i];
    var key := TableKey(requests[i].key);
    assert requests[..i + 1][..i] == requests[..i];
    TableHoldsHistories(config, requests[..i], key);
    TableHoldsHistories(config, requests[..i + 1], key);
  }

  // ---------------------------------------------------------------------------
  // Exactly when pruning shows
  // ---------------------------------------------------------------------------

  /** The key has a row, and a later request, of whatever key, read a clock more than one window ahead of it. */
  predicate PrunedSince(config: Config, requests: seq<Request>, key: string)
    requires config.Valid()
  {
    requests != [] &&
    var init, last := requests[..|requests| - 1], requests[|requests| - 1];
    && TableKey(last.key) != key
    && (|| PrunedSince(config, init, key)
        || (TimesOf(init, key) != [] && LastWindow(config, init, key) < WindowId(config, last.now) - 1))
  }

  /** The clock window of the key's latest request. */
  function LastWindow(config: Config, requests: seq<Request>, key: string): int
    requires config.Valid() && TimesOf(requests, key) != []
  {
    WindowId(config, TimesOf(requests, key)[|TimesOf(requests, key)| - 1])
  }

  /** Request `i` reads the very window of its key's latest request, but that row was pruned in between. */
  predicate Forgotten(config: Config, requests: seq<Request>, i: nat)
    requires config.Valid() && i < |requests|
  {
    var before, key := requests[..i], TableKey(requests[i].key);
    PrunedSince(config, before, key) && TimesOf(before, key) != []
    && LastWindow(config, before, key) == WindowId(config, requests[i].now)
  }

  /** The two rows of a key differ at most in the count, and the pruned one is missing only when it was pruned. */
  ghost predicate RowsRelated(config: Config, requests: seq<Request>, key: string)
    requires config.Valid()
  {
    var kept, all := TableAfter(config, requests, true), TableAfter(config, requests, false);
    && (key in all <==> TimesOf(requests, key) != [])
    && (key in all ==> all[key].windowId == LastWindow(config, requests, key) && 1 <= all[key].count <= |requests|)
    && (key in kept <==> key in all && !PrunedSince(config, requests, key))
    && (key in kept ==> kept[key].windowId == all[key].windowId)
  }

  lemma {:induction false} TablesAreRelated(config: Config, requests: seq<Request>, key: string)
    requires config.Valid()
    ensures RowsRelated(config, requests, key)
  {
    if requests != [] {
      var init, last := requests[..|requests| - 1], requests[|requests| - 1];
      TablesAreRelated(config, init, key);
      LastWindowStep(config, requests, key);
      hide LastWindow, TimesOf, WindowId;
    }
  }

  lemma LastWindowStep(config: Config, requests: seq<Request>, key: string)
    requires config.Valid() && requests != []
    ensures var init, last := requests[..|requests| - 1], requests[|requests| - 1];
      if TableKey(last.key) == key then
        TimesOf(requests, key) != [] && LastWindow(config, requests, key) == WindowId(config, last.now)
      else
        TimesOf(requests, key) == TimesOf(init, key)
        && (TimesOf(init, key) != [] ==> LastWindow(config, requests, key) == LastWindow(config, init, key))
  {
    hide WindowId;
  }

  /** As long as nothing is forgotten the pruned table has the right counts. */
  lemma {:induction false} CountsAgreeUntilForgotten(config: Config, requests: seq<Request>, key: string)
    requires config.Valid() && forall i :: 0 <= i < |requests| ==> !Forgotten(config, requests, i)
    ensures key in TableAfter(config, requests, true) ==>
      key in TableAfter(config, requests, false)
      && TableAfter(config, requests, true)[key] == TableAfter(config, requests, false)[key]
  {
    TablesAreRelated(config, requests, key);
    if requests != [] {
      var n := |requests| - 1;
      var init, last := requests[..n], requests[n];
      forall i | 0 <= i < n ensures !Forgotten(config, init, i) {
        assert init[..i] == requests[..i];
        assert !Forgotten(config, requests, i);
      }
      CountsAgreeUntilForgotten(config, init, key);
      assert !Forgotten(config, requests, n);
      TablesAreRelated(config, init, key);
      hide LastWindow, TimesOf, WindowId, PrunedSince;
    }
  }

  /** The row that request `i` reads, after counting it. */
  function RowAt(config: Config, requests: seq<Request>, i: nat, prune: bool): Row
    requires config.Valid() && i < |requests|
  {
    Counted(TableAfter(config, requests[..i], prune), TableKey(requests[i].key), WindowId(config, requests[i].now))
  }

  lemma ForgottenCountsFromOne(config: Config, requests: seq<Request>, i: nat)
    requires config.Valid() && i < |requests|
    ensures Forgotten(config, requests, i) ==>
      1 == RowAt(config, requests, i, true).count < RowAt(config, requests, i, false).count <= |requests|
    ensures RowAt(config, requests, i, true).windowId == RowAt(config, requests, i, false).windowId
  {
    TablesAreRelated(config, requests[..i], TableKey(requests[i].key));
    hide LastWindow, TimesOf, WindowId, PrunedSince, TableAfter;
  }

  lemma RememberedCountsAgree(config: Config, requests: seq<Request>, i: nat)
    requires config.Valid() && i < |requests| && forall j :: 0 <= j <= i ==> !Forgotten(config, requests, j)
    ensures RowAt(config, requests, i, true) == RowAt(config, requests, i, false)
  {
    var before, key := requests[..i], TableKey(requests[i].key);
    forall j | 0 <= j < i ensures !Forgotten(config, before, j) {
      assert before[..j] == requests[..j];
      assert !Forgotten(config, requests, j);
    }
    assert !Forgotten(config, requests, i);
    CountsAgreeUntilForgotten(config, before, key);
    TablesAreRelated(config, before, key);
    hide LastWindow, TimesOf, WindowId, PrunedSince, TableAfter;
  }

  /**
    For every stream of requests, however far clocks lag: the pruning table counts every request
    as an unpruned one would if and only if no request returns to a window whose row was pruned.
  */
  lemma PruningShowsIffForgotten(config: Config, requests: seq<Request>)
    requires config.Valid()
    ensures (forall i :: 0 <= i < |requests| ==> RowAt(config, requests, i, true) == RowAt(config, requests, i, false))
      <==> forall i :: 0 <= i < |requests| ==> !Forgotten(config, requests, i)
  {
    hide RowAt, Forgotten;
    forall i | 0 <= i < |requests| && Forgotten(config, requests, i)
      ensures RowAt(config, requests, i, true) != RowAt(config, requests, i, false)
    {
      ForgottenCountsFromOne(config, requests, i);
    }
    if forall i :: 0 <= i < |requests| ==> !Forgotten(config, requests, i) {
      forall i | 0 <= i < |requests| ensures RowAt(config, requests, i, true) == RowAt(config, requests, i, false) {
        RememberedCountsAgree(config, requests, i);
      }
    }
  }

  lemma DecisionByRow(config: Config, requests: seq<Request>, prune: bool, i: nat)
    requires config.Valid() && i < |requests|
    ensures |Decisions(config, map[], requests, prune)| == |requests|
    ensures Decisions(config, map[], requests, prune)[i]
         == PostgresDecision(config, RowAt(config, requests, i, prune), requests[i].now)
  {
    DecisionAt(config, [], requests, prune, i);
    assert [] + requests[..i] == requests[..i];
    hide Decisions, WindowId, Counted;
  }

  /**
    For every valid configuration and every stream of requests: callers see the pruning, in some
    decision, if and only if anything can be admitted at all and some request was forgotten.
  */
  lemma DecisionsShowPruningIff(config: Config, requests: seq<Request>)
    requires config.Valid()
    ensures Decisions(config, map[], requests, true) == Decisions(config, map[], requests, false)
      <==> config.Capacity() < 1 || forall i :: 0 <= i < |requests| ==> !Forgotten(config, requests, i)
  {
    var kept, all := Decisions(config, map[], requests, true), Decisions(config, map[], requests, false);
    hide RowAt, Forgotten, Decisions;
    NumberOfDecisions(config, map[], requests, true);
    NumberOfDecisions(config, map[], requests, false);
    hide Config.Capacity;
    forall i | 0 <= i < |requests|
      ensures Forgotten(config, requests, i) && config.Capacity() >= 1 ==> kept[i] != all[i]
      ensures config.Capacity() < 1 || RowAt(config, requests, i, true) == RowAt(config, requests, i, false) ==>
        kept[i] == all[i]
    {
      OneDecisionShows(config, requests, i);
    }
    PruningShowsIffForgotten(config, requests);
  }

  lemma OneDecisionShows(config: Config, requests: seq<Request>, i: nat)
    requires config.Valid() && i < |requests|
    ensures |Decisions(config, map[], requests, true)| == |Decisions(config, map[], requests, false)| == |requests|
    ensures var (kept, all) :=
        (Decisions(config, map[], requests, true)[i], Decisions(config, map[], requests, false)[i]);
      && (Forgotten(config, requests, i) && config.Capacity() >= 1 ==> kept != all)
      && (config.Capacity() < 1 || RowAt(config, requests, i, true) == RowAt(config, requests, i, false) ==>
            kept == all)
  {
    hide RowAt, Forgotten, Decisions;
    DecisionByRow(config, requests, true, i);
    DecisionByRow(config, requests, false, i);
    ForgottenCountsFromOne(config, requests, i);
    CountsArePositive(config, requests, i);
    hide Config.Capacity, Ceiling;
  }

  lemma CountsArePositive(config: Config, requests: seq<Request>, i: nat)
    requires config.Valid() && i < |requests|
    ensures RowAt(config, requests, i, true).count >= 1 && RowAt(config, requests, i, false).count >= 1
  {
    RowCountsArePositive(config, requests[..i], true);
    RowCountsArePositive(config, requests[..i], false);
    hide TableAfter, WindowId;
  }

  lemma {:induction false} RowCountsArePositive(config: Config, requests: seq<Request>, prune: bool)
    requires config.Valid()
    ensures forall key :: key in TableAfter(config, requests, prune) ==>
      TableAfter(config, requests, prune)[key].count >= 1
  {
    if requests != [] {
      RowCountsArePositive(config, requests[..|requests| - 1], prune);
      hide WindowId;
    }
  }

  lemma {:induction false} NumberOfDecisions(config: Config, rows: map<string, Row>, requests: seq<Request>,
                                             prune: bool)
    requires config.Valid()
    ensures |Decisions(config, rows, requests, prune)| == |requests|
    decreases |requests|
  {
    hide DecisionFor, AfterRequest;
    if requests != [] {
      NumberOfDecisions(config, AfterRequest(config, rows, requests[0], prune), requests[1..], prune);
    }
  }

  /** For a clock that never runs backwards the count is the number of requests of the same clock window. */
  lemma {:induction false} PostgresCountIsRank(config: Config, times: seq<real>)
    requires config.Valid() && times != [] && Rising(times)
    ensures RowAfter(config, times).windowId == WindowIds(config, times)[|times| - 1]
    ensures RowAfter(config, times).count == multiset(WindowIds(config, times))[WindowIds(config, times)[|times| - 1]]
  {
    var n := |times| - 1;
    var ids := WindowIds(config, times);
    assert ids == ids[..n] + [ids[n]];
    if n > 0 {
      assert ids[..n] == WindowIds(config, times[..n]);
      PostgresCountIsRank(config, times[..n]);
      WindowIdsAreSpaced(config, times);
      if ids[n - 1] != ids[n] {
        assert forall i :: 0 <= i < n ==> ids[i] < ids[n];
        assert ids[n] !in ids[..n];
      }
    } else {
      assert ids[..n] == [];
    }
  }

  /** The decision for the last request of a key's history. */
  function HistoryDecision(config: Config, times: seq<real>): Decision
    requires config.Valid() && times != []
  {
    PostgresDecision(config, RowAfter(config, times), times[|times| - 1])
  }

  /** The same for windows of the clock, when it never runs backwards. */
  lemma PostgresDecidesByRank(config: Config, times: seq<real>, limit: int)
    requires config.Valid() && times != [] && Rising(times) && IsLimit(config, limit)
    ensures var ids := WindowIds(config, times);
      DecidesByRank(HistoryDecision(config, times), limit, multiset(ids)[ids[|times| - 1]])
  {
    PostgresCountIsRank(config, times);
    hide RowAfter, WindowId, Ceiling;
  }

  /** Window `w` of the clock is the time from `w` window lengths up to `w + 1`. */
  lemma ClockWindow(config: Config, now: real)
    requires config.Valid()
    ensures var (w, span) := (WindowId(config, now) as real, config.windowSeconds as real);
      w * span <= now < (w + 1.0) * span
  {
    var (q, span) := (now / config.windowSeconds as real, config.windowSeconds as real);
    assert q * span == now;
    var w := WindowId(config, now) as real;
    assert w <= q < w + 1.0;
    WindowBounds(now, q, w, w + 1.0, span);
  }

  lemma WindowBounds(now: real, q: real, w: real, next: real, span: real)
    requires span > 0.0 && now == q * span && w <= q < next
    ensures w * span <= now < next * span
  {
    Scaled(w, q, span);
    Scaled(q, next, span);
  }

  lemma Scaled(a: real, b: real, span: real)
    requires span > 0.0
    ensures a <= b ==> a * span <= b * span
    ensures a < b ==> a * span < b * span
  {
    assert (b - a) * span == b * span - a * span;
  }

  /** Keys are told apart by their first 512 characters. */
  lemma KeysShareARowIff(a: string, b: string)
    ensures TableKey(a) == TableKey(b) <==> a == b || (|a| >= 512 && |b| >= 512 && a[..512] == b[..512])
  {
    assert |a| == 512 ==> a[..512] == a;
    assert |b| == 512 ==> b[..512] == b;
  }

  /** How many requests of the interval [from, to] were allowed. */
  function PostgresAllowed(config: Config, times: seq<real>, from: real, to: real): nat
    requires config.Valid()
  {
    if times == [] then 0
    else
      var n := |times| - 1;
      PostgresAllowed(config, times[..n], from, to)
      + (if from <= times[n] <= to && HistoryDecision(config, times).allowed then 1 else 0)
  }

  lemma {:induction false} PostgresAllowedByRank(config: Config, times: seq<real>, from: real, to: real)
    requires config.Valid() && Rising(times)
    ensures PostgresAllowed(config, times, from, to)
         == Admitted(times, WindowIds(config, times), config.Capacity(), from, to)
  {
    if times != [] {
      var n := |times| - 1;
      PostgresCountIsRank(config, times);
      hide RowAfter, WindowId;
      PostgresAllowedByRank(config, times[..n], from, to);
      assert WindowIds(config, times)[..n] == WindowIds(config, times[..n]);
    }
  }

  /** Any closed interval of `window_seconds` allows at most 2 * capacity requests of one key. */
  lemma PostgresSlidingBound(config: Config, times: seq<real>, from: real)
    requires config.Valid() && config.Capacity() >= 0 && Rising(times)
    ensures PostgresAllowed(config, times, from, from + config.windowSeconds as real) <= 2 * config.Capacity()
  {
    hide Spaced, Rising, Admitted, PostgresAllowed, WindowId;
    WindowIdsAreSpaced(config, times);
    SlidingBound(times, WindowIds(config, times), config.Capacity(), config.windowSeconds as real, from);
    PostgresAllowedByRank(config, times, from, from + config.windowSeconds as real);
  }

  lemma RowAfterNext(config: Config, times: seq<real>, t: real)
    requires config.Valid() && times != []
    ensures var (row, windowId) := (RowAfter(config, times), WindowId(config, t));
      && row.windowId == WindowId(config, times[|times| - 1])
      && RowAfter(config, times + [t]) == Row(windowId, if row.windowId == windowId then row.count + 1 else 1)
  {
    assert (times + [t])[..|times|] == times;
    hide WindowId;
  }

  /**
    Retry-After is honest and tight here too: a key that stays silent for the announced seconds or
    longer is the first of a later clock window and is admitted whenever anything can be; after
    fewer whole seconds it is counted in the same window.
  */
  lemma PostgresRetryAfter(config: Config, times: seq<real>, wait: real, shorter: int)
    requires config.Valid() && times != []
    ensures var (last, row) := (times[|times| - 1], RowAfter(config, times));
      var retry := HistoryDecision(config, times).retryAfterSeconds;
      && (wait >= retry as real ==>
            && RowAfter(config, times + [last + wait]).windowId > row.windowId
            && RowAfter(config, times + [last + wait]).count == 1
            && (HistoryDecision(config, times + [last + wait]).allowed <==> config.Capacity() >= 1))
      && (1 <= shorter < retry ==>
            RowAfter(config, times + [last + shorter as real]) == Row(row.windowId, row.count + 1))
  {
    hide RowAfter, WindowId, Ceiling;
    var last := times[|times| - 1];
    RowAfterNext(config, times, last + wait);
    RowAfterNext(config, times, last + shorter as real);
    WindowAfterWait(config, RowAfter(config, times).count, last, wait, shorter);
  }

  /** Waiting the announced seconds reaches a later clock window, waiting fewer whole seconds does not. */
  lemma WindowAfterWait(config: Config, count: int, now: real, wait: real, shorter: int)
    requires config.Valid()
    ensures var windowId := WindowId(config, now);
      var retry := PostgresDecision(config, Row(windowId, count), now).retryAfterSeconds;
      && (wait >= retry as real ==> WindowId(config, now + wait) > windowId)
      && (1 <= shorter < retry ==> WindowId(config, now + shorter as real) == windowId)
  {
    var span := config.windowSeconds as real;
    var windowId := WindowId(config, now);
    var reset := ((windowId + 1) * config.windowSeconds) as real;
    var retry := Max(1, Ceiling(reset - now));
    DivisionIs(reset, (windowId + 1) as real, span);
    if wait >= retry as real {
      DivisionRises(reset, now + wait, span);
    }
    if 1 <= shorter < retry {
      DivisionRises(now, now + shorter as real, span);
      BelowReset(now + shorter as real, reset, span);
    }
  }

  lemma BelowReset(a: real, b: real, span: real)
    requires a < b && span > 0.0
    ensures a / span < b / span
  {
    assert (b - a) / span > 0.0;
  }
}
