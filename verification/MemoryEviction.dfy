/**
  The in-memory memory provider: entries live in buckets of one dictionary keyed by
  "<scope>:<scope id>:<key>", and limits are enforced over all buckets of a scope.
*/
module MemoryEviction {
  import opened Prelude
  import opened Strings

  const DAY := 86_400_000_000

  datatype Scope = User | Agent | Tenant | Application

  function ScopeName(scope: Scope): string {
    match scope
    case User => "user"
    case Agent => "agent"
    case Tenant => "tenant"
    case Application => "application"
  }

  datatype Entry = Entry(
    key: string,
    content: string,
    scope: Scope,
    scopeId: string,
    entryId: string,
    createdAt: int,
    updatedAt: int)

  // ---------------------------------------------------------------------------
  // Bucket keys
  // ---------------------------------------------------------------------------

  function ScopePrefix(scope: Scope, scopeId: string): string {
    ScopeName(scope) + ":" + scopeId + ":"
  }

  function MakeKey(key: string, scope: Scope, scopeId: string): string {
    ScopePrefix(scope, scopeId) + key
  }

  lemma FirstColonSplits(a: string, x: string, b: string, y: string)
    requires ':' !in a && ':' !in b
    requires a + ":" + x == b + ":" + y
    ensures a == b && x == y
  {
    var s, t := a + ":" + x, b + ":" + y;
    IndexOfIs(a, ':', x);
    IndexOfIs(b, ':', y);
    assert s[..|a|] == a && t[..|a|] == b;
    assert s[|a| + 1..] == x && t[|a| + 1..] == y;
  }

  lemma NamesDiffer(scope: Scope, other: Scope)
    requires ScopeName(scope) == ScopeName(other)
    ensures scope == other
  {
    assert |ScopeName(scope)| == |ScopeName(other)|;
    assert ScopeName(scope)[0] == ScopeName(other)[0];
  }

  lemma PrefixParts(scope: Scope, scopeId: string, rest: string)
    ensures ScopePrefix(scope, scopeId) + rest == ScopeName(scope) + ":" + (scopeId + ":" + rest)
  {
    hide ScopeName;
    Regroup(ScopeName(scope) + ":" + scopeId, ":", rest);
    Regroup(ScopeName(scope) + ":", scopeId, ":" + rest);
    Regroup(scopeId, ":", rest);
  }

  /** Which buckets a prefix matches, whatever the ids and keys contain. */
  lemma MatchesExactly(key: string, scope: Scope, scopeId: string, asked: Scope, askedId: string)
    ensures StartsWith(MakeKey(key, scope, scopeId), ScopePrefix(asked, askedId))
      <==> scope == asked && StartsWith(scopeId + ":" + key, askedId + ":")
  {
    var bucket, prefix := MakeKey(key, scope, scopeId), ScopePrefix(asked, askedId);
    PrefixParts(scope, scopeId, key);
    if StartsWith(bucket, prefix) {
      var rest := bucket[|prefix|..];
      assert bucket == prefix + rest;
      PrefixParts(asked, askedId, rest);
      assert ':' !in ScopeName(scope) && ':' !in ScopeName(asked);
      hide ScopePrefix, ScopeName;
      FirstColonSplits(ScopeName(scope), scopeId + ":" + key, ScopeName(asked), askedId + ":" + rest);
      NamesDiffer(scope, asked);
      assert scopeId + ":" + key == askedId + ":" + rest;
    }
    if scope == asked && StartsWith(scopeId + ":" + key, askedId + ":") {
      MatchingPrefix(ScopeName(scope) + ":", scopeId + ":" + key, askedId + ":");
      assert bucket == ScopeName(scope) + ":" + (scopeId + ":" + key);
      assert prefix == ScopeName(scope) + ":" + (askedId + ":");
    }
  }

  lemma MatchingPrefix(head: string, s: string, prefix: string)
    requires StartsWith(s, prefix)
    ensures StartsWith(head + s, head + prefix)
  {
    assert (head + s)[..|head| + |prefix|] == head + s[..|prefix|];
  }

  /** One id extends the other at a colon. */
  predicate Nested(id: string, other: string) {
    StartsWith(id + ":", other + ":") || StartsWith(other + ":", id + ":")
  }

  /** The buckets of one scope can fall under the prefix of another exactly when the ids are nested. */
  lemma ScopesOverlapIff(scope: Scope, scopeId: string, asked: Scope, askedId: string)
    ensures (exists key :: StartsWith(MakeKey(key, scope, scopeId), ScopePrefix(asked, askedId)))
      <==> scope == asked && Nested(scopeId, askedId)
  {
    var own, other := scopeId + ":", askedId + ":";
    if key :| StartsWith(MakeKey(key, scope, scopeId), ScopePrefix(asked, askedId)) {
      MatchesExactly(key, scope, scopeId, asked, askedId);
      TwoPrefixes(own + key, own, other);
    }
    if scope == asked && Nested(scopeId, askedId) {
      var key := if StartsWith(own, other) then "" else other[|own|..];
      assert StartsWith(own + key, other) by {
        if StartsWith(own, other) {
          assert own + key == own;
        } else {
          assert own + key == other;
        }
      }
      MatchesExactly(key, scope, scopeId, asked, askedId);
      assert StartsWith(MakeKey(key, scope, scopeId), ScopePrefix(asked, askedId));
    }
  }

  lemma TwoPrefixes(s: string, a: string, b: string)
    requires StartsWith(s, a) && StartsWith(s, b)
    ensures StartsWith(a, b) || StartsWith(b, a)
  {
    if |b| <= |a| {
      assert a[..|b|] == s[..|b|];
    } else {
      assert b[..|a|] == s[..|a|];
    }
  }

  /** For scope ids without ':' a bucket matches a scope prefix exactly when it belongs to the scope. */
  lemma PrefixIdentifiesScope(key: string, scope: Scope, scopeId: string, asked: Scope, askedId: string)
    requires ':' !in scopeId && ':' !in askedId
    ensures StartsWith(MakeKey(key, scope, scopeId), ScopePrefix(asked, askedId))
      <==> scope == asked && scopeId == askedId
  {
    MatchesExactly(key, scope, scopeId, asked, askedId);
    var s, prefix := scopeId + ":" + key, askedId + ":";
    if StartsWith(s, prefix) {
      assert s == askedId + ":" + s[|prefix|..];
      FirstColonSplits(scopeId, key, askedId, s[|prefix|..]);
    }
    if scopeId == askedId {
      assert s[..|prefix|] == prefix;
    }
  }

  // ---------------------------------------------------------------------------
  // Filtering and ordering entries
  // ---------------------------------------------------------------------------

  function Kept(entries: seq<Entry>, keep: Entry -> bool): seq<Entry> {
    if entries == [] then []
    else (if keep(entries[0]) then [entries[0]] else []) + Kept(entries[1..], keep)
  }

  /** Retention keeps the entries updated after the cutoff. */
  function UpdatedAfter(cutoff: int): Entry -> bool {
    (e: Entry) => e.updatedAt > cutoff
  }

  function NotAmong(ids: set<string>): Entry -> bool {
    (e: Entry) => e.entryId !in ids
  }

  lemma {:induction false} KeptSplits(a: seq<Entry>, b: seq<Entry>, keep: Entry -> bool)
    ensures Kept(a + b, keep) == Kept(a, keep) + Kept(b, keep)
  {
    if a == [] {
      assert a + b == b;
    } else {
      assert (a + b)[1..] == a[1..] + b;
      KeptSplits(a[1..], b, keep);
      Regroup(if keep(a[0]) then [a[0]] else [], Kept(a[1..], keep), Kept(b, keep));
    }
  }

  lemma {:induction false} KeptCounts(entries: seq<Entry>, keep: Entry -> bool, e: Entry)
    ensures multiset(Kept(entries, keep))[e] == if keep(e) then multiset(entries)[e] else 0
  {
    if entries != [] {
      KeptCounts(entries[1..], keep, e);
      assert entries == [entries[0]] + entries[1..];
    }
  }

  /** Stable insertion: after every entry that is not younger. */
  function Insert(sorted: seq<Entry>, e: Entry): seq<Entry> {
    if sorted == [] then [e]
    else if e.createdAt < sorted[|sorted| - 1].createdAt
    then Insert(sorted[..|sorted| - 1], e) + [sorted[|sorted| - 1]]
    else sorted + [e]
  }

  /** Python's stable `sorted` by creation time. */
  function SortedByAge(entries: seq<Entry>): seq<Entry> {
    if entries == [] then [] else Insert(SortedByAge(entries[..|entries| - 1]), entries[|entries| - 1])
  }

  ghost predicate Ascending(entries: seq<Entry>) {
    forall i, j :: 0 <= i <= j < |entries| ==> entries[i].createdAt <= entries[j].createdAt
  }

  lemma {:induction false} InsertCounts(sorted: seq<Entry>, e: Entry)
    ensures multiset(Insert(sorted, e)) == multiset(sorted) + multiset{e}
  {
    if sorted != [] && e.createdAt < sorted[|sorted| - 1].createdAt {
      InsertCounts(sorted[..|sorted| - 1], e);
      assert sorted == sorted[..|sorted| - 1] + [sorted[|sorted| - 1]];
    }
  }

  lemma {:induction false} InsertKeepsOrder(sorted: seq<Entry>, e: Entry)
    requires Ascending(sorted)
    ensures Ascending(Insert(sorted, e))
  {
    if sorted != [] && e.createdAt < sorted[|sorted| - 1].createdAt {
      var init, last := sorted[..|sorted| - 1], sorted[|sorted| - 1];
      InsertKeepsOrder(init, e);
      InsertCounts(init, e);
      var rest := Insert(init, e);
      forall i | 0 <= i < |rest| ensures rest[i].createdAt <= last.createdAt {
        assert rest[i] in multiset(rest);
        assert rest[i] in init || rest[i] == e;
      }
    }
  }

  lemma {:induction false} SortingOrders(entries: seq<Entry>)
    ensures Ascending(SortedByAge(entries))
    ensures multiset(SortedByAge(entries)) == multiset(entries)
    ensures |SortedByAge(entries)| == |entries|
  {
    if entries != [] {
      var init, last := entries[..|entries| - 1], entries[|entries| - 1];
      SortingOrders(init);
      InsertKeepsOrder(SortedByAge(init), last);
      InsertCounts(SortedByAge(init), last);
      assert entries == init + [last];
    }
    assert |multiset(SortedByAge(entries))| == |SortedByAge(entries)|;
    assert |multiset(entries)| == |entries|;
  }

  /** How many entries exceed the limit; a limit below zero evicts everything. */
  function Excess(entries: seq<Entry>, limit: int): nat {
    Min(|entries|, Max(0, |entries| - limit))
  }

  function EvictIds(entries: seq<Entry>, limit: int): set<string> {
    SortingLength(entries);
    set i | 0 <= i < Excess(entries, limit) :: SortedByAge(entries)[i].entryId
  }

  lemma SortingLength(entries: seq<Entry>)
    ensures |SortedByAge(entries)| == |entries|
  {
    SortingOrders(entries);
  }

  /** The most recent `limit` entries by creation time. */
  function Newest(entries: seq<Entry>, limit: int): seq<Entry> {
    SortingLength(entries);
    SortedByAge(entries)[Excess(entries, limit)..]
  }

  lemma NewestCount(entries: seq<Entry>, limit: int)
    ensures |Newest(entries, limit)| == Min(Max(0, limit), |entries|)
  {
    SortingLength(entries);
  }

  /** Nothing left out of `all` is younger than anything in `chosen`. */
  ghost predicate Youngest(chosen: seq<Entry>, all: seq<Entry>) {
    forall kept, evicted :: kept in chosen && evicted in all && evicted !in chosen ==>
      evicted.createdAt <= kept.createdAt
  }

  lemma AscendingSuffix(sorted: seq<Entry>, n: nat, kept: Entry, evicted: Entry)
    requires Ascending(sorted) && n <= |sorted|
    requires kept in sorted[n..] && evicted in sorted && evicted !in sorted[n..]
    ensures evicted.createdAt <= kept.createdAt
  {
    var j :| n <= j < |sorted| && sorted[j] == kept;
    assert sorted == sorted[..n] + sorted[n..];
    assert evicted in sorted[..n];
    var i :| 0 <= i < n && sorted[i] == evicted;
  }

  lemma NewestAreNewest(entries: seq<Entry>, limit: int)
    ensures Youngest(Newest(entries, limit), entries)
  {
    SortingOrders(entries);
    var sorted, n := SortedByAge(entries), Excess(entries, limit);
    forall kept, evicted | kept in sorted[n..] && evicted in entries && evicted !in sorted[n..]
      ensures evicted.createdAt <= kept.createdAt
    {
      SameMembers(sorted, entries);
      AscendingSuffix(sorted, n, kept, evicted);
    }
  }

  ghost predicate DistinctIds(entries: seq<Entry>) {
    forall i, j :: 0 <= i < j < |entries| ==> entries[i].entryId != entries[j].entryId
  }

  lemma DistinctIdsCount(entries: seq<Entry>, i: nat)
    requires DistinctIds(entries) && i < |entries|
    ensures multiset(entries)[entries[i]] == 1
  {
    assert entries == entries[..i] + ([entries[i]] + entries[i + 1..]);
    assert entries[i] !in entries[..i] && entries[i] !in entries[i + 1..];
  }

  lemma DistinctIdsIdentify(entries: seq<Entry>, e: Entry, f: Entry)
    requires DistinctIds(entries) && e in entries && f in entries && e.entryId == f.entryId
    ensures e == f && multiset(entries)[e] == 1
  {
    var i :| 0 <= i < |entries| && entries[i] == e;
    var j :| 0 <= j < |entries| && entries[j] == f;
    DistinctIdsCount(entries, i);
  }

  /** With distinct identifiers only the excess oldest entries carry an evicted identifier. */
  lemma EvictedAreOldest(entries: seq<Entry>, limit: int, e: Entry)
    requires DistinctIds(entries) && e in entries
    ensures |SortedByAge(entries)| == |entries|
    ensures e.entryId in EvictIds(entries, limit) <==> e in SortedByAge(entries)[..Excess(entries, limit)]
  {
    SortingOrders(entries);
    var sorted, n := SortedByAge(entries), Excess(entries, limit);
    if e.entryId in EvictIds(entries, limit) {
      var i :| 0 <= i < n && sorted[i].entryId == e.entryId;
      assert sorted[i] in multiset(sorted) && sorted[i] in entries;
      DistinctIdsIdentify(entries, sorted[i], e);
      assert sorted[..n][i] == e;
    }
    if e in sorted[..n] {
      var i :| 0 <= i < n && sorted[..n][i] == e;
      assert sorted[i] == e;
    }
  }

  /** Evicting by identifier keeps exactly the newest entries when identifiers are distinct. */
  lemma EvictionKeepsTheNewest(entries: seq<Entry>, limit: int)
    requires DistinctIds(entries)
    ensures multiset(Kept(entries, NotAmong(EvictIds(entries, limit)))) == multiset(Newest(entries, limit))
  {
    SortingOrders(entries);
    var sorted, n, ids := SortedByAge(entries), Excess(entries, limit), EvictIds(entries, limit);
    assert sorted == sorted[..n] + sorted[n..];
    forall e ensures multiset(Kept(entries, NotAmong(ids)))[e] == multiset(sorted[n..])[e] {
      KeptCounts(entries, NotAmong(ids), e);
      assert multiset(sorted)[e] == multiset(sorted[..n])[e] + multiset(sorted[n..])[e];
      if e in entries {
        EvictedAreOldest(entries, limit, e);
        DistinctIdsIdentify(entries, e, e);
        assert e in sorted[..n] <==> multiset(sorted[..n])[e] > 0;
      } else {
        assert multiset(entries)[e] == 0;
      }
    }
  }

  // ---------------------------------------------------------------------------
  // The provider
  // ---------------------------------------------------------------------------

  type Buckets = map<string, seq<Entry>>

  /** The entries of the buckets listed in `order` that match the prefix, in dictionary order. */
  function Gather(order: seq<string>, buckets: Buckets, prefix: string): seq<Entry> {
    if order == [] then []
    else
      (if order[0] in buckets && StartsWith(order[0], prefix) then buckets[order[0]] else [])
      + Gather(order[1..], buckets, prefix)
  }

  /** What filtering one bucket leaves: an emptied bucket is deleted. */
  function Filtered(buckets: Buckets, prefix: string, keep: Entry -> bool): Buckets {
    map k | k in buckets && (StartsWith(k, prefix) ==> Kept(buckets[k], keep) != []) ::
      if StartsWith(k, prefix) then Kept(buckets[k], keep) else buckets[k]
  }

  function Remaining(order: seq<string>, buckets: Buckets): seq<string> {
    if order == [] then []
    else (if order[0] in buckets then [order[0]] else []) + Remaining(order[1..], buckets)
  }

  lemma {:induction false} FilteringGathers(order: seq<string>, buckets: Buckets, prefix: string, keep: Entry -> bool)
    ensures var after := Filtered(buckets, prefix, keep);
      Gather(Remaining(order, after), after, prefix) == Kept(Gather(order, buckets, prefix), keep)
  {
    var after := Filtered(buckets, prefix, keep);
    if order != [] {
      FilteringGathers(order[1..], buckets, prefix, keep);
      var head := if order[0] in buckets && StartsWith(order[0], prefix) then buckets[order[0]] else [];
      KeptSplits(head, Gather(order[1..], buckets, prefix), keep);
      if order[0] in after {
        assert Remaining(order, after) == [order[0]] + Remaining(order[1..], after);
      } else {
        assert Remaining(order, after) == Remaining(order[1..], after);
      }
    }
  }

  /** The effect of `Filtered` on the buckets in `done` only. */
  function PartlyFiltered(buckets: Buckets, prefix: string, keep: Entry -> bool, done: seq<string>): Buckets {
    map k | k in buckets && (k in done && StartsWith(k, prefix) ==> Kept(buckets[k], keep) != []) ::
      if k in done && StartsWith(k, prefix) then Kept(buckets[k], keep) else buckets[k]
  }

  lemma FilterStep(buckets: Buckets, prefix: string, keep: Entry -> bool, done: seq<string>, next: string)
    requires next in buckets && next !in done
    ensures var part := PartlyFiltered(buckets, prefix, keep, done);
      && next in part && part[next] == buckets[next]
      && PartlyFiltered(buckets, prefix, keep, done + [next])
         == if !StartsWith(next, prefix) then part
            else if Kept(buckets[next], keep) != [] then part[next := Kept(buckets[next], keep)]
            else part - {next}
  {
  }

  /** Dictionary keys are the buckets, none of them empty, and each entry is filed under its own key. */
  ghost predicate WellFiled(order: seq<string>, buckets: Buckets) {
    && (forall k :: k in order <==> k in buckets)
    && (forall i, j :: 0 <= i < j < |order| ==> order[i] != order[j])
    && (forall k :: k in buckets ==> buckets[k] != [])
    && (forall k, e :: k in buckets && e in buckets[k] ==> k == MakeKey(e.key, e.scope, e.scopeId))
  }

  lemma FilteringKeepsFiling(order: seq<string>, buckets: Buckets, prefix: string, keep: Entry -> bool)
    requires WellFiled(order, buckets)
    ensures WellFiled(Remaining(order, Filtered(buckets, prefix, keep)), Filtered(buckets, prefix, keep))
  {
    var after := Filtered(buckets, prefix, keep);
    RemainingKeys(order, after);
    forall k, e | k in after && e in after[k] ensures e in buckets[k] {
      if StartsWith(k, prefix) {
        KeptCounts(buckets[k], keep, e);
        assert e in multiset(Kept(buckets[k], keep));
        assert e in multiset(buckets[k]);
      }
    }
  }

  ghost predicate SameOutside(prefix: string, before: Buckets, after: Buckets) {
    forall k :: !StartsWith(k, prefix) ==>
      (k in after <==> k in before) && (k in after ==> after[k] == before[k])
  }

  function Unexpired(entries: seq<Entry>, retention: Option<int>, now: int): seq<Entry> {
    if retention.None? then entries else Kept(entries, UpdatedAfter(now - retention.value * DAY))
  }

  lemma UnexpiredIsKept(entries: seq<Entry>, retention: Option<int>, now: int)
    requires retention.Some?
    ensures Unexpired(entries, retention, now) == Kept(entries, UpdatedAfter(now - retention.value * DAY))
  {
  }

  /** What the limit leaves of the live entries. */
  function WithinLimit(live: seq<Entry>, limit: Option<int>): seq<Entry> {
    if limit.None? then live else Kept(live, NotAmong(EvictIds(live, limit.value)))
  }

  /** A limit given with the call wins over the provider's own. */
  function Effective(given: Option<int>, own: Option<int>): Option<int> {
    if given.Some? then given else own
  }

  /** What one enforcement leaves of a scope: retention first, then the limit over what is still live. */
  function Survivors(entries: seq<Entry>, limit: Option<int>, retention: Option<int>, now: int): seq<Entry> {
    WithinLimit(Unexpired(entries, retention, now), limit)
  }

  lemma {:induction false} KeptAll(entries: seq<Entry>, keep: Entry -> bool)
    requires forall e :: e in entries ==> keep(e)
    ensures Kept(entries, keep) == entries
  {
    if entries != [] {
      KeptAll(entries[1..], keep);
    }
  }

  lemma NothingEvicted(entries: seq<Entry>, limit: int)
    requires |entries| <= limit
    ensures Kept(entries, NotAmong(EvictIds(entries, limit))) == entries
  {
    assert EvictIds(entries, limit) == {};
    KeptAll(entries, NotAmong(EvictIds(entries, limit)));
  }

  lemma {:induction false} RemainingKeys(order: seq<string>, buckets: Buckets)
    requires forall i, j :: 0 <= i < j < |order| ==> order[i] != order[j]
    ensures forall k :: k in Remaining(order, buckets) <==> k in order && k in buckets
    ensures forall i, j :: 0 <= i < j < |Remaining(order, buckets)| ==>
      Remaining(order, buckets)[i] != Remaining(order, buckets)[j]
  {
    if order != [] {
      RemainingKeys(order[1..], buckets);
      assert order[0] !in order[1..];
    }
  }

  /** The entries of one scope, whatever bucket they are in. */
  ghost predicate HoldsScope(entries: seq<Entry>, buckets: Buckets, scope: Scope, scopeId: string) {
    forall e :: e in entries
      <==> e.scope == scope && e.scopeId == scopeId && exists k :: k in buckets && e in buckets[k]
  }

  lemma {:induction false} GatherMembers(order: seq<string>, buckets: Buckets, prefix: string, e: Entry)
    ensures e in Gather(order, buckets, prefix)
      <==> exists k :: k in order && k in buckets && StartsWith(k, prefix) && e in buckets[k]
  {
    if order != [] {
      GatherMembers(order[1..], buckets, prefix, e);
      if k :| k in order && k in buckets && StartsWith(k, prefix) && e in buckets[k] {
        assert k == order[0] || k in order[1..];
      }
    }
  }

  /** For ids without ':' the matching buckets hold exactly the entries of the scope. */
  lemma GatherIsTheScope(order: seq<string>, buckets: Buckets, scope: Scope, scopeId: string)
    requires WellFiled(order, buckets) && ':' !in scopeId
    requires ColonFree(buckets)
    ensures HoldsScope(Gather(order, buckets, ScopePrefix(scope, scopeId)), buckets, scope, scopeId)
  {
    var prefix := ScopePrefix(scope, scopeId);
    forall e ensures e in Gather(order, buckets, prefix)
      <==> e.scope == scope && e.scopeId == scopeId && exists k :: k in buckets && e in buckets[k]
    {
      GatherMembers(order, buckets, prefix, e);
      if k :| k in buckets && e in buckets[k] {
        PrefixIdentifiesScope(e.key, e.scope, e.scopeId, scope, scopeId);
      }
    }
  }

  ghost predicate ColonFree(buckets: Buckets) {
    forall k, e :: k in buckets && e in buckets[k] ==> ':' !in e.scopeId
  }

  /** Of the unexpired entries only the newest stay, as many as the limit allows. */
  ghost predicate OnlyTheNewestStay(all: seq<Entry>, kept: seq<Entry>, limit: Option<int>, retention: Option<int>,
                                    now: int) {
    var live := Unexpired(all, retention, now);
    && (forall e :: e in live <==> e in all && (retention.None? || e.updatedAt > now - retention.value * DAY))
    && (forall e :: e in kept ==> e in live)
    && |kept| == (if limit.None? then |live| else Min(Max(0, limit.value), |live|))
    && Youngest(kept, live)
  }

  /**
    One enforcement as a whole: the entries of the scope, wherever they are filed, shrink from
    `all` to `kept`, the newest of the unexpired ones, and no other scope loses or gains anything.
  */
  ghost predicate Enforced(all: seq<Entry>, kept: seq<Entry>, before: Buckets, after: Buckets, scope: Scope,
                           scopeId: string,
                           limit: Option<int>, retention: Option<int>, now: int)
  {
    && HoldsScope(all, before, scope, scopeId) && HoldsScope(kept, after, scope, scopeId)
    && OnlyTheNewestStay(all, kept, limit, retention, now)
    && (forall key, other, otherId :: ':' !in otherId && (other != scope || otherId != scopeId) ==>
          SameBucket(before, after, MakeKey(key, other, otherId)))
  }

  ghost predicate SameBucket(before: Buckets, after: Buckets, k: string) {
    (k in after <==> k in before) && (k in after ==> after[k] == before[k])
  }

  ghost predicate AllUpdatedAfter(entries: seq<Entry>, cutoff: int) {
    forall e :: e in entries ==> e.updatedAt > cutoff
  }

  class InMemoryProvider {
    const maxEntries: Option<int>
    const retentionDays: Option<int>
    var order: seq<string>   // dictionary keys in insertion order
    var buckets: Buckets

    ghost predicate Valid()
      reads this
    {
      WellFiled(order, buckets)
    }

    ghost function Contents(scope: Scope, scopeId: string): seq<Entry>
      reads this
    {
      Gather(order, buckets, ScopePrefix(scope, scopeId))
    }

    constructor (maxEntries: Option<int>, retentionDays: Option<int>)
      ensures Valid() && buckets == map[]
      ensures this.maxEntries == maxEntries && this.retentionDays == retentionDays
    {
      this.maxEntries, this.retentionDays := maxEntries, retentionDays;
      order, buckets := [], map[];
    }

    method Store(entry: Entry)
      requires Valid()
      modifies this
      ensures Valid()
      ensures var key := MakeKey(entry.key, entry.scope, entry.scopeId);
        && buckets == old(buckets)[key := (if key in old(buckets) then old(buckets)[key] else []) + [entry]]
        && order == if key in old(buckets) then old(order) else old(order) + [key]
    {
      var fullKey := MakeKey(entry.key, entry.scope, entry.scopeId);
      if fullKey !in buckets {
        order, buckets := order + [fullKey], buckets[fullKey := []];
      }
      buckets := buckets[fullKey := buckets[fullKey] + [entry]];
    }

    /** Rebuilds or deletes every bucket that matches the prefix, one after the other. */
    method FilterBuckets(prefix: string, keep: Entry -> bool)
      requires Valid()
      modifies this
      ensures Valid()
      ensures buckets == Filtered(old(buckets), prefix, keep)
      ensures order == Remaining(old(order), buckets)
    {
      var todo := order;
      ghost var before := buckets;
      for i := 0 to |todo|
        invariant order == todo
        invariant buckets == PartlyFiltered(before, prefix, keep, todo[..i])
      {
        var bucketKey := todo[i];
        assert todo[..i + 1] == todo[..i] + [bucketKey];
        FilterStep(before, prefix, keep, todo[..i], bucketKey);
        if StartsWith(bucketKey, prefix) {
          var kept := Kept(buckets[bucketKey], keep);
          if kept != [] {
            buckets := buckets[bucketKey := kept];
          } else {
            buckets := buckets - {bucketKey};
          }
        }
      }
      assert todo[..|todo|] == todo;
      assert buckets == Filtered(before, prefix, keep);
      order := Remaining(order, buckets);
      FilteringKeepsFiling(todo, before, prefix, keep);
    }

    /** One pass over the scope: what it holds afterwards is the filtered list, in the same order. */
    method FilterScope(scope: Scope, scopeId: string, keep: Entry -> bool)
      requires Valid()
      modifies this
      ensures Valid()
      ensures Contents(scope, scopeId) == Kept(old(Contents(scope, scopeId)), keep)
      ensures SameOutside(ScopePrefix(scope, scopeId), old(buckets), buckets)
    {
      FilteringGathers(order, buckets, ScopePrefix(scope, scopeId), keep);
      FilterBuckets(ScopePrefix(scope, scopeId), keep);
    }

    /** Retention over one scope; every bucket outside the prefix keeps its list. */
    method PurgeExpired(scope: Scope, scopeId: string, retention: Option<int>, now: int)
      requires Valid()
      modifies this
      ensures Valid()
      ensures Contents(scope, scopeId) == Unexpired(old(Contents(scope, scopeId)), retention, now)
      ensures SameOutside(ScopePrefix(scope, scopeId), old(buckets), buckets)
    {
      if retention.Some? {
        UnexpiredIsKept(Contents(scope, scopeId), retention, now);
        hide WellFiled, SameOutside, Unexpired, UpdatedAfter, Kept, Gather;
        FilterScope(scope, scopeId, UpdatedAfter(now - retention.value * DAY));
      }
    }

    /** The limit over one scope; every bucket outside the prefix keeps its list. */
    method EvictOldest(scope: Scope, scopeId: string, limit: Option<int>)
      requires Valid()
      modifies this
      ensures Valid()
      ensures Contents(scope, scopeId) == WithinLimit(old(Contents(scope, scopeId)), limit)
      ensures SameOutside(ScopePrefix(scope, scopeId), old(buckets), buckets)
    {
      if limit.Some? {
        var live := Gather(order, buckets, ScopePrefix(scope, scopeId));
        var keep := NotAmong(EvictIds(live, limit.value));
        assert WithinLimit(live, limit) == Kept(live, keep);
        if |live| - limit.value > 0 {
          FilterScope(scope, scopeId, keep);
        } else {
          NothingEvicted(live, limit.value);
        }
      }
    }

    /** No bucket is left empty, and every bucket outside the prefix keeps its list. */
    method Enforce(scope: Scope, scopeId: string, maxEntries: Option<int>, retentionDays: Option<int>, now: int)
      requires Valid()
      modifies this
      ensures Valid()
      ensures Contents(scope, scopeId)
        == Survivors(old(Contents(scope, scopeId)), Effective(maxEntries, this.maxEntries),
                     Effective(retentionDays, this.retentionDays), now)
      ensures SameOutside(ScopePrefix(scope, scopeId), old(buckets), buckets)
      // a policy given with the call wins over the provider's own, which applies otherwise
      ensures old(DistinctIds(Contents(scope, scopeId))) ==>
        && (maxEntries.Some? ==> |Contents(scope, scopeId)| <= Max(0, maxEntries.value))
        && (maxEntries.None? && this.maxEntries.Some? ==> |Contents(scope, scopeId)| <= Max(0, this.maxEntries.value))
        && (retentionDays.Some? ==> AllUpdatedAfter(Contents(scope, scopeId), now - retentionDays.value * DAY))
        && (retentionDays.None? && this.retentionDays.Some? ==>
              AllUpdatedAfter(Contents(scope, scopeId), now - this.retentionDays.value * DAY))
      // what this means when no scope id contains ':' and the entries of the scope differ in id
      ensures old(ColonFree(buckets)) && ':' !in scopeId && old(DistinctIds(Contents(scope, scopeId))) ==>
        Enforced(old(Contents(scope, scopeId)), Contents(scope, scopeId), old(buckets), buckets, scope, scopeId,
                 Effective(maxEntries, this.maxEntries), Effective(retentionDays, this.retentionDays), now)
    {
      ghost var order0, buckets0 := order, buckets;
      hide WellFiled, SameOutside, Survivors, Unexpired, WithinLimit, Enforced, ColonFree, DistinctIds, Gather;
      PurgeExpired(scope, scopeId, Effective(retentionDays, this.retentionDays), now);
      EvictOldest(scope, scopeId, Effective(maxEntries, this.maxEntries));
      SurvivorsInTwoSteps(Gather(order0, buckets0, ScopePrefix(scope, scopeId)), Effective(maxEntries, this.maxEntries),
                          Effective(retentionDays, this.retentionDays), now);
      OutsideComposes(ScopePrefix(scope, scopeId), buckets0, buckets);
      if DistinctIds(Gather(order0, buckets0, ScopePrefix(scope, scopeId))) {
        SurvivorsObeyThePolicy(Gather(order0, buckets0, ScopePrefix(scope, scopeId)),
                               Effective(maxEntries, this.maxEntries),
                               Effective(retentionDays, this.retentionDays), now);
      }
      if ColonFree(buckets0) && ':' !in scopeId && DistinctIds(Gather(order0, buckets0, ScopePrefix(scope, scopeId))) {
        EnforcementKeepsTheNewest(order0, buckets0, order, buckets, scope, scopeId,
                                  Effective(maxEntries, this.maxEntries),
                                  Effective(retentionDays, this.retentionDays), now);
      }
    }
  }

  /**
    What enforcement means for one scope whose ids carry no ':' and whose entry ids differ:
    of the unexpired entries exactly the newest min(limit, live) by creation time are left.
  */
  lemma SurvivorsAreTheNewest(entries: seq<Entry>, limit: Option<int>, retention: Option<int>, now: int)
    requires DistinctIds(entries)
    ensures var live := Unexpired(entries, retention, now);
      && (forall e :: multiset(live)[e] ==
            if retention.None? || e.updatedAt > now - retention.value * DAY then multiset(entries)[e] else 0)
      && (limit.None? ==> Survivors(entries, limit, retention, now) == live)
      && (limit.Some? ==>
            && multiset(Survivors(entries, limit, retention, now)) == multiset(Newest(live, limit.value))
            && |Survivors(entries, limit, retention, now)| == Min(Max(0, limit.value), |live|))
      && Youngest(Survivors(entries, limit, retention, now), live)
  {
    var live := Unexpired(entries, retention, now);
    if retention.Some? {
      var keep := UpdatedAfter(now - retention.value * DAY);
      KeptStaysDistinct(entries, keep);
      forall e ensures multiset(live)[e] == if keep(e) then multiset(entries)[e] else 0 {
        KeptCounts(entries, keep, e);
      }
    }
    if limit.Some? {
      EvictionKeepsTheNewest(live, limit.value);
      NewestCount(live, limit.value);
      NewestAreNewest(live, limit.value);
      SameMembers(Survivors(entries, limit, retention, now), Newest(live, limit.value));
    }
  }

  lemma SurvivorsInTwoSteps(entries: seq<Entry>, limit: Option<int>, retention: Option<int>, now: int)
    ensures Survivors(entries, limit, retention, now) == WithinLimit(Unexpired(entries, retention, now), limit)
  {
  }

  lemma OutsideComposes(prefix: string, before: Buckets, after: Buckets)
    ensures forall middle :: SameOutside(prefix, before, middle) && SameOutside(prefix, middle, after) ==>
      SameOutside(prefix, before, after)
  {
  }

  lemma KeptMembers(entries: seq<Entry>, keep: Entry -> bool)
    ensures forall e :: e in Kept(entries, keep) <==> e in entries && keep(e)
  {
    forall e ensures e in Kept(entries, keep) <==> e in entries && keep(e) {
      KeptCounts(entries, keep, e);
      assert e in Kept(entries, keep) <==> multiset(Kept(entries, keep))[e] > 0;
      assert e in entries <==> multiset(entries)[e] > 0;
    }
  }

  lemma LiveMembers(entries: seq<Entry>, retention: Option<int>, now: int)
    ensures forall e ::
      e in Unexpired(entries, retention, now) <==>
        e in entries && (retention.None? || e.updatedAt > now - retention.value * DAY)
  {
    if retention.Some? {
      KeptMembers(entries, UpdatedAfter(now - retention.value * DAY));
    }
  }

  lemma WithinLimitMembers(live: seq<Entry>, limit: Option<int>)
    ensures forall e :: e in WithinLimit(live, limit) ==> e in live
  {
    if limit.Some? {
      KeptMembers(live, NotAmong(EvictIds(live, limit.value)));
    }
  }

  lemma SurvivorsCount(entries: seq<Entry>, limit: Option<int>, retention: Option<int>, now: int)
    requires DistinctIds(entries)
    ensures var (live, kept) := (Unexpired(entries, retention, now), Survivors(entries, limit, retention, now));
      |kept| == (if limit.None? then |live| else Min(Max(0, limit.value), |live|)) && Youngest(kept, live)
  {
    SurvivorsAreTheNewest(entries, limit, retention, now);
    hide Unexpired, Survivors, DistinctIds, Youngest, Newest;
  }

  lemma OnlyTheNewestSurvive(entries: seq<Entry>, limit: Option<int>, retention: Option<int>, now: int)
    requires DistinctIds(entries)
    ensures OnlyTheNewestStay(entries, Survivors(entries, limit, retention, now), limit, retention, now)
  {
    hide Unexpired, WithinLimit, DistinctIds, Youngest;
    LiveMembers(entries, retention, now);
    WithinLimitMembers(Unexpired(entries, retention, now), limit);
    SurvivorsCount(entries, limit, retention, now);
  }

  lemma SurvivorsObeyThePolicy(entries: seq<Entry>, limit: Option<int>, retention: Option<int>, now: int)
    requires DistinctIds(entries)
    ensures var kept := Survivors(entries, limit, retention, now);
      && (limit.Some? ==> |kept| <= Max(0, limit.value))
      && (retention.Some? ==> AllUpdatedAfter(kept, now - retention.value * DAY))
  {
    OnlyTheNewestSurvive(entries, limit, retention, now);
    hide Survivors, Unexpired, Youngest;
  }

  /** Enforcement adds no entry, so ids stay free of ':'. */
  lemma EnforcementKeepsColonFree(
    order: seq<string>, before: Buckets, order': seq<string>, after: Buckets, scope: Scope, scopeId: string)
    requires WellFiled(order', after) && ColonFree(before) && SameOutside(ScopePrefix(scope, scopeId), before, after)
    requires forall e :: e in Gather(order', after, ScopePrefix(scope, scopeId)) ==>
      e in Gather(order, before, ScopePrefix(scope, scopeId))
    ensures ColonFree(after)
  {
    var prefix := ScopePrefix(scope, scopeId);
    forall k, e | k in after && e in after[k] ensures ':' !in e.scopeId {
      if StartsWith(k, prefix) {
        GatherMembers(order', after, prefix, e);
        GatherMembers(order, before, prefix, e);
      } else {
        assert k in before && before[k] == after[k];
      }
    }
  }

  lemma EnforcementKeepsTheNewest(
    order: seq<string>, before: Buckets, order': seq<string>, after: Buckets, scope: Scope, scopeId: string,
    limit: Option<int>, retention: Option<int>, now: int)
    requires WellFiled(order, before) && WellFiled(order', after) && ColonFree(before) && ':' !in scopeId
    requires DistinctIds(Gather(order, before, ScopePrefix(scope, scopeId)))
    requires Gather(order', after, ScopePrefix(scope, scopeId))
          == Survivors(Gather(order, before, ScopePrefix(scope, scopeId)), limit, retention, now)
    requires SameOutside(ScopePrefix(scope, scopeId), before, after)
    ensures Enforced(Gather(order, before, ScopePrefix(scope, scopeId)),
                     Gather(order', after, ScopePrefix(scope, scopeId)),
                     before, after, scope, scopeId, limit, retention, now)
  {
    hide WellFiled, DistinctIds, HoldsScope, Gather, Survivors, SameOutside, Youngest, Nested, ColonFree;
    var all, kept := Gather(order, before, ScopePrefix(scope, scopeId)),
      Gather(order', after, ScopePrefix(scope, scopeId));
    OnlyTheNewestSurvive(all, limit, retention, now);
    assert forall e :: e in kept ==> e in all;
    EnforcementKeepsColonFree(order, before, order', after, scope, scopeId);
    hide OnlyTheNewestStay;
    GatherIsTheScope(order, before, scope, scopeId);
    GatherIsTheScope(order', after, scope, scopeId);
    forall key, other, otherId | ':' !in otherId && (other != scope || otherId != scopeId)
      ensures SameBucket(before, after, MakeKey(key, other, otherId))
    {
      ColonFreeIdsAreNotNested(otherId, scopeId);
      OtherScopesAreUntouched(before, after, scope, scopeId, key, other, otherId);
    }
  }

  lemma SameMembers(a: seq<Entry>, b: seq<Entry>)
    requires multiset(a) == multiset(b)
    ensures |a| == |b| && forall e :: e in a <==> e in b
  {
    assert |multiset(a)| == |a| && |multiset(b)| == |b|;
    forall e ensures e in a <==> e in b {
      assert e in multiset(a) <==> e in a;
      assert e in multiset(b) <==> e in b;
    }
  }

  lemma {:induction false} KeptStaysDistinct(entries: seq<Entry>, keep: Entry -> bool)
    requires DistinctIds(entries)
    ensures DistinctIds(Kept(entries, keep))
  {
    if entries != [] {
      KeptStaysDistinct(entries[1..], keep);
      forall e | e in Kept(entries[1..], keep) ensures e in entries[1..] {
        KeptCounts(entries[1..], keep, e);
        assert e in multiset(Kept(entries[1..], keep));
        assert e in multiset(entries[1..]);
      }
      forall e | e in entries[1..] ensures e.entryId != entries[0].entryId {
        var i :| 0 <= i < |entries| - 1 && entries[1..][i] == e;
        assert entries[i + 1] == e;
      }
      var head := if keep(entries[0]) then [entries[0]] else [];
      assert Kept(entries, keep) == head + Kept(entries[1..], keep);
    }
  }

  /** A scope whose id is not nested with the enforced one keeps all of its buckets, list for list. */
  lemma OtherScopesAreUntouched(
    before: Buckets, after: Buckets, scope: Scope, scopeId: string, key: string, other: Scope, otherId: string)
    requires SameOutside(ScopePrefix(scope, scopeId), before, after)
    requires scope != other || !Nested(otherId, scopeId)
    ensures SameBucket(before, after, MakeKey(key, other, otherId))
  {
    ScopesOverlapIff(other, otherId, scope, scopeId);
  }

  /** Different ids without ':' are never nested. */
  lemma ColonFreeIdsAreNotNested(id: string, other: string)
    requires ':' !in id && ':' !in other
    ensures Nested(id, other) <==> id == other
  {
    if StartsWith(id + ":", other + ":") {
      FirstColonSplits(id, "", other, (id + ":")[|other| + 1..]);
    } else if StartsWith(other + ":", id + ":") {
      FirstColonSplits(other, "", id, (other + ":")[|id| + 1..]);
    }
  }

  /** With ':' in an id this fails: a limit of one on user "a" evicts an older entry of user "a:b". */
  lemma ColonIdsOverlap(mine: Entry, other: Entry, now: int)
    requires mine.scope == User && mine.scopeId == "a" && other.scope == User && other.scopeId == "a:b"
    requires ':' !in mine.key && mine.entryId != other.entryId && other.createdAt < mine.createdAt
    ensures var (k, k') := (MakeKey(mine.key, User, "a"), MakeKey(other.key, User, "a:b"));
      var buckets := map[k := [mine], k' := [other]];
      && WellFiled([k, k'], buckets)
      && Gather([k, k'], buckets, ScopePrefix(User, "a")) == [mine, other]
      && Survivors([mine, other], Some(1), None, now) == [mine]
  {
    var prefix := ScopePrefix(User, "a");
    var (k, k') := (MakeKey(mine.key, User, "a"), MakeKey(other.key, User, "a:b"));
    var buckets := map[k := [mine], k' := [other]];
    assert k' == prefix + ("b:" + other.key);
    assert k[|prefix|..] == mine.key && k'[|prefix|..] == "b:" + other.key;
    assert ("b:" + other.key)[1] == ':';
    assert StartsWith(k, prefix) && StartsWith(k', prefix);
    hide ScopePrefix, MakeKey;
    GatherTwo(k, k', buckets, prefix);
    assert [mine] + [other] == [mine, other];
    NewestOfTwo(mine, other, now);
  }

  lemma GatherTwo(k: string, k': string, buckets: Buckets, prefix: string)
    requires k in buckets && k' in buckets && StartsWith(k, prefix) && StartsWith(k', prefix)
    ensures Gather([k, k'], buckets, prefix) == buckets[k] + buckets[k']
  {
    assert [k, k'][1..] == [k'] && [k'][1..] == [];
    assert Gather([k'], buckets, prefix) == buckets[k'] + Gather([], buckets, prefix);
  }

  lemma NewestOfTwo(newer: Entry, older: Entry, now: int)
    requires newer.entryId != older.entryId && older.createdAt < newer.createdAt
    ensures Survivors([newer, older], Some(1), None, now) == [newer]
  {
    var (both, one) := ([newer, older], Survivors([newer, older], Some(1), None, now));
    SurvivorsAreTheNewest(both, Some(1), None, now);
    WithinLimitMembers(both, Some(1));
    assert Unexpired(both, None, now) == both;
    hide WithinLimit, Newest;
    assert |one| == 1 && one == [one[0]] && one[0] in one;
    assert both[0] == newer && both[1] == older && newer in both;
    if newer !in one {
      assert false;
    }
  }
}
