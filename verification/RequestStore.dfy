/** The request queue as a value: its operations, its invariant and its limits. */
module RequestStore {
  import opened Wrappers
  import opened RequestOrder

  /** How long a request stays in the queue, in the unit of the clock. */
  const MAX_TIME_IN_QUEUE := 60 * 60 * 12
  const MAX_FILES := 10

  datatype Entry = Entry(id: int, created: int)

  datatype Store = Store(
    byId: map<int, Request>,
    byRequest: map<OutgoingRequest, Entry>,
    pending: set<OutgoingRequest>,
    requestedSize: nat)

  const EMPTY := Store(map[], map[], {}, 0)

  // ----- the representation invariant -----

  ghost function TotalSize(s: set<OutgoingRequest>): nat {
    if s == {} then 0 else
    var x :| x in s;
    x.size + TotalSize(s - {x})
  }

  lemma TotalWithout(s: set<OutgoingRequest>, x: OutgoingRequest)
    requires x in s
    ensures TotalSize(s) == x.size + TotalSize(s - {x})
    decreases s
  {
    var y :| y in s && TotalSize(s) == y.size + TotalSize(s - {y});
    if x != y {
      TotalWithout(s - {y}, x);
      TotalWithout(s - {x}, y);
      assert s - {y} - {x} == s - {x} - {y};
    }
  }

  lemma TotalWith(s: set<OutgoingRequest>, x: OutgoingRequest)
    requires x !in s
    ensures TotalSize(s + {x}) == TotalSize(s) + x.size
  {
    TotalWithout(s + {x}, x);
    assert s + {x} - {x} == s;
  }

  lemma {:induction false} TotalSplit(s: set<OutgoingRequest>, t: set<OutgoingRequest>)
    requires t <= s
    ensures TotalSize(s) == TotalSize(t) + TotalSize(s - t)
    decreases t
  {
    if t == {} {
      assert s - t == s;
    } else {
      var x :| x in t;
      TotalWithout(s, x);
      TotalWithout(t, x);
      TotalSplit(s - {x}, t - {x});
      assert s - {x} - (t - {x}) == s - t;
    }
  }

  /** Every request in one map is in the other one, under the same id. */
  ghost predicate MutuallyInverse(st: Store) {
    && (forall k :: k in st.byRequest ==> st.byRequest[k].id in st.byId && Key(st.byId[st.byRequest[k].id]) == k)
    && (forall id :: id in st.byId ==>
          && st.byId[id].id == id
          && Key(st.byId[id]) in st.byRequest
          && st.byRequest[Key(st.byId[id])].id == id)
  }

  ghost predicate Valid(st: Store) {
    && MutuallyInverse(st)
    && st.pending <= st.byRequest.Keys
    && st.requestedSize == TotalSize(st.pending)
  }

  /** No two outstanding requests ask for the same block. */
  lemma NoDuplicateRequests(st: Store, id: int, other: int)
    requires Valid(st) && id in st.byId && other in st.byId && id != other
    ensures Key(st.byId[id]) != Key(st.byId[other])
  {
  }

  // ----- insert, remove, expire -----

  function Insert(st: Store, r: Request, now: int): (Store, Option<Request>) {
    if Key(r) in st.byRequest then (st, None)
    else (st.(byId := st.byId[r.id := r], byRequest := st.byRequest[Key(r) := Entry(r.id, now)]), Some(r))
  }

  lemma InsertKeepsValid(st: Store, r: Request, now: int)
    requires Valid(st) && r.id !in st.byId
    ensures Valid(Insert(st, r, now).0)
    ensures Insert(st, r, now).1.Some? <==> forall id :: id in st.byId ==> Key(st.byId[id]) != Key(r)
    ensures var (after, inserted) := Insert(st, r, now);
            && (inserted.None? ==> after == st)
            && (inserted.Some? ==>
                  && inserted.value == r && after.pending == st.pending
                  && after.byId.Keys == st.byId.Keys + {r.id} && after.byId[r.id] == r
                  && after.byRequest[Key(r)] == Entry(r.id, now)
                  && forall id :: id in st.byId ==> after.byId[id] == st.byId[id])
  {
  }

  /** The responses that the source's asserts let through. */
  predicate MayRemove(st: Store, id: int) {
    id in st.byId ==> Key(st.byId[id]) in st.pending
  }

  function Remove(st: Store, id: int): Store
    requires MayRemove(st, id)
    requires id in st.byId ==> st.byId[id].size <= st.requestedSize
  {
    if id !in st.byId then st
    else
      var k := Key(st.byId[id]);
      Store(st.byId - {id}, st.byRequest - {k}, st.pending - {k}, st.requestedSize - k.size)
  }

  /** The size of a pending request can always be taken off the total. */
  lemma PendingSizeBound(st: Store, k: OutgoingRequest)
    requires Valid(st) && k in st.pending
    ensures k.size <= st.requestedSize
  {
    TotalWithout(st.pending, k);
  }

  lemma RemoveKeepsValid(st: Store, id: int)
    requires Valid(st) && MayRemove(st, id)
    requires id in st.byId ==> st.byId[id].size <= st.requestedSize
    ensures Valid(Remove(st, id))
    ensures Remove(st, id).byId.Keys == st.byId.Keys - {id}
    ensures forall i :: i in st.byId && i != id ==>
              && Remove(st, id).byId[i] == st.byId[i]
              && (Key(st.byId[i]) in Remove(st, id).pending <==> Key(st.byId[i]) in st.pending)
    ensures forall k :: k in Remove(st, id).byRequest ==>
              k in st.byRequest && Remove(st, id).byRequest[k] == st.byRequest[k]
  {
    if id in st.byId {
      TotalWithout(st.pending, Key(st.byId[id]));
    }
  }

  predicate IsFresh(e: Entry, now: int) {
    now - e.created < MAX_TIME_IN_QUEUE
  }

  /** An entry lives for exactly the time that the queue allows, from when it was made. */
  lemma FreshIff(id: int, created: int, now: int)
    ensures IsFresh(Entry(id, created), now) <==> now < created + 12 * 3600
    ensures IsFresh(Entry(id, now), now)
  {
  }

  /** The ids of the entries that are not too old. */
  function WaitingIds(st: Store, now: int): set<int> {
    set k | k in st.byRequest && IsFresh(st.byRequest[k], now) :: st.byRequest[k].id
  }

  /** The pending requests that are too old. */
  function DroppedPending(st: Store, now: int): set<OutgoingRequest>
    requires st.pending <= st.byRequest.Keys
  {
    var ids := WaitingIds(st, now);
    set k | k in st.pending && st.byRequest[k].id !in ids
  }

  lemma DroppedSize(st: Store, now: int)
    requires Valid(st)
    ensures TotalSize(DroppedPending(st, now)) <= st.requestedSize
    ensures TotalSize(st.pending - DroppedPending(st, now)) == st.requestedSize - TotalSize(DroppedPending(st, now))
  {
    TotalSplit(st.pending, DroppedPending(st, now));
  }

  ghost function Expire(st: Store, now: int): Store
    requires Valid(st)
  {
    var ids := WaitingIds(st, now);
    var dropped := DroppedPending(st, now);
    DroppedSize(st, now);
    Store(
      map id | id in st.byId && id in ids :: st.byId[id],
      map k | k in st.byRequest && st.byRequest[k].id in ids :: st.byRequest[k],
      st.pending - dropped,
      st.requestedSize - TotalSize(dropped))
  }

  /** Expiry drops exactly the over-age entries, from all three collections. */
  lemma ExpireIsExact(st: Store, now: int)
    requires Valid(st)
    ensures Valid(Expire(st, now))
    ensures forall k :: k in Expire(st, now).byRequest <==> k in st.byRequest && IsFresh(st.byRequest[k], now)
    ensures forall k :: k in Expire(st, now).byRequest ==> Expire(st, now).byRequest[k] == st.byRequest[k]
    ensures forall id :: id in Expire(st, now).byId <==>
              id in st.byId && IsFresh(st.byRequest[Key(st.byId[id])], now)
    ensures forall id :: id in Expire(st, now).byId ==> Expire(st, now).byId[id] == st.byId[id]
    ensures forall k :: k in Expire(st, now).pending <==> k in st.pending && IsFresh(st.byRequest[k], now)
  {
    forall k | k in st.byRequest
      ensures st.byRequest[k].id in WaitingIds(st, now) <==> IsFresh(st.byRequest[k], now)
    {
      if st.byRequest[k].id in WaitingIds(st, now) {
        var j :| j in st.byRequest && IsFresh(st.byRequest[j], now) && st.byRequest[j].id == st.byRequest[k].id;
        assert j == k;
      }
    }
    DroppedSize(st, now);
  }

  // ----- releasing requests -----

  function Names(s: set<OutgoingRequest>): set<string> {
    set k | k in s :: k.name
  }

  /** The limits that the source promises to keep. */
  ghost predicate WithinLimits(st: Store, maxPending: nat, maxStorage: nat) {
    && |st.pending| <= maxPending
    && st.requestedSize <= maxStorage
    && |Names(st.pending)| <= MAX_FILES
  }

  /** One of the three breaks of the release loop. */
  predicate Blocked(st: Store, names: set<string>, k: OutgoingRequest, slots: int, maxStorage: nat) {
    || (|names| >= MAX_FILES && k.name !in names)
    || slots <= 0
    || st.requestedSize + k.size > maxStorage
  }

  function Admit(st: Store, k: OutgoingRequest): Store {
    st.(pending := st.pending + {k}, requestedSize := st.requestedSize + k.size)
  }

  /** What the loop does to the store, over the keys it has still to visit. */
  function ReleaseFrom(st: Store, ks: seq<OutgoingRequest>, slots: int, maxStorage: nat): (Store, seq<OutgoingRequest>)
    decreases |ks|
  {
    if ks == [] || Blocked(st, Names(st.pending), ks[0], slots, maxStorage) then (st, [])
    else if ks[0] in st.pending then ReleaseFrom(st, ks[1..], slots, maxStorage)
    else
      var (after, more) := ReleaseFrom(Admit(st, ks[0]), ks[1..], slots - 1, maxStorage);
      (after, [ks[0]] + more)
  }

  ghost function Release(st: Store, maxPending: nat, maxStorage: nat): (Store, seq<OutgoingRequest>) {
    ReleaseFrom(st, InOrder(st.byRequest.Keys), maxPending - |st.pending|, maxStorage)
  }

  lemma NamesWith(s: set<OutgoingRequest>, k: OutgoingRequest)
    ensures Names(s + {k}) == Names(s) + {k.name}
  {
    assert forall n :: n in Names(s + {k}) <==> n in Names(s) || n == k.name by {
      assert k in s + {k};
      assert forall x :: x in s ==> x in s + {k};
    }
  }

  /** A waiting request is blocked exactly if releasing it would break one of the limits. */
  lemma BlockedIff(st: Store, k: OutgoingRequest, maxPending: nat, maxStorage: nat)
    requires WithinLimits(st, maxPending, maxStorage) && k !in st.pending
    ensures Blocked(st, Names(st.pending), k, maxPending - |st.pending|, maxStorage)
            <==> !WithinLimits(Admit(st, k), maxPending, maxStorage)
  {
    NamesWith(st.pending, k);
    assert k.name in Names(st.pending) ==> Names(st.pending) + {k.name} == Names(st.pending);
  }

  lemma NamesOfSubset(s: set<OutgoingRequest>, t: set<OutgoingRequest>)
    requires s <= t
    ensures |Names(s)| <= |Names(t)|
  {
    assert Names(s) <= Names(t);
    SubsetSize(Names(s), Names(t));
  }

  lemma {:induction false} SubsetSize<T>(s: set<T>, t: set<T>)
    requires s <= t
    ensures |s| <= |t|
    decreases s
  {
    if s != {} {
      var x :| x in s;
      SubsetSize(s - {x}, t - {x});
    }
  }

  lemma AdmitKeepsLimits(st: Store, k: OutgoingRequest, slots: int, maxPending: nat, maxStorage: nat)
    requires WithinLimits(st, maxPending, maxStorage) && k !in st.pending
    requires slots <= maxPending - |st.pending|
    requires !Blocked(st, Names(st.pending), k, slots, maxStorage)
    ensures WithinLimits(Admit(st, k), maxPending, maxStorage)
    ensures slots - 1 <= maxPending - |Admit(st, k).pending|
  {
    NamesWith(st.pending, k);
  }

  ghost function Elements<T>(s: seq<T>): set<T> {
    set x | x in s
  }

  /** `after` is st with the waiting requests `out` added to the pending ones, and nothing else. */
  ghost predicate Releases(st: Store, after: Store, out: seq<OutgoingRequest>) {
    && after.byId == st.byId
    && after.byRequest == st.byRequest
    && after.pending == st.pending + Elements(out)
    && Elements(out) <= st.byRequest.Keys - st.pending
  }

  lemma ReleasesStep(st: Store, k: OutgoingRequest, after: Store, more: seq<OutgoingRequest>)
    requires k in st.byRequest && k !in st.pending
    requires Releases(Admit(st, k), after, more)
    ensures Releases(st, after, [k] + more)
  {
    assert Elements([k] + more) == {k} + Elements(more);
  }

  lemma {:induction false} ReleaseFromAdds(st: Store, ks: seq<OutgoingRequest>, slots: int, maxStorage: nat)
    requires Elements(ks) <= st.byRequest.Keys
    ensures var p := ReleaseFrom(st, ks, slots, maxStorage); Releases(st, p.0, p.1)
    decreases |ks|
  {
    if ks == [] || Blocked(st, Names(st.pending), ks[0], slots, maxStorage) {
      assert Elements<OutgoingRequest>([]) == {};
    } else {
      var k, tail := ks[0], ks[1..];
      assert k in Elements(ks) && Elements(tail) <= Elements(ks);
      if k in st.pending {
        ReleaseFromAdds(st, tail, slots, maxStorage);
      } else {
        ReleaseFromAdds(Admit(st, k), tail, slots - 1, maxStorage);
        var p := ReleaseFrom(Admit(st, k), tail, slots - 1, maxStorage);
        ReleasesStep(st, k, p.0, p.1);
      }
    }
  }

  lemma {:induction false} ReleaseFromCounts(st: Store, ks: seq<OutgoingRequest>, slots: int, maxStorage: nat)
    requires st.requestedSize == TotalSize(st.pending)
    ensures var after := ReleaseFrom(st, ks, slots, maxStorage).0;
            after.requestedSize == TotalSize(after.pending)
    decreases |ks|
  {
    if ks != [] && !Blocked(st, Names(st.pending), ks[0], slots, maxStorage) {
      if ks[0] in st.pending {
        ReleaseFromCounts(st, ks[1..], slots, maxStorage);
      } else {
        TotalWith(st.pending, ks[0]);
        ReleaseFromCounts(Admit(st, ks[0]), ks[1..], slots - 1, maxStorage);
      }
    }
  }

  lemma {:induction false} ReleaseFromLimits(
    st: Store, ks: seq<OutgoingRequest>, slots: int, maxPending: nat, maxStorage: nat)
    requires WithinLimits(st, maxPending, maxStorage)
    requires slots <= maxPending - |st.pending|
    ensures WithinLimits(ReleaseFrom(st, ks, slots, maxStorage).0, maxPending, maxStorage)
    decreases |ks|
  {
    if ks != [] && !Blocked(st, Names(st.pending), ks[0], slots, maxStorage) {
      if ks[0] in st.pending {
        ReleaseFromLimits(st, ks[1..], slots, maxPending, maxStorage);
      } else {
        AdmitKeepsLimits(st, ks[0], slots, maxPending, maxStorage);
        ReleaseFromLimits(Admit(st, ks[0]), ks[1..], slots - 1, maxPending, maxStorage);
      }
    }
  }

  /** The requests of ks that are not pending, in the same order. */
  function NotPending(ks: seq<OutgoingRequest>, pending: set<OutgoingRequest>): seq<OutgoingRequest> {
    if ks == [] then []
    else (if ks[0] in pending then [] else [ks[0]]) + NotPending(ks[1..], pending)
  }

  ghost predicate Distinct<T>(s: seq<T>) {
    forall i, j :: 0 <= i < j < |s| ==> s[i] != s[j]
  }

  lemma {:induction false} NotPendingMore(ks: seq<OutgoingRequest>, pending: set<OutgoingRequest>, k: OutgoingRequest)
    requires k !in ks
    ensures NotPending(ks, pending + {k}) == NotPending(ks, pending)
  {
    if ks != [] {
      NotPendingMore(ks[1..], pending, k);
    }
  }

  /**
   * Exactly what is released: the waiting requests before the place where the loop stopped, and
   * it stopped at the end of the queue or at a request that is blocked in the state it left behind.
   */
  lemma {:induction false} ReleaseFromIsMaximalPrefix(
    st: Store, ks: seq<OutgoingRequest>, slots: int, maxStorage: nat) returns (stop: nat)
    requires Distinct(ks)
    ensures stop <= |ks|
    ensures var (after, out) := ReleaseFrom(st, ks, slots, maxStorage);
            && out == NotPending(ks[..stop], st.pending)
            && (stop < |ks| ==> Blocked(after, Names(after.pending), ks[stop], slots - |out|, maxStorage))
    decreases |ks|
  {
    if ks == [] || Blocked(st, Names(st.pending), ks[0], slots, maxStorage) {
      stop := 0;
    } else {
      var k, tail := ks[0], ks[1..];
      var next := if k in st.pending then st else Admit(st, k);
      var left := if k in st.pending then slots else slots - 1;
      var inner := ReleaseFromIsMaximalPrefix(next, tail, left, maxStorage);
      stop := inner + 1;
      assert ks[..stop] == [k] + tail[..inner];
      assert ks[..stop][1..] == tail[..inner];
      if k !in st.pending {
        assert forall i :: 0 <= i < inner ==> tail[..inner][i] == ks[i + 1];
        NotPendingMore(tail[..inner], st.pending, k);
      }
    }
  }

  lemma SortedIsDistinct(s: set<OutgoingRequest>)
    ensures Distinct(InOrder(s))
  {
    IncreasingIsSorted(InOrder(s));
    var ks := InOrder(s);
    forall i, j | 0 <= i < j < |ks| ensures ks[i] != ks[j] {
      LessTotal(ks[i], ks[j]);
    }
  }

  lemma {:induction false} NotPendingPrefix(ks: seq<OutgoingRequest>, n: nat, pending: set<OutgoingRequest>)
    requires n <= |ks|
    ensures NotPending(ks[..n], pending) <= NotPending(ks, pending)
  {
    if n > 0 {
      assert ks[..n][1..] == ks[1..][..n - 1];
      NotPendingPrefix(ks[1..], n - 1, pending);
    }
  }

  lemma ReleasesKeepsValid(st: Store, after: Store, out: seq<OutgoingRequest>)
    requires Valid(st) && Releases(st, after, out)
    requires after.requestedSize == TotalSize(after.pending)
    ensures Valid(after)
  {
  }

  /** What is released is a prefix, in key order, of the requests that were waiting. */
  lemma ReleaseIsPrefix(st: Store, maxPending: nat, maxStorage: nat)
    ensures Release(st, maxPending, maxStorage).1 <= NotPending(InOrder(st.byRequest.Keys), st.pending)
  {
    var ks := InOrder(st.byRequest.Keys);
    SortedIsDistinct(st.byRequest.Keys);
    ReleaseFromIsPrefix(st, ks, maxPending - |st.pending|, maxStorage);
  }

  lemma ReleaseFromIsPrefix(st: Store, ks: seq<OutgoingRequest>, slots: int, maxStorage: nat)
    requires Distinct(ks)
    ensures ReleaseFrom(st, ks, slots, maxStorage).1 <= NotPending(ks, st.pending)
  {
    var stop := ReleaseFromIsMaximalPrefix(st, ks, slots, maxStorage);
    NotPendingPrefix(ks, stop, st.pending);
  }

  lemma ReleaseIsDistinct(st: Store, maxPending: nat, maxStorage: nat)
    ensures Distinct(Release(st, maxPending, maxStorage).1)
  {
    var ks := InOrder(st.byRequest.Keys);
    SortedIsDistinct(st.byRequest.Keys);
    NotPendingDistinct(ks, st.pending);
    ReleaseIsPrefix(st, maxPending, maxStorage);
    PrefixDistinct(Release(st, maxPending, maxStorage).1, NotPending(ks, st.pending));
  }

  lemma PrefixDistinct<T>(s: seq<T>, t: seq<T>)
    requires s <= t && Distinct(t)
    ensures Distinct(s)
  {
  }

  /** A release only moves waiting requests to the pending ones. */
  lemma ReleaseAdds(st: Store, maxPending: nat, maxStorage: nat)
    ensures var p := Release(st, maxPending, maxStorage); Releases(st, p.0, p.1)
  {
    ReleaseFromAdds(st, InOrder(st.byRequest.Keys), maxPending - |st.pending|, maxStorage);
  }

  lemma ReleaseCounts(st: Store, maxPending: nat, maxStorage: nat)
    requires st.requestedSize == TotalSize(st.pending)
    ensures var after := Release(st, maxPending, maxStorage).0;
            after.requestedSize == TotalSize(after.pending)
  {
    ReleaseFromCounts(st, InOrder(st.byRequest.Keys), maxPending - |st.pending|, maxStorage);
  }

  lemma ReleaseKeepsValid(st: Store, maxPending: nat, maxStorage: nat)
    requires Valid(st)
    ensures Valid(Release(st, maxPending, maxStorage).0)
  {
    ReleaseAdds(st, maxPending, maxStorage);
    ReleaseCounts(st, maxPending, maxStorage);
    var p := Release(st, maxPending, maxStorage);
    ReleasesKeepsValid(st, p.0, p.1);
  }

  /** Throttling: a release keeps all three limits. */
  lemma ReleaseKeepsLimits(st: Store, maxPending: nat, maxStorage: nat)
    requires WithinLimits(st, maxPending, maxStorage)
    ensures WithinLimits(Release(st, maxPending, maxStorage).0, maxPending, maxStorage)
  {
    ReleaseFromLimits(st, InOrder(st.byRequest.Keys), maxPending - |st.pending|, maxPending, maxStorage);
  }

  lemma {:induction false} NotPendingDistinct(ks: seq<OutgoingRequest>, pending: set<OutgoingRequest>)
    requires Distinct(ks)
    ensures Distinct(NotPending(ks, pending))
    ensures forall k :: k in NotPending(ks, pending) <==> k in ks && k !in pending
  {
    if ks != [] {
      NotPendingDistinct(ks[1..], pending);
      var ns := NotPending(ks[1..], pending);
      assert forall i :: 0 <= i < |ns| ==> ns[i] in ks[1..];
      assert forall k :: k in ks <==> k == ks[0] || k in ks[1..];
    }
  }

  // ----- when anything is released at all -----

  /** Some waiting request is reached, and nothing up to it is blocked in the state before the call. */
  ghost predicate ReachesWaiting(st: Store, ks: seq<OutgoingRequest>, slots: int, maxStorage: nat, j: nat) {
    && j < |ks| && ks[j] !in st.pending
    && forall i :: 0 <= i <= j ==> !Blocked(st, Names(st.pending), ks[i], slots, maxStorage)
  }

  /** A call releases something exactly when it gets to some waiting request without being blocked. */
  lemma {:induction false} ReleasesSomethingIff(st: Store, ks: seq<OutgoingRequest>, slots: int, maxStorage: nat)
    ensures ReleaseFrom(st, ks, slots, maxStorage).1 != []
            <==> exists j: nat :: ReachesWaiting(st, ks, slots, maxStorage, j)
    decreases |ks|
  {
    if ks == [] {
    } else if Blocked(st, Names(st.pending), ks[0], slots, maxStorage) {
      forall j: nat ensures !ReachesWaiting(st, ks, slots, maxStorage, j) {
      }
    } else if ks[0] !in st.pending {
      assert ReachesWaiting(st, ks, slots, maxStorage, 0);
    } else {
      ReleasesSomethingIff(st, ks[1..], slots, maxStorage);
      forall j: nat | ReachesWaiting(st, ks[1..], slots, maxStorage, j)
        ensures ReachesWaiting(st, ks, slots, maxStorage, j + 1)
      {
        assert forall i :: 0 <= i <= j + 1 ==> i == 0 || ks[i] == ks[1..][i - 1];
      }
      forall j: nat | ReachesWaiting(st, ks, slots, maxStorage, j)
        ensures j > 0 && ReachesWaiting(st, ks[1..], slots, maxStorage, j - 1)
      {
        assert forall i :: 0 <= i <= j - 1 ==> ks[1..][i] == ks[i + 1];
      }
    }
  }

  /** With nothing pending, a first request that fits is released. */
  lemma FirstRequestIsReleased(st: Store, maxPending: nat, maxStorage: nat)
    requires Valid(st) && st.pending == {} && st.byRequest != map[]
    requires maxPending > 0 && InOrder(st.byRequest.Keys)[0].size <= maxStorage
    ensures Release(st, maxPending, maxStorage).1 != []
  {
    var ks := InOrder(st.byRequest.Keys);
    assert Names(st.pending) == {};
    assert ReachesWaiting(st, ks, maxPending, maxStorage, 0);
    ReleasesSomethingIff(st, ks, maxPending, maxStorage);
  }

  /**
   * Head-of-line blocking: a pending request at the head of the order has its own size counted
   * twice, and so nothing is released although a waiting request would be released by itself.
   */
  lemma PendingRequestBlocks(st: Store, k: OutgoingRequest, maxPending: nat, maxStorage: nat)
    requires Valid(st) && WithinLimits(st, maxPending, maxStorage) && k in st.byRequest && k !in st.pending
    requires !Blocked(st, Names(st.pending), k, maxPending - |st.pending|, maxStorage)
    requires var head := InOrder(st.byRequest.Keys)[0];
             head in st.pending && st.requestedSize + head.size > maxStorage
    ensures Release(st, maxPending, maxStorage).1 == []
    ensures ReleaseFrom(st, [k], maxPending - |st.pending|, maxStorage).1 == [k]
  {
    var slots := maxPending - |st.pending|;
    assert [k][1..] == [];
    assert ReleaseFrom(Admit(st, k), [], slots - 1, maxStorage).1 == [];
  }
}
