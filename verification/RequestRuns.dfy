/** Request ids, and what holds over every run of the request queue. */
module RequestRuns {
  import opened Wrappers
  import opened RequestOrder
  import opened RequestStore
  import OutgoingRequests

  datatype BlockInfo = BlockInfo(folder: string, name: string, hash: Hash, size: nat, offset: int)

  function RequestFromBlock(id: int, b: BlockInfo): Request {
    Request(id, b.folder, b.name, b.offset, b.size, b.hash, false)
  }

  /** The request is for that very block. */
  predicate AsksFor(r: Request, b: BlockInfo) {
    && r.folder == b.folder && r.name == b.name && r.offset == b.offset && r.size == b.size && r.hash == b.hash
    && !r.fromTemporary
  }

  /** Consecutive ids after the given one, one for each block, and each request is for its block. */
  method RequestsFromBlocks(baseRequestId: int, blocks: seq<BlockInfo>) returns (res: seq<Request>)
    ensures res == NumberedRequests(baseRequestId, blocks)
    ensures |res| == |blocks|
    ensures forall i :: 0 <= i < |res| ==> res[i].id == baseRequestId + 1 + i && AsksFor(res[i], blocks[i])
  {
    var requestId := baseRequestId;
    res := [];
    for i := 0 to |blocks|
      invariant requestId == baseRequestId + i
      invariant res == NumberedRequests(baseRequestId, blocks[..i])
    {
      requestId := requestId + 1;
      res := res + [RequestFromBlock(requestId, blocks[i])];
    }
    assert blocks[..|blocks|] == blocks;
  }

  /** Requests of two blocks have one key, and so only one of them is queued, exactly if the blocks are equal. */
  lemma SameKeyIff(r: Request, s: Request, b: BlockInfo, c: BlockInfo)
    requires AsksFor(r, b) && AsksFor(s, c)
    ensures Key(r) == Key(s) <==> b == c
  {
  }

  function NumberedRequests(base: int, blocks: seq<BlockInfo>): (rs: seq<Request>)
    ensures |rs| == |blocks|
    ensures forall i :: 0 <= i < |rs| ==> rs[i] == RequestFromBlock(base + 1 + i, blocks[i])
  {
    seq(|blocks|, i requires 0 <= i < |blocks| => RequestFromBlock(base + 1 + i, blocks[i]))
  }

  /** Inserting a list of requests; duplicates of queued requests are dropped. */
  function InsertAll(st: Store, rs: seq<Request>, now: int): Store
    decreases |rs|
  {
    if rs == [] then st else InsertAll(Insert(st, rs[0], now).0, rs[1..], now)
  }

  /** The requests of the list that are queued, in order. */
  function Inserted(st: Store, rs: seq<Request>, now: int): seq<Request>
    decreases |rs|
  {
    if rs == [] then []
    else
      var (after, r) := Insert(st, rs[0], now);
      (if r.Some? then [r.value] else []) + Inserted(after, rs[1..], now)
  }

  /** Some queued request is for that block. */
  ghost predicate IsQueued(st: Store, b: BlockInfo) {
    exists id :: id in st.byId && AsksFor(st.byId[id], b)
  }

  /** What is queued stays queued while further requests are inserted. */
  lemma {:induction false} KeysStay(st: Store, rs: seq<Request>, now: int)
    ensures st.byRequest.Keys <= InsertAll(st, rs, now).byRequest.Keys
    decreases |rs|
  {
    if rs != [] {
      KeysStay(Insert(st, rs[0], now).0, rs[1..], now);
    }
  }

  lemma {:induction false} KeysGetIn(st: Store, rs: seq<Request>, now: int, i: nat)
    requires i < |rs|
    ensures Key(rs[i]) in InsertAll(st, rs, now).byRequest
    decreases |rs|
  {
    var after := Insert(st, rs[0], now).0;
    if i == 0 {
      KeysStay(after, rs[1..], now);
    } else {
      KeysGetIn(after, rs[1..], now, i - 1);
    }
  }

  /** After asking, every block has a queued request that is for it, and nothing in the queue is too old. */
  lemma EveryBlockQueued(s: System, blocks: seq<BlockInfo>, now: int, b: BlockInfo)
    requires RequestStore.Valid(s.store) && IdsUpTo(s.store, s.requestId)
    ensures b in blocks ==> IsQueued(Ask(s, blocks, now).store, b)
    ensures forall k :: k in Ask(s, blocks, now).store.byRequest ==>
              IsFresh(Ask(s, blocks, now).store.byRequest[k], now)
  {
    hide Expire, InsertAll;
    var kept, rs := Expire(s.store, now), NumberedRequests(s.requestId, blocks);
    ExpireIsExact(s.store, now);
    ExpireKeepsIds(s.store, now, s.requestId);
    InsertAllKeeps(kept, rs, now, s.requestId);
    InsertAllFresh(kept, rs, now);
    var after := InsertAll(kept, rs, now);
    if b in blocks {
      var i :| 0 <= i < |blocks| && blocks[i] == b;
      KeysGetIn(kept, rs, now, i);
      var id := after.byRequest[Key(rs[i])].id;
      assert id in after.byId && Key(after.byId[id]) == Key(rs[i]);
      assert AsksFor(after.byId[id], b);
    }
  }

  lemma {:induction false} InsertAllFresh(st: Store, rs: seq<Request>, now: int)
    requires forall k :: k in st.byRequest ==> IsFresh(st.byRequest[k], now)
    ensures forall k :: k in InsertAll(st, rs, now).byRequest ==> IsFresh(InsertAll(st, rs, now).byRequest[k], now)
    decreases |rs|
  {
    if rs != [] {
      InsertAllFresh(Insert(st, rs[0], now).0, rs[1..], now);
    }
  }

  /** The next request of a list that has been inserted up to number i. */
  lemma InsertStep(st: Store, rs: seq<Request>, i: nat, now: int)
    requires i < |rs|
    ensures var (after, r) := Insert(st, rs[i], now);
            && InsertAll(st, rs[i..], now) == InsertAll(after, rs[i + 1..], now)
            && Inserted(st, rs[i..], now)
               == (if r.Some? then [r.value] else []) + Inserted(after, rs[i + 1..], now)
  {
    assert rs[i..][1..] == rs[i + 1..];
  }

  /** Nothing that is queued, and nothing earlier in the list, asks for the block of request i. */
  ghost predicate IsNew(st: Store, rs: seq<Request>, i: nat)
    requires i < |rs|
  {
    Key(rs[i]) !in st.byRequest && forall k :: 0 <= k < i ==> Key(rs[k]) != Key(rs[i])
  }

  /** Exactly the requests for new blocks are queued, each block once. */
  lemma {:induction false} InsertedIff(st: Store, rs: seq<Request>, now: int, i: nat, n: int)
    requires NumberedFrom(rs, n) && i < |rs|
    ensures rs[i] in Inserted(st, rs, now) <==> IsNew(st, rs, i)
    decreases |rs|
  {
    var (after, r) := Insert(st, rs[0], now);
    InsertedIds(after, rs[1..], now, n + 1);
    if i > 0 {
      InsertedIff(after, rs[1..], now, i - 1, n + 1);
      assert IsNew(st, rs, i) ==> IsNew(after, rs[1..], i - 1);
      if IsNew(after, rs[1..], i - 1) {
        forall k | 0 <= k < i ensures Key(rs[k]) != Key(rs[i]) {
          if k > 0 {
            assert Key(rs[1..][k - 1]) != Key(rs[1..][i - 1]);
          }
        }
      }
    }
  }

  lemma {:induction false} InsertedIds(st: Store, rs: seq<Request>, now: int, n: int)
    requires NumberedFrom(rs, n)
    ensures forall r :: r in Inserted(st, rs, now) ==> r in rs && r.id > n
    decreases |rs|
  {
    if rs != [] {
      InsertedIds(Insert(st, rs[0], now).0, rs[1..], now, n + 1);
    }
  }

  ghost predicate IdsUpTo(st: Store, n: int) {
    forall id :: id in st.byId ==> id <= n
  }

  /** The ids of rs are n + 1, n + 2, and so on: all unused when no id is above n. */
  ghost predicate NumberedFrom(rs: seq<Request>, n: int) {
    forall i :: 0 <= i < |rs| ==> rs[i].id == n + 1 + i
  }

  /** One insertion with the next id, which is always unused. */
  lemma InsertNext(st: Store, r: Request, now: int)
    requires Valid(st) && IdsUpTo(st, r.id - 1)
    ensures r.id !in st.byId
    ensures var after := Insert(st, r, now).0;
            && Valid(after) && IdsUpTo(after, r.id)
            && after.pending == st.pending && after.requestedSize == st.requestedSize
            && st.byId.Keys <= after.byId.Keys <= st.byId.Keys + {r.id}
            && (forall id :: id in st.byId ==> after.byId[id] == st.byId[id])
  {
    InsertKeepsValid(st, r, now);
  }

  /** Requests that were there stay, and every new one has an id above n. */
  ghost predicate Grows(st: Store, after: Store, n: int) {
    && after.pending == st.pending && after.requestedSize == st.requestedSize
    && (forall id :: id in st.byId ==> id in after.byId && after.byId[id] == st.byId[id])
    && (forall id :: id in after.byId && id !in st.byId ==> id > n)
  }

  lemma {:induction false} InsertAllKeeps(st: Store, rs: seq<Request>, now: int, n: int)
    requires Valid(st) && IdsUpTo(st, n) && NumberedFrom(rs, n)
    ensures Valid(InsertAll(st, rs, now)) && IdsUpTo(InsertAll(st, rs, now), n + |rs|)
    ensures Grows(st, InsertAll(st, rs, now), n)
    decreases |rs|
  {
    if rs != [] {
      InsertNext(st, rs[0], now);
      InsertAllKeeps(Insert(st, rs[0], now).0, rs[1..], now, n + 1);
    }
  }

  lemma ExpireKeepsIds(st: Store, now: int, n: int)
    requires Valid(st) && IdsUpTo(st, n)
    ensures IdsUpTo(Expire(st, now), n)
  {
    hide Expire;
    ExpireIsExact(st, now);
  }

  lemma NothingInserted(st: Store, rs: seq<Request>, now: int)
    ensures InsertAll(st, rs[|rs|..], now) == st && Inserted(st, rs[|rs|..], now) == []
  {
  }

  /** The part of the program state that requests live in. */
  class BepState {
    var requestId: int
    const outgoingRequests: OutgoingRequests.OutgoingRequests

    ghost predicate Valid()
      reads this, outgoingRequests
    {
      RequestStore.Valid(outgoingRequests.View()) && IdsUpTo(outgoingRequests.View(), requestId)
    }

    constructor ()
      ensures Valid() && requestId == 0 && outgoingRequests.View() == EMPTY
      ensures fresh(outgoingRequests)
    {
      requestId := 0;
      outgoingRequests := new OutgoingRequests.OutgoingRequests();
    }

    method InsertRequests(requests: seq<Request>, now: int) returns (inserted: seq<Request>)
      requires Valid() && NumberedFrom(requests, requestId)
      modifies outgoingRequests
      ensures outgoingRequests.View() == InsertAll(old(Expire(outgoingRequests.View(), now)), requests, now)
      ensures inserted == Inserted(old(Expire(outgoingRequests.View(), now)), requests, now)
      ensures RequestStore.Valid(outgoingRequests.View())
      ensures IdsUpTo(outgoingRequests.View(), requestId + |requests|)
    {
      hide Expire, Insert, InsertAll, Inserted, RequestStore.Valid;
      ExpireKeepsIds(outgoingRequests.View(), now, requestId);
      outgoingRequests.RemoveOldRequests(now);
      ghost var begin := outgoingRequests.View();
      inserted := [];
      assert requests[0..] == requests;
      for i := 0 to |requests|
        invariant RequestStore.Valid(outgoingRequests.View())
        invariant IdsUpTo(outgoingRequests.View(), requestId + i)
        invariant InsertAll(begin, requests, now) == InsertAll(outgoingRequests.View(), requests[i..], now)
        invariant Inserted(begin, requests, now) == inserted + Inserted(outgoingRequests.View(), requests[i..], now)
      {
        InsertNext(outgoingRequests.View(), requests[i], now);
        InsertStep(outgoingRequests.View(), requests, i, now);
        var r := outgoingRequests.Insert(requests[i], now);
        if r.Some? {
          inserted := inserted + [r.value];
        }
      }
      NothingInserted(outgoingRequests.View(), requests, now);
    }

    /** Numbers the blocks, moves the counter past every number used, and queues what is new. */
    method StoreOutgoingRequests(blocks: seq<BlockInfo>, now: int) returns (inserted: seq<Request>)
      requires Valid()
      modifies this, outgoingRequests
      ensures Valid()
      ensures System(outgoingRequests.View(), requestId) ==
              old(Ask(System(outgoingRequests.View(), requestId), blocks, now))
      ensures inserted ==
              old(Inserted(Expire(outgoingRequests.View(), now), NumberedRequests(requestId, blocks), now))
      ensures forall b :: b in blocks ==> IsQueued(outgoingRequests.View(), b)
    {
      ghost var begin := System(outgoingRequests.View(), requestId);
      var base := requestId;
      var requests := RequestsFromBlocks(base, blocks);
      inserted := InsertRequests(requests, now);
      var maxRequestId := MaxId(requests, base);
      requestId := requestId + (maxRequestId - base);
      forall b | b in blocks ensures IsQueued(outgoingRequests.View(), b) {
        EveryBlockQueued(begin, blocks, now, b);
      }
    }
  }

  /** The largest id, or the given default when there is none. */
  method MaxId(rs: seq<Request>, base: int) returns (m: int)
    requires NumberedFrom(rs, base)
    ensures m == base + |rs|
  {
    m := base;
    for i := 0 to |rs|
      invariant m == base + i
    {
      if rs[i].id > m {
        m := rs[i].id;
      }
    }
  }

  // ----- every run -----

  datatype System = System(store: Store, requestId: int)

  datatype Op =
    | AskFor(blocks: seq<BlockInfo>, now: int)
    | Throttle
    | Respond(id: int)

  /** A message about blocks that are not stored. */
  ghost function Ask(s: System, blocks: seq<BlockInfo>, now: int): System
    requires RequestStore.Valid(s.store)
  {
    System(InsertAll(Expire(s.store, now), NumberedRequests(s.requestId, blocks), now), s.requestId + |blocks|)
  }

  /** The state of a run: the queue, the counter and the ids sent so far. */
  datatype Run = Run(system: System, sent: seq<int>)

  function IdsOf(st: Store, ks: seq<OutgoingRequest>): (ids: seq<int>)
    requires forall k :: k in ks ==> k in st.byRequest
    ensures |ids| == |ks| && forall i :: 0 <= i < |ks| ==> ids[i] == st.byRequest[ks[i]].id
  {
    seq(|ks|, i requires 0 <= i < |ks| => assert ks[i] in ks; st.byRequest[ks[i]].id)
  }

  ghost predicate Holds(r: Run, maxPending: nat, maxStorage: nat) {
    var st := r.system.store;
    && RequestStore.Valid(st)
    && WithinLimits(st, maxPending, maxStorage)
    && IdsUpTo(st, r.system.requestId)
    && Distinct(r.sent)
    && (forall id :: id in r.sent ==> id <= r.system.requestId)
    && WaitingUnsent(st, r.sent)
  }

  ghost predicate MayStep(r: Run, op: Op) {
    op.Respond? ==> MayRemove(r.system.store, op.id)
  }

  ghost function Step(r: Run, op: Op, maxPending: nat, maxStorage: nat): Run
    requires Holds(r, maxPending, maxStorage) && MayStep(r, op)
  {
    var st := r.system.store;
    match op
    case AskFor(blocks, now) => Run(Ask(r.system, blocks, now), r.sent)
    case Throttle =>
      ReleasedWereWaiting(st, maxPending, maxStorage);
      var p := Release(st, maxPending, maxStorage);
      Run(r.system.(store := p.0), r.sent + IdsOf(st, p.1))
    case Respond(id) =>
      assert id in st.byId ==> st.byId[id].size <= st.requestedSize by {
        if id in st.byId { PendingSizeBound(st, Key(st.byId[id])); }
      }
      Run(r.system.(store := Remove(st, id)), r.sent)
  }

  /** What is waiting has not been sent. */
  ghost predicate WaitingUnsent(st: Store, sent: seq<int>) {
    forall k :: k in st.byRequest && k !in st.pending ==> st.byRequest[k].id !in sent
  }

  lemma ExpiredUnsent(st: Store, now: int, sent: seq<int>)
    requires RequestStore.Valid(st) && WaitingUnsent(st, sent)
    ensures WaitingUnsent(Expire(st, now), sent)
  {
    hide Expire;
    ExpireIsExact(st, now);
  }

  lemma InsertedUnsent(st: Store, after: Store, sent: seq<int>, n: int)
    requires MutuallyInverse(st) && MutuallyInverse(after) && Grows(st, after, n)
    requires WaitingUnsent(st, sent) && forall id :: id in sent ==> id <= n
    ensures WaitingUnsent(after, sent)
  {
    forall k | k in after.byRequest && k !in after.pending ensures after.byRequest[k].id !in sent {
      var id := after.byRequest[k].id;
      if id in st.byId {
        assert st.byId[id] == after.byId[id] && Key(st.byId[id]) == k;
        assert st.byRequest[k].id == id;
      }
    }
  }

  lemma GrowsWithinLimits(st: Store, after: Store, n: int, maxPending: nat, maxStorage: nat)
    requires Grows(st, after, n) && WithinLimits(st, maxPending, maxStorage)
    ensures WithinLimits(after, maxPending, maxStorage)
  {
  }

  lemma AskHolds(r: Run, blocks: seq<BlockInfo>, now: int, maxPending: nat, maxStorage: nat)
    requires Holds(r, maxPending, maxStorage)
    ensures Holds(Run(Ask(r.system, blocks, now), r.sent), maxPending, maxStorage)
  {
    hide Expire, InsertAll, WithinLimits, IdsUpTo, Distinct, WaitingUnsent, Grows, MutuallyInverse;
    var st, n := r.system.store, r.system.requestId;
    ExpireIsExact(st, now);
    ExpireKeepsIds(st, now, n);
    ExpireWithinLimits(st, now, maxPending, maxStorage);
    ExpiredUnsent(st, now, r.sent);
    var kept, rs := Expire(st, now), NumberedRequests(n, blocks);
    InsertAllKeeps(kept, rs, now, n);
    GrowsWithinLimits(kept, InsertAll(kept, rs, now), n, maxPending, maxStorage);
    InsertedUnsent(kept, InsertAll(kept, rs, now), r.sent, n);
  }

  lemma ExpireWithinLimits(st: Store, now: int, maxPending: nat, maxStorage: nat)
    requires RequestStore.Valid(st) && WithinLimits(st, maxPending, maxStorage)
    ensures WithinLimits(Expire(st, now), maxPending, maxStorage)
  {
    var after := Expire(st, now);
    assert after.pending <= st.pending;
    SubsetSize(after.pending, st.pending);
    NamesOfSubset(after.pending, st.pending);
  }

  lemma RespondHolds(r: Run, id: int, maxPending: nat, maxStorage: nat)
    requires Holds(r, maxPending, maxStorage) && MayRemove(r.system.store, id)
    ensures Holds(Step(r, Respond(id), maxPending, maxStorage), maxPending, maxStorage)
  {
    var st := r.system.store;
    if id in st.byId {
      PendingSizeBound(st, Key(st.byId[id]));
    }
    RemoveKeepsValid(st, id);
    var after := Remove(st, id);
    SubsetSize(after.pending, st.pending);
    NamesOfSubset(after.pending, st.pending);
  }

  /** Released requests have distinct ids that were never sent before. */
  lemma SentStaysDistinct(r: Run, out: seq<OutgoingRequest>, maxPending: nat, maxStorage: nat)
    requires Holds(r, maxPending, maxStorage) && Distinct(out)
    requires forall k :: k in out ==> k in r.system.store.byRequest && k !in r.system.store.pending
    ensures Distinct(r.sent + IdsOf(r.system.store, out))
    ensures forall id :: id in IdsOf(r.system.store, out) ==> id in r.system.store.byId
  {
    var st := r.system.store;
    var ids := IdsOf(st, out);
    forall i, j | 0 <= i < j < |ids| ensures ids[i] != ids[j] {
      assert out[i] in out && out[j] in out;
    }
    forall i, j | 0 <= i < |r.sent| && 0 <= j < |ids| ensures r.sent[i] != ids[j] {
      assert out[j] in out && r.sent[i] in r.sent;
    }
    forall id | id in ids ensures id in st.byId {
      var i :| 0 <= i < |ids| && ids[i] == id;
      assert out[i] in out;
    }
    var all := r.sent + ids;
    forall i, j | 0 <= i < j < |all| ensures all[i] != all[j] {
    }
  }

  /** What is released was waiting, so none of it has been sent before. */
  lemma ReleasedWereWaiting(st: Store, maxPending: nat, maxStorage: nat)
    ensures var out := Release(st, maxPending, maxStorage).1;
            && Distinct(out)
            && forall k :: k in out ==> k in st.byRequest && k !in st.pending
  {
    ReleaseIsDistinct(st, maxPending, maxStorage);
    ReleaseAdds(st, maxPending, maxStorage);
    var out := Release(st, maxPending, maxStorage).1;
    assert forall k :: k in out ==> k in Elements(out);
  }

  lemma StillWaitingUnsent(
    st: Store, after: Store, out: seq<OutgoingRequest>, k: OutgoingRequest)
    requires MutuallyInverse(st) && Releases(st, after, out)
    requires forall x :: x in out ==> x in st.byRequest
    requires k in after.byRequest && k !in after.pending
    ensures after.byRequest[k].id !in IdsOf(st, out)
  {
    var ids := IdsOf(st, out);
    forall i | 0 <= i < |ids| ensures ids[i] != after.byRequest[k].id {
      assert out[i] in out && out[i] in Elements(out);
    }
  }

  lemma ThrottleHolds(r: Run, maxPending: nat, maxStorage: nat)
    requires Holds(r, maxPending, maxStorage)
    ensures Holds(Step(r, Throttle, maxPending, maxStorage), maxPending, maxStorage)
  {
    var st := r.system.store;
    ReleaseKeepsValid(st, maxPending, maxStorage);
    ReleaseKeepsLimits(st, maxPending, maxStorage);
    ReleaseAdds(st, maxPending, maxStorage);
    ReleasedWereWaiting(st, maxPending, maxStorage);
    var p := Release(st, maxPending, maxStorage);
    SentStaysDistinct(r, p.1, maxPending, maxStorage);
    var ids := IdsOf(st, p.1);
    forall k | k in p.0.byRequest && k !in p.0.pending ensures p.0.byRequest[k].id !in r.sent + ids {
      StillWaitingUnsent(st, p.0, p.1, k);
    }
  }

  lemma StepHolds(r: Run, op: Op, maxPending: nat, maxStorage: nat)
    requires Holds(r, maxPending, maxStorage) && MayStep(r, op)
    ensures Holds(Step(r, op, maxPending, maxStorage), maxPending, maxStorage)
  {
    match op
    case AskFor(blocks, now) => AskHolds(r, blocks, now, maxPending, maxStorage);
    case Throttle => ThrottleHolds(r, maxPending, maxStorage);
    case Respond(id) => RespondHolds(r, id, maxPending, maxStorage);
  }

  const BEGIN := Run(System(EMPTY, 0), [])

  /**
   * The state that a run of operations reaches under fixed limits, or None if the program stopped
   * at a response for a request that was queued but not pending. In every state of every run the
   * maps are mutually inverse, the byte total is right, the three limits hold, no id is above the
   * counter and no id has been sent twice.
   */
  ghost function Reached(ops: seq<Op>, maxPending: nat, maxStorage: nat): (r: Option<Run>)
    ensures r.Some? ==> Holds(r.value, maxPending, maxStorage)
    decreases |ops|
  {
    if ops == [] then Some(BEGIN)
    else
      match Reached(ops[..|ops| - 1], maxPending, maxStorage)
      case None => None
      case Some(before) =>
        var op := ops[|ops| - 1];
        if !MayStep(before, op) then None
        else
          StepHolds(before, op, maxPending, maxStorage);
          Some(Step(before, op, maxPending, maxStorage))
  }

  /** The ids sent by a run are sent in this order by every longer run: nothing is taken back. */
  lemma SentOnlyGrows(ops: seq<Op>, op: Op, maxPending: nat, maxStorage: nat)
    requires Reached(ops + [op], maxPending, maxStorage).Some?
    ensures Reached(ops, maxPending, maxStorage).Some?
    ensures Reached(ops, maxPending, maxStorage).value.sent <= Reached(ops + [op], maxPending, maxStorage).value.sent
    ensures Reached(ops, maxPending, maxStorage).value.system.requestId
            <= Reached(ops + [op], maxPending, maxStorage).value.system.requestId
  {
    assert (ops + [op])[..|ops|] == ops;
  }

  // ----- a run that is held up -----

  lemma NothingExpires(st: Store, now: int)
    requires RequestStore.Valid(st) && forall k :: k in st.byRequest ==> IsFresh(st.byRequest[k], now)
    ensures Expire(st, now) == st
  {
    hide Expire;
    ExpireIsExact(st, now);
    var after := Expire(st, now);
    forall id
      ensures id in after.byId <==> id in st.byId
      ensures id in st.byId ==> after.byId[id] == st.byId[id]
    {
      if id in st.byId {
        assert Key(st.byId[id]) in st.byRequest;
      }
    }
    assert after.byRequest.Keys == st.byRequest.Keys && after.byId.Keys == st.byId.Keys;
    assert after.byRequest == st.byRequest && after.byId == st.byId;
    assert after.pending == st.pending;
  }

  lemma ReachedSnoc(ops: seq<Op>, op: Op, before: Run, maxPending: nat, maxStorage: nat)
    requires Reached(ops, maxPending, maxStorage) == Some(before) && !op.Respond?
    ensures Holds(before, maxPending, maxStorage) && MayStep(before, op)
    ensures Reached(ops + [op], maxPending, maxStorage) == Some(Step(before, op, maxPending, maxStorage))
  {
    hide Step;
    assert (ops + [op])[..|ops|] == ops;
  }

  /** Asking for one more block, at a time when nothing expires. */
  lemma AsksOne(s: System, b: BlockInfo, now: int)
    requires RequestStore.Valid(s.store) && (forall k :: k in s.store.byRequest ==> IsFresh(s.store.byRequest[k], now))
    requires Key(RequestFromBlock(s.requestId + 1, b)) !in s.store.byRequest
    ensures var r := RequestFromBlock(s.requestId + 1, b);
            Ask(s, [b], now) ==
            System(s.store.(byId := s.store.byId[r.id := r],
                            byRequest := s.store.byRequest[Key(r) := Entry(r.id, now)]), s.requestId + 1)
  {
    hide Expire;
    NothingExpires(s.store, now);
    var rs := NumberedRequests(s.requestId, [b]);
    assert rs == [RequestFromBlock(s.requestId + 1, b)];
    assert rs[1..] == [];
    assert InsertAll(Insert(s.store, rs[0], now).0, [], now) == Insert(s.store, rs[0], now).0;
  }

  /** A queue with one waiting request that fits: a release sends it. */
  lemma ReleasesOne(st: Store, h: OutgoingRequest, maxPending: nat, maxStorage: nat)
    requires st.byRequest.Keys == {h} && st.pending == {} && st.requestedSize == 0
    requires maxPending > 0 && h.size <= maxStorage
    ensures Release(st, maxPending, maxStorage) == (Admit(st, h), [h])
  {
    ListingUnique(InOrder({h}), [h], {h});
    assert Names(st.pending) == {} && |st.pending| == 0;
    assert [h][1..] == [] && [h] + [] == [h];
    assert ReleaseFrom(Admit(st, h), [], maxPending - 1, maxStorage) == (Admit(st, h), []);
    assert ReleaseFrom(st, [h], maxPending, maxStorage) == (Admit(st, h), [h]);
  }

  lemma FirstOfTwo(h: OutgoingRequest, k: OutgoingRequest)
    requires Less(h, k)
    ensures InOrder({h, k}) == [h, k] && h != k
  {
    LessTotal(h, k);
    assert [h, k][1..] == [k];
    ListingUnique(InOrder({h, k}), [h, k], {h, k});
  }

  /** The queue after asking for the head, sending it, and asking for one that comes behind it. */
  function HeldUp(a: BlockInfo, b: BlockInfo, now: int): Run {
    var head, tail := RequestFromBlock(1, a), RequestFromBlock(2, b);
    Run(System(Store(map[1 := head, 2 := tail], map[Key(head) := Entry(1, now), Key(tail) := Entry(2, now)],
                     {Key(head)}, a.size), 2), [1])
  }

  /**
   * Three operations that lead to a queue which is held up: the head, once sent, has its size counted
   * twice, and so the smaller request behind it is not sent, although it would be by itself.
   */
  lemma HeadHoldsUp(a: BlockInfo, b: BlockInfo, now: int, maxPending: nat, maxStorage: nat)
    requires Less(Key(RequestFromBlock(1, a)), Key(RequestFromBlock(2, b))) && maxPending >= 2
    requires a.size + b.size <= maxStorage < 2 * a.size
    ensures Reached([AskFor([a], now), Throttle, AskFor([b], now)], maxPending, maxStorage) == Some(HeldUp(a, b, now))
    ensures var st, k := HeldUp(a, b, now).system.store, Key(RequestFromBlock(2, b));
            && Release(st, maxPending, maxStorage).1 == []
            && ReleaseFrom(st, [k], maxPending - |st.pending|, maxStorage).1 == [k]
  {
    hide Reached, Holds;
    ReachesHeldUp(a, b, now, maxPending, maxStorage);
    var st, h, k := HeldUp(a, b, now).system.store, Key(RequestFromBlock(1, a)), Key(RequestFromBlock(2, b));
    FirstOfTwo(h, k);
    assert st.byRequest.Keys == {h, k};
    NamesWith({}, h);
    assert Names({}) == {} && {} + {h} == {h};
    HoldsStore(HeldUp(a, b, now), maxPending, maxStorage);
    PendingRequestBlocks(st, k, maxPending, maxStorage);
  }

  lemma HoldsStore(r: Run, maxPending: nat, maxStorage: nat)
    requires Holds(r, maxPending, maxStorage)
    ensures RequestStore.Valid(r.system.store) && WithinLimits(r.system.store, maxPending, maxStorage)
  {
  }

  /** The queue after the head has been asked for and sent. */
  function HeadSent(a: BlockInfo, now: int): Run {
    var head := RequestFromBlock(1, a);
    Run(System(Store(map[1 := head], map[Key(head) := Entry(1, now)], {Key(head)}, a.size), 1), [1])
  }

  lemma ReachesHeadSent(a: BlockInfo, now: int, maxPending: nat, maxStorage: nat)
    requires maxPending >= 2 && a.size <= maxStorage
    ensures Reached([AskFor([a], now), Throttle], maxPending, maxStorage) == Some(HeadSent(a, now))
    ensures Holds(HeadSent(a, now), maxPending, maxStorage)
  {
    hide Reached, Holds, Ask, Release;
    var head, h, ask := RequestFromBlock(1, a), Key(RequestFromBlock(1, a)), AskFor([a], now);
    NothingReached(maxPending, maxStorage);
    ReachedSnoc([], ask, BEGIN, maxPending, maxStorage);
    AsksOne(BEGIN.system, a, now);
    var r1 := Run(System(Store(map[1 := head], map[h := Entry(1, now)], {}, 0), 1), []);
    assert [] + [ask] == [ask];
    ReachedSnoc([ask], Throttle, r1, maxPending, maxStorage);
    ReleasesOne(r1.system.store, h, maxPending, maxStorage);
    assert [] + IdsOf(r1.system.store, [h]) == [1];
    assert {} + {h} == {h};
    assert [ask] + [Throttle] == [ask, Throttle];
    StepHolds(r1, Throttle, maxPending, maxStorage);
  }

  lemma ReachesHeldUp(a: BlockInfo, b: BlockInfo, now: int, maxPending: nat, maxStorage: nat)
    requires Less(Key(RequestFromBlock(1, a)), Key(RequestFromBlock(2, b))) && maxPending >= 2
    requires a.size + b.size <= maxStorage
    ensures Reached([AskFor([a], now), Throttle, AskFor([b], now)], maxPending, maxStorage) == Some(HeldUp(a, b, now))
    ensures Holds(HeldUp(a, b, now), maxPending, maxStorage)
  {
    hide Reached, Holds, Ask, Release;
    var ask, more, r := AskFor([a], now), AskFor([b], now), HeadSent(a, now);
    LessTotal(Key(RequestFromBlock(1, a)), Key(RequestFromBlock(2, b)));
    ReachesHeadSent(a, now, maxPending, maxStorage);
    ReachedSnoc([ask, Throttle], more, r, maxPending, maxStorage);
    HoldsStore(r, maxPending, maxStorage);
    AsksOne(r.system, b, now);
    assert [ask, Throttle] + [more] == [ask, Throttle, more];
    StepHolds(r, more, maxPending, maxStorage);
  }

  lemma NothingReached(maxPending: nat, maxStorage: nat)
    ensures Reached([], maxPending, maxStorage) == Some(BEGIN)
    ensures RequestStore.Valid(BEGIN.system.store)
  {
  }
}
