/** The request queue as the source keeps it: two maps, a set and a running total, updated in place. */
module OutgoingRequests {
  import opened Wrappers
  import opened RequestOrder
  import opened RequestStore

  /** Adds up the sizes of a set of requests. */
  method SumOfSizes(s: set<OutgoingRequest>) returns (n: nat)
    ensures n == TotalSize(s)
  {
    n := 0;
    var rest := s;
    while rest != {}
      invariant TotalSize(s) == n + TotalSize(rest)
      decreases rest
    {
      var x :| x in rest;
      TotalWithout(rest, x);
      n := n + x.size;
      rest := rest - {x};
    }
  }

  ghost function KeysOf(rs: seq<Request>): (ks: seq<OutgoingRequest>)
    ensures |ks| == |rs| && forall i :: 0 <= i < |rs| ==> ks[i] == Key(rs[i])
  {
    seq(|rs|, i requires 0 <= i < |rs| => Key(rs[i]))
  }

  class OutgoingRequests {
    var requestsById: map<int, Request>
    var requestsByRequest: map<OutgoingRequest, Entry>
    var pendingRequests: set<OutgoingRequest>
    var requestedSize: nat

    function View(): Store
      reads this
    {
      Store(requestsById, requestsByRequest, pendingRequests, requestedSize)
    }

    constructor ()
      ensures View() == EMPTY && Valid(View())
    {
      requestsById := map[];
      requestsByRequest := map[];
      pendingRequests := {};
      requestedSize := 0;
    }

    method Get(requestId: int) returns (r: Option<Request>)
      ensures r.Some? <==> requestId in View().byId
      ensures r.Some? ==> r.value == View().byId[requestId]
    {
      r := if requestId in requestsById then Some(requestsById[requestId]) else None;
    }

    /** The source's four asserts hold: none of the removals misses and the total does not underflow. */
    method Remove(requestId: int) returns (r: Option<Request>)
      requires Valid(View()) && MayRemove(View(), requestId)
      modifies this
      ensures Valid(View()) && requestId !in View().byId
      ensures old(requestId in View().byId ==> View().byId[requestId].size <= View().requestedSize)
      ensures View() == old(RequestStore.Remove(View(), requestId))
      ensures r == old(if requestId in View().byId then Some(View().byId[requestId]) else None)
    {
      r := None;
      if requestId in requestsById {
        var request := requestsById[requestId];
        var k := Key(request);
        PendingSizeBound(View(), k);
        RemoveKeepsValid(View(), requestId);
        assert k in requestsByRequest && k in pendingRequests && requestedSize >= k.size;
        requestsById := requestsById - {requestId};
        requestsByRequest := requestsByRequest - {k};
        pendingRequests := pendingRequests - {k};
        requestedSize := requestedSize - k.size;
        r := Some(request);
      }
    }

    method Insert(request: Request, now: int) returns (r: Option<Request>)
      requires Valid(View()) && request.id !in View().byId
      modifies this
      ensures Valid(View())
      ensures (View(), r) == old(RequestStore.Insert(View(), request, now))
    {
      InsertKeepsValid(View(), request, now);
      var k := Key(request);
      if k in requestsByRequest {
        return None;
      }
      requestsByRequest := requestsByRequest[k := Entry(request.id, now)];
      requestsById := requestsById[request.id := request];
      return Some(request);
    }

    method RemoveOldRequests(now: int)
      requires Valid(View())
      modifies this
      ensures Valid(View())
      ensures View() == old(Expire(View(), now))
    {
      ghost var before := View();
      var ids := WaitingIds(View(), now);
      var dropped := DroppedPending(View(), now);
      var sizeToRemove := SumOfSizes(dropped);
      DroppedSize(before, now);
      requestsById := map id | id in requestsById && id in ids :: requestsById[id];
      requestsByRequest :=
        map k | k in requestsByRequest && requestsByRequest[k].id in ids :: requestsByRequest[k];
      requestedSize := requestedSize - sizeToRemove;
      pendingRequests := pendingRequests - dropped;
      assert View() == Expire(before, now);
      ExpireIsExact(before, now);
    }

    /** Releases what fits; the result carries the stored requests of the released keys, in order. */
    method UpdatePendingRequests(maxPending: nat, maxStorage: nat) returns (processed: seq<Request>)
      requires Valid(View()) && WithinLimits(View(), maxPending, maxStorage)
      modifies this`pendingRequests, this`requestedSize
      ensures Valid(View()) && WithinLimits(View(), maxPending, maxStorage)
      ensures (View(), KeysOf(processed)) == old(Release(View(), maxPending, maxStorage))
      ensures forall r :: r in processed ==> r.id in View().byId && View().byId[r.id] == r
    {
      hide Valid, WithinLimits, ReleaseFrom, InOrder, MutuallyInverse;
      ghost var before := View();
      SlotsLeft(before, maxPending, maxStorage);
      var freeSlots: nat := maxPending - |pendingRequests|;
      var ks := Iterate(requestsByRequest.Keys);
      processed := ReleaseInOrder(ks, freeSlots, maxStorage);
      assert (View(), KeysOf(processed)) == Release(before, maxPending, maxStorage);
      assert Valid(View()) && WithinLimits(View(), maxPending, maxStorage) by {
        ReleaseKeeps(before, View(), maxPending, maxStorage);
      }
    }

    /** The release loop over the keys of the map, in the order of its iterator. */
    method ReleaseInOrder(ks: seq<OutgoingRequest>, freeSlots: nat, maxStorage: nat)
      returns (processed: seq<Request>)
      requires MutuallyInverse(View()) && forall k :: k in ks ==> k in requestsByRequest
      modifies this`pendingRequests, this`requestedSize
      ensures (View(), KeysOf(processed)) == old(ReleaseFrom(View(), ks, freeSlots, maxStorage))
      ensures forall r :: r in processed ==> r.id in View().byId && View().byId[r.id] == r
    {
      ghost var goal := ReleaseFrom(View(), ks, freeSlots, maxStorage);
      var fileNames := Names(pendingRequests);
      processed := [];
      var i := 0;
      assert ks[0..] == ks && KeysOf([]) + goal.1 == goal.1;
      while i < |ks|
        invariant 0 <= i <= |ks|
        invariant fileNames == Names(pendingRequests)
        invariant MutuallyInverse(View())
        invariant goal == Resume(View(), processed, ks[i..], freeSlots, maxStorage)
        invariant forall r :: r in processed ==> r.id in requestsById && requestsById[r.id] == r
      {
        var k := ks[i];
        assert ks[i..][1..] == ks[i + 1..];
        if |fileNames| >= MAX_FILES && k.name !in fileNames {
          break;
        }
        if |processed| >= freeSlots {
          break;
        }
        if requestedSize + k.size > maxStorage {
          break;
        }
        if k !in pendingRequests {
          ghost var before := View();
          NamesWith(pendingRequests, k);
          var request := AdmitRequest(k);
          ResumeAdmits(before, processed, request, ks[i..], freeSlots, maxStorage);
          processed := processed + [request];
          fileNames := fileNames + {k.name};
        }
        i := i + 1;
      }
      assert KeysOf(processed) + [] == KeysOf(processed);
    }

    /** Marks a queued request as pending and returns it. */
    method AdmitRequest(k: OutgoingRequest) returns (r: Request)
      requires MutuallyInverse(View()) && k in requestsByRequest
      modifies this`pendingRequests, this`requestedSize
      ensures View() == old(Admit(View(), k)) && MutuallyInverse(View())
      ensures Key(r) == k && r.id in requestsById && requestsById[r.id] == r
    {
      r := requestsById[requestsByRequest[k].id];
      pendingRequests := pendingRequests + {k};
      requestedSize := requestedSize + k.size;
    }
  }

  lemma SlotsLeft(st: Store, maxPending: nat, maxStorage: nat)
    requires Valid(st) && WithinLimits(st, maxPending, maxStorage)
    ensures |st.pending| <= maxPending && MutuallyInverse(st)
  {
  }

  lemma ReleaseKeeps(st: Store, after: Store, maxPending: nat, maxStorage: nat)
    requires Valid(st) && WithinLimits(st, maxPending, maxStorage)
    requires after == Release(st, maxPending, maxStorage).0
    ensures Valid(after) && WithinLimits(after, maxPending, maxStorage)
  {
    ReleaseKeepsValid(st, maxPending, maxStorage);
    ReleaseKeepsLimits(st, maxPending, maxStorage);
  }

  /** The loop's result, seen from the middle: what is done so far, then the keys still to visit. */
  ghost function Resume(
    st: Store, processed: seq<Request>, ks: seq<OutgoingRequest>, freeSlots: nat, maxStorage: nat)
    : (Store, seq<OutgoingRequest>)
  {
    var p := ReleaseFrom(st, ks, freeSlots - |processed|, maxStorage);
    (p.0, KeysOf(processed) + p.1)
  }

  lemma ResumeAdmits(
    st: Store, processed: seq<Request>, r: Request, ks: seq<OutgoingRequest>, freeSlots: nat, maxStorage: nat)
    requires ks != [] && ks[0] == Key(r) && ks[0] !in st.pending
    requires !Blocked(st, Names(st.pending), ks[0], freeSlots - |processed|, maxStorage)
    ensures Resume(st, processed, ks, freeSlots, maxStorage)
            == Resume(Admit(st, ks[0]), processed + [r], ks[1..], freeSlots, maxStorage)
  {
    var more := ReleaseFrom(Admit(st, ks[0]), ks[1..], freeSlots - |processed| - 1, maxStorage).1;
    assert KeysOf(processed + [r]) == KeysOf(processed) + [ks[0]];
    assert KeysOf(processed) + ([ks[0]] + more) == KeysOf(processed + [r]) + more;
  }
}
