/** The read cache: first in, first out, within a fixed number of bytes. */
module ReadCache {
  import opened Wrappers

  /** A cached file is identified by device, folder and name. */
  datatype Key = Key(device: nat, folder: string, file: string)

  datatype Cached = Cached(added: int, size: nat)

  type Table = map<Key, Cached>

  // ----- sizes -----

  ghost function Total(t: Table, ks: set<Key>): nat
    requires ks <= t.Keys
  {
    if ks == {} then 0 else
    var k :| k in ks;
    t[k].size + Total(t, ks - {k})
  }

  ghost function Used(t: Table): nat {
    Total(t, t.Keys)
  }

  lemma {:induction false} TotalWithout(t: Table, ks: set<Key>, k: Key)
    requires ks <= t.Keys && k in ks
    ensures Total(t, ks) == t[k].size + Total(t, ks - {k})
    decreases ks
  {
    var j :| j in ks && Total(t, ks) == t[j].size + Total(t, ks - {j});
    if j != k {
      TotalWithout(t, ks - {j}, k);
      TotalWithout(t, ks - {k}, j);
      assert ks - {j} - {k} == ks - {k} - {j};
    }
  }

  lemma {:induction false} TotalSame(t: Table, t': Table, ks: set<Key>)
    requires ks <= t.Keys && ks <= t'.Keys && forall k :: k in ks ==> t[k] == t'[k]
    ensures Total(t, ks) == Total(t', ks)
    decreases ks
  {
    if ks != {} {
      var k :| k in ks;
      TotalWithout(t, ks, k);
      TotalWithout(t', ks, k);
      TotalSame(t, t', ks - {k});
    }
  }

  lemma UsedWithout(t: Table, k: Key)
    requires k in t
    ensures Used(t) == t[k].size + Used(t - {k})
  {
    TotalWithout(t, t.Keys, k);
    assert (t - {k}).Keys == t.Keys - {k};
    TotalSame(t, t - {k}, t.Keys - {k});
  }

  lemma UsedWith(t: Table, k: Key, c: Cached)
    requires k !in t
    ensures Used(t[k := c]) == Used(t) + c.size
  {
    UsedWithout(t[k := c], k);
    assert t[k := c] - {k} == t;
  }

  function Sum(t: Table, ks: seq<Key>): nat
    requires forall k :: k in ks ==> k in t
  {
    if ks == [] then 0 else t[ks[0]].size + Sum(t, ks[1..])
  }

  // ----- the oldest files first -----

  /** What the query returns: every cached file once, the oldest first. */
  ghost predicate IsListing(t: Table, ks: seq<Key>) {
    && (forall k :: k in ks <==> k in t)
    && (forall i, j :: 0 <= i < j < |ks| ==> ks[i] != ks[j] && t[ks[i]].added <= t[ks[j]].added)
  }

  function Without(t: Table, ks: seq<Key>): Table {
    t - set k | k in ks
  }

  lemma {:induction false} UsedAfter(t: Table, ks: seq<Key>)
    requires (forall k :: k in ks ==> k in t) && (forall i, j :: 0 <= i < j < |ks| ==> ks[i] != ks[j])
    ensures Used(t) == Sum(t, ks) + Used(Without(t, ks))
    decreases |ks|
  {
    if ks == [] {
      assert Without(t, ks) == t;
    } else {
      var k, rest := ks[0], ks[1..];
      var t1 := t - {k};
      UsedWithout(t, k);
      forall i | 0 <= i < |rest| ensures rest[i] != k && rest[i] in t1 {
        assert rest[i] == ks[i + 1] && ks[i + 1] in ks;
      }
      UsedAfter(t1, rest);
      SumSame(t, t1, rest);
      assert forall x :: x in ks <==> x == k || x in rest;
      assert Without(t1, rest) == Without(t, ks);
    }
  }

  lemma {:induction false} SumSame(t: Table, t': Table, ks: seq<Key>)
    requires forall k :: k in ks ==> k in t && k in t' && t[k] == t'[k]
    ensures Sum(t, ks) == Sum(t', ks)
  {
    if ks != [] {
      SumSame(t, t', ks[1..]);
    }
  }

  lemma {:induction false} SumSnoc(t: Table, ks: seq<Key>, k: Key)
    requires k in t && forall x :: x in ks ==> x in t
    ensures Sum(t, ks + [k]) == Sum(t, ks) + t[k].size
  {
    if ks == [] {
      assert ks + [k] == [k];
    } else {
      assert (ks + [k])[1..] == ks[1..] + [k];
      SumSnoc(t, ks[1..], k);
    }
  }

  /** Evicting n files from the front is enough, and no smaller number is (or all of them go). */
  ghost predicate IsShortestEviction(t: Table, ks: seq<Key>, available: nat, needed: nat, n: nat)
    requires forall k :: k in ks ==> k in t
  {
    && n <= |ks|
    && (forall i :: 0 <= i < n ==> available + Sum(t, ks[..i]) < needed)
    && (n < |ks| ==> available + Sum(t, ks[..n]) >= needed)
  }

  /** How many files are evicted for the needed bytes. */
  function EvictCount(t: Table, ks: seq<Key>, available: nat, needed: nat): (n: nat)
    requires forall k :: k in ks ==> k in t
    ensures n <= |ks|
    decreases |ks|
  {
    if ks == [] || available >= needed then 0
    else 1 + EvictCount(t, ks[1..], available + t[ks[0]].size, needed)
  }

  /** The number of evictions is the shortest one that makes room, and there is no other. */
  lemma {:induction false} EvictCountIsShortest(t: Table, ks: seq<Key>, available: nat, needed: nat, n: nat)
    requires forall k :: k in ks ==> k in t
    ensures IsShortestEviction(t, ks, available, needed, n) <==> n == EvictCount(t, ks, available, needed)
    decreases |ks|
  {
    if ks == [] {
    } else if available >= needed {
      assert Sum(t, ks[..0]) == 0;
    } else {
      assert Sum(t, ks[..0]) == 0;
      if n > 0 {
        EvictCountIsShortest(t, ks[1..], available + t[ks[0]].size, needed, n - 1);
        forall i | 0 < i <= |ks| ensures Sum(t, ks[..i]) == t[ks[0]].size + Sum(t, ks[1..][..i - 1]) {
          assert ks[..i][1..] == ks[1..][..i - 1];
        }
        if IsShortestEviction(t, ks, available, needed, n) {
          forall i | 0 <= i < n - 1 ensures available + t[ks[0]].size + Sum(t, ks[1..][..i]) < needed {
            assert available + Sum(t, ks[..i + 1]) < needed;
          }
        }
      }
    }
  }

  /** One read: the file, its size, the time, the query's listing, and whether the copy succeeded. */
  datatype ReadOp = ReadOp(key: Key, size: nat, now: int, listing: seq<Key>, copied: bool)

  ghost predicate MayRead(t: Table, op: ReadOp) {
    IsListing(t, op.listing) && (op.key in t ==> t[op.key].size == op.size)
  }

  ghost function AfterRead(t: Table, cacheSize: nat, op: ReadOp): Table
    requires MayRead(t, op) && Used(t) <= cacheSize
  {
    if op.size > cacheSize || op.key in t then t
    else
      var n := EvictCount(t, op.listing, cacheSize - Used(t), op.size);
      var kept := Without(t, op.listing[..n]);
      if op.copied then kept[op.key := Cached(op.now, op.size)] else kept
  }

  class ReadCache {
    const cacheSize: nat
    var table: Table

    constructor (cacheSize: nat)
      ensures this.cacheSize == cacheSize && table == map[]
    {
      this.cacheSize := cacheSize;
      table := map[];
    }

    method UsedBytes(listing: seq<Key>) returns (n: nat)
      requires IsListing(table, listing)
      ensures n == Used(table)
    {
      n := 0;
      for i := 0 to |listing|
        invariant n == Sum(table, listing[..i])
      {
        SumSnoc(table, listing[..i], listing[i]);
        assert listing[..i + 1] == listing[..i] + [listing[i]];
        n := n + table[listing[i]].size;
      }
      WholeListing(table, listing);
    }

    /** Takes files from the front of the listing until there is room. */
    method ChooseEvicted(listing: seq<Key>, start: nat, needed: nat) returns (removed: seq<Key>)
      requires forall k :: k in listing ==> k in table
      ensures removed == listing[..EvictCount(table, listing, start, needed)]
    {
      var availableBytes: nat := start;
      removed := [];
      assert listing[0..] == listing;
      for i := 0 to |listing|
        invariant removed == listing[..i]
        invariant EvictCount(table, listing, start, needed)
                  == i + EvictCount(table, listing[i..], availableBytes, needed)
      {
        if availableBytes >= needed {
          return;
        }
        assert listing[i..][1..] == listing[i + 1..];
        availableBytes := availableBytes + table[listing[i]].size;
        removed := removed + [listing[i]];
      }
    }

    /**
     * Makes room for the needed bytes. The listing is the query's result; the subtraction of the
     * used bytes would underflow if the cache were over its size.
     */
    method FreeReadCache(needed: nat, listing: seq<Key>) returns (removed: seq<Key>)
      requires IsListing(table, listing) && Used(table) <= cacheSize
      modifies this
      ensures removed == listing[..EvictCount(old(table), listing, cacheSize - old(Used(table)), needed)]
      ensures IsShortestEviction(old(table), listing, cacheSize - old(Used(table)), needed, |removed|)
      ensures table == Without(old(table), removed)
      ensures needed <= cacheSize ==> Used(table) + needed <= cacheSize
    {
      var usedBytes := UsedBytes(listing);
      var availableBytes: nat := cacheSize - usedBytes;
      removed := ChooseEvicted(listing, availableBytes, needed);
      EvictCountIsShortest(table, listing, availableBytes, needed, |removed|);
      RoomAfter(table, cacheSize, needed, listing);
      table := Without(table, removed);
    }

    /** A file that is cached already keeps its place in the queue. */
    method UpdateReadCache(k: Key, size: nat, now: int)
      modifies this
      ensures table == if k in old(table) then old(table) else old(table)[k := Cached(now, size)]
    {
      if k !in table {
        table := table[k := Cached(now, size)];
      }
    }

    /** Reading a file through the cache; the copy into the cache may fail after files were evicted. */
    method Read(k: Key, size: nat, now: int, listing: seq<Key>, copied: bool) returns (ok: bool)
      requires IsListing(table, listing) && Used(table) <= cacheSize
      requires k in table ==> table[k].size == size
      modifies this
      ensures Used(table) <= cacheSize
      ensures ok == (size <= cacheSize && (k in old(table) || copied))
      ensures ok ==> k in table && table[k].size == size
      ensures table == AfterRead(old(table), cacheSize, ReadOp(k, size, now, listing, copied))
    {
      if size > cacheSize {
        return false;
      }
      if k !in table {
        var _ := FreeReadCache(size, listing);
        if !copied {
          return false;
        }
        UsedWith(table, k, Cached(now, size));
      }
      UpdateReadCache(k, size, now);
      return true;
    }
  }

  /** Evicting makes room for anything that fits into the cache at all. */
  lemma RoomAfter(t: Table, cacheSize: nat, needed: nat, listing: seq<Key>)
    requires IsListing(t, listing) && Used(t) <= cacheSize
    ensures var n := EvictCount(t, listing, cacheSize - Used(t), needed);
            var kept := Without(t, listing[..n]);
            && Used(kept) <= cacheSize
            && (needed <= cacheSize ==> Used(kept) + needed <= cacheSize)
  {
    hide EvictCount, Used, Sum;
    var start := cacheSize - Used(t);
    var n := EvictCount(t, listing, start, needed);
    EvictCountIsShortest(t, listing, start, needed, n);
    UsedAfter(t, listing[..n]);
    WholeListing(t, listing);
  }

  lemma WholeListing(t: Table, ks: seq<Key>)
    requires IsListing(t, ks)
    ensures Sum(t, ks) == Used(t) && ks[..|ks|] == ks
  {
    UsedAfter(t, ks);
    assert Without(t, ks) == map[];
  }

  // ----- every run -----

  lemma ReadKeepsCapacity(t: Table, cacheSize: nat, op: ReadOp)
    requires MayRead(t, op) && Used(t) <= cacheSize
    ensures Used(AfterRead(t, cacheSize, op)) <= cacheSize
  {
    if op.size <= cacheSize && op.key !in t {
      RoomAfter(t, cacheSize, op.size, op.listing);
      var n := EvictCount(t, op.listing, cacheSize - Used(t), op.size);
      UsedWith(Without(t, op.listing[..n]), op.key, Cached(op.now, op.size));
    }
  }

  /**
   * The cache after a run of reads, or None if the listing or a size did not match the cache.
   * In every run the cached bytes stay within the cache's size.
   */
  ghost function AfterReads(cacheSize: nat, ops: seq<ReadOp>): (t: Option<Table>)
    ensures t.Some? ==> Used(t.value) <= cacheSize
    decreases |ops|
  {
    if ops == [] then Some(map[])
    else
      match AfterReads(cacheSize, ops[..|ops| - 1])
      case None => None
      case Some(t) =>
        var op := ops[|ops| - 1];
        if !MayRead(t, op) then None
        else
          ReadKeepsCapacity(t, cacheSize, op);
          Some(AfterRead(t, cacheSize, op))
  }

  /**
   * What a read of a file that is not cached evicts: the shortest oldest-first prefix that makes
   * room, also if the copy then fails; and the file is cached exactly if the copy succeeds.
   */
  lemma ReadEvicts(t: Table, cacheSize: nat, op: ReadOp) returns (n: nat)
    requires MayRead(t, op) && Used(t) <= cacheSize && op.size <= cacheSize && op.key !in t
    ensures IsShortestEviction(t, op.listing, cacheSize - Used(t), op.size, n)
    ensures forall k :: k in t ==> (k in AfterRead(t, cacheSize, op) <==> k !in op.listing[..n])
    ensures forall k :: k in t && k in AfterRead(t, cacheSize, op) ==> AfterRead(t, cacheSize, op)[k] == t[k]
    ensures op.key in AfterRead(t, cacheSize, op) <==> op.copied
    ensures op.copied ==> AfterRead(t, cacheSize, op)[op.key] == Cached(op.now, op.size)
  {
    hide EvictCount, Used, Sum;
    n := EvictCount(t, op.listing, cacheSize - Used(t), op.size);
    EvictCountIsShortest(t, op.listing, cacheSize - Used(t), op.size, n);
  }

  // ----- first in, first out -----

  /** The read copies its file into the cache. */
  ghost predicate CopiesIn(t: Table, cacheSize: nat, op: ReadOp) {
    op.size <= cacheSize && op.key !in t && op.copied
  }

  /** The files that a run has copied into the cache, in the order of the reads. */
  ghost function CopiedIn(cacheSize: nat, ops: seq<ReadOp>): seq<Key>
    decreases |ops|
  {
    if ops == [] then []
    else
      var before, op := ops[..|ops| - 1], ops[|ops| - 1];
      match AfterReads(cacheSize, before)
      case None => []
      case Some(t) => CopiedIn(cacheSize, before) + if CopiesIn(t, cacheSize, op) then [op.key] else []
  }

  ghost predicate ClockGoesOn(ops: seq<ReadOp>) {
    forall i, j :: 0 <= i < j < |ops| ==> ops[i].now < ops[j].now
  }

  function Last<T>(s: seq<T>, n: nat): seq<T> {
    if n <= |s| then s[|s| - n..] else s
  }

  /** The files of the table in the order in which they were added, no two at one time. */
  ghost predicate InTurn(t: Table, ks: seq<Key>) {
    IsListing(t, ks) && forall i, j :: 0 <= i < j < |ks| ==> t[ks[i]].added < t[ks[j]].added
  }

  /** Every file was added at that time or before. */
  ghost predicate AddedBy(t: Table, now: int) {
    forall k :: k in t ==> t[k].added <= now
  }

  /** Then there is only one way to list them, the oldest first. */
  lemma {:induction false} ListingIsOne(t: Table, ks: seq<Key>, ls: seq<Key>)
    requires InTurn(t, ks) && IsListing(t, ls)
    ensures ls == ks
    decreases |ks|
  {
    NoElements(ls);
    if ks != [] {
      SameHead(t, ks, ls);
      var rest := t - {ks[0]};
      TailInTurn(t, ks);
      TailListing(t, ls);
      ListingIsOne(rest, ks[1..], ls[1..]);
      assert ks == [ks[0]] + ks[1..] && ls == [ls[0]] + ls[1..];
    }
  }

  lemma NoElements<T>(s: seq<T>)
    ensures s == [] <==> forall x :: x !in s
  {
    if s != [] {
      assert s[0] in s;
    }
  }

  lemma SameHead(t: Table, ks: seq<Key>, ls: seq<Key>)
    requires InTurn(t, ks) && IsListing(t, ls) && ks != []
    ensures ls != [] && ls[0] == ks[0]
  {
    assert ks[0] in ks && ks[0] in ls;
    var i :| 0 <= i < |ls| && ls[i] == ks[0];
    assert ls[0] in ls && ls[0] in t && ls[0] in ks;
    var k :| 0 <= k < |ks| && ks[k] == ls[0];
  }

  lemma TailListing(t: Table, ks: seq<Key>)
    requires IsListing(t, ks) && ks != []
    ensures IsListing(t - {ks[0]}, ks[1..])
  {
    var rest := t - {ks[0]};
    forall k ensures k in ks[1..] <==> k in rest {
      assert k in ks <==> k == ks[0] || k in ks[1..];
    }
  }

  lemma TailInTurn(t: Table, ks: seq<Key>)
    requires InTurn(t, ks) && ks != []
    ensures InTurn(t - {ks[0]}, ks[1..])
  {
    TailListing(t, ks);
    forall i, j | 0 <= i < j < |ks[1..]| ensures t[ks[1..][i]].added < t[ks[1..][j]].added {
      assert t[ks[i + 1]].added < t[ks[j + 1]].added;
    }
  }

  /** Evicting from the front leaves the rest in turn. */
  lemma {:induction false} EvictedInTurn(t: Table, ks: seq<Key>, n: nat)
    requires InTurn(t, ks) && n <= |ks|
    ensures InTurn(Without(t, ks[..n]), ks[n..])
    decreases n
  {
    hide InTurn, Without;
    if n == 0 {
      NothingEvicted(t, ks);
      assert ks[0..] == ks;
    } else {
      TailInTurn(t, ks);
      EvictedInTurn(t - {ks[0]}, ks[1..], n - 1);
      assert ks[1..][n - 1..] == ks[n..];
      EvictedStep(t, ks, n);
    }
  }

  lemma NothingEvicted(t: Table, ks: seq<Key>)
    ensures Without(t, ks[..0]) == t
  {
  }

  lemma EvictedStep(t: Table, ks: seq<Key>, n: nat)
    requires 0 < n <= |ks|
    ensures Without(t - {ks[0]}, ks[1..][..n - 1]) == Without(t, ks[..n])
  {
    assert ks[..n] == [ks[0]] + ks[1..][..n - 1];
    assert forall k :: k in ks[..n] <==> k == ks[0] || k in ks[1..][..n - 1];
  }

  /** A file that is added later than all others goes to the end. */
  lemma AddedInTurn(t: Table, ks: seq<Key>, k: Key, c: Cached)
    requires InTurn(t, ks) && k !in t && forall j :: j in t ==> t[j].added < c.added
    ensures InTurn(t[k := c], ks + [k])
  {
    var t', ks' := t[k := c], ks + [k];
    forall j ensures j in ks' <==> j in t' {
      assert j in ks' <==> j in ks || j == k;
    }
    forall i, j | 0 <= i < j < |ks'| ensures ks'[i] != ks'[j] && t'[ks'[i]].added < t'[ks'[j]].added {
      assert ks'[i] == ks[i] && ks[i] in ks;
      assert j < |ks| ==> ks'[j] == ks[j] && ks[j] in ks;
    }
  }

  lemma {:induction false} ListedSize(t: Table, ks: seq<Key>)
    requires InTurn(t, ks)
    ensures |t| == |ks|
    decreases |ks|
  {
    if ks == [] {
      assert t == map[];
    } else {
      assert ks[0] in ks && ks[0] in t;
      TailInTurn(t, ks);
      ListedSize(t - {ks[0]}, ks[1..]);
      assert (t - {ks[0]}).Keys == t.Keys - {ks[0]};
    }
  }

  /** Evicting n files and adding a later one. */
  lemma EvictsAndAdds(t: Table, ks: seq<Key>, n: nat, k: Key, c: Cached)
    requires InTurn(t, ks) && n <= |ks| && k !in t && forall j :: j in t ==> t[j].added < c.added
    ensures var kept := Without(t, ks[..n]);
            && InTurn(kept, ks[n..]) && |kept| == |ks| - n && AddedBy(kept, c.added)
            && InTurn(kept[k := c], ks[n..] + [k]) && |kept[k := c]| == |ks| - n + 1 && AddedBy(kept[k := c], c.added)
  {
    hide InTurn;
    EvictedInTurn(t, ks, n);
    var kept := Without(t, ks[..n]);
    AddedInTurn(kept, ks[n..], k, c);
    ListedSize(kept, ks[n..]);
    ListedSize(kept[k := c], ks[n..] + [k]);
  }

  lemma LastMore<T>(s: seq<T>, size: nat, n: nat, x: T)
    requires n <= size <= |s|
    ensures Last(s, size - n) == Last(s, size)[n..] && Last(s + [x], size - n + 1) == Last(s, size)[n..] + [x]
  {
  }

  /** One read of a cache whose files are the last ones copied in. */
  lemma ReadInTurn(t: Table, cacheSize: nat, op: ReadOp, copies: seq<Key>)
    requires MayRead(t, op) && Used(t) <= cacheSize && |t| <= |copies| && InTurn(t, Last(copies, |t|))
    requires forall k :: k in t ==> t[k].added < op.now
    ensures var t' := AfterRead(t, cacheSize, op);
            var copies' := copies + if CopiesIn(t, cacheSize, op) then [op.key] else [];
            |t'| <= |copies'| && InTurn(t', Last(copies', |t'|)) && AddedBy(t', op.now)
  {
    hide InTurn, EvictCount, Used, Without, Last, IsListing;
    var ks := Last(copies, |t|);
    assert copies + [] == copies;
    if op.size > cacheSize || op.key in t {
      assert AddedBy(t, op.now);
    } else {
      ListingIsOne(t, ks, op.listing);
      KeysListed(t, ks);
      ListedSize(t, ks);
      var n := EvictCount(t, op.listing, cacheSize - Used(t), op.size);
      EvictsAndAdds(t, ks, n, op.key, Cached(op.now, op.size));
      LastMore(copies, |t|, n, op.key);
    }
  }

  /**
   * First in, first out: over a run with a clock that goes on, the cached files are exactly the last
   * ones that were copied into the cache, and the oldest-first order is that of the copies.
   */
  lemma {:induction false} FirstInFirstOut(cacheSize: nat, ops: seq<ReadOp>)
    requires AfterReads(cacheSize, ops).Some? && ClockGoesOn(ops)
    ensures var t, copies := AfterReads(cacheSize, ops).value, CopiedIn(cacheSize, ops);
            && |t| <= |copies| && InTurn(t, Last(copies, |t|))
            && (ops != [] ==> AddedBy(t, ops[|ops| - 1].now))
    decreases |ops|
  {
    hide InTurn, AfterRead, MayRead, CopiesIn;
    if ops == [] {
      NothingInTurn();
    } else {
      var n := |ops| - 1;
      FirstInFirstOut(cacheSize, ops[..n]);
      var t := AfterReads(cacheSize, ops[..n]).value;
      if n == 0 {
        assert t == map[];
      } else {
        assert ops[..n][n - 1].now < ops[n].now;
      }
      ReadInTurn(t, cacheSize, ops[n], CopiedIn(cacheSize, ops[..n]));
    }
  }

  lemma NothingInTurn()
    ensures InTurn(map[], Last([], 0))
  {
  }

  /** What a read evicts was copied into the cache before everything that it keeps. */
  lemma EvictsTheOldest(cacheSize: nat, ops: seq<ReadOp>, op: ReadOp, i: nat, j: nat)
    requires AfterReads(cacheSize, ops).Some? && ClockGoesOn(ops) && MayRead(AfterReads(cacheSize, ops).value, op)
    requires var t := AfterReads(cacheSize, ops).value;
             var ks := Last(CopiedIn(cacheSize, ops), |t|);
             && i < |ks| && j < |ks|
             && ks[i] !in AfterRead(t, cacheSize, op) && ks[j] in AfterRead(t, cacheSize, op)
    ensures i < j
  {
    hide AfterReads, CopiedIn, InTurn, EvictCount, Used, Without, Last, IsListing;
    FirstInFirstOut(cacheSize, ops);
    var t := AfterReads(cacheSize, ops).value;
    var ks := Last(CopiedIn(cacheSize, ops), |t|);
    ListingIsOne(t, ks, op.listing);
    KeysListed(t, ks);
    if op.size <= cacheSize && op.key !in t {
      var n := EvictCount(t, ks, cacheSize - Used(t), op.size);
      KeptIff(t, ks, n, i);
      KeptIff(t, ks, n, j);
    }
  }

  lemma KeptIff(t: Table, ks: seq<Key>, n: nat, i: nat)
    requires InTurn(t, ks) && n <= |ks| && i < |ks|
    ensures ks[i] in Without(t, ks[..n]) <==> n <= i
  {
    hide InTurn;
    AllListed(t, ks);
    if i < n {
      assert ks[..n][i] in ks[..n];
    } else if ks[i] in ks[..n] {
      var m :| 0 <= m < n && ks[..n][m] == ks[i];
      DistinctListing(t, ks, m, i);
    }
  }

  lemma KeysListed(t: Table, ks: seq<Key>)
    requires InTurn(t, ks)
    ensures forall k :: k in ks ==> k in t
    ensures forall i :: 0 <= i < |ks| ==> ks[i] in t
  {
    AllListed(t, ks);
  }

  lemma AllListed(t: Table, ks: seq<Key>)
    requires InTurn(t, ks)
    ensures forall i :: 0 <= i < |ks| ==> ks[i] in t
  {
    assert forall i :: 0 <= i < |ks| ==> ks[i] in ks;
  }

  lemma DistinctListing(t: Table, ks: seq<Key>, m: nat, i: nat)
    requires InTurn(t, ks) && m < |ks| && i < |ks| && ks[m] == ks[i]
    ensures m == i
  {
  }
}
