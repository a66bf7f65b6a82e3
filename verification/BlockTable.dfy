/** The block table of a file: which blocks count as stored, and when the file counts as complete. */
module BlockTable {
  import opened Bytes

  type Digest = Buffer

  datatype UploadStatus = BlocksMissing | AllBlocks | TooManyBlocks

  /** Marking is by hash: every block of the file with that hash counts as stored. */
  function MarkHash(hashes: seq<Digest>, stored: seq<bool>, h: Digest): (r: seq<bool>)
    requires |hashes| == |stored|
    ensures |r| == |stored| && forall b :: 0 <= b < |r| ==> r[b] == (stored[b] || hashes[b] == h)
  {
    seq(|stored|, b requires 0 <= b < |stored| => stored[b] || hashes[b] == h)
  }

  function Count(stored: seq<bool>): nat {
    if stored == [] then 0 else (if stored[0] then 1 else 0) + Count(stored[1..])
  }

  function StatusOf(stored: seq<bool>, expected: nat): UploadStatus {
    if Count(stored) == expected then AllBlocks
    else if Count(stored) < expected then BlocksMissing
    else TooManyBlocks
  }

  ghost predicate AllStored(stored: seq<bool>) {
    forall b :: 0 <= b < |stored| ==> stored[b]
  }

  lemma {:induction false} CountsAll(stored: seq<bool>)
    ensures Count(stored) <= |stored|
    ensures Count(stored) == |stored| <==> AllStored(stored)
  {
    if stored != [] {
      CountsAll(stored[1..]);
      assert AllStored(stored) ==> AllStored(stored[1..]) by {
        assert forall b :: 0 <= b < |stored| - 1 ==> stored[1..][b] == stored[b + 1];
      }
      if stored[0] && AllStored(stored[1..]) {
        forall b | 0 <= b < |stored| ensures stored[b] {
          assert b > 0 ==> stored[1..][b - 1] == stored[b];
        }
      }
    }
  }

  lemma {:induction false} CountSnoc(stored: seq<bool>, b: bool)
    ensures Count(stored + [b]) == Count(stored) + if b then 1 else 0
  {
    if stored == [] {
      assert stored + [b] == [b];
    } else {
      assert (stored + [b])[1..] == stored[1..] + [b];
      CountSnoc(stored[1..], b);
    }
  }

  /** The rows of one file in the block table. */
  class BlockTable {
    const hashes: seq<Digest>
    var stored: seq<bool>

    constructor (hashes: seq<Digest>)
      ensures this.hashes == hashes && |stored| == |hashes|
      ensures forall b :: 0 <= b < |stored| ==> !stored[b]
    {
      this.hashes := hashes;
      stored := seq(|hashes|, _ => false);
    }

    /** Marks the request's hash and compares the number of stored rows with the expected one. */
    method UpdateBlockStorageState(hash: Digest, byteSize: nat, blockSize: nat) returns (status: UploadStatus)
      requires |stored| == |hashes| && blockSize > 0
      modifies this`stored
      ensures stored == old(MarkHash(hashes, stored, hash))
      ensures status == StatusOf(stored, ExpectedBlocks(byteSize, blockSize))
    {
      var rows := MarkHash(hashes, stored, hash);
      stored := rows;
      var storedBlocks := 0;
      for b := 0 to |rows|
        invariant storedBlocks == Count(rows[..b]) && stored == rows
      {
        CountSnoc(rows[..b], rows[b]);
        assert rows[..b + 1] == rows[..b] + [rows[b]];
        if rows[b] {
          storedBlocks := storedBlocks + 1;
        }
      }
      assert rows[..|rows|] == rows;
      var expected := ExpectedBlocks(byteSize, blockSize);
      status := if storedBlocks == expected then AllBlocks
                else if storedBlocks < expected then BlocksMissing
                else TooManyBlocks;
    }
  }

  function ExpectedBlocks(byteSize: nat, blockSize: nat): nat
    requires blockSize > 0
  {
    var n := (byteSize + blockSize - 1) / blockSize;
    if n < 1 then 1 else n
  }

  /** The expected blocks are just enough for the bytes, and an empty file still has one. */
  lemma ExpectedIff(byteSize: nat, blockSize: nat, n: nat)
    requires blockSize > 0
    ensures n == ExpectedBlocks(byteSize, blockSize) <==>
            n >= 1 && byteSize <= n * blockSize && (n > 1 ==> (n - 1) * blockSize < byteSize)
  {
    var e := ExpectedBlocks(byteSize, blockSize);
    JustEnough(byteSize, blockSize);
    if n < e {
      assert n * blockSize <= (e - 1) * blockSize by { Monotone(n, e - 1, blockSize); }
    } else if n > e {
      assert e * blockSize <= (n - 1) * blockSize by { Monotone(e, n - 1, blockSize); }
    }
  }

  lemma Monotone(a: nat, b: nat, c: nat)
    requires a <= b
    ensures a * c <= b * c
  {
  }

  lemma JustEnough(byteSize: nat, blockSize: nat)
    requires blockSize > 0
    ensures var e := ExpectedBlocks(byteSize, blockSize);
            e >= 1 && byteSize <= e * blockSize && (e > 1 ==> (e - 1) * blockSize < byteSize)
  {
    var q := (byteSize + blockSize - 1) / blockSize;
    var r := (byteSize + blockSize - 1) % blockSize;
    assert byteSize + blockSize - 1 == q * blockSize + r;
    assert q >= 1 ==> (q - 1) * blockSize == q * blockSize - blockSize;
  }

  /** Marking the one block of an empty file completes it. */
  lemma EmptyFileCompletes(h: Digest, blockSize: nat)
    requires blockSize > 0
    ensures StatusOf(MarkHash([h], [false], h), ExpectedBlocks(0, blockSize)) == AllBlocks
  {
    var stored := MarkHash([h], [false], h);
    assert stored == [true];
    CountsAll(stored);
    ExpectedIff(0, blockSize, 1);
  }

  // ----- what AllBlocks means -----

  /** Some marked block has the hash of block b. */
  ghost predicate HashMarked(hashes: seq<Digest>, marked: seq<nat>, b: nat)
    requires b < |hashes|
  {
    exists m :: m in marked && m < |hashes| && hashes[m] == hashes[b]
  }

  /** The table after marking these blocks in turn. */
  function StoredAfter(hashes: seq<Digest>, marked: seq<nat>): (r: seq<bool>)
    ensures |r| == |hashes|
    decreases |marked|
  {
    if marked == [] then seq(|hashes|, _ => false)
    else
      var before := StoredAfter(hashes, marked[..|marked| - 1]);
      var m := marked[|marked| - 1];
      if m < |hashes| then MarkHash(hashes, before, hashes[m]) else before
  }

  lemma {:induction false} StoredIff(hashes: seq<Digest>, marked: seq<nat>, b: nat)
    requires b < |hashes|
    ensures StoredAfter(hashes, marked)[b] <==> HashMarked(hashes, marked, b)
    decreases |marked|
  {
    if marked != [] {
      var front, m := marked[..|marked| - 1], marked[|marked| - 1];
      StoredIff(hashes, front, b);
      assert forall x :: x in marked <==> x in front || x == m by {
        assert marked == front + [m];
      }
    }
  }

  ghost predicate DistinctHashes(hashes: seq<Digest>) {
    forall i, j :: 0 <= i < j < |hashes| ==> hashes[i] != hashes[j]
  }

  /** Whatever was marked, AllBlocks is only reported once every block was marked itself. */
  ghost predicate ReportsAreSound(hashes: seq<Digest>) {
    forall marked: seq<nat> :: AllStored(StoredAfter(hashes, marked)) ==> MarksEvery(hashes, marked)
  }

  ghost predicate MarksEvery(hashes: seq<Digest>, marked: seq<nat>) {
    forall b :: 0 <= b < |hashes| ==> b in marked
  }

  function AllBut(n: nat, j: nat): (r: seq<nat>)
    ensures forall b: nat :: b in r <==> b < n && b != j
  {
    if n == 0 then []
    else AllBut(n - 1, j) + if n - 1 == j then [] else [n - 1]
  }

  /**
   * Marking by hash is sound exactly for files whose blocks have distinct hashes: with two equal
   * blocks the file is reported complete while one of them has not been stored.
   */
  lemma SoundIffDistinct(hashes: seq<Digest>)
    ensures ReportsAreSound(hashes) <==> DistinctHashes(hashes)
  {
    if DistinctHashes(hashes) {
      forall marked: seq<nat> | AllStored(StoredAfter(hashes, marked)) ensures MarksEvery(hashes, marked) {
        forall b | 0 <= b < |hashes| ensures b in marked {
          StoredIff(hashes, marked, b);
        }
      }
    } else {
      var i, j :| 0 <= i < j < |hashes| && hashes[i] == hashes[j];
      var marked := AllBut(|hashes|, j);
      forall b | 0 <= b < |hashes| ensures StoredAfter(hashes, marked)[b] {
        StoredIff(hashes, marked, b);
        assert (if b == j then i else b) in marked;
      }
      assert j !in marked;
      assert AllStored(StoredAfter(hashes, marked)) && !MarksEvery(hashes, marked);
    }
  }
}
