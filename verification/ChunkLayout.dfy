/** How a file is cut into chunks, and which writes are accepted. */
module ChunkLayout {
  import opened Bytes
  import opened Wrappers

  /** The size of the file and of its chunks. */
  datatype Layout = Layout(fileSize: nat, chunkSize: nat)

  ghost predicate ValidLayout(l: Layout) {
    l.fileSize > 0 && l.chunkSize > 0
  }

  function ChunkCount(l: Layout): nat
    requires l.chunkSize > 0
  {
    (l.fileSize + l.chunkSize - 1) / l.chunkSize
  }

  datatype WriteError = Unaligned | PastTheEnd | WrongChunkSize | NowConsolidating

  /** The checks of a write, in the order in which they are made. */
  function CheckWrite(l: Layout, len: nat, offset: nat): Option<WriteError>
    requires l.chunkSize > 0
  {
    if offset % l.chunkSize != 0 then Some(Unaligned)
    else if offset >= l.fileSize then Some(PastTheEnd)
    else if len != l.chunkSize && !(len < l.chunkSize && offset == l.fileSize / l.chunkSize * l.chunkSize)
    then Some(WrongChunkSize)
    else None
  }

  /** A piece of data that may be stored as chunk number pos. */
  ghost predicate Fits(l: Layout, pos: nat, len: nat)
    requires l.chunkSize > 0
  {
    pos < ChunkCount(l) && len <= l.chunkSize && (len < l.chunkSize ==> pos == ChunkCount(l) - 1)
  }

  lemma Multiple(q: nat, c: nat, n: nat)
    requires c > 0
    ensures q * c < n <==> q < (n + c - 1) / c
  {
    var k := (n + c - 1) / c;
    var r := (n + c - 1) % c;
    assert n + c - 1 == k * c + r;
    if q < k {
      assert (q + 1) * c <= k * c;
      assert (q + 1) * c == q * c + c;
    } else {
      assert q * c >= k * c;
    }
  }

  /** The chunk index of an accepted write is in bounds, and only the last chunk can be short. */
  lemma AcceptedFits(l: Layout, len: nat, offset: nat)
    requires l.chunkSize > 0 && CheckWrite(l, len, offset) == None
    ensures Fits(l, offset / l.chunkSize, len) && offset == offset / l.chunkSize * l.chunkSize
  {
    var c, q := l.chunkSize, offset / l.chunkSize;
    assert offset == q * c + offset % c;
    Multiple(q, c, l.fileSize);
    if len < c {
      var last := l.fileSize / c;
      assert q * c == last * c;
      if q != last {
        MulCancel(q, last, c);
      }
      assert l.fileSize == last * c + l.fileSize % c;
      Multiple(last + 1, c, l.fileSize);
      assert (last + 1) * c == last * c + c;
    }
  }

  /** Exactly which writes are accepted: a short one only as the odd last chunk of the file. */
  lemma AcceptedIff(l: Layout, len: nat, offset: nat)
    requires l.chunkSize > 0
    ensures CheckWrite(l, len, offset) == None <==>
            && offset % l.chunkSize == 0
            && Fits(l, offset / l.chunkSize, len)
            && (len < l.chunkSize ==> l.fileSize % l.chunkSize != 0)
  {
    var c, q := l.chunkSize, offset / l.chunkSize;
    assert offset == q * c + offset % c;
    if CheckWrite(l, len, offset) == None {
      AcceptedFits(l, len, offset);
    }
    if offset % c == 0 && Fits(l, q, len) {
      Multiple(q, c, l.fileSize);
      if len < c && l.fileSize % c != 0 {
        LastChunk(l);
      }
    }
  }

  /** Which error a write gets that is not accepted: the first check that it fails. */
  lemma ErrorIff(l: Layout, len: nat, offset: nat)
    requires l.chunkSize > 0 && CheckWrite(l, len, offset) != None
    ensures CheckWrite(l, len, offset) == Some(Unaligned) <==> offset % l.chunkSize != 0
    ensures CheckWrite(l, len, offset) == Some(PastTheEnd) <==> offset % l.chunkSize == 0 && offset >= l.fileSize
    ensures CheckWrite(l, len, offset) == Some(WrongChunkSize) <==>
            && offset % l.chunkSize == 0 && offset < l.fileSize
            && !(Fits(l, offset / l.chunkSize, len) && (len < l.chunkSize ==> l.fileSize % l.chunkSize != 0))
  {
    hide Fits;
    AcceptedIff(l, len, offset);
    if offset % l.chunkSize == 0 && offset >= l.fileSize {
      NotInFile(l, offset, len);
    }
  }

  lemma NotInFile(l: Layout, offset: nat, len: nat)
    requires l.chunkSize > 0 && offset % l.chunkSize == 0 && offset >= l.fileSize
    ensures !Fits(l, offset / l.chunkSize, len)
  {
    var q := offset / l.chunkSize;
    assert offset == q * l.chunkSize;
    Multiple(q, l.chunkSize, l.fileSize);
  }

  /** A file that is not a multiple of the chunk size ends in the chunk at the last multiple. */
  lemma LastChunk(l: Layout)
    requires l.chunkSize > 0 && l.fileSize % l.chunkSize != 0
    ensures ChunkCount(l) - 1 == l.fileSize / l.chunkSize
  {
    var c, n := l.chunkSize, l.fileSize;
    var last := n / c;
    assert n == last * c + n % c;
    Multiple(last, c, n);
    Multiple(last + 1, c, n);
    assert (last + 1) * c == last * c + c;
  }

  lemma MulCancel(a: nat, b: nat, c: nat)
    requires c > 0 && a * c == b * c
    ensures a == b
  {
  }

  /** One piece of data for every chunk. */
  ghost predicate Complete(l: Layout, pieces: seq<Buffer>)
    requires l.chunkSize > 0
  {
    |pieces| == ChunkCount(l) && forall i :: 0 <= i < |pieces| ==> Fits(l, i, |pieces[i]|)
  }

  lemma {:induction false} FlattenSnoc(bufs: seq<Buffer>, b: Buffer)
    ensures Flatten(bufs + [b]) == Flatten(bufs) + b
  {
    if bufs == [] {
      assert bufs + [b] == [b];
      assert Flatten([b]) == b + [];
    } else {
      assert (bufs + [b])[1..] == bufs[1..] + [b];
      FlattenSnoc(bufs[1..], b);
    }
  }

  /** All chunks before the last one are full, so chunk i starts where the first i end. */
  lemma {:induction false} FrontLength(l: Layout, pieces: seq<Buffer>, i: nat)
    requires l.chunkSize > 0 && Complete(l, pieces) && i < |pieces|
    ensures |Flatten(pieces[..i])| == i * l.chunkSize
  {
    if i > 0 {
      FrontLength(l, pieces, i - 1);
      assert pieces[..i] == pieces[..i - 1] + [pieces[i - 1]];
      FlattenSnoc(pieces[..i - 1], pieces[i - 1]);
      assert Fits(l, i - 1, |pieces[i - 1]|);
      assert i * l.chunkSize == (i - 1) * l.chunkSize + l.chunkSize;
    }
  }

  /** The assembled file has its declared size exactly when the last chunk has its expected length. */
  lemma WholeLength(l: Layout, pieces: seq<Buffer>)
    requires ValidLayout(l) && Complete(l, pieces)
    ensures var n := ChunkCount(l);
            && n > 0
            && (|Flatten(pieces)| == l.fileSize <==> |pieces[n - 1]| == l.fileSize - (n - 1) * l.chunkSize)
  {
    var n := ChunkCount(l);
    Multiple(0, l.chunkSize, l.fileSize);
    FrontLength(l, pieces, n - 1);
    assert pieces == pieces[..n - 1] + [pieces[n - 1]];
    FlattenSnoc(pieces[..n - 1], pieces[n - 1]);
  }

  /** The slice of the assembled file at chunk i is that chunk. */
  lemma {:induction false} SliceIsPiece(l: Layout, pieces: seq<Buffer>, i: nat)
    requires l.chunkSize > 0 && Complete(l, pieces) && i < |pieces|
    ensures var at := i * l.chunkSize;
            && at + |pieces[i]| <= |Flatten(pieces)|
            && Flatten(pieces)[at..at + |pieces[i]|] == pieces[i]
            && (i + 1 == |pieces| ==> at + |pieces[i]| == |Flatten(pieces)|)
  {
    FrontLength(l, pieces, i);
    FlattenSplit(pieces, i);
  }

  lemma {:induction false} FlattenSplit(bufs: seq<Buffer>, i: nat)
    requires i < |bufs|
    ensures Flatten(bufs) == Flatten(bufs[..i]) + bufs[i] + Flatten(bufs[i + 1..])
  {
    if i == 0 {
      assert bufs[..0] == [];
    } else {
      FlattenSplit(bufs[1..], i - 1);
      assert bufs[..i][1..] == bufs[1..][..i - 1];
      assert bufs[1..][i..] == bufs[i + 1..];
    }
  }
}
