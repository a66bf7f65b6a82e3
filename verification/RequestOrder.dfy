/** Outgoing requests and the total order in which the request queue iterates over them. */
module RequestOrder {
  import opened Bytes

  type Hash = h: Buffer | |h| == 32 witness seq(32, i => 0)

  /** What identifies a requested block; sizes are non-negative. */
  datatype OutgoingRequest = OutgoingRequest(
    folder: string, name: string, offset: int, size: nat, hash: Hash, fromTemporary: bool)

  datatype Request = Request(
    id: int, folder: string, name: string, offset: int, size: nat, hash: Hash, fromTemporary: bool)

  function Key(r: Request): OutgoingRequest {
    OutgoingRequest(r.folder, r.name, r.offset, r.size, r.hash, r.fromTemporary)
  }

  // ----- the order: field by field, texts by code point -----

  function Points(s: string): (p: seq<int>)
    ensures |p| == |s| && forall i :: 0 <= i < |s| ==> p[i] == s[i] as int
  {
    seq(|s|, i requires 0 <= i < |s| => s[i] as int)
  }

  function Numbers(b: Buffer): (p: seq<int>)
    ensures |p| == |b| && forall i :: 0 <= i < |b| ==> p[i] == b[i] as int
  {
    seq(|b|, i requires 0 <= i < |b| => b[i] as int)
  }

  function Fields(k: OutgoingRequest): seq<seq<int>> {
    [Points(k.folder), Points(k.name), [k.offset], [k.size], Numbers(k.hash),
     [if k.fromTemporary then 1 else 0]]
  }

  predicate LexLess(a: seq<int>, b: seq<int>) {
    if b == [] then false
    else if a == [] then true
    else a[0] < b[0] || (a[0] == b[0] && LexLess(a[1..], b[1..]))
  }

  predicate FieldsLess(a: seq<seq<int>>, b: seq<seq<int>>) {
    if b == [] then false
    else if a == [] then true
    else LexLess(a[0], b[0]) || (a[0] == b[0] && FieldsLess(a[1..], b[1..]))
  }

  predicate Less(a: OutgoingRequest, b: OutgoingRequest) {
    FieldsLess(Fields(a), Fields(b))
  }

  lemma {:induction false} LexTotal(a: seq<int>, b: seq<int>)
    ensures !(LexLess(a, b) && LexLess(b, a))
    ensures LexLess(a, b) || LexLess(b, a) <==> a != b
  {
    if a != [] && b != [] && a[0] == b[0] {
      LexTotal(a[1..], b[1..]);
      assert a == [a[0]] + a[1..] && b == [b[0]] + b[1..];
    }
  }

  lemma {:induction false} LexTransitive(a: seq<int>, b: seq<int>, c: seq<int>)
    requires LexLess(a, b) && LexLess(b, c)
    ensures LexLess(a, c)
  {
    if a != [] && a[0] == b[0] && b[0] == c[0] {
      LexTransitive(a[1..], b[1..], c[1..]);
    }
  }

  lemma {:induction false} FieldsTotal(a: seq<seq<int>>, b: seq<seq<int>>)
    ensures !(FieldsLess(a, b) && FieldsLess(b, a))
    ensures FieldsLess(a, b) || FieldsLess(b, a) <==> a != b
  {
    if a != [] && b != [] {
      LexTotal(a[0], b[0]);
      if a[0] == b[0] {
        FieldsTotal(a[1..], b[1..]);
        assert a == [a[0]] + a[1..] && b == [b[0]] + b[1..];
      }
    }
  }

  lemma {:induction false} FieldsTransitive(a: seq<seq<int>>, b: seq<seq<int>>, c: seq<seq<int>>)
    requires FieldsLess(a, b) && FieldsLess(b, c)
    ensures FieldsLess(a, c)
  {
    if a != [] {
      LexTotal(a[0], b[0]);
      LexTotal(b[0], c[0]);
      if LexLess(a[0], b[0]) && LexLess(b[0], c[0]) {
        LexTransitive(a[0], b[0], c[0]);
      } else if a[0] == b[0] && b[0] == c[0] {
        FieldsTransitive(a[1..], b[1..], c[1..]);
      }
    }
  }

  lemma FieldsInjective(a: OutgoingRequest, b: OutgoingRequest)
    requires Fields(a) == Fields(b)
    ensures a == b
  {
    var fa, fb := Fields(a), Fields(b);
    assert fa[0] == fb[0] && fa[1] == fb[1] && fa[2] == fb[2] && fa[3] == fb[3] && fa[4] == fb[4] && fa[5] == fb[5];
    SameText(a.folder, b.folder);
    SameText(a.name, b.name);
    assert fa[2][0] == a.offset && fa[3][0] == a.size;
    forall i | 0 <= i < 32 ensures a.hash[i] == b.hash[i] {
      assert fa[4][i] == fb[4][i];
    }
    assert a.hash == b.hash;
    assert fa[5][0] == if a.fromTemporary then 1 else 0;
  }

  lemma SameText(s: string, t: string)
    requires Points(s) == Points(t)
    ensures s == t
  {
    assert |s| == |t|;
    forall i | 0 <= i < |s| ensures s[i] == t[i] {
      assert Points(s)[i] == Points(t)[i];
    }
  }

  /** Less is a strict total order. */
  lemma LessTotal(a: OutgoingRequest, b: OutgoingRequest)
    ensures !(Less(a, b) && Less(b, a))
    ensures Less(a, b) || Less(b, a) <==> a != b
  {
    FieldsTotal(Fields(a), Fields(b));
    if Fields(a) == Fields(b) {
      FieldsInjective(a, b);
    }
  }

  lemma LessTransitive(a: OutgoingRequest, b: OutgoingRequest, c: OutgoingRequest)
    requires Less(a, b) && Less(b, c)
    ensures Less(a, c)
  {
    FieldsTransitive(Fields(a), Fields(b), Fields(c));
  }

  /** One text comes before another: a strict beginning of it, or smaller at the first difference. */
  ghost predicate Before(a: seq<int>, b: seq<int>) {
    exists n: nat :: n <= |a| && n <= |b| && a[..n] == b[..n] && DiffersAt(a, b, n)
  }

  ghost predicate DiffersAt(a: seq<int>, b: seq<int>, n: nat) {
    n < |b| && (n < |a| ==> a[n] < b[n])
  }

  lemma {:induction false} LexLessIff(a: seq<int>, b: seq<int>)
    ensures LexLess(a, b) <==> Before(a, b)
  {
    if a == [] || b == [] || a[0] != b[0] {
      if b != [] && (a == [] || a[0] < b[0]) {
        assert a[..0] == b[..0] && DiffersAt(a, b, 0);
      }
    } else {
      LexLessIff(a[1..], b[1..]);
      if n: nat :| n <= |a| && n <= |b| && a[..n] == b[..n] && DiffersAt(a, b, n) {
        assert n > 0;
        assert a[1..][..n - 1] == a[..n][1..] && b[1..][..n - 1] == b[..n][1..];
        assert DiffersAt(a[1..], b[1..], n - 1);
      }
      if n: nat :| n <= |a[1..]| && n <= |b[1..]| && a[1..][..n] == b[1..][..n] && DiffersAt(a[1..], b[1..], n) {
        assert a[..n + 1] == [a[0]] + a[1..][..n] && b[..n + 1] == [b[0]] + b[1..][..n];
        assert DiffersAt(a, b, n + 1);
      }
    }
  }

  /**
   * The order of requests, spelled out: by folder, then by name, by offset, by size and by hash, and
   * last the ones that are not from a temporary file.
   */
  lemma LessIff(a: Request, b: Request)
    ensures Less(Key(a), Key(b)) <==>
            if a.folder != b.folder then Before(Points(a.folder), Points(b.folder))
            else if a.name != b.name then Before(Points(a.name), Points(b.name))
            else if a.offset != b.offset then a.offset < b.offset
            else if a.size != b.size then a.size < b.size
            else if a.hash != b.hash then Before(Numbers(a.hash), Numbers(b.hash))
            else !a.fromTemporary && b.fromTemporary
  {
    hide Before, LexLess;
    var x, y := Fields(Key(a)), Fields(Key(b));
    LexLessIff(x[0], y[0]);
    LexLessIff(x[1], y[1]);
    LexLessIff(x[4], y[4]);
    OneNumber(a.offset, b.offset);
    OneNumber(a.size, b.size);
    OneNumber(x[5][0], y[5][0]);
    TextsDiffer(a.folder, b.folder);
    TextsDiffer(a.name, b.name);
    HashesDiffer(a.hash, b.hash);
    FirstDifference(x, y);
  }

  lemma OneNumber(x: int, y: int)
    ensures LexLess([x], [y]) <==> x < y
    ensures [x] == [y] <==> x == y
  {
    assert [x][1..] == [] && [y][1..] == [];
    assert [x][0] == x && [y][0] == y;
  }

  lemma TextsDiffer(s: string, t: string)
    ensures Points(s) == Points(t) <==> s == t
    ensures s == t ==> !Before(Points(s), Points(t))
  {
    hide Before;
    if Points(s) == Points(t) {
      SameText(s, t);
    }
    LexTotal(Points(s), Points(s));
    LexLessIff(Points(s), Points(s));
  }

  lemma HashesDiffer(s: Hash, t: Hash)
    ensures Numbers(s) == Numbers(t) <==> s == t
  {
    if Numbers(s) == Numbers(t) {
      forall i | 0 <= i < 32 ensures s[i] == t[i] {
        assert Numbers(s)[i] == Numbers(t)[i];
      }
    }
  }

  /** The first field that differs decides. */
  lemma FirstDifference(x: seq<seq<int>>, y: seq<seq<int>>)
    requires |x| == |y| == 6
    ensures FieldsLess(x, y) <==>
            if x[0] != y[0] then LexLess(x[0], y[0])
            else if x[1] != y[1] then LexLess(x[1], y[1])
            else if x[2] != y[2] then LexLess(x[2], y[2])
            else if x[3] != y[3] then LexLess(x[3], y[3])
            else if x[4] != y[4] then LexLess(x[4], y[4])
            else LexLess(x[5], y[5])
  {
    hide LexLess, FieldsLess;
    FirstField(x, y, 0);
    FirstField(x, y, 1);
    FirstField(x, y, 2);
    FirstField(x, y, 3);
    FirstField(x, y, 4);
    FirstField(x, y, 5);
    NoField(x, y);
  }

  lemma FirstField(x: seq<seq<int>>, y: seq<seq<int>>, i: nat)
    requires i < |x| == |y|
    ensures FieldsLess(x[i..], y[i..]) <==>
            if x[i] != y[i] then LexLess(x[i], y[i]) else FieldsLess(x[i + 1..], y[i + 1..])
    ensures x[0..] == x && y[0..] == y
  {
    LexTotal(x[i], x[i]);
    assert x[i..][1..] == x[i + 1..] && y[i..][1..] == y[i + 1..];
  }

  lemma NoField(x: seq<seq<int>>, y: seq<seq<int>>)
    requires |x| == |y|
    ensures !FieldsLess(x[|x|..], y[|y|..])
    ensures x != [] && x[|x| - 1] == y[|y| - 1] ==> !LexLess(x[|x| - 1], y[|y| - 1])
  {
    if x != [] {
      LexTotal(x[|x| - 1], x[|x| - 1]);
    }
  }

  // ----- iterating over a set in order -----

  ghost predicate IsLeast(m: OutgoingRequest, s: set<OutgoingRequest>) {
    m in s && forall x :: x in s && x != m ==> Less(m, x)
  }

  /** The least element, found by comparing with every element in turn. */
  method FindLeast(s: set<OutgoingRequest>) returns (m: OutgoingRequest)
    requires s != {}
    ensures IsLeast(m, s)
  {
    m :| m in s;
    var rest := s - {m};
    while rest != {}
      invariant rest <= s && m in s - rest
      invariant forall x :: x in s - rest && x != m ==> Less(m, x)
      decreases rest
    {
      var x :| x in rest;
      LessTotal(m, x);
      if Less(x, m) {
        forall y | y in s - rest && y != m ensures Less(x, y) {
          LessTransitive(x, m, y);
        }
        m := x;
      }
      rest := rest - {x};
    }
  }

  predicate Increasing(ks: seq<OutgoingRequest>) {
    |ks| <= 1 || (Less(ks[0], ks[1]) && Increasing(ks[1..]))
  }

  ghost predicate StrictlySorted(ks: seq<OutgoingRequest>) {
    forall i, j :: 0 <= i < j < |ks| ==> Less(ks[i], ks[j])
  }

  lemma {:induction false} IncreasingIsSorted(ks: seq<OutgoingRequest>)
    requires Increasing(ks)
    ensures StrictlySorted(ks)
  {
    if |ks| > 1 {
      IncreasingIsSorted(ks[1..]);
      forall i, j | 0 <= i < j < |ks| ensures Less(ks[i], ks[j]) {
        if i > 0 {
          assert ks[i] == ks[1..][i - 1] && ks[j] == ks[1..][j - 1];
        } else if j > 1 {
          assert ks[1] == ks[1..][0] && ks[j] == ks[1..][j - 1];
          LessTransitive(ks[0], ks[1], ks[j]);
        }
      }
    }
  }

  /** ks lists every element of s once, in increasing order. */
  ghost predicate IsListing(ks: seq<OutgoingRequest>, s: set<OutgoingRequest>) {
    (forall x :: x in ks <==> x in s) && Increasing(ks)
  }

  lemma HeadIsLeast(ks: seq<OutgoingRequest>, s: set<OutgoingRequest>)
    requires IsListing(ks, s) && s != {}
    ensures |ks| > 0 && IsLeast(ks[0], s) && IsListing(ks[1..], s - {ks[0]})
  {
    var x :| x in s;
    assert x in ks;
    IncreasingIsSorted(ks);
    var head := ks[0];
    assert head in ks;
    forall y | y in s && y != head ensures Less(head, y) {
      assert y in ks;
      var j :| 0 <= j < |ks| && ks[j] == y;
    }
    forall y | y in ks[1..] ensures y in s && y != head {
      var j :| 0 <= j < |ks[1..]| && ks[1..][j] == y;
      assert ks[j + 1] == y && y in ks;
      LessTotal(head, y);
    }
    forall y | y in s && y != head ensures y in ks[1..] {
      assert y in ks;
      var j :| 0 <= j < |ks| && ks[j] == y;
      assert ks[1..][j - 1] == y;
    }
  }

  lemma LeastUnique(m: OutgoingRequest, n: OutgoingRequest, s: set<OutgoingRequest>)
    requires IsLeast(m, s) && IsLeast(n, s)
    ensures m == n
  {
    LessTotal(m, n);
  }

  lemma NoElements<T>(s: seq<T>)
    ensures s == [] <==> forall x :: x !in s
  {
    assert |s| > 0 ==> s[0] in s;
  }

  lemma {:induction false} ListingUnique(ks: seq<OutgoingRequest>, ls: seq<OutgoingRequest>, s: set<OutgoingRequest>)
    requires IsListing(ks, s) && IsListing(ls, s)
    ensures ks == ls
    decreases s
  {
    if s == {} {
      NoElements(ks);
      NoElements(ls);
    } else {
      HeadIsLeast(ks, s);
      HeadIsLeast(ls, s);
      LeastUnique(ks[0], ls[0], s);
      ListingUnique(ks[1..], ls[1..], s - {ks[0]});
      assert ks == [ks[0]] + ks[1..] && ls == [ls[0]] + ls[1..];
    }
  }

  lemma {:induction false} IncreasingSnoc(ks: seq<OutgoingRequest>, x: OutgoingRequest)
    requires Increasing(ks) && forall y :: y in ks ==> Less(y, x)
    ensures Increasing(ks + [x])
  {
    if |ks| > 1 {
      assert forall y :: y in ks[1..] ==> y in ks;
      IncreasingSnoc(ks[1..], x);
      assert (ks + [x])[1..] == ks[1..] + [x];
    } else if |ks| == 1 {
      assert ks[0] in ks;
      assert (ks + [x])[1..] == [x];
    }
  }

  /** The keys of an ordered map, as its iterator yields them. */
  method Iterate(s: set<OutgoingRequest>) returns (ks: seq<OutgoingRequest>)
    ensures ks == InOrder(s)
  {
    ks := [];
    var rest := s;
    while rest != {}
      invariant rest <= s && (forall x :: x in ks <==> x in s - rest)
      invariant Increasing(ks)
      invariant forall x, y :: x in ks && y in rest ==> Less(x, y)
      decreases rest
    {
      var m := FindLeast(rest);
      IncreasingSnoc(ks, m);
      ks := ks + [m];
      rest := rest - {m};
    }
    ListingUnique(ks, InOrder(s), s);
  }

  lemma {:induction false} ListingExists(s: set<OutgoingRequest>) returns (ks: seq<OutgoingRequest>)
    ensures IsListing(ks, s)
    decreases s
  {
    if s == {} {
      ks := [];
    } else {
      var m := LeastExists(s);
      var tail := ListingExists(s - {m});
      ks := [m] + tail;
      assert ks[1..] == tail;
      if tail != [] {
        assert tail[0] in tail;
      }
    }
  }

  lemma {:induction false} LeastExists(s: set<OutgoingRequest>) returns (m: OutgoingRequest)
    requires s != {}
    ensures IsLeast(m, s)
    decreases s
  {
    m :| m in s;
    var rest := s - {m};
    assert forall x :: x in s && x != m ==> x in rest;
    if rest != {} {
      var n := LeastExists(rest);
      LessTotal(m, n);
      if Less(m, n) {
        forall x | x in s && x != m ensures Less(m, x) {
          if x != n {
            LessTransitive(m, n, x);
          }
        }
      } else {
        m := n;
      }
    }
  }

  /** The elements of s in increasing order. */
  ghost function InOrder(s: set<OutgoingRequest>): (ks: seq<OutgoingRequest>)
    ensures IsListing(ks, s)
  {
    assert exists ks :: IsListing(ks, s) by {
      var ks := ListingExists(s);
    }
    var ks :| IsListing(ks, s);
    ks
  }
}
