/** The printed form of a device id and its parser. */
module DeviceId {
  import opened Bytes
  import opened Wrappers
  import opened Base32
  import opened Luhn32

  const DEVICE_ID_LEN := 32

  type Id = b: Buffer | |b| == DEVICE_ID_LEN witness seq(DEVICE_ID_LEN, i => 0)

  datatype IdError =
    | NotAscii
    | UnsupportedLength(len: nat)
    | InvalidSymbol(group: nat)
    | WrongCheck(pos: nat)
    | NotBase32

  // ----- check symbols: four groups of 13 symbols and a check symbol each -----

  /** The first n payloads of s, each followed by its check symbol. */
  function Luhned(s: string, n: nat): (r: string)
    requires AllSymbols(s) && n * 13 <= |s|
    ensures AllSymbols(r) && |r| == n * 14
  {
    if n == 0 then []
    else
      var p := s[(n - 1) * 13..n * 13];
      Luhned(s, n - 1) + p + [CheckSymbol(p)]
  }

  /** The payloads of the first n groups of s, if each of these groups passes its check. */
  function Unluhned(s: string, n: nat): (r: Result<string, IdError>)
    requires n * 14 <= |s|
    ensures r.Success? ==> AllSymbols(r.value) && |r.value| == n * 13
  {
    if n == 0 then Success([])
    else
      match Unluhned(s, n - 1)
      case Failure(e) => Failure(e)
      case Success(front) =>
        var p := s[(n - 1) * 14..n * 14 - 1];
        if !AllSymbols(p) then Failure(InvalidSymbol(n - 1))
        else if s[n * 14 - 1] != CheckSymbol(p) then Failure(WrongCheck(n * 14 - 1))
        else Success(front + p)
  }

  /** Writes a payload and its check symbol behind the groups that are already there. */
  method WriteGroup(res: array<char>, i: nat, p: string) returns (ok: bool)
    requires |p| == 13 && (i + 1) * 14 <= res.Length
    modifies res
    ensures ok == AllSymbols(p)
    ensures ok ==> res[..(i + 1) * 14] == old(res[..i * 14]) + p + [CheckSymbol(p)]
  {
    CopyInto(res, i * 14, p);
    var l := ComputeLuhn32(p);
    if l.None? {
      return false;
    }
    res[(i + 1) * 14 - 1] := l.value;
    assert res[..(i + 1) * 14] == res[..i * 14] + p + [l.value];
    return true;
  }

  /** Fills the 56 characters in place, a group at a time. */
  method Luhnify(s: string) returns (r: Result<string, IdError>)
    ensures |s| != 52 ==> r == Failure(UnsupportedLength(|s|))
    ensures |s| == 52 && AllSymbols(s) ==> r == Success(Luhned(s, 4))
    ensures |s| == 52 && !AllSymbols(s) ==> r.Failure?
  {
    hide CheckSymbol, IsSymbol;
    if |s| != 52 {
      return Failure(UnsupportedLength(|s|));
    }
    var res := new char[56](_ => '0');
    for i := 0 to 4
      invariant AllSymbols(s[..i * 13])
      invariant AllSymbols(s) ==> res[..i * 14] == Luhned(s, i)
    {
      var p := s[i * 13..(i + 1) * 13];
      var ok := WriteGroup(res, i, p);
      if !ok {
        SlicesOfSymbols(s, i * 13, (i + 1) * 13);
        return Failure(InvalidSymbol(i));
      }
      assert s[..(i + 1) * 13] == s[..i * 13] + p;
    }
    assert s[..52] == s;
    assert res[..56] == res[..];
    return Success(res[..]);
  }

  lemma SlicesOfSymbols(s: string, lo: nat, hi: nat)
    requires lo <= hi <= |s|
    ensures AllSymbols(s) ==> AllSymbols(s[lo..hi])
  {
  }

  method Unluhnify(s: string) returns (r: Result<string, IdError>)
    ensures r == if |s| != 56 then Failure(UnsupportedLength(|s|)) else Unluhned(s, 4)
  {
    hide CheckSymbol, IsSymbol, AllSymbols;
    if |s| != 56 {
      return Failure(UnsupportedLength(|s|));
    }
    var res := new char[52](_ => '0');
    for i := 0 to 4
      invariant Unluhned(s, i) == Success(res[..i * 13])
      invariant Unluhned(s, 4).Success? ==> Unluhned(s, i).Success?
    {
      var p := s[i * 14..(i + 1) * 14 - 1];
      CopyInto(res, i * 13, p);
      var l := ComputeLuhn32(p);
      var checkPos := (i + 1) * 14 - 1;
      if l.None? {
        FirstErrorStays(s, i + 1, 4);
        return Failure(InvalidSymbol(i));
      }
      if s[checkPos] != l.value {
        FirstErrorStays(s, i + 1, 4);
        return Failure(WrongCheck(checkPos));
      }
      assert res[..(i + 1) * 13] == res[..i * 13] + p;
    }
    assert res[..52] == res[..];
    return Success(res[..]);
  }

  lemma {:induction false} FirstErrorStays(s: string, m: nat, n: nat)
    requires m <= n && n * 14 <= |s|
    requires Unluhned(s, m).Failure?
    ensures Unluhned(s, n) == Unluhned(s, m)
    decreases n
  {
    if m < n {
      FirstErrorStays(s, m, n - 1);
    }
  }

  method CopyInto(a: array<char>, at: nat, p: string)
    requires at + |p| <= a.Length
    modifies a
    ensures a[..at] == old(a[..at]) && a[at..at + |p|] == p
    ensures a[at + |p|..] == old(a[at + |p|..])
  {
    forall k | 0 <= k < |p| {
      a[at + k] := p[k];
    }
  }

  // ----- dashes -----

  /** The first n chunks of seven, with dashes between them. */
  function Dashed(s: string, n: nat): (r: string)
    requires n * 7 <= |s|
    ensures |r| == if n == 0 then 0 else n * 8 - 1
  {
    if n == 0 then []
    else if n == 1 then s[..7]
    else Dashed(s, n - 1) + ['-'] + s[(n - 1) * 7..n * 7]
  }

  /** Shorter texts make the source's length computation underflow. */
  method Chunkify(s: string) returns (r: string)
    requires |s| >= 7
    ensures r == Dashed(s, |s| / 7)
  {
    hide Dashed;
    var chunks := |s| / 7;
    var res := new char[chunks * 8 - 1](_ => '0');
    for i := 0 to chunks
      invariant i > 0 ==> res[..i * 8 - 1] == Dashed(s, i)
    {
      NextChunk(s, i);
      if i > 0 {
        ghost var front := Dashed(s, i);
        res[i * 8 - 1] := '-';
        assert res[..i * 8] == front + ['-'];
      }
      CopyInto(res, i * 8, s[i * 7..(i + 1) * 7]);
      assert res[..i * 8 + 7] == res[..i * 8] + res[i * 8..i * 8 + 7];
    }
    assert res[..chunks * 8 - 1] == res[..];
    return res[..];
  }

  lemma NextChunk(s: string, i: nat)
    requires (i + 1) * 7 <= |s|
    ensures Dashed(s, i + 1) == (if i == 0 then [] else Dashed(s, i) + ['-']) + s[i * 7..(i + 1) * 7]
  {
  }

  // ----- the text that a user may have typed -----

  predicate IsAscii(t: string) {
    forall i :: 0 <= i < |t| ==> t[i] as int < 128
  }

  function Upper(c: char): char {
    if 'a' <= c <= 'z' then (c as int - 32) as char else c
  }

  function Untypo(c: char): char {
    if c == '0' then 'O' else if c == '1' then 'I' else if c == '8' then 'B' else c
  }

  predicate IsSeparator(c: char) {
    c == '-' || c == ' '
  }

  /** Upper case, without separators, and with the three typos repaired. */
  function Normalize(t: string): string {
    if t == [] then []
    else (if IsSeparator(t[0]) then [] else [Untypo(Upper(t[0]))]) + Normalize(t[1..])
  }

  // ----- conversions -----

  function Undashed(id: Id): (s: string)
    ensures AllSymbols(s) && |s| == 56
  {
    EncodedLength(id);
    Luhned(Encode(id), 4)
  }

  function Display(id: Id): string {
    Dashed(Undashed(id), 8)
  }

  function Parse(t: string): Result<Id, IdError> {
    if !IsAscii(t) then Failure(NotAscii)
    else
      var v := Normalize(t);
      if |v| != 56 then Failure(UnsupportedLength(|v|))
      else
        match Unluhned(v, 4)
        case Failure(e) => Failure(e)
        case Success(payload) =>
          match Decode(payload)
          case None => Failure(NotBase32)
          case Some(id) =>
            DecodedLength(payload);
            Success(id)
  }

  lemma EncodedLength(id: Id)
    ensures |Encode(id)| == 52
  {
    EncodeBits(id);
  }

  /** The copy into the 32-byte array cannot fail. */
  lemma DecodedLength(payload: string)
    requires Decode(payload).Some? && |payload| == 52
    ensures |Decode(payload).value| == DEVICE_ID_LEN
  {
    hide ByteBits, DecodeBits, Fill;
    FilledDecode(SymbolBits(payload));
  }

  /** Display, as the source computes it. */
  method Print(id: Id) returns (t: string)
    ensures t == Display(id)
  {
    hide Luhned, Dashed, Encode, IsSymbol;
    EncodedLength(id);
    var res := Luhnify(Encode(id));
    t := Chunkify(res.value);
  }

  /** The parser, as the source computes it. */
  method TryFrom(value: string) returns (r: Result<Id, IdError>)
    ensures r == Parse(value)
  {
    if !IsAscii(value) {
      return Failure(NotAscii);
    }
    var payload := Unluhnify(Normalize(value));
    if payload.Failure? {
      return Failure(payload.error);
    }
    match Decode(payload.value) {
      case None => return Failure(NotBase32);
      case Some(id) =>
        DecodedLength(payload.value);
        return Success(id);
    }
  }

  // ----- round trips -----

  lemma {:induction false} NormalizeConcat(a: string, b: string)
    ensures Normalize(a + b) == Normalize(a) + Normalize(b)
  {
    if a == [] {
      assert a + b == b;
    } else {
      assert (a + b)[1..] == a[1..] + b;
      NormalizeConcat(a[1..], b);
    }
  }

  lemma {:induction false} NormalizeSymbols(s: string)
    requires AllSymbols(s)
    ensures Normalize(s) == s
  {
    if s != [] {
      NormalizeSymbols(s[1..]);
    }
  }

  lemma {:induction false} NormalizeDashed(s: string, n: nat)
    requires AllSymbols(s) && n * 7 <= |s|
    ensures Normalize(Dashed(s, n)) == s[..n * 7]
  {
    hide Normalize, IsSymbol;
    NormalizeNothing();
    if n > 0 {
      NormalizeDashed(s, n - 1);
      var chunk := s[(n - 1) * 7..n * 7];
      NormalizeSymbols(chunk);
      assert s[..n * 7] == s[..(n - 1) * 7] + chunk;
      if n > 1 {
        NormalizeConcat(Dashed(s, n - 1) + ['-'], chunk);
        NormalizeConcat(Dashed(s, n - 1), ['-']);
      }
    }
  }

  lemma NormalizeNothing()
    ensures Normalize([]) == [] && Normalize(['-']) == []
  {
    assert ['-'][1..] == [];
  }

  lemma {:induction false} AsciiDashed(s: string, n: nat)
    requires AllSymbols(s) && n * 7 <= |s|
    ensures IsAscii(Dashed(s, n))
  {
    if n > 1 {
      AsciiDashed(s, n - 1);
    }
  }

  lemma {:induction false} LuhnRoundTrip(s: string, n: nat, t: string)
    requires AllSymbols(s) && n * 13 <= |s| && Luhned(s, n) <= t
    ensures Unluhned(t, n) == Success(s[..n * 13])
    decreases n
  {
    hide CheckSymbol, IsSymbol;
    if n > 0 {
      assert Luhned(s, n - 1) <= t;
      LuhnRoundTrip(s, n - 1, t);
      var p := s[(n - 1) * 13..n * 13];
      assert t[(n - 1) * 14..n * 14 - 1] == Luhned(s, n)[(n - 1) * 14..n * 14 - 1] == p;
      assert t[n * 14 - 1] == Luhned(s, n)[n * 14 - 1];
      assert s[..n * 13] == s[..(n - 1) * 13] + p;
    }
  }

  lemma {:induction false} LuhnedPrefix(s: string, t: string, n: nat)
    requires AllSymbols(t) && s <= t && n * 13 <= |s|
    ensures AllSymbols(s) && Luhned(s, n) == Luhned(t, n)
    decreases n
  {
    hide CheckSymbol, IsSymbol;
    if n > 0 {
      LuhnedPrefix(s, t, n - 1);
      assert s[(n - 1) * 13..n * 13] == t[(n - 1) * 13..n * 13];
    }
  }

  lemma {:induction false} UnluhnRoundTrip(t: string, n: nat)
    requires n * 14 <= |t| && Unluhned(t, n).Success?
    ensures Luhned(Unluhned(t, n).value, n) == t[..n * 14]
    decreases n
  {
    hide CheckSymbol, AllSymbols, Luhned, Unluhned;
    if n == 0 {
      NoGroups(t);
    } else {
      var front, p := LastGroup(t, n);
      UnluhnRoundTrip(t, n - 1);
      LuhnedSnoc(front, p, n);
      assert t[..n * 14] == t[..(n - 1) * 14] + p + [t[n * 14 - 1]];
    }
  }

  lemma NoGroups(t: string)
    ensures Unluhned(t, 0) == Success([]) && AllSymbols([]) && Luhned([], 0) == []
  {
  }

  /** An accepted text ends in a group that passes its check. */
  lemma LastGroup(t: string, n: nat) returns (front: string, p: string)
    requires 0 < n && n * 14 <= |t| && Unluhned(t, n).Success?
    ensures p == t[(n - 1) * 14..n * 14 - 1] && AllSymbols(p) && t[n * 14 - 1] == CheckSymbol(p)
    ensures Unluhned(t, n - 1) == Success(front) && Unluhned(t, n) == Success(front + p)
  {
    hide CheckSymbol, IsSymbol;
    front, p := Unluhned(t, n - 1).value, t[(n - 1) * 14..n * 14 - 1];
  }

  lemma LuhnedSnoc(front: string, p: string, n: nat)
    requires 0 < n && AllSymbols(front) && AllSymbols(p) && |front| == (n - 1) * 13 && |p| == 13
    ensures AllSymbols(front + p) && Luhned(front + p, n) == Luhned(front, n - 1) + p + [CheckSymbol(p)]
  {
    hide CheckSymbol, IsSymbol;
    LuhnedPrefix(front, front + p, n - 1);
    assert (front + p)[(n - 1) * 13..n * 13] == p;
  }

  /** What Display prints normalises to its symbols. */
  lemma NormalizeDisplay(id: Id)
    ensures IsAscii(Display(id)) && Normalize(Display(id)) == Undashed(id)
  {
    AsciiDashed(Undashed(id), 8);
    NormalizeDashed(Undashed(id), 8);
    assert Undashed(id)[..56] == Undashed(id);
  }

  /** A text is accepted as an id exactly when it normalises to the printed form of that id. */
  lemma ParsesIff(t: string, id: Id)
    ensures Parse(t) == Success(id) <==> IsAscii(t) && Normalize(t) == Normalize(Display(id))
  {
    NormalizeDisplay(id);
    var v := Normalize(t);
    if IsAscii(t) && v == Undashed(id) {
      EncodedLength(id);
      LuhnRoundTrip(Encode(id), 4, v);
      assert Encode(id)[..52] == Encode(id);
      RoundTrip(id);
    }
    if Parse(t) == Success(id) {
      UnluhnRoundTrip(v, 4);
      assert v[..56] == v;
      Canonical(Unluhned(v, 4).value);
    }
  }

  /** Every id is read back from its printed form. */
  lemma DisplayRoundTrip(id: Id)
    ensures Parse(Display(id)) == Success(id)
  {
    NormalizeDisplay(id);
    ParsesIff(Display(id), id);
  }

  // ----- where everything is -----

  /** Every eighth character is a dash, and the others are the symbols in order. */
  lemma {:induction false} DashedAt(s: string, n: nat, i: nat)
    requires n * 7 <= |s| && i < |Dashed(s, n)|
    ensures i % 8 != 7 ==> i - i / 8 < |s|
    ensures Dashed(s, n)[i] == if i % 8 == 7 then '-' else s[i - i / 8]
    decreases n
  {
    if n > 1 && i < (n - 1) * 8 - 1 {
      DashedAt(s, n - 1, i);
    } else if n > 1 && i >= (n - 1) * 8 {
      var j := i - (n - 1) * 8;
      InChunk(i, n - 1, j);
      assert Dashed(s, n)[i] == s[(n - 1) * 7..n * 7][j];
    } else if n > 1 {
      InChunk(i, n - 2, 7);
    }
  }

  lemma InChunk(i: nat, q: nat, j: nat)
    requires i == q * 8 + j && j < 8
    ensures i / 8 == q && i % 8 == j
  {
  }

  /** Group i is payload i followed by its check symbol. */
  lemma {:induction false} LuhnedAt(s: string, n: nat, i: nat)
    requires AllSymbols(s) && n * 13 <= |s| && i < n
    ensures var p := s[i * 13..i * 13 + 13];
            AllSymbols(p) && Luhned(s, n)[i * 14..i * 14 + 14] == p + [CheckSymbol(p)]
    decreases n
  {
    hide CheckSymbol, IsSymbol;
    SlicesOfSymbols(s, i * 13, i * 13 + 13);
    var front := Luhned(s, n - 1);
    if i < n - 1 {
      LuhnedAt(s, n - 1, i);
      assert Luhned(s, n)[i * 14..i * 14 + 14] == front[i * 14..i * 14 + 14];
    }
  }

  /** The groups of a text pass exactly if each of them is accepted by its own check symbol. */
  lemma {:induction false} UnluhnedIff(t: string, n: nat)
    requires n * 14 <= |t|
    ensures Unluhned(t, n).Success? <==> forall i :: 0 <= i < n ==> Accepts(Group(t, i))
    decreases n
  {
    hide Unluhned, Accepts, Group;
    if n == 0 {
      NoGroups(t);
    } else {
      UnluhnedIff(t, n - 1);
      GroupPasses(t, n);
    }
  }

  lemma GroupPasses(t: string, n: nat)
    requires 0 < n && n * 14 <= |t|
    ensures Unluhned(t, n).Success? <==> Unluhned(t, n - 1).Success? && Accepts(Group(t, n - 1))
  {
    hide CheckSymbol, AllSymbols, Accepts;
    var p, c := t[(n - 1) * 14..n * 14 - 1], t[n * 14 - 1];
    assert Group(t, n - 1) == p + [c];
    GroupAccepts(p, c);
  }

  /** The error is that of the first group that does not pass. */
  lemma {:induction false} FirstBadGroup(t: string, n: nat) returns (i: nat)
    requires n * 14 <= |t| && Unluhned(t, n).Failure?
    ensures i < n && !Accepts(Group(t, i)) && forall k :: 0 <= k < i ==> Accepts(Group(t, k))
    ensures Unluhned(t, n).error
            == if AllSymbols(t[i * 14..i * 14 + 13]) then WrongCheck(i * 14 + 13) else InvalidSymbol(i)
    decreases n
  {
    hide CheckSymbol, AllSymbols, Accepts;
    UnluhnedIff(t, n - 1);
    if Unluhned(t, n - 1).Failure? {
      i := FirstBadGroup(t, n - 1);
    } else {
      i := n - 1;
      GroupPasses(t, n);
    }
  }

  function Group(t: string, i: nat): string {
    if i * 14 + 14 <= |t| then t[i * 14..i * 14 + 14] else ""
  }

  lemma GroupAccepts(p: string, c: char)
    ensures Accepts(p + [c]) <==> AllSymbols(p) && c == CheckSymbol(p)
  {
    hide CheckSymbol, IsSymbol;
    var g := p + [c];
    assert g[..|p|] == p && g[|p|] == c;
    assert AllSymbols(g) ==> AllSymbols(p) by {
      SlicesOfSymbols(g, 0, |p|);
    }
  }

  /** The symbols of an id, as one number in base 32, are its bytes, as one number in base 256, times 16. */
  lemma PrintedNumber(id: Id)
    ensures Number(Codes(Encode(id)), 32) == Number(ByteValues(id), 256) * 16
  {
    hide Encode, Fill;
    EncodeIsNumber(id);
    FillerLength(32, 4);
    assert Pow2(2) == 4 && Pow2(4) == 16;
  }

  // ----- which texts normalise alike -----

  /** c is symbol s, in either case or as one of the typos 0, 1 and 8. */
  predicate Spells(c: char, s: char) {
    || c == s
    || ('A' <= s <= 'Z' && c as int == s as int + 32)
    || (s == 'O' && c == '0')
    || (s == 'I' && c == '1')
    || (s == 'B' && c == '8')
  }

  /** t spells s with any number of dashes and spaces thrown in anywhere. */
  predicate IsVariantOf(t: string, s: string)
    decreases |t|
  {
    if t == [] then s == []
    else if IsSeparator(t[0]) then IsVariantOf(t[1..], s)
    else s != [] && Spells(t[0], s[0]) && IsVariantOf(t[1..], s[1..])
  }

  lemma SpellsIff(c: char, s: char)
    requires IsSymbol(s) && !IsSeparator(c)
    ensures Untypo(Upper(c)) == s <==> Spells(c, s)
  {
  }

  lemma {:induction false} NormalizesIff(t: string, s: string)
    requires AllSymbols(s)
    ensures Normalize(t) == s <==> IsVariantOf(t, s)
    decreases |t|
  {
    if t == [] {
    } else if IsSeparator(t[0]) {
      NormalizesIff(t[1..], s);
    } else if s == [] {
      assert |Normalize(t)| > 0;
    } else {
      NormalizesIff(t[1..], s[1..]);
      SpellsIff(t[0], s[0]);
      assert s == [s[0]] + s[1..];
      assert Normalize(t)[0] == Untypo(Upper(t[0])) && Normalize(t)[1..] == Normalize(t[1..]);
    }
  }

  /**
   * The texts accepted as an id are exactly its 56 symbols in upper or lower case, with dashes and
   * spaces anywhere and 0, 1 and 8 for O, I and B.
   */
  lemma AcceptedTexts(t: string, id: Id)
    ensures Parse(t) == Success(id) <==> IsAscii(t) && IsVariantOf(t, Undashed(id))
  {
    ParsesIff(t, id);
    NormalizeDisplay(id);
    NormalizesIff(t, Undashed(id));
  }
}
