/** Canonical base32 (section 6 of RFC 4648), without the trailing '=' padding. */
module Base32 {
  import opened Bytes
  import opened Wrappers

  type Bits = seq<bool>

  const ALPHABET: string := "ABCDEFGHIJKLMNOPQRSTUVWXYZ234567"

  predicate IsSymbol(c: char) {
    'A' <= c <= 'Z' || '2' <= c <= '7'
  }

  predicate AllSymbols(s: string) {
    forall i :: 0 <= i < |s| ==> IsSymbol(s[i])
  }

  /** The value of a symbol, and its inverse. */
  function Code(c: char): (n: nat)
    requires IsSymbol(c)
    ensures n < 32 && Symbol(n) == c
  {
    if 'A' <= c <= 'Z' then c as int - 'A' as int else c as int + 26 - '2' as int
  }

  function Symbol(n: nat): (c: char)
    requires n < 32
    ensures IsSymbol(c)
  {
    if n < 26 then (n + 'A' as int) as char else (n - 26 + '2' as int) as char
  }

  lemma CodeOfSymbol(n: nat)
    requires n < 32
    ensures Code(Symbol(n)) == n && ALPHABET[n] == Symbol(n)
  {
  }

  // ----- numbers and bits, most significant bit first -----

  function Pow2(n: nat): (p: nat)
    ensures p > 0
  {
    if n == 0 then 1 else 2 * Pow2(n - 1)
  }

  function ToBits(x: nat, n: nat): (b: Bits)
    requires x < Pow2(n)
    ensures |b| == n && FromBits(b) == x
  {
    if n == 0 then []
    else
      var init := ToBits(x / 2, n - 1);
      var b := init + [x % 2 == 1];
      assert b[..n - 1] == init;
      b
  }

  function FromBits(b: Bits): (x: nat)
    ensures x < Pow2(|b|)
  {
    if b == [] then 0
    else 2 * FromBits(b[..|b| - 1]) + if b[|b| - 1] then 1 else 0
  }

  lemma {:induction false} ToBitsOfFromBits(b: Bits)
    ensures ToBits(FromBits(b), |b|) == b
  {
    if b != [] {
      ToBitsOfFromBits(b[..|b| - 1]);
      assert FromBits(b) / 2 == FromBits(b[..|b| - 1]);
      assert b == b[..|b| - 1] + [b[|b| - 1]];
    }
  }

  ghost predicate Fit(xs: seq<nat>, k: nat) {
    forall i :: 0 <= i < |xs| ==> xs[i] < Pow2(k)
  }

  lemma OneLess(n: nat, k: nat)
    requires n > 0
    ensures n * k == k + (n - 1) * k && (n - 1) * k >= 0
  {
  }

  /** Units of k bits each, written one after the other. */
  function UnitsToBits(xs: seq<nat>, k: nat): (b: Bits)
    requires Fit(xs, k)
    ensures |b| == |xs| * k
  {
    if xs == [] then []
    else
      OneLess(|xs|, k);
      ToBits(xs[0], k) + UnitsToBits(xs[1..], k)
  }

  /** The bits read back k at a time; fewer than k left over are dropped. */
  function BitsToUnits(b: Bits, k: nat): (xs: seq<nat>)
    requires k > 0
    ensures Fit(xs, k)
    decreases |b|
  {
    if |b| < k then [] else [FromBits(b[..k])] + BitsToUnits(b[k..], k)
  }

  lemma {:induction false} UnitsRoundTrip(xs: seq<nat>, tail: Bits, k: nat)
    requires k > 0 && |tail| < k && Fit(xs, k)
    ensures BitsToUnits(UnitsToBits(xs, k) + tail, k) == xs
  {
    hide ToBits, FromBits, Pow2;
    if xs != [] {
      OneLess(|xs|, k);
      UnitsRoundTrip(xs[1..], tail, k);
      var b := UnitsToBits(xs, k) + tail;
      assert b[..k] == ToBits(xs[0], k);
      assert b[k..] == UnitsToBits(xs[1..], k) + tail;
    } else {
      assert UnitsToBits(xs, k) + tail == tail;
    }
  }

  lemma UnitInFront(b: Bits, k: nat)
    requires 0 < k <= |b|
    ensures BitsToUnits(b, k) == [FromBits(b[..k])] + BitsToUnits(b[k..], k)
    ensures UnitsToBits(BitsToUnits(b, k), k) == ToBits(FromBits(b[..k]), k) + UnitsToBits(BitsToUnits(b[k..], k), k)
  {
    hide ToBits, FromBits, Pow2;
    assert BitsToUnits(b, k)[1..] == BitsToUnits(b[k..], k);
  }

  lemma {:induction false} BitsRoundTrip(b: Bits, k: nat, n: nat)
    requires k > 0 && |b| == n * k
    ensures |BitsToUnits(b, k)| == n
    ensures UnitsToBits(BitsToUnits(b, k), k) == b
    decreases n
  {
    hide ToBits, FromBits, Pow2;
    if n > 0 {
      OneLess(n, k);
      BitsRoundTrip(b[k..], k, n - 1);
      ToBitsOfFromBits(b[..k]);
      UnitInFront(b, k);
      assert b == b[..k] + b[k..];
    }
  }

  // ----- the codec -----

  lemma UnitSizes()
    ensures Pow2(5) == 32 && Pow2(8) == 256
  {
    assert Pow2(2) == 4 && Pow2(4) == 16 && Pow2(6) == 64;
  }

  function ByteBits(bytes: Buffer): (b: Bits)
    ensures |b| == 8 * |bytes|
  {
    UnitSizes();
    UnitsToBits(ByteValues(bytes), 8)
  }

  function Codes(s: string): (xs: seq<nat>)
    requires AllSymbols(s)
    ensures |xs| == |s| && forall i :: 0 <= i < |s| ==> xs[i] == Code(s[i])
  {
    seq(|s|, i requires 0 <= i < |s| => Code(s[i]))
  }

  function SymbolBits(s: string): (b: Bits)
    requires AllSymbols(s)
    ensures |b| == 5 * |s|
  {
    UnitSizes();
    UnitsToBits(Codes(s), 5)
  }

  /** Zero bits that fill the last symbol. */
  function Fill(n: nat): (b: Bits)
    ensures |b| < 5 && (8 * n + |b|) % 5 == 0 && AllZero(b)
  {
    var r := 8 * n % 5;
    assert 8 * n == 5 * (8 * n / 5) + r;
    seq(if r == 0 then 0 else 5 - r, i => false)
  }

  function Encode(bytes: Buffer): (s: string)
    ensures AllSymbols(s)
  {
    UnitSizes();
    var xs := BitsToUnits(ByteBits(bytes) + Fill(|bytes|), 5);
    seq(|xs|, i requires 0 <= i < |xs| => Symbol(xs[i]))
  }

  predicate AllZero(b: Bits) {
    forall i :: 0 <= i < |b| ==> !b[i]
  }

  /** Decoding fails on a foreign symbol, on an impossible length and on non-zero filler bits. */
  function Decode(s: string): Option<Buffer> {
    if AllSymbols(s) then DecodeBits(SymbolBits(s)) else None
  }

  function DecodeBits(b: Bits): Option<Buffer> {
    var n := |b| / 8;
    if |b| - 8 * n >= 5 || !AllZero(b[8 * n..]) then None
    else Some(ToBytes(b[..8 * n]))
  }

  function ToBytes(b: Bits): (bytes: Buffer)
    ensures ByteValues(bytes) == BitsToUnits(b, 8)
  {
    UnitSizes();
    var xs := BitsToUnits(b, 8);
    seq(|xs|, i requires 0 <= i < |xs| => xs[i] as byte)
  }

  lemma EncodeBits(bytes: Buffer)
    ensures SymbolBits(Encode(bytes)) == ByteBits(bytes) + Fill(|bytes|)
    ensures 5 * |Encode(bytes)| == 8 * |bytes| + |Fill(|bytes|)|
  {
    hide BitsToUnits, UnitsToBits, Fill, ByteBits, Pow2, Code, Symbol;
    UnitSizes();
    var b := ByteBits(bytes) + Fill(|bytes|);
    var xs := BitsToUnits(b, 5);
    var s := Encode(bytes);
    BitsRoundTrip(b, 5, |b| / 5);
    forall i | 0 <= i < |xs| ensures Code(s[i]) == xs[i] {
      CodeOfSymbol(xs[i]);
    }
    assert Codes(s) == xs;
  }

  lemma BytesRoundTrip(bytes: Buffer)
    ensures ToBytes(ByteBits(bytes)) == bytes
  {
    UnitSizes();
    assert ByteBits(bytes) + [] == ByteBits(bytes);
    UnitsRoundTrip(ByteValues(bytes), [], 8);
    var back := ToBytes(ByteBits(bytes));
    assert ByteValues(back) == ByteValues(bytes);
    forall i | 0 <= i < |back| ensures back[i] == bytes[i] {
      assert ByteValues(back)[i] == ByteValues(bytes)[i];
    }
  }

  lemma ByteBitsRoundTrip(b: Bits, n: nat)
    requires |b| == 8 * n
    ensures |ToBytes(b)| == n && ByteBits(ToBytes(b)) == b
  {
    BitsRoundTrip(b, 8, n);
    assert |ToBytes(b)| == |ByteValues(ToBytes(b))|;
  }

  lemma SymbolsRoundTrip(s: string)
    requires AllSymbols(s)
    ensures var xs := BitsToUnits(SymbolBits(s), 5);
            && |xs| == |s| && forall i :: 0 <= i < |s| ==> xs[i] == Code(s[i])
  {
    UnitSizes();
    assert SymbolBits(s) + [] == SymbolBits(s);
    UnitsRoundTrip(Codes(s), [], 5);
  }

  /** The filler is what is left over after the whole bytes. */
  lemma FillerLength(n: nat, len: nat)
    requires len < 5 && (8 * n + len) % 5 == 0
    ensures len == |Fill(n)| && (8 * n + len) / 8 == n && (8 * n + len) % 8 == len
  {
    hide Fill;
    SameResidue(8 * n, len, |Fill(n)|);
    WholeBytes(n, len);
  }

  lemma SameResidue(a: nat, x: nat, y: nat)
    requires x < 5 && y < 5 && (a + x) % 5 == 0 && (a + y) % 5 == 0
    ensures x == y
  {
  }

  lemma WholeBytes(n: nat, len: nat)
    requires len < 8
    ensures (8 * n + len) / 8 == n && (8 * n + len) % 8 == len
  {
  }

  lemma DecodeFilled(bytes: Buffer, fill: Bits)
    requires |fill| < 5 && AllZero(fill)
    ensures DecodeBits(ByteBits(bytes) + fill) == Some(bytes)
  {
    var b, n := ByteBits(bytes) + fill, |bytes|;
    assert |b| / 8 == n;
    assert b[..8 * n] == ByteBits(bytes) && b[8 * n..] == fill;
    BytesRoundTrip(bytes);
  }

  lemma FilledDecode(b: Bits)
    requires DecodeBits(b).Some? && |b| % 5 == 0
    ensures ByteBits(DecodeBits(b).value) + Fill(|DecodeBits(b).value|) == b
  {
    var n := |b| / 8;
    ByteBitsRoundTrip(b[..8 * n], n);
    FillerLength(n, |b| - 8 * n);
    assert b[8 * n..] == Fill(n);
    assert b == b[..8 * n] + b[8 * n..];
  }

  /** For byte strings of every length, decoding undoes encoding. */
  lemma RoundTrip(bytes: Buffer)
    ensures Decode(Encode(bytes)) == Some(bytes)
  {
    EncodeBits(bytes);
    DecodeFilled(bytes, Fill(|bytes|));
  }

  /** The encoding is canonical: a text that decodes is the encoding of what it decodes to. */
  lemma Canonical(s: string)
    requires Decode(s).Some?
    ensures Encode(Decode(s).value) == s
  {
    hide BitsToUnits, Fill, ByteBits, DecodeBits, SymbolBits, Pow2;
    FilledDecode(SymbolBits(s));
    SymbolsRoundTrip(s);
    var t := Encode(Decode(s).value);
    forall i | 0 <= i < |s| ensures t[i] == s[i] {
    }
  }

  // ----- what the text means -----

  /** The first bits are the most significant ones. */
  lemma {:induction false} FromBitsConcat(a: Bits, b: Bits)
    ensures FromBits(a + b) == FromBits(a) * Pow2(|b|) + FromBits(b)
    decreases |b|
  {
    hide FromBits, Pow2;
    if b == [] {
      assert a + b == a;
      NoBits();
    } else {
      var n := |b| - 1;
      assert (a + b)[..|a| + n] == a + b[..n];
      FromBitsConcat(a, b[..n]);
      LastBit(a + b, |a| + n);
      LastBit(b, n);
      Doubled(FromBits(a), Pow2(n), FromBits(b[..n]), if b[n] then 1 else 0);
    }
  }

  lemma NoBits()
    ensures FromBits([]) == 0 && Pow2(0) == 1
  {
  }

  lemma LastBit(b: Bits, n: nat)
    requires |b| == n + 1
    ensures FromBits(b) == 2 * FromBits(b[..n]) + (if b[n] then 1 else 0) && Pow2(n + 1) == 2 * Pow2(n)
  {
  }

  lemma Doubled(x: nat, p: nat, y: nat, bit: nat)
    ensures 2 * (x * p + y) + bit == x * (2 * p) + (2 * y + bit)
  {
  }

  lemma {:induction false} UnitsSnoc(xs: seq<nat>, x: nat, k: nat)
    requires Fit(xs + [x], k)
    ensures Fit(xs, k) && x < Pow2(k)
    ensures UnitsToBits(xs + [x], k) == UnitsToBits(xs, k) + ToBits(x, k)
  {
    hide ToBits, Pow2;
    assert (xs + [x])[|xs|] == x && forall i :: 0 <= i < |xs| ==> (xs + [x])[i] == xs[i];
    if xs == [] {
      assert xs + [x] == [x] && [x][1..] == [];
      assert ToBits(x, k) + [] == ToBits(x, k);
    } else {
      assert (xs + [x])[1..] == xs[1..] + [x];
      UnitsSnoc(xs[1..], x, k);
    }
  }

  /** Units of k bits, one after the other, are digits in base Pow2(k). */
  lemma {:induction false} UnitsAreDigits(xs: seq<nat>, k: nat)
    requires Fit(xs, k)
    ensures FromBits(UnitsToBits(xs, k)) == Number(xs, Pow2(k))
    decreases |xs|
  {
    hide ToBits, Pow2;
    if xs != [] {
      var n := |xs| - 1;
      assert xs == xs[..n] + [xs[n]];
      UnitsSnoc(xs[..n], xs[n], k);
      UnitsAreDigits(xs[..n], k);
      FromBitsConcat(UnitsToBits(xs[..n], k), ToBits(xs[n], k));
    }
  }

  lemma {:induction false} ZeroIsNothing(b: Bits)
    requires AllZero(b)
    ensures FromBits(b) == 0
  {
    if b != [] {
      ZeroIsNothing(b[..|b| - 1]);
    }
  }

  /**
   * What the text means, without bits: its symbols, read as one number in base 32, are the bytes,
   * read as one number in base 256, with the filler behind them.
   */
  lemma EncodeIsNumber(bytes: Buffer)
    ensures Number(Codes(Encode(bytes)), 32) == Number(ByteValues(bytes), 256) * Pow2(|Fill(|bytes|)|)
  {
    hide Encode, Fill, UnitsToBits, FromBits;
    UnitSizes();
    EncodeBits(bytes);
    UnitsAreDigits(Codes(Encode(bytes)), 5);
    UnitsAreDigits(ByteValues(bytes), 8);
    FromBitsConcat(ByteBits(bytes), Fill(|bytes|));
    ZeroIsNothing(Fill(|bytes|));
  }
}
