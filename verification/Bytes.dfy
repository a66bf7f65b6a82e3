/** Bytes and the big-endian length fields of the wire format. */
module Bytes {
  type byte = x: int | 0 <= x < 256

  type Buffer = seq<byte>

  function FromBe16(b: Buffer): (n: nat)
    requires |b| == 2
    ensures n < 0x1_0000
  {
    b[0] as int * 256 + b[1] as int
  }

  function ToBe16(n: nat): (b: Buffer)
    requires n < 0x1_0000
    ensures |b| == 2 && FromBe16(b) == n
  {
    [n / 256, n % 256]
  }

  function FromBe32(b: Buffer): (n: nat)
    requires |b| == 4
    ensures n < 0x1_0000_0000
  {
    FromBe16(b[..2]) * 0x1_0000 + FromBe16(b[2..])
  }

  function ToBe32(n: nat): (b: Buffer)
    requires n < 0x1_0000_0000
    ensures |b| == 4 && FromBe32(b) == n
  {
    var hi, lo := ToBe16(n / 0x1_0000), ToBe16(n % 0x1_0000);
    assert (hi + lo)[..2] == hi && (hi + lo)[2..] == lo;
    hi + lo
  }

  // ----- digits -----

  /** Digits in some base read as one number, the most significant digit first. */
  function Number(xs: seq<nat>, base: nat): nat {
    if xs == [] then 0 else Number(xs[..|xs| - 1], base) * base + xs[|xs| - 1]
  }

  function ByteValues(b: Buffer): (xs: seq<nat>)
    ensures |xs| == |b| && forall i :: 0 <= i < |b| ==> xs[i] == b[i] as nat
  {
    seq(|b|, i requires 0 <= i < |b| => b[i] as nat)
  }

  /** The length fields are big-endian. */
  lemma Be16IsNumber(b: Buffer)
    requires |b| == 2
    ensures FromBe16(b) == Number(ByteValues(b), 256)
  {
    var xs := ByteValues(b);
    LastDigit(xs, 1);
    LastDigit(xs[..1], 0);
    assert xs[..1][..0] == [] && Number([], 256) == 0;
  }

  lemma LastDigit(xs: seq<nat>, n: nat)
    requires |xs| == n + 1
    ensures Number(xs, 256) == Number(xs[..n], 256) * 256 + xs[n]
  {
  }

  lemma Be32IsNumber(b: Buffer)
    requires |b| == 4
    ensures FromBe32(b) == Number(ByteValues(b), 256)
  {
    hide Number;
    var xs := ByteValues(b);
    Be16IsNumber(b[..2]);
    assert ByteValues(b[..2]) == xs[..2];
    LastDigit(xs, 3);
    LastDigit(xs[..3], 2);
    assert xs[..3][..2] == xs[..2];
  }

  /** The bytes of a run of buffers, one after the other. */
  function Flatten(bufs: seq<Buffer>): (b: Buffer) {
    if bufs == [] then [] else bufs[0] + Flatten(bufs[1..])
  }
}
