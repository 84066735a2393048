/** Pluggable transports: obfs4 framing under a counter-mode mask, and Snowflake framing. */
module Obfuscation {
  import opened Common

  /** Two bytes, most significant first, of a length cut to 16 bits. */
  function U16(n: nat): (r: Bytes)
    ensures |r| == 2
  {
    [n / 256 % 256, n % 256]
  }

  function FromU16(high: byte, low: byte): nat {
    256 * high + low
  }

  lemma U16RoundTrip(n: nat)
    ensures FromU16(U16(n)[0], U16(n)[1]) == n % 65536
  {
    var q := n / 256;
    var r := 256 * (q % 256) + n % 256;
    assert n == 256 * q + n % 256 && q == 256 * (q / 256) + q % 256;
    assert n == 65536 * (q / 256) + r && 0 <= r < 65536;
  }

  /** A 32-byte key stream block for each counter value, for the transport's key and a nonce. */
  type KeyStream = f: nat -> Bytes | forall i :: |f(i)| == 32 witness (i => seq(32, _ => 0))

  // --- Obfs4 -----------------------------------------------------------------------------------

  /** The mask of length `len`: byte `i` of the concatenated key stream. */
  function Mask(stream: KeyStream, len: nat): (r: Bytes)
    ensures |r| == len
  {
    seq(len, i requires 0 <= i => stream(i / 32)[i % 32])
  }

  method DeriveMask(stream: KeyStream, len: nat) returns (mask: Bytes)
    ensures mask == Mask(stream, len)
  {
    mask := [];
    var counter := 0;
    while |mask| < len
      invariant |mask| <= len
      invariant |mask| == 32 * counter || |mask| == len
      invariant mask == Mask(stream, len)[..|mask|]
      decreases len - |mask|
    {
      var block := stream(counter);
      var take := if 32 < len - |mask| then 32 else len - |mask|;
      forall i | 0 <= i < take
        ensures block[..take][i] == Mask(stream, len)[|mask| + i]
      {
        assert (32 * counter + i) / 32 == counter && (32 * counter + i) % 32 == i;
      }
      mask := mask + block[..take];
      counter := counter + 1;
    }
  }

  /** A shorter mask is a prefix of every longer one. */
  lemma MaskPrefix(stream: KeyStream, m: nat, n: nat)
    requires m <= n
    ensures Mask(stream, m) == Mask(stream, n)[..m]
  {
    forall i | 0 <= i < m
      ensures Mask(stream, m)[i] == Mask(stream, n)[i]
    {
    }
  }

  /** The first `n` blocks of the key stream, joined. */
  function Joined(stream: KeyStream, n: nat): (r: Bytes)
    ensures |r| == 32 * n
  {
    if n == 0 then [] else Joined(stream, n - 1) + stream(n - 1)
  }

  lemma BlockOf(n: nat, i: nat)
    requires 32 * n <= i < 32 * n + 32
    ensures i / 32 == n && i % 32 == i - 32 * n
  {
  }

  lemma {:induction false} JoinedAt(stream: KeyStream, n: nat, i: nat)
    requires i < 32 * n
    ensures Joined(stream, n)[i] == stream(i / 32)[i % 32]
  {
    if i < 32 * (n - 1) {
      JoinedAt(stream, n - 1, i);
    } else {
      BlockOf(n - 1, i);
    }
  }

  /** The mask is the hash blocks for counters 0, 1, 2 and so on, joined, with the last one cut to length. */
  lemma MaskJoinsBlocks(stream: KeyStream, n: nat, m: nat)
    requires m <= 32
    ensures Mask(stream, 32 * n + m) == Joined(stream, n) + stream(n)[..m]
  {
    hide Joined;
    var mask, joined := Mask(stream, 32 * n + m), Joined(stream, n) + stream(n)[..m];
    forall i | 0 <= i < 32 * n + m
      ensures mask[i] == joined[i]
    {
      if i < 32 * n {
        JoinedAt(stream, n, i);
      } else {
        BlockOf(n, i);
      }
    }
  }

  /** Exclusive or of the `k` low bits. */
  function XorBits(a: nat, b: nat, k: nat): (r: nat)
    ensures r < Pow2(k)
  {
    if k == 0 then 0 else (a + b) % 2 + 2 * XorBits(a / 2, b / 2, k - 1)
  }

  function XorByte(a: byte, b: byte): byte {
    assert Pow2(8) == 256;
    XorBits(a, b, 8)
  }

  /** Bit `i` of a number, counted from the least significant. */
  function Bit(n: nat, i: nat): nat {
    if i == 0 then n % 2 else Bit(n / 2, i - 1)
  }

  /** Each bit of the exclusive or is one exactly when the two bits differ. */
  lemma {:induction false} XorBitsAt(a: nat, b: nat, k: nat, i: nat)
    requires i < k
    ensures Bit(XorBits(a, b, k), i) == 1 <==> Bit(a, i) != Bit(b, i)
  {
    XorBitsStep(a, b, k);
    if i == 0 {
      BitsDiffer(a, b);
    } else {
      hide XorBits;
      XorBitsAt(a / 2, b / 2, k - 1, i - 1);
    }
  }

  lemma BitsDiffer(a: nat, b: nat)
    ensures (a + b) % 2 == 1 <==> a % 2 != b % 2
  {
  }

  lemma {:induction false} XorBitsTwice(a: nat, b: nat, k: nat)
    requires a < Pow2(k)
    ensures XorBits(XorBits(a, b, k), b, k) == a
  {
    if k > 0 {
      hide XorBits, Pow2;
      var x := XorBits(a, b, k);
      HalfBelow(a, k);
      XorBitsTwice(a / 2, b / 2, k - 1);
      XorBitsStep(a, b, k);
      XorBitsStep(x, b, k);
      LowBitTwice(a, b, x);
    } else {
      assert Pow2(0) == 1;
    }
  }

  lemma HalfBelow(a: nat, k: nat)
    requires k > 0 && a < Pow2(k)
    ensures a / 2 < Pow2(k - 1)
  {
    assert Pow2(k) == 2 * Pow2(k - 1);
  }

  /** The low bit and the remaining bits of an exclusive or. */
  lemma XorBitsStep(a: nat, b: nat, k: nat)
    requires k > 0
    ensures XorBits(a, b, k) % 2 == (a + b) % 2
    ensures XorBits(a, b, k) / 2 == XorBits(a / 2, b / 2, k - 1)
  {
    LowBitAndRest((a + b) % 2, XorBits(a / 2, b / 2, k - 1));
  }

  lemma LowBitAndRest(bit: nat, rest: nat)
    requires bit < 2
    ensures (bit + 2 * rest) % 2 == bit && (bit + 2 * rest) / 2 == rest
  {
  }

  lemma LowBitTwice(a: nat, b: nat, x: nat)
    requires x % 2 == (a + b) % 2
    ensures (x + b) % 2 == a % 2
  {
    assert (x + b) % 2 == ((a + b) + b) % 2;
  }

  /** Exclusive or, as long as the shorter operand. */
  function Xor(a: Bytes, b: Bytes): (r: Bytes)
    ensures |r| == if |a| < |b| then |a| else |b|
  {
    seq(if |a| < |b| then |a| else |b|, i requires 0 <= i < |a| && i < |b| => XorByte(a[i], b[i]))
  }

  /** Masking a prefix again with a prefix of the mask gives the data back. */
  lemma XorTwice(data: Bytes, mask: Bytes, n: nat)
    requires n <= |data| <= |mask|
    ensures Xor(Xor(data, mask)[..n], mask[..n]) == data[..n]
  {
    forall i | 0 <= i < n
      ensures Xor(Xor(data, mask)[..n], mask[..n])[i] == data[i]
    {
      assert Pow2(8) == 256;
      XorBitsTwice(data[i], mask[i], 8);
    }
  }

  /** A byte of masked data differs from the data exactly in the bits of its byte of the key stream. */
  lemma MaskedBits(stream: KeyStream, data: Bytes, j: nat, i: nat)
    requires j < |data| && i < 8
    ensures Bit(Xor(data, Mask(stream, |data|))[j], i) == 1 <==>
      Bit(data[j], i) != Bit(stream(j / 32)[j % 32], i)
  {
    hide XorBits, Bit;
    XorBitsAt(data[j], Mask(stream, |data|)[j], 8, i);
  }

  /** The wire format, for the key stream of the drawn nonce. */
  function Obfuscated(stream: KeyStream, nonce: Bytes, data: Bytes, padding: Bytes): Bytes {
    U16(|data|) + nonce + Xor(data, Mask(stream, |data|)) + padding
  }

  method Obfuscate(streams: Bytes -> KeyStream, nonce: Bytes, data: Bytes, padding: Bytes) returns (r: Bytes)
    requires |nonce| == 16
    ensures r == Obfuscated(streams(nonce), nonce, data, padding)
  {
    var mask := DeriveMask(streams(nonce), |data|);
    var masked := Xor(data, mask);
    r := U16(|data|);
    r := r + nonce;
    r := r + masked;
    r := r + padding;
  }

  function Deobfuscated(streams: Bytes -> KeyStream, wire: Bytes): Result<Bytes> {
    if |wire| < 18 then Err("obfs4: packet too short")
    else
      var len := FromU16(wire[0], wire[1]);
      if |wire| < 18 + len then Err("obfs4: truncated payload")
      else Ok(Xor(wire[18..18 + len], Mask(streams(wire[2..18]), len)))
  }

  method Deobfuscate(streams: Bytes -> KeyStream, wire: Bytes) returns (r: Result<Bytes>)
    ensures r == Deobfuscated(streams, wire)
  {
    if |wire| < 18 {
      return Err("obfs4: packet too short");
    }
    var len := FromU16(wire[0], wire[1]);
    if |wire| < 18 + len {
      return Err("obfs4: truncated payload");
    }
    var mask := DeriveMask(streams(wire[2..18]), len);
    r := Ok(Xor(wire[18..18 + len], mask));
  }

  /** The wire: the length in two bytes, the nonce, the masked data, and the padding. */
  lemma WireLayout(stream: KeyStream, nonce: Bytes, data: Bytes, padding: Bytes)
    requires |nonce| == 16
    ensures var wire := Obfuscated(stream, nonce, data, padding);
      && |wire| == 18 + |data| + |padding|
      && 256 * wire[0] as int + wire[1] as int == |data| % 65536
      && wire[2..18] == nonce
      && (forall j, i :: 0 <= j < |data| && 0 <= i < 8 ==>
            (Bit(wire[18 + j], i) == 1 <==> Bit(data[j], i) != Bit(stream(j / 32)[j % 32], i)))
      && wire[18 + |data|..] == padding
  {
    hide Bit, U16, Mask, Xor;
    var wire, masked := Obfuscated(stream, nonce, data, padding), Xor(data, Mask(stream, |data|));
    U16RoundTrip(|data|);
    assert wire[0] == U16(|data|)[0] && wire[1] == U16(|data|)[1];
    assert wire[2..18] == nonce;
    assert wire[18 + |data|..] == padding;
    forall j, i | 0 <= j < |data| && 0 <= i < 8
      ensures Bit(wire[18 + j], i) == 1 <==> Bit(data[j], i) != Bit(stream(j / 32)[j % 32], i)
    {
      assert wire[18 + j] == masked[j];
      MaskedBits(stream, data, j, i);
    }
  }

  /** Bytes are refused exactly when they are too few for the header, or for the length that it announces. */
  lemma DeobfuscationRefusesIff(streams: Bytes -> KeyStream, wire: Bytes)
    ensures var r := Deobfuscated(streams, wire);
      && (r == Err("obfs4: packet too short") <==> |wire| < 18)
      && (r == Err("obfs4: truncated payload") <==> 18 <= |wire| < 18 + 256 * wire[0] as int + wire[1] as int)
      && (18 <= |wire| && 18 + 256 * wire[0] as int + wire[1] as int <= |wire| ==>
            r.Ok? && |r.value| == 256 * wire[0] as int + wire[1] as int)
  {
    hide Xor, Mask;
  }

  /**
   For every data, nonce and padding, removing the obfuscation gives the data cut to its length modulo
   65536: the length field has 16 bits.
   */
  lemma ObfuscationRoundTrip(streams: Bytes -> KeyStream, nonce: Bytes, data: Bytes, padding: Bytes)
    requires |nonce| == 16
    ensures Deobfuscated(streams, Obfuscated(streams(nonce), nonce, data, padding)) == Ok(data[..|data| % 65536])
  {
    hide U16, FromU16, Xor, Mask;
    var n, stream := |data| % 65536, streams(nonce);
    var wire := Obfuscated(stream, nonce, data, padding);
    U16RoundTrip(|data|);
    assert wire[0] == U16(|data|)[0] && wire[1] == U16(|data|)[1];
    assert wire[2..18] == nonce;
    var mask := Mask(stream, |data|);
    assert wire[18..18 + n] == Xor(data, mask)[..n];
    MaskPrefix(stream, n, |data|);
    XorTwice(data, mask, n);
  }

  /** The round trip is exact for data that fits the length field, and for no other. */
  lemma ObfuscationExactIff(streams: Bytes -> KeyStream, nonce: Bytes, data: Bytes, padding: Bytes)
    requires |nonce| == 16
    ensures Deobfuscated(streams, Obfuscated(streams(nonce), nonce, data, padding)) == Ok(data) <==> |data| < 65536
  {
    hide Obfuscated, Deobfuscated;
    ObfuscationRoundTrip(streams, nonce, data, padding);
    assert data[..|data|] == data;
  }

  // --- Snowflake -------------------------------------------------------------------------------

  const MAGIC: Bytes := [0x53, 0x4E, 0x46, 0x4C]

  function SnowflakeFramed(data: Bytes, padding: Bytes): Bytes {
    MAGIC + U16(|data|) + data + U16(|padding|) + padding
  }

  function SnowflakeUnframed(wire: Bytes): Result<Bytes> {
    if |wire| < 6 then Err("snowflake: packet too short")
    else if wire[0..4] != MAGIC then Err("snowflake: invalid magic bytes")
    else
      var len := FromU16(wire[4], wire[5]);
      if |wire| < 6 + len then Err("snowflake: truncated frame")
      else Ok(wire[6..6 + len])
  }

  /** A frame: the letters SNFL, the length in two bytes, the data, the padding's length and the padding. */
  lemma FrameLayout(data: Bytes, padding: Bytes)
    ensures var wire := SnowflakeFramed(data, padding); var n := |data|;
      && |wire| == 8 + n + |padding|
      && (forall i :: 0 <= i < 4 ==> wire[i] == "SNFL"[i] as int)
      && 256 * wire[4] as int + wire[5] as int == n % 65536
      && wire[6..6 + n] == data
      && 256 * wire[6 + n] as int + wire[7 + n] as int == |padding| % 65536
      && wire[8 + n..] == padding
  {
    hide U16;
    var wire, n := SnowflakeFramed(data, padding), |data|;
    U16RoundTrip(n);
    U16RoundTrip(|padding|);
    assert wire[4] == U16(n)[0] && wire[5] == U16(n)[1];
    assert wire[6 + n] == U16(|padding|)[0] && wire[7 + n] == U16(|padding|)[1];
    assert wire[6..6 + n] == data && wire[8 + n..] == padding;
  }

  lemma UnframingRefusesIff(wire: Bytes)
    ensures var r := SnowflakeUnframed(wire);
      && (r == Err("snowflake: packet too short") <==> |wire| < 6)
      && (r == Err("snowflake: invalid magic bytes") <==>
            |wire| >= 6 && exists i :: 0 <= i < 4 && wire[i] != "SNFL"[i] as int)
      && (r == Err("snowflake: truncated frame") <==>
            && |wire| >= 6 && (forall i :: 0 <= i < 4 ==> wire[i] == "SNFL"[i] as int)
            && |wire| < 6 + 256 * wire[4] as int + wire[5] as int)
  {
    if |wire| >= 6 {
      assert forall i :: 0 <= i < 4 ==> wire[0..4][i] == wire[i] && MAGIC[i] == "SNFL"[i] as int;
    }
  }

  /** Snowflake frames have the same 16-bit limit. */
  lemma SnowflakeRoundTrip(data: Bytes, padding: Bytes)
    ensures SnowflakeUnframed(SnowflakeFramed(data, padding)) == Ok(data[..|data| % 65536])
    ensures SnowflakeUnframed(SnowflakeFramed(data, padding)) == Ok(data) <==> |data| < 65536
  {
    hide U16, FromU16;
    var wire := SnowflakeFramed(data, padding);
    U16RoundTrip(|data|);
    assert wire[0..4] == MAGIC;
    assert wire[4] == U16(|data|)[0] && wire[5] == U16(|data|)[1];
    assert wire[6..6 + |data| % 65536] == data[..|data| % 65536];
    assert data[..|data|] == data;
  }
}
