/**
 Octets-based proof of work: the two leading-zero checks, which are written differently, both mean that
 the hash read as a big-endian number is below a power of two.
 */
module ProofOfWork {
  import opened Common

  /** Byte strings whose bytes can be masked. */
  type Octets = seq<bv8>

  /** The number that a byte string spells, most significant byte first. */
  function Value(h: Octets): nat {
    if |h| == 0 then 0 else (h[0] as nat) * Pow2(8 * |h| - 8) + Value(h[1..])
  }

  /** The first `d` bits of the hash are zero; a hash shorter than that has to be all zero. */
  predicate Meets(h: Octets, d: nat) {
    if d <= 8 * |h| then Value(h) < Pow2(8 * |h| - d) else Value(h) == 0
  }

  // --- Arithmetic of one leading byte ----------------------------------------------------------

  lemma {:induction false} Pow2Adds(m: nat, n: nat)
    ensures Pow2(m + n) == Pow2(m) * Pow2(n)
  {
    if m > 0 {
      Pow2Adds(m - 1, n);
    }
  }

  lemma {:induction false} Pow2Monotone(m: nat, n: nat)
    requires m <= n
    ensures Pow2(m) <= Pow2(n)
  {
    if m < n {
      Pow2Monotone(m, n - 1);
    }
  }

  lemma {:induction false} ValueBound(h: Octets)
    ensures Value(h) < Pow2(8 * |h|)
  {
    if |h| > 0 {
      ValueBound(h[1..]);
      ScaledByte(h[0] as nat, Value(h[1..]), Pow2(8 * |h| - 8), 256);
      Pow2Adds(8, 8 * |h| - 8);
      assert Pow2(8) == 256;
    }
  }

  /** A digit in front of a smaller remainder decides a comparison with a multiple of the unit. */
  lemma ScaledByte(digit: nat, rest: nat, unit: nat, bound: nat)
    requires rest < unit
    ensures digit * unit + rest < bound * unit <==> digit < bound
  {
    if digit < bound {
      assert (digit + 1) * unit <= bound * unit;
    } else {
      assert digit * unit >= bound * unit;
    }
  }

  /** With eight or more bits to go, the first byte has to be zero and the rest has to meet the rest. */
  lemma MeetsWholeByte(h: Octets, d: nat)
    requires |h| > 0 && d >= 8
    ensures Meets(h, d) <==> h[0] == 0 && Meets(h[1..], d - 8)
  {
    var tail, unit := h[1..], Pow2(8 * |h| - 8);
    hide Pow2;
    assert 8 * |h| - d == 8 * |tail| - (d - 8);
    if h[0] != 0 {
      AtLeastUnit(h[0] as nat, Value(tail), unit);
      if d <= 8 * |h| {
        Pow2Monotone(8 * |h| - d, 8 * |h| - 8);
      }
    } else {
      assert (h[0] as nat) * unit == 0;
    }
  }

  lemma AtLeastUnit(digit: nat, rest: nat, unit: nat)
    requires digit > 0
    ensures digit * unit + rest >= unit
  {
    assert digit * unit == (digit - 1) * unit + unit;
  }

  /** With fewer bits to go, only the first byte matters. */
  lemma MeetsPartByte(h: Octets, d: nat)
    requires |h| > 0 && d < 8
    ensures Meets(h, d) <==> (h[0] as nat) < Pow2(8 - d)
  {
    ValueBound(h[1..]);
    Pow2Adds(8 - d, 8 * |h| - 8);
    ScaledByte(h[0] as nat, Value(h[1..]), Pow2(8 * |h| - 8), Pow2(8 - d));
  }

  /** A mask of the `r` high bits selects nothing exactly when the byte is below 2^(8 - r). */
  lemma HighBits(b: bv8, r: nat)
    requires 0 < r < 8
    ensures b & (0xFF << (8 - r)) == 0 <==> (b as nat) < Pow2(8 - r)
  {
    if r == 1 { assert b & 0x80 == 0 <==> b < 0x80; assert Pow2(7) == 128; }
    else if r == 2 { assert b & 0xC0 == 0 <==> b < 0x40; assert Pow2(6) == 64; }
    else if r == 3 { assert b & 0xE0 == 0 <==> b < 0x20; assert Pow2(5) == 32; }
    else if r == 4 { assert b & 0xF0 == 0 <==> b < 0x10; assert Pow2(4) == 16; }
    else if r == 5 { assert b & 0xF8 == 0 <==> b < 0x08; assert Pow2(3) == 8; }
    else if r == 6 { assert b & 0xFC == 0 <==> b < 0x04; assert Pow2(2) == 4; }
    else { assert b & 0xFE == 0 <==> b < 0x02; assert Pow2(1) == 2; }
  }

  // --- The two checks --------------------------------------------------------------------------

  method CheckDifficulty(hash: Octets, difficulty: nat) returns (r: bool)
    ensures r <==> Meets(hash, difficulty)
  {
    var bitsChecked := 0;
    for i := 0 to |hash|
      invariant bitsChecked == 8 * i <= difficulty + 7
      invariant bitsChecked <= difficulty ==>
                  (Meets(hash, difficulty) <==> Meets(hash[i..], difficulty - bitsChecked))
      invariant difficulty < bitsChecked ==> Meets(hash, difficulty)
    {
      if bitsChecked >= difficulty {
        if bitsChecked == difficulty {
          ValueBound(hash[i..]);
        }
        return true;
      }
      var remainingBits := difficulty - bitsChecked;
      if remainingBits >= 8 {
        MeetsWholeByte(hash[i..], remainingBits);
        if hash[i] != 0 {
          return false;
        }
        assert hash[i..][1..] == hash[i + 1..];
        bitsChecked := bitsChecked + 8;
      } else {
        MeetsPartByte(hash[i..], remainingBits);
        HighBits(hash[i], remainingBits);
        var mask: bv8 := 0xFF << (8 - remainingBits);
        return hash[i] & mask == 0;
      }
    }
    r := true;
  }

  predicate HasLeadingZeroBits(bytes: Octets, bits: nat) {
    var fullBytes := bits / 8;
    var remBits := bits % 8;
    && (forall i :: 0 <= i < fullBytes && i < |bytes| ==> bytes[i] == 0)
    && (remBits == 0
        || (fullBytes < |bytes| && bytes[fullBytes] & (0xFF << (8 - remBits)) == 0))
  }

  /** The second check means the same while the difficulty fits the hash, and past it asks for whole bytes. */
  lemma {:induction false} LeadingZerosMeaning(bytes: Octets, bits: nat)
    ensures HasLeadingZeroBits(bytes, bits) <==>
      Meets(bytes, bits) && (bits <= 8 * |bytes| || bits % 8 == 0)
    decreases |bytes|
  {
    if bits < 8 || |bytes| == 0 {
      LeadingZerosLastByte(bytes, bits);
    } else {
      hide HasLeadingZeroBits, Meets;
      LeadingZerosMeaning(bytes[1..], bits - 8);
      MeetsWholeByte(bytes, bits);
      LeadingZerosStep(bytes, bits);
    }
  }

  lemma LeadingZerosLastByte(bytes: Octets, bits: nat)
    requires bits < 8 || |bytes| == 0
    ensures HasLeadingZeroBits(bytes, bits) <==>
      Meets(bytes, bits) && (bits <= 8 * |bytes| || bits % 8 == 0)
  {
    if bits == 0 {
      ValueBound(bytes);
    } else if |bytes| > 0 {
      hide Meets, Pow2;
      MeetsPartByte(bytes, bits);
      HighBits(bytes[0], bits);
    }
  }

  lemma LeadingZerosStep(bytes: Octets, bits: nat)
    requires |bytes| > 0 && bits >= 8
    ensures HasLeadingZeroBits(bytes, bits) <==> bytes[0] == 0 && HasLeadingZeroBits(bytes[1..], bits - 8)
  {
    var tail := bytes[1..];
    assert (bits - 8) / 8 == bits / 8 - 1 && (bits - 8) % 8 == bits % 8;
    if bytes[0] == 0 && forall i :: 0 <= i < bits / 8 - 1 && i < |tail| ==> tail[i] == 0 {
      forall i | 0 <= i < bits / 8 && i < |bytes|
        ensures bytes[i] == 0
      {
        assert i > 0 ==> bytes[i] == tail[i - 1];
      }
    }
    if forall i :: 0 <= i < bits / 8 && i < |bytes| ==> bytes[i] == 0 {
      forall i | 0 <= i < bits / 8 - 1 && i < |tail|
        ensures tail[i] == 0
      {
        assert tail[i] == bytes[i + 1];
      }
    }
  }

  /** For a difficulty within the hash, the second check is a comparison of the hash's value. */
  lemma LeadingZerosBelowPowerOfTwo(bytes: Octets, bits: nat)
    requires bits <= 8 * |bytes|
    ensures HasLeadingZeroBits(bytes, bits) <==> Value(bytes) < Pow2(8 * |bytes| - bits)
  {
    LeadingZerosMeaning(bytes, bits);
  }

  /** The two checks disagree only on an all-zero hash asked for more, uneven bits than it has. */
  lemma ChecksAgreeIff(bytes: Octets, bits: nat)
    ensures (HasLeadingZeroBits(bytes, bits) <==> Meets(bytes, bits)) <==>
      !(Value(bytes) == 0 && bits > 8 * |bytes| && bits % 8 != 0)
  {
    LeadingZerosMeaning(bytes, bits);
  }

  /** A hash that meets a difficulty meets every lower one. */
  lemma MeetsMonotone(h: Octets, low: nat, high: nat)
    requires low <= high && Meets(h, high)
    ensures Meets(h, low)
  {
    if high <= 8 * |h| {
      Pow2Monotone(8 * |h| - high, 8 * |h| - low);
    }
  }

  // --- Minting and verifying tokens ------------------------------------------------------------

  /** The `k` low bytes of a number, least significant first. */
  function LittleEndian(n: nat, k: nat): (r: Octets)
    ensures |r| == k
  {
    if k == 0 then [] else [(n % 256) as bv8] + LittleEndian(n / 256, k - 1)
  }

  function BigEndian(n: nat, k: nat): (r: Octets)
    ensures |r| == k
  {
    if k == 0 then [] else BigEndian(n / 256, k - 1) + [(n % 256) as bv8]
  }

  lemma {:induction false} ValueAppend(h: Octets, last: bv8)
    ensures Value(h + [last]) == 256 * Value(h) + last as nat
  {
    if |h| == 0 {
      assert Value([last]) == (last as nat) * Pow2(0) + Value([last][1..]);
    } else {
      ValueAppend(h[1..], last);
      assert (h + [last])[1..] == h[1..] + [last];
      Pow2Adds(8, 8 * |h| - 8);
      assert Pow2(8) == 256;
      ShiftByte(h[0] as nat, Pow2(8 * |h| - 8));
    }
  }

  lemma ShiftByte(digit: nat, unit: nat)
    ensures digit * (256 * unit) == 256 * (digit * unit)
  {
  }

  /** A number's bytes spell it, if there are enough of them. */
  lemma {:induction false} BigEndianSpells(n: nat, k: nat)
    requires n < Pow256(k)
    ensures Value(BigEndian(n, k)) == n
  {
    if k > 0 {
      hide Value, Pow2;
      QuotientFits(n, k);
      BigEndianSpells(n / 256, k - 1);
      ByteBack(n % 256);
      ValueAppend(BigEndian(n / 256, k - 1), (n % 256) as bv8);
    }
  }

  lemma QuotientFits(n: nat, k: nat)
    requires k > 0 && n < Pow256(k)
    ensures n / 256 < Pow256(k - 1)
  {
    assert Pow256(k) == 256 * Pow256(k - 1);
  }

  /** The other byte order is the mirror image. */
  lemma {:induction false} LittleEndianMirrors(n: nat, k: nat, i: nat)
    requires i < k
    ensures LittleEndian(n, k)[i] == BigEndian(n, k)[k - 1 - i]
  {
    if i > 0 {
      LittleEndianMirrors(n / 256, k - 1, i - 1);
    }
  }

  datatype Token = Token(resource: Octets, timestamp: nat, nonce: nat)

  function TokenHash(sha256: Octets -> Octets, t: Token): Octets {
    sha256(t.resource + LittleEndian(t.timestamp, 8) + LittleEndian(t.nonce, 8))
  }

  predicate Valid(sha256: Octets -> Octets, t: Token, expected: Octets, difficulty: nat, maxAge: nat, now: nat) {
    && t.resource == expected
    && t.timestamp <= now <= t.timestamp + maxAge
    && Meets(TokenHash(sha256, t), difficulty)
  }

  /**
   True exactly when the resource is the expected one, the clock is in the token's window, and the hash of
   resource, timestamp and nonce, read as a number, has its first `difficulty` bits zero.
   */
  method Verify(sha256: Octets -> Octets, t: Token, expected: Octets, difficulty: nat, maxAge: nat, now: nat)
    returns (r: bool)
    ensures var hash := sha256(t.resource + LittleEndian(t.timestamp, 8) + LittleEndian(t.nonce, 8));
      r <==>
        && t.resource == expected
        && t.timestamp <= now && now - t.timestamp <= maxAge
        && (if difficulty <= 8 * |hash| then Value(hash) < Pow2(8 * |hash| - difficulty) else Value(hash) == 0)
    ensures r <==> Valid(sha256, t, expected, difficulty, maxAge, now)
  {
    if t.resource != expected {
      return false;
    }
    if now < t.timestamp || now - t.timestamp > maxAge {
      return false;
    }
    r := CheckDifficulty(TokenHash(sha256, t), difficulty);
  }

  /** Where no 64-bit nonce does the work for a resource and a time, no token for them is accepted, ever. */
  lemma NoWorkNoToken(sha256: Octets -> Octets, resource: Octets, timestamp: nat, difficulty: nat)
    requires forall n :: 0 <= n < 0x1_0000_0000_0000_0000 ==>
      var hash := sha256(resource + LittleEndian(timestamp, 8) + LittleEndian(n, 8));
      if difficulty <= 8 * |hash| then Value(hash) >= Pow2(8 * |hash| - difficulty) else Value(hash) > 0
    ensures forall nonce, expected, maxAge: nat, now: nat :: 0 <= nonce < 0x1_0000_0000_0000_0000 ==>
      !Valid(sha256, Token(resource, timestamp, nonce), expected, difficulty, maxAge, now)
  {
    forall nonce, expected, maxAge: nat, now: nat | 0 <= nonce < 0x1_0000_0000_0000_0000
      ensures !Valid(sha256, Token(resource, timestamp, nonce), expected, difficulty, maxAge, now)
    {
      hide Value, Pow2, LittleEndian;
      assert !Meets(TokenHash(sha256, Token(resource, timestamp, nonce)), difficulty);
    }
  }

  /**
   The token with the first passing nonce, which is then accepted for its own resource throughout its age and
   for nothing else; none when no 64-bit nonce passes, where the code would search until its counter overflows.
   */
  method Mint(sha256: Octets -> Octets, resource: Octets, timestamp: nat, difficulty: nat) returns (r: Option<Token>)
    ensures r.None? <==> forall n :: 0 <= n < 0x1_0000_0000_0000_0000 ==>
      !Meets(TokenHash(sha256, Token(resource, timestamp, n)), difficulty)
    ensures r.Some? ==> var t := r.value;
      && t == Token(resource, timestamp, t.nonce)
      && (forall n :: 0 <= n < t.nonce ==> !Meets(TokenHash(sha256, Token(resource, timestamp, n)), difficulty))
      && (forall expected, maxAge: nat, now: nat :: Valid(sha256, t, expected, difficulty, maxAge, now) <==>
            expected == resource && timestamp <= now <= timestamp + maxAge)
  {
    for nonce := 0 to 0x1_0000_0000_0000_0000
      invariant forall n :: 0 <= n < nonce ==>
        !Meets(TokenHash(sha256, Token(resource, timestamp, n)), difficulty)
    {
      var t := Token(resource, timestamp, nonce);
      var passes := CheckDifficulty(TokenHash(sha256, t), difficulty);
      if passes {
        return Some(t);
      }
    }
    r := None;
  }

  // --- Challenges ------------------------------------------------------------------------------

  datatype Challenge = Challenge(id: Octets, difficultyBits: nat, nonce: Octets)

  predicate VerifyPow(sha256: Octets -> Octets, c: Challenge, solution: Octets) {
    HasLeadingZeroBits(sha256(c.id + c.nonce + solution), c.difficultyBits)
  }

  /** Counter `n` solves the challenge and no smaller one does. */
  ghost predicate Least(sha256: Octets -> Octets, c: Challenge, n: nat) {
    && VerifyPow(sha256, c, BigEndian(n, 8))
    && forall m :: 0 <= m < n ==> !VerifyPow(sha256, c, BigEndian(m, 8))
  }

  /**
   A solution is accepted exactly when the hash of challenge id, challenge nonce and solution, read as a number,
   has its first `difficultyBits` bits zero, for difficulties within the hash.
   */
  lemma AcceptedWork(sha256: Octets -> Octets, c: Challenge, solution: Octets)
    ensures var hash := sha256(c.id + c.nonce + solution);
      c.difficultyBits <= 8 * |hash| ==>
        (VerifyPow(sha256, c, solution) <==> Value(hash) < Pow2(8 * |hash| - c.difficultyBits))
  {
    LeadingZerosMeaning(sha256(c.id + c.nonce + solution), c.difficultyBits);
  }

  /** The solution for the least passing counter, or none when no counter below the limit passes. */
  method SolvePow(sha256: Octets -> Octets, c: Challenge, maxIters: nat) returns (r: Option<Octets>)
    ensures r.None? <==> forall n :: 0 <= n < maxIters ==> !VerifyPow(sha256, c, BigEndian(n, 8))
    ensures r.Some? ==> exists n :: 0 <= n < maxIters && r.value == BigEndian(n, 8) && Least(sha256, c, n)
  {
    for counter := 0 to maxIters
      invariant forall n :: 0 <= n < counter ==> !VerifyPow(sha256, c, BigEndian(n, 8))
    {
      var solution := BigEndian(counter, 8);
      if VerifyPow(sha256, c, solution) {
        assert Least(sha256, c, counter) && VerifyPow(sha256, c, BigEndian(counter, 8));
        return Some(solution);
      }
    }
    r := None;
  }
}
