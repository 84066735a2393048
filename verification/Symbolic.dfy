/**
 Symbolic cryptography for the Double Ratchet: X25519 and HKDF-SHA256 as free terms.

 A Diffie-Hellman output is an unordered pair of secrets, and a derived key is a term that remembers
 its salt, input and info label.
 */
module Symbolic {
  import opened Common

  /** The public half of a key pair, or the all-zero string that `skip_message_keys` falls back to. */
  datatype Public = ZeroPublic | PublicOf(secret: nat)

  /** Input keying material of an HKDF call. */
  datatype Ikm = NoInput | ZeroShared | DhOut(low: nat, high: nat)

  datatype Info = RootInfo | ChainInfo | MsgInfo

  datatype Key =
    | Shared(sk: Bytes)
    | Hkdf(salt: Key, ikm: Ikm, info: Info)

  function Dh(secret: nat, public: Public): Ikm {
    match public
    case ZeroPublic => ZeroShared
    case PublicOf(other) => if secret <= other then DhOut(secret, other) else DhOut(other, secret)
  }

  /** New root key and new chain key. */
  function KdfRk(rk: Key, dhOut: Ikm): (Key, Key) {
    (Hkdf(rk, dhOut, RootInfo), Hkdf(rk, dhOut, ChainInfo))
  }

  /** Next chain key and message key. */
  function KdfCk(ck: Key): (Key, Key) {
    (Hkdf(ck, NoInput, ChainInfo), Hkdf(ck, NoInput, MsgInfo))
  }

  /** The chain key `n` steps after `ck`. */
  function Advance(ck: Key, n: nat): Key {
    if n == 0 then ck else KdfCk(Advance(ck, n - 1)).0
  }

  /** The message key `n` steps after `ck`. */
  function MessageKey(ck: Key, n: nat): Key {
    KdfCk(Advance(ck, n)).1
  }

  /** Number of HKDF calls between a key and the shared secret it comes from. */
  ghost function Depth(key: Key): nat {
    match key
    case Shared(_) => 0
    case Hkdf(salt, _, _) => 1 + Depth(salt)
  }

  lemma {:induction false} DhCommutes(a: nat, b: nat)
    ensures Dh(a, PublicOf(b)) == Dh(b, PublicOf(a))
  {
  }

  lemma {:induction false} AdvanceDepth(ck: Key, n: nat)
    ensures Depth(Advance(ck, n)) == Depth(ck) + n
  {
    if n > 0 {
      AdvanceDepth(ck, n - 1);
    }
  }

  lemma {:induction false} AdvanceAdds(ck: Key, m: nat, n: nat)
    ensures Advance(Advance(ck, m), n) == Advance(ck, m + n)
  {
    if n > 0 {
      AdvanceAdds(ck, m, n - 1);
    }
  }

  /** The first key of a chain: it comes out of `kdf_rk`, so its HKDF input is not empty. */
  ghost predicate ChainStart(ck: Key) {
    ck.Hkdf? && ck.ikm != NoInput && ck.info == ChainInfo
  }

  /** Chain keys identify both their chain and their position in it. */
  lemma {:induction false} AdvanceInjective(c: Key, m: nat, d: Key, n: nat)
    requires ChainStart(c) && ChainStart(d)
    requires Advance(c, m) == Advance(d, n)
    ensures c == d && m == n
  {
    if m > 0 && n > 0 {
      AdvanceInjective(c, m - 1, d, n - 1);
    }
  }
}
