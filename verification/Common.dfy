/** Types and small definitions that several modules share. */
module Common {
  datatype Option<+T> = None | Some(value: T) {
    function GetOr(default: T): T {
      if Some? then value else default
    }
  }

  datatype Result<+T> = Ok(value: T) | Err(error: string)

  type byte = b: int | 0 <= b < 256

  type Bytes = seq<byte>

  /** A byte survives being a bit vector. */
  lemma ByteBack(n: int)
    requires 0 <= n < 256
    ensures (n as bv8) as int == n
  {
  }

  /** The part of a peer's stored settings that decides what it may do. */
  datatype PeerSettings = PeerSettings(blocked: bool, trustLevel: int)

  /** An AES-256-GCM ciphertext as a free term: it opens only under the key and the nonce that made it. */
  datatype Ciphertext<+K> = Sealed(key: K, nonce: nat, text: Bytes)

  function Open<K(==)>(key: K, nonce: nat, ciphertext: Ciphertext<K>): Result<Bytes> {
    if key == ciphertext.key && nonce == ciphertext.nonce
    then Ok(ciphertext.text)
    else Err("Decryption failed")
  }

  function Pow2(n: nat): (r: nat)
    ensures r >= 1
  {
    if n == 0 then 1 else 2 * Pow2(n - 1)
  }

  function Pow256(n: nat): (r: nat)
    ensures r >= 1
  {
    if n == 0 then 1 else 256 * Pow256(n - 1)
  }

  /** An identifier, as its bytes or code units. */
  type Id = seq<nat>

  /** Lexicographic order, as Rust and JavaScript compare strings. */
  predicate AtMost(a: Id, b: Id) {
    |a| == 0 || (|b| > 0 && (a[0] < b[0] || (a[0] == b[0] && AtMost(a[1..], b[1..]))))
  }

  lemma {:induction false} AtMostTotalOrder(a: Id, b: Id)
    ensures AtMost(a, b) || AtMost(b, a)
    ensures AtMost(a, b) && AtMost(b, a) <==> a == b
  {
    if |a| > 0 && |b| > 0 {
      AtMostTotalOrder(a[1..], b[1..]);
      if a[0] == b[0] && a[1..] == b[1..] {
        assert a == [a[0]] + a[1..] == b;
      }
    }
  }

  lemma {:induction false} AtMostTransitive(a: Id, b: Id, c: Id)
    requires AtMost(a, b) && AtMost(b, c)
    ensures AtMost(a, c)
  {
    if |a| > 0 && a[0] == b[0] == c[0] {
      AtMostTransitive(a[1..], b[1..], c[1..]);
    }
  }
}
