/**
 One side of a Double Ratchet session: the state, the functions that specify its operations,
 and the in-place implementation proved equal to them.
 */
module DoubleRatchet {
  import opened Common
  import opened Symbolic

  const MAX_SKIP: nat := 1000

  datatype SkippedKey = SkippedKey(dhPub: Public, n: nat, mk: Key)

  datatype Header = Header(dh: Public, pn: nat, n: nat)

  datatype Envelope = Envelope(header: Header, nonce: nat, ciphertext: Ciphertext<Key>)

  /** The value held by a `DrState`; it is what the application serialises and stores. */
  datatype Session = Session(
    dhSend: nat,
    dhSendPub: Public,
    dhRecv: Option<Public>,
    rootKey: Key,
    ckSend: Option<Key>,
    ckRecv: Option<Key>,
    nSend: nat,
    nRecv: nat,
    pn: nat,
    skipped: seq<SkippedKey>)

  // --- Specification -------------------------------------------------------------------------

  function InitAlice(sk: Key, bobPub: Public, newSecret: nat): Session {
    var (root, ck) := KdfRk(sk, Dh(newSecret, bobPub));
    Session(newSecret, PublicOf(newSecret), Some(bobPub), root, Some(ck), None, 0, 0, 0, [])
  }

  function InitBob(sk: Key, bobSecret: nat, bobPub: Public): Session {
    Session(bobSecret, bobPub, None, sk, None, None, 0, 0, 0, [])
  }

  function Encrypted(s: Session, text: Bytes, nonce: nat): (Session, Result<Envelope>) {
    if s.ckSend.None? then
      (s, Err("No send chain key"))
    else
      var (ck, mk) := KdfCk(s.ckSend.value);
      (s.(ckSend := Some(ck), nSend := s.nSend + 1),
       Ok(Envelope(Header(s.dhSendPub, s.pn, s.nSend), nonce, Sealed(mk, nonce, text))))
  }

  predicate Matches(key: SkippedKey, header: Header) {
    key.dhPub == header.dh && key.n == header.n
  }

  /** Position of the first stored key for `header`, or the length when there is none. */
  function Position(skipped: seq<SkippedKey>, header: Header): (i: nat)
    ensures i <= |skipped|
    ensures i < |skipped| ==> Matches(skipped[i], header)
    ensures forall j :: 0 <= j < i ==> !Matches(skipped[j], header)
  {
    if |skipped| == 0 || Matches(skipped[0], header) then 0
    else 1 + Position(skipped[1..], header)
  }

  function Without<T>(s: seq<T>, i: nat): (r: seq<T>)
    requires i < |s|
    ensures |r| == |s| - 1
  {
    s[..i] + s[i + 1..]
  }

  /** The receive chain moved forward to `until`, with every passed key stored. */
  function PushSkipped(s: Session, until: nat): (r: Session)
    requires s.ckRecv.Some?
    ensures r.ckRecv.Some?
    ensures r.nRecv == if until < s.nRecv then s.nRecv else until
  {
    if until <= s.nRecv then s
    else
      var p := PushSkipped(s, until - 1);
      var (ck, mk) := KdfCk(p.ckRecv.value);
      p.(ckRecv := Some(ck), nRecv := p.nRecv + 1,
         skipped := p.skipped + [SkippedKey(p.dhRecv.GetOr(ZeroPublic), p.nRecv, mk)])
  }

  function SkippedTo(s: Session, until: nat): (Session, Result<()>) {
    if s.nRecv + MAX_SKIP < until then (s, Err("Too many skipped messages"))
    else if s.ckRecv.None? then (s, Ok(()))
    else (PushSkipped(s, until), Ok(()))
  }

  function Ratcheted(s: Session, headerDh: Public, newSecret: nat): Session {
    var (root, ckRecv) := KdfRk(s.rootKey, Dh(s.dhSend, headerDh));
    var (root', ckSend) := KdfRk(root, Dh(newSecret, headerDh));
    Session(newSecret, PublicOf(newSecret), Some(headerDh), root', Some(ckSend), Some(ckRecv),
            0, 0, s.nSend, s.skipped)
  }

  function OpenWith(mk: Key, e: Envelope): Result<Bytes> {
    Open(mk, e.nonce, e.ciphertext)
  }

  /** Opening with the current receive chain, once skipping and ratcheting are done. */
  function ChainDecrypted(s: Session, e: Envelope): (Session, Result<Bytes>) {
    if s.ckRecv.None? then
      (s, Err("No recv chain key"))
    else
      var (ck, mk) := KdfCk(s.ckRecv.value);
      (s.(ckRecv := Some(ck), nRecv := s.nRecv + 1), OpenWith(mk, e))
  }

  /** Skipping to the message number and opening. */
  function SkipAndOpen(s: Session, e: Envelope): (Session, Result<Bytes>) {
    var (s', skip) := SkippedTo(s, e.header.n);
    if skip.Err? then (s', Err(skip.error)) else ChainDecrypted(s', e)
  }

  /** `decrypt`: the mutated state, which may differ from `s` even on failure, and the outcome. */
  function Decrypted(s: Session, e: Envelope, newSecret: nat): (Session, Result<Bytes>) {
    var i := Position(s.skipped, e.header);
    if i < |s.skipped| then
      (s.(skipped := Without(s.skipped, i)), OpenWith(s.skipped[i].mk, e))
    else if s.dhRecv != Some(e.header.dh) then
      var (s', skip) := SkippedTo(s, e.header.pn);
      if skip.Err? then (s', Err(skip.error))
      else SkipAndOpen(Ratcheted(s', e.header.dh, newSecret), e)
    else
      SkipAndOpen(s, e)
  }

  /** What the application keeps: the new state after a success, the stored one after a failure. */
  function Committed(s: Session, e: Envelope, newSecret: nat): Session {
    var (s', r) := Decrypted(s, e, newSecret);
    if r.Ok? then s' else s
  }

  // --- Properties of one call ----------------------------------------------------------------

  lemma {:induction false} PushSkippedGrowth(s: Session, until: nat)
    requires s.ckRecv.Some?
    ensures s.skipped <= PushSkipped(s, until).skipped
    ensures |PushSkipped(s, until).skipped| == |s.skipped| + PushSkipped(s, until).nRecv - s.nRecv
  {
    if until > s.nRecv {
      PushSkippedGrowth(s, until - 1);
    }
  }

  function Gap(until: nat, nRecv: nat): nat {
    if nRecv < until then until - nRecv else 0
  }

  /**
   How many more keys are stored after a successful `decrypt`: one less when a stored key opened it, the gap on
   the chain being received, or the gap at the end of the chain being left and all before `n` on the new one.
   */
  function Growth(s: Session, header: Header): int {
    if Position(s.skipped, header) < |s.skipped| then -1
    else if s.dhRecv == Some(header.dh) then Gap(header.n, s.nRecv)
    else (if s.ckRecv.None? then 0 else Gap(header.pn, s.nRecv)) + header.n
  }

  /**
   The number of stored keys changes by exactly `Growth` on success and is kept on failure, so one delivery
   stays within MAX_SKIP exactly when that sum does.
   */
  lemma StoreGrowsBy(s: Session, e: Envelope, newSecret: nat)
    ensures var size := |s.skipped| + if Decrypted(s, e, newSecret).1.Ok? then Growth(s, e.header) else 0;
      && |Committed(s, e, newSecret).skipped| == size
      && (|Committed(s, e, newSecret).skipped| <= MAX_SKIP <==> size <= MAX_SKIP)
  {
    if Decrypted(s, e, newSecret).1.Ok? && Position(s.skipped, e.header) == |s.skipped| {
      if s.dhRecv == Some(e.header.dh) {
        PushSkippedGrowth(s, e.header.n);
      } else {
        if s.ckRecv.Some? {
          PushSkippedGrowth(s, e.header.pn);
        }
        PushSkippedGrowth(Ratcheted(SkippedTo(s, e.header.pn).0, e.header.dh, newSecret), e.header.n);
      }
    }
  }

  /** Whatever the state and the envelope, and even on failure, one `decrypt` stores at most 2 * MAX_SKIP new keys. */
  lemma DecryptStoreBound(s: Session, e: Envelope, newSecret: nat)
    ensures |Decrypted(s, e, newSecret).0.skipped| <= |s.skipped| + 2 * MAX_SKIP
  {
    if s.ckRecv.Some? {
      PushSkippedGrowth(s, e.header.pn);
      PushSkippedGrowth(s, e.header.n);
    }
    var r := Ratcheted(SkippedTo(s, e.header.pn).0, e.header.dh, newSecret);
    PushSkippedGrowth(r, e.header.n);
  }

  // --- Implementation ------------------------------------------------------------------------

  class DrState {
    var dhSend: nat
    var dhSendPub: Public
    var dhRecv: Option<Public>
    var rootKey: Key
    var ckSend: Option<Key>
    var ckRecv: Option<Key>
    var nSend: nat
    var nRecv: nat
    var pn: nat
    var skipped: seq<SkippedKey>

    function View(): Session
      reads this
    {
      Session(dhSend, dhSendPub, dhRecv, rootKey, ckSend, ckRecv, nSend, nRecv, pn, skipped)
    }

    /** Deserialising a stored session. */
    constructor (s: Session)
      ensures View() == s
    {
      dhSend, dhSendPub, dhRecv, rootKey := s.dhSend, s.dhSendPub, s.dhRecv, s.rootKey;
      ckSend, ckRecv := s.ckSend, s.ckRecv;
      nSend, nRecv, pn, skipped := s.nSend, s.nRecv, s.pn, s.skipped;
    }

    method Encrypt(text: Bytes, nonce: nat) returns (r: Result<Envelope>)
      modifies this
      ensures (View(), r) == Encrypted(old(View()), text, nonce)
    {
      if ckSend.None? {
        return Err("No send chain key");
      }
      var (newCk, mk) := KdfCk(ckSend.value);
      ckSend := Some(newCk);
      var header := Header(dhSendPub, pn, nSend);
      nSend := nSend + 1;
      r := Ok(Envelope(header, nonce, Sealed(mk, nonce, text)));
    }

    method Decrypt(e: Envelope, newSecret: nat) returns (r: Result<Bytes>)
      modifies this
      ensures (View(), r) == Decrypted(old(View()), e, newSecret)
    {
      var stored := TrySkipped(e);
      if stored.Err? {
        return Err(stored.error);
      }
      if stored.value.Some? {
        return Ok(stored.value.value);
      }
      if dhRecv != Some(e.header.dh) {
        var skip := SkipMessageKeys(e.header.pn);
        if skip.Err? {
          return Err(skip.error);
        }
        DhRatchet(e.header.dh, newSecret);
      }
      var skip := SkipMessageKeys(e.header.n);
      if skip.Err? {
        return Err(skip.error);
      }
      if ckRecv.None? {
        return Err("No recv chain key");
      }
      var (newCk, mk) := KdfCk(ckRecv.value);
      ckRecv := Some(newCk);
      nRecv := nRecv + 1;
      r := OpenWith(mk, e);
    }

    method TrySkipped(e: Envelope) returns (r: Result<Option<Bytes>>)
      modifies this`skipped
      ensures var before := old(skipped); var i := Position(before, e.header);
        if i < |before| then
          && skipped == Without(before, i)
          && r == match OpenWith(before[i].mk, e) {
               case Ok(text) => Ok(Some(text))
               case Err(error) => Err(error)
             }
        else skipped == before && r == Ok(None)
    {
      var i := Position(skipped, e.header);
      if i < |skipped| {
        var mk := skipped[i].mk;
        skipped := Without(skipped, i);
        var plain := OpenWith(mk, e);
        if plain.Err? {
          return Err(plain.error);
        }
        return Ok(Some(plain.value));
      }
      r := Ok(None);
    }

    method SkipMessageKeys(until: nat) returns (r: Result<()>)
      modifies this
      ensures (View(), r) == SkippedTo(old(View()), until)
    {
      if nRecv + MAX_SKIP < until {
        return Err("Too many skipped messages");
      }
      if ckRecv.None? {
        return Ok(());
      }
      while nRecv < until
        invariant old(nRecv) <= nRecv
        invariant View() == PushSkipped(old(View()), nRecv)
        invariant until < nRecv ==> nRecv == old(nRecv)
      {
        var (newCk, mk) := KdfCk(ckRecv.value);
        ckRecv := Some(newCk);
        skipped := skipped + [SkippedKey(dhRecv.GetOr(ZeroPublic), nRecv, mk)];
        nRecv := nRecv + 1;
      }
      r := Ok(());
    }

    method DhRatchet(headerDh: Public, newSecret: nat)
      modifies this
      ensures View() == Ratcheted(old(View()), headerDh, newSecret)
    {
      pn := nSend;
      nSend := 0;
      nRecv := 0;
      dhRecv := Some(headerDh);

      var (newRk, newCkRecv) := KdfRk(rootKey, Dh(dhSend, headerDh));
      rootKey := newRk;
      ckRecv := Some(newCkRecv);

      var (newRk2, newCkSend) := KdfRk(rootKey, Dh(newSecret, headerDh));
      rootKey := newRk2;
      dhSend := newSecret;
      dhSendPub := PublicOf(newSecret);
      ckSend := Some(newCkSend);
    }
  }

  // --- Commit on success ---------------------------------------------------------------------

  /** An entry of the friend list; `hasKey` says whether it holds a public key that decodes. */
  datatype Friend = Friend(blocked: bool, hasKey: bool)

  /** What the application has on record about a peer. */
  datatype Contact = Contact(settings: Option<PeerSettings>, friend: Option<Friend>)

  /** The application's table of stored sessions, one per peer. */
  class SessionStore {
    var saved: map<string, Session>

    constructor ()
      ensures saved == map[]
    {
      saved := map[];
    }

    /** The stored session, or the given initial one when the peer has none. */
    function Load(peer: string, initial: Session): (s: Session)
      reads this
      ensures peer !in saved ==> s == initial
      ensures peer in saved ==> s == saved[peer]
    {
      if peer in saved then saved[peer] else initial
    }

    /**
     An envelope goes out exactly to a friend that is not blocked and has a key, under settings that do not block
     it and with enough trust, where no settings mean trust 0, and only when there is a sending chain.
     */
    method SendDm(peer: string, contact: Contact, minTrust: int, initial: Session, text: Bytes, nonce: nat)
      returns (sent: Option<Envelope>)
      modifies this
      ensures var (s, r) := Encrypted(if peer in old(saved) then old(saved)[peer] else initial, text, nonce);
        && (sent.Some? <==>
              && contact.friend.Some? && !contact.friend.value.blocked && contact.friend.value.hasKey
              && (contact.settings.Some? ==> !contact.settings.value.blocked)
              && minTrust <= (if contact.settings.Some? then contact.settings.value.trustLevel else 0)
              && r.Ok?)
        && (sent.Some? ==> sent.value == r.value && saved == old(saved)[peer := s])
        && (sent.None? ==> saved == old(saved))
    {
      if contact.settings.Some? && contact.settings.value.blocked {
        return None;
      }
      if (if contact.settings.Some? then contact.settings.value.trustLevel else 0) < minTrust {
        return None;
      }
      if contact.friend.None? || contact.friend.value.blocked || !contact.friend.value.hasKey {
        return None;
      }
      var state := new DrState(Load(peer, initial));
      var r := state.Encrypt(text, nonce);
      if r.Err? {
        return None;
      }
      saved := saved[peer := state.View()];
      sent := Some(r.value);
    }

    /**
     A text is shown, and the session saved, exactly when the sender is a friend that is not blocked and has a
     key, decryption succeeds, and it yields a text. For such a friend and a text inside, what is stored
     afterwards is the session committed on success.
     */
    method ReceiveDm(peer: string, contact: Contact, initial: Session, e: Envelope, newSecret: nat,
                     isText: Bytes -> bool) returns (shown: Option<Bytes>)
      modifies this
      ensures var before := if peer in old(saved) then old(saved)[peer] else initial;
        var (s, r) := Decrypted(before, e, newSecret);
        && (shown.Some? <==>
              && contact.friend.Some? && !contact.friend.value.blocked && contact.friend.value.hasKey
              && r.Ok? && isText(r.value))
        && (shown.Some? ==> shown.value == r.value && saved == old(saved)[peer := s]
                            && saved[peer] == Committed(before, e, newSecret))
        && (shown.None? ==> saved == old(saved) && (r.Err? ==> before == Committed(before, e, newSecret)))
    {
      if contact.friend.None? || contact.friend.value.blocked || !contact.friend.value.hasKey {
        return None;
      }
      var state := new DrState(Load(peer, initial));
      var r := state.Decrypt(e, newSecret);
      if r.Ok? && isText(r.value) {
        saved := saved[peer := state.View()];
        return Some(r.value);
      }
      shown := None;
    }
  }
}
