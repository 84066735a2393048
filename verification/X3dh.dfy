/**
 The X3DH + ML-KEM handshake that produces the shared secret of a Double Ratchet session, over any
 curve, KEM and HKDF that satisfy their laws.
 */
module X3dh {
  import opened Common
  import Ratchet = RatchetSystem
  import RatchetHistory
  import RatchetStart

  const EK_SIZE: nat := 1184
  const CT_SIZE: nat := 1088

  /** X25519, ML-KEM-768 and HKDF; secrets and the coins of an encapsulation are numbered. */
  datatype Suite = Suite(
    publicKey: nat -> Bytes,
    dh: (nat, Bytes) -> Bytes,
    kemKey: nat -> Bytes,
    kemKeyValid: Bytes -> bool,
    encapsulate: (Bytes, nat) -> (Bytes, Bytes),
    decapsulate: (nat, Bytes) -> Bytes,
    hkdf: Bytes -> Bytes)

  ghost predicate Lawful(s: Suite) {
    && (forall a: nat, b: nat :: s.dh(a, s.publicKey(b)) == s.dh(b, s.publicKey(a)))
    && (forall a: nat, p: Bytes :: |s.dh(a, p)| == 32)
    && (forall dk: nat :: |s.kemKey(dk)| == EK_SIZE && s.kemKeyValid(s.kemKey(dk)))
    && (forall ek: Bytes, coins: nat :: |s.encapsulate(ek, coins).0| == CT_SIZE && |s.encapsulate(ek, coins).1| == 32)
    && (forall dk: nat, coins: nat ::
          s.decapsulate(dk, s.encapsulate(s.kemKey(dk), coins).0) == s.encapsulate(s.kemKey(dk), coins).1)
  }

  datatype PreKeyBundle = PreKeyBundle(
    identityKey: Bytes, signedPrekey: Bytes, oneTimePrekey: Option<Bytes>, mlKemEk: Bytes)

  datatype InitialMessage = InitialMessage(
    identityKey: Bytes, ephemeralKey: Bytes, mlKemCt: Bytes, usedOpk: bool)

  /** The ASCII bytes of "X3DH_MLKEM768_V1". */
  function Domain(): (r: Bytes)
    ensures |r| == 16
  {
    [0x58, 0x33, 0x44, 0x48, 0x5F, 0x4D, 0x4C, 0x4B, 0x45, 0x4D, 0x37, 0x36, 0x38, 0x5F, 0x56, 0x31]
  }

  function Ikm(dh1: Bytes, dh2: Bytes, dh3: Bytes, dh4: Option<Bytes>, kem: Bytes): Bytes {
    Domain() + dh1 + dh2 + dh3 + dh4.GetOr([]) + kem
  }

  /** The initiator's input, from the responder's published bundle. */
  function InitiatorIkm(s: Suite, identity: nat, ephemeral: nat, b: PreKeyBundle, kem: Bytes): Bytes {
    Ikm(s.dh(identity, b.signedPrekey), s.dh(ephemeral, b.identityKey), s.dh(ephemeral, b.signedPrekey),
        if b.oneTimePrekey.Some? then Some(s.dh(ephemeral, b.oneTimePrekey.value)) else None, kem)
  }

  method GenerateSharedSecret(s: Suite, identity: nat, ephemeral: nat, b: PreKeyBundle, kem: Bytes)
    returns (okm: Bytes)
    ensures okm == s.hkdf(InitiatorIkm(s, identity, ephemeral, b, kem))
  {
    var ikm := Domain();
    ikm := ikm + s.dh(identity, b.signedPrekey);
    ikm := ikm + s.dh(ephemeral, b.identityKey);
    ikm := ikm + s.dh(ephemeral, b.signedPrekey);
    ghost var threeDh := ikm;
    if b.oneTimePrekey.Some? {
      ikm := ikm + s.dh(ephemeral, b.oneTimePrekey.value);
    } else {
      assert ikm == threeDh + [];
    }
    ikm := ikm + kem;
    okm := s.hkdf(ikm);
  }

  /** The initiator's first message and shared secret. */
  function Initiated(s: Suite, identity: nat, b: PreKeyBundle, ephemeral: nat, coins: nat)
    : Result<(InitialMessage, Bytes)>
  {
    if |b.mlKemEk| != EK_SIZE then Err("Invalid ML-KEM EK size")
    else if !s.kemKeyValid(b.mlKemEk) then Err("Invalid ML-KEM key")
    else
      var (ct, kem) := s.encapsulate(b.mlKemEk, coins);
      Ok((InitialMessage(s.publicKey(identity), s.publicKey(ephemeral), ct, b.oneTimePrekey.Some?),
          s.hkdf(InitiatorIkm(s, identity, ephemeral, b, kem))))
  }

  method InitiateX3dh(s: Suite, identity: nat, b: PreKeyBundle, ephemeral: nat, coins: nat)
    returns (r: Result<(InitialMessage, Bytes)>)
    ensures r == Initiated(s, identity, b, ephemeral, coins)
    ensures r == Err("Invalid ML-KEM EK size") <==> |b.mlKemEk| != 1184
    ensures r == Err("Invalid ML-KEM key") <==> |b.mlKemEk| == 1184 && !s.kemKeyValid(b.mlKemEk)
    ensures |b.mlKemEk| == 1184 && s.kemKeyValid(b.mlKemEk) ==>
      var (ct, kem) := s.encapsulate(b.mlKemEk, coins);
      && r.Ok?
      && r.value.0 == InitialMessage(s.publicKey(identity), s.publicKey(ephemeral), ct, b.oneTimePrekey.Some?)
      && r.value.1 == s.hkdf(InitiatorIkm(s, identity, ephemeral, b, kem))
  {
    if |b.mlKemEk| != EK_SIZE {
      return Err("Invalid ML-KEM EK size");
    }
    if !s.kemKeyValid(b.mlKemEk) {
      return Err("Invalid ML-KEM key");
    }
    var (ct, kem) := s.encapsulate(b.mlKemEk, coins);
    var sk := GenerateSharedSecret(s, identity, ephemeral, b, kem);
    r := Ok((InitialMessage(s.publicKey(identity), s.publicKey(ephemeral), ct, b.oneTimePrekey.Some?), sk));
  }

  /** The responder's input, from the initiator's first message. */
  function ResponderIkm(s: Suite, identity: nat, prekey: nat, opk: Option<nat>, dk: nat, m: InitialMessage): Bytes
    requires m.usedOpk ==> opk.Some?
  {
    Ikm(s.dh(prekey, m.identityKey), s.dh(identity, m.ephemeralKey), s.dh(prekey, m.ephemeralKey),
        if m.usedOpk then Some(s.dh(opk.value, m.ephemeralKey)) else None, s.decapsulate(dk, m.mlKemCt))
  }

  /** The responder's shared secret. */
  function Received(s: Suite, identity: nat, prekey: nat, opk: Option<nat>, dk: nat, m: InitialMessage)
    : Result<Bytes>
  {
    if m.usedOpk && opk.None? then Err("Peer used OPK but we don't have it")
    else if |m.mlKemCt| != CT_SIZE then Err("Invalid ML-KEM CT size")
    else
      Ok(s.hkdf(ResponderIkm(s, identity, prekey, opk, dk, m)))
  }

  method ReceiveX3dh(s: Suite, identity: nat, prekey: nat, opk: Option<nat>, dk: nat, m: InitialMessage)
    returns (r: Result<Bytes>)
    ensures r == Received(s, identity, prekey, opk, dk, m)
    ensures r == Err("Peer used OPK but we don't have it") <==> m.usedOpk && opk.None?
    ensures r == Err("Invalid ML-KEM CT size") <==> !(m.usedOpk && opk.None?) && |m.mlKemCt| != 1088
    ensures !(m.usedOpk && opk.None?) && |m.mlKemCt| == 1088 ==>
      r == Ok(s.hkdf(ResponderIkm(s, identity, prekey, opk, dk, m)))
  {
    var ikm := Domain();
    ikm := ikm + s.dh(prekey, m.identityKey);
    ikm := ikm + s.dh(identity, m.ephemeralKey);
    ikm := ikm + s.dh(prekey, m.ephemeralKey);
    ghost var threeDh := ikm;
    if m.usedOpk {
      if opk.None? {
        return Err("Peer used OPK but we don't have it");
      }
      ikm := ikm + s.dh(opk.value, m.ephemeralKey);
    } else {
      assert ikm == threeDh + [];
    }
    if |m.mlKemCt| != CT_SIZE {
      return Err("Invalid ML-KEM CT size");
    }
    ikm := ikm + s.decapsulate(dk, m.mlKemCt);
    r := Ok(s.hkdf(ikm));
  }

  /** Where each part of an input stands: the label, three agreements, perhaps a fourth, and the KEM secret. */
  ghost predicate LaidOut(ikm: Bytes, dh1: Bytes, dh2: Bytes, dh3: Bytes, dh4: Option<Bytes>, kem: Bytes) {
    && |ikm| == (if dh4.Some? then 176 else 144)
    && (forall i :: 0 <= i < 16 ==> ikm[i] == "X3DH_MLKEM768_V1"[i] as int)
    && ikm[16..48] == dh1 && ikm[48..80] == dh2 && ikm[80..112] == dh3
    && (if dh4.Some? then ikm[112..144] == dh4.value && ikm[144..] == kem else ikm[112..] == kem)
  }

  lemma IkmLaidOut(dh1: Bytes, dh2: Bytes, dh3: Bytes, dh4: Option<Bytes>, kem: Bytes)
    requires |dh1| == |dh2| == |dh3| == |kem| == 32 && (dh4.Some? ==> |dh4.value| == 32)
    ensures LaidOut(Ikm(dh1, dh2, dh3, dh4, kem), dh1, dh2, dh3, dh4, kem)
  {
    var ikm := Ikm(dh1, dh2, dh3, dh4, kem);
    assert ikm[..16] == Domain();
    assert forall i :: 0 <= i < 16 ==> Domain()[i] == "X3DH_MLKEM768_V1"[i] as int;
    assert ikm[16..48] == dh1 && ikm[48..80] == dh2 && ikm[80..112] == dh3;
    if dh4.Some? {
      assert ikm[112..144] == dh4.value && ikm[144..] == kem;
    } else {
      assert ikm[112..] == kem;
    }
  }

  /**
   Both sides hash, in this order: the label, identity with signed prekey, ephemeral with identity, ephemeral
   with signed prekey, ephemeral with one-time prekey when there is one, and the KEM secret.
   */
  lemma InputsLaidOut(s: Suite, identity: nat, ephemeral: nat, b: PreKeyBundle, kem: Bytes,
                      mine: nat, prekey: nat, opk: Option<nat>, dk: nat, m: InitialMessage)
    requires Lawful(s) && |kem| == 32 && |s.decapsulate(dk, m.mlKemCt)| == 32 && (m.usedOpk ==> opk.Some?)
    ensures LaidOut(InitiatorIkm(s, identity, ephemeral, b, kem), s.dh(identity, b.signedPrekey),
                    s.dh(ephemeral, b.identityKey), s.dh(ephemeral, b.signedPrekey),
                    if b.oneTimePrekey.Some? then Some(s.dh(ephemeral, b.oneTimePrekey.value)) else None, kem)
    ensures LaidOut(ResponderIkm(s, mine, prekey, opk, dk, m), s.dh(prekey, m.identityKey),
                    s.dh(mine, m.ephemeralKey), s.dh(prekey, m.ephemeralKey),
                    if m.usedOpk then Some(s.dh(opk.value, m.ephemeralKey)) else None, s.decapsulate(dk, m.mlKemCt))
  {
    hide LaidOut, Ikm;
    IkmLaidOut(s.dh(identity, b.signedPrekey), s.dh(ephemeral, b.identityKey), s.dh(ephemeral, b.signedPrekey),
               if b.oneTimePrekey.Some? then Some(s.dh(ephemeral, b.oneTimePrekey.value)) else None, kem);
    IkmLaidOut(s.dh(prekey, m.identityKey), s.dh(mine, m.ephemeralKey), s.dh(prekey, m.ephemeralKey),
               if m.usedOpk then Some(s.dh(opk.value, m.ephemeralKey)) else None, s.decapsulate(dk, m.mlKemCt));
  }

  /** The bundle a responder publishes for its secrets. */
  function BundleOf(s: Suite, identity: nat, prekey: nat, opk: Option<nat>, dk: nat): PreKeyBundle {
    PreKeyBundle(s.publicKey(identity), s.publicKey(prekey),
                 if opk.Some? then Some(s.publicKey(opk.value)) else None, s.kemKey(dk))
  }

  /**
   For every bundle built from the responder's secrets, both sides derive the same shared secret; when
   the bundle offers no one-time prekey, whatever one-time prekey the responder holds is not used, and
   when it offers one that the responder no longer has, the responder refuses.
   */
  lemma Agreement(s: Suite, alice: nat, ephemeral: nat, coins: nat,
                  bob: nat, prekey: nat, opk: Option<nat>, dk: nat, held: Option<nat>)
    requires Lawful(s) && (opk.Some? && held.Some? ==> held == opk)
    ensures var r := Initiated(s, alice, BundleOf(s, bob, prekey, opk, dk), ephemeral, coins);
      && r.Ok?
      && var (m, sk) := r.value;
         Received(s, bob, prekey, held, dk, m) ==
           if opk.Some? && held.None? then Err("Peer used OPK but we don't have it") else Ok(sk)
  {
    var b := BundleOf(s, bob, prekey, opk, dk);
    assert s.dh(alice, b.signedPrekey) == s.dh(prekey, s.publicKey(alice));
    assert s.dh(ephemeral, b.identityKey) == s.dh(bob, s.publicKey(ephemeral));
    assert s.dh(ephemeral, b.signedPrekey) == s.dh(prekey, s.publicKey(ephemeral));
    if opk.Some? {
      assert s.dh(ephemeral, b.oneTimePrekey.value) == s.dh(opk.value, s.publicKey(ephemeral));
    }
  }

  /** The input keying material identifies every part of it, including whether DH4 is present. */
  lemma IkmInjective(a1: Bytes, a2: Bytes, a3: Bytes, a4: Option<Bytes>, ak: Bytes,
                     b1: Bytes, b2: Bytes, b3: Bytes, b4: Option<Bytes>, bk: Bytes)
    requires |a1| == |a2| == |a3| == |ak| == 32 && (a4.Some? ==> |a4.value| == 32)
    requires |b1| == |b2| == |b3| == |bk| == 32 && (b4.Some? ==> |b4.value| == 32)
    requires Ikm(a1, a2, a3, a4, ak) == Ikm(b1, b2, b3, b4, bk)
    ensures a1 == b1 && a2 == b2 && a3 == b3 && a4 == b4 && ak == bk
  {
    var x, y := Ikm(a1, a2, a3, a4, ak), Ikm(b1, b2, b3, b4, bk);
    assert x[16..48] == a1 && y[16..48] == b1;
    assert x[48..80] == a2 && y[48..80] == b2;
    assert x[80..112] == a3 && y[80..112] == b3;
    assert |x| == 144 + |a4.GetOr([])| && |y| == 144 + |b4.GetOr([])|;
    assert x[112..|x| - 32] == a4.GetOr([]) && y[112..|y| - 32] == b4.GetOr([]);
    assert x[|x| - 32..] == ak && y[|y| - 32..] == bk;
  }

  /**
   Short of an HKDF collision, the initiator's secret for a bundle and the secret the responder derives
   from a message agree only if the message says truly whether a one-time prekey was used and all the
   agreements and the KEM secret are the same.
   */
  lemma SecretsAgreeOnlyOnSameInputs(s: Suite, alice: nat, ephemeral: nat, b: PreKeyBundle, kem: Bytes,
                                     bob: nat, prekey: nat, opk: Option<nat>, dk: nat, m: InitialMessage)
    requires Lawful(s) && |kem| == 32 && |s.decapsulate(dk, m.mlKemCt)| == 32
    requires Received(s, bob, prekey, opk, dk, m) == Ok(s.hkdf(InitiatorIkm(s, alice, ephemeral, b, kem)))
    requires var x := InitiatorIkm(s, alice, ephemeral, b, kem);
      var y := ResponderIkm(s, bob, prekey, opk, dk, m); s.hkdf(x) == s.hkdf(y) ==> x == y
    ensures m.usedOpk == b.oneTimePrekey.Some?
    ensures s.dh(prekey, m.identityKey) == s.dh(alice, b.signedPrekey)
    ensures s.dh(bob, m.ephemeralKey) == s.dh(ephemeral, b.identityKey)
    ensures s.dh(prekey, m.ephemeralKey) == s.dh(ephemeral, b.signedPrekey)
    ensures m.usedOpk ==> s.dh(opk.value, m.ephemeralKey) == s.dh(ephemeral, b.oneTimePrekey.value)
    ensures s.decapsulate(dk, m.mlKemCt) == kem
  {
    hide Ikm;
    var dh4 := if b.oneTimePrekey.Some? then Some(s.dh(ephemeral, b.oneTimePrekey.value)) else None;
    var dh4' := if m.usedOpk then Some(s.dh(opk.value, m.ephemeralKey)) else None;
    IkmInjective(s.dh(alice, b.signedPrekey), s.dh(ephemeral, b.identityKey), s.dh(ephemeral, b.signedPrekey), dh4, kem,
                 s.dh(prekey, m.identityKey), s.dh(bob, m.ephemeralKey), s.dh(prekey, m.ephemeralKey), dh4',
                 s.decapsulate(dk, m.mlKemCt));
  }

  // --- The session that follows ------------------------------------------------------------------

  /**
   Sessions started from the two outputs of a handshake, on the responder's signed prekey, deliver as they
   should: after any run, bringing any packet succeeds exactly when it is new and within reach, with the text
   that was sent.
   */
  lemma HandshakeDelivers(s: Suite, alice: nat, ephemeral: nat, coins: nat, bob: nat, prekey: nat, opk: Option<nat>,
                          dk: nat, actions: seq<Ratchet.Action>, i: nat)
    requires Lawful(s)
    ensures var r := Initiated(s, alice, BundleOf(s, bob, prekey, opk, dk), ephemeral, coins);
      && r.Ok?
      && var (m, sk) := r.value;
         var r' := Received(s, bob, prekey, opk, dk, m);
         && r'.Ok?
         && var sys := Ratchet.Exec(Ratchet.StartFrom(sk, r'.value, prekey), actions);
            i < |sys.network| ==>
              var (packet, result) := (sys.network[i], Ratchet.Attempt(sys, i).1);
              && (result.Ok? <==> !sys.Accepted(i)
                                  && RatchetHistory.WithinReach(sys.Of(packet.from.Peer()), packet.envelope.header))
              && (result.Ok? ==> result.value == packet.text)
  {
    hide Initiated, Received, Ratchet.Exec, Ratchet.StartFrom;
    Agreement(s, alice, ephemeral, coins, bob, prekey, opk, dk, opk);
    var (_, sk) := Initiated(s, alice, BundleOf(s, bob, prekey, opk, dk), ephemeral, coins).value;
    SameSecretDelivers(sk, prekey, actions, i);
  }

  lemma SameSecretDelivers(sk: Bytes, prekey: nat, actions: seq<Ratchet.Action>, i: nat)
    ensures var sys := Ratchet.Exec(Ratchet.StartFrom(sk, sk, prekey), actions);
      i < |sys.network| ==>
        var (packet, result) := (sys.network[i], Ratchet.Attempt(sys, i).1);
        && (result.Ok? <==> !sys.Accepted(i)
                            && RatchetHistory.WithinReach(sys.Of(packet.from.Peer()), packet.envelope.header))
        && (result.Ok? ==> result.value == packet.text)
  {
    if i < |Ratchet.Run(sk, prekey, actions).network| {
      var sys := Ratchet.Run(sk, prekey, actions);
      Ratchet.DeliveryCorrect(sk, prekey, actions, i);
      Ratchet.ReachInNumbers(sys.Of(sys.network[i].from.Peer()), sys.network[i].envelope.header);
    }
  }

  /**
   Whatever first message the responder was brought, if it accepts it and the sessions that follow ever deliver
   anything, then, short of an HKDF collision, both sides have used the same agreements and KEM secret.
   */
  lemma DeliveryProvesHandshake(s: Suite, alice: nat, ephemeral: nat, b: PreKeyBundle, kem: Bytes,
                                bob: nat, prekey: nat, opk: Option<nat>, dk: nat, m: InitialMessage,
                                actions: seq<Ratchet.Action>)
    requires Lawful(s) && |kem| == 32 && |s.decapsulate(dk, m.mlKemCt)| == 32
    requires Received(s, bob, prekey, opk, dk, m).Ok?
    requires RatchetStart.Delivers(Ratchet.StartFrom(s.hkdf(InitiatorIkm(s, alice, ephemeral, b, kem)),
                                                     Received(s, bob, prekey, opk, dk, m).value, prekey), actions)
    requires var x := InitiatorIkm(s, alice, ephemeral, b, kem);
      var y := ResponderIkm(s, bob, prekey, opk, dk, m); s.hkdf(x) == s.hkdf(y) ==> x == y
    ensures m.usedOpk == b.oneTimePrekey.Some?
    ensures s.dh(prekey, m.identityKey) == s.dh(alice, b.signedPrekey)
    ensures s.dh(bob, m.ephemeralKey) == s.dh(ephemeral, b.identityKey)
    ensures s.dh(prekey, m.ephemeralKey) == s.dh(ephemeral, b.signedPrekey)
    ensures m.usedOpk ==> s.dh(opk.value, m.ephemeralKey) == s.dh(ephemeral, b.oneTimePrekey.value)
    ensures s.decapsulate(dk, m.mlKemCt) == kem
  {
    hide Lawful, InitiatorIkm, ResponderIkm, Ratchet.StartFrom, RatchetStart.Delivers;
    RatchetStart.DeliversIffSameSecret(s.hkdf(InitiatorIkm(s, alice, ephemeral, b, kem)),
                                       Received(s, bob, prekey, opk, dk, m).value, prekey);
    SecretsAgreeOnlyOnSameInputs(s, alice, ephemeral, b, kem, bob, prekey, opk, dk, m);
  }
}
