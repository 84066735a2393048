/**
 What a stolen session exposes. The attacker holds one stored session and every public key, and can
 run HKDF and Diffie-Hellman; forward secrecy and healing after a compromise are both read off one
 exact characterisation of the message keys within reach.
 */
module RatchetSecrecy {
  import opened Common
  import opened Symbolic
  import opened DoubleRatchet
  import opened RatchetHistory
  import opened RatchetSystem

  datatype Knowledge = Knowledge(keys: set<Key>, secret: nat)

  /** Everything in a stored session that is not public. */
  function Leak(s: Session): Knowledge {
    Knowledge({s.rootKey}
              + (if s.ckSend.Some? then {s.ckSend.value} else {})
              + (if s.ckRecv.Some? then {s.ckRecv.value} else {})
              + (set k | k in s.skipped :: k.mk),
              s.dhSend)
  }

  /** A Diffie-Hellman output is computable from either of its secrets; public keys are all known. */
  predicate Computable(secret: nat, ikm: Ikm) {
    match ikm
    case NoInput => true
    case ZeroShared => true
    case DhOut(low, high) => secret == low || secret == high
  }

  /** An agreement of two key pairs is computable exactly with the secret of one of them. */
  lemma ComputableIff(a: nat, b: nat, secret: nat)
    ensures Computable(secret, Dh(a, PublicOf(b))) <==> secret == a || secret == b
  {
  }

  predicate Derivable(known: Knowledge, key: Key) {
    key in known.keys || (key.Hkdf? && Derivable(known, key.salt) && Computable(known.secret, key.ikm))
  }

  // --- Derivable is the attacker's closure -----------------------------------------------------

  /** A step of an attack: a key already held, or HKDF applied to an earlier key. */
  ghost predicate Obtained(known: Knowledge, earlier: seq<Key>, key: Key) {
    key in known.keys || (key.Hkdf? && key.salt in earlier && Computable(known.secret, key.ikm))
  }

  ghost predicate Attack(known: Knowledge, steps: seq<Key>) {
    forall i :: 0 <= i < |steps| ==> Obtained(known, steps[..i], steps[i])
  }

  lemma {:induction false} AttackSound(known: Knowledge, steps: seq<Key>, key: Key)
    requires Attack(known, steps) && key in steps
    ensures Derivable(known, key)
    decreases |steps|
  {
    var i :| 0 <= i < |steps| && steps[i] == key;
    assert Obtained(known, steps[..i], key);
    if key !in known.keys {
      assert Attack(known, steps[..i]) by {
        forall j | 0 <= j < i
          ensures Obtained(known, steps[..i][..j], steps[..i][j])
        {
          assert steps[..i][..j] == steps[..j];
        }
      }
      AttackSound(known, steps[..i], key.salt);
    }
  }

  lemma {:induction false} AttackComplete(known: Knowledge, key: Key) returns (steps: seq<Key>)
    requires Derivable(known, key)
    ensures Attack(known, steps) && key in steps
  {
    if key in known.keys {
      steps := [key];
    } else {
      var before := AttackComplete(known, key.salt);
      steps := before + [key];
      forall i | 0 <= i < |steps|
        ensures Obtained(known, steps[..i], steps[i])
      {
        assert steps[..i] == before[..i];
        if i < |before| {
          assert Obtained(known, before[..i], before[i]);
        } else {
          assert before[..i] == before;
        }
      }
    }
  }

  /** A key is derivable exactly when some finite attack produces it. */
  lemma DerivableIffAttack(known: Knowledge, key: Key)
    ensures Derivable(known, key) <==> exists steps :: Attack(known, steps) && key in steps
  {
    if Derivable(known, key) {
      var steps := AttackComplete(known, key);
    }
    forall steps | Attack(known, steps) && key in steps
      ensures Derivable(known, key)
    {
      AttackSound(known, steps, key);
    }
  }

  // --- One leaked session against the history --------------------------------------------------

  /** The leaked session of epoch `e`, with later history `g` of the same conversation. */
  ghost predicate Leaked(h: History, v: View, s: Session, g: History) {
    Linked(h) && Linked(g) && Continues(h, g) && InStep(h, v, s)
  }

  lemma {:induction false} AdvanceInfo(ck: Key, n: nat)
    requires ChainStart(ck)
    ensures Advance(ck, n).Hkdf? && Advance(ck, n).info == ChainInfo
  {
    if n > 0 {
      AdvanceInfo(ck, n - 1);
    }
  }

  /** The keys of a leaked session, sorted by kind. */
  lemma LeakedKeys(h: History, v: View, s: Session, g: History, key: Key)
    requires Leaked(h, v, s, g) && key in Leak(s).keys
    ensures var e := v.epoch;
      || key == g[e].root
      || (e >= 1 && key == ChainAt(g, e, |h[e].sent|))
      || (e >= 2 && key == ChainAt(g, e - 1, s.nRecv))
      || exists slot :: slot in v.pending && 1 <= slot.epoch < |h| && key == MessageKeyAt(g, slot)
  {
    if k :| k in s.skipped && key == k.mk {
      var i :| 0 <= i < |s.skipped| && s.skipped[i] == k;
      assert s.skipped[i] == SkippedAt(h, v.pending[i]);
      assert v.pending[i] in v.pending;
    }
  }

  /** A root key, a chain key and a message key are never equal. */
  lemma LeakedKeyKinds(h: History, v: View, s: Session, g: History)
    requires Leaked(h, v, s, g)
    ensures var e := v.epoch;
      && Depth(g[e].root) == e
      && (e >= 1 ==> g[e].root.Hkdf? && g[e].root.info == RootInfo)
      && (e >= 1 ==> var ck := ChainAt(g, e, |h[e].sent|); ck.Hkdf? && ck.info == ChainInfo)
      && (e >= 2 ==> var ck := ChainAt(g, e - 1, s.nRecv); ck.Hkdf? && ck.info == ChainInfo)
  {
    RootDepth(g, v.epoch);
    if v.epoch >= 1 {
      assert LinkedAt(g, v.epoch);
      AdvanceInfo(g[v.epoch].chain, |h[v.epoch].sent|);
    }
    if v.epoch >= 2 {
      RootDepth(g, v.epoch - 1);
      AdvanceInfo(g[v.epoch - 1].chain, s.nRecv);
    }
  }

  /** No root below the leaked epoch is derivable. */
  lemma {:induction false} RootsHidden(h: History, v: View, s: Session, g: History, k: nat)
    requires Leaked(h, v, s, g) && k < v.epoch
    ensures !Derivable(Leak(s), g[k].root)
  {
    RootDepth(g, k);
    RootDepth(g, v.epoch);
    if k > 0 {
      assert LinkedAt(g, k);
      RootsHidden(h, v, s, g, k - 1);
    }
    LeakedKeyKinds(h, v, s, g);
    if g[k].root in Leak(s).keys {
      LeakedKeys(h, v, s, g, g[k].root);
    }
  }

  /** Which positions of which chains a leak reaches. */
  ghost predicate ChainExposed(h: History, v: View, s: Session, k: nat, n: nat)
    requires v.epoch < |h|
  {
    || (k == v.epoch && |h[k].sent| <= n)
    || (k + 1 == v.epoch && s.nRecv <= n)
    || k == v.epoch + 1
  }

  lemma ChainKeyHeld(h: History, v: View, s: Session, g: History, k: nat, n: nat)
    requires Leaked(h, v, s, g) && 1 <= k < |g|
    ensures ChainAt(g, k, n) in Leak(s).keys <==>
      (k == v.epoch && n == |h[k].sent|) || (k + 1 == v.epoch && n == s.nRecv)
  {
    RootDepth(g, k);
    AdvanceInfo(g[k].chain, n);
    LeakedKeyKinds(h, v, s, g);
    var key := ChainAt(g, k, n);
    if key in Leak(s).keys {
      LeakedKeys(h, v, s, g, key);
      if v.epoch >= 1 && key == ChainAt(g, v.epoch, |h[v.epoch].sent|) {
        SameChain(g, k, n, v.epoch, |h[v.epoch].sent|);
      } else if v.epoch >= 2 && key == ChainAt(g, v.epoch - 1, s.nRecv) {
        SameChain(g, k, n, v.epoch - 1, s.nRecv);
      }
    }
  }

  lemma SameChain(g: History, k: nat, m: nat, l: nat, n: nat)
    requires Linked(g) && 1 <= k < |g| && 1 <= l < |g| && ChainAt(g, k, m) == ChainAt(g, l, n)
    ensures k == l && m == n
  {
    MessageKeysDistinct(g, Slot(k, m), Slot(l, n));
  }

  lemma ChainStartExposed(h: History, v: View, s: Session, g: History, k: nat)
    requires Leaked(h, v, s, g) && 1 <= k < |g|
    ensures Derivable(Leak(s), g[k].chain) <==> ChainExposed(h, v, s, k, 0)
  {
    assert LinkedAt(g, k);
    ChainKeyHeld(h, v, s, g, k, 0);
    if k <= v.epoch {
      RootsHidden(h, v, s, g, k - 1);
    } else if k == v.epoch + 1 {
      assert g[v.epoch].root in Leak(s).keys;
      assert g[v.epoch].secret == s.dhSend;
    } else {
      assert g[v.epoch].secret < g[k - 1].secret < g[k].secret;
    }
  }

  lemma {:induction false} ChainExposure(h: History, v: View, s: Session, g: History, k: nat, n: nat)
    requires Leaked(h, v, s, g) && 1 <= k < |g|
    ensures Derivable(Leak(s), ChainAt(g, k, n)) <==> ChainExposed(h, v, s, k, n)
  {
    if n == 0 {
      ChainStartExposed(h, v, s, g, k);
    } else {
      ChainExposure(h, v, s, g, k, n - 1);
      ChainKeyHeld(h, v, s, g, k, n);
    }
  }

  /** The message keys that a leak exposes, past and future. */
  lemma MessageExposure(h: History, v: View, s: Session, g: History, slot: Slot)
    requires Leaked(h, v, s, g) && 1 <= slot.epoch < |g|
    ensures Derivable(Leak(s), MessageKeyAt(g, slot)) <==>
      slot in v.pending || ChainExposed(h, v, s, slot.epoch, slot.n)
  {
    var key := MessageKeyAt(g, slot);
    ChainExposure(h, v, s, g, slot.epoch, slot.n);
    if key in Leak(s).keys {
      MessageKeyHeld(h, v, s, g, slot);
    }
    if slot in v.pending {
      var i :| 0 <= i < |v.pending| && v.pending[i] == slot;
      assert s.skipped[i] == SkippedAt(h, slot);
      assert s.skipped[i] in s.skipped;
    }
  }

  lemma MessageKeyHeld(h: History, v: View, s: Session, g: History, slot: Slot)
    requires Leaked(h, v, s, g) && 1 <= slot.epoch < |g| && MessageKeyAt(g, slot) in Leak(s).keys
    ensures slot in v.pending
  {
    var key := MessageKeyAt(g, slot);
    LeakedKeyKinds(h, v, s, g);
    LeakedKeys(h, v, s, g, key);
    if other :| other in v.pending && 1 <= other.epoch < |h| && key == MessageKeyAt(g, other) {
      MessageKeysDistinct(g, slot, other);
    }
  }

  // --- Results over every run ------------------------------------------------------------------

  /** The key pair that `p` contributed to the chain of a packet. */
  function OwnHalf(p: Party, packet: Packet): Public {
    if packet.from == p then packet.envelope.header.dh else packet.peerKey.GetOr(ZeroPublic)
  }

  /** The chain of the packet rests on a key pair `p` made after its session was leaked. */
  predicate Healed(p: Party, leaked: Session, packet: Packet) {
    OwnHalf(p, packet).PublicOf? && OwnHalf(p, packet).secret > leaked.dhSend
  }

  /** `p` had sent or accepted the packet by state `sys`. */
  predicate Used(p: Party, sys: System, i: nat) {
    i < |sys.network| && (sys.network[i].from == p || sys.Accepted(i))
  }

  /**
   The session of `p` leaks after the actions `before`, and the run goes on with `after`. The leak
   exposes the key of a packet exactly when `p` had not used that key before the leak and the chain
   of the packet does not rest on a key pair that `p` made after it.
   */
  lemma ExactExposure(sk: Bytes, prekey: nat, before: seq<Action>, after: seq<Action>, p: Party, i: nat)
    requires i < |Exec(Run(sk, prekey, before), after).network|
    ensures var sys := Run(sk, prekey, before); var packet := Exec(sys, after).network[i];
      Derivable(Leak(sys.Of(p)), packet.envelope.ciphertext.key) <==>
        !Used(p, sys, i) && !Healed(p, sys.Of(p), packet)
  {
    hide Inv;
    var t := RunTracked(sk, prekey, before);
    var sys := Run(sk, prekey, before);
    var u := ExecTracked(t, sys, after);
    ExposureTracked(t, sys, u, Exec(sys, after), p, i);
  }

  lemma ExposureTracked(t: Track, sys: System, u: Track, sys': System, p: Party, i: nat)
    requires Inv(t, sys) && Inv(u, sys') && Follows(t, u) && sys.network <= sys'.network
    requires i < |sys'.network|
    ensures Derivable(Leak(sys.Of(p)), sys'.network[i].envelope.ciphertext.key) <==>
        !Used(p, sys, i) && !Healed(p, sys.Of(p), sys'.network[i])
  {
    hide Derivable, Leak, InStep, Passed, Linked, ReceiptsTracked, Healed, Continues;
    var h, g, v, s, slot := t.history, u.history, t.Of(p), sys.Of(p), u.slots[i];
    assert PacketAt(g, slot, sys'.network[i]);
    MessageExposure(h, v, s, g, slot);
    SentBefore(t, sys, u, sys', i);
    InStepFacts(h, v, s, slot);
    HealedIffLater(g, h, v, s, p, slot, sys'.network[i]);
    if i < |sys.network| {
      assert t.slots[i] == slot;
    }
  }

  /** A packet is in the network of the earlier state exactly when its slot was already sent then. */
  lemma SentBefore(t: Track, sys: System, u: Track, sys': System, i: nat)
    requires Inv(t, sys) && Inv(u, sys') && Follows(t, u) && i < |sys'.network|
    ensures i < |sys.network| <==> ValidSlot(t.history, u.slots[i])
    ensures var k := u.slots[i].epoch; k < |t.history| && k < t.Of(Owner(k)).epoch ==> i < |sys.network|
  {
    hide InStep, DeliveriesTracked, ReceiptsTracked, EnvelopeAt;
    assert PacketAt(u.history, u.slots[i], sys'.network[i]);
    if i < |sys.network| {
      assert PacketAt(t.history, t.slots[i], sys.network[i]);
    }
  }

  lemma InStepFacts(h: History, v: View, s: Session, slot: Slot)
    requires InStep(h, v, s)
    ensures slot in v.pending || slot in v.delivered <==> Passed(h, v.epoch, s.nRecv, slot)
    ensures slot in v.pending ==> slot !in v.delivered
    ensures Passed(h, v.epoch, s.nRecv, slot) <==>
      1 <= slot.epoch < v.epoch && Owner(slot.epoch) != Owner(v.epoch)
      && slot.n < (if slot.epoch == v.epoch - 1 then s.nRecv else |h[slot.epoch].sent|)
    ensures v.epoch < |h| && s.dhSend == h[v.epoch].secret
    ensures v.epoch > 0 ==> s.nRecv <= |h[v.epoch - 1].sent|
  {
  }

  lemma HealedIffLater(g: History, h: History, v: View, s: Session, p: Party, slot: Slot, packet: Packet)
    requires Linked(g) && Continues(h, g) && v.epoch < |h| && s.dhSend == h[v.epoch].secret
    requires PacketAt(g, slot, packet) && p == Owner(v.epoch)
    ensures Healed(p, s, packet) <==> slot.epoch >= v.epoch + 2
  {
    var half := if packet.from == p then slot.epoch else slot.epoch - 1;
    if half < v.epoch {
      assert g[half].secret < g[v.epoch].secret;
    } else if v.epoch < half {
      assert g[v.epoch].secret < g[half].secret;
    }
  }

  /** Forward secrecy: a leaked session exposes, of all packets so far, only those it still awaits. */
  lemma ForwardSecrecy(sk: Bytes, prekey: nat, actions: seq<Action>, p: Party, i: nat)
    requires i < |Run(sk, prekey, actions).network|
    ensures var sys := Run(sk, prekey, actions);
      Derivable(Leak(sys.Of(p)), sys.network[i].envelope.ciphertext.key) <==>
        sys.network[i].from == p.Peer() && !sys.Accepted(i)
  {
    hide Derivable, Leak;
    ExactExposure(sk, prekey, actions, [], p, i);
    NotYetHealed(sk, prekey, actions, p, i);
  }

  lemma NotYetHealed(sk: Bytes, prekey: nat, actions: seq<Action>, p: Party, i: nat)
    requires i < |Run(sk, prekey, actions).network|
    ensures var sys := Run(sk, prekey, actions); !Healed(p, sys.Of(p), sys.network[i])
  {
    var t := RunTracked(sk, prekey, actions);
    var sys := Run(sk, prekey, actions);
    assert PacketAt(t.history, t.slots[i], sys.network[i]);
    HealedIffLater(t.history, t.history, t.Of(p), sys.Of(p), p, t.slots[i], sys.network[i]);
  }

  /**
   Healing: the session of `p` leaks after `before`, and after `middle` its public key has changed. Of the
   packets sent from then on, the leak exposes exactly those that the peer sends while it still has `p`'s
   leaked public key.
   */
  lemma Healing(sk: Bytes, prekey: nat, before: seq<Action>, middle: seq<Action>, after: seq<Action>, p: Party, i: nat)
    requires var (sys, later) := (Run(sk, prekey, before), Exec(Run(sk, prekey, before), middle));
      && later.Of(p).dhSendPub != sys.Of(p).dhSendPub
      && |later.network| <= i < |Exec(later, after).network|
    ensures var (sys, later) := (Run(sk, prekey, before), Exec(Run(sk, prekey, before), middle));
      var packet := Exec(later, after).network[i];
      Derivable(Leak(sys.Of(p)), packet.envelope.ciphertext.key) <==>
        packet.from == p.Peer() && packet.peerKey == Some(sys.Of(p).dhSendPub)
  {
    hide Inv, Follows, Derivable, Leak, Exec;
    var sys := Run(sk, prekey, before);
    var later := Exec(sys, middle);
    var last := Exec(later, after);
    var t := RunTracked(sk, prekey, before);
    var u := ExecTracked(t, sys, middle);
    var w := ExecTracked(u, later, after);
    FollowsTransitive(t, u, w);
    ExposureTracked(t, sys, w, last, p, i);
    HealedUnlessStale(t, sys, u, later, w, last, p, i);
  }

  lemma FollowsTransitive(t: Track, u: Track, w: Track)
    requires Follows(t, u) && Follows(u, w)
    ensures Follows(t, w)
  {
  }

  lemma LeakedStanding(t: Track, sys: System, p: Party)
    requires Inv(t, sys)
    ensures LockStep(t)
    ensures var e := t.Of(p).epoch;
      && e < |t.history| && Owner(e) == p && sys.Of(p).dhSend == t.history[e].secret
      && sys.Of(p).dhSendPub == PublicOf(t.history[e].secret)
  {
  }

  /** A new public key means that the party is at least one ratchet step, two epochs, further on. */
  lemma KeyChanged(t: Track, sys: System, u: Track, later: System, p: Party)
    requires Inv(t, sys) && Inv(u, later) && Follows(t, u)
    requires later.Of(p).dhSendPub != sys.Of(p).dhSendPub
    ensures u.Of(p).epoch >= t.Of(p).epoch + 2
    ensures u.Of(p.Peer()).epoch >= t.Of(p).epoch + 1
  {
    hide Inv, Linked, InStep;
    var e := t.Of(p).epoch;
    LeakedStanding(t, sys, p);
    LeakedStanding(u, later, p);
    SameSecret(t, u, e);
    hide Follows;
    assert u.Of(p).epoch != e;
  }

  lemma SameSecret(t: Track, u: Track, e: nat)
    requires Follows(t, u) && e < |t.history|
    ensures e < |u.history| && u.history[e].secret == t.history[e].secret
    ensures t.alice.epoch <= u.alice.epoch && t.bob.epoch <= u.bob.epoch
  {
  }

  lemma SlotOfPacket(t: Track, sys: System, i: nat)
    requires Inv(t, sys) && i < |sys.network|
    ensures |t.slots| == |sys.network| && PacketAt(t.history, t.slots[i], sys.network[i]) && Linked(t.history)
  {
  }

  lemma HealedUnlessStale(t: Track, sys: System, u: Track, later: System, w: Track, last: System, p: Party, i: nat)
    requires Inv(t, sys) && Inv(u, later) && Inv(w, last) && Follows(t, u) && Follows(u, w) && Follows(t, w)
    requires |sys.network| <= |later.network| <= i < |last.network|
    requires later.Of(p).dhSendPub != sys.Of(p).dhSendPub
    ensures !Used(p, sys, i)
    ensures Healed(p, sys.Of(p), last.network[i]) <==>
      !(last.network[i].from == p.Peer() && last.network[i].peerKey == Some(sys.Of(p).dhSendPub))
  {
    hide Inv, Linked, InStep, HeaderAt, EnvelopeAt;
    KeyChanged(t, sys, u, later, p);
    SlotOfPacket(w, last, i);
    SentBefore(u, later, w, last, i);
    LeakedStanding(t, sys, p);
    LeakedStanding(u, later, p);
    LeakedStanding(u, later, p.Peer());
    var slot, packet, e := w.slots[i], last.network[i], t.Of(p).epoch;
    assert Continues(t.history, w.history);
    hide Follows, Continues;
    HealedIffLater(w.history, t.history, t.Of(p), sys.Of(p), p, slot, packet);
    assert slot.epoch >= u.Of(packet.from).epoch;
    if packet.from == p.Peer() {
      PeerKeyIff(w.history, slot, packet, e);
    }
  }

  lemma PeerKeyIff(h: History, slot: Slot, packet: Packet, e: nat)
    requires Linked(h) && PacketAt(h, slot, packet) && e < |h|
    ensures packet.peerKey == Some(PublicOf(h[e].secret)) <==> slot.epoch == e + 1
  {
    if e < slot.epoch - 1 {
      assert h[e].secret < h[slot.epoch - 1].secret;
    } else if slot.epoch - 1 < e {
      assert h[slot.epoch - 1].secret < h[e].secret;
    }
  }
}
