/**
 Two parties of one Double Ratchet session and a network that drops, delays, reorders and duplicates
 envelopes and returns them to their sender. Whoever is brought an envelope loads its session, decrypts,
 and saves only on success.
 */
module RatchetSystem {
  import opened Common
  import opened Symbolic
  import opened DoubleRatchet
  import opened RatchetHistory

  /** An envelope ever sent, with what was sealed in it and the peer key its sender had then. */
  datatype Packet = Packet(from: Party, envelope: Envelope, text: Bytes, peerKey: Option<Public>)

  /** A successful delivery: which packet, and the text its receiver was shown. */
  datatype Receipt = Receipt(packet: nat, text: Bytes)

  datatype System = System(
    alice: Session,
    bob: Session,
    network: seq<Packet>,
    received: seq<Receipt>,
    nextSecret: nat)
  {
    function Of(p: Party): Session {
      if p.Alice? then alice else bob
    }

    function Update(p: Party, s: Session): System {
      if p.Alice? then this.(alice := s) else this.(bob := s)
    }

    /** Whether a packet has been delivered successfully. */
    predicate Accepted(packet: nat) {
      exists r :: r in received && r.packet == packet
    }
  }

  datatype Action =
    | Send(from: Party, text: Bytes, nonce: nat)
    | Deliver(packet: nat)
    | Reflect(packet: nat)

  /**
   Alice starts from one shared secret and Bob from another, on the key pair `prekey` of Bob that Alice
   starts from. Her first own key pair is drawn next.
   */
  function StartFrom(aliceSk: Bytes, bobSk: Bytes, prekey: nat): System {
    System(InitAlice(Shared(aliceSk), PublicOf(prekey), prekey + 1),
           InitBob(Shared(bobSk), prekey, PublicOf(prekey)), [], [], prekey + 2)
  }

  /** Both sides initialised on the same shared secret. */
  function Start(sk: Bytes, prekey: nat): System {
    StartFrom(sk, sk, prekey)
  }

  /** The outcome of bringing packet `i` to its receiver once more. */
  function Attempt(sys: System, i: nat): (Session, Result<Bytes>)
    requires i < |sys.network|
  {
    Decrypted(sys.Of(sys.network[i].from.Peer()), sys.network[i].envelope, sys.nextSecret)
  }

  /** Bringing packet `i` to `p`. Decrypting may draw a key pair, whether or not it succeeds. */
  function Brought(sys: System, i: nat, p: Party): System
    requires i < |sys.network|
  {
    var (s, r) := Decrypted(sys.Of(p), sys.network[i].envelope, sys.nextSecret);
    var drawn := sys.(nextSecret := sys.nextSecret + 1);
    if r.Err? then drawn
    else drawn.Update(p, s).(received := sys.received + [Receipt(i, r.value)])
  }

  function Step(sys: System, a: Action): System {
    match a
    case Send(p, text, nonce) =>
      var (s, r) := Encrypted(sys.Of(p), text, nonce);
      if r.Err? then sys
      else
        var packet := Packet(p, r.value, text, sys.Of(p).dhRecv);
        sys.Update(p, s).(network := sys.network + [packet])
    case Deliver(i) =>
      if i < |sys.network| then Brought(sys, i, sys.network[i].from.Peer()) else sys
    case Reflect(i) =>
      if i < |sys.network| then Brought(sys, i, sys.network[i].from) else sys
  }

  function Exec(sys: System, actions: seq<Action>): System
    decreases |actions|
  {
    if |actions| == 0 then sys else Exec(Step(sys, actions[0]), actions[1..])
  }

  /** The states that some run of sends and deliveries reaches. */
  function Run(sk: Bytes, prekey: nat, actions: seq<Action>): System {
    Exec(Start(sk, prekey), actions)
  }

  // --- The whole-system invariant --------------------------------------------------------------

  /** The history of a run: its epochs, both views of them, and the slot of every packet. */
  datatype Track = Track(history: History, alice: View, bob: View, slots: seq<Slot>) {
    function Of(p: Party): View {
      if p.Alice? then alice else bob
    }

    function Update(p: Party, v: View): Track {
      if p.Alice? then this.(alice := v) else this.(bob := v)
    }
  }

  ghost predicate PacketAt(h: History, slot: Slot, packet: Packet) {
    && ValidSlot(h, slot)
    && packet.from == Owner(slot.epoch)
    && packet.envelope == EnvelopeAt(h, slot)
    && packet.text == h[slot.epoch].sent[slot.n].text
    && packet.peerKey == Some(PublicOf(h[slot.epoch - 1].secret))
  }

  /** The parties' epochs are adjacent, and the last epoch is the later of the two. */
  ghost predicate LockStep(t: Track) {
    && t.alice.epoch % 2 == 1
    && t.bob.epoch % 2 == 0
    && (t.alice.epoch == t.bob.epoch + 1 || t.bob.epoch == t.alice.epoch + 1)
    && |t.history| == 1 + if t.alice.epoch < t.bob.epoch then t.bob.epoch else t.alice.epoch
  }

  ghost predicate NetworkTracked(t: Track, sys: System) {
    && |t.slots| == |sys.network|
    && NoDuplicates(t.slots)
    && (forall i :: 0 <= i < |t.slots| ==> PacketAt(t.history, t.slots[i], sys.network[i]))
    && (forall slot :: ValidSlot(t.history, slot) ==> slot in t.slots)
  }

  ghost predicate ReceiptsTracked(t: Track, sys: System) {
    && (forall j :: 0 <= j < |sys.received| ==> sys.received[j].packet < |sys.network|)
    && (forall j :: 0 <= j < |sys.received| ==>
          sys.received[j].text == sys.network[sys.received[j].packet].text)
    && (forall i, j :: 0 <= i < j < |sys.received| ==> sys.received[i].packet != sys.received[j].packet)
  }

  ghost predicate DeliveriesTracked(t: Track, sys: System) {
    && |t.slots| == |sys.network|
    && forall i :: 0 <= i < |sys.network| ==>
         (sys.Accepted(i) <==> t.slots[i] in t.Of(sys.network[i].from.Peer()).delivered)
  }

  ghost predicate Inv(t: Track, sys: System) {
    && Linked(t.history)
    && t.history[|t.history| - 1].secret < sys.nextSecret
    && LockStep(t)
    && InStep(t.history, t.alice, sys.alice)
    && InStep(t.history, t.bob, sys.bob)
    && NetworkTracked(t, sys)
    && ReceiptsTracked(t, sys)
    && DeliveriesTracked(t, sys)
  }

  /** A later track of the same run. */
  ghost predicate Follows(t: Track, u: Track) {
    && Continues(t.history, u.history)
    && t.slots <= u.slots
    && t.alice.epoch <= u.alice.epoch
    && t.bob.epoch <= u.bob.epoch
    && (forall k :: 0 <= k < |t.history| && k < t.Of(Owner(k)).epoch ==>
          u.history[k].sent == t.history[k].sent)
  }

  lemma InitTracked(sk: Bytes, prekey: nat) returns (t: Track)
    ensures Inv(t, Start(sk, prekey))
  {
    var (root, chain) := KdfRk(Shared(sk), Dh(prekey + 1, PublicOf(prekey)));
    var h := [Epoch(prekey, Shared(sk), Shared(sk), []), Epoch(prekey + 1, root, chain, [])];
    t := Track(h, View(1, {}, []), View(0, {}, []), []);
    assert LinkedAt(h, 1);
  }

  lemma SendTracked(t: Track, sys: System, a: Action) returns (u: Track)
    requires Inv(t, sys) && a.Send?
    ensures Inv(u, Step(sys, a)) && Follows(t, u)
  {
    hide InStep, NetworkTracked, ReceiptsTracked, DeliveriesTracked, Encrypted, Linked, EnvelopeAt, ValidSlot;
    var p, v, s := a.from, t.Of(a.from), sys.Of(a.from);
    SenderFields(t.history, v, s, a.text, a.nonce);
    if v.epoch == 0 {
      return t;
    }
    var slot := Slot(v.epoch, |t.history[v.epoch].sent|);
    u := t.(history := WithSent(t.history, v.epoch, Sent(a.text, a.nonce)), slots := t.slots + [slot]);
    SendInStep(t.history, v, s, a.text, a.nonce);
    SendKeepsInv(t, sys, p, Sent(a.text, a.nonce), Encrypted(s, a.text, a.nonce).0, u, Step(sys, a));
  }

  lemma SendKeepsInv(t: Track, sys: System, p: Party, sent: Sent, s': Session, u: Track, sys': System)
    requires Inv(t, sys) && 1 <= t.Of(p).epoch < |t.history|
    requires u.history == WithSent(t.history, t.Of(p).epoch, sent)
    requires InStep(u.history, t.Of(p), s') && Linked(u.history)
    requires var slot := Slot(t.Of(p).epoch, |t.history[t.Of(p).epoch].sent|);
      && ValidSlot(u.history, slot)
      && u == t.(history := u.history, slots := t.slots + [slot])
      && sys' == sys.Update(p, s').(network := sys.network + [
           Packet(p, EnvelopeAt(u.history, slot), sent.text, Some(PublicOf(t.history[slot.epoch - 1].secret)))])
    ensures Inv(u, sys')
  {
    hide InStep, NetworkTracked, ReceiptsTracked, DeliveriesTracked, Linked, EnvelopeAt, ValidSlot;
    var e, q := t.Of(p).epoch, p.Peer();
    var slot := Slot(e, |t.history[e].sent|);
    InStepFramed(t.history, u.history, t.Of(q), sys.Of(q));
    SlotFresh(t, sys, slot);
    SendNetwork(t, sys, e, sent, u, sys');
    SendDeliveries(t, sys, slot, u, sys');
  }

  lemma SenderFields(h: History, v: View, s: Session, text: Bytes, nonce: nat)
    requires InStep(h, v, s)
    ensures v.epoch < |h|
    ensures Encrypted(s, text, nonce).1.Err? <==> v.epoch == 0
    ensures v.epoch > 0 ==> s.dhRecv == Some(PublicOf(h[v.epoch - 1].secret))
  {
  }

  lemma SlotFresh(t: Track, sys: System, slot: Slot)
    requires NetworkTracked(t, sys)
    requires slot.epoch < |t.history| && |t.history[slot.epoch].sent| <= slot.n
    ensures slot !in t.slots
  {
    assert forall i :: 0 <= i < |t.slots| ==> PacketAt(t.history, t.slots[i], sys.network[i]);
  }

  lemma SendNetwork(t: Track, sys: System, e: nat, sent: Sent, u: Track, sys': System)
    requires NetworkTracked(t, sys) && 1 <= e < |t.history| <= e + 2
    requires u.history == WithSent(t.history, e, sent)
    requires var slot := Slot(e, |t.history[e].sent|);
      && u.slots == t.slots + [slot] && slot !in t.slots
      && sys'.network == sys.network + [Packet(Owner(e), EnvelopeAt(u.history, slot), sent.text,
                                               Some(PublicOf(t.history[e - 1].secret)))]
    ensures NetworkTracked(u, sys')
  {
    var h, g := t.history, u.history;
    forall i | 0 <= i < |u.slots|
      ensures PacketAt(g, u.slots[i], sys'.network[i])
    {
      if i < |t.slots| {
        assert PacketAt(h, t.slots[i], sys.network[i]);
        EnvelopeFramed(h, g, t.slots[i]);
      }
    }
    forall slot | ValidSlot(g, slot)
      ensures slot in u.slots
    {
      assert ValidSlot(h, slot) || slot == u.slots[|t.slots|];
    }
  }

  lemma SendDeliveries(t: Track, sys: System, slot: Slot, u: Track, sys': System)
    requires Linked(t.history) && DeliveriesTracked(t, sys) && ReceiptsTracked(t, sys)
    requires InStep(t.history, t.alice, sys.alice) && InStep(t.history, t.bob, sys.bob)
    requires 1 <= slot.epoch < |t.history| && slot.n == |t.history[slot.epoch].sent|
    requires u.alice == t.alice && u.bob == t.bob && u.slots == t.slots + [slot]
    requires sys'.received == sys.received && sys.network <= sys'.network && |sys'.network| == |sys.network| + 1
    ensures ReceiptsTracked(u, sys') && DeliveriesTracked(u, sys')
  {
    forall i: nat
      ensures sys'.Accepted(i) == sys.Accepted(i)
    {
    }
    assert !sys.Accepted(|sys.network|);
    assert !Passed(t.history, t.alice.epoch, sys.alice.nRecv, slot);
    assert !Passed(t.history, t.bob.epoch, sys.bob.nRecv, slot);
  }

  /** Every packet can be brought to its receiver at any time. */
  lemma PacketDeliverable(t: Track, sys: System, i: nat)
    requires Inv(t, sys) && i < |sys.network|
    ensures Deliverable(t.history, t.Of(sys.network[i].from.Peer()), t.slots[i])
  {
    assert PacketAt(t.history, t.slots[i], sys.network[i]);
  }

  /** One delivery attempt in a tracked state. */
  lemma AttemptTracked(t: Track, sys: System, i: nat) returns (u: Track)
    requires Inv(t, sys) && i < |sys.network|
    ensures var r := Attempt(sys, i).1;
      && (r.Ok? <==> !sys.Accepted(i)
                     && WithinReach(sys.Of(sys.network[i].from.Peer()), sys.network[i].envelope.header))
      && (r.Ok? ==> r.value == sys.network[i].text)
      && (r.Err? && !sys.Accepted(i) ==> r.error == "Too many skipped messages")
    ensures Inv(u, Step(sys, Deliver(i))) && Follows(t, u)
  {
    hide Inv, Follows, Step;
    var g, v' := AttemptOutcome(t, sys, i);
    if Attempt(sys, i).1.Ok? {
      u := t.Update(sys.network[i].from.Peer(), v').(history := g);
      SuccessTracked(t, sys, i, u);
    } else {
      u := t;
      FailureTracked(t, sys, i);
    }
  }

  lemma AttemptOutcome(t: Track, sys: System, i: nat) returns (g: History, v': View)
    requires Inv(t, sys) && i < |sys.network|
    ensures |t.slots| == |sys.network|
    ensures var p := sys.network[i].from.Peer(); var (v, s', r) := (t.Of(p), Attempt(sys, i).0, Attempt(sys, i).1);
      && (r.Ok? <==> !sys.Accepted(i) && WithinReach(sys.Of(p), sys.network[i].envelope.header))
      && (r.Err? && !sys.Accepted(i) ==> r.error == "Too many skipped messages")
      && (r.Ok? ==> r.value == sys.network[i].text
                    && v'.delivered == v.delivered + {t.slots[i]}
                    && InStep(g, v', s'))
      && v'.epoch == (if r.Ok? && t.slots[i].epoch == v.epoch + 1 then v.epoch + 2 else v.epoch)
      && Linked(g)
      && g == (if v'.epoch == v.epoch then t.history
               else t.history + [NextEpoch(t.history, sys.nextSecret)])
  {
    hide InStep, ReceiptsTracked, Decrypted, WithinReach, LockStep;
    var p := sys.network[i].from.Peer();
    assert PacketAt(t.history, t.slots[i], sys.network[i]);
    PacketDeliverable(t, sys, i);
    g, v' := RatchetHistory.Deliver(t.history, t.Of(p), sys.Of(p), t.slots[i], sys.nextSecret);
  }

  /** Drawing a key pair changes nothing else. */
  lemma DrawnTracked(t: Track, sys: System)
    requires Inv(t, sys)
    ensures Inv(t, sys.(nextSecret := sys.nextSecret + 1)) && Follows(t, t)
  {
    hide InStep, Linked, LockStep, PacketAt, ValidSlot;
    var sys' := sys.(nextSecret := sys.nextSecret + 1);
    forall j: nat
      ensures sys'.Accepted(j) == sys.Accepted(j)
    {
    }
  }

  lemma FailureTracked(t: Track, sys: System, i: nat)
    requires Inv(t, sys) && i < |sys.network| && Attempt(sys, i).1.Err?
    ensures Inv(t, Step(sys, Deliver(i))) && Follows(t, t)
  {
    hide Inv, Follows, Decrypted;
    DrawnTracked(t, sys);
  }

  lemma SuccessTracked(t: Track, sys: System, i: nat, u: Track)
    requires Inv(t, sys) && i < |sys.network| && Attempt(sys, i).1 == Ok(sys.network[i].text)
    requires !sys.Accepted(i)
    requires var p := sys.network[i].from.Peer(); var (v, v') := (t.Of(p), u.Of(p));
      && u == t.Update(p, v').(history := u.history)
      && v'.delivered == v.delivered + {t.slots[i]}
      && v'.epoch == (if t.slots[i].epoch == v.epoch + 1 then v.epoch + 2 else v.epoch)
      && InStep(u.history, v', Attempt(sys, i).0)
      && Linked(u.history)
      && u.history == if v'.epoch == v.epoch then t.history
                      else t.history + [NextEpoch(t.history, sys.nextSecret)]
    ensures Inv(u, Step(sys, Deliver(i))) && Follows(t, u)
  {
    hide InStep, NetworkTracked, ReceiptsTracked, DeliveriesTracked, LockStep, Follows, Attempt, Step, Linked;
    var p, sys' := sys.network[i].from.Peer(), Step(sys, Deliver(i));
    SlotOf(t, sys, i);
    SuccessStep(sys, i);
    DeliveryFollows(t, u, p, t.slots[i]);
    InStepFramed(t.history, u.history, t.Of(p.Peer()), sys.Of(p.Peer()));
    NetworkFramed(t, sys, u, sys');
    ReceiptAdded(t, sys, u, sys', i);
  }

  lemma SuccessStep(sys: System, i: nat)
    requires i < |sys.network| && Attempt(sys, i).1.Ok?
    ensures Step(sys, Deliver(i)) == sys.Update(sys.network[i].from.Peer(), Attempt(sys, i).0).(
      received := sys.received + [Receipt(i, Attempt(sys, i).1.value)], nextSecret := sys.nextSecret + 1)
  {
  }

  lemma SlotOf(t: Track, sys: System, i: nat)
    requires NetworkTracked(t, sys) && i < |sys.network|
    ensures |t.slots| == |sys.network|
    ensures ValidSlot(t.history, t.slots[i]) && Owner(t.slots[i].epoch) == sys.network[i].from
    ensures forall j :: 0 <= j < |t.slots| && t.slots[j] == t.slots[i] ==> j == i
  {
    assert PacketAt(t.history, t.slots[i], sys.network[i]);
  }

  /** A delivery leaves both epochs alone, or moves the party behind two epochs on. */
  lemma DeliveryFollows(t: Track, u: Track, p: Party, slot: Slot)
    requires LockStep(t) && ValidSlot(t.history, slot) && Owner(slot.epoch) == p.Peer()
    requires u == t.Update(p, u.Of(p)).(history := u.history)
    requires u.Of(p).epoch == (if slot.epoch == t.Of(p).epoch + 1 then t.Of(p).epoch + 2 else t.Of(p).epoch)
    requires t.history <= u.history
    requires |u.history| == |t.history| + if u.Of(p).epoch == t.Of(p).epoch then 0 else 1
    ensures LockStep(u) && Follows(t, u)
  {
  }

  lemma NetworkFramed(t: Track, sys: System, u: Track, sys': System)
    requires NetworkTracked(t, sys) && u.slots == t.slots && sys'.network == sys.network
    requires t.history <= u.history
    requires forall k :: |t.history| <= k < |u.history| ==> u.history[k].sent == []
    ensures NetworkTracked(u, sys')
  {
    forall i | 0 <= i < |u.slots|
      ensures PacketAt(u.history, u.slots[i], sys'.network[i])
    {
      assert PacketAt(t.history, t.slots[i], sys.network[i]);
      EnvelopeFramed(t.history, u.history, t.slots[i]);
    }
    forall slot | ValidSlot(u.history, slot)
      ensures slot in u.slots
    {
      assert ValidSlot(t.history, slot);
    }
  }

  lemma ReceiptAdded(t: Track, sys: System, u: Track, sys': System, i: nat)
    requires ReceiptsTracked(t, sys) && DeliveriesTracked(t, sys)
    requires i < |sys.network| && !sys.Accepted(i)
    requires u.slots == t.slots && sys'.network == sys.network
    requires sys'.received == sys.received + [Receipt(i, sys.network[i].text)]
    requires var p := sys.network[i].from.Peer();
      && u.Of(p).delivered == t.Of(p).delivered + {t.slots[i]}
      && u.Of(p.Peer()).delivered == t.Of(p.Peer()).delivered
    requires forall j :: 0 <= j < |t.slots| && t.slots[j] == t.slots[i] ==> j == i
    ensures ReceiptsTracked(u, sys') && DeliveriesTracked(u, sys')
  {
    forall j: nat
      ensures sys'.Accepted(j) <==> sys.Accepted(j) || j == i
    {
      assert Receipt(i, sys.network[i].text) in sys'.received;
      if sys.Accepted(j) {
        var r :| r in sys.received && r.packet == j;
        assert r in sys'.received;
      }
    }
    forall j | 0 <= j < |sys.received|
      ensures sys.received[j].packet != i
    {
      assert sys.received[j] in sys.received;
    }
  }

  /** A packet brought back to its sender is refused. */
  lemma ReflectionTracked(t: Track, sys: System, i: nat)
    requires Inv(t, sys) && i < |sys.network|
    ensures Step(sys, Reflect(i)) == sys.(nextSecret := sys.nextSecret + 1)
    ensures Inv(t, Step(sys, Reflect(i))) && Follows(t, t)
  {
    hide Inv, Follows, Decrypted;
    ReflectionRefusedAt(t, sys, i);
    DrawnTracked(t, sys);
  }

  lemma ReflectionRefusedAt(t: Track, sys: System, i: nat)
    requires Inv(t, sys) && i < |sys.network|
    ensures Decrypted(sys.Of(sys.network[i].from), sys.network[i].envelope, sys.nextSecret).1.Err?
  {
    hide InStep, DeliveriesTracked, ReceiptsTracked, Decrypted, EnvelopeAt;
    var p := sys.network[i].from;
    assert PacketAt(t.history, t.slots[i], sys.network[i]);
    OwnEnvelopeFails(t.history, t.Of(p), sys.Of(p), t.slots[i], sys.nextSecret);
  }

  lemma {:induction false} ExecTracked(t: Track, sys: System, actions: seq<Action>) returns (u: Track)
    requires Inv(t, sys)
    ensures Inv(u, Exec(sys, actions)) && Follows(t, u)
    ensures sys.network <= Exec(sys, actions).network
    decreases |actions|
  {
    hide Inv;
    if |actions| == 0 {
      u := t;
    } else {
      var a := actions[0];
      if a.Send? {
        u := SendTracked(t, sys, a);
      } else if a.packet >= |sys.network| {
        u := t;
      } else if a.Deliver? {
        u := AttemptTracked(t, sys, a.packet);
      } else {
        ReflectionTracked(t, sys, a.packet);
        u := t;
      }
      u := ExecTracked(u, Step(sys, a), actions[1..]);
    }
  }

  lemma RunTracked(sk: Bytes, prekey: nat, actions: seq<Action>) returns (t: Track)
    ensures Inv(t, Run(sk, prekey, actions))
  {
    t := InitTracked(sk, prekey);
    t := ExecTracked(t, Start(sk, prekey), actions);
  }

  // --- Results over every run ------------------------------------------------------------------

  lemma {:induction false} ExecAppend(sys: System, a: seq<Action>, b: seq<Action>)
    ensures Exec(sys, a + b) == Exec(Exec(sys, a), b)
    decreases |a|
  {
    if |a| == 0 {
      assert a + b == b;
    } else {
      assert (a + b)[1..] == a[1..] + b;
      ExecAppend(Step(sys, a[0]), a[1..], b);
    }
  }

  lemma RunStep(sk: Bytes, prekey: nat, actions: seq<Action>, a: Action)
    ensures Run(sk, prekey, actions + [a]) == Step(Run(sk, prekey, actions), a)
  {
    ExecAppend(Start(sk, prekey), actions, [a]);
    var sys := Run(sk, prekey, actions);
    assert Exec(sys, [a]) == Exec(Step(sys, a), []);
  }

  /** What being within reach means, in numbers: a stored key, or gaps of at most 1000. */
  lemma ReachInNumbers(s: Session, header: Header)
    ensures WithinReach(s, header) <==>
      || (exists key :: key in s.skipped && key.dhPub == header.dh && key.n == header.n)
      || (if s.dhRecv == Some(header.dh) then header.n <= s.nRecv + 1000
          else header.pn <= s.nRecv + 1000 && header.n <= 1000)
  {
    var i := Position(s.skipped, header);
    if i < |s.skipped| {
      assert s.skipped[i] in s.skipped;
    } else {
      assert forall key :: key in s.skipped ==> !Matches(key, header);
    }
  }

  /**
   After any run, bringing any packet to its receiver succeeds exactly when it was not accepted before and
   either its key is stored or no gap exceeds 1000; it then yields the text given to `encrypt`. A packet that
   was never accepted is refused only for its gap. A refusal leaves both stored sessions as they were.
   */
  lemma DeliveryCorrect(sk: Bytes, prekey: nat, actions: seq<Action>, i: nat)
    requires i < |Run(sk, prekey, actions).network|
    ensures var sys := Run(sk, prekey, actions);
      var (packet, r) := (sys.network[i], Attempt(sys, i).1);
      var (s, header) := (sys.Of(packet.from.Peer()), packet.envelope.header);
      && (r.Ok? <==>
            && !sys.Accepted(i)
            && (|| (exists key :: key in s.skipped && key.dhPub == header.dh && key.n == header.n)
                || (if s.dhRecv == Some(header.dh) then header.n <= s.nRecv + 1000
                    else header.pn <= s.nRecv + 1000 && header.n <= 1000)))
      && (r.Ok? ==> r.value == packet.text)
      && (r.Err? && !sys.Accepted(i) ==> r.error == "Too many skipped messages")
      && (r.Err? ==> var next := Step(sys, Deliver(i)); next.alice == sys.alice && next.bob == sys.bob)
      && Step(sys, Deliver(i)).Of(packet.from) == sys.Of(packet.from)
      && Step(sys, Deliver(i)).Of(packet.from.Peer()) == Committed(s, packet.envelope, sys.nextSecret)
  {
    hide Inv, Decrypted, WithinReach;
    var t := RunTracked(sk, prekey, actions);
    var sys := Run(sk, prekey, actions);
    var u := AttemptTracked(t, sys, i);
    ReachInNumbers(sys.Of(sys.network[i].from.Peer()), sys.network[i].envelope.header);
  }

  /** After any run, bringing any packet back to its sender changes nothing but the drawn key pair. */
  lemma ReflectionRefused(sk: Bytes, prekey: nat, actions: seq<Action>, i: nat)
    requires i < |Run(sk, prekey, actions).network|
    ensures var sys := Run(sk, prekey, actions);
      Step(sys, Reflect(i)) == sys.(nextSecret := sys.nextSecret + 1)
  {
    hide Inv;
    var t := RunTracked(sk, prekey, actions);
    ReflectionTracked(t, Run(sk, prekey, actions), i);
  }

  /**
   Headers and nonces are not covered by the encryption. Still, after any run, a packet brought to either party
   under any other header and nonce is opened at most where and when the packet itself could be: by its
   receiver, with its own nonce, while not accepted before, and as the text that was sent.
   */
  lemma RewrittenNeverReplays(sk: Bytes, prekey: nat, actions: seq<Action>, i: nat, p: Party,
                              header: Header, nonce: nat)
    requires i < |Run(sk, prekey, actions).network|
    ensures var sys := Run(sk, prekey, actions); var packet := sys.network[i];
      var r := Decrypted(sys.Of(p), Envelope(header, nonce, packet.envelope.ciphertext), sys.nextSecret).1;
      r.Ok? ==> p == packet.from.Peer() && !sys.Accepted(i)
                && nonce == packet.envelope.nonce && r.value == packet.text
  {
    hide Decrypted, InStep, Run;
    var t := RunTracked(sk, prekey, actions);
    var sys := Run(sk, prekey, actions);
    var e := Envelope(header, nonce, sys.network[i].envelope.ciphertext);
    assert PacketAt(t.history, t.slots[i], sys.network[i]);
    if Decrypted(sys.Of(p), e, sys.nextSecret).1.Ok? {
      RewrittenOpens(t.history, t.Of(p), sys.Of(p), t.slots[i], e, sys.nextSecret);
    }
  }

  /**
   While chains stay within 1000 messages, no delivery order, loss or duplication can make the
   first delivery of a packet fail.
   */
  lemma ShortChainsAlwaysDeliver(sk: Bytes, prekey: nat, actions: seq<Action>, i: nat)
    requires i < |Run(sk, prekey, actions).network| && !Run(sk, prekey, actions).Accepted(i)
    requires Run(sk, prekey, actions).network[i].envelope.header.n <= 1000
    requires Run(sk, prekey, actions).network[i].envelope.header.pn <= 1000
    ensures Attempt(Run(sk, prekey, actions), i).1 == Ok(Run(sk, prekey, actions).network[i].text)
  {
    hide Decrypted;
    DeliveryCorrect(sk, prekey, actions, i);
  }

  /** In every run, each packet is received at most once, and always as the text that was sent. */
  lemma ReceivedOnceUnchanged(sk: Bytes, prekey: nat, actions: seq<Action>)
    ensures var sys := Run(sk, prekey, actions);
      && (forall j :: 0 <= j < |sys.received| ==>
            sys.received[j].packet < |sys.network|
            && sys.received[j].text == sys.network[sys.received[j].packet].text)
      && (forall i, j :: 0 <= i < j < |sys.received| ==> sys.received[i].packet != sys.received[j].packet)
  {
    var t := RunTracked(sk, prekey, actions);
  }

  /** In every run, no two packets are sealed under the same message key. */
  lemma MessageKeysNeverReused(sk: Bytes, prekey: nat, actions: seq<Action>, i: nat, j: nat)
    requires i < j < |Run(sk, prekey, actions).network|
    ensures var net := Run(sk, prekey, actions).network;
      net[i].envelope.ciphertext.key != net[j].envelope.ciphertext.key
  {
    var t := RunTracked(sk, prekey, actions);
    var sys := Run(sk, prekey, actions);
    assert PacketAt(t.history, t.slots[i], sys.network[i]);
    assert PacketAt(t.history, t.slots[j], sys.network[j]);
    if MessageKeyAt(t.history, t.slots[i]) == MessageKeyAt(t.history, t.slots[j]) {
      MessageKeysDistinct(t.history, t.slots[i], t.slots[j]);
    }
  }

  /**
   `ahead` is one ratchet step in front of `behind`: it has received `behind`'s current public key,
   its root follows from `behind`'s root and both current key pairs, `behind` computes the same
   sending chain start, and the receive chain is `behind`'s sending chain minus what is in flight.
   */
  ghost predicate OneAhead(ahead: Session, behind: Session) {
    && ahead.dhRecv == Some(behind.dhSendPub)
    && behind.dhSendPub == PublicOf(behind.dhSend)
    && ahead.dhSendPub == PublicOf(ahead.dhSend)
    && ahead.rootKey == KdfRk(behind.rootKey, Dh(behind.dhSend, ahead.dhSendPub)).0
    && ahead.ckSend == Some(Advance(KdfRk(behind.rootKey, Dh(behind.dhSend, ahead.dhSendPub)).1, ahead.nSend))
    && ahead.nRecv <= behind.nSend
    && behind.ckSend == (match ahead.ckRecv
                         case None => None
                         case Some(ck) => Some(Advance(ck, behind.nSend - ahead.nRecv)))
  }

  /** In every run, one party is exactly one ratchet step ahead of the other. */
  lemma AlwaysOneAhead(sk: Bytes, prekey: nat, actions: seq<Action>)
    ensures var sys := Run(sk, prekey, actions); OneAhead(sys.alice, sys.bob) || OneAhead(sys.bob, sys.alice)
  {
    var t := RunTracked(sk, prekey, actions);
    var sys := Run(sk, prekey, actions);
    if t.bob.epoch < t.alice.epoch {
      OneAheadOf(t.history, t.alice.epoch, sys.alice, sys.bob);
    } else {
      OneAheadOf(t.history, t.bob.epoch, sys.bob, sys.alice);
    }
  }

  lemma OneAheadOf(h: History, e: nat, ahead: Session, behind: Session)
    requires Linked(h) && 1 <= e < |h| && KeysInStep(h, e, ahead) && KeysInStep(h, e - 1, behind)
    ensures OneAhead(ahead, behind)
  {
    assert LinkedAt(h, e);
    DhCommutes(h[e].secret, h[e - 1].secret);
    if e >= 2 {
      AdvanceAdds(h[e - 1].chain, ahead.nRecv, behind.nSend - ahead.nRecv);
    }
  }

  /** The key that `skip_message_keys` stores for a packet. */
  function StoredKey(packet: Packet): SkippedKey {
    SkippedKey(packet.envelope.header.dh, packet.envelope.header.n, packet.envelope.ciphertext.key)
  }

  /** Key pairs are numbered in the order they are made, so an older chain has a smaller key. */
  predicate PassedOver(s: Session, header: Header) {
    && s.dhRecv.Some? && s.dhRecv.value.PublicOf? && header.dh.PublicOf?
    && (header.dh.secret < s.dhRecv.value.secret || (header.dh == s.dhRecv.value && header.n < s.nRecv))
  }

  /**
   In every run, the skipped store of a party holds exactly one key for each packet addressed to it
   that its receive chains have passed and that it has not accepted, the key that seals the packet.
   */
  lemma StoreIsPassedUndelivered(sk: Bytes, prekey: nat, actions: seq<Action>, p: Party, key: SkippedKey)
    ensures var sys := Run(sk, prekey, actions); var s := sys.Of(p);
      && NoDuplicates(s.skipped)
      && (key in s.skipped <==>
            exists i :: 0 <= i < |sys.network| && sys.network[i].from == p.Peer() && !sys.Accepted(i)
                        && PassedOver(s, sys.network[i].envelope.header) && key == StoredKey(sys.network[i]))
  {
    hide InStep, PassedOver, NetworkTracked, DeliveriesTracked, ReceiptsTracked;
    var t := RunTracked(sk, prekey, actions);
    var sys := Run(sk, prekey, actions);
    var h, v, s := t.history, t.Of(p), sys.Of(p);
    StoreNoDuplicates(h, v, s);
    forall i | 0 <= i < |sys.network| && sys.network[i].from == p.Peer()
      ensures StoredKey(sys.network[i]) in s.skipped <==>
              !sys.Accepted(i) && PassedOver(s, sys.network[i].envelope.header)
    {
      StoredIffPassed(t, sys, p, i);
    }
    if key in s.skipped {
      var i := StoredKeyOrigin(t, sys, p, key);
    }
  }

  lemma StoredIffPassed(t: Track, sys: System, p: Party, i: nat)
    requires Inv(t, sys) && i < |sys.network| && sys.network[i].from == p.Peer()
    ensures StoredKey(sys.network[i]) in sys.Of(p).skipped <==>
            !sys.Accepted(i) && PassedOver(sys.Of(p), sys.network[i].envelope.header)
  {
    assert PacketAt(t.history, t.slots[i], sys.network[i]);
    StoredIffPending(t.history, t.Of(p), sys.Of(p), t.slots[i]);
    PassedConcretely(t.history, t.Of(p), sys.Of(p), t.slots[i]);
  }

  lemma StoredKeyOrigin(t: Track, sys: System, p: Party, key: SkippedKey) returns (i: nat)
    requires Inv(t, sys) && key in sys.Of(p).skipped
    ensures i < |sys.network| && sys.network[i].from == p.Peer() && key == StoredKey(sys.network[i])
  {
    hide InStep, DeliveriesTracked, ReceiptsTracked, EnvelopeAt, ValidSlot, MessageKeyAt;
    var slot := StoredKeySlot(t.history, t.Of(p), sys.Of(p), key);
    i :| 0 <= i < |t.slots| && t.slots[i] == slot;
    assert PacketAt(t.history, slot, sys.network[i]);
    StoredKeyOf(t.history, slot, sys.network[i]);
  }

  lemma StoredKeySlot(h: History, v: View, s: Session, key: SkippedKey) returns (slot: Slot)
    requires Linked(h) && InStep(h, v, s) && key in s.skipped
    ensures ValidSlot(h, slot) && Owner(slot.epoch) != Owner(v.epoch) && key == SkippedAt(h, slot)
  {
    var j :| 0 <= j < |s.skipped| && s.skipped[j] == key;
    slot := v.pending[j];
    assert slot in v.pending;
    assert Passed(h, v.epoch, s.nRecv, slot);
  }

  lemma StoredKeyOf(h: History, slot: Slot, packet: Packet)
    requires PacketAt(h, slot, packet)
    ensures StoredKey(packet) == SkippedAt(h, slot)
  {
  }

  lemma PassedConcretely(h: History, v: View, s: Session, slot: Slot)
    requires Linked(h) && InStep(h, v, s) && ValidSlot(h, slot) && Owner(slot.epoch) != Owner(v.epoch)
    ensures PassedOver(s, HeaderAt(h, slot)) <==> Passed(h, v.epoch, s.nRecv, slot)
  {
    if v.epoch > 0 {
      if slot.epoch < v.epoch - 1 {
        assert h[slot.epoch].secret < h[v.epoch - 1].secret;
      } else if v.epoch - 1 < slot.epoch {
        assert h[v.epoch - 1].secret < h[slot.epoch].secret;
      }
    }
  }

  lemma StoredIffPending(h: History, v: View, s: Session, slot: Slot)
    requires Linked(h) && InStep(h, v, s) && slot.epoch < |h|
    ensures SkippedAt(h, slot) in s.skipped <==> slot in v.pending
  {
    PositionOfSlot(h, v.pending, s.skipped, slot);
    if SkippedAt(h, slot) in s.skipped {
      var j :| 0 <= j < |s.skipped| && s.skipped[j] == SkippedAt(h, slot);
      assert Matches(s.skipped[j], HeaderAt(h, slot));
    }
  }

  lemma StoreNoDuplicates(h: History, v: View, s: Session)
    requires Linked(h) && InStep(h, v, s)
    ensures NoDuplicates(s.skipped)
  {
    forall i, j | 0 <= i < j < |s.skipped|
      ensures s.skipped[i] != s.skipped[j]
    {
      PositionOfSlot(h, v.pending, s.skipped, v.pending[i]);
      PositionOfSlot(h, v.pending, s.skipped, v.pending[j]);
      assert s.skipped[i] == SkippedAt(h, v.pending[i]);
      assert s.skipped[j] == SkippedAt(h, v.pending[j]);
    }
  }
}
