/**
 How a session starts. Whether anything can ever be delivered is decided by two things: whether both sides
 start from one shared secret, and whether the side that is written to starts as the responder. The
 application gets the second one wrong.
 */
module RatchetStart {
  import opened Common
  import opened Symbolic
  import opened DoubleRatchet
  import opened RatchetHistory
  import opened RatchetSystem

  // --- One side speaking alone -------------------------------------------------------------------

  /** Only Alice has ever sent, and she has accepted nothing. */
  ghost predicate Monologue(h: History, alice: Session, network: seq<Packet>) {
    && Linked(h) && |h| == 2 && InStep(h, View(1, {}, []), alice)
    && |network| == |h[1].sent|
    && (forall i :: 0 <= i < |network| ==>
          network[i].from == Alice && network[i].envelope == EnvelopeAt(h, Slot(1, i)))
  }

  function FirstHistory(sk: Bytes, bobSecret: nat, aliceSecret: nat): History {
    var (root, chain) := KdfRk(Shared(sk), Dh(aliceSecret, PublicOf(bobSecret)));
    [Epoch(bobSecret, Shared(sk), Shared(sk), []), Epoch(aliceSecret, root, chain, [])]
  }

  lemma MonologueStarts(sk: Bytes, bobSecret: nat, aliceSecret: nat)
    requires bobSecret < aliceSecret
    ensures Monologue(FirstHistory(sk, bobSecret, aliceSecret),
                      InitAlice(Shared(sk), PublicOf(bobSecret), aliceSecret), [])
  {
    assert LinkedAt(FirstHistory(sk, bobSecret, aliceSecret), 1);
  }

  lemma MonologueSends(h: History, alice: Session, network: seq<Packet>, text: Bytes, nonce: nat)
    requires Monologue(h, alice, network)
    ensures Encrypted(alice, text, nonce).1.Ok?
    ensures var (s, r) := Encrypted(alice, text, nonce);
      Monologue(WithSent(h, 1, Sent(text, nonce)), s, network + [Packet(Alice, r.value, text, alice.dhRecv)])
  {
    hide InStep, Linked, Encrypted, EnvelopeAt;
    var g := WithSent(h, 1, Sent(text, nonce));
    SendInStep(h, View(1, {}, []), alice, text, nonce);
    forall i | 0 <= i < |network|
      ensures EnvelopeAt(g, Slot(1, i)) == EnvelopeAt(h, Slot(1, i))
    {
      EnvelopeFramed(h, g, Slot(1, i));
    }
  }

  /** Someone who has received nothing opens a packet exactly when it derives the chain of the sender. */
  lemma MonologueOpensIff(h: History, alice: Session, network: seq<Packet>, i: nat, s: Session, newSecret: nat)
    requires Monologue(h, alice, network) && i < |network|
    requires s.skipped == [] && s.ckRecv.None? && s.dhRecv != Some(PublicOf(h[1].secret))
    ensures Decrypted(s, network[i].envelope, newSecret).1.Ok? <==>
      h[1].chain == KdfRk(s.rootKey, Dh(s.dhSend, PublicOf(h[1].secret))).1 && i <= MAX_SKIP
  {
    hide InStep, Decrypted;
    RootDepth(h, 1);
    FirstContactIff(s, network[i].envelope, h[1].chain, newSecret);
  }

  /** Her own packets are refused by the speaker. */
  lemma MonologueRefusesOwn(h: History, alice: Session, network: seq<Packet>, i: nat, newSecret: nat)
    requires Monologue(h, alice, network) && i < |network|
    ensures Decrypted(alice, network[i].envelope, newSecret).1.Err?
  {
    hide InStep, Decrypted;
    OwnEnvelopeFails(h, View(1, {}, []), alice, Slot(1, i), newSecret);
  }

  // --- How large a gap may be ----------------------------------------------------------------------

  ghost predicate OnlyAliceSends(actions: seq<Action>) {
    forall i :: 0 <= i < |actions| ==> actions[i].Send? && actions[i].from == Alice
  }

  /** While only Alice sends, each message is the next packet and Bob stays as he was initialised. */
  lemma {:induction false} SendsOnly(sk: Bytes, prekey: nat, sends: seq<Action>) returns (h: History)
    requires OnlyAliceSends(sends)
    ensures var sys := Run(sk, prekey, sends);
      && Monologue(h, sys.alice, sys.network) && |sys.network| == |sends|
      && (forall i :: 0 <= i < |sends| ==> sys.network[i].text == sends[i].text)
      && sys.bob == InitBob(Shared(sk), prekey, PublicOf(prekey)) && sys.received == []
  {
    if |sends| == 0 {
      MonologueStarts(sk, prekey, prekey + 1);
      h := FirstHistory(sk, prekey, prekey + 1);
    } else {
      hide Monologue, Encrypted, Run;
      var before, last := sends[..|sends| - 1], sends[|sends| - 1];
      h := SendsOnly(sk, prekey, before);
      var sys := Run(sk, prekey, before);
      RunStep(sk, prekey, before, last);
      assert before + [last] == sends;
      HistoryOfTwo(h, sys.alice, sys.network);
      MonologueSends(h, sys.alice, sys.network, last.text, last.nonce);
      h := WithSent(h, 1, Sent(last.text, last.nonce));
    }
  }

  /**
   Alice sends one message more than `k` from the start, and the last is the first to arrive: it is opened
   exactly when no more than 1000 messages are missing before it.
   */
  lemma GapServedIff(sk: Bytes, prekey: nat, sends: seq<Action>, k: nat)
    requires OnlyAliceSends(sends) && |sends| == k + 1
    ensures |Run(sk, prekey, sends).network| == k + 1
    ensures Attempt(Run(sk, prekey, sends), k).1 ==
      if k <= 1000 then Ok(sends[k].text) else Err("Too many skipped messages")
  {
    hide Monologue, Run, Decrypted;
    var h := SendsOnly(sk, prekey, sends);
    var sys := Run(sk, prekey, sends);
    MonologueHeader(h, sys.alice, sys.network, k);
    DeliveryCorrect(sk, prekey, sends, k);
  }

  lemma MonologueHeader(h: History, alice: Session, network: seq<Packet>, i: nat)
    requires Monologue(h, alice, network) && i < |network|
    ensures network[i].from == Alice
    ensures network[i].envelope.header.n == i && network[i].envelope.header.pn == 0
  {
  }

  // --- The same shared secret --------------------------------------------------------------------

  /** Bob has started from another secret, and nothing was ever accepted. */
  ghost predicate Apart(sys: System, h: History, aliceSk: Bytes, bobSk: Bytes, prekey: nat) {
    && Monologue(h, sys.alice, sys.network)
    && h[1].secret == prekey + 1
    && h[1].chain == KdfRk(Shared(aliceSk), Dh(prekey + 1, PublicOf(prekey))).1
    && sys.bob == InitBob(Shared(bobSk), prekey, PublicOf(prekey))
    && sys.received == []
  }

  lemma StepApart(sys: System, h: History, aliceSk: Bytes, bobSk: Bytes, prekey: nat, a: Action) returns (g: History)
    requires aliceSk != bobSk && Apart(sys, h, aliceSk, bobSk, prekey)
    ensures Apart(Step(sys, a), g, aliceSk, bobSk, prekey)
  {
    hide Monologue, Decrypted;
    g := h;
    if a.Send? {
      if a.from.Alice? {
        MonologueSends(h, sys.alice, sys.network, a.text, a.nonce);
        assert |h| == 2 by {
          HistoryOfTwo(h, sys.alice, sys.network);
        }
        g := WithSent(h, 1, Sent(a.text, a.nonce));
      }
    } else if a.packet < |sys.network| {
      HistoryOfTwo(h, sys.alice, sys.network);
      MonologueOpensIff(h, sys.alice, sys.network, a.packet, sys.bob, sys.nextSecret);
      MonologueRefusesOwn(h, sys.alice, sys.network, a.packet, sys.nextSecret);
    }
  }

  lemma HistoryOfTwo(h: History, alice: Session, network: seq<Packet>)
    requires Monologue(h, alice, network)
    ensures |h| == 2 && forall i :: 0 <= i < |network| ==> network[i].from == Alice
  {
  }

  lemma {:induction false} ExecApart(sys: System, h: History, aliceSk: Bytes, bobSk: Bytes, prekey: nat,
                                     actions: seq<Action>)
    requires aliceSk != bobSk && Apart(sys, h, aliceSk, bobSk, prekey)
    ensures Exec(sys, actions).received == []
    decreases |actions|
  {
    if |actions| > 0 {
      hide Step;
      var g := StepApart(sys, h, aliceSk, bobSk, prekey, actions[0]);
      ExecApart(Step(sys, actions[0]), g, aliceSk, bobSk, prekey, actions[1..]);
    }
  }

  predicate Delivers(start: System, actions: seq<Action>) {
    Exec(start, actions).received != []
  }

  /** Some run delivers a message exactly when both sides start from one secret. */
  lemma DeliversIffSameSecret(aliceSk: Bytes, bobSk: Bytes, prekey: nat)
    ensures (exists actions :: Delivers(StartFrom(aliceSk, bobSk, prekey), actions)) <==> aliceSk == bobSk
  {
    var start := StartFrom(aliceSk, bobSk, prekey);
    if aliceSk == bobSk {
      hide Exec;
      FirstMessageDelivered(aliceSk, prekey);
      assert Delivers(start, [Send(Alice, [], 0), Deliver(0)]);
    } else {
      MonologueStarts(aliceSk, prekey, prekey + 1);
      forall actions
        ensures !Delivers(start, actions)
      {
        ExecApart(start, FirstHistory(aliceSk, prekey, prekey + 1), aliceSk, bobSk, prekey, actions);
      }
    }
  }

  lemma FirstMessageDelivered(sk: Bytes, prekey: nat)
    ensures Exec(Start(sk, prekey), [Send(Alice, [], 0), Deliver(0)]).received == [Receipt(0, [])]
  {
    var start, send, deliver := Start(sk, prekey), Send(Alice, [], 0), Deliver(0);
    var sent := Step(start, send);
    ExecOne(start, send);
    ShortChainsAlwaysDeliver(sk, prekey, [send], 0);
    assert [send, deliver][1..] == [deliver];
    ExecOne(sent, deliver);
  }

  lemma ExecOne(sys: System, a: Action)
    ensures Exec(sys, [a]) == Step(sys, a)
  {
    assert Exec(Step(sys, a), []) == Step(sys, a);
  }

  // --- Who may speak when --------------------------------------------------------------------------

  /** Whether Bob has accepted anything from Alice. */
  ghost predicate Contacted(sys: System) {
    exists i :: 0 <= i < |sys.network| && sys.network[i].from == Alice && sys.Accepted(i)
  }

  /** Alice can always send; Bob is untouched until he is contacted, and can send from then on. */
  ghost predicate Turns(sys: System, sk: Bytes, prekey: nat) {
    && sys.alice.ckSend.Some?
    && (if Contacted(sys) then sys.bob.ckSend.Some?
        else sys.bob == InitBob(Shared(sk), prekey, PublicOf(prekey)))
  }

  lemma {:induction false} RunTurns(sk: Bytes, prekey: nat, actions: seq<Action>)
    ensures Turns(Run(sk, prekey, actions), sk, prekey)
  {
    if |actions| == 0 {
      assert Run(sk, prekey, actions) == Start(sk, prekey);
    } else {
      hide Turns, Run, Step;
      var before, last := actions[..|actions| - 1], actions[|actions| - 1];
      RunTurns(sk, prekey, before);
      RunStep(sk, prekey, before, last);
      assert before + [last] == actions;
      var sys := Run(sk, prekey, before);
      if last.Send? {
        ReceivedOnceUnchanged(sk, prekey, before);
        SendTurns(sys, sk, prekey, last);
      } else if last.packet < |sys.network| {
        if last.Deliver? {
          DeliverTurns(sk, prekey, before, last.packet);
        } else {
          ReflectionRefused(sk, prekey, before, last.packet);
          SameTurns(sys, Step(sys, last), sk, prekey);
        }
      } else {
        assert Step(sys, last) == sys by {
          NoSuchPacket(sys, last);
        }
      }
    }
  }

  lemma NoSuchPacket(sys: System, a: Action)
    requires !a.Send? && a.packet >= |sys.network|
    ensures Step(sys, a) == sys
  {
  }

  lemma SameTurns(sys: System, next: System, sk: Bytes, prekey: nat)
    requires Turns(sys, sk, prekey) && next == sys.(nextSecret := next.nextSecret)
    ensures Turns(next, sk, prekey)
  {
    assert forall i: nat :: next.Accepted(i) == sys.Accepted(i);
  }

  lemma SendTurns(sys: System, sk: Bytes, prekey: nat, a: Action)
    requires Turns(sys, sk, prekey) && a.Send?
    requires forall r :: r in sys.received ==> r.packet < |sys.network|
    ensures Turns(Step(sys, a), sk, prekey)
  {
    var next := Step(sys, a);
    forall i: nat
      ensures next.Accepted(i) == sys.Accepted(i)
      ensures sys.Accepted(i) ==> i < |sys.network|
    {
    }
    assert Contacted(next) <==> Contacted(sys) by {
      if i :| 0 <= i < |next.network| && next.network[i].from == Alice && next.Accepted(i) {
        assert sys.network[i] == next.network[i];
      }
      if i :| 0 <= i < |sys.network| && sys.network[i].from == Alice && sys.Accepted(i) {
        assert next.network[i] == sys.network[i] && next.Accepted(i);
      }
    }
  }

  lemma {:induction false} PushSkippedSends(s: Session, until: nat)
    requires s.ckRecv.Some?
    ensures PushSkipped(s, until).ckSend == s.ckSend
  {
    if until > s.nRecv {
      PushSkippedSends(s, until - 1);
    }
  }

  /** A first successful `decrypt` gives a session its sending chain, and no later one takes it away. */
  lemma DecryptSends(s: Session, e: Envelope, newSecret: nat)
    requires s.ckSend.Some? || (s.skipped == [] && s.dhRecv.None?)
    requires Decrypted(s, e, newSecret).1.Ok?
    ensures Decrypted(s, e, newSecret).0.ckSend.Some?
  {
    if s.ckRecv.Some? {
      PushSkippedSends(s, e.header.n);
    }
    PushSkippedSends(Ratcheted(SkippedTo(s, e.header.pn).0, e.header.dh, newSecret), e.header.n);
  }

  lemma DeliverTurns(sk: Bytes, prekey: nat, actions: seq<Action>, i: nat)
    requires Turns(Run(sk, prekey, actions), sk, prekey) && i < |Run(sk, prekey, actions).network|
    ensures Turns(Step(Run(sk, prekey, actions), Deliver(i)), sk, prekey)
  {
    hide Run, Decrypted;
    var sys := Run(sk, prekey, actions);
    var next, r := Step(sys, Deliver(i)), Attempt(sys, i).1;
    if r.Err? {
      SameTurns(sys, next, sk, prekey);
    } else {
      DecryptSends(sys.Of(sys.network[i].from.Peer()), sys.network[i].envelope, sys.nextSecret);
      assert next.network == sys.network && next.received == sys.received + [Receipt(i, r.value)];
      AcceptedNext(sys, next, i, r.value);
      assert next.Accepted(i);
    }
  }

  lemma AcceptedNext(sys: System, next: System, i: nat, text: Bytes)
    requires next.received == sys.received + [Receipt(i, text)]
    ensures forall j: nat :: next.Accepted(j) <==> sys.Accepted(j) || j == i
  {
    assert Receipt(i, text) in next.received;
    forall j: nat | sys.Accepted(j)
      ensures next.Accepted(j)
    {
      var r :| r in sys.received && r.packet == j;
      assert r in next.received;
    }
  }

  /**
   After every run, each party can send, unless it is Bob and he has not yet accepted anything; then `encrypt`
   says that there is no sending chain.
   */
  lemma SendsOnceContacted(sk: Bytes, prekey: nat, actions: seq<Action>, p: Party, text: Bytes, nonce: nat)
    ensures var sys := Run(sk, prekey, actions); var r := Encrypted(sys.Of(p), text, nonce).1;
      && (r.Err? <==> p == Bob
                      && forall i :: 0 <= i < |sys.network| && sys.network[i].from == Alice ==> !sys.Accepted(i))
      && (r.Err? ==> r.error == "No send chain key")
  {
    hide Run;
    RunTurns(sk, prekey, actions);
  }

  /** The initiator receives nothing on the responder's first key pair: no chain has been agreed there. */
  lemma PrekeyChainUnused(sk: Bytes, bobPub: Public, aliceSecret: nat, e: Envelope, newSecret: nat)
    requires e.header.dh == bobPub
    ensures Decrypted(InitAlice(Shared(sk), bobPub, aliceSecret), e, newSecret).1 ==
      Err(if e.header.n <= 1000 then "No recv chain key" else "Too many skipped messages")
  {
  }

  // --- The roles that the application gives out ----------------------------------------------------

  predicate Less(a: Id, b: Id) {
    AtMost(a, b) && a != b
  }

  /** Key pairs are numbered as they are made: first the static ones of the two peers. */
  const LOW_STATIC: nat := 0
  const HIGH_STATIC: nat := 1

  /**
   Two peers, Alice the one with the smaller id; their stored sessions; and the rule that says, from its own
   id and the sender's, whether a receiver without a session starts as the initiator.
   */
  datatype Pair = Pair(low: Id, high: Id, sk: Bytes, receiverInitiates: (Id, Id) -> bool) {
    function IdOf(p: Party): Id {
      if p.Alice? then low else high
    }

    function Static(p: Party): nat {
      if p.Alice? then LOW_STATIC else HIGH_STATIC
    }
  }

  datatype App = App(alice: Option<Session>, bob: Option<Session>, network: seq<Packet>,
                     received: seq<Receipt>, nextSecret: nat)
  {
    function Of(p: Party): Option<Session> {
      if p.Alice? then alice else bob
    }

    function Save(p: Party, s: Session): App {
      if p.Alice? then this.(alice := Some(s)) else this.(bob := Some(s))
    }
  }

  /** The stored session, or one started from the static keys, with the number of the next key pair. */
  function LoadOrInit(pair: Pair, app: App, p: Party, isInitiator: bool): (Session, nat) {
    if app.Of(p).Some? then (app.Of(p).value, app.nextSecret)
    else if isInitiator then
      (InitAlice(Shared(pair.sk), PublicOf(pair.Static(p.Peer())), app.nextSecret), app.nextSecret + 1)
    else
      (InitBob(Shared(pair.sk), pair.Static(p), PublicOf(pair.Static(p))), app.nextSecret)
  }

  /** Writing to the peer: the side with the smaller id initiates. */
  function SendDm(pair: Pair, app: App, p: Party, text: Bytes, nonce: nat): App {
    var (s, next) := LoadOrInit(pair, app, p, Less(pair.IdOf(p), pair.IdOf(p.Peer())));
    var (s', r) := Encrypted(s, text, nonce);
    var drawn := app.(nextSecret := next);
    if r.Err? then drawn
    else drawn.Save(p, s').(network := app.network + [Packet(p, r.value, text, s.dhRecv)])
  }

  /** Being brought an envelope as coming from the peer. */
  function ReceiveDm(pair: Pair, app: App, i: nat, p: Party): App
    requires i < |app.network|
  {
    var (s, next) := LoadOrInit(pair, app, p, pair.receiverInitiates(pair.IdOf(p), pair.IdOf(p.Peer())));
    var (s', r) := Decrypted(s, app.network[i].envelope, next);
    var drawn := app.(nextSecret := next + 1);
    if r.Err? then drawn
    else drawn.Save(p, s').(received := app.received + [Receipt(i, r.value)])
  }

  function AppStep(pair: Pair, app: App, a: Action): App {
    match a
    case Send(p, text, nonce) => SendDm(pair, app, p, text, nonce)
    case Deliver(i) => if i < |app.network| then ReceiveDm(pair, app, i, app.network[i].from.Peer()) else app
    case Reflect(i) => if i < |app.network| then ReceiveDm(pair, app, i, app.network[i].from) else app
  }

  function AppExec(pair: Pair, app: App, actions: seq<Action>): App
    decreases |actions|
  {
    if |actions| == 0 then app else AppExec(pair, AppStep(pair, app, actions[0]), actions[1..])
  }

  function Fresh(): App {
    App(None, None, [], [], HIGH_STATIC + 1)
  }

  function AppRun(pair: Pair, actions: seq<Action>): App {
    AppExec(pair, Fresh(), actions)
  }

  // With a responder on the receiving side, the application runs the two-party system.

  /** The application's stored sessions are those of the system, as far as they have been started. */
  ghost predicate Simulates(pair: Pair, app: App, sys: System) {
    && app.network == sys.network && app.received == sys.received
    && (if app.bob.Some? then app.bob.value == sys.bob
        else sys.bob == InitBob(Shared(pair.sk), HIGH_STATIC, PublicOf(HIGH_STATIC)))
    && (if app.alice.Some? then app.alice.value == sys.alice && app.nextSecret == sys.nextSecret
        else app == Fresh() && sys == Start(pair.sk, HIGH_STATIC))
  }

  lemma SendSimulates(pair: Pair, app: App, sys: System, p: Party, text: Bytes, nonce: nat)
    requires Less(pair.low, pair.high) && Simulates(pair, app, sys)
    ensures Simulates(pair, SendDm(pair, app, p, text, nonce), Step(sys, Send(p, text, nonce)))
  {
    AtMostTotalOrder(pair.low, pair.high);
  }

  lemma ReceiveSimulates(pair: Pair, app: App, sys: System, i: nat, p: Party)
    requires Less(pair.low, pair.high) && !pair.receiverInitiates(pair.high, pair.low)
    requires Simulates(pair, app, sys) && i < |app.network|
    ensures Simulates(pair, ReceiveDm(pair, app, i, p), Brought(sys, i, p))
  {
    hide Decrypted, InitAlice, InitBob;
    assert app.alice.Some? by {
      assert Fresh().network == [];
    }
  }

  lemma StepSimulates(pair: Pair, app: App, sys: System, a: Action)
    requires Less(pair.low, pair.high) && !pair.receiverInitiates(pair.high, pair.low)
    requires Simulates(pair, app, sys)
    ensures Simulates(pair, AppStep(pair, app, a), Step(sys, a))
  {
    if a.Send? {
      SendSimulates(pair, app, sys, a.from, a.text, a.nonce);
    } else {
      hide Simulates, ReceiveDm, Brought;
      assert app.network == sys.network by {
        SameNetwork(pair, app, sys);
      }
      if a.packet < |app.network| {
        var from := app.network[a.packet].from;
        ReceiveSimulates(pair, app, sys, a.packet, if a.Deliver? then from.Peer() else from);
      }
    }
  }

  lemma SameNetwork(pair: Pair, app: App, sys: System)
    requires Simulates(pair, app, sys)
    ensures app.network == sys.network
  {
  }

  lemma {:induction false} ExecSimulates(pair: Pair, app: App, sys: System, actions: seq<Action>)
    requires Less(pair.low, pair.high) && !pair.receiverInitiates(pair.high, pair.low)
    requires Simulates(pair, app, sys)
    ensures Simulates(pair, AppExec(pair, app, actions), Exec(sys, actions))
    decreases |actions|
  {
    if |actions| > 0 {
      hide Simulates, AppStep, Step;
      StepSimulates(pair, app, sys, actions[0]);
      ExecSimulates(pair, AppStep(pair, app, actions[0]), Step(sys, actions[0]), actions[1..]);
    }
  }

  /** Given a responder on the receiving side, every run of the application is a run of the two-party system. */
  lemma ResponderRunsSystem(pair: Pair, actions: seq<Action>)
    requires AtMost(pair.low, pair.high) && pair.low != pair.high
    requires !pair.receiverInitiates(pair.high, pair.low)
    ensures var (app, sys) := (AppRun(pair, actions), Run(pair.sk, HIGH_STATIC, actions));
      && app.network == sys.network && app.received == sys.received
      && (app.alice.Some? ==> app.alice == Some(sys.alice))
      && (app.bob.Some? ==> app.bob == Some(sys.bob))
  {
    ExecSimulates(pair, Fresh(), Start(pair.sk, HIGH_STATIC), actions);
  }

  // With an initiator on the receiving side, nothing ever arrives.

  /** Bob has no session yet, and all that was sent is Alice's. */
  ghost predicate Stuck(pair: Pair, app: App, h: History) {
    && app.bob.None? && app.received == []
    && app.nextSecret > HIGH_STATIC
    && |h| == 2 && h[1].secret > HIGH_STATIC && h[1].chain.Hkdf? && h[1].chain.salt == Shared(pair.sk)
    && (if app.alice.Some? then Monologue(h, app.alice.value, app.network) else app.network == [])
  }

  lemma StepStuck(pair: Pair, app: App, h: History, a: Action) returns (g: History)
    requires Less(pair.low, pair.high) && pair.receiverInitiates(pair.high, pair.low)
    requires Stuck(pair, app, h)
    ensures Stuck(pair, AppStep(pair, app, a), g)
  {
    hide Monologue, Decrypted;
    AtMostTotalOrder(pair.low, pair.high);
    g := h;
    if a.Send? {
      if a.from.Alice? {
        g := if app.alice.Some? then h else FirstHistory(pair.sk, HIGH_STATIC, app.nextSecret);
        MonologueStarts(pair.sk, HIGH_STATIC, app.nextSecret);
        MonologueSends(g, LoadOrInit(pair, app, Alice, true).0, app.network, a.text, a.nonce);
        g := WithSent(g, 1, Sent(a.text, a.nonce));
      }
    } else if a.packet < |app.network| {
      var alice, s := app.alice.value, LoadOrInit(pair, app, Bob, true).0;
      HistoryOfTwo(h, alice, app.network);
      MonologueOpensIff(h, alice, app.network, a.packet, s, app.nextSecret + 1);
      MonologueRefusesOwn(h, alice, app.network, a.packet, app.nextSecret);
    }
  }

  lemma {:induction false} ExecStuck(pair: Pair, app: App, h: History, actions: seq<Action>)
    requires Less(pair.low, pair.high) && pair.receiverInitiates(pair.high, pair.low)
    requires Stuck(pair, app, h)
    ensures AppExec(pair, app, actions).received == []
    decreases |actions|
  {
    if |actions| > 0 {
      hide AppStep;
      var g := StepStuck(pair, app, h, actions[0]);
      ExecStuck(pair, AppStep(pair, app, actions[0]), g, actions[1..]);
    }
  }

  predicate AppDelivers(pair: Pair, actions: seq<Action>) {
    AppRun(pair, actions).received != []
  }

  /**
   Some run of the application delivers a message exactly when the peer with the greater id, on its first
   envelope from the other, starts as the responder.
   */
  lemma DeliversIffReceiverResponds(pair: Pair)
    requires AtMost(pair.low, pair.high) && pair.low != pair.high
    ensures (exists actions :: AppDelivers(pair, actions)) <==> !pair.receiverInitiates(pair.high, pair.low)
  {
    if pair.receiverInitiates(pair.high, pair.low) {
      forall actions
        ensures !AppDelivers(pair, actions)
      {
        assert Stuck(pair, Fresh(), FirstHistory(pair.sk, HIGH_STATIC, HIGH_STATIC + 1));
        ExecStuck(pair, Fresh(), FirstHistory(pair.sk, HIGH_STATIC, HIGH_STATIC + 1), actions);
      }
    } else {
      hide Exec, AppExec;
      ResponderRunsSystem(pair, [Send(Alice, [], 0), Deliver(0)]);
      FirstMessageDelivered(pair.sk, HIGH_STATIC);
      assert AppDelivers(pair, [Send(Alice, [], 0), Deliver(0)]);
    }
  }

  /** The rule of the code: the receiver initiates when the sender's id is the smaller one. */
  function RolesAsWritten(): (Id, Id) -> bool {
    (me: Id, sender: Id) => Less(sender, me)
  }

  /** With the roles as written, no run between two peers ever delivers a message. */
  lemma NoMessageDelivered(low: Id, high: Id, sk: Bytes, actions: seq<Action>)
    requires AtMost(low, high) && low != high
    ensures AppRun(Pair(low, high, sk, RolesAsWritten()), actions).received == []
  {
    hide AppRun;
    var pair := Pair(low, high, sk, RolesAsWritten());
    DeliversIffReceiverResponds(pair);
    assert !AppDelivers(pair, actions);
  }
}
