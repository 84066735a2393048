/**
 The symmetric ratchet for direct messages: two crossed chains per peer pair, a catch-up loop on
 receipt, and sessions saved only after a successful decryption.
 */
module SymmetricRatchet {
  import opened Common

  datatype Label = RootLabel | LowToHigh | HighToLow | NextLabel | CounterLabel(counter: nat)

  /** SHA-256 of a 32-byte key and a label, as a free term. */
  datatype Key = Shared(secret: Bytes) | Derived(input: Key, tag: Label)

  datatype Envelope = Envelope(counter: nat, nonce: nat, ciphertext: Ciphertext<Key>)

  datatype Ratchet = Ratchet(rootKey: Key, sendChain: Key, recvChain: Key, sendCount: nat, recvCount: nat)

  function ForPeerPair(secret: Bytes, localId: Id, remoteId: Id): Ratchet {
    var lowToHigh := Derived(Shared(secret), LowToHigh);
    var highToLow := Derived(Shared(secret), HighToLow);
    var (send, recv) := if AtMost(localId, remoteId) then (lowToHigh, highToLow) else (highToLow, lowToHigh);
    Ratchet(Derived(Shared(secret), RootLabel), send, recv, 0, 0)
  }

  function Advance(chain: Key, n: nat): Key {
    if n == 0 then chain else Derived(Advance(chain, n - 1), NextLabel)
  }

  /** The key of message `n` of a chain. */
  function MessageKey(chain: Key, n: nat): Key {
    Derived(Advance(chain, n), CounterLabel(n))
  }

  function Encrypted(r: Ratchet, text: Bytes, nonce: nat): (Ratchet, Envelope) {
    var key := Derived(r.sendChain, CounterLabel(r.sendCount));
    (r.(sendChain := Derived(r.sendChain, NextLabel), sendCount := r.sendCount + 1),
     Envelope(r.sendCount, nonce, Sealed(key, nonce, text)))
  }

  /** The receive chain moved up to `counter`; unchanged when it is already past. */
  function CaughtUp(r: Ratchet, counter: nat): Ratchet {
    if counter <= r.recvCount then r
    else r.(recvChain := Advance(r.recvChain, counter - r.recvCount), recvCount := counter)
  }

  function Decrypted(r: Ratchet, e: Envelope): (Ratchet, Result<Bytes>) {
    var c := CaughtUp(r, e.counter);
    var opening := Open(Derived(c.recvChain, CounterLabel(e.counter)), e.nonce, e.ciphertext);
    if opening.Err? then (c, Err("Ratchet decryption failed"))
    else (c.(recvChain := Derived(c.recvChain, NextLabel), recvCount := e.counter + 1), opening)
  }

  class RatchetState {
    var rootKey: Key
    var sendChain: Key
    var recvChain: Key
    var sendCount: nat
    var recvCount: nat

    function View(): Ratchet
      reads this
    {
      Ratchet(rootKey, sendChain, recvChain, sendCount, recvCount)
    }

    constructor (r: Ratchet)
      ensures View() == r
    {
      rootKey, sendChain, recvChain := r.rootKey, r.sendChain, r.recvChain;
      sendCount, recvCount := r.sendCount, r.recvCount;
    }

    method Encrypt(text: Bytes, nonce: nat) returns (e: Envelope)
      modifies this
      ensures (View(), e) == Encrypted(old(View()), text, nonce)
    {
      var messageKey := Derived(sendChain, CounterLabel(sendCount));
      e := Envelope(sendCount, nonce, Sealed(messageKey, nonce, text));
      sendChain := Derived(sendChain, NextLabel);
      sendCount := sendCount + 1;
    }

    method Decrypt(e: Envelope) returns (r: Result<Bytes>)
      modifies this
      ensures (View(), r) == Decrypted(old(View()), e)
    {
      while recvCount < e.counter
        invariant old(recvCount) <= recvCount
        invariant recvCount <= e.counter || recvCount == old(recvCount)
        invariant View() == old(View()).(
                    recvChain := Advance(old(recvChain), recvCount - old(recvCount)), recvCount := recvCount)
      {
        recvChain := Derived(recvChain, NextLabel);
        recvCount := recvCount + 1;
      }
      r := Open(Derived(recvChain, CounterLabel(e.counter)), e.nonce, e.ciphertext);
      if r.Err? {
        return Err("Ratchet decryption failed");
      }
      recvChain := Derived(recvChain, NextLabel);
      recvCount := e.counter + 1;
    }
  }

  // --- Crossed chains --------------------------------------------------------------------------

  predicate Crossed(a: Ratchet, b: Ratchet) {
    a.sendChain == b.recvChain && b.sendChain == a.recvChain
  }

  /** Two peers get crossed chains exactly when their ids differ. */
  lemma PairCrossedIffDistinct(secret: Bytes, a: Id, b: Id)
    ensures Crossed(ForPeerPair(secret, a, b), ForPeerPair(secret, b, a)) <==> a != b
  {
    AtMostTotalOrder(a, b);
  }

  /** The peer with the smaller id sends on the chain from low to high, the other on the chain from high to low. */
  lemma ChainsByOrder(secret: Bytes, low: Id, high: Id)
    requires AtMost(low, high) && low != high
    ensures ForPeerPair(secret, low, high) == Ratchet(
      Derived(Shared(secret), RootLabel), Derived(Shared(secret), LowToHigh), Derived(Shared(secret), HighToLow), 0, 0)
    ensures ForPeerPair(secret, high, low) == Ratchet(
      Derived(Shared(secret), RootLabel), Derived(Shared(secret), HighToLow), Derived(Shared(secret), LowToHigh), 0, 0)
  {
    AtMostTotalOrder(low, high);
  }

  // --- Two peers and a network -----------------------------------------------------------------

  datatype Peer = Local | Remote {
    function Other(): Peer {
      if Local? then Remote else Local
    }
  }

  datatype Packet = Packet(from: Peer, envelope: Envelope, text: Bytes)

  datatype Receipt = Receipt(reader: Peer, counter: nat, text: Bytes)

  datatype System = System(local: Ratchet, remote: Ratchet, network: seq<Packet>, received: seq<Receipt>) {
    function Of(p: Peer): Ratchet {
      if p.Local? then local else remote
    }

    function Update(p: Peer, r: Ratchet): System {
      if p.Local? then this.(local := r) else this.(remote := r)
    }
  }

  datatype Action = Send(from: Peer, text: Bytes, nonce: nat) | Deliver(packet: nat)

  function Start(secret: Bytes, a: Id, b: Id): System {
    System(ForPeerPair(secret, a, b), ForPeerPair(secret, b, a), [], [])
  }

  function Attempt(sys: System, i: nat): (Ratchet, Result<Bytes>)
    requires i < |sys.network|
  {
    Decrypted(sys.Of(sys.network[i].from.Other()), sys.network[i].envelope)
  }

  /** A failed delivery discards the loaded state, so only a success changes anything. */
  function Step(sys: System, a: Action): System {
    match a
    case Send(p, text, nonce) =>
      var (r, e) := Encrypted(sys.Of(p), text, nonce);
      sys.Update(p, r).(network := sys.network + [Packet(p, e, text)])
    case Deliver(i) =>
      if i >= |sys.network| || Attempt(sys, i).1.Err? then sys
      else
        var reader := sys.network[i].from.Other();
        var (r, text) := Attempt(sys, i);
        sys.Update(reader, r).(received := sys.received +
          [Receipt(reader, sys.network[i].envelope.counter, text.value)])
  }

  function Run(secret: Bytes, a: Id, b: Id, actions: seq<Action>): System {
    if |actions| == 0 then Start(secret, a, b)
    else Step(Run(secret, a, b, actions[..|actions| - 1]), actions[|actions| - 1])
  }

  /** Both ends of the chain that `from` sends on are on the chain that starts at `chain`. */
  ghost predicate ChainInv(sys: System, from: Peer, chain: Key) {
    var (s, r) := (sys.Of(from), sys.Of(from.Other()));
    && s.sendChain == Advance(chain, s.sendCount)
    && r.recvChain == Advance(chain, r.recvCount)
    && r.recvCount <= s.sendCount
    && (forall i :: 0 <= i < |sys.network| && sys.network[i].from == from ==>
          var e := sys.network[i].envelope;
          && e.counter < s.sendCount
          && e.ciphertext == Sealed(MessageKey(chain, e.counter), e.nonce, sys.network[i].text))
  }

  /** Receipts by one peer carry increasing counters, all below its receive counter. */
  ghost predicate ReceiptsInv(sys: System) {
    && (forall j :: 0 <= j < |sys.received| ==> sys.received[j].counter < sys.Of(sys.received[j].reader).recvCount)
    && (forall i, j :: 0 <= i < j < |sys.received| && sys.received[i].reader == sys.received[j].reader ==>
          sys.received[i].counter < sys.received[j].counter)
    && (forall j :: 0 <= j < |sys.received| ==> WasSent(sys.network, sys.received[j]))
  }

  /** Some packet of the network carries what the receipt records. */
  ghost predicate WasSent(network: seq<Packet>, receipt: Receipt) {
    exists packet :: packet in network && Delivers(packet, receipt)
  }

  ghost predicate Delivers(packet: Packet, receipt: Receipt) {
    && packet.from == receipt.reader.Other()
    && packet.envelope.counter == receipt.counter
    && packet.text == receipt.text
  }

  ghost function Depth(key: Key): nat {
    match key
    case Shared(_) => 0
    case Derived(input, _) => 1 + Depth(input)
  }

  lemma {:induction false} AdvanceFrom(chain: Key, m: nat, n: nat)
    ensures Advance(Advance(chain, m), n) == Advance(chain, m + n)
    ensures Depth(Advance(chain, n)) == Depth(chain) + n
  {
    if n > 0 {
      AdvanceFrom(chain, m, n - 1);
    }
  }

  lemma AttemptOutcome(sys: System, i: nat, chain: Key)
    requires i < |sys.network| && ChainInv(sys, sys.network[i].from, chain)
    ensures var (packet, r) := (sys.network[i], Attempt(sys, i));
      && (r.1.Ok? <==> packet.envelope.counter >= sys.Of(packet.from.Other()).recvCount)
      && (r.1.Ok? ==> r.1.value == packet.text)
      && (r.1.Ok? ==> r.0.recvCount == packet.envelope.counter + 1
                      && r.0.recvChain == Advance(chain, packet.envelope.counter + 1))
      && r.0.sendChain == sys.Of(packet.from.Other()).sendChain
      && r.0.sendCount == sys.Of(packet.from.Other()).sendCount
  {
    var e, r := sys.network[i].envelope, sys.Of(sys.network[i].from.Other());
    if r.recvCount <= e.counter {
      AdvanceFrom(chain, r.recvCount, e.counter - r.recvCount);
    } else {
      AdvanceFrom(chain, 0, r.recvCount);
      AdvanceFrom(chain, 0, e.counter);
    }
  }

  ghost predicate Inv(sys: System, up: Key, down: Key) {
    ChainInv(sys, Local, up) && ChainInv(sys, Remote, down) && ReceiptsInv(sys)
  }

  lemma SendInv(sys: System, a: Action, up: Key, down: Key)
    requires Inv(sys, up, down) && a.Send?
    ensures Inv(Step(sys, a), up, down)
  {
    SendKeepsChain(sys, a, Local, up);
    SendKeepsChain(sys, a, Remote, down);
    SendKeepsReceipts(sys, a);
  }

  lemma SendKeepsChain(sys: System, a: Action, from: Peer, chain: Key)
    requires ChainInv(sys, from, chain) && a.Send?
    ensures ChainInv(Step(sys, a), from, chain)
  {
  }

  lemma SendKeepsReceipts(sys: System, a: Action)
    requires ReceiptsInv(sys) && a.Send?
    ensures ReceiptsInv(Step(sys, a))
  {
    var next := Step(sys, a);
    forall j | 0 <= j < |next.received|
      ensures WasSent(next.network, next.received[j])
    {
      assert WasSent(sys.network, sys.received[j]);
      var packet :| packet in sys.network && Delivers(packet, sys.received[j]);
      assert packet in next.network;
    }
  }

  lemma DeliverInv(sys: System, i: nat, up: Key, down: Key)
    requires Inv(sys, up, down)
    ensures Inv(Step(sys, Deliver(i)), up, down)
  {
    if i < |sys.network| && Attempt(sys, i).1.Ok? {
      hide ReceiptsInv;
      DeliverKeepsReceipts(sys, i, if sys.network[i].from.Local? then up else down);
      DeliverKeepsChain(sys, i, Local, up);
      DeliverKeepsChain(sys, i, Remote, down);
    }
  }

  lemma DeliverKeepsChain(sys: System, i: nat, from: Peer, chain: Key)
    requires i < |sys.network| && Attempt(sys, i).1.Ok? && ChainInv(sys, from, chain)
    ensures ChainInv(Step(sys, Deliver(i)), from, chain)
  {
    if sys.network[i].from == from {
      AttemptOutcome(sys, i, chain);
    } else {
      hide CaughtUp;
      SenderUntouched(sys.Of(from), sys.network[i].envelope);
    }
  }

  lemma SenderUntouched(r: Ratchet, e: Envelope)
    ensures Decrypted(r, e).0.sendChain == r.sendChain && Decrypted(r, e).0.sendCount == r.sendCount
  {
  }

  lemma DeliverKeepsReceipts(sys: System, i: nat, chain: Key)
    requires i < |sys.network| && Attempt(sys, i).1.Ok?
    requires ChainInv(sys, sys.network[i].from, chain) && ReceiptsInv(sys)
    ensures ReceiptsInv(Step(sys, Deliver(i)))
  {
    var next := Step(sys, Deliver(i));
    AttemptOutcome(sys, i, chain);
    hide ChainInv, Decrypted;
    assert sys.network[i] in next.network && Delivers(sys.network[i], next.received[|sys.received|]);
  }

  lemma {:induction false} RunInv(secret: Bytes, a: Id, b: Id, actions: seq<Action>)
    requires a != b
    ensures var start := ForPeerPair(secret, a, b);
      Inv(Run(secret, a, b, actions), start.sendChain, start.recvChain)
  {
    hide Inv;
    var start := ForPeerPair(secret, a, b);
    if |actions| == 0 {
      StartInv(secret, a, b);
    } else {
      var before, last := actions[..|actions| - 1], actions[|actions| - 1];
      RunInv(secret, a, b, before);
      var sys := Run(secret, a, b, before);
      if last.Send? {
        SendInv(sys, last, start.sendChain, start.recvChain);
      } else {
        DeliverInv(sys, last.packet, start.sendChain, start.recvChain);
      }
    }
  }

  lemma StartInv(secret: Bytes, a: Id, b: Id)
    requires a != b
    ensures var start := ForPeerPair(secret, a, b);
      Inv(Start(secret, a, b), start.sendChain, start.recvChain)
  {
    PairCrossedIffDistinct(secret, a, b);
  }

  /**
   After any run between peers with different ids, a packet is accepted exactly when its counter has
   not been passed by its receiver, and it then yields the text that was sent; a refusal changes nothing.
   */
  lemma AcceptedIffNotPassed(secret: Bytes, a: Id, b: Id, actions: seq<Action>, i: nat)
    requires a != b && i < |Run(secret, a, b, actions).network|
    ensures var sys := Run(secret, a, b, actions); var (packet, r) := (sys.network[i], Attempt(sys, i).1);
      && (r.Ok? <==> packet.envelope.counter >= sys.Of(packet.from.Other()).recvCount)
      && (r.Ok? ==> r.value == packet.text)
      && (r.Err? ==> r.error == "Ratchet decryption failed" && Step(sys, Deliver(i)) == sys)
  {
    RunInv(secret, a, b, actions);
    var sys, start := Run(secret, a, b, actions), ForPeerPair(secret, a, b);
    AttemptOutcome(sys, i, if sys.network[i].from.Local? then start.sendChain else start.recvChain);
  }

  /** How many packets a peer has sent. */
  function SentBy(network: seq<Packet>, p: Peer): nat {
    if |network| == 0 then 0
    else SentBy(network[..|network| - 1], p) + if network[|network| - 1].from == p then 1 else 0
  }

  /** Each packet of a peer is numbered by how many it had sent before. */
  ghost predicate Numbered(sys: System) {
    && (forall p: Peer :: sys.Of(p).sendCount == SentBy(sys.network, p))
    && (forall i :: 0 <= i < |sys.network| ==>
          sys.network[i].envelope.counter == SentBy(sys.network[..i], sys.network[i].from))
  }

  lemma SendNumbered(sys: System, a: Action)
    requires Numbered(sys) && a.Send?
    ensures Numbered(Step(sys, a))
  {
    var next := Step(sys, a);
    assert next.network[..|sys.network|] == sys.network;
    forall i | 0 <= i < |next.network|
      ensures next.network[i].envelope.counter == SentBy(next.network[..i], next.network[i].from)
    {
      if i < |sys.network| {
        assert next.network[..i] == sys.network[..i];
      }
    }
  }

  lemma DeliverNumbered(sys: System, i: nat)
    requires Numbered(sys)
    ensures Numbered(Step(sys, Deliver(i)))
  {
    hide SentBy, Decrypted;
    if i < |sys.network| {
      SenderUntouched(sys.Of(sys.network[i].from.Other()), sys.network[i].envelope);
    }
  }

  lemma {:induction false} RunNumbered(secret: Bytes, a: Id, b: Id, actions: seq<Action>)
    ensures Numbered(Run(secret, a, b, actions))
  {
    if |actions| > 0 {
      hide Numbered, Step;
      RunNumbered(secret, a, b, actions[..|actions| - 1]);
      var sys, last := Run(secret, a, b, actions[..|actions| - 1]), actions[|actions| - 1];
      if last.Send? {
        SendNumbered(sys, last);
      } else {
        DeliverNumbered(sys, last.packet);
      }
    }
  }

  /**
   In every run, packet after packet of a peer carries counters 0, 1, 2 and so on, each sealed under the key
   that its chain has at that counter.
   */
  lemma PacketKeys(secret: Bytes, low: Id, high: Id, actions: seq<Action>, i: nat)
    requires AtMost(low, high) && low != high && i < |Run(secret, low, high, actions).network|
    ensures var network := Run(secret, low, high, actions).network; var e := network[i].envelope;
      var chain := Derived(Shared(secret), if network[i].from.Local? then LowToHigh else HighToLow);
      && e.counter == SentBy(network[..i], network[i].from)
      && e.ciphertext == Sealed(MessageKey(chain, e.counter), e.nonce, network[i].text)
      && MessageKey(chain, e.counter) == Derived(Advance(chain, e.counter), CounterLabel(e.counter))
      && Advance(chain, 0) == chain
      && Advance(chain, e.counter + 1) == Derived(Advance(chain, e.counter), NextLabel)
  {
    hide Run, SentBy, ForPeerPair;
    RunInv(secret, low, high, actions);
    RunNumbered(secret, low, high, actions);
    ChainsByOrder(secret, low, high);
  }

  /**
   Counters and nonces are not covered by the encryption. Still, after any run, a packet brought to either peer
   under any counter and nonce opens exactly at its receiver, with its own counter and nonce, while that counter
   has not been passed.
   */
  lemma RewrittenOpensIff(secret: Bytes, a: Id, b: Id, actions: seq<Action>, i: nat, p: Peer, counter: nat, nonce: nat)
    requires a != b && i < |Run(secret, a, b, actions).network|
    ensures var sys := Run(secret, a, b, actions); var packet := sys.network[i];
      Decrypted(sys.Of(p), Envelope(counter, nonce, packet.envelope.ciphertext)).1.Ok? <==>
        && p == packet.from.Other() && counter == packet.envelope.counter && nonce == packet.envelope.nonce
        && counter >= sys.Of(p).recvCount
  {
    hide Run;
    RunInv(secret, a, b, actions);
    var sys, start := Run(secret, a, b, actions), ForPeerPair(secret, a, b);
    var packet, r := sys.network[i], sys.Of(p);
    var mine := if p.Local? then start.recvChain else start.sendChain;
    var chain := if packet.from.Local? then start.sendChain else start.recvChain;
    var n := if counter <= r.recvCount then r.recvCount else counter;
    AdvanceFrom(mine, r.recvCount, n - r.recvCount);
    KeysMeet(mine, n, counter, chain, packet.envelope.counter);
  }

  lemma KeysMeet(c: Key, n: nat, counter: nat, d: Key, m: nat)
    requires ChainStart(c) && ChainStart(d)
    ensures Derived(Advance(c, n), CounterLabel(counter)) == MessageKey(d, m) <==> c == d && n == m == counter
  {
    if Advance(c, n) == Advance(d, m) {
      AdvanceInjective(c, n, d, m);
    }
  }

  /** In every run, each peer receives texts that its peer sent, with strictly increasing counters. */
  lemma ReceivedInOrder(secret: Bytes, a: Id, b: Id, actions: seq<Action>)
    requires a != b
    ensures var sys := Run(secret, a, b, actions);
      && (forall i, j :: 0 <= i < j < |sys.received| && sys.received[i].reader == sys.received[j].reader ==>
            sys.received[i].counter < sys.received[j].counter)
      && (forall j :: 0 <= j < |sys.received| ==> WasSent(sys.network, sys.received[j]))
  {
    RunInv(secret, a, b, actions);
  }

  // --- What a stolen session exposes -------------------------------------------------------------

  /** The keys of a stored session. */
  function Leak(r: Ratchet): set<Key> {
    {r.rootKey, r.sendChain, r.recvChain}
  }

  /** What hashing with the public labels reaches. */
  predicate Derivable(known: set<Key>, key: Key) {
    key in known || (key.Derived? && Derivable(known, key.input))
  }

  /** The first key of a chain of this shared secret. */
  predicate ChainStart(key: Key) {
    key.Derived? && key.input.Shared? && (key.tag == LowToHigh || key.tag == HighToLow)
  }

  lemma {:induction false} AdvanceInjective(c: Key, m: nat, d: Key, n: nat)
    requires ChainStart(c) && ChainStart(d) && Advance(c, m) == Advance(d, n)
    ensures c == d && m == n
  {
    if m > 0 && n > 0 {
      AdvanceInjective(c, m - 1, d, n - 1);
    }
  }

  /** A session that stands at `s` on one chain and at `r` on the other reaches them from there on. */
  lemma {:induction false} ChainExposure(root: Key, up: Key, s: nat, down: Key, r: nat, chain: Key, n: nat)
    requires root.Derived? && root.tag == RootLabel
    requires ChainStart(up) && ChainStart(down) && ChainStart(chain) && up != down
    ensures Derivable({root, Advance(up, s), Advance(down, r)}, Advance(chain, n)) <==>
      (chain == up && n >= s) || (chain == down && n >= r)
  {
    var known := {root, Advance(up, s), Advance(down, r)};
    if Advance(chain, n) == Advance(up, s) {
      AdvanceInjective(chain, n, up, s);
    }
    if Advance(chain, n) == Advance(down, r) {
      AdvanceInjective(chain, n, down, r);
    }
    if n > 0 {
      ChainExposure(root, up, s, down, r, chain, n - 1);
      assert Advance(chain, n).input == Advance(chain, n - 1);
    } else {
      NotAdvanced(up, s);
      NotAdvanced(down, r);
      assert !Derivable(known, chain.input);
    }
  }

  lemma NotAdvanced(chain: Key, n: nat)
    requires ChainStart(chain)
    ensures Advance(chain, n).Derived?
  {
  }

  lemma MessageExposure(root: Key, up: Key, s: nat, down: Key, r: nat, chain: Key, n: nat)
    requires root.Derived? && root.tag == RootLabel
    requires ChainStart(up) && ChainStart(down) && ChainStart(chain) && up != down
    ensures Derivable({root, Advance(up, s), Advance(down, r)}, MessageKey(chain, n)) <==>
      (chain == up && n >= s) || (chain == down && n >= r)
  {
    ChainExposure(root, up, s, down, r, chain, n);
    AdvanceTag(up, s);
    AdvanceTag(down, r);
    var key := MessageKey(chain, n);
    assert key.tag == CounterLabel(n) && key.input == Advance(chain, n);
  }

  lemma AdvanceTag(chain: Key, n: nat)
    requires ChainStart(chain)
    ensures Advance(chain, n).Derived? && !Advance(chain, n).tag.CounterLabel?
  {
  }

  lemma RootUntouched(sys: System, a: Action, p: Peer)
    ensures Step(sys, a).Of(p).rootKey == sys.Of(p).rootKey
  {
  }

  lemma {:induction false} RunRoot(secret: Bytes, a: Id, b: Id, actions: seq<Action>, p: Peer)
    ensures Run(secret, a, b, actions).Of(p).rootKey == Derived(Shared(secret), RootLabel)
  {
    hide Step;
    if |actions| > 0 {
      var before := actions[..|actions| - 1];
      RunRoot(secret, a, b, before, p);
      RootUntouched(Run(secret, a, b, before), actions[|actions| - 1], p);
    }
  }

  /**
   A session of `p` leaks after the actions `before`, and the run goes on with `after`. The leak exposes a
   packet exactly when its counter is at or past where `p` stood on the packet's chain: nothing earlier, and
   everything later, however the run goes on.
   */
  lemma LeakExposesAllLater(secret: Bytes, a: Id, b: Id, before: seq<Action>, after: seq<Action>, p: Peer, i: nat)
    requires a != b && i < |Run(secret, a, b, before + after).network|
    ensures var r := Run(secret, a, b, before).Of(p);
      var packet := Run(secret, a, b, before + after).network[i];
      Derivable(Leak(r), packet.envelope.ciphertext.key) <==>
        packet.envelope.counter >= if packet.from == p then r.sendCount else r.recvCount
  {
    hide Derivable, Run, MessageKey;
    RunInv(secret, a, b, before);
    RunInv(secret, a, b, before + after);
    RunRoot(secret, a, b, before, p);
    var start, r := ForPeerPair(secret, a, b), Run(secret, a, b, before).Of(p);
    var packet := Run(secret, a, b, before + after).network[i];
    var (up, down) := if p.Local? then (start.sendChain, start.recvChain) else (start.recvChain, start.sendChain);
    assert Leak(r) == {r.rootKey, Advance(up, r.sendCount), Advance(down, r.recvCount)};
    MessageExposure(r.rootKey, up, r.sendCount, down, r.recvCount,
                    if packet.from == p then up else down, packet.envelope.counter);
  }
}
