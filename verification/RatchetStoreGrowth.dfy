/**
 MAX_SKIP bounds how many keys one `decrypt` stores, not how many a session holds: an honest run
 in which every other message is lost grows the skipped store past every bound. What a session holds
 is, in every run, one key for each packet that is late or lost.
 */
module RatchetStoreGrowth {
  import opened Common
  import opened Symbolic
  import opened DoubleRatchet
  import opened RatchetHistory
  import opened RatchetSystem

  /** `n` rounds in which Alice sends two messages and only the second arrives. */
  function EveryOtherLost(n: nat): seq<Action> {
    if n == 0 then []
    else EveryOtherLost(n - 1) + [Send(Alice, [], 0), Send(Alice, [], 0), Deliver(2 * n - 1)]
  }

  ghost predicate AliceSent(sys: System, alice: nat, count: nat) {
    && sys.alice.ckSend.Some? && sys.alice.dhSendPub == PublicOf(alice)
    && sys.alice.pn == 0 && sys.alice.nSend == count
    && |sys.network| == count
    && (forall i :: 0 <= i < count ==>
          sys.network[i].from == Alice && sys.network[i].envelope.header == Header(PublicOf(alice), 0, i))
  }

  ghost predicate BobHoards(sys: System, alice: nat, n: nat) {
    && sys.bob.nRecv == 2 * n
    && |sys.bob.skipped| == n
    && (forall k :: k in sys.bob.skipped ==> k.n < 2 * n)
    && (forall r :: r in sys.received ==> r.packet < 2 * n)
    && (if n == 0 then sys.bob.dhRecv.None? && sys.bob.ckRecv.None?
        else sys.bob.dhRecv == Some(PublicOf(alice)) && sys.bob.ckRecv.Some?)
  }

  lemma AliceSends(sys: System, alice: nat, count: nat, n: nat)
    requires AliceSent(sys, alice, count) && BobHoards(sys, alice, n)
    ensures var next := Step(sys, Send(Alice, [], 0)); AliceSent(next, alice, count + 1) && BobHoards(next, alice, n)
  {
  }

  /** Skipping over one message on a chain stores one key. */
  lemma HoardOne(s: Session, e: Envelope)
    requires s.ckRecv.Some? && e.header.n == s.nRecv + 1
    requires SkipAndOpen(s, e).1.Ok?
    ensures var s' := SkipAndOpen(s, e).0;
      && s'.nRecv == s.nRecv + 2 && s'.ckRecv.Some? && s'.dhRecv == s.dhRecv
      && |s'.skipped| == |s.skipped| + 1
      && (forall k :: k in s'.skipped ==> k in s.skipped || k.n == s.nRecv)
  {
    assert PushSkipped(s, s.nRecv) == s;
  }

  lemma {:induction false} Hoarding(sk: Bytes, prekey: nat, n: nat)
    ensures var sys := Run(sk, prekey, EveryOtherLost(n));
      AliceSent(sys, prekey + 1, 2 * n) && BobHoards(sys, prekey + 1, n)
  {
    if n > 0 {
      hide Step, AliceSent, BobHoards, Run;
      Hoarding(sk, prekey, n - 1);
      LostRound(sk, prekey, EveryOtherLost(n - 1), n);
    }
  }

  /** Two messages sent and the second delivered. */
  lemma LostRound(sk: Bytes, prekey: nat, before: seq<Action>, n: nat)
    requires n > 0
    requires AliceSent(Run(sk, prekey, before), prekey + 1, 2 * n - 2)
    requires BobHoards(Run(sk, prekey, before), prekey + 1, n - 1)
    ensures var send := Send(Alice, [], 0);
      var sys := Run(sk, prekey, before + [send, send, Deliver(2 * n - 1)]);
      AliceSent(sys, prekey + 1, 2 * n) && BobHoards(sys, prekey + 1, n)
  {
    hide Step, AliceSent, BobHoards, Run;
    var send := Send(Alice, [], 0);
    AliceSends(Run(sk, prekey, before), prekey + 1, 2 * n - 2, n - 1);
    AliceSends(Step(Run(sk, prekey, before), send), prekey + 1, 2 * n - 1, n - 1);
    RunStep(sk, prekey, before, send);
    RunStep(sk, prekey, before + [send], send);
    RunStep(sk, prekey, before + [send] + [send], Deliver(2 * n - 1));
    assert before + [send] + [send] + [Deliver(2 * n - 1)] == before + [send, send, Deliver(2 * n - 1)];
    LastDelivered(sk, prekey, before + [send] + [send], n);
  }

  lemma LastDelivered(sk: Bytes, prekey: nat, actions: seq<Action>, n: nat)
    requires n > 0
    requires AliceSent(Run(sk, prekey, actions), prekey + 1, 2 * n)
    requires BobHoards(Run(sk, prekey, actions), prekey + 1, n - 1)
    ensures var sys := Step(Run(sk, prekey, actions), Deliver(2 * n - 1));
      AliceSent(sys, prekey + 1, 2 * n) && BobHoards(sys, prekey + 1, n)
  {
    var sys := Run(sk, prekey, actions);
    var e := sys.network[2 * n - 1].envelope;
    DeliveryCorrect(sk, prekey, actions, 2 * n - 1);
    assert !sys.Accepted(2 * n - 1);
    assert Position(sys.bob.skipped, e.header) == |sys.bob.skipped|;
    var s := if n == 1 then Ratcheted(sys.bob, e.header.dh, sys.nextSecret) else sys.bob;
    assert Decrypted(sys.bob, e, sys.nextSecret) == SkipAndOpen(s, e);
    HoardOne(s, e);
  }

  /** No bound holds for the skipped store over all runs. */
  lemma StoreUnbounded(sk: Bytes, prekey: nat, bound: nat)
    ensures exists actions :: |Run(sk, prekey, actions).bob.skipped| > bound
  {
    Hoarding(sk, prekey, bound + 1);
  }

  // --- What the store holds, counted ---------------------------------------------------------------

  /** The packet is addressed to `p`, whose receive chains have passed it, and was never accepted. */
  predicate AwaitedBy(sys: System, p: Party, i: nat) {
    && i < |sys.network| && sys.network[i].from == p.Peer() && !sys.Accepted(i)
    && PassedOver(sys.Of(p), sys.network[i].envelope.header)
  }

  /** The packets that a party has passed over and still awaits. */
  ghost function Awaited(sys: System, p: Party): (r: set<nat>)
    ensures forall i :: i in r <==> AwaitedBy(sys, p, i)
  {
    set i | i in Below(|sys.network|) && AwaitedBy(sys, p, i)
  }

  /** Keys without duplicates are as many as the packets they belong to one to one. */
  lemma {:induction false} OneKeyEach(network: seq<Packet>, packets: set<nat>, keys: seq<SkippedKey>)
    requires NoDuplicates(keys) && forall i :: i in packets ==> i < |network|
    requires forall key :: key in keys <==> exists i :: i in packets && key == StoredKey(network[i])
    requires forall i, j :: i in packets && j in packets && StoredKey(network[i]) == StoredKey(network[j]) ==> i == j
    ensures |keys| == |packets|
    decreases |keys|
  {
    assert forall i :: i in packets ==> StoredKey(network[i]) in keys;
    if |keys| == 0 {
      assert packets == {};
    } else {
      var front, last := keys[..|keys| - 1], keys[|keys| - 1];
      assert last in keys;
      var i :| i in packets && last == StoredKey(network[i]);
      forall key
        ensures key in front <==> key in keys && key != last
      {
        assert keys == front + [last];
      }
      forall key
        ensures key in front <==> exists j :: j in packets - {i} && key == StoredKey(network[j])
      {
        if key in front {
          var j :| j in packets && key == StoredKey(network[j]);
          assert j in packets - {i};
        }
      }
      OneKeyEach(network, packets - {i}, front);
    }
  }

  /**
   In every run, a party stores as many keys as it still awaits packets it has passed over; so its store is
   within MAX_SKIP exactly when no more than MAX_SKIP packets are late or lost.
   */
  lemma StoreCountsAwaited(sk: Bytes, prekey: nat, actions: seq<Action>, p: Party)
    ensures var sys := Run(sk, prekey, actions);
      && |sys.Of(p).skipped| == |Awaited(sys, p)|
      && (|sys.Of(p).skipped| <= MAX_SKIP <==> |Awaited(sys, p)| <= MAX_SKIP)
  {
    hide Run, Awaited, PassedOver;
    var sys := Run(sk, prekey, actions);
    var s, packets := sys.Of(p), Awaited(sys, p);
    StoreIsPassedUndelivered(sk, prekey, actions, p, SkippedKey(ZeroPublic, 0, Shared([])));
    forall key
      ensures key in s.skipped <==> exists i :: i in packets && key == StoredKey(sys.network[i])
    {
      StoreIsPassedUndelivered(sk, prekey, actions, p, key);
      if key in s.skipped {
        var i :| 0 <= i < |sys.network| && sys.network[i].from == p.Peer() && !sys.Accepted(i)
                 && PassedOver(s, sys.network[i].envelope.header) && key == StoredKey(sys.network[i]);
        assert AwaitedBy(sys, p, i);
      }
    }
    forall i, j | i in packets && j in packets && StoredKey(sys.network[i]) == StoredKey(sys.network[j])
      ensures i == j
    {
      if i < j {
        MessageKeysNeverReused(sk, prekey, actions, i, j);
      } else if j < i {
        MessageKeysNeverReused(sk, prekey, actions, j, i);
      }
    }
    OneKeyEach(sys.network, packets, s.skipped);
  }
}
