/**
 The history of one Double Ratchet conversation, and what it means for one party's state to be
 in step with it.

 Ratchet epochs form a single line. Epoch 0 is Bob's first key pair under the shared secret;
 epoch k > 0 is opened by Alice when k is odd and by Bob when k is even, and its root and chain
 key come from the root of epoch k - 1 and the agreement of the key pairs of epochs k and k - 1.
 */
module RatchetHistory {
  import opened Common
  import opened Symbolic
  import opened DoubleRatchet

  datatype Sent = Sent(text: Bytes, nonce: nat)

  datatype Epoch = Epoch(secret: nat, root: Key, chain: Key, sent: seq<Sent>)

  type History = seq<Epoch>

  /** The `n`-th message of an epoch. */
  datatype Slot = Slot(epoch: nat, n: nat)

  datatype Party = Alice | Bob {
    function Peer(): Party {
      if Alice? then Bob else Alice
    }
  }

  function Owner(epoch: nat): Party {
    if epoch % 2 == 1 then Alice else Bob
  }

  ghost predicate LinkedAt(h: History, k: nat)
    requires 1 <= k < |h|
  {
    (h[k].root, h[k].chain) == KdfRk(h[k - 1].root, Dh(h[k].secret, PublicOf(h[k - 1].secret)))
  }

  ghost predicate Linked(h: History) {
    && |h| >= 2
    && h[0].root.Shared?
    && h[0].sent == []
    && (forall k :: 1 <= k < |h| ==> LinkedAt(h, k))
    && (forall i, j :: 0 <= i < j < |h| ==> h[i].secret < h[j].secret)
  }

  ghost predicate ValidSlot(h: History, slot: Slot) {
    1 <= slot.epoch < |h| && slot.n < |h[slot.epoch].sent|
  }

  function ChainAt(h: History, k: nat, n: nat): Key
    requires k < |h|
  {
    Advance(h[k].chain, n)
  }

  function MessageKeyAt(h: History, slot: Slot): Key
    requires slot.epoch < |h|
  {
    MessageKey(h[slot.epoch].chain, slot.n)
  }

  /** How many messages the owner of epoch `k` sent in its previous epoch. */
  function PreviousCount(h: History, k: nat): nat
    requires k < |h|
  {
    if k >= 2 then |h[k - 2].sent| else 0
  }

  function HeaderAt(h: History, slot: Slot): Header
    requires slot.epoch < |h|
  {
    Header(PublicOf(h[slot.epoch].secret), PreviousCount(h, slot.epoch), slot.n)
  }

  /** The envelope that the owner of the slot's epoch produces for it. */
  function EnvelopeAt(h: History, slot: Slot): Envelope
    requires ValidSlot(h, slot)
  {
    var sent := h[slot.epoch].sent[slot.n];
    Envelope(HeaderAt(h, slot), sent.nonce, Sealed(MessageKeyAt(h, slot), sent.nonce, sent.text))
  }

  function SkippedAt(h: History, slot: Slot): SkippedKey
    requires slot.epoch < |h|
  {
    SkippedKey(PublicOf(h[slot.epoch].secret), slot.n, MessageKeyAt(h, slot))
  }

  // --- Keys of a history are distinct ----------------------------------------------------------

  lemma {:induction false} RootDepth(h: History, k: nat)
    requires Linked(h) && k < |h|
    ensures Depth(h[k].root) == k
    ensures k > 0 ==> ChainStart(h[k].chain) && h[k].chain.salt == h[k - 1].root
  {
    if k > 0 {
      RootDepth(h, k - 1);
      assert LinkedAt(h, k);
    }
  }

  /** No two messages of a conversation are ever encrypted under the same key. */
  lemma MessageKeysDistinct(h: History, a: Slot, b: Slot)
    requires Linked(h) && 1 <= a.epoch < |h| && 1 <= b.epoch < |h|
    requires MessageKeyAt(h, a) == MessageKeyAt(h, b)
    ensures a == b
  {
    RootDepth(h, a.epoch);
    RootDepth(h, b.epoch);
    AdvanceInjective(h[a.epoch].chain, a.n, h[b.epoch].chain, b.n);
    RootDepth(h, a.epoch - 1);
    RootDepth(h, b.epoch - 1);
  }

  /**
   The schedule in HKDF calls: an epoch's root and chain come from the last root and the agreement of both key
   pairs under the labels for root and chain, and along a chain each key gives the next and a message key.
   */
  lemma KeySchedule(h: History, slot: Slot)
    requires Linked(h) && 1 <= slot.epoch < |h|
    ensures var (k, n) := (slot.epoch, slot.n); var agreed := DhOut(h[k - 1].secret, h[k].secret);
      && h[k].root == Hkdf(h[k - 1].root, agreed, RootInfo)
      && ChainAt(h, k, 0) == Hkdf(h[k - 1].root, agreed, ChainInfo)
      && ChainAt(h, k, n + 1) == Hkdf(ChainAt(h, k, n), NoInput, ChainInfo)
      && MessageKeyAt(h, slot) == Hkdf(ChainAt(h, k, n), NoInput, MsgInfo)
  {
    assert LinkedAt(h, slot.epoch);
  }

  // --- One party in step with the history ------------------------------------------------------

  /** History of one party: its epoch, what it has delivered, and what it has passed over. */
  datatype View = View(epoch: nat, delivered: set<Slot>, pending: seq<Slot>)

  ghost predicate KeysInStep(h: History, e: nat, s: Session) {
    && e < |h|
    && s.dhSend == h[e].secret
    && s.dhSendPub == PublicOf(h[e].secret)
    && s.rootKey == h[e].root
    && s.dhRecv == (if e == 0 then None else Some(PublicOf(h[e - 1].secret)))
    && s.ckSend == (if e == 0 then None else Some(ChainAt(h, e, |h[e].sent|)))
    && s.nSend == |h[e].sent|
    && s.pn == PreviousCount(h, e)
    && s.ckRecv == (if e <= 1 then None else Some(ChainAt(h, e - 1, s.nRecv)))
    && s.nRecv <= (if e == 0 then 0 else |h[e - 1].sent|)
  }

  /** The slots addressed to the owner of epoch `e` that its receive chains have gone past. */
  ghost predicate Passed(h: History, e: nat, nRecv: nat, slot: Slot) {
    && e < |h|
    && 1 <= slot.epoch < e
    && Owner(slot.epoch) != Owner(e)
    && slot.n < (if slot.epoch == e - 1 then nRecv else |h[slot.epoch].sent|)
  }

  ghost predicate NoDuplicates<T>(s: seq<T>) {
    forall i, j :: 0 <= i < j < |s| ==> s[i] != s[j]
  }

  /** The skipped store is the list of pending slots, each with the sender's own key. */
  ghost predicate StoreHolds(h: History, pending: seq<Slot>, skipped: seq<SkippedKey>) {
    && |skipped| == |pending|
    && (forall i :: 0 <= i < |pending| ==> pending[i].epoch < |h|)
    && (forall i :: 0 <= i < |pending| ==> skipped[i] == SkippedAt(h, pending[i]))
  }

  /** Delivered and pending slots partition the passed ones. */
  ghost predicate Partition(h: History, v: View, nRecv: nat) {
    && NoDuplicates(v.pending)
    && (forall slot :: slot in v.delivered ==> Passed(h, v.epoch, nRecv, slot))
    && (forall slot :: slot in v.pending <==> Passed(h, v.epoch, nRecv, slot) && slot !in v.delivered)
  }

  ghost predicate InStep(h: History, v: View, s: Session) {
    && KeysInStep(h, v.epoch, s)
    && StoreHolds(h, v.pending, s.skipped)
    && Partition(h, v, s.nRecv)
  }

  /** When a header can be served: a stored key, or gaps of at most MAX_SKIP. */
  predicate WithinReach(s: Session, header: Header) {
    || Position(s.skipped, header) < |s.skipped|
    || (if s.dhRecv == Some(header.dh)
        then header.n <= s.nRecv + MAX_SKIP
        else header.pn <= s.nRecv + MAX_SKIP && header.n <= MAX_SKIP)
  }

  // --- The skipped store -----------------------------------------------------------------------

  /** Looking a slot up in the store finds exactly its pending entry. */
  lemma PositionOfSlot(h: History, pending: seq<Slot>, skipped: seq<SkippedKey>, slot: Slot)
    requires Linked(h) && slot.epoch < |h| && StoreHolds(h, pending, skipped)
    ensures var i := Position(skipped, HeaderAt(h, slot));
      if slot in pending then i < |pending| && pending[i] == slot else i == |pending|
  {
    forall i | 0 <= i < |pending|
      ensures Matches(skipped[i], HeaderAt(h, slot)) <==> pending[i] == slot
    {
      var p := pending[i];
      assert skipped[i] == SkippedAt(h, p);
      if p.epoch < slot.epoch {
        assert h[p.epoch].secret < h[slot.epoch].secret;
      } else if slot.epoch < p.epoch {
        assert h[slot.epoch].secret < h[p.epoch].secret;
      }
    }
  }

  lemma WithoutMembers<T>(s: seq<T>, i: nat)
    requires i < |s| && NoDuplicates(s)
    ensures NoDuplicates(Without(s, i))
    ensures forall x :: x in Without(s, i) <==> x in s && x != s[i]
  {
    var r := Without(s, i);
    forall x | x in s && x != s[i]
      ensures x in r
    {
      var j :| 0 <= j < |s| && s[j] == x;
      assert r[if j < i then j else j - 1] == x;
    }
  }

  /** The slots of epoch `k` from `from` up to `until`. */
  function Slots(k: nat, from: nat, until: nat): (r: seq<Slot>)
    requires from <= until
  {
    seq(until - from, i requires 0 <= i => Slot(k, from + i))
  }

  lemma SlotsMembers(k: nat, from: nat, until: nat)
    requires from <= until
    ensures NoDuplicates(Slots(k, from, until))
    ensures forall slot :: slot in Slots(k, from, until) <==> slot.epoch == k && from <= slot.n < until
  {
    var r := Slots(k, from, until);
    forall slot: Slot | slot.epoch == k && from <= slot.n < until
      ensures slot in r
    {
      assert r[slot.n - from] == slot;
    }
  }

  /** Skipping forward on the chain of epoch `k` stores exactly the keys of the slots passed. */
  lemma {:induction false} PushSkippedInStep(h: History, k: nat, pending: seq<Slot>, s: Session, until: nat)
    requires k < |h| && s.nRecv <= until
    requires s.dhRecv == Some(PublicOf(h[k].secret))
    requires s.ckRecv == Some(ChainAt(h, k, s.nRecv))
    requires StoreHolds(h, pending, s.skipped)
    ensures var r := PushSkipped(s, until);
      && r == s.(ckRecv := Some(ChainAt(h, k, until)), nRecv := until, skipped := r.skipped)
      && StoreHolds(h, pending + Slots(k, s.nRecv, until), r.skipped)
    decreases until
  {
    if s.nRecv < until {
      PushSkippedInStep(h, k, pending, s, until - 1);
      assert Slots(k, s.nRecv, until) == Slots(k, s.nRecv, until - 1) + [Slot(k, until - 1)];
    } else {
      assert pending + Slots(k, s.nRecv, until) == pending;
    }
  }

  /** How far a party's receive chain has gone on the chain of epoch `k`. */
  function Frontier(h: History, e: nat, nRecv: nat, k: nat): nat
    requires k < |h|
  {
    if k + 1 == e then nRecv else |h[k].sent|
  }

  /** The numbers below `n`. */
  ghost function Below(n: nat): (r: set<nat>)
    ensures forall i: nat :: i in r <==> i < n
    ensures |r| == n
  {
    if n == 0 then {} else Below(n - 1) + {n - 1}
  }

  /** The message numbers of the slots of epoch `k` in a set. */
  ghost function NumbersOn(slots: set<Slot>, k: nat): (r: set<nat>)
    ensures forall n: nat :: n in r <==> Slot(k, n) in slots
  {
    set slot | slot in slots && slot.epoch == k :: slot.n
  }

  /** On each chain a party receives, messages delivered and keys stored add up to the frontier. */
  lemma DeliveredPlusStored(h: History, v: View, s: Session, k: nat)
    requires InStep(h, v, s) && 1 <= k < v.epoch && Owner(k) != Owner(v.epoch)
    ensures var (delivered, stored) := (NumbersOn(v.delivered, k), NumbersOn((set slot | slot in v.pending), k));
      delivered !! stored && |delivered| + |stored| == Frontier(h, v.epoch, s.nRecv, k)
  {
    hide NumbersOn, Owner;
    var frontier := Frontier(h, v.epoch, s.nRecv, k);
    var delivered, stored := NumbersOn(v.delivered, k), NumbersOn((set slot | slot in v.pending), k);
    forall n: nat
      ensures (n in delivered || n in stored <==> n < frontier) && !(n in delivered && n in stored)
    {
      assert n < frontier <==> Passed(h, v.epoch, s.nRecv, Slot(k, n));
    }
    assert delivered + stored == Below(frontier);
  }

  // --- Framing: the history only grows ---------------------------------------------------------

  function WithSent(h: History, k: nat, sent: Sent): History
    requires k < |h|
  {
    h[k := h[k].(sent := h[k].sent + [sent])]
  }

  /** The epoch opened on top of the last one with a fresh key pair. */
  function NextEpoch(h: History, secret: nat): Epoch
    requires |h| > 0
  {
    var last := h[|h| - 1];
    var (root, chain) := KdfRk(last.root, Dh(secret, PublicOf(last.secret)));
    Epoch(secret, root, chain, [])
  }

  /** `g` continues `h`: same key schedule, possibly more messages and more epochs. */
  ghost predicate Continues(h: History, g: History) {
    && |h| <= |g|
    && (forall k :: 0 <= k < |h| ==> g[k] == h[k].(sent := g[k].sent) && h[k].sent <= g[k].sent)
  }

  lemma LinkedExtended(h: History, secret: nat)
    requires Linked(h) && secret > h[|h| - 1].secret
    ensures Linked(h + [NextEpoch(h, secret)])
  {
    var g := h + [NextEpoch(h, secret)];
    forall k | 1 <= k < |g|
      ensures LinkedAt(g, k)
    {
      if k < |h| {
        assert LinkedAt(h, k);
      }
    }
  }

  lemma LinkedWithSent(h: History, e: nat, sent: Sent)
    requires Linked(h) && 1 <= e < |h|
    ensures Linked(WithSent(h, e, sent))
  {
    var g := WithSent(h, e, sent);
    forall k | 1 <= k < |g|
      ensures LinkedAt(g, k)
    {
      assert LinkedAt(h, k);
    }
  }

  /** A party stays in step while the history grows outside its own and its older epochs. */
  lemma InStepFramed(h: History, g: History, v: View, s: Session)
    requires InStep(h, v, s) && Continues(h, g)
    requires forall k :: 0 <= k < |h| && (k == v.epoch || k + 2 <= v.epoch) ==> g[k].sent == h[k].sent
    ensures InStep(g, v, s)
  {
    assert forall slot :: Passed(g, v.epoch, s.nRecv, slot) == Passed(h, v.epoch, s.nRecv, slot);
  }

  /** Growth does not change the envelopes already sent. */
  lemma EnvelopeFramed(h: History, g: History, slot: Slot)
    requires ValidSlot(h, slot) && Continues(h, g)
    requires slot.epoch >= 2 ==> g[slot.epoch - 2].sent == h[slot.epoch - 2].sent
    ensures ValidSlot(g, slot) && EnvelopeAt(g, slot) == EnvelopeAt(h, slot)
  {
    assert g[slot.epoch].sent[slot.n] == h[slot.epoch].sent[slot.n];
  }

  // --- Sending ---------------------------------------------------------------------------------

  lemma SendInStep(h: History, v: View, s: Session, text: Bytes, nonce: nat)
    requires Linked(h) && InStep(h, v, s) && v.epoch >= 1
    ensures var g := WithSent(h, v.epoch, Sent(text, nonce));
      var slot := Slot(v.epoch, |h[v.epoch].sent|);
      && Linked(g) && ValidSlot(g, slot)
      && InStep(g, v, Encrypted(s, text, nonce).0)
      && Encrypted(s, text, nonce).1 == Ok(EnvelopeAt(g, slot))
  {
    var g := WithSent(h, v.epoch, Sent(text, nonce));
    LinkedWithSent(h, v.epoch, Sent(text, nonce));
    assert forall slot :: Passed(g, v.epoch, s.nRecv, slot) == Passed(h, v.epoch, s.nRecv, slot);
  }

  // --- Delivering ------------------------------------------------------------------------------

  /** A slot that the network may bring to the owner of epoch `v.epoch`. */
  ghost predicate Deliverable(h: History, v: View, slot: Slot) {
    && ValidSlot(h, slot)
    && Owner(slot.epoch) != Owner(v.epoch)
    && slot.epoch <= v.epoch + 1
    && |h| <= v.epoch + 2
  }

  /** Case 1: the key is in the store. */
  lemma DeliverStored(h: History, v: View, s: Session, slot: Slot, newSecret: nat)
    requires Linked(h) && InStep(h, v, s) && Deliverable(h, v, slot)
    requires slot in v.pending
    ensures var (s', r) := Decrypted(s, EnvelopeAt(h, slot), newSecret);
      var i := Position(s.skipped, HeaderAt(h, slot));
      && i < |v.pending|
      && r == Ok(h[slot.epoch].sent[slot.n].text)
      && InStep(h, View(v.epoch, v.delivered + {slot}, Without(v.pending, i)), s')
  {
    hide Linked;
    PositionOfSlot(h, v.pending, s.skipped, slot);
    var i := Position(s.skipped, HeaderAt(h, slot));
    WithoutMembers(v.pending, i);
    assert s.skipped[i] == SkippedAt(h, slot);
    hide Passed, Position;
    StoreWithout(h, v.pending, s.skipped, i);
  }

  lemma StoreWithout(h: History, pending: seq<Slot>, skipped: seq<SkippedKey>, i: nat)
    requires StoreHolds(h, pending, skipped) && i < |pending|
    ensures StoreHolds(h, Without(pending, i), Without(skipped, i))
  {
  }

  /** Skipping to a new message on the chain being received and opening it keeps the party in step. */
  lemma OpenInStep(h: History, v: View, s: Session, slot: Slot)
    requires Linked(h) && InStep(h, v, s) && ValidSlot(h, slot)
    requires slot.epoch + 1 == v.epoch && s.nRecv <= slot.n <= s.nRecv + MAX_SKIP
    ensures var (s', r) := SkipAndOpen(s, EnvelopeAt(h, slot));
      && r == Ok(h[slot.epoch].sent[slot.n].text)
      && InStep(h, View(v.epoch, v.delivered + {slot}, v.pending + Slots(slot.epoch, s.nRecv, slot.n)), s')
  {
    PushSkippedInStep(h, slot.epoch, v.pending, s, slot.n);
    PartitionAfter(h, v, s.nRecv, slot);
  }

  lemma PartitionAfter(h: History, v: View, nRecv: nat, slot: Slot)
    requires Partition(h, v, nRecv) && ValidSlot(h, slot)
    requires v.epoch < |h| && slot.epoch + 1 == v.epoch && nRecv <= slot.n
    ensures Partition(h, View(v.epoch, v.delivered + {slot}, v.pending + Slots(slot.epoch, nRecv, slot.n)), slot.n + 1)
  {
    var more := Slots(slot.epoch, nRecv, slot.n);
    SlotsMembers(slot.epoch, nRecv, slot.n);
    assert Owner(slot.epoch) != Owner(v.epoch);
    forall x: Slot
      ensures Passed(h, v.epoch, slot.n + 1, x) <==> Passed(h, v.epoch, nRecv, x) || x in more || x == slot
    {
    }
    forall x | x in v.pending
      ensures x !in more
    {
      assert Passed(h, v.epoch, nRecv, x);
    }
    NoDuplicatesConcat(v.pending, more);
  }

  lemma NoDuplicatesConcat<T>(a: seq<T>, b: seq<T>)
    requires NoDuplicates(a) && NoDuplicates(b)
    requires forall x :: x in a ==> x !in b
    ensures NoDuplicates(a + b)
  {
    forall i, j | 0 <= i < j < |a + b|
      ensures (a + b)[i] != (a + b)[j]
    {
      if i < |a| <= j {
        assert a[i] in a && b[j - |a|] in b;
      }
    }
  }

  /** Closing the receive chain at its announced length and ratcheting to the next epoch. */
  lemma RatchetInStep(h: History, v: View, s: Session, newSecret: nat)
    requires Linked(h) && InStep(h, v, s) && |h| == v.epoch + 2 && newSecret > h[v.epoch + 1].secret
    requires PreviousCount(h, v.epoch + 1) <= s.nRecv + MAX_SKIP
    ensures var k := v.epoch + 1; var until := PreviousCount(h, k);
      var (s', r) := SkippedTo(s, until);
      var g := h + [NextEpoch(h, newSecret)];
      && r.Ok? && s.nRecv <= until && Linked(g)
      && InStep(g, View(k + 1, v.delivered, v.pending + ClosingSlots(v.epoch, s.nRecv, until)),
                Ratcheted(s', PublicOf(h[k].secret), newSecret))
  {
    var e, k := v.epoch, v.epoch + 1;
    var until := PreviousCount(h, k);
    var g := h + [NextEpoch(h, newSecret)];
    LinkedExtended(h, newSecret);
    assert LinkedAt(h, k);
    assert LinkedAt(g, k + 1);
    DhCommutes(h[e].secret, h[k].secret);
    var s' := SkippedTo(s, until).0;
    var pending := v.pending + ClosingSlots(e, s.nRecv, until);
    if e >= 2 {
      PushSkippedInStep(h, e - 1, v.pending, s, until);
    } else {
      assert pending == v.pending;
    }
    assert StoreHolds(g, pending, s'.skipped);
    PartitionClosed(h, v, s.nRecv, newSecret);
  }

  /** The slots stored when the receive chain below epoch `e` is closed. */
  function ClosingSlots(e: nat, nRecv: nat, until: nat): seq<Slot>
    requires nRecv <= until
  {
    if e >= 2 then Slots(e - 1, nRecv, until) else []
  }

  lemma PartitionClosed(h: History, v: View, nRecv: nat, newSecret: nat)
    requires Linked(h) && Partition(h, v, nRecv) && |h| == v.epoch + 2
    requires nRecv <= PreviousCount(h, v.epoch + 1)
    ensures var until := PreviousCount(h, v.epoch + 1);
      Partition(h + [NextEpoch(h, newSecret)],
                View(v.epoch + 2, v.delivered, v.pending + ClosingSlots(v.epoch, nRecv, until)), 0)
  {
    var e, until := v.epoch, PreviousCount(h, v.epoch + 1);
    var g := h + [NextEpoch(h, newSecret)];
    var more := ClosingSlots(e, nRecv, until);
    if e >= 2 {
      SlotsMembers(e - 1, nRecv, until);
    }
    forall x: Slot
      ensures Passed(g, e + 2, 0, x) <==> Passed(h, e, nRecv, x) || x in more
    {
    }
    forall x | x in v.pending
      ensures x !in more
    {
      assert Passed(h, e, nRecv, x);
    }
    NoDuplicatesConcat(v.pending, more);
  }

  /** Case 2: a new message on the chain being received. */
  lemma DeliverOnCurrentChain(h: History, v: View, s: Session, slot: Slot, newSecret: nat) returns (v': View)
    requires Linked(h) && InStep(h, v, s) && Deliverable(h, v, slot)
    requires slot.epoch + 1 == v.epoch && s.nRecv <= slot.n <= s.nRecv + MAX_SKIP
    ensures var (s', r) := Decrypted(s, EnvelopeAt(h, slot), newSecret);
      && r == Ok(h[slot.epoch].sent[slot.n].text)
      && v'.epoch == v.epoch && v'.delivered == v.delivered + {slot}
      && InStep(h, v', s')
  {
    assert !Passed(h, v.epoch, s.nRecv, slot);
    PositionOfSlot(h, v.pending, s.skipped, slot);
    OpenInStep(h, v, s, slot);
    v' := View(v.epoch, v.delivered + {slot}, v.pending + Slots(slot.epoch, s.nRecv, slot.n));
  }

  /** An envelope of the peer's next chain makes the party ratchet. */
  lemma NextChainRatchets(h: History, v: View, s: Session, slot: Slot, newSecret: nat)
    requires Linked(h) && InStep(h, v, s) && Deliverable(h, v, slot) && slot.epoch == v.epoch + 1
    requires SkippedTo(s, PreviousCount(h, slot.epoch)).1.Ok?
    ensures var until := PreviousCount(h, slot.epoch);
      Decrypted(s, EnvelopeAt(h, slot), newSecret) ==
        SkipAndOpen(Ratcheted(SkippedTo(s, until).0, PublicOf(h[slot.epoch].secret), newSecret), EnvelopeAt(h, slot))
  {
    assert !Passed(h, v.epoch, s.nRecv, slot);
    PositionOfSlot(h, v.pending, s.skipped, slot);
    if v.epoch >= 1 {
      assert h[v.epoch - 1].secret < h[slot.epoch].secret;
    }
  }

  /** Case 3: the first message to arrive from the peer's next chain. */
  lemma DeliverOnNextChain(h: History, v: View, s: Session, slot: Slot, newSecret: nat) returns (v': View)
    requires Linked(h) && InStep(h, v, s) && Deliverable(h, v, slot)
    requires slot.epoch == v.epoch + 1 && newSecret > h[|h| - 1].secret
    requires PreviousCount(h, slot.epoch) <= s.nRecv + MAX_SKIP && slot.n <= MAX_SKIP
    ensures var (s', r) := Decrypted(s, EnvelopeAt(h, slot), newSecret);
      && r == Ok(h[slot.epoch].sent[slot.n].text)
      && v'.epoch == v.epoch + 2 && v'.delivered == v.delivered + {slot}
      && InStep(h + [NextEpoch(h, newSecret)], v', s')
  {
    hide InStep, Passed, Ratcheted, SkipAndOpen, KdfRk, Decrypted, SkippedTo, Linked, EnvelopeAt;
    var g := h + [NextEpoch(h, newSecret)];
    RatchetInStep(h, v, s, newSecret);
    NextChainRatchets(h, v, s, slot, newSecret);
    EnvelopeFramed(h, g, slot);
    var until := PreviousCount(h, slot.epoch);
    var s1 := Ratcheted(SkippedTo(s, until).0, PublicOf(h[slot.epoch].secret), newSecret);
    var v1 := View(v.epoch + 2, v.delivered, v.pending + ClosingSlots(v.epoch, s.nRecv, until));
    assert s1.nRecv == 0 by {
      RatchetedStands(SkippedTo(s, until).0, PublicOf(h[slot.epoch].secret), newSecret);
    }
    OpenInStep(g, v1, s1, slot);
    v' := View(v1.epoch, v.delivered + {slot}, v1.pending + Slots(slot.epoch, 0, slot.n));
  }

  lemma RatchetedStands(s: Session, headerDh: Public, newSecret: nat)
    ensures Ratcheted(s, headerDh, newSecret).nRecv == 0
  {
  }

  lemma {:induction false} PushSkippedChain(s: Session, until: nat)
    requires s.ckRecv.Some? && s.nRecv <= until
    ensures var r := PushSkipped(s, until);
      && r.ckRecv == Some(Advance(s.ckRecv.value, until - s.nRecv))
      && r.rootKey == s.rootKey && r.dhSend == s.dhSend
    decreases until
  {
    if s.nRecv < until {
      PushSkippedChain(s, until - 1);
    }
  }

  /** A chain derived from the current root never meets the chain of an older epoch. */
  lemma StaleChainDiffers(h: History, e: nat, slot: Slot, ck: Key)
    requires Linked(h) && 1 <= slot.epoch <= e < |h|
    requires ChainStart(ck) && ck.salt == h[e].root
    ensures MessageKey(ck, slot.n) != MessageKeyAt(h, slot)
  {
    RootDepth(h, slot.epoch);
    if MessageKey(ck, slot.n) == MessageKeyAt(h, slot) {
      AdvanceInjective(ck, slot.n, h[slot.epoch].chain, slot.n);
      RootDepth(h, e);
      RootDepth(h, slot.epoch - 1);
    }
  }

  /** Ratcheting for an envelope of a chain that is not newer than the party's own never opens it. */
  lemma StaleRatchetFails(h: History, v: View, s: Session, slot: Slot, newSecret: nat)
    requires Linked(h) && InStep(h, v, s) && ValidSlot(h, slot) && slot.epoch <= v.epoch
    requires slot !in v.pending && s.dhRecv != Some(PublicOf(h[slot.epoch].secret))
    ensures Decrypted(s, EnvelopeAt(h, slot), newSecret).1.Err?
  {
    hide Partition, Linked, Advance, Position;
    var e := EnvelopeAt(h, slot);
    PositionOfSlot(h, v.pending, s.skipped, slot);
    var (s1, skip) := SkippedTo(s, e.header.pn);
    if skip.Ok? {
      if s.ckRecv.Some? && s.nRecv <= e.header.pn {
        PushSkippedChain(s, e.header.pn);
      }
      assert s1.rootKey == h[v.epoch].root;
      var r := Ratcheted(s1, e.header.dh, newSecret);
      PushSkippedChain(r, slot.n);
      StaleChainDiffers(h, v.epoch, slot, r.ckRecv.value);
    }
  }

  /** Case 4: a message delivered before is refused, whichever chain it was sent on. */
  lemma RedeliveryFails(h: History, v: View, s: Session, slot: Slot, newSecret: nat)
    requires Linked(h) && InStep(h, v, s) && Deliverable(h, v, slot)
    requires slot in v.delivered
    ensures Decrypted(s, EnvelopeAt(h, slot), newSecret).1.Err?
  {
    assert Passed(h, v.epoch, s.nRecv, slot);
    if slot.epoch + 1 == v.epoch {
      PositionOfSlot(h, v.pending, s.skipped, slot);
      if MessageKeyAt(h, slot) == MessageKeyAt(h, Slot(slot.epoch, s.nRecv)) {
        MessageKeysDistinct(h, slot, Slot(slot.epoch, s.nRecv));
      }
    } else {
      assert h[slot.epoch].secret < h[v.epoch - 1].secret;
      StaleRatchetFails(h, v, s, slot, newSecret);
    }
  }

  /** A party refuses every envelope of its own. */
  lemma OwnEnvelopeFails(h: History, v: View, s: Session, slot: Slot, newSecret: nat)
    requires Linked(h) && InStep(h, v, s) && ValidSlot(h, slot)
    requires Owner(slot.epoch) == Owner(v.epoch) && slot.epoch <= v.epoch
    ensures Decrypted(s, EnvelopeAt(h, slot), newSecret).1.Err?
  {
    assert slot !in v.pending;
    if slot.epoch < v.epoch {
      assert h[slot.epoch].secret < h[v.epoch - 1].secret;
    } else {
      assert h[v.epoch - 1].secret < h[slot.epoch].secret;
    }
    StaleRatchetFails(h, v, s, slot, newSecret);
  }

  /**
   A session without a receive chain opens an envelope of the chain that starts at `chain` exactly when it
   derives that chain itself and the gaps are within MAX_SKIP.
   */
  lemma FirstContactIff(s: Session, e: Envelope, chain: Key, newSecret: nat)
    requires s.skipped == [] && s.ckRecv.None? && s.dhRecv != Some(e.header.dh) && ChainStart(chain)
    requires e.ciphertext == Sealed(MessageKey(chain, e.header.n), e.nonce, e.ciphertext.text)
    ensures Decrypted(s, e, newSecret).1.Ok? <==>
      && chain == KdfRk(s.rootKey, Dh(s.dhSend, e.header.dh)).1
      && e.header.pn <= s.nRecv + MAX_SKIP && e.header.n <= MAX_SKIP
  {
    var own := KdfRk(s.rootKey, Dh(s.dhSend, e.header.dh)).1;
    PushSkippedChain(Ratcheted(s, e.header.dh, newSecret), e.header.n);
    if MessageKey(own, e.header.n) == MessageKey(chain, e.header.n) {
      AdvanceInjective(own, e.header.n, chain, e.header.n);
    }
  }

  /**
   Saving only on success matters: were the state kept after a refused redelivery, the next message
   of the chain, never delivered, could no longer be opened.
   */
  lemma CommitIsLoadBearing(h: History, v: View, s: Session, slot: Slot, newSecret: nat)
    requires Linked(h) && InStep(h, v, s) && Deliverable(h, v, slot) && slot in v.delivered
    requires slot.epoch + 1 == v.epoch && ValidSlot(h, Slot(slot.epoch, s.nRecv))
    ensures var next := EnvelopeAt(h, Slot(slot.epoch, s.nRecv));
      && Decrypted(s, next, newSecret).1.Ok?
      && Decrypted(Decrypted(s, EnvelopeAt(h, slot), newSecret).0, next, newSecret).1.Err?
  {
    var next := Slot(slot.epoch, s.nRecv);
    assert Passed(h, v.epoch, s.nRecv, slot) && !Passed(h, v.epoch, s.nRecv, next);
    PositionOfSlot(h, v.pending, s.skipped, slot);
    PositionOfSlot(h, v.pending, s.skipped, next);
    var v' := DeliverOnCurrentChain(h, v, s, next, newSecret);
    var after := Slot(slot.epoch, s.nRecv + 1);
    if MessageKeyAt(h, next) == MessageKeyAt(h, after) {
      MessageKeysDistinct(h, next, after);
    }
  }

  /**
   The same for stored keys: were the state kept after a forgery under a stored header, the awaited message
   itself could no longer be opened.
   */
  lemma ForgeryWouldCostStoredKey(h: History, v: View, s: Session, slot: Slot, forged: Envelope, newSecret: nat)
    requires Linked(h) && InStep(h, v, s) && Deliverable(h, v, slot) && slot in v.pending
    requires forged.header == HeaderAt(h, slot) && OpenWith(MessageKeyAt(h, slot), forged).Err?
    ensures Decrypted(s, forged, newSecret).1.Err?
    ensures Decrypted(s, EnvelopeAt(h, slot), newSecret).1.Ok?
    ensures Decrypted(Decrypted(s, forged, newSecret).0, EnvelopeAt(h, slot), newSecret).1.Err?
  {
    DeliverStored(h, v, s, slot, newSecret);
    PositionOfSlot(h, v.pending, s.skipped, slot);
    var i := Position(s.skipped, HeaderAt(h, slot));
    assert s.skipped[i] == SkippedAt(h, slot);
    var s' := Decrypted(s, forged, newSecret).0;
    assert s' == Decrypted(s, EnvelopeAt(h, slot), newSecret).0;
    hide Decrypted, InStep;
    RedeliveryFails(h, View(v.epoch, v.delivered + {slot}, Without(v.pending, i)), s', slot, newSecret);
  }

  /**
   A ciphertext of the conversation under any header and nonce: if it opens at all, then with its own nonce, at
   the party it was sealed for, and only before it was delivered.
   */
  lemma RewrittenOpens(h: History, v: View, s: Session, slot: Slot, e: Envelope, newSecret: nat)
    requires Linked(h) && InStep(h, v, s) && ValidSlot(h, slot)
    requires e.ciphertext == EnvelopeAt(h, slot).ciphertext && Decrypted(s, e, newSecret).1.Ok?
    ensures e.nonce == h[slot.epoch].sent[slot.n].nonce
    ensures Decrypted(s, e, newSecret).1.value == h[slot.epoch].sent[slot.n].text
    ensures Owner(slot.epoch) != Owner(v.epoch) && slot !in v.delivered
  {
    var i := Position(s.skipped, e.header);
    if i < |s.skipped| {
      assert s.skipped[i] == SkippedAt(h, v.pending[i]) && v.pending[i] in v.pending;
      assert Passed(h, v.epoch, s.nRecv, v.pending[i]);
      MessageKeysDistinct(h, v.pending[i], slot);
    } else if s.dhRecv == Some(e.header.dh) {
      RewrittenOnCurrentChain(h, v, s, slot, e);
    } else {
      RewrittenOnNextChain(h, v, s, slot, e, newSecret);
    }
  }

  lemma RewrittenOnCurrentChain(h: History, v: View, s: Session, slot: Slot, e: Envelope)
    requires Linked(h) && InStep(h, v, s) && ValidSlot(h, slot) && v.epoch >= 1
    requires e.ciphertext == EnvelopeAt(h, slot).ciphertext && SkipAndOpen(s, e).1.Ok?
    ensures SkipAndOpen(s, e).1.value == h[slot.epoch].sent[slot.n].text
    ensures e.nonce == h[slot.epoch].sent[slot.n].nonce
    ensures Owner(slot.epoch) != Owner(v.epoch) && slot !in v.delivered
  {
    var n := if e.header.n < s.nRecv then s.nRecv else e.header.n;
    if s.nRecv < e.header.n {
      PushSkippedChain(s, e.header.n);
      AdvanceAdds(h[v.epoch - 1].chain, s.nRecv, n - s.nRecv);
    }
    MessageKeysDistinct(h, Slot(v.epoch - 1, n), slot);
    assert !Passed(h, v.epoch, s.nRecv, slot);
  }

  /** What opens after a ratchet step is sealed on the chain of the new root. */
  lemma RatchetOpens(s: Session, e: Envelope, newSecret: nat)
    requires Position(s.skipped, e.header) == |s.skipped| && s.dhRecv != Some(e.header.dh)
    requires Decrypted(s, e, newSecret).1.Ok?
    ensures var chain := KdfRk(s.rootKey, Dh(s.dhSend, e.header.dh)).1;
      ChainStart(chain) && e.ciphertext.key == MessageKey(chain, e.header.n)
    ensures e.nonce == e.ciphertext.nonce && Decrypted(s, e, newSecret).1.value == e.ciphertext.text
  {
    if s.ckRecv.Some? && s.nRecv <= e.header.pn {
      PushSkippedChain(s, e.header.pn);
    }
    PushSkippedChain(Ratcheted(SkippedTo(s, e.header.pn).0, e.header.dh, newSecret), e.header.n);
  }

  lemma RewrittenOnNextChain(h: History, v: View, s: Session, slot: Slot, e: Envelope, newSecret: nat)
    requires Linked(h) && InStep(h, v, s) && ValidSlot(h, slot)
    requires Position(s.skipped, e.header) == |s.skipped| && s.dhRecv != Some(e.header.dh)
    requires e.ciphertext == EnvelopeAt(h, slot).ciphertext && Decrypted(s, e, newSecret).1.Ok?
    ensures Decrypted(s, e, newSecret).1.value == h[slot.epoch].sent[slot.n].text
    ensures e.nonce == h[slot.epoch].sent[slot.n].nonce
    ensures Owner(slot.epoch) != Owner(v.epoch) && slot !in v.delivered
  {
    hide Partition, StoreHolds, Linked, Advance, Position, Decrypted;
    RatchetOpens(s, e, newSecret);
    RootDepth(h, slot.epoch);
    AdvanceInjective(KdfRk(s.rootKey, Dh(s.dhSend, e.header.dh)).1, e.header.n, h[slot.epoch].chain, slot.n);
    RootDepth(h, slot.epoch - 1);
    RootDepth(h, v.epoch);
    NextNotDelivered(h, v, s, slot);
  }

  lemma NextNotDelivered(h: History, v: View, s: Session, slot: Slot)
    requires InStep(h, v, s) && slot.epoch == v.epoch + 1
    ensures slot !in v.delivered
  {
    assert !Passed(h, v.epoch, s.nRecv, slot);
  }

  /** Where an undelivered slot can be. */
  lemma UndeliveredCases(h: History, v: View, s: Session, slot: Slot)
    requires Linked(h) && InStep(h, v, s) && Deliverable(h, v, slot)
    requires slot !in v.delivered && slot !in v.pending
    ensures slot.epoch == v.epoch + 1 || (slot.epoch + 1 == v.epoch && s.nRecv <= slot.n)
    ensures s.dhRecv == Some(PublicOf(h[slot.epoch].secret)) <==> slot.epoch + 1 == v.epoch
  {
    assert !Passed(h, v.epoch, s.nRecv, slot);
    assert slot.epoch == v.epoch + 1 || slot.epoch + 1 == v.epoch;
    if slot.epoch == v.epoch + 1 && v.epoch >= 1 {
      assert h[v.epoch - 1].secret < h[slot.epoch].secret;
    }
  }

  /**
   One delivery attempt: it succeeds exactly when the slot was not delivered before and no gap
   exceeds MAX_SKIP, it then returns the text that was sent, and the party stays in step.
   */
  lemma Deliver(h: History, v: View, s: Session, slot: Slot, newSecret: nat) returns (g: History, v': View)
    requires Linked(h) && InStep(h, v, s) && Deliverable(h, v, slot) && newSecret > h[|h| - 1].secret
    ensures var (s', r) := Decrypted(s, EnvelopeAt(h, slot), newSecret);
      && (r.Ok? <==> slot !in v.delivered && WithinReach(s, HeaderAt(h, slot)))
      && (r.Ok? ==> r.value == h[slot.epoch].sent[slot.n].text)
      && (r.Ok? ==> v'.delivered == v.delivered + {slot} && InStep(g, v', s'))
      && (r.Ok? ==> v'.epoch == if slot.epoch == v.epoch + 1 then v.epoch + 2 else v.epoch)
      && (r.Err? ==> v' == v)
      && (r.Err? && slot !in v.delivered ==> r.error == "Too many skipped messages")
    ensures g == if v'.epoch == v.epoch then h else h + [NextEpoch(h, newSecret)]
    ensures Linked(g)
  {
    g, v' := h, v;
    if slot in v.delivered {
      RedeliveryFails(h, v, s, slot, newSecret);
    } else if !WithinReach(s, HeaderAt(h, slot)) {
      assert Decrypted(s, EnvelopeAt(h, slot), newSecret).1 == Err("Too many skipped messages");
    } else {
      PositionOfSlot(h, v.pending, s.skipped, slot);
      if slot in v.pending {
        DeliverStored(h, v, s, slot, newSecret);
        var i := Position(s.skipped, HeaderAt(h, slot));
        v' := View(v.epoch, v.delivered + {slot}, Without(v.pending, i));
        assert Passed(h, v.epoch, s.nRecv, slot);
      } else {
        UndeliveredCases(h, v, s, slot);
        if slot.epoch + 1 == v.epoch {
          v' := DeliverOnCurrentChain(h, v, s, slot, newSecret);
        } else {
          v' := DeliverOnNextChain(h, v, s, slot, newSecret);
          g := h + [NextEpoch(h, newSecret)];
          LinkedExtended(h, newSecret);
        }
      }
    }
  }
}
