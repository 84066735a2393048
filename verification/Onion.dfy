/**
 Onion routing: building a packet from the last hop backwards, peeling it hop by hop, and its size.

 Packets are byte strings in bincode's fixed-width little-endian format. Cryptographic strings are
 made of symbolic octets: a ciphertext octet remembers the key, nonce and plaintext it comes from, so
 lengths are exact while a ciphertext opens only under the agreement that sealed it.
 */
module Onion {
  import opened Common

  /** The X25519 agreement of two key pairs, given by their secrets. */
  datatype Agreement = Agreement(low: nat, high: nat)

  datatype Octet =
    | Raw(value: byte)
    | PublicOctet(secret: nat, index: nat)
    | NonceOctet(nonce: nat, index: nat)
    | CipherOctet(key: Agreement, nonce: nat, text: seq<Octet>, index: nat)

  type Octets = seq<Octet>

  datatype EncryptedPayload = EncryptedPayload(ephemeralPubkey: Octets, nonce: Octets, ciphertext: Octets)

  datatype OnionPacket = OnionPacket(layer: EncryptedPayload, routeLen: byte)

  datatype OnionLayer = OnionLayer(
    nextHop: Option<Octets>,
    innerPacket: Option<OnionPacket>,
    payload: Option<Octets>,
    padding: Octets)

  /** A hop: peer id and the secret of its published key. */
  datatype Hop = Hop(id: Octets, secret: nat)

  /** What one `encrypt_for_peer` call draws at random. */
  datatype Draw = Draw(ephemeral: nat, nonce: nat)

  const TARGET_SIZE: nat := 16 * 1024

  // --- The box ---------------------------------------------------------------------------------

  function Agree(a: nat, b: nat): Agreement {
    if a <= b then Agreement(a, b) else Agreement(b, a)
  }

  function PublicKey(secret: nat): (r: Octets)
    ensures |r| == 32
  {
    seq(32, i requires 0 <= i => PublicOctet(secret, i))
  }

  function NonceOctets(nonce: nat): (r: Octets)
    ensures |r| == 12
  {
    seq(12, i requires 0 <= i => NonceOctet(nonce, i))
  }

  /** AES-256-GCM: as long as the text, plus a 16-octet tag. */
  function Seal(key: Agreement, nonce: nat, text: Octets): (r: Octets)
    ensures |r| == |text| + 16
  {
    seq(|text| + 16, i requires 0 <= i => CipherOctet(key, nonce, text, i))
  }

  function EncryptForPeer(recipient: nat, text: Octets, draw: Draw): EncryptedPayload {
    EncryptedPayload(PublicKey(draw.ephemeral), NonceOctets(draw.nonce),
                     Seal(Agree(draw.ephemeral, recipient), draw.nonce, text))
  }

  /** The text inside a ciphertext, when the string is one made with this agreement and nonce. */
  function DecryptForMe(secret: nat, p: EncryptedPayload): (r: Result<Octets>)
    ensures r.Ok? ==> |r.value| < |p.ciphertext|
    ensures r.Err? ==> r.error == "Decryption failed"
  {
    if |p.ephemeralPubkey| == 0 || !p.ephemeralPubkey[0].PublicOctet? || |p.ciphertext| == 0
       || !p.ciphertext[0].CipherOctet?
    then Err("Decryption failed")
    else
      var sender := p.ephemeralPubkey[0].secret;
      var head := p.ciphertext[0];
      if p.ephemeralPubkey == PublicKey(sender) && p.nonce == NonceOctets(head.nonce)
         && p.ciphertext == Seal(Agree(secret, sender), head.nonce, head.text)
      then Ok(head.text)
      else Err("Decryption failed")
  }

  // --- bincode ---------------------------------------------------------------------------------

  /** The `k` low bytes of a number, least significant first. */
  function LittleEndian(n: nat, k: nat): (r: Octets)
    ensures |r| == k
  {
    if k == 0 then [] else [Raw(n % 256)] + LittleEndian(n / 256, k - 1)
  }

  function WriteBytes(b: Octets): Octets {
    LittleEndian(|b|, 8) + b
  }

  function WriteOption(o: Option<Octets>): Octets {
    match o
    case None => [Raw(0)]
    case Some(b) => [Raw(1)] + WriteBytes(b)
  }

  function WritePacket(p: OnionPacket): Octets {
    p.layer.ephemeralPubkey + (p.layer.nonce + (WriteBytes(p.layer.ciphertext) + [Raw(p.routeLen)]))
  }

  function WriteInner(o: Option<OnionPacket>): Octets {
    match o
    case None => [Raw(0)]
    case Some(p) => [Raw(1)] + WritePacket(p)
  }

  function WriteLayer(l: OnionLayer): Octets {
    WriteOption(l.nextHop) + (WriteInner(l.innerPacket) + (WriteOption(l.payload) + WriteBytes(l.padding)))
  }

  function ReadNumber(s: Octets, k: nat): Option<nat>
    requires k <= |s|
  {
    if k == 0 then Some(0)
    else if !s[0].Raw? then None
    else
      var high := ReadNumber(s[1..], k - 1);
      if high.None? then None else Some(s[0].value + 256 * high.value)
  }

  /** A parsed value and what follows it. */
  datatype Parsed<+T> = Fail | Parsed(value: T, rest: Octets)

  function ReadFixed(s: Octets, k: nat): (r: Parsed<Octets>)
    ensures r.Parsed? ==> |r.value| == k && |s| == k + |r.rest|
  {
    if |s| < k then Fail else Parsed(s[..k], s[k..])
  }

  function ReadBytes(s: Octets): (r: Parsed<Octets>)
    ensures r.Parsed? ==> |s| == 8 + |r.value| + |r.rest|
  {
    if |s| < 8 then Fail
    else
      var n := ReadNumber(s, 8);
      if n.None? then Fail else ReadFixed(s[8..], n.value)
  }

  function ReadOption(s: Octets): (r: Parsed<Option<Octets>>)
    ensures r.Parsed? ==> |r.rest| < |s|
  {
    if |s| == 0 then Fail
    else if s[0] == Raw(0) then Parsed(None, s[1..])
    else if s[0] == Raw(1) then
      var b := ReadBytes(s[1..]);
      if b.Fail? then Fail else Parsed(Some(b.value), b.rest)
    else Fail
  }

  function ReadPacket(s: Octets): (r: Parsed<OnionPacket>)
    ensures r.Parsed? ==> |WritePacket(r.value)| + |r.rest| == |s|
  {
    var key := ReadFixed(s, 32);
    if key.Fail? then Fail
    else
      var nonce := ReadFixed(key.rest, 12);
      if nonce.Fail? then Fail
      else
        var body := ReadBytes(nonce.rest);
        if body.Fail? || |body.rest| == 0 || !body.rest[0].Raw? then Fail
        else Parsed(OnionPacket(EncryptedPayload(key.value, nonce.value, body.value), body.rest[0].value),
                    body.rest[1..])
  }

  function ReadInner(s: Octets): (r: Parsed<Option<OnionPacket>>)
    ensures r.Parsed? ==> |r.rest| < |s|
    ensures r.Parsed? && r.value.Some? ==> |WritePacket(r.value.value)| < |s|
  {
    if |s| == 0 then Fail
    else if s[0] == Raw(0) then Parsed(None, s[1..])
    else if s[0] == Raw(1) then
      var p := ReadPacket(s[1..]);
      if p.Fail? then Fail else Parsed(Some(p.value), p.rest)
    else Fail
  }

  /** `bincode::deserialize`, which ignores trailing bytes. */
  function ReadLayer(s: Octets): (r: Result<OnionLayer>)
    ensures r.Ok? && r.value.innerPacket.Some? ==> |WritePacket(r.value.innerPacket.value)| < |s|
    ensures r.Err? ==> r.error == "onion deserialize failed"
  {
    var hop := ReadOption(s);
    if hop.Fail? then Err("onion deserialize failed")
    else
      var inner := ReadInner(hop.rest);
      if inner.Fail? then Err("onion deserialize failed")
      else
        var payload := ReadOption(inner.rest);
        if payload.Fail? then Err("onion deserialize failed")
        else
          var padding := ReadBytes(payload.rest);
          if padding.Fail? then Err("onion deserialize failed")
          else Ok(OnionLayer(hop.value, inner.value, payload.value, padding.value))
  }

  // --- Wrapping and peeling --------------------------------------------------------------------

  function Zeros(n: nat): (r: Octets)
    ensures |r| == n
  {
    seq(n, _ => Raw(0))
  }

  /** Padding computed from the size of the unpadded layer; the subtraction can underflow. */
  function PadLayer(l: OnionLayer): Result<OnionLayer> {
    var size := |WriteLayer(l)|;
    if size >= TARGET_SIZE then Ok(l)
    else if size > TARGET_SIZE - 8 then Err("attempt to subtract with overflow")
    else Ok(l.(padding := Zeros(TARGET_SIZE - size - 8)))
  }

  /** The layer of hop `i` before padding, around the packet for the hops after it. */
  function BareLayer(route: seq<Hop>, i: nat, inner: Option<OnionPacket>, payload: Option<Octets>): OnionLayer {
    OnionLayer(if i + 1 < |route| then Some(route[i + 1].id) else None, inner, payload, [])
  }

  function SealLayer(route: seq<Hop>, i: nat, l: OnionLayer, draw: Draw): OnionPacket
    requires i < |route|
  {
    OnionPacket(EncryptForPeer(route[i].secret, WriteLayer(l), draw), |route| % 256)
  }

  /** The padded layer that hop `i` is meant to read. */
  function LayerAt(route: seq<Hop>, payload: Octets, draws: seq<Draw>, i: nat): Result<OnionLayer>
    requires i < |route| == |draws|
    decreases |route| - i, 0
  {
    if i + 1 == |route| then PadLayer(BareLayer(route, i, None, Some(payload)))
    else
      var inner := WrapFrom(route, payload, draws, i + 1);
      if inner.Err? then Err(inner.error)
      else PadLayer(BareLayer(route, i, Some(inner.value), None))
  }

  /** The packet that enters the route at hop `i`. */
  function WrapFrom(route: seq<Hop>, payload: Octets, draws: seq<Draw>, i: nat): Result<OnionPacket>
    requires i < |route| == |draws|
    decreases |route| - i, 1
  {
    var l := LayerAt(route, payload, draws, i);
    if l.Err? then Err(l.error) else Ok(SealLayer(route, i, l.value, draws[i]))
  }

  method WrapOnion(route: seq<Hop>, payload: Octets, draws: seq<Draw>) returns (r: Result<OnionPacket>)
    requires |draws| == |route|
    ensures r == if |route| == 0 then Err("empty onion route") else WrapFrom(route, payload, draws, 0)
  {
    var nextPacket: Option<OnionPacket> := None;
    var nextPayload := Some(payload);
    var i := |route|;
    while i > 0
      invariant 0 <= i <= |route|
      invariant i == |route| ==> nextPacket == None && nextPayload == Some(payload)
      invariant i < |route| ==> nextPacket.Some? && nextPayload == None
                                && WrapFrom(route, payload, draws, i) == Ok(nextPacket.value)
    {
      i := i - 1;
      var layer := BareLayer(route, i, nextPacket, nextPayload);
      nextPayload := None;
      var padded := PadLayer(layer);
      if padded.Err? {
        ErrorsPropagate(route, payload, draws, i, 0);
        return Err(padded.error);
      }
      nextPacket := Some(SealLayer(route, i, padded.value, draws[i]));
    }
    if nextPacket.None? {
      return Err("empty onion route");
    }
    r := Ok(nextPacket.value);
  }

  lemma {:induction false} ErrorsPropagate(route: seq<Hop>, payload: Octets, draws: seq<Draw>, i: nat, j: nat)
    requires j <= i < |route| == |draws| && WrapFrom(route, payload, draws, i).Err?
    ensures WrapFrom(route, payload, draws, j) == WrapFrom(route, payload, draws, i)
    decreases i - j
  {
    hide PadLayer, SealLayer, BareLayer;
    if j < i {
      ErrorsPropagate(route, payload, draws, i, j + 1);
    }
  }

  function PeelOnion(secret: nat, packet: OnionPacket): (r: Result<OnionLayer>)
    ensures r.Ok? && r.value.innerPacket.Some? ==>
      |WritePacket(r.value.innerPacket.value)| < |packet.layer.ciphertext|
  {
    var text := DecryptForMe(secret, packet.layer);
    if text.Err? then Err(text.error) else ReadLayer(text.value)
  }

  // --- Sizes -----------------------------------------------------------------------------------

  /** Size of the text sealed for hop `i`, when the innermost layer is padded. */
  function TextSize(route: seq<Hop>, i: nat): nat
    requires i < |route|
    decreases |route| - i
  {
    if i + 1 == |route| then TARGET_SIZE - 8
    else 88 + |route[i + 1].id| + TextSize(route, i + 1)
  }

  /** Unpadded size of the innermost layer. */
  function InnermostSize(payload: Octets): nat {
    19 + |payload|
  }

  lemma OuterSize(route: seq<Hop>, i: nat, p: OnionPacket)
    requires i + 1 < |route|
    requires |p.layer.ephemeralPubkey| == 32 && |p.layer.nonce| == 12
    ensures |WriteLayer(BareLayer(route, i, Some(p), None))| == 72 + |route[i + 1].id| + |p.layer.ciphertext|
  {
    assert |WritePacket(p)| == 53 + |p.layer.ciphertext|;
  }

  /** Every layer but the innermost is over the target size already, so it is never padded. */
  lemma {:induction false} OuterLayersUnpadded(route: seq<Hop>, payload: Octets, draws: seq<Draw>, i: nat)
    requires i < |route| == |draws|
    ensures var r := LayerAt(route, payload, draws, i);
      && (r.Ok? <==> InnermostSize(payload) <= TARGET_SIZE - 8 || TARGET_SIZE <= InnermostSize(payload))
      && (r.Err? ==> r.error == "attempt to subtract with overflow")
      && (r.Ok? ==> |WriteLayer(r.value)| >= TARGET_SIZE - 8)
      && (r.Ok? && i + 1 < |route| ==>
            && r.value.padding == []
            && LayerAt(route, payload, draws, i + 1).Ok?
            && |WriteLayer(r.value)| == 88 + |route[i + 1].id|
                                        + |WriteLayer(LayerAt(route, payload, draws, i + 1).value)|)
    decreases |route| - i
  {
    if i + 1 == |route| {
      assert |WriteLayer(BareLayer(route, i, None, Some(payload)))| == InnermostSize(payload);
    } else {
      OuterLayersUnpadded(route, payload, draws, i + 1);
      var inner := WrapFrom(route, payload, draws, i + 1);
      if inner.Ok? {
        OuterSize(route, i, inner.value);
      }
    }
  }

  /** Wrapping fails exactly for payloads of 16358 to 16364 bytes, where the padding's length underflows. */
  lemma WrapSucceedsIff(route: seq<Hop>, payload: Octets, draws: seq<Draw>)
    requires 0 < |route| == |draws|
    ensures var r := WrapFrom(route, payload, draws, 0);
      && (r.Err? <==> 16358 <= |payload| <= 16364)
      && (r.Err? ==> r.error == "attempt to subtract with overflow")
  {
    OuterLayersUnpadded(route, payload, draws, 0);
  }

  /** A payload that fits is padded to 16376 bytes, eight short of the 16 KiB the code aims at. */
  lemma InnermostPadded(route: seq<Hop>, payload: Octets, draws: seq<Draw>)
    requires 0 < |route| == |draws| && InnermostSize(payload) <= TARGET_SIZE - 8
    ensures var r := LayerAt(route, payload, draws, |route| - 1);
      r.Ok? && |WriteLayer(r.value)| == 16376
  {
    assert |WriteLayer(BareLayer(route, |route| - 1, None, Some(payload)))| == InnermostSize(payload);
  }

  /**
   Padding is zeros, on the innermost layer only: enough of them to reach 16376 bytes, and none for a payload
   that takes the layer to 16384 bytes or more.
   */
  lemma PaddingOf(route: seq<Hop>, payload: Octets, draws: seq<Draw>, i: nat)
    requires i < |route| == |draws| && LayerAt(route, payload, draws, i).Ok?
    ensures var padding := LayerAt(route, payload, draws, i).value.padding;
      && |padding| == (if i + 1 == |route| && 19 + |payload| <= 16376 then 16376 - 19 - |payload| else 0)
      && (forall j :: 0 <= j < |padding| ==> padding[j] == Raw(0))
  {
    hide WriteLayer;
    OuterLayersUnpadded(route, payload, draws, i);
    if i + 1 == |route| {
      InnermostBare(route, payload, i);
    }
  }

  lemma InnermostBare(route: seq<Hop>, payload: Octets, i: nat)
    requires i + 1 == |route|
    ensures |WriteLayer(BareLayer(route, i, None, Some(payload)))| == InnermostSize(payload)
  {
  }

  /** Every layer is boxed for its own hop, with its own ephemeral key and nonce, and carries the route's length. */
  lemma BoxedPerHop(route: seq<Hop>, payload: Octets, draws: seq<Draw>, i: nat)
    requires i < |route| == |draws| && LayerAt(route, payload, draws, i).Ok?
    ensures var packet := WrapFrom(route, payload, draws, i);
      && packet.Ok?
      && packet.value.layer.ephemeralPubkey == PublicKey(draws[i].ephemeral)
      && packet.value.layer.nonce == NonceOctets(draws[i].nonce)
      && packet.value.layer.ciphertext ==
           Seal(Agree(draws[i].ephemeral, route[i].secret), draws[i].nonce,
                WriteLayer(LayerAt(route, payload, draws, i).value))
      && packet.value.routeLen == |route| % 256
  {
    hide LayerAt, Seal, WriteLayer;
  }

  lemma {:induction false} LayerSizes(route: seq<Hop>, payload: Octets, draws: seq<Draw>, i: nat)
    requires i < |route| == |draws| && InnermostSize(payload) <= TARGET_SIZE - 8
    ensures LayerAt(route, payload, draws, i).Ok?
    ensures |WriteLayer(LayerAt(route, payload, draws, i).value)| == TextSize(route, i)
    decreases |route| - i
  {
    OuterLayersUnpadded(route, payload, draws, i);
    if i + 1 == |route| {
      InnermostPadded(route, payload, draws);
    } else {
      LayerSizes(route, payload, draws, i + 1);
    }
  }

  /** The sum of a hop's share of the packet size, over the hops after the first. */
  function HopShares(route: seq<Hop>): nat {
    if |route| <= 1 then 0 else 88 + |route[|route| - 1].id| + HopShares(route[..|route| - 1])
  }

  lemma {:induction false} TextSizeClosedForm(route: seq<Hop>, i: nat)
    requires i < |route|
    ensures TextSize(route, 0) == TextSize(route, i) + HopShares(route[..i + 1])
    decreases i
  {
    if i > 0 {
      TextSizeClosedForm(route, i - 1);
      assert route[..i + 1][..i] == route[..i];
    }
  }

  /** The size of a whole packet depends on the route alone, by a closed form. */
  lemma PacketSize(route: seq<Hop>, payload: Octets, draws: seq<Draw>)
    requires 0 < |route| == |draws| && InnermostSize(payload) <= TARGET_SIZE - 8
    ensures var r := WrapFrom(route, payload, draws, 0);
      r.Ok? && |WritePacket(r.value)| == 16445 + HopShares(route)
  {
    LayerSizes(route, payload, draws, 0);
    TextSizeClosedForm(route, |route| - 1);
    assert route[..|route|] == route;
  }

  // --- Peeling undoes wrapping -----------------------------------------------------------------

  lemma {:induction false} NumberRoundTrip(n: nat, k: nat, rest: Octets)
    requires n < Pow256(k)
    ensures ReadNumber(LittleEndian(n, k) + rest, k) == Some(n)
  {
    if k > 0 {
      NumberRoundTrip(n / 256, k - 1, rest);
      assert (LittleEndian(n, k) + rest)[1..] == LittleEndian(n / 256, k - 1) + rest;
    }
  }

  lemma BytesRoundTrip(b: Octets, rest: Octets)
    requires |b| < Pow256(8)
    ensures ReadBytes(WriteBytes(b) + rest) == Parsed(b, rest)
  {
    NumberRoundTrip(|b|, 8, b + rest);
    assert WriteBytes(b) + rest == LittleEndian(|b|, 8) + (b + rest);
    assert (LittleEndian(|b|, 8) + (b + rest))[8..] == b + rest;
  }

  lemma OptionRoundTrip(o: Option<Octets>, rest: Octets)
    requires o.Some? ==> |o.value| < Pow256(8)
    ensures ReadOption(WriteOption(o) + rest) == Parsed(o, rest)
  {
    hide ReadBytes, WriteBytes, Pow256;
    if o.Some? {
      BytesRoundTrip(o.value, rest);
      var s := WriteOption(o) + rest;
      assert s[0] == Raw(1) && s[1..] == WriteBytes(o.value) + rest;
    } else {
      assert (WriteOption(o) + rest)[1..] == rest;
    }
  }

  lemma PacketRoundTrip(p: OnionPacket, rest: Octets)
    requires |p.layer.ephemeralPubkey| == 32 && |p.layer.nonce| == 12 && |p.layer.ciphertext| < Pow256(8)
    ensures ReadPacket(WritePacket(p) + rest) == Parsed(p, rest)
  {
    hide ReadBytes, WriteBytes, Pow256;
    var tail := [Raw(p.routeLen)] + rest;
    var body := WriteBytes(p.layer.ciphertext) + tail;
    BytesRoundTrip(p.layer.ciphertext, tail);
    var s := WritePacket(p) + rest;
    assert s == p.layer.ephemeralPubkey + (p.layer.nonce + body);
    assert s[32..] == p.layer.nonce + body;
    assert s[32..][12..] == body;
    assert tail[1..] == rest;
  }

  lemma InnerRoundTrip(o: Option<OnionPacket>, rest: Octets)
    requires o.Some? ==> var l := o.value.layer;
      |l.ephemeralPubkey| == 32 && |l.nonce| == 12 && |l.ciphertext| < Pow256(8)
    ensures ReadInner(WriteInner(o) + rest) == Parsed(o, rest)
  {
    hide ReadPacket, WritePacket;
    if o.Some? {
      PacketRoundTrip(o.value, rest);
      assert (WriteInner(o) + rest)[1..] == WritePacket(o.value) + rest;
    }
  }

  /** Deserialising a serialised layer gives it back, as long as its lengths fit in 64 bits. */
  lemma LayerRoundTrip(l: OnionLayer)
    requires |WriteLayer(l)| < Pow256(8)
    requires l.innerPacket.Some? ==>
      |l.innerPacket.value.layer.ephemeralPubkey| == 32 && |l.innerPacket.value.layer.nonce| == 12
    ensures ReadLayer(WriteLayer(l)) == Ok(l)
  {
    var padding := WriteBytes(l.padding);
    var payload := WriteOption(l.payload) + padding;
    OptionRoundTrip(l.nextHop, WriteInner(l.innerPacket) + payload);
    InnerRoundTrip(l.innerPacket, payload);
    OptionRoundTrip(l.payload, padding);
    assert padding + [] == padding;
    BytesRoundTrip(l.padding, []);
  }

  lemma BoxRoundTrip(mine: nat, recipient: nat, text: Octets, draw: Draw)
    ensures var r := DecryptForMe(mine, EncryptForPeer(recipient, text, draw));
      if mine == recipient then r == Ok(text) else r.Err?
  {
    var p := EncryptForPeer(recipient, text, draw);
    assert p.ciphertext[0] == CipherOctet(Agree(draw.ephemeral, recipient), draw.nonce, text, 0);
    assert p.ephemeralPubkey[0] == PublicOctet(draw.ephemeral, 0);
    if mine != recipient {
      assert Seal(Agree(mine, draw.ephemeral), draw.nonce, text)[0] != p.ciphertext[0];
    }
  }

  /** All lengths in the packet fit in the 64-bit length fields. */
  ghost predicate Representable(route: seq<Hop>, payload: Octets, draws: seq<Draw>)
    requires 0 < |route| == |draws|
  {
    var r := WrapFrom(route, payload, draws, 0); r.Ok? && |r.value.layer.ciphertext| < Pow256(8)
  }

  lemma {:induction false} InnerRepresentable(route: seq<Hop>, payload: Octets, draws: seq<Draw>, i: nat)
    requires 0 < |route| == |draws| && Representable(route, payload, draws) && i < |route|
    ensures WrapFrom(route, payload, draws, i).Ok?
    ensures |WrapFrom(route, payload, draws, i).value.layer.ciphertext| < Pow256(8)
    ensures LayerAt(route, payload, draws, i).Ok?
    ensures |WriteLayer(LayerAt(route, payload, draws, i).value)| < Pow256(8)
  {
    hide LayerAt, WriteLayer, Pow256;
    if i > 0 {
      InnerRepresentable(route, payload, draws, i - 1);
      OuterLayersUnpadded(route, payload, draws, i - 1);
    }
  }

  /**
   Hop `i` peels exactly its layer: the id of the next hop and the packet for it, or, at the last hop
   only, the payload. Any other key fails on that layer. Every packet on the way carries the route length.
   */
  lemma PeelAtHop(route: seq<Hop>, payload: Octets, draws: seq<Draw>, i: nat, secret: nat)
    requires 0 < |route| == |draws| && Representable(route, payload, draws) && i < |route|
    ensures var packet := WrapFrom(route, payload, draws, i);
      && packet.Ok?
      && packet.value.routeLen == |route| % 256
      && var r := PeelOnion(secret, packet.value);
         if secret != route[i].secret then r == Err("Decryption failed")
         else
           && r.Ok?
           && r.value.nextHop == (if i + 1 < |route| then Some(route[i + 1].id) else None)
           && r.value.payload == (if i + 1 < |route| then None else Some(payload))
           && (if i + 1 < |route| then
                 WrapFrom(route, payload, draws, i + 1).Ok?
                 && r.value.innerPacket == Some(WrapFrom(route, payload, draws, i + 1).value)
               else r.value.innerPacket.None?)
  {
    hide Representable, WriteLayer, ReadLayer, DecryptForMe, Pow256;
    InnerRepresentable(route, payload, draws, i);
    var l := LayerAt(route, payload, draws, i).value;
    BoxRoundTrip(secret, route[i].secret, WriteLayer(l), draws[i]);
    LayerRoundTrip(l);
  }

  // --- Forwarding ------------------------------------------------------------------------------

  datatype Handling = Forward(next: Octets, wire: Octets) | Deliver(payload: Octets) | Drop

  /** What a node does with the bytes of an `OnionForward` request, given which strings parse as peer ids. */
  function Handle(isPeerId: Octets -> bool, secret: nat, wire: Octets): (r: Handling)
    ensures r.Forward? ==> |r.wire| < |wire|
  {
    var packet := ReadPacket(wire);
    if packet.Fail? then Drop
    else
      var layer := PeelOnion(secret, packet.value);
      if layer.Err? then Drop
      else if layer.value.nextHop.Some? then
        if layer.value.innerPacket.Some? && isPeerId(layer.value.nextHop.value)
        then Forward(layer.value.nextHop.value, WritePacket(layer.value.innerPacket.value))
        else Drop
      else if layer.value.payload.Some? then Deliver(layer.value.payload.value)
      else Drop
  }

  /** The bytes that arrive at hop `i`. */
  function WireAt(route: seq<Hop>, payload: Octets, draws: seq<Draw>, i: nat): Octets
    requires i < |route| == |draws|
  {
    var packet := WrapFrom(route, payload, draws, i);
    if packet.Ok? then WritePacket(packet.value) else []
  }

  lemma WireRead(route: seq<Hop>, payload: Octets, draws: seq<Draw>, i: nat)
    requires 0 < |route| == |draws| && Representable(route, payload, draws) && i < |route|
    ensures WrapFrom(route, payload, draws, i).Ok?
    ensures ReadPacket(WireAt(route, payload, draws, i)) == Parsed(WrapFrom(route, payload, draws, i).value, [])
  {
    hide ReadPacket, Pow256, LayerAt, WriteLayer, Seal, Representable;
    InnerRepresentable(route, payload, draws, i);
    var p := WrapFrom(route, payload, draws, i).value;
    PacketRoundTrip(p, []);
    assert WritePacket(p) + [] == WritePacket(p);
  }

  /**
   A hop that receives the bytes of its packet sends the bytes of the inner packet to the next hop, if that
   hop's id parses as a peer id, and drops it otherwise; the last hop takes the payload.
   */
  lemma HandleAtHop(isPeerId: Octets -> bool, route: seq<Hop>, payload: Octets, draws: seq<Draw>, i: nat)
    requires 0 < |route| == |draws| && Representable(route, payload, draws) && i < |route|
    ensures Handle(isPeerId, route[i].secret, WireAt(route, payload, draws, i)) ==
      if i + 1 == |route| then Deliver(payload)
      else if isPeerId(route[i + 1].id) then Forward(route[i + 1].id, WireAt(route, payload, draws, i + 1))
      else Drop
  {
    hide WrapFrom, PeelOnion, Representable, ReadPacket, WritePacket;
    WireRead(route, payload, draws, i);
    PeelAtHop(route, payload, draws, i, route[i].secret);
  }

  /** The nodes that handle a wire packet, from `at` on, and the payload it leaves at the last one. */
  function Travel(isPeerId: Octets -> bool, secrets: map<Octets, nat>, at: Octets, wire: Octets)
    : (seq<Octets>, Option<Octets>)
    decreases |wire|
  {
    if at !in secrets then ([at], None)
    else match Handle(isPeerId, secrets[at], wire)
         case Drop => ([at], None)
         case Deliver(payload) => ([at], Some(payload))
         case Forward(next, inner) =>
           var (visited, payload) := Travel(isPeerId, secrets, next, inner);
           ([at] + visited, payload)
  }

  function Ids(route: seq<Hop>): (r: seq<Octets>)
    ensures |r| == |route| && forall i :: 0 <= i < |route| ==> r[i] == route[i].id
  {
    seq(|route|, i requires 0 <= i < |route| => route[i].id)
  }

  /** How many hops, from hop `i` on, a packet reaches: those before the first later id that does not parse. */
  function Reach(isPeerId: Octets -> bool, route: seq<Hop>, i: nat): (r: nat)
    requires i < |route|
    ensures i < r <= |route|
    ensures forall j :: i < j < r ==> isPeerId(route[j].id)
    ensures r < |route| ==> !isPeerId(route[r].id)
    decreases |route| - i
  {
    if i + 1 < |route| && isPeerId(route[i + 1].id) then Reach(isPeerId, route, i + 1) else i + 1
  }

  lemma IdsSplit(route: seq<Hop>, i: nat, reach: nat)
    requires i < reach <= |route|
    ensures Ids(route)[i..reach] == [route[i].id] + Ids(route)[i + 1..reach]
  {
  }

  lemma IdsOne(route: seq<Hop>, i: nat)
    requires i < |route|
    ensures Ids(route)[i..i + 1] == [route[i].id]
  {
  }

  lemma {:induction false} TravelFrom(isPeerId: Octets -> bool, secrets: map<Octets, nat>, route: seq<Hop>,
                                      payload: Octets, draws: seq<Draw>, i: nat)
    requires 0 < |route| == |draws| && Representable(route, payload, draws) && i < |route|
    requires forall j :: 0 <= j < |route| ==> route[j].id in secrets && secrets[route[j].id] == route[j].secret
    ensures var reach := Reach(isPeerId, route, i);
      Travel(isPeerId, secrets, route[i].id, WireAt(route, payload, draws, i))
        == (Ids(route)[i..reach], if reach == |route| then Some(payload) else None)
    decreases |route| - i
  {
    hide WireAt, Handle, Representable, Ids;
    HandleAtHop(isPeerId, route, payload, draws, i);
    var reach := Reach(isPeerId, route, i);
    if i + 1 < |route| && isPeerId(route[i + 1].id) {
      TravelFrom(isPeerId, secrets, route, payload, draws, i + 1);
      IdsSplit(route, i, reach);
    } else {
      assert reach == i + 1;
      IdsOne(route, i);
    }
  }

  /**
   On the wire, a wrapped packet visits the hops of its route in order. It leaves the payload at the last hop
   exactly when every id after the first hop's parses; otherwise it ends at the hop before the first bad id.
   */
  lemma RouteTravelled(isPeerId: Octets -> bool, secrets: map<Octets, nat>, route: seq<Hop>, payload: Octets,
                       draws: seq<Draw>)
    requires 0 < |route| == |draws| && Representable(route, payload, draws)
    requires forall j :: 0 <= j < |route| ==> route[j].id in secrets && secrets[route[j].id] == route[j].secret
    ensures var (visited, received) :=
        Travel(isPeerId, secrets, route[0].id, WireAt(route, payload, draws, 0));
      && 0 < |visited| <= |route| && visited == Ids(route)[..|visited|]
      && (|visited| < |route| ==> !isPeerId(route[|visited|].id))
      && (forall j :: 0 < j < |visited| ==> isPeerId(route[j].id))
      && received == if (forall j :: 0 < j < |route| ==> isPeerId(route[j].id)) then Some(payload) else None
  {
    hide Travel, Representable, WireAt;
    TravelFrom(isPeerId, secrets, route, payload, draws, 0);
  }
}
