/** The life of a room invite: storing it, accepting it up to its use limit, and revoking it. */
module Invites {
  import opened Common

  /**
   A signed invite. The last three say whether the issuer's public key decodes, whether it belongs to the
   issuer's peer id, and whether it verifies the signature.
   */
  datatype Token = Token(
    roomId: string, roomPassword: Option<string>, issuer: string,
    expiresAt: Option<int>, maxUses: Option<nat>, nonce: nat,
    keyDecodes: bool, keyIsIssuers: bool, signed: bool)

  /** SHA-256 over everything in a token, as a free term. */
  datatype InviteId = InviteId(token: Token)

  datatype Row = Row(roomId: string, tokenJson: Token, revoked: bool, uses: nat)

  type Table = map<InviteId, Row>

  function IdOf(t: Token): InviteId {
    InviteId(t)
  }

  predicate Expired(t: Token, now: int) {
    t.expiresAt.Some? && t.expiresAt.value < now
  }

  function Saved(table: Table, t: Token): Table {
    var id := IdOf(t);
    table[id := if id in table then table[id].(tokenJson := t) else Row(t.roomId, t, false, 0)]
  }

  function Incremented(table: Table, id: InviteId): Table {
    if id in table then table[id := table[id].(uses := table[id].uses + 1)] else table
  }

  function RevokedIn(table: Table, id: InviteId): Table {
    if id in table then table[id := table[id].(revoked := true)] else table
  }

  predicate Authentic(t: Token) {
    t.keyDecodes && t.keyIsIssuers && t.signed
  }

  /** What the database says of the issuer, if it answers, and the trust that an invite needs. */
  datatype Standing = Standing(settings: Option<PeerSettings>, minTrust: int)

  predicate Trusted(issuer: Standing) {
    if issuer.settings.Some? then !issuer.settings.value.blocked && issuer.settings.value.trustLevel >= issuer.minTrust
    else issuer.minTrust <= 0
  }

  /** Why an accept is refused, or the room it opens. */
  function AcceptOutcome(table: Table, t: Token, now: int, issuer: Standing): Result<(string, Option<string>)> {
    var id := IdOf(t);
    if !t.keyDecodes then Err("invalid public key")
    else if !t.keyIsIssuers then Err("invite issuer public key does not match issuer peer id")
    else if !t.signed then Err("invite signature rejected")
    else if Expired(t, now) then Err("Invite expired")
    else if issuer.settings.Some? && !Trusted(issuer) then Err("Invite issuer is blocked or below trust threshold")
    else if issuer.settings.None? && !Trusted(issuer) then Err("Invite issuer does not meet trust threshold")
    else if id in table && table[id].revoked then Err("Invite revoked")
    else if id in table && t.maxUses.Some? && table[id].uses >= t.maxUses.value then Err("Invite use limit reached")
    else Ok((t.roomId, t.roomPassword))
  }

  /** The `room_invites` and group tables behind the invite commands. */
  class InviteDb {
    var rows: Table
    var groups: map<string, Option<string>>

    constructor ()
      ensures rows == map[] && groups == map[]
    {
      rows := map[];
      groups := map[];
    }

    method SaveInvite(t: Token)
      modifies this`rows
      ensures rows == Saved(old(rows), t)
    {
      var id := IdOf(t);
      if id in rows {
        rows := rows[id := rows[id].(tokenJson := t)];
      } else {
        rows := rows[id := Row(t.roomId, t, false, 0)];
      }
    }

    method GetInviteState(id: InviteId) returns (r: Option<(bool, nat)>)
      ensures r == if id in rows then Some((rows[id].revoked, rows[id].uses)) else None
    {
      if id in rows {
        return Some((rows[id].revoked, rows[id].uses));
      }
      r := None;
    }

    method IncrementInviteUse(id: InviteId)
      modifies this`rows
      ensures rows == Incremented(old(rows), id)
    {
      if id in rows {
        rows := rows[id := rows[id].(uses := rows[id].uses + 1)];
      }
    }

    method RevokeInvite(id: InviteId)
      modifies this`rows
      ensures rows == RevokedIn(old(rows), id)
    {
      if id in rows {
        rows := rows[id := rows[id].(revoked := true)];
      }
    }

    method AcceptInvite(t: Token, now: int, issuer: Standing) returns (r: Result<(string, Option<string>)>)
      modifies this
      ensures r == AcceptOutcome(old(rows), t, now, issuer)
      ensures rows == if r.Ok? then Incremented(old(rows), IdOf(t)) else old(rows)
      ensures groups == if r.Ok? then old(groups)[t.roomId := t.roomPassword] else old(groups)
    {
      if !t.keyDecodes {
        return Err("invalid public key");
      }
      if !t.keyIsIssuers {
        return Err("invite issuer public key does not match issuer peer id");
      }
      if !t.signed {
        return Err("invite signature rejected");
      }
      if Expired(t, now) {
        return Err("Invite expired");
      }
      if issuer.settings.Some? {
        var settings := issuer.settings.value;
        if settings.blocked || settings.trustLevel < issuer.minTrust {
          return Err("Invite issuer is blocked or below trust threshold");
        }
      } else if issuer.minTrust > 0 {
        return Err("Invite issuer does not meet trust threshold");
      }
      var id := IdOf(t);
      var state := GetInviteState(id);
      if state.Some? {
        var (revoked, uses) := state.value;
        if revoked {
          return Err("Invite revoked");
        }
        if t.maxUses.Some? && uses >= t.maxUses.value {
          return Err("Invite use limit reached");
        }
      }
      groups := groups[t.roomId := t.roomPassword];
      state := GetInviteState(id);
      if state.Some? {
        IncrementInviteUse(id);
      }
      r := Ok((t.roomId, t.roomPassword));
    }
  }

  // --- Runs ------------------------------------------------------------------------------------

  datatype Action =
    | Create(token: Token)
    | Accept(token: Token, now: int, issuer: Standing)
    | Revoke(id: InviteId)

  /** The table, and the ids of all successful accepts made while the invite was stored. */
  datatype State = State(table: Table, accepts: seq<InviteId>)

  function Step(s: State, a: Action): State {
    match a
    case Create(t) => s.(table := Saved(s.table, t))
    case Revoke(id) => s.(table := RevokedIn(s.table, id))
    case Accept(t, now, issuer) =>
      var id := IdOf(t);
      if AcceptOutcome(s.table, t, now, issuer).Err? || id !in s.table then s
      else State(Incremented(s.table, id), s.accepts + [id])
  }

  function Run(actions: seq<Action>): State {
    if |actions| == 0 then State(map[], [])
    else Step(Run(actions[..|actions| - 1]), actions[|actions| - 1])
  }

  /** The commands played on a database do what the run says, and leave its table. */
  method Perform(actions: seq<Action>) returns (db: InviteDb, outcomes: seq<Result<(string, Option<string>)>>)
    ensures db.rows == Run(actions).table && |outcomes| == |actions|
    ensures forall i :: 0 <= i < |actions| && actions[i].Accept? ==>
      var a := actions[i]; outcomes[i] == AcceptOutcome(Run(actions[..i]).table, a.token, a.now, a.issuer)
  {
    hide AcceptOutcome, Saved, RevokedIn;
    db := new InviteDb();
    outcomes := [];
    for i := 0 to |actions|
      invariant db.rows == Run(actions[..i]).table
      invariant |outcomes| == i
      invariant forall j :: 0 <= j < i && actions[j].Accept? ==>
        var a := actions[j]; outcomes[j] == AcceptOutcome(Run(actions[..j]).table, a.token, a.now, a.issuer)
    {
      var a := actions[i];
      var outcome := Err("");
      match a {
        case Create(t) => db.SaveInvite(t);
        case Revoke(id) => db.RevokeInvite(id);
        case Accept(t, now, issuer) => outcome := db.AcceptInvite(t, now, issuer);
      }
      outcomes := outcomes + [outcome];
      assert actions[..i + 1][..i] == actions[..i];
    }
    assert actions[..|actions|] == actions;
  }

  function Count(ids: seq<InviteId>, id: InviteId): nat {
    if |ids| == 0 then 0
    else Count(ids[..|ids| - 1], id) + if ids[|ids| - 1] == id then 1 else 0
  }

  ghost predicate UsesMatch(s: State, id: InviteId) {
    && Count(s.accepts, id) == (if id in s.table then s.table[id].uses else 0)
    && (id in s.table && id.token.maxUses.Some? ==> s.table[id].uses <= id.token.maxUses.value)
  }

  lemma CountAppend(ids: seq<InviteId>, last: InviteId, id: InviteId)
    ensures Count(ids + [last], id) == Count(ids, id) + if last == id then 1 else 0
  {
    assert (ids + [last])[..|ids|] == ids;
  }

  lemma StepKeepsUses(s: State, a: Action, id: InviteId)
    requires UsesMatch(s, id)
    ensures UsesMatch(Step(s, a), id)
  {
    hide Count;
    if a.Accept? {
      CountAppend(s.accepts, IdOf(a.token), id);
    }
  }

  /**
   In every run, the use counter of a stored invite is the number of times it was accepted, and it never
   passes the limit that the invite was issued with.
   */
  lemma {:induction false} UsesCountAccepts(actions: seq<Action>, id: InviteId)
    ensures var s := Run(actions);
      && Count(s.accepts, id) == (if id in s.table then s.table[id].uses else 0)
      && (id in s.table && id.token.maxUses.Some? ==> s.table[id].uses <= id.token.maxUses.value)
  {
    hide Step;
    if |actions| > 0 {
      UsesCountAccepts(actions[..|actions| - 1], id);
      StepKeepsUses(Run(actions[..|actions| - 1]), actions[|actions| - 1], id);
    }
  }

  /** A revocation of the invite that came after the invite had been stored. */
  ghost predicate RevokedAfterCreation(actions: seq<Action>, id: InviteId) {
    exists i, j :: 0 <= i < j < |actions| && actions[i] == Create(id.token) && actions[j] == Revoke(id)
  }

  ghost predicate CreatedIn(actions: seq<Action>, id: InviteId) {
    Create(id.token) in actions
  }

  /**
   In every run, an invite is stored exactly when it was created, and revoked exactly when a revocation
   came after its creation: saving it again does not undo that, and revoking it earlier has no effect.
   */
  lemma {:induction false} RevokedIffAfterCreation(actions: seq<Action>, id: InviteId)
    ensures var s := Run(actions);
      && (id in s.table <==> CreatedIn(actions, id))
      && (id in s.table ==> (s.table[id].revoked <==> RevokedAfterCreation(actions, id)))
      && (id in s.table ==> s.table[id].tokenJson == id.token && s.table[id].roomId == id.token.roomId)
  {
    if |actions| > 0 {
      var before, last := actions[..|actions| - 1], actions[|actions| - 1];
      RevokedIffAfterCreation(before, id);
      CreatedStep(actions, id);
      RevokedStep(actions, id);
    }
  }

  lemma CreatedStep(actions: seq<Action>, id: InviteId)
    requires |actions| > 0
    ensures var (before, last) := (actions[..|actions| - 1], actions[|actions| - 1]);
      CreatedIn(actions, id) <==> CreatedIn(before, id) || last == Create(id.token)
  {
    assert actions == actions[..|actions| - 1] + [actions[|actions| - 1]];
  }

  lemma RevokedStep(actions: seq<Action>, id: InviteId)
    requires |actions| > 0
    ensures var (before, last) := (actions[..|actions| - 1], actions[|actions| - 1]);
      RevokedAfterCreation(actions, id) <==>
        RevokedAfterCreation(before, id) || (CreatedIn(before, id) && last == Revoke(id))
  {
    var before, last := actions[..|actions| - 1], actions[|actions| - 1];
    if RevokedAfterCreation(before, id) {
      var i, j :| 0 <= i < j < |before| && before[i] == Create(id.token) && before[j] == Revoke(id);
      assert actions[i] == Create(id.token) && actions[j] == Revoke(id);
    }
    if CreatedIn(before, id) && last == Revoke(id) {
      var i :| 0 <= i < |before| && before[i] == Create(id.token);
      assert actions[i] == Create(id.token) && actions[|actions| - 1] == Revoke(id);
    }
    if RevokedAfterCreation(actions, id) {
      var i, j :| 0 <= i < j < |actions| && actions[i] == Create(id.token) && actions[j] == Revoke(id);
      assert before[i] == Create(id.token);
      if j < |before| {
        assert before[j] == Revoke(id);
      }
    }
  }

  /**
   After any run, a stored invite that is authentic, in time and trusted is accepted exactly when no
   revocation followed its creation and its accepts so far are below its limit.
   */
  lemma StoredAcceptedIff(actions: seq<Action>, t: Token, now: int, issuer: Standing)
    requires CreatedIn(actions, IdOf(t)) && Authentic(t) && !Expired(t, now) && Trusted(issuer)
    ensures var s := Run(actions);
      AcceptOutcome(s.table, t, now, issuer).Ok? <==>
        && !RevokedAfterCreation(actions, IdOf(t))
        && (t.maxUses.Some? ==> Count(s.accepts, IdOf(t)) < t.maxUses.value)
  {
    RevokedIffAfterCreation(actions, IdOf(t));
    UsesCountAccepts(actions, IdOf(t));
  }

  /**
   After any run, an accept succeeds exactly when: the issuer's public key decodes, belongs to the issuer and
   verifies the signature; the invite has no expiry or one that is not past; the issuer is not blocked and has
   the trust that invites need, or is unknown while they need none; and, if the invite was created here, no
   revocation followed and its accepts are below its limit. It gives the room and password of the invite.
   */
  lemma AcceptedIff(actions: seq<Action>, t: Token, now: int, issuer: Standing)
    ensures var s := Run(actions); var r := AcceptOutcome(s.table, t, now, issuer);
      && (r.Ok? <==>
            && t.keyDecodes && t.keyIsIssuers && t.signed
            && (t.expiresAt.Some? ==> now <= t.expiresAt.value)
            && (issuer.settings.Some? ==>
                  !issuer.settings.value.blocked && issuer.minTrust <= issuer.settings.value.trustLevel)
            && (issuer.settings.None? ==> issuer.minTrust <= 0)
            && (CreatedIn(actions, IdOf(t)) ==>
                  && !RevokedAfterCreation(actions, IdOf(t))
                  && (t.maxUses.Some? ==> Count(s.accepts, IdOf(t)) < t.maxUses.value)))
      && (r.Ok? ==> r.value == (t.roomId, t.roomPassword))
  {
    hide Run, Count, RevokedAfterCreation, CreatedIn;
    RevokedIffAfterCreation(actions, IdOf(t));
    UsesCountAccepts(actions, IdOf(t));
  }

  /** After any run, the message of a refusal names the first of these reasons that applies. */
  lemma RefusedWhy(actions: seq<Action>, t: Token, now: int, issuer: Standing)
    ensures var s := Run(actions); var r := AcceptOutcome(s.table, t, now, issuer);
      var blocked := issuer.settings.Some?
                     && (issuer.settings.value.blocked || issuer.settings.value.trustLevel < issuer.minTrust);
      var reason :=
        if !t.keyDecodes then "invalid public key"
        else if !t.keyIsIssuers then "invite issuer public key does not match issuer peer id"
        else if !t.signed then "invite signature rejected"
        else if t.expiresAt.Some? && t.expiresAt.value < now then "Invite expired"
        else if blocked then "Invite issuer is blocked or below trust threshold"
        else if issuer.settings.None? && issuer.minTrust > 0 then "Invite issuer does not meet trust threshold"
        else if RevokedAfterCreation(actions, IdOf(t)) then "Invite revoked"
        else "Invite use limit reached";
      r.Err? ==> r.error == reason
  {
    hide Run, Count, RevokedAfterCreation, CreatedIn;
    RevokedIffAfterCreation(actions, IdOf(t));
    RevokedWasCreated(actions, IdOf(t));
  }

  lemma RevokedWasCreated(actions: seq<Action>, id: InviteId)
    ensures RevokedAfterCreation(actions, id) ==> CreatedIn(actions, id)
  {
  }

  /** Where the invite was never stored, as at a peer other than its creator, neither limit nor revocation applies. */
  lemma UnstoredAlwaysAccepted(actions: seq<Action>, t: Token, now: int, issuer: Standing)
    requires !CreatedIn(actions, IdOf(t)) && Authentic(t) && !Expired(t, now) && Trusted(issuer)
    ensures AcceptOutcome(Run(actions).table, t, now, issuer).Ok?
  {
    RevokedIffAfterCreation(actions, IdOf(t));
  }
}
