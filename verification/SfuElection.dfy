/** Electing the participant that hosts a group call: a scan for the greatest (capacity, id). */
module SfuElection {
  import opened Common

  /** A participant's claim to host: its capacity, then its id. */
  datatype Claim = Claim(score: int, id: Id)

  predicate Beats(a: Claim, b: Claim) {
    a.score > b.score || (a.score == b.score && !AtMost(a.id, b.id))
  }

  lemma BeatsStrictOrder(a: Claim, b: Claim)
    ensures Beats(a, b) || Beats(b, a) <==> a != b
    ensures !(Beats(a, b) && Beats(b, a))
  {
    AtMostTotalOrder(a.id, b.id);
  }

  lemma UnbeatenTransitive(a: Claim, b: Claim, c: Claim)
    requires !Beats(a, b) && !Beats(b, c)
    ensures !Beats(a, c)
  {
    if a.score == c.score {
      AtMostTransitive(a.id, b.id, c.id);
    }
  }

  /** The claim standing after scanning the peers in the given order. */
  function Scan(peers: seq<Id>, capacities: map<Id, int>, first: Claim): (r: Claim)
    requires forall p :: p in peers ==> p in capacities
  {
    if |peers| == 0 then first
    else
      var standing := Scan(peers[..|peers| - 1], capacities, first);
      var last := peers[|peers| - 1];
      var claim := Claim(capacities[last], last);
      if Beats(claim, standing) then claim else standing
  }

  /** The id that a voter starts from: the preferred one when there is one. */
  function Name(me: Id, preferred: Id): Id {
    if preferred != [] then preferred else me
  }

  /** The first claim of a participant: its own capacity, under the id it starts from. */
  function FirstClaim(myCapacity: int, myId: Id, preferred: Id): Claim {
    Claim(myCapacity, Name(myId, preferred))
  }

  function Elected(peers: seq<Id>, capacities: map<Id, int>, myCapacity: int, myId: Id,
                   threshold: int, preferred: Id): Option<Id>
    requires forall p :: p in peers ==> p in capacities
  {
    if |peers| + 1 > threshold
    then Some(Scan(peers, capacities, FirstClaim(myCapacity, myId, preferred)).id)
    else None
  }

  method Elect(peers: seq<Id>, capacities: map<Id, int>, myCapacity: int, myId: Id,
               threshold: int, preferred: Id) returns (host: Option<Id>)
    requires forall p :: p in peers ==> p in capacities
    ensures host == Elected(peers, capacities, myCapacity, myId, threshold, preferred)
  {
    if |peers| + 1 > threshold {
      var maxScore := myCapacity;
      var hostId := if preferred != [] then preferred else myId;
      for i := 0 to |peers|
        invariant Claim(maxScore, hostId) ==
                  Scan(peers[..i], capacities, FirstClaim(myCapacity, myId, preferred))
      {
        var peer := peers[i];
        assert peers[..i + 1][..i] == peers[..i];
        if capacities[peer] > maxScore {
          maxScore := capacities[peer];
          hostId := peer;
        } else if capacities[peer] == maxScore && !AtMost(peer, hostId) {
          hostId := peer;
        }
      }
      assert peers[..|peers|] == peers;
      return Some(hostId);
    }
    host := None;
  }

  /** The scan ends with a claim made by someone, which nobody beats. */
  lemma {:induction false} ScanFindsGreatest(peers: seq<Id>, capacities: map<Id, int>, first: Claim)
    requires forall p :: p in peers ==> p in capacities
    ensures var r := Scan(peers, capacities, first);
      && (r == first || (r.id in peers && r.score == capacities[r.id]))
      && !Beats(first, r)
      && (forall p :: p in peers ==> !Beats(Claim(capacities[p], p), r))
  {
    if |peers| == 0 {
      BeatsStrictOrder(first, first);
    } else {
      var front, last := peers[..|peers| - 1], peers[|peers| - 1];
      ScanFindsGreatest(front, capacities, first);
      var standing, claim := Scan(front, capacities, first), Claim(capacities[last], last);
      BeatsStrictOrder(claim, standing);
      BeatsStrictOrder(claim, claim);
      if Beats(claim, standing) {
        UnbeatenTransitive(first, standing, claim);
        forall p | p in front
          ensures !Beats(Claim(capacities[p], p), claim)
        {
          UnbeatenTransitive(Claim(capacities[p], p), standing, claim);
        }
      }
      forall p | p in peers
        ensures p in front || p == last
      {
      }
    }
  }

  /** The host of a call: the participant whose (capacity, id) is greatest. */
  ghost predicate Host(capacities: map<Id, int>, host: Id) {
    && host in capacities
    && forall p :: p in capacities ==> !Beats(Claim(capacities[p], p), Claim(capacities[host], host))
  }

  lemma HostUnique(capacities: map<Id, int>, a: Id, b: Id)
    requires Host(capacities, a) && Host(capacities, b)
    ensures a == b
  {
    BeatsStrictOrder(Claim(capacities[a], a), Claim(capacities[b], b));
  }

  /** What participant `me` sees: its own capacity apart, and everyone else in some order. */
  ghost predicate SeenBy(all: map<Id, int>, me: Id, peers: seq<Id>) {
    me in all && |peers| + 1 == |all| && (forall p :: p in peers <==> p in all && p != me)
  }

  /** Without a preferred host, whoever computes the election and in whatever order finds the greatest claim. */
  lemma ElectsHost(all: map<Id, int>, me: Id, peers: seq<Id>, threshold: int)
    requires SeenBy(all, me, peers)
    ensures var r := Elected(peers, all, all[me], me, threshold, []);
      if |all| > threshold then r.Some? && Host(all, r.value) else r.None?
  {
    ScanFindsGreatest(peers, all, Claim(all[me], me));
  }

  /** All participants elect the same host. */
  lemma ParticipantsAgree(all: map<Id, int>, a: Id, peersOfA: seq<Id>,
                          b: Id, peersOfB: seq<Id>, threshold: int)
    requires SeenBy(all, a, peersOfA) && SeenBy(all, b, peersOfB)
    ensures Elected(peersOfA, all, all[a], a, threshold, []) == Elected(peersOfB, all, all[b], b, threshold, [])
  {
    hide Elected;
    ElectsHost(all, a, peersOfA, threshold);
    ElectsHost(all, b, peersOfB, threshold);
    if |all| > threshold {
      HostUnique(all, Elected(peersOfA, all, all[a], a, threshold, []).value,
                 Elected(peersOfB, all, all[b], b, threshold, []).value);
    }
  }

  // --- Preferred hosts ---------------------------------------------------------------------------

  /**
   Nobody else beats the id that the voter starts from. That id stands with the voter's own capacity, or
   with the capacity it announced itself when that is greater.
   */
  ghost predicate Unrivalled(peers: seq<Id>, capacities: map<Id, int>, myCapacity: int, name: Id)
    requires forall p :: p in peers ==> p in capacities
  {
    var own := if name in peers && capacities[name] > myCapacity then capacities[name] else myCapacity;
    forall p :: p in peers && p != name ==> !Beats(Claim(capacities[p], p), Claim(own, name))
  }

  /** The scan ends with the id it started from exactly when that id is unrivalled. */
  lemma ScanKeepsFirstIff(peers: seq<Id>, capacities: map<Id, int>, myCapacity: int, name: Id)
    requires forall p :: p in peers ==> p in capacities
    ensures Scan(peers, capacities, Claim(myCapacity, name)).id == name <==>
      Unrivalled(peers, capacities, myCapacity, name)
  {
    hide Scan, AtMost;
    var own := if name in peers && capacities[name] > myCapacity then capacities[name] else myCapacity;
    ScanFindsGreatest(peers, capacities, Claim(myCapacity, name));
    var r := Scan(peers, capacities, Claim(myCapacity, name));
    if r.id != name {
      BeatsStrictOrder(r, Claim(own, name));
      assert r == Claim(capacities[r.id], r.id);
    }
  }

  /**
   A preferred peer is elected exactly when nobody else beats it at the voter's own capacity or at the one
   it announced, whichever is greater.
   */
  lemma PreferredElectedIff(peers: seq<Id>, capacities: map<Id, int>, myCapacity: int, myId: Id,
                            threshold: int, preferred: Id)
    requires forall p :: p in peers ==> p in capacities
    requires |peers| + 1 > threshold && preferred != []
    ensures Elected(peers, capacities, myCapacity, myId, threshold, preferred) == Some(preferred) <==>
      var own := if preferred in peers && capacities[preferred] > myCapacity then capacities[preferred] else myCapacity;
      forall p :: p in peers && p != preferred ==> !Beats(Claim(capacities[p], p), Claim(own, preferred))
  {
    hide Scan, Beats;
    ScanKeepsFirstIff(peers, capacities, myCapacity, preferred);
  }

  /** A voter whose preference is beaten elects the greatest of the others. */
  lemma RivalledElectsHost(all: map<Id, int>, me: Id, peers: seq<Id>, threshold: int, preferred: Id)
    requires SeenBy(all, me, peers) && |all| > threshold
    ensures var r := Elected(peers, all, all[me], me, threshold, preferred);
      && r.Some?
      && if Unrivalled(peers, all, all[me], Name(me, preferred)) then r.value == Name(me, preferred)
         else Host(all - {me}, r.value)
  {
    hide Scan, Beats;
    ScanFindsGreatest(peers, all, Claim(all[me], Name(me, preferred)));
    ScanKeepsFirstIff(peers, all, all[me], Name(me, preferred));
  }

  /** Nobody beats the greatest of all but one, except perhaps that one. */
  lemma WithoutOne(all: map<Id, int>, absent: Id, host: Id, p: Id)
    requires Host(all - {absent}, host) && p in all && p != absent
    ensures !Beats(Claim(all[p], p), Claim(all[host], host))
  {
    assert p in all - {absent} && (all - {absent})[p] == all[p];
  }

  /** The one left out is the greatest of all exactly when it beats the greatest of the others. */
  lemma AbsentHostIff(all: map<Id, int>, absent: Id, host: Id)
    requires absent in all && Host(all - {absent}, host)
    ensures Host(all, absent) <==> Beats(Claim(all[absent], absent), Claim(all[host], host))
  {
    hide AtMost, Beats;
    var top, rest := Claim(all[absent], absent), Claim(all[host], host);
    BeatsStrictOrder(top, rest);
    BeatsStrictOrder(top, top);
    forall p | p in all && Beats(top, rest)
      ensures !Beats(Claim(all[p], p), top)
    {
      if p != absent {
        WithoutOne(all, absent, host, p);
        UnbeatenTransitive(Claim(all[p], p), rest, top);
      }
    }
  }

  /** The greatest of all but `a` and of all but `b` are the same unless `a` or `b` is the greatest of all. */
  lemma HostsAgreeIff(all: map<Id, int>, a: Id, b: Id, hostA: Id, hostB: Id)
    requires a in all && b in all && a != b && Host(all - {a}, hostA) && Host(all - {b}, hostB)
    ensures hostA == hostB <==> !Host(all, a) && !Host(all, b)
  {
    hide AtMost, Beats, Host;
    AbsentHostIff(all, a, hostA);
    AbsentHostIff(all, b, hostB);
    HostIn(all, a, hostA);
    HostIn(all, b, hostB);
    WithoutOne(all, b, hostB, a);
    WithoutOne(all, a, hostA, b);
    if hostA != b {
      WithoutOne(all, b, hostB, hostA);
    }
    if hostB != a {
      WithoutOne(all, a, hostA, hostB);
    }
    BeatsStrictOrder(Claim(all[hostA], hostA), Claim(all[hostB], hostB));
  }

  lemma HostIn(all: map<Id, int>, absent: Id, host: Id)
    requires Host(all - {absent}, host)
    ensures host in all && host != absent
  {
  }

  /**
   Two voters with their own preferences elect one host exactly when: both start from unrivalled ids and
   these are equal; or one does, and that id is the greatest claim among those the other voter sees; or
   neither does, and neither of the two is itself the greatest of all.
   */
  lemma VotersAgreeIff(all: map<Id, int>, a: Id, peersOfA: seq<Id>, preferredByA: Id,
                       b: Id, peersOfB: seq<Id>, preferredByB: Id, threshold: int)
    requires SeenBy(all, a, peersOfA) && SeenBy(all, b, peersOfB) && a != b && |all| > threshold
    ensures Elected(peersOfA, all, all[a], a, threshold, preferredByA) ==
            Elected(peersOfB, all, all[b], b, threshold, preferredByB) <==>
      var nameA, nameB := Name(a, preferredByA), Name(b, preferredByB);
      var keepsA := Unrivalled(peersOfA, all, all[a], nameA);
      var keepsB := Unrivalled(peersOfB, all, all[b], nameB);
      if keepsA && keepsB then nameA == nameB
      else if keepsA then Host(all - {b}, nameA)
      else if keepsB then Host(all - {a}, nameB)
      else !Host(all, a) && !Host(all, b)
  {
    hide Elected, Unrivalled, Host, Name;
    var hostA := Elected(peersOfA, all, all[a], a, threshold, preferredByA);
    var hostB := Elected(peersOfB, all, all[b], b, threshold, preferredByB);
    RivalledElectsHost(all, a, peersOfA, threshold, preferredByA);
    RivalledElectsHost(all, b, peersOfB, threshold, preferredByB);
    var nameA, nameB := Name(a, preferredByA), Name(b, preferredByB);
    var keepsA := Unrivalled(peersOfA, all, all[a], nameA);
    var keepsB := Unrivalled(peersOfB, all, all[b], nameB);
    if !keepsA && !keepsB {
      HostsAgreeIff(all, a, b, hostA.value, hostB.value);
    } else if keepsA && !keepsB {
      if Host(all - {b}, nameA) {
        HostUnique(all - {b}, nameA, hostB.value);
      }
    } else if keepsB && !keepsA {
      if Host(all - {a}, nameB) {
        HostUnique(all - {a}, nameB, hostA.value);
      }
    }
  }
}
