/**
 The per-peer sliding-window rate limiter: a queue of recent timestamps. It prunes only at the front, so what
 it promises depends on the clock, and the clock it reads can step back. Both promises, to decide as a counter
 of the whole history would and never to overfill a minute, are proved to hold exactly for the clocks that
 avoid a certain pattern of three readings.
 */
module RateLimiter {
  const WINDOW: int := 60_000

  function Limit(perMinute: int): (r: nat)
    ensures r >= 1 && r >= perMinute && (r == 1 || r == perMinute)
  {
    if perMinute < 1 then 1 else perMinute
  }

  /** The queue without its leading expired timestamps. */
  function Pruned(bucket: seq<int>, now: int): seq<int> {
    if |bucket| > 0 && now - bucket[0] > WINDOW then Pruned(bucket[1..], now) else bucket
  }

  /** The queue after a request, and whether the request is allowed. */
  function Admit(bucket: seq<int>, now: int, perMinute: int): (seq<int>, bool) {
    var b := Pruned(bucket, now);
    if |b| >= Limit(perMinute) then (b, false) else (b + [now], true)
  }

  datatype Request = Request(now: int, perMinute: int)

  /** One peer's queue, and every timestamp ever accepted from it. */
  datatype State = State(bucket: seq<int>, accepted: seq<int>)

  function Serve(s: State, r: Request): (State, bool) {
    var (bucket, allowed) := Admit(s.bucket, r.now, r.perMinute);
    (State(bucket, if allowed then s.accepted + [r.now] else s.accepted), allowed)
  }

  function Run(requests: seq<Request>): State {
    if |requests| == 0 then State([], [])
    else Serve(Run(requests[..|requests| - 1]), requests[|requests| - 1]).0
  }

  // --- The limiter -------------------------------------------------------------------------------

  datatype Call = Call(peer: string, request: Request)

  /** The requests of one peer among the calls of all. */
  function RequestsOf(calls: seq<Call>, peer: string): seq<Request> {
    if |calls| == 0 then []
    else
      var earlier, last := RequestsOf(calls[..|calls| - 1], peer), calls[|calls| - 1];
      if last.peer == peer then earlier + [last.request] else earlier
  }

  lemma RequestsOfNext(calls: seq<Call>, last: Call, peer: string)
    ensures RequestsOf(calls + [last], peer) ==
      if last.peer == peer then RequestsOf(calls, peer) + [last.request] else RequestsOf(calls, peer)
  {
    assert (calls + [last])[..|calls|] == calls;
  }

  lemma RunStep(before: seq<Request>, r: Request)
    ensures Run(before + [r]) == Serve(Run(before), r).0
  {
    assert (before + [r])[..|before|] == before;
  }

  /** The queues of all peers, and the calls that have led to them. */
  class Limiter {
    var buckets: map<string, seq<int>>
    ghost var calls: seq<Call>

    /** Each peer's queue is what its own requests make of it, whatever other peers do. */
    ghost predicate Valid()
      reads this
    {
      forall peer :: (if peer in buckets then buckets[peer] else []) == Run(RequestsOf(calls, peer)).bucket
    }

    constructor ()
      ensures Valid() && buckets == map[] && calls == []
    {
      buckets := map[];
      calls := [];
    }

    method Allows(peer: string, now: int, perMinute: int) returns (allowed: bool)
      requires Valid()
      modifies this
      ensures Valid() && calls == old(calls) + [Call(peer, Request(now, perMinute))]
      ensures allowed == Serve(Run(RequestsOf(old(calls), peer)), Request(now, perMinute)).1
      ensures buckets == old(buckets)[peer := Run(RequestsOf(calls, peer)).bucket]
    {
      hide Run, RequestsOf;
      var bucket := if peer in buckets then buckets[peer] else [];
      ghost var before := bucket;
      ghost var r := Request(now, perMinute);
      forall p
        ensures RequestsOf(calls + [Call(peer, r)], p) ==
                if p == peer then RequestsOf(calls, p) + [r] else RequestsOf(calls, p)
      {
        RequestsOfNext(calls, Call(peer, r), p);
      }
      RunStep(RequestsOf(calls, peer), r);
      calls := calls + [Call(peer, r)];
      while |bucket| > 0 && now - bucket[0] > WINDOW
        invariant Pruned(bucket, now) == Pruned(before, now)
        decreases |bucket|
      {
        bucket := bucket[1..];
      }
      if |bucket| >= Limit(perMinute) {
        buckets := buckets[peer := bucket];
        return false;
      }
      buckets := buckets[peer := bucket + [now]];
      allowed := true;
    }
  }

  /** The times at which calls of one peer were allowed. */
  function AllowedTimes(calls: seq<Call>, answers: seq<bool>, peer: string): seq<int>
    requires |answers| == |calls|
  {
    if |calls| == 0 then []
    else
      var n := |calls| - 1;
      var earlier := AllowedTimes(calls[..n], answers[..n], peer);
      if calls[n].peer == peer && answers[n] then earlier + [calls[n].request.now] else earlier
  }

  predicate AnsweredByRun(calls: seq<Call>, answers: seq<bool>) {
    && |answers| == |calls|
    && forall i :: 0 <= i < |calls| ==>
         answers[i] == Serve(Run(RequestsOf(calls[..i], calls[i].peer)), calls[i].request).1
  }

  lemma AnsweredBefore(calls: seq<Call>, answers: seq<bool>)
    requires AnsweredByRun(calls, answers) && |calls| > 0
    ensures var n := |calls| - 1;
      && AnsweredByRun(calls[..n], answers[..n])
      && answers[n] == Serve(Run(RequestsOf(calls[..n], calls[n].peer)), calls[n].request).1
  {
    hide Run, RequestsOf, Serve;
    var n := |calls| - 1;
    forall i | 0 <= i < n
      ensures answers[..n][i] == Serve(Run(RequestsOf(calls[..n][..i], calls[..n][i].peer)), calls[..n][i].request).1
    {
      assert calls[..n][..i] == calls[..i];
    }
  }

  /** What the limiter allowed a peer is what the run of that peer's requests accepts. */
  lemma {:induction false} AllowedAreAccepted(calls: seq<Call>, answers: seq<bool>, peer: string)
    requires AnsweredByRun(calls, answers)
    ensures AllowedTimes(calls, answers, peer) == Run(RequestsOf(calls, peer)).accepted
  {
    hide Run, Serve, RequestsOf, Admit;
    assert |answers| == |calls|;
    hide AnsweredByRun;
    if |calls| == 0 {
      NothingAccepted(peer);
      assert calls == [];
    } else {
      var n := |calls| - 1;
      AnsweredBefore(calls, answers);
      AllowedAreAccepted(calls[..n], answers[..n], peer);
      LastAccepted(calls, answers[n], peer);
    }
  }

  lemma NothingAccepted(peer: string)
    ensures Run(RequestsOf([], peer)).accepted == []
  {
  }

  lemma LastAccepted(calls: seq<Call>, answer: bool, peer: string)
    requires |calls| > 0
    requires var n := |calls| - 1;
      answer == Serve(Run(RequestsOf(calls[..n], calls[n].peer)), calls[n].request).1
    ensures var n := |calls| - 1; var earlier := Run(RequestsOf(calls[..n], peer)).accepted;
      Run(RequestsOf(calls, peer)).accepted ==
        if calls[n].peer == peer && answer then earlier + [calls[n].request.now] else earlier
  {
    hide Run, RequestsOf, Admit;
    var n := |calls| - 1;
    assert calls == calls[..n] + [calls[n]];
    RequestsOfNext(calls[..n], calls[n], peer);
    RunStep(RequestsOf(calls[..n], peer), calls[n].request);
  }

  /**
   A limiter answers each call from the earlier requests of the same peer, however calls are interleaved; so
   the times it allows a peer are those that the run of the peer's requests accepts.
   */
  method AnswerAll(calls: seq<Call>) returns (answers: seq<bool>)
    ensures |answers| == |calls|
    ensures forall i :: 0 <= i < |calls| ==>
      answers[i] == Serve(Run(RequestsOf(calls[..i], calls[i].peer)), calls[i].request).1
    ensures forall peer :: AllowedTimes(calls, answers, peer) == Run(RequestsOf(calls, peer)).accepted
  {
    hide Run, Serve, RequestsOf, AllowedTimes;
    var limiter := new Limiter();
    answers := [];
    for i := 0 to |calls|
      invariant limiter.Valid() && limiter.calls == calls[..i]
      invariant |answers| == i
      invariant forall j :: 0 <= j < i ==>
        answers[j] == Serve(Run(RequestsOf(calls[..j], calls[j].peer)), calls[j].request).1
    {
      var allowed := limiter.Allows(calls[i].peer, calls[i].request.now, calls[i].request.perMinute);
      answers := answers + [allowed];
      assert calls[..i + 1] == calls[..i] + [calls[i]];
    }
    forall peer
      ensures AllowedTimes(calls, answers, peer) == Run(RequestsOf(calls, peer)).accepted
    {
      AllowedAreAccepted(calls, answers, peer);
    }
  }

  // --- Reference: count the accepted history ---------------------------------------------------

  /** A range of timestamps: from `lo` on, or from `lo` to `hi`. */
  datatype Range = Since(lo: int) | Span(lo: int, hi: int) {
    predicate Has(ts: int) {
      lo <= ts && (Span? ==> ts <= hi)
    }
  }

  function Count(s: seq<int>, range: Range): nat {
    if |s| == 0 then 0
    else Count(s[..|s| - 1], range) + if range.Has(s[|s| - 1]) then 1 else 0
  }

  // --- Clocks ----------------------------------------------------------------------------------

  /** Requests arrive along the readings of a clock, any number of them at each reading. */
  ghost predicate ArriveAt(requests: seq<Request>, clock: seq<int>, reading: seq<nat>) {
    && |reading| == |requests|
    && (forall i :: 0 <= i < |requests| ==> reading[i] < |clock| && requests[i].now == clock[reading[i]])
    && (forall i, j :: 0 <= i < j < |reading| ==> reading[i] <= reading[j])
  }

  ghost predicate Follow(requests: seq<Request>, clock: seq<int>) {
    exists reading :: ArriveAt(requests, clock, reading)
  }

  /** Reading `a`, then over a minute more, then within a minute of `a` again. */
  predicate Reenters(a: int, b: int, c: int) {
    b - a > WINDOW && -WINDOW <= c - a <= WINDOW
  }

  /** At `c`, one of the earlier `a` and `b` is over a minute old when the queue's order suggests otherwise. */
  predicate Confuses(a: int, b: int, c: int) {
    c - a <= WINDOW && (b - a > WINDOW || c - b > WINDOW)
  }

  ghost predicate NeverReenters(clock: seq<int>) {
    forall i, j, k :: 0 <= i < j < k < |clock| ==> !Reenters(clock[i], clock[j], clock[k])
  }

  ghost predicate NeverConfuses(clock: seq<int>) {
    forall i, j, k :: 0 <= i < j < k < |clock| ==> !Confuses(clock[i], clock[j], clock[k])
  }

  /** A clock that never steps back has neither pattern. */
  lemma SteadyClock(clock: seq<int>)
    ensures (forall i, j :: 0 <= i < j < |clock| ==> clock[i] <= clock[j]) ==> NeverConfuses(clock)
    ensures NeverConfuses(clock) ==> NeverReenters(clock)
  {
    forall i, j, k | 0 <= i < j < k < |clock| && Reenters(clock[i], clock[j], clock[k])
      ensures Confuses(clock[i], clock[j], clock[k])
    {
    }
  }

  function Times(requests: seq<Request>): (r: seq<int>)
    ensures |r| == |requests| && forall i :: 0 <= i < |r| ==> r[i] == requests[i].now
  {
    seq(|requests|, i requires 0 <= i < |requests| => requests[i].now)
  }

  /** Unequal times of requests come from different readings, in the same order. */
  lemma OrderedReadings(requests: seq<Request>, clock: seq<int>, reading: seq<nat>, i: nat, j: nat)
    requires ArriveAt(requests, clock, reading) && i < j < |requests|
    ensures reading[i] <= reading[j] < |clock|
    ensures requests[i].now == clock[reading[i]] && requests[j].now == clock[reading[j]]
    ensures requests[i].now != requests[j].now ==> reading[i] < reading[j]
  {
  }

  /** Requests have a pattern only if the clock that they follow has it. */
  lemma TimesInherit(requests: seq<Request>, clock: seq<int>)
    requires Follow(requests, clock)
    ensures NeverReenters(clock) ==> NeverReenters(Times(requests))
    ensures NeverConfuses(clock) ==> NeverConfuses(Times(requests))
  {
    hide ArriveAt;
    var reading :| ArriveAt(requests, clock, reading);
    var t := Times(requests);
    forall i, j, k | 0 <= i < j < k < |t|
      ensures NeverReenters(clock) ==> !Reenters(t[i], t[j], t[k])
      ensures NeverConfuses(clock) ==> !Confuses(t[i], t[j], t[k])
    {
      TimesInheritAt(requests, clock, reading, i, j, k);
    }
  }

  lemma TimesInheritAt(requests: seq<Request>, clock: seq<int>, reading: seq<nat>, i: nat, j: nat, k: nat)
    requires ArriveAt(requests, clock, reading) && i < j < k < |requests|
    ensures NeverReenters(clock) ==> !Reenters(requests[i].now, requests[j].now, requests[k].now)
    ensures NeverConfuses(clock) ==> !Confuses(requests[i].now, requests[j].now, requests[k].now)
  {
    assert |reading| == |requests|;
    OrderedReadings(requests, clock, reading, i, j);
    OrderedReadings(requests, clock, reading, j, k);
  }

  // --- What the queue has dropped ----------------------------------------------------------------

  /**
   `at` gives the request of each accepted timestamp, in order. The queue is the tail of the accepted
   timestamps, and `dropper` gives, for each one before it, a later request more than a minute after it.
   */
  ghost predicate Traced(requests: seq<Request>, s: State, at: seq<nat>, dropper: seq<nat>) {
    && |at| == |s.accepted|
    && (forall i :: 0 <= i < |at| ==> at[i] < |requests| && s.accepted[i] == requests[at[i]].now)
    && (forall i, j :: 0 <= i < j < |at| ==> at[i] < at[j])
    && |dropper| + |s.bucket| == |at| && s.bucket == s.accepted[|dropper|..]
    && (forall i :: 0 <= i < |dropper| ==> at[i] < dropper[i] < |requests|
                                           && requests[dropper[i]].now - s.accepted[i] > WINDOW)
  }

  lemma {:induction false} PruneTraced(requests: seq<Request>, s: State, at: seq<nat>, dropper: seq<nat>)
    returns (dropper': seq<nat>)
    requires |requests| > 0 && Traced(requests, s, at, dropper)
    requires forall i :: 0 <= i < |at| ==> at[i] < |requests| - 1
    ensures Traced(requests, State(Pruned(s.bucket, requests[|requests| - 1].now), s.accepted), at, dropper')
    decreases |s.bucket|
  {
    var last := |requests| - 1;
    if |s.bucket| > 0 && requests[last].now - s.bucket[0] > WINDOW {
      assert s.bucket[0] == s.accepted[|dropper|];
      assert s.bucket[1..] == s.accepted[|dropper| + 1..];
      dropper' := PruneTraced(requests, State(s.bucket[1..], s.accepted), at, dropper + [last]);
    } else {
      dropper' := dropper;
    }
  }

  lemma {:induction false} PrunedHead(bucket: seq<int>, now: int)
    ensures var b := Pruned(bucket, now); |b| > 0 ==> now - b[0] <= WINDOW
  {
    if |bucket| > 0 && now - bucket[0] > WINDOW {
      PrunedHead(bucket[1..], now);
    }
  }

  lemma {:induction false} RunTraced(requests: seq<Request>) returns (at: seq<nat>, dropper: seq<nat>)
    ensures Traced(requests, Run(requests), at, dropper)
    decreases |requests|, 0
  {
    if |requests| == 0 {
      at, dropper := [], [];
    } else {
      hide Traced, Pruned, Serve, Run;
      var before, r := requests[..|requests| - 1], requests[|requests| - 1];
      at, dropper := PrunedBefore(before, r);
      assert before + [r] == requests;
      RunStep(before, r);
      var s := Run(before);
      ServeCases(s, r);
      if Serve(s, r).1 {
        AppendTraced(requests, State(Pruned(s.bucket, r.now), s.accepted), at, dropper);
        at := at + [|before|];
      }
    }
  }

  lemma ServeCases(s: State, r: Request)
    ensures var b := Pruned(s.bucket, r.now);
      Serve(s, r).0 == if Serve(s, r).1 then State(b + [r.now], s.accepted + [r.now]) else State(b, s.accepted)
  {
    hide Pruned;
  }

  lemma AppendTraced(requests: seq<Request>, s: State, at: seq<nat>, dropper: seq<nat>)
    requires |requests| > 0 && Traced(requests, s, at, dropper)
    requires forall i :: 0 <= i < |at| ==> at[i] < |requests| - 1
    ensures var now := requests[|requests| - 1].now;
      Traced(requests, State(s.bucket + [now], s.accepted + [now]), at + [|requests| - 1], dropper)
  {
    var now := requests[|requests| - 1].now;
    assert s.bucket + [now] == (s.accepted + [now])[|dropper|..];
  }

  /** The trace at the moment a request is decided. */
  lemma {:induction false} PrunedBefore(before: seq<Request>, r: Request)
    returns (at: seq<nat>, dropper: seq<nat>)
    ensures var s := Run(before);
      Traced(before + [r], State(Pruned(s.bucket, r.now), s.accepted), at, dropper)
    ensures forall i :: 0 <= i < |at| ==> at[i] < |before|
    decreases |before|, 1
  {
    hide Run, Pruned;
    at, dropper := RunTraced(before);
    assert forall i :: 0 <= i < |before| ==> (before + [r])[i] == before[i];
    dropper := PruneTraced(before + [r], Run(before), at, dropper);
  }

  // --- Counting ----------------------------------------------------------------------------------

  lemma {:induction false} CountConcat(a: seq<int>, b: seq<int>, range: Range)
    ensures Count(a + b, range) == Count(a, range) + Count(b, range)
  {
    if |b| == 0 {
      assert a + b == a;
    } else {
      assert (a + b)[..|a + b| - 1] == a + b[..|b| - 1];
      CountConcat(a, b[..|b| - 1], range);
    }
  }

  lemma {:induction false} CountAtMost(s: seq<int>, range: Range)
    ensures Count(s, range) <= |s|
    ensures (forall i :: 0 <= i < |s| ==> range.Has(s[i])) ==> Count(s, range) == |s|
    ensures (forall i :: 0 <= i < |s| ==> !range.Has(s[i])) ==> Count(s, range) == 0
  {
    if |s| > 0 {
      CountAtMost(s[..|s| - 1], range);
    }
  }

  /** A range that none of the dropped timestamps is in counts no more than the queue. */
  lemma CountsQueue(requests: seq<Request>, s: State, at: seq<nat>, dropper: seq<nat>, range: Range)
    requires Traced(requests, s, at, dropper)
    requires forall i :: 0 <= i < |dropper| ==> !range.Has(s.accepted[i])
    ensures Count(s.accepted, range) == Count(s.bucket, range) <= |s.bucket|
    ensures (forall i :: 0 <= i < |s.bucket| ==> range.Has(s.bucket[i])) ==> Count(s.accepted, range) == |s.bucket|
  {
    var dropped := s.accepted[..|dropper|];
    assert s.accepted == dropped + s.bucket;
    CountConcat(dropped, s.bucket, range);
    CountAtMost(dropped, range);
    CountAtMost(s.bucket, range);
  }

  // --- Deciding by the whole history ---------------------------------------------------------------

  /** The request is allowed as by a counter of the accepted timestamps at most a minute old. */
  predicate DecidedByHistory(before: seq<Request>, r: Request) {
    Serve(Run(before), r).1 <==> Count(Run(before).accepted, Since(r.now - WINDOW)) < Limit(r.perMinute)
  }

  /** Where no three readings confuse, everything dropped is over a minute old by the last request. */
  lemma DroppedAreOld(requests: seq<Request>, s: State, at: seq<nat>, dropper: seq<nat>, i: nat)
    requires |requests| > 0 && Traced(requests, s, at, dropper) && i < |dropper|
    requires NeverConfuses(Times(requests))
    ensures requests[|requests| - 1].now - s.accepted[i] > WINDOW
  {
    var t, last := Times(requests), |requests| - 1;
    if dropper[i] < last {
      assert !Confuses(t[at[i]], t[dropper[i]], t[last]);
    }
  }

  /** Where no three readings confuse, everything behind a recent head is recent. */
  lemma QueueIsRecent(requests: seq<Request>, s: State, at: seq<nat>, dropper: seq<nat>, i: nat)
    requires |requests| > 0 && Traced(requests, s, at, dropper) && i < |s.bucket|
    requires forall i :: 0 <= i < |at| ==> at[i] < |requests| - 1
    requires NeverConfuses(Times(requests)) && requests[|requests| - 1].now - s.bucket[0] <= WINDOW
    ensures requests[|requests| - 1].now - s.bucket[i] <= WINDOW
  {
    var t, cut := Times(requests), |dropper|;
    assert s.bucket[i] == s.accepted[cut + i] && s.bucket[0] == s.accepted[cut];
    if i > 0 {
      assert !Confuses(t[at[cut]], t[at[cut + i]], t[|requests| - 1]);
    }
  }

  lemma DecidesByHistory(before: seq<Request>, r: Request)
    requires NeverConfuses(Times(before + [r]))
    ensures DecidedByHistory(before, r)
  {
    hide Run, Pruned, Count, Traced, NeverConfuses;
    var at, dropper := PrunedBefore(before, r);
    var s, all := State(Pruned(Run(before).bucket, r.now), Run(before).accepted), before + [r];
    PrunedHead(Run(before).bucket, r.now);
    var range := Since(r.now - WINDOW);
    assert |dropper| <= |s.accepted| by {
      TracedLengths(all, s, at, dropper);
    }
    forall i | 0 <= i < |dropper|
      ensures !range.Has(s.accepted[i])
    {
      DroppedAreOld(all, s, at, dropper, i);
    }
    forall i | 0 <= i < |s.bucket|
      ensures range.Has(s.bucket[i])
    {
      QueueIsRecent(all, s, at, dropper, i);
    }
    CountsQueue(all, s, at, dropper, range);
  }

  lemma TracedLengths(requests: seq<Request>, s: State, at: seq<nat>, dropper: seq<nat>)
    requires Traced(requests, s, at, dropper)
    ensures |dropper| + |s.bucket| == |at| == |s.accepted|
  {
  }

  lemma RunOne(r: Request)
    ensures Run([r]) == State([r.now], [r.now])
  {
    RunStep([], r);
    assert [] + [r] == [r];
  }

  /** The state after two requests at limit two. */
  lemma RunTwo(a: int, b: int)
    ensures Run([Request(a, 2), Request(b, 2)]) == State(if b - a > WINDOW then [b] else [a, b], [a, b])
  {
    var x, y := Request(a, 2), Request(b, 2);
    RunOne(x);
    RunStep([x], y);
    assert [x] + [y] == [x, y];
    assert Pruned([a], b) == if b - a > WINDOW then [] else [a];
    assert [a] + [b] == [a, b];
  }

  /** Three readings in the confusing pattern, and limit two: the third request is decided wrongly. */
  lemma ConfusingReadings(a: int, b: int, c: int)
    requires Confuses(a, b, c)
    ensures !DecidedByHistory([Request(a, 2), Request(b, 2)], Request(c, 2))
  {
    hide Run, Count;
    RunTwo(a, b);
    var bucket := if b - a > WINDOW then [b] else [a, b];
    assert Pruned(bucket, c) == bucket;
    CountPair(a, b, Since(c - WINDOW));
  }

  lemma CountPair(a: int, b: int, range: Range)
    ensures Count([a, b], range) == (if range.Has(a) then 1 else 0) + (if range.Has(b) then 1 else 0)
  {
    assert [a, b][..1] == [a] && [a][..0] == [];
    assert Count([a], range) == if range.Has(a) then 1 else 0;
  }

  ghost predicate AlwaysByHistory(clock: seq<int>) {
    forall before, r :: Follow(before + [r], clock) ==> DecidedByHistory(before, r)
  }

  /**
   Whatever the requests, the limiter decides as a counter of the full history would, exactly along the
   clocks that never show the confusing pattern.
   */
  lemma DecidesByFullHistoryIff(clock: seq<int>)
    ensures NeverConfuses(clock) <==> AlwaysByHistory(clock)
  {
    hide Run, Serve, Count, Confuses;
    if NeverConfuses(clock) {
      forall before, r | Follow(before + [r], clock)
        ensures DecidedByHistory(before, r)
      {
        hide DecidedByHistory, NeverConfuses;
        TimesInherit(before + [r], clock);
        DecidesByHistory(before, r);
      }
    } else {
      hide DecidedByHistory;
      var i, j, k :| 0 <= i < j < k < |clock| && Confuses(clock[i], clock[j], clock[k]);
      var before, r := [Request(clock[i], 2), Request(clock[j], 2)], Request(clock[k], 2);
      assert ArriveAt(before + [r], clock, [i, j, k]);
      ConfusingReadings(clock[i], clock[j], clock[k]);
    }
  }

  /**
   In numbers: while time does not run backwards, a request is allowed exactly when fewer requests than its
   limit, which is at least one, were accepted in the 60000 milliseconds up to it.
   */
  lemma SteadyLimit(before: seq<Request>, r: Request)
    requires forall i, j :: 0 <= i < j <= |before| ==> (before + [r])[i].now <= (before + [r])[j].now
    ensures Serve(Run(before), r).1 <==>
      Count(Run(before).accepted, Since(r.now - 60_000)) < if r.perMinute < 1 then 1 else r.perMinute
  {
    SteadyClock(Times(before + [r]));
    DecidesByHistory(before, r);
  }

  // --- No overfull minute --------------------------------------------------------------------------

  predicate AllWithin(requests: seq<Request>, limit: int) {
    forall i :: 0 <= i < |requests| ==> requests[i].perMinute <= limit
  }

  /** More than the limit accepted in the minute from `start`. */
  predicate Overfills(requests: seq<Request>, limit: int, start: int) {
    Count(Run(requests).accepted, Span(start, start + WINDOW)) > Limit(limit)
  }

  lemma {:induction false} NoWindowOverfull(requests: seq<Request>, limit: int, start: int)
    requires NeverReenters(Times(requests)) && AllWithin(requests, limit)
    ensures !Overfills(requests, limit, start)
  {
    hide Serve, Pruned, NeverReenters, AllWithin;
    if |requests| > 0 {
      var before, r := requests[..|requests| - 1], requests[|requests| - 1];
      assert before + [r] == requests;
      assert NeverReenters(Times(before)) && AllWithin(before, limit) && r.perMinute <= limit by {
        PrefixInherits(requests, limit);
      }
      NoWindowOverfull(before, limit, start);
      ServeNeverOverfills(before, r, limit, start);
    }
  }

  lemma PrefixInherits(requests: seq<Request>, limit: int)
    requires |requests| > 0 && NeverReenters(Times(requests)) && AllWithin(requests, limit)
    ensures NeverReenters(Times(requests[..|requests| - 1])) && AllWithin(requests[..|requests| - 1], limit)
    ensures requests[|requests| - 1].perMinute <= limit
  {
    var t, t' := Times(requests), Times(requests[..|requests| - 1]);
    forall i, j, k | 0 <= i < j < k < |t'|
      ensures !Reenters(t'[i], t'[j], t'[k])
    {
      assert !Reenters(t[i], t[j], t[k]);
    }
  }

  lemma ServeNeverOverfills(before: seq<Request>, r: Request, limit: int, start: int)
    requires NeverReenters(Times(before + [r])) && r.perMinute <= limit
    requires !Overfills(before, limit, start)
    ensures Count(Serve(Run(before), r).0.accepted, Span(start, start + WINDOW)) <= Limit(limit)
  {
    hide Run, Pruned;
    var s, range := Run(before), Span(start, start + WINDOW);
    if Serve(s, r).1 {
      assert (s.accepted + [r.now])[..|s.accepted|] == s.accepted;
      if range.Has(r.now) {
        hide Count, Serve;
        var at, dropper := PrunedBefore(before, r);
        var t := Times(before + [r]);
        forall i | 0 <= i < |dropper|
          ensures !range.Has(s.accepted[i])
        {
          assert dropper[i] < |before| ==> !Reenters(t[at[i]], t[dropper[i]], t[|before|]);
        }
        CountsQueue(before + [r], State(Pruned(s.bucket, r.now), s.accepted), at, dropper, range);
      }
    }
  }

  /** Three readings in the re-entering pattern: two requests at the first, and limit two, put three in one minute. */
  lemma ReenteringReadings(a: int, b: int, c: int)
    requires Reenters(a, b, c)
    ensures var x := Request(a, 2);
      Overfills([x, x, Request(b, 2), Request(c, 2)], 2, if a <= c then a else c)
  {
    hide Run, Count;
    var x, y, z := Request(a, 2), Request(b, 2), Request(c, 2);
    RunTwo(a, a);
    RunStep([x, x], y);
    RunStep([x, x, y], z);
    assert [x, x] + [y] == [x, x, y] && [x, x, y] + [z] == [x, x, y, z];
    PrunedPair(a, b);
    assert [a, a] + [b] == [a, a, b] && [a, a, b] + [c] == [a, a, b, c] && [] + [b] == [b];
    assert Pruned([b], c) == [b];
    var range := if a <= c then Span(a, a + WINDOW) else Span(c, c + WINDOW);
    CountPair(a, a, range);
    CountPair(b, c, range);
    CountConcat([a, a], [b, c], range);
    assert [a, a] + [b, c] == [a, a, b, c];
  }

  lemma PrunedPair(a: int, b: int)
    requires b - a > WINDOW
    ensures Pruned([a, a], b) == []
  {
    assert [a, a][1..] == [a] && [a][1..] == [];
    assert Pruned([a], b) == [];
  }

  ghost predicate NeverOverfills(clock: seq<int>) {
    forall requests, limit, start :: Follow(requests, clock) && AllWithin(requests, limit) ==>
      !Overfills(requests, limit, start)
  }

  /**
   Whatever the requests, no minute holds more accepted ones than the limit, exactly along the clocks that
   never re-enter a minute that they had left ahead.
   */
  lemma NeverOverfullIff(clock: seq<int>)
    ensures NeverReenters(clock) <==> NeverOverfills(clock)
  {
    hide Overfills, Reenters;
    if NeverReenters(clock) {
      forall requests, limit, start | Follow(requests, clock) && AllWithin(requests, limit)
        ensures !Overfills(requests, limit, start)
      {
        hide NeverReenters;
        TimesInherit(requests, clock);
        NoWindowOverfull(requests, limit, start);
      }
    } else {
      var i, j, k :| 0 <= i < j < k < |clock| && Reenters(clock[i], clock[j], clock[k]);
      var a, b, c := clock[i], clock[j], clock[k];
      var x, y, z := Request(a, 2), Request(b, 2), Request(c, 2);
      assert ArriveAt([x, x, y, z], clock, [i, i, j, k]);
      ReenteringReadings(a, b, c);
    }
  }
}
