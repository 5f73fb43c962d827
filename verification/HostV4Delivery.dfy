/** What a V4 host gets out of its tries, when it waits for each reply before it sends again: as
    long as fewer rounds fail than it has tries, it returns the response to its own request.
 */
module HostV4Delivery {
  import opened Sequences
  import opened Wrappers
  import opened HostV4
  import opened HostV4Theorems
  import opened HostV4Freshness

  /** How the exchange of one packet can fail: the packet is lost, or damaged, which the EC answers
      with an error, or the reply is lost or damaged. */
  datatype Failure =
    | PacketLost
    | PacketDamaged(seqNum: int, seqDup: bool, gone: bool)
    | ReplyLost(gone: bool)
    | ReplyDamaged(gone: bool)

  function Events(f: Failure): seq<Action> {
    match f
    case PacketLost => [RequestLost(0), HostTimesOut]
    case PacketDamaged(n, d, gone) => [RequestDamaged(0, n, d), EcReceives(gone), HostReceives]
    case ReplyLost(gone) => [EcReceives(gone), Action.ReplyLost(0), HostTimesOut]
    case ReplyDamaged(gone) => [EcReceives(gone), Action.ReplyDamaged(0), HostReceives]
  }

  function AllEvents(failures: seq<Failure>): seq<Action> {
    if failures == [] then []
    else AllEvents(failures[..|failures| - 1]) + Events(failures[|failures| - 1])
  }

  /** A request is under way, its last packet is on the link, and nothing else is. If the EC has
      the number in its buffer, it has processed the request, once. */
  ghost predicate Exchanging(t: State, n: int, number: int, before: seq<int>) {
    && t.host.id == n && t.host.seqNum == number && t.host.status.Waiting?
    && t.toEc == [Intact(Request(n, number, t.host.seqDup))] && t.toHost == []
    && Delivered(t, n, number, before)
    && (t.ec.seqNum == number ==> t.host.seqDup)
  }

  predicate Delivered(t: State, n: int, number: int, before: seq<int>) {
    if t.ec.seqNum == number then t.ec.computedFrom == n && t.processed == before + [n]
    else t.processed == before
  }

  /** Both links are empty, and the host waits for a reply that does not come. */
  ghost predicate Silent(t: State, n: int, number: int, before: seq<int>) {
    && t.host.id == n && t.host.seqNum == number && t.host.status.Waiting?
    && t.toEc == [] && t.toHost == [] && Delivered(t, n, number, before)
  }

  /** The host's answer to a failed round: one more packet, with seq_dup set, while tries are
      left, and otherwise an error. */
  ghost predicate Retried(t: State, u: State, n: int, number: int, before: seq<int>) {
    && u.host.triesLeft == t.host.triesLeft - 1
    && if t.host.triesLeft > 1
       then Exchanging(u, n, number, before) && u.host.seqDup && u.sent == t.sent + [Request(n, number, true)]
       else u.host.id == n && u.host.status.Failed? && u.sent == t.sent && Delivered(u, n, number, before)
  }

  // ---- one round -----------------------------------------------------------------------------

  lemma RunTwo(s: State, a: Action, b: Action)
    ensures Run(s, [a, b]) == Step(Step(s, a), b)
  {
    hide Step;
    RunAppend(s, [a], [b]);
    RunOne(s, a);
    RunOne(Step(s, a), b);
    assert [a] + [b] == [a, b];
  }

  lemma LosesPacket(t: State, n: int, number: int, before: seq<int>)
    requires Exchanging(t, n, number, before)
    ensures var u := Step(t, RequestLost(0)); Silent(u, n, number, before) && u.host == t.host && u.sent == t.sent
  {
  }

  /** The EC gets the packet: it answers its number and flag, and has then processed the request. */
  lemma Answers(t: State, n: int, number: int, before: seq<int>, gone: bool)
    requires Exchanging(t, n, number, before)
    ensures var u, d := Step(t, EcReceives(gone)), t.host.seqDup;
            && u.host == t.host && u.sent == t.sent && u.toEc == []
            && u.toHost == [Received(if gone then ErrorReply(number, d) else Response(number, d, n, n))]
            && u.ec.seqNum == number && Delivered(u, n, number, before)
  {
  }

  lemma AnswersDamaged(t: State, n: int, number: int, before: seq<int>, f: Failure)
    requires Exchanging(t, n, number, before) && f.PacketDamaged?
    ensures var u := Step(Step(t, RequestDamaged(0, f.seqNum, f.seqDup)), EcReceives(f.gone));
            && u.host == t.host && u.sent == t.sent && u.toEc == []
            && u.toHost == [Received(ErrorReply(f.seqNum, f.seqDup))]
            && Delivered(u, n, number, before)
  {
    var v := Step(t, RequestDamaged(0, f.seqNum, f.seqDup));
    assert v.toEc == [Damaged(f.seqNum, f.seqDup)];
    assert v.toEc[1..] == [];
    assert Step(v, EcReceives(f.gone)).processed == t.processed;
  }

  lemma TimesOutSilent(t: State, n: int, number: int, before: seq<int>)
    requires Silent(t, n, number, before)
    ensures Retried(t, Step(t, HostTimesOut), n, number, before)
  {
  }

  lemma ReceivesOther(t: State, n: int, number: int, before: seq<int>, p: AtHost)
    requires t.toHost == [p] && Silent(t.(toHost := []), n, number, before)
    requires p.Garbled? || p.r.seqNum != number || (p.r.seqDup && !t.host.seqDup)
    ensures Retried(t, Step(t, HostReceives), n, number, before)
  {
    assert t.toHost[1..] == [];
    TimesOutSilent(t.(toHost := []), n, number, before);
  }

  /** The host goes on after this round. A damaged packet must not look like one of the request
      itself, or it must look like a retry when there was none. */
  predicate GoesOn(f: Failure, number: int, retried: bool) {
    f.PacketDamaged? ==> f.seqNum != number || (f.seqDup && !retried)
  }

  lemma FailedRound(t: State, n: int, number: int, before: seq<int>, f: Failure)
    requires Exchanging(t, n, number, before) && GoesOn(f, number, t.host.seqDup)
    ensures Retried(t, Run(t, Events(f)), n, number, before)
  {
    hide Run, Step, Retried, Delivered;
    match f
    case PacketLost =>
      RunTwo(t, RequestLost(0), HostTimesOut);
      LosesPacket(t, n, number, before);
      var u := Step(t, RequestLost(0));
      TimesOutSilent(u, n, number, before);
      SameHost(t, u, Step(u, HostTimesOut), n, number, before);
    case PacketDamaged(m, d, gone) =>
      RunThree(t, RequestDamaged(0, m, d), EcReceives(gone), HostReceives);
      AnswersDamaged(t, n, number, before, f);
      var u := Step(Step(t, RequestDamaged(0, m, d)), EcReceives(gone));
      SameDelivered(u, u.(toHost := []), n, number, before);
      ReceivesOther(u, n, number, before, u.toHost[0]);
      SameHost(t, u, Step(u, HostReceives), n, number, before);
    case ReplyLost(gone) =>
      RunThree(t, EcReceives(gone), Action.ReplyLost(0), HostTimesOut);
      Answers(t, n, number, before, gone);
      var u := Step(t, EcReceives(gone));
      var v := Step(u, Action.ReplyLost(0));
      LosesReply(u);
      SameDelivered(u, v, n, number, before);
      TimesOutSilent(v, n, number, before);
      SameHost(t, v, Step(v, HostTimesOut), n, number, before);
    case ReplyDamaged(gone) =>
      RunThree(t, EcReceives(gone), Action.ReplyDamaged(0), HostReceives);
      Answers(t, n, number, before, gone);
      var u := Step(t, EcReceives(gone));
      var v := Step(u, Action.ReplyDamaged(0));
      DamagesReply(u);
      SameDelivered(u, v.(toHost := []), n, number, before);
      ReceivesOther(v, n, number, before, Garbled);
      SameHost(t, v, Step(v, HostReceives), n, number, before);
  }

  lemma LosesReply(u: State)
    requires |u.toHost| == 1
    ensures Step(u, Action.ReplyLost(0)) == u.(toHost := [])
  {
    assert u.toHost[..0] + u.toHost[1..] == [];
  }

  lemma DamagesReply(u: State)
    requires |u.toHost| == 1
    ensures Step(u, Action.ReplyDamaged(0)) == u.(toHost := [Garbled])
  {
    assert u.toHost[0 := Garbled] == [Garbled];
  }

  lemma SameDelivered(t: State, u: State, n: int, number: int, before: seq<int>)
    requires Delivered(t, n, number, before) && u.ec == t.ec && u.processed == t.processed
    ensures Delivered(u, n, number, before)
  {
  }

  lemma SameHost(t: State, u: State, v: State, n: int, number: int, before: seq<int>)
    requires Retried(u, v, n, number, before) && u.host == t.host && u.sent == t.sent
    ensures Retried(t, v, n, number, before)
  {
  }

  /** Otherwise a damaged packet ends the request: the host takes the error for the EC's answer,
      or stops at step 208. */
  lemma DamagedEnds(t: State, n: int, number: int, before: seq<int>, f: Failure)
    requires Exchanging(t, n, number, before) && !GoesOn(f, number, t.host.seqDup)
    ensures var u := Run(t, Events(f));
            && u.sent == t.sent && u.toEc == [] && u.toHost == [] && Delivered(u, n, number, before)
            && u.host == t.host.(status := if f.seqDup == t.host.seqDup then Succeeded(ErrorReply(number, f.seqDup))
                         else Failed)
  {
    hide Run, Delivered;
    RunThree(t, RequestDamaged(0, f.seqNum, f.seqDup), EcReceives(f.gone), HostReceives);
    AnswersDamaged(t, n, number, before, f);
    var u := Step(Step(t, RequestDamaged(0, f.seqNum, f.seqDup)), EcReceives(f.gone));
    assert u.toHost[1..] == [];
    SameDelivered(u, Step(u, HostReceives), n, number, before);
  }

  /** A round without failure. */
  lemma LastRound(t: State, n: int, number: int, before: seq<int>, gone: bool)
    requires Exchanging(t, n, number, before)
    ensures var u, d := Run(t, [EcReceives(gone), HostReceives]), t.host.seqDup;
            && u.host == t.host.(status := Succeeded(if gone then ErrorReply(number, d) else Response(number, d, n, n)))
            && u.processed == before + [n] && u.sent == t.sent
  {
    hide Run, Delivered;
    RunTwo(t, EcReceives(gone), HostReceives);
    Answers(t, n, number, before, gone);
    IsDelivered(Step(t, EcReceives(gone)), n, number, before);
  }

  lemma IsDelivered(u: State, n: int, number: int, before: seq<int>)
    requires Delivered(u, n, number, before) && u.ec.seqNum == number
    ensures u.processed == before + [n]
  {
  }

  // ---- a whole request -------------------------------------------------------------------------

  /** The rounds before the tries run out. */
  lemma {:induction false} FailedRounds(t: State, n: int, number: int, before: seq<int>, failures: seq<Failure>)
    requires Exchanging(t, n, number, before) && !t.host.seqDup
    requires forall i :: 0 <= i < |failures| ==> GoesOn(failures[i], number, i > 0)
    requires failures == [] || |failures| < t.host.triesLeft
    ensures var u := Run(t, AllEvents(failures));
            && Exchanging(u, n, number, before) && u.host.triesLeft == t.host.triesLeft - |failures|
            && u.host.seqDup == (failures != [])
            && u.sent == t.sent + Repeat(Request(n, number, true), |failures|)
    decreases |failures|
  {
    hide Exchanging, Step, Events;
    if failures != [] {
      var k := |failures| - 1;
      FailedRounds(t, n, number, before, failures[..k]);
      var u := Run(t, AllEvents(failures[..k]));
      FailedRound(u, n, number, before, failures[k]);
      RunAppend(t, AllEvents(failures[..k]), Events(failures[k]));
    }
  }

  /** Where a request starts that nothing disturbs: the links are empty, and the response buffer
      does not have its number. */
  predicate Undisturbed(s: State) {
    !s.host.status.Waiting? && s.toEc == [] && s.toHost == [] && s.ec.seqNum != NextNumber(s)
  }

  lemma Starts(s: State, tries: int)
    requires Undisturbed(s)
    ensures var t := Step(s, HostBegins(tries));
            && Exchanging(t, s.host.id + 1, NextNumber(s), s.processed)
            && t.host.triesLeft == tries && !t.host.seqDup
            && t.sent == s.sent + [Request(s.host.id + 1, NextNumber(s), false)]
  {
    BeginsAlone(s, tries);
  }

  /** When fewer rounds fail than the request has tries, in whatever way, and the next one does
      not, the host returns the response to its own request, or the error that says that the
      data is gone. The EC has processed the request once, and the host has sent one packet a
      round. */
  lemma SucceedsWithinTries(s: State, tries: int, failures: seq<Failure>, gone: bool)
    requires Undisturbed(s)
    requires failures == [] || |failures| < tries
    requires forall i :: 0 <= i < |failures| ==> GoesOn(failures[i], NextNumber(s), i > 0)
    ensures var t := After(s, tries, AllEvents(failures) + [EcReceives(gone), HostReceives]);
            var n, number, retried := s.host.id + 1, NextNumber(s), failures != [];
            && t.host.id == n && t.processed == s.processed + [n]
            && t.host.status
               == Succeeded(if gone then ErrorReply(number, retried) else Response(number, retried, n, n))
            && t.sent == s.sent + [Request(n, number, false)] + Repeat(Request(n, number, true), |failures|)
  {
    hide Run, Step, Exchanging, Undisturbed;
    var t, n, number := Step(s, HostBegins(tries)), s.host.id + 1, NextNumber(s);
    Starts(s, tries);
    FailedRounds(t, n, number, s.processed, failures);
    LastRound(Run(t, AllEvents(failures)), n, number, s.processed, gone);
    OnTheWay(Run(t, AllEvents(failures)), n, number, s.processed);
    RunAppend(t, AllEvents(failures), [EcReceives(gone), HostReceives]);
  }

  lemma OnTheWay(t: State, n: int, number: int, before: seq<int>)
    requires Exchanging(t, n, number, before)
    ensures t.host.id == n
  {
  }

  /** When as many rounds fail as it has tries, it fails, with one packet sent for each. */
  lemma FailsWithoutTries(s: State, tries: int, failures: seq<Failure>)
    requires Undisturbed(s)
    requires |failures| == if tries > 1 then tries else 1
    requires forall i :: 0 <= i < |failures| ==> GoesOn(failures[i], NextNumber(s), i > 0)
    ensures var t := After(s, tries, AllEvents(failures));
            var n, number := s.host.id + 1, NextNumber(s);
            && t.host.id == n && t.host.status.Failed?
            && t.sent == s.sent + [Request(n, number, false)] + Repeat(Request(n, number, true), |failures| - 1)
  {
    hide Run, Step, Exchanging, Undisturbed;
    var t, n, number := Step(s, HostBegins(tries)), s.host.id + 1, NextNumber(s);
    Starts(s, tries);
    var k := |failures| - 1;
    FailedRounds(t, n, number, s.processed, failures[..k]);
    FailedRound(Run(t, AllEvents(failures[..k])), n, number, s.processed, failures[k]);
    RunAppend(t, AllEvents(failures[..k]), Events(failures[k]));
  }
}
