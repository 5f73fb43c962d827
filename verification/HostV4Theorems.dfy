/** The guarantees of host command protocol V4, for every run of the system. */
module HostV4Theorems {
  import opened Wrappers
  import opened HostV4
  import opened HostV4Safety

  /** The packet that a response answers, as it would look on the link. */
  function Answered(r: Reply): Request
    requires r.Response?
  {
    Request(r.answers, r.seqNum, r.seqDup)
  }

  /** What is on the links, or has been accepted, goes back to packets that the host sent. */
  ghost predicate Traced(s: State) {
    && (forall i :: 0 <= i < |s.toEc| && s.toEc[i].Intact? ==> s.toEc[i].q in s.sent)
    && (forall i :: 0 <= i < |s.toHost| && s.toHost[i].Received? && s.toHost[i].r.Response? ==>
                      Answered(s.toHost[i].r) in s.sent)
    && (s.host.status.Succeeded? && s.host.status.reply.Response? ==>
          Answered(s.host.status.reply) in s.sent)
  }

  lemma SentTraced(s: State, act: HostAction)
    requires Traced(s)
    requires act.host.status.Succeeded? && act.host.status.reply.Response? ==>
               Answered(act.host.status.reply) in s.sent
    ensures Traced(Transmit(s, act))
  {
  }

  lemma StepTraced(s: State, a: Action)
    requires Traced(s)
    ensures Traced(Step(s, a))
  {
    if Enabled(s, a) {
      match a
      case HostBegins(tries) => SentTraced(s, Begin(s.host, tries));
      case HostTimesOut => SentTraced(s, Retry(s.host));
      case HostReceives =>
        var t := s.(toHost := s.toHost[1..]);
        assert forall i :: 0 <= i < |t.toHost| ==> t.toHost[i] == s.toHost[i + 1];
        SentTraced(t, OnReply(s.host, s.toHost[0]));
      case EcReceives(gone) =>
        var t := Step(s, a);
        assert forall i :: 0 <= i < |t.toEc| ==> t.toEc[i] == s.toEc[i + 1];
      case _ => LossTraced(s, a);
    }
  }

  lemma LossTraced(s: State, a: Action)
    requires Traced(s) && Enabled(s, a)
    requires a.RequestLost? || a.ReplyLost? || a.RequestDamaged? || a.ReplyDamaged?
    ensures Traced(Step(s, a))
  {
    var t := Step(s, a);
    match a
    case RequestLost(i) =>
      assert forall k :: 0 <= k < |t.toEc| ==> t.toEc[k] == s.toEc[if k < i then k else k + 1];
    case ReplyLost(i) =>
      assert forall k :: 0 <= k < |t.toHost| ==> t.toHost[k] == s.toHost[if k < i then k else k + 1];
    case _ =>
  }

  /** In every run, a response that is on its way or has been accepted carries the sequence
      number and the duplicate flag of a packet that the host sent for the request it answers. */
  lemma {:induction false} RepliesEcho(s: State, actions: seq<Action>)
    requires Initial(s)
    ensures Traced(Run(s, actions))
    decreases |actions|
  {
    hide Step;
    if actions != [] {
      var n := |actions| - 1;
      hide Traced;
      RepliesEcho(s, actions[..n]);
      StepTraced(Run(s, actions[..n]), actions[n]);
    }
  }

  /** The EC processes each request at most once, and requests in the order in which they were
      made, however often they are retried. */
  lemma ProcessedAtMostOnce(s: State, actions: seq<Action>)
    requires Initial(s)
    ensures var p := Run(s, actions).processed;
            forall i, j :: 0 <= i < j < |p| ==> p[i] < p[j]
  {
    hide Run;
    RunKeeps(s, actions);
  }

  lemma SameNumber(base: int, x: int, y: int)
    ensures SeqOf(base, x) == SeqOf(base, y) && x <= y ==> x == y || x <= y - 4
  {
  }

  /** `k` is one of the requests made just before request `n` whose sequence numbers differ
      from that of `n`. */
  predicate Recent(k: int, n: int) {
    n - 4 < k < n
  }

  /** Looking back on a finished run; the condition before a request is begun is in
      HostV4Freshness. A host that stops at step 205 with a response from the response buffer holds the response
      to its own request exactly when it was sent in answer to this request, and the EC has
      processed this request. Otherwise it is the response to a request of four or more before.
      Then either it was also sent that long ago, and came late, or the EC sent it in time but
      had processed neither this request nor any of the three before it. */
  lemma FreshIff(s: State, actions: seq<Action>)
    requires Initial(s)
    requires var h := Run(s, actions).host; h.status.Succeeded? && h.status.reply.Response?
    ensures var t := Run(s, actions);
            var r, n := t.host.status.reply, t.host.id;
            && (r.computedFrom == n <==> r.answers == n && n in t.processed)
            && (r.computedFrom != n ==>
                  && r.computedFrom <= n - 4
                  && (r.answers <= n - 4
                      || (r.answers == n && n !in t.processed && forall k :: Recent(k, n) ==> k !in t.processed)))
  {
    hide Run;
    RunKeeps(s, actions);
    var base, t := s.host.seqNum, Run(s, actions);
    var r, n := t.host.status.reply, t.host.id;
    SameNumber(base, r.computedFrom, n);
    SameNumber(base, r.answers, n);
  }

  /** So a response is fresh if it does not answer a request of four or more before, and the
      EC processed one of the three requests before, or this one. The EC has then processed the
      host's request exactly once. */
  lemma FreshIfRecentlyProcessed(s: State, actions: seq<Action>, k: int)
    requires Initial(s)
    requires var t := Run(s, actions);
             && t.host.status.Succeeded? && t.host.status.reply.Response?
             && t.host.status.reply.answers > t.host.id - 4
             && (k == t.host.id || Recent(k, t.host.id)) && k in t.processed
    ensures var t := Run(s, actions);
            t.host.status.reply.computedFrom == t.host.id
            && multiset(t.processed)[t.host.id] == 1
  {
    hide Run;
    FreshIff(s, actions);
    ProcessedAtMostOnce(s, actions);
    IncreasingOnce(Run(s, actions).processed, Run(s, actions).host.id);
  }

  lemma {:induction false} IncreasingOnce(p: seq<int>, x: int)
    requires forall i, j :: 0 <= i < j < |p| ==> p[i] < p[j]
    ensures multiset(p)[x] == if x in p then 1 else 0
    decreases |p|
  {
    if p != [] {
      var n := |p| - 1;
      assert p == p[..n] + [p[n]];
      assert p[n] !in p[..n];
      IncreasingOnce(p[..n], x);
    }
  }

  /** A late response to one of the three requests before is turned away at step 204. */
  lemma LateResponseRejected(s: State, actions: seq<Action>, i: nat)
    requires Initial(s)
    requires var t := Run(s, actions);
             && t.host.status.Waiting? && i < |t.toHost| && t.toHost[i].Received? && t.toHost[i].r.Response?
             && Recent(t.toHost[i].r.answers, t.host.id)
    ensures var t := Run(s, actions);
            && t.toHost[i].r.seqNum != t.host.seqNum
            && OnReply(t.host, t.toHost[i]) == Retry(t.host)
  {
    hide Run;
    RunKeeps(s, actions);
    var t := Run(s, actions);
    SameNumber(s.host.seqNum, t.toHost[i].r.answers, t.host.id);
  }

  /** A response dropped at step 207 answers a request of at least four before. */
  lemma DroppedIsLate(s: State, actions: seq<Action>, i: nat)
    requires Initial(s)
    requires var t := Run(s, actions);
             && t.host.status.Waiting? && i < |t.toHost| && t.toHost[i].Received? && t.toHost[i].r.Response?
             && t.toHost[i].r.seqNum == t.host.seqNum && t.toHost[i].r.seqDup && !t.host.seqDup
    ensures var t := Run(s, actions); t.toHost[i].r.answers <= t.host.id - 4
  {
    hide Run;
    RunKeeps(s, actions);
    var t := Run(s, actions);
    SameNumber(s.host.seqNum, t.toHost[i].r.answers, t.host.id);
  }

  /** A host that returns the error of step 208 for a response to its own request gives up on a
      request that the EC has processed. HostV4Freshness says when there is no other response. */
  lemma GivenUpIsProcessed(s: State, actions: seq<Action>, i: nat)
    requires Initial(s)
    requires var t := Run(s, actions);
             && t.host.status.Waiting? && i < |t.toHost| && t.toHost[i].Received? && t.toHost[i].r.Response?
             && t.toHost[i].r.seqNum == t.host.seqNum && !t.toHost[i].r.seqDup && t.host.seqDup
    ensures var t := Run(s, actions);
            var r, n := t.toHost[i].r, t.host.id;
            && OnReply(t.host, t.toHost[i]).host.status == Failed
            && (r.answers <= n - 4 || (r.answers == r.computedFrom == n && n in t.processed))
  {
    hide Run;
    RunKeeps(s, actions);
    var t := Run(s, actions);
    SameNumber(s.host.seqNum, t.toHost[i].r.answers, t.host.id);
  }

  // ---- how often a request is sent ---------------------------------------------------------

  /** The number of packets sent for request `id`. */
  function Packets(sent: seq<Request>, id: int): nat {
    if sent == [] then 0
    else Packets(sent[..|sent| - 1], id) + (if sent[|sent| - 1].id == id then 1 else 0)
  }

  /** The number of them with seq_dup clear. */
  function FirstPackets(sent: seq<Request>, id: int): nat {
    if sent == [] then 0
    else FirstPackets(sent[..|sent| - 1], id)
         + (if sent[|sent| - 1].id == id && !sent[|sent| - 1].seqDup then 1 else 0)
  }

  lemma PacketsAppend(sent: seq<Request>, q: Request, id: int)
    ensures Packets(sent + [q], id) == Packets(sent, id) + if q.id == id then 1 else 0
    ensures FirstPackets(sent + [q], id) == FirstPackets(sent, id) + if q.id == id && !q.seqDup then 1 else 0
  {
    assert (sent + [q])[..|sent|] == sent;
  }

  ghost predicate Counted(s: State) {
    && |s.tries| == s.host.id
    && (forall id :: id > s.host.id ==> Packets(s.sent, id) == 0 && FirstPackets(s.sent, id) == 0)
    && (forall id :: 1 <= id <= s.host.id ==>
                       && FirstPackets(s.sent, id) == 1
                       && (Packets(s.sent, id) <= s.tries[id - 1] || Packets(s.sent, id) == 1))
    && (s.host.status.Waiting? ==>
          && s.host.id > 0
          && Packets(s.sent, s.host.id) == 1 + s.tries[s.host.id - 1] - s.host.triesLeft
          && Packets(s.sent, s.host.id) >= 1
          && (s.host.triesLeft >= 1 || Packets(s.sent, s.host.id) == 1))
  }

  lemma TransmitCounted(s: State, act: HostAction)
    requires Counted(s) && s.host.status.Waiting? && act.host.id == s.host.id
    requires act == Retry(s.host) || (act.send == None && !act.host.status.Waiting?)
    ensures Counted(Transmit(s, act))
  {
    if act.send.Some? {
      forall id
        ensures Packets(s.sent + [act.send.value], id)
             == Packets(s.sent, id) + if s.host.id == id then 1 else 0
        ensures FirstPackets(s.sent + [act.send.value], id) == FirstPackets(s.sent, id)
      {
        PacketsAppend(s.sent, act.send.value, id);
      }
    }
  }

  lemma BeginCounted(s: State, tries: int)
    requires Counted(s) && !s.host.status.Waiting?
    ensures Counted(Step(s, HostBegins(tries)))
  {
    var q := Begin(s.host, tries).send.value;
    forall id
      ensures Packets(s.sent + [q], id) == Packets(s.sent, id) + if q.id == id then 1 else 0
      ensures FirstPackets(s.sent + [q], id) == FirstPackets(s.sent, id) + if q.id == id then 1 else 0
    {
      PacketsAppend(s.sent, q, id);
    }
  }

  lemma StepCounted(s: State, a: Action)
    requires Counted(s)
    ensures Counted(Step(s, a))
  {
    if Enabled(s, a) {
      match a
      case HostBegins(tries) => BeginCounted(s, tries);
      case HostTimesOut => TransmitCounted(s, Retry(s.host));
      case HostReceives =>
        TransmitCounted(s.(toHost := s.toHost[1..]), OnReply(s.host, s.toHost[0]));
      case _ =>
    }
  }

  lemma {:induction false} RunCounted(s: State, actions: seq<Action>)
    requires Initial(s)
    ensures Counted(Run(s, actions))
    decreases |actions|
  {
    if actions != [] {
      var n := |actions| - 1;
      RunCounted(s, actions[..n]);
      StepCounted(Run(s, actions[..n]), actions[n]);
    }
  }

  /** For each request the host sends at most the allowed number of packets, or one if less is
      allowed, and exactly one of them has seq_dup clear. */
  lemma TriesBounded(s: State, actions: seq<Action>, id: int)
    requires Initial(s) && 1 <= id <= Run(s, actions).host.id
    ensures var t := Run(s, actions);
            && |t.tries| == t.host.id
            && FirstPackets(t.sent, id) == 1
            && (Packets(t.sent, id) <= t.tries[id - 1] || Packets(t.sent, id) == 1)
  {
    RunCounted(s, actions);
  }

  /** A host that gives up has used its tries: it has sent all the packets it is allowed, or one
      if less is allowed. The only other way to fail is step 208, for a reply with seq_dup clear
      that comes after a retry. */
  lemma GivesUpOnlyAtTheEnd(s: State, actions: seq<Action>, a: Action)
    requires Initial(s)
    requires var t := Run(s, actions); t.host.status.Waiting? && Step(t, a).host.status.Failed?
    ensures var t := Run(s, actions);
            && 0 < t.host.id == |t.tries|
            && var tries := t.tries[t.host.id - 1];
            || Packets(Step(t, a).sent, t.host.id) == (if tries > 1 then tries else 1)
            || (&& a.HostReceives? && t.toHost[0].Received? && t.toHost[0].r.seqNum == t.host.seqNum
                && !t.toHost[0].r.seqDup && t.host.seqDup)
  {
    hide Run, Packets, FirstPackets;
    RunCounted(s, actions);
  }

  // ---- data that is no longer available ----------------------------------------------------

  /** To every packet the EC sends one reply. It is a response exactly if the packet is intact
      and the data of the response is available. */
  lemma SendsResponseIff(s: State, gone: bool)
    requires s.toEc != []
    ensures var t, n := Step(s, EcReceives(gone)), |s.toHost|;
            && |t.toHost| == n + 1 && t.toHost[..n] == s.toHost && t.toHost[n].Received?
            && (t.toHost[n].r.Response? <==> s.toEc[0].Intact? && !gone)
  {
  }

  /** No response is on its way or held by the host. */
  ghost predicate OnlyErrors(s: State) {
    && (forall i :: 0 <= i < |s.toHost| && s.toHost[i].Received? ==> s.toHost[i].r.ErrorReply?)
    && (s.host.status.Succeeded? ==> s.host.status.reply.ErrorReply?)
  }

  lemma StepOnlyErrors(s: State, a: Action)
    requires OnlyErrors(s) && a != EcReceives(false)
    ensures OnlyErrors(Step(s, a))
  {
  }

  /** In every run in which the data of a response is never available, no response is sent, and
      all that a host can succeed with is an error. */
  lemma {:induction false} UnavailableNeverSent(s: State, actions: seq<Action>)
    requires Initial(s) && EcReceives(false) !in actions
    ensures OnlyErrors(Run(s, actions))
    decreases |actions|
  {
    hide Step, OnlyErrors;
    if actions == [] {
      InitialOnlyErrors(s);
    } else {
      var n := |actions| - 1;
      UnavailableNeverSent(s, actions[..n]);
      assert actions[n] in actions;
      StepOnlyErrors(Run(s, actions[..n]), actions[n]);
    }
  }

  lemma InitialOnlyErrors(s: State)
    requires Initial(s)
    ensures OnlyErrors(s)
  {
  }

  // ---- stale responses do happen -----------------------------------------------------------

  lemma {:induction false} RunAppend(s: State, a: seq<Action>, b: seq<Action>)
    ensures Run(s, a + b) == Run(Run(s, a), b)
    decreases |b|
  {
    hide Step;
    if b == [] {
      assert a + b == a;
    } else {
      var n := |b| - 1;
      assert (a + b)[..|a| + n] == a + b[..n];
      RunAppend(s, a, b[..n]);
    }
  }

  lemma RunThree(s: State, a: Action, b: Action, c: Action)
    ensures Run(s, [a, b, c]) == Step(Step(Step(s, a), b), c)
  {
    hide Step;
    assert [a, b, c][..2] == [a, b] && [a, b][..1] == [a] && [a][..0] == [];
    assert Run(s, [a]) == Step(Run(s, []), a);
    assert Run(s, [a, b]) == Step(Run(s, [a]), b);
  }

  const QUIET := State(Host(0, 0, false, 0, Idle), Ec(0, 0, false, 0), [], [], [], [], [])

  /** A request that is processed, but whose response is not waited for. */
  const ABANDONED: seq<Action> := [HostBegins(1), EcReceives(false), HostTimesOut]

  lemma BeginsAlone(s: State, tries: int)
    requires !s.host.status.Waiting? && s.toEc == []
    ensures var n := (s.host.seqNum + 1) % 4;
            var q := Request(s.host.id + 1, n, false);
            Step(s, HostBegins(tries))
            == s.(host := Host(q.id, n, false, tries, Waiting), toEc := [Intact(q)],
            sent := s.sent + [q], tries := s.tries + [tries])
  {
    assert s.toEc + [Intact(Request(s.host.id + 1, (s.host.seqNum + 1) % 4, false))]
        == [Intact(Request(s.host.id + 1, (s.host.seqNum + 1) % 4, false))];
  }

  lemma ProcessesOnly(s: State, q: Request)
    requires s.toEc == [Intact(q)] && !q.seqDup
    ensures Step(s, EcReceives(false))
         == s.(ec := Ec(q.id, q.seqNum, false, q.id), toEc := [],
            toHost := s.toHost + [Received(Response(q.seqNum, false, q.id, q.id))],
            processed := s.processed + [q.id])
  {
    assert s.toEc[1..] == [];
  }

  lemma LosesOnly(s: State)
    requires |s.toEc| == 1
    ensures Step(s, RequestLost(0)) == s.(toEc := [])
  {
    assert s.toEc[..0] + s.toEc[1..] == [];
  }

  lemma GivesUp(s: State)
    requires s.host.status.Waiting? && s.host.triesLeft == 1
    ensures Step(s, HostTimesOut) == s.(host := s.host.(triesLeft := 0, status := Failed))
  {
  }

  lemma AbandonedRound(s: State)
    requires !s.host.status.Waiting? && s.toEc == []
    ensures var n := (s.host.seqNum + 1) % 4;
            var id := s.host.id + 1;
            Run(s, ABANDONED)
            == State(Host(id, n, false, 0, Failed), Ec(id, n, false, id), [],
                     s.toHost + [Received(Response(n, false, id, id))],
                     s.processed + [id], s.sent + [Request(id, n, false)], s.tries + [1])
  {
    hide Run, Step;
    RunThree(s, HostBegins(1), EcReceives(false), HostTimesOut);
    BeginsAlone(s, 1);
    var s1 := Step(s, HostBegins(1));
    ProcessesOnly(s1, s1.toEc[0].q);
    GivesUp(Step(s1, EcReceives(false)));
  }

  /** A response can come too late: here all earlier requests were processed, and the host
      takes the response to request 1 for that to request 5. */
  lemma LateResponseAccepted() returns (actions: seq<Action>)
    ensures Initial(QUIET)
    ensures var t := Run(QUIET, actions);
            && t.host.id == 5 && t.host.status == Succeeded(Response(1, false, 1, 1))
            && t.processed == [1, 2, 3, 4]
  {
    hide Run, ABANDONED;
    AbandonedRound(QUIET);
    var t1 := Run(QUIET, ABANDONED);
    AbandonedRound(t1);
    var t2 := Run(t1, ABANDONED);
    AbandonedRound(t2);
    var t3 := Run(t2, ABANDONED);
    AbandonedRound(t3);
    var t4 := Run(t3, ABANDONED);
    RunAppend(QUIET, ABANDONED, ABANDONED);
    RunAppend(QUIET, ABANDONED + ABANDONED, ABANDONED);
    RunAppend(QUIET, ABANDONED + ABANDONED + ABANDONED, ABANDONED);
    var four := ABANDONED + ABANDONED + ABANDONED + ABANDONED;
    var last: seq<Action> := [HostBegins(1), HostReceives, HostTimesOut];
    RunAppend(QUIET, four, last);
    RunThree(t4, HostBegins(1), HostReceives, HostTimesOut);
    actions := four + last;
  }

  /** A request that never arrives. */
  const UNHEARD: seq<Action> := [HostBegins(1), RequestLost(0), HostTimesOut]

  lemma UnheardRound(s: State)
    requires !s.host.status.Waiting? && s.toEc == []
    ensures var n := (s.host.seqNum + 1) % 4;
            var id := s.host.id + 1;
            Run(s, UNHEARD)
            == s.(host := Host(id, n, false, 0, Failed), sent := s.sent + [Request(id, n, false)],
            tries := s.tries + [1])
  {
    hide Run, Step;
    RunThree(s, HostBegins(1), RequestLost(0), HostTimesOut);
    BeginsAlone(s, 1);
    var s1 := Step(s, HostBegins(1));
    LosesOnly(s1);
    GivesUp(Step(s1, RequestLost(0)));
    assert s.(toEc := []) == s;
  }

  /** The EC can take a retry for that of a request four before: here requests 2, 3 and 4 never
      arrived, and request 5 is answered, in time, with the response to request 1. */
  lemma UnprocessedResponseAccepted() returns (actions: seq<Action>)
    ensures Initial(QUIET)
    ensures var t := Run(QUIET, actions);
            && t.host.id == 5 && t.host.status == Succeeded(Response(1, true, 1, 5))
            && t.processed == [1]
  {
    hide Run, ABANDONED, UNHEARD;
    AbandonedRound(QUIET);
    var t1 := Run(QUIET, ABANDONED);
    UnheardRound(t1);
    var t2 := Run(t1, UNHEARD);
    UnheardRound(t2);
    var t3 := Run(t2, UNHEARD);
    UnheardRound(t3);
    var t4 := Run(t3, UNHEARD);
    RunAppend(QUIET, ABANDONED, UNHEARD);
    RunAppend(QUIET, ABANDONED + UNHEARD, UNHEARD);
    RunAppend(QUIET, ABANDONED + UNHEARD + UNHEARD, UNHEARD);
    var four := ABANDONED + UNHEARD + UNHEARD + UNHEARD;
    var retry: seq<Action> := [HostBegins(2), RequestLost(0), HostTimesOut];
    var answer: seq<Action> := [ReplyLost(0), EcReceives(false), HostReceives];
    RunAppend(QUIET, four, retry);
    RunAppend(QUIET, four + retry, answer);
    RetryRound(t4);
    AnswerRound(Run(t4, retry));
    actions := four + retry + answer;
  }

  /** A request whose first packet is lost, and whose second is sent. */
  lemma RetryRound(s: State)
    requires !s.host.status.Waiting? && s.toEc == []
    ensures var n := (s.host.seqNum + 1) % 4;
            var id := s.host.id + 1;
            Run(s, [HostBegins(2), RequestLost(0), HostTimesOut])
            == s.(host := Host(id, n, true, 1, Waiting), toEc := [Intact(Request(id, n, true))],
            sent := s.sent + [Request(id, n, false)] + [Request(id, n, true)], tries := s.tries + [2])
  {
    hide Run, Step;
    RunThree(s, HostBegins(2), RequestLost(0), HostTimesOut);
    BeginsAlone(s, 2);
    var s1 := Step(s, HostBegins(2));
    LosesOnly(s1);
    Resends(Step(s1, RequestLost(0)));
  }

  lemma Resends(s: State)
    requires s.host.status.Waiting? && s.host.triesLeft >= 2 && s.toEc == []
    ensures var h := s.host.(triesLeft := s.host.triesLeft - 1, seqDup := true);
            Step(s, HostTimesOut)
            == s.(host := h, toEc := [Intact(Packet(h))], sent := s.sent + [Packet(h)])
  {
    var h := s.host.(triesLeft := s.host.triesLeft - 1, seqDup := true);
    assert [] + [Intact(Packet(h))] == [Intact(Packet(h))];
  }

  /** The EC takes the retry for one of the request in its response buffer. */
  lemma AnswerRound(s: State)
    requires s.host.status.Waiting? && s.host.seqDup && |s.toHost| == 1
    requires s.toEc == [Intact(Packet(s.host))] && s.ec.seqNum == s.host.seqNum
    ensures var t := Run(s, [ReplyLost(0), EcReceives(false), HostReceives]);
            var r := Response(s.host.seqNum, true, s.ec.computedFrom, s.host.id);
            t.host == s.host.(status := Succeeded(r)) && t.processed == s.processed
  {
    hide Run;
    RunThree(s, ReplyLost(0), EcReceives(false), HostReceives);
    var s1 := Step(s, ReplyLost(0));
    assert s1.toHost == [];
    var s2 := Step(s1, EcReceives(false));
    assert s2.toHost == [Received(Response(s.host.seqNum, true, s.ec.computedFrom, s.host.id))];
    assert s2.processed == s.processed;
  }
}
