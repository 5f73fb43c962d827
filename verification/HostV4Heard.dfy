/** How a V4 host can tell, from what it has received itself, that a request will return its own
    response. The link to the host keeps the order of the replies, so an accepted response
    leaves nothing older behind it.
 */
module HostV4Heard {
  import opened Sequences
  import opened HostV4
  import opened HostV4Safety
  import opened HostV4Theorems
  import opened HostV4Freshness

  predicate IsResponse(p: AtHost) {
    p.Received? && p.r.Response?
  }

  /** The host holds a response from the response buffer. */
  predicate Accepts(s: State) {
    s.host.status.Succeeded? && s.host.status.reply.Response?
  }

  /** The EC has answered request `k` or a later one, and no response to an older one is on its
      way or held by the host. */
  ghost predicate Heard(s: State, k: int) {
    && k <= s.ec.answered
    && (Accepts(s) ==> k <= s.host.status.reply.answers)
    && forall i :: 0 <= i < |s.toHost| && IsResponse(s.toHost[i]) ==> k <= s.toHost[i].r.answers
  }

  predicate InOrder(replies: seq<AtHost>) {
    forall i, j :: 0 <= i < j < |replies| && IsResponse(replies[i]) && IsResponse(replies[j]) ==>
                     replies[i].r.answers <= replies[j].r.answers
  }

  /** Responses come in the order of the requests they answer, after the one accepted. */
  ghost predicate Ordered(s: State) {
    && InOrder(s.toHost)
    && (Accepts(s) ==> Heard(s, s.host.status.reply.answers))
  }

  // ---- what is heard stays heard -------------------------------------------------------------

  lemma StepHeard(s: State, base: int, k: int, a: Action)
    requires Inv(s, base) && Heard(s, k)
    ensures Heard(Step(s, a), k)
  {
    hide ProcessedOk, RepliesOk;
    var t := Step(s, a);
    if Enabled(s, a) {
      match a
      case HostReceives =>
        assert forall i :: 0 <= i < |t.toHost| ==> t.toHost[i] == s.toHost[i + 1];
      case ReplyLost(i) =>
        assert forall k :: 0 <= k < |t.toHost| ==> t.toHost[k] == s.toHost[if k < i then k else k + 1];
      case _ =>
    }
  }

  lemma {:induction false} InvAlong(s: State, base: int, actions: seq<Action>)
    requires Inv(s, base)
    ensures Inv(Run(s, actions), base)
    decreases |actions|
  {
    hide Inv, Step;
    if actions != [] {
      var n := |actions| - 1;
      InvAlong(s, base, actions[..n]);
      StepKeeps(Run(s, actions[..n]), base, actions[n]);
    }
  }

  lemma {:induction false} RunHeard(s: State, base: int, k: int, actions: seq<Action>)
    requires Inv(s, base) && Heard(s, k)
    ensures Heard(Run(s, actions), k)
    decreases |actions|
  {
    hide Inv, Heard, Step;
    if actions != [] {
      var n := |actions| - 1;
      RunHeard(s, base, k, actions[..n]);
      InvAlong(s, base, actions[..n]);
      StepHeard(Run(s, actions[..n]), base, k, actions[n]);
    }
  }

  lemma LossInOrder(s: State, a: Action)
    requires InOrder(s.toHost) && Enabled(s, a) && (a.ReplyLost? || a.ReplyDamaged?)
    ensures InOrder(Step(s, a).toHost)
  {
    var t := Step(s, a);
    if a.ReplyLost? {
      assert forall k :: 0 <= k < |t.toHost| ==> t.toHost[k] == s.toHost[if k < a.i then k else k + 1];
    }
  }

  lemma EcInOrder(s: State, base: int, gone: bool)
    requires Inv(s, base) && InOrder(s.toHost) && Enabled(s, EcReceives(gone))
    ensures InOrder(Step(s, EcReceives(gone)).toHost)
  {
    hide ProcessedOk;
  }

  lemma StepOrdered(s: State, base: int, a: Action)
    requires Inv(s, base) && Ordered(s)
    ensures Ordered(Step(s, a))
  {
    hide Inv, Heard, InOrder;
    if Accepts(s) {
      StepHeard(s, base, s.host.status.reply.answers, a);
    }
    if Enabled(s, a) {
      match a
      case HostReceives => HostReceivesOrdered(s, base);
      case EcReceives(gone) => EcInOrder(s, base, gone);
      case ReplyLost(_) => LossInOrder(s, a);
      case ReplyDamaged(_) => LossInOrder(s, a);
      case _ =>
    }
  }

  /** What stands behind an accepted response answers the same request or a later one. */
  lemma HostReceivesOrdered(s: State, base: int)
    requires Inv(s, base) && Ordered(s) && Enabled(s, HostReceives)
    ensures Ordered(Step(s, HostReceives))
  {
    hide ProcessedOk, RequestsOk;
    var t := Step(s, HostReceives);
    assert forall i :: 0 <= i < |t.toHost| ==> t.toHost[i] == s.toHost[i + 1];
  }

  lemma {:induction false} RunOrdered(s: State, actions: seq<Action>)
    requires Initial(s)
    ensures Ordered(Run(s, actions))
    decreases |actions|
  {
    hide Ordered, Step, Inv;
    if actions == [] {
      InitialOrdered(s);
    } else {
      var n := |actions| - 1;
      RunOrdered(s, actions[..n]);
      RunKeeps(s, actions[..n]);
      StepOrdered(Run(s, actions[..n]), s.host.seqNum, actions[n]);
    }
  }

  lemma InitialOrdered(s: State)
    requires Initial(s)
    ensures Ordered(s) && Heard(s, s.ec.answered)
  {
  }

  lemma ClearAfterHeard(s: State, base: int, k: int)
    requires Inv(s, base) && Heard(s, k) && s.host.id <= k + 2
    ensures Clear(s, NextNumber(s))
  {
    ClearWhenHeard(s, base);
  }

  /** Once the host has accepted a response to request k, the starts of requests k + 1, k + 2
      and k + 3 are clear, whatever happens in between. */
  lemma ClearAfterAccepted(s: State, before: seq<Action>, between: seq<Action>)
    requires Initial(s) && Accepts(Run(s, before))
    requires var t := Run(s, before); Run(t, between).host.id <= t.host.status.reply.answers + 2
    ensures var u := Run(Run(s, before), between); Clear(u, NextNumber(u))
  {
    hide Run, Inv, Clear, Heard;
    var t := Run(s, before);
    RunKeeps(s, before);
    RunOrdered(s, before);
    RunHeard(t, s.host.seqNum, t.host.status.reply.answers, between);
    InvAlong(t, s.host.seqNum, between);
    ClearAfterHeard(Run(t, between), s.host.seqNum, t.host.status.reply.answers);
  }

  lemma {:induction false} RunProcesses(s: State, actions: seq<Action>, k: int)
    requires k in s.processed
    ensures k in Run(s, actions).processed
    decreases |actions|
  {
    if actions != [] {
      RunProcesses(s, actions[..|actions| - 1], k);
    }
  }

  /** Once the host has accepted the response to its own request k, a response accepted for one
      of the requests k + 1, k + 2 and k + 3 is that request's own, which the EC has processed
      exactly once, whatever happens in between. */
  lemma FreshAfterAccepted(s: State, before: seq<Action>, between: seq<Action>)
    requires Initial(s) && Accepts(Run(s, before)) && Fresh(Run(s, before))
    requires Accepts(Run(s, before + between))
    requires Run(s, before + between).host.id <= Run(s, before).host.id + 3
    ensures var u := Run(s, before + between);
            u.host.status.reply.computedFrom == u.host.id && multiset(u.processed)[u.host.id] == 1
  {
    hide Run, Step, RequestsOk;
    var t := Run(s, before);
    RunKeeps(s, before);
    RunKeeps(s, before + between);
    RunOrdered(s, before);
    RunHeard(t, s.host.seqNum, t.host.id, between);
    RunProcesses(t, between, t.host.id);
    RunAppend(s, before, between);
    FreshIfRecentlyProcessed(s, before + between, t.host.id);
  }

  // ---- a host that does not go on unheard ------------------------------------------------------

  /** The last request for which the host accepted a response. Before the first, this is the
      request whose response the EC has in its buffer. */
  function LastAccepted(s: State, actions: seq<Action>): int
    decreases |actions|
  {
    if actions == [] then s.ec.answered
    else if Accepts(Run(s, actions)) then Run(s, actions).host.id
    else LastAccepted(s, actions[..|actions| - 1])
  }

  /** No request is begun when the three before it went without an accepted response. */
  predicate NeverThreeUnheard(s: State, actions: seq<Action>) {
    forall i :: 0 <= i < |actions| && actions[i].HostBegins? && Enabled(Run(s, actions[..i]), actions[i]) ==>
                  Run(s, actions[..i]).host.id <= LastAccepted(s, actions[..i]) + 2
  }

  /** Every number in use is that of the present request, and the last one heard stays so. */
  ghost predicate Safe(t: State, base: int, last: int) {
    && Inv(t, base) && Ordered(t) && Heard(t, last)
    && (t.host.status.Idle? || Owned(t, t.host.id, t.host.seqNum))
  }

  lemma StepSafe(t: State, base: int, last: int, a: Action)
    requires Safe(t, base, last)
    requires a.HostBegins? && Enabled(t, a) ==> t.host.id <= last + 2
    ensures var u := Step(t, a); Safe(u, base, if Accepts(u) then u.host.id else last)
  {
    hide Inv, Ordered, Heard, Owned, Clear;
    var u := Step(t, a);
    StepKeeps(t, base, a);
    StepOrdered(t, base, a);
    StepHeard(t, base, last, a);
    if a.HostBegins? && Enabled(t, a) {
      ClearAfterHeard(t, base, last);
      BeginOwned(t, a.tries);
      Begun(t, a.tries);
    } else if t.host.status.Idle? {
      assert u.host == t.host;
    } else {
      if a.HostBegins? {
        assert u == t;
      } else {
        StepOwned(t, t.host.id, t.host.seqNum, a);
      }
      OwnedHost(u, t.host.id, t.host.seqNum);
      if Accepts(u) {
        AcceptedAnswers(u, base);
      }
    }
  }

  lemma OwnedHost(t: State, n: int, number: int)
    requires Owned(t, n, number)
    ensures t.host.id == n && t.host.seqNum == number
  {
  }

  lemma AcceptedAnswers(t: State, base: int)
    requires Inv(t, base) && Ordered(t) && Owned(t, t.host.id, t.host.seqNum) && Accepts(t)
    ensures Heard(t, t.host.id)
  {
    hide RequestsOk;
    assert t.host.status.reply.computedFrom == t.host.id;
  }

  lemma {:induction false} RunSafe(s: State, actions: seq<Action>)
    requires Initial(s) && NeverThreeUnheard(s, actions)
    ensures Safe(Run(s, actions), s.host.seqNum, LastAccepted(s, actions))
    decreases |actions|
  {
    hide Safe, Step;
    if actions == [] {
      InitialSafe(s);
    } else {
      var n := |actions| - 1;
      NeverThreeBefore(s, actions, n);
      RunSafe(s, actions[..n]);
      StepSafe(Run(s, actions[..n]), s.host.seqNum, LastAccepted(s, actions[..n]), actions[n]);
    }
  }

  lemma InitialSafe(s: State)
    requires Initial(s)
    ensures Safe(s, s.host.seqNum, s.ec.answered)
  {
    InitialInv(s);
    InitialOrdered(s);
  }

  lemma NeverThreeBefore(s: State, actions: seq<Action>, n: nat)
    requires NeverThreeUnheard(s, actions) && n <= |actions|
    ensures NeverThreeUnheard(s, actions[..n])
  {
    hide Run, Enabled, LastAccepted;
    forall i | 0 <= i < n
      ensures actions[..n][..i] == actions[..i]
    {
    }
  }

  /** A host that never begins a request when three in a row went without an accepted response
      is safe all the time: at every point of the run, a response it has accepted is that of its
      own request, which the EC has processed exactly once, and a response that stops it at
      step 208 means that its request was processed. */
  lemma FreshAllTheTime(s: State, actions: seq<Action>, i: nat)
    requires Initial(s) && NeverThreeUnheard(s, actions) && i <= |actions|
    ensures var t := Run(s, actions[..i]);
            && (Accepts(t) ==>
                  t.host.status.reply.computedFrom == t.host.id && multiset(t.processed)[t.host.id] == 1)
            && (StopsAt208(t) ==> t.host.id in t.processed)
  {
    hide Run, NeverThreeUnheard, Inv, Ordered, Heard;
    NeverThreeBefore(s, actions, i);
    RunSafe(s, actions[..i]);
    var t := Run(s, actions[..i]);
    ProcessedAtMostOnce(s, actions[..i]);
    IncreasingOnce(t.processed, t.host.id);
  }

  // ---- three is as far as it goes ----------------------------------------------------------------

  lemma UnheardRounds(s: State)
    requires !s.host.status.Waiting? && s.toEc == []
    ensures var u := Run(s, UNHEARD + UNHEARD + UNHEARD);
            && u.host == Host(s.host.id + 3, (s.host.seqNum + 3) % 4, false, 0, Failed)
            && u.ec == s.ec
  {
    hide Run, UNHEARD;
    UnheardRound(s);
    var u1 := Run(s, UNHEARD);
    UnheardRound(u1);
    var u2 := Run(u1, UNHEARD);
    UnheardRound(u2);
    RunAppend(s, UNHEARD, UNHEARD);
    RunAppend(s, UNHEARD + UNHEARD, UNHEARD);
  }

  /** After any accepted response, the next three requests can go unheard such that the one
      after them takes a stale one. */
  lemma FourthCanBeStale(s: State, base: int, tries: int) returns (between: seq<Action>, rest: seq<Action>)
    requires Inv(s, base) && Accepts(s) && Fresh(s) && tries >= 2
    ensures var u := Run(s, between); !u.host.status.Waiting? && u.host.id == s.host.id + 3
    ensures Continues(rest) && !Fresh(After(Run(s, between), tries, rest))
  {
    hide Run, UNHEARD, Repeat;
    var lost := Repeat(RequestLost(0), |s.toEc|);
    DropRequests(s, |s.toEc|);
    UnheardRounds(Run(s, lost));
    between := lost + (UNHEARD + UNHEARD + UNHEARD);
    RunAppend(s, lost, UNHEARD + UNHEARD + UNHEARD);
    InvAlong(s, base, between);
    BufferHasNumber(s, base);
    rest := StaleBuffer(Run(s, between), base, tries);
  }

  lemma BufferHasNumber(s: State, base: int)
    requires Inv(s, base) && Accepts(s) && Fresh(s)
    ensures s.ec.seqNum == s.host.seqNum == ((s.host.seqNum + 3) % 4 + 1) % 4
  {
    assert s.ec.computedFrom == s.host.id;
  }
}
