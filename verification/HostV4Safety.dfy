/** What every run of host command protocol V4 keeps. */
module HostV4Safety {
  import opened HostV4

  /** The sequence number of request `id`, when request 0 had number `base`. */
  function SeqOf(base: int, id: int): int {
    (base + id) % 4
  }

  /** `y` may follow `x` on the link to the EC: packets come in the order of their requests,
      and only the first packet of a request has seq_dup clear. */
  predicate Later(x: int, y: Request) {
    x < y.id || (x == y.id && y.seqDup)
  }

  /** The link to the EC. */
  ghost predicate RequestsOk(s: State, base: int) {
    && (forall i :: 0 <= i < |s.toEc| && s.toEc[i].Intact? ==>
                      var q := s.toEc[i].q;
                      && 1 <= q.id <= s.host.id && q.seqNum == SeqOf(base, q.id) && Later(s.ec.answered, q)
                      && (q.id == s.host.id && q.seqDup ==> s.host.seqDup))
    && (forall i, j :: 0 <= i < j < |s.toEc| && s.toEc[i].Intact? && s.toEc[j].Intact? ==>
                         Later(s.toEc[i].q.id, s.toEc[j].q))
  }

  /** The requests processed are in increasing order, and the response buffer has the last. */
  ghost predicate ProcessedOk(s: State, base: int) {
    && (forall i, j :: 0 <= i < j < |s.processed| ==> s.processed[i] < s.processed[j])
    && (forall i :: 0 <= i < |s.processed| ==> 1 <= s.processed[i] <= s.ec.computedFrom)
    && (s.ec.computedFrom > 0 ==> s.ec.computedFrom in s.processed)
    && s.ec.computedFrom <= s.ec.answered <= s.host.id
    && s.ec.seqNum == SeqOf(base, s.ec.computedFrom) == SeqOf(base, s.ec.answered)
  }

  /** A response that is on its way, or has been accepted. */
  ghost predicate ResponseOk(s: State, base: int, r: Reply)
    requires r.Response?
  {
    && r.computedFrom <= r.answers <= s.ec.answered
    && r.seqNum == SeqOf(base, r.computedFrom) == SeqOf(base, r.answers)
    && (r.computedFrom > 0 ==> r.computedFrom in s.processed)
    && (forall k :: r.computedFrom < k <= r.answers ==> k !in s.processed)
    && (!r.seqDup ==> r.computedFrom == r.answers)
    && (r.seqDup && 1 <= r.answers == s.host.id ==> s.host.seqDup)
  }

  ghost predicate RepliesOk(s: State, base: int) {
    && (forall i :: 0 <= i < |s.toHost| && s.toHost[i].Received? && s.toHost[i].r.Response? ==>
                      ResponseOk(s, base, s.toHost[i].r))
    && (s.host.status.Succeeded? && s.host.status.reply.Response? ==>
          var r := s.host.status.reply;
          ResponseOk(s, base, r) && r.seqNum == s.host.seqNum && r.seqDup == s.host.seqDup)
  }

  ghost predicate Inv(s: State, base: int) {
    && 0 <= s.host.id && (s.host.status.Idle? || 1 <= s.host.id)
    && s.host.seqNum == SeqOf(base, s.host.id)
    && RequestsOk(s, base) && ProcessedOk(s, base) && RepliesOk(s, base)
  }

  lemma InitialInv(s: State)
    requires Initial(s)
    ensures Inv(s, s.host.seqNum)
  {
  }

  // ---- every step keeps it -----------------------------------------------------------------

  lemma BeginKeeps(s: State, base: int, tries: int)
    requires Inv(s, base) && Enabled(s, HostBegins(tries))
    ensures Inv(Step(s, HostBegins(tries)), base)
  {
    NextSeq(base, s.host.id);
  }

  lemma NextSeq(base: int, id: int)
    ensures SeqOf(base, id + 1) == (SeqOf(base, id) + 1) % 4
  {
  }

  lemma RetryKeeps(s: State, base: int)
    requires Inv(s, base) && s.host.status.Waiting?
    ensures Inv(Transmit(s, Retry(s.host)), base)
  {
  }

  lemma HostReceivesKeeps(s: State, base: int)
    requires Inv(s, base) && Enabled(s, HostReceives)
    ensures Inv(Step(s, HostReceives), base)
  {
    var p := s.toHost[0];
    var t := s.(toHost := s.toHost[1..]);
    assert forall i :: 0 <= i < |t.toHost| ==> t.toHost[i] == s.toHost[i + 1];
    assert RepliesOk(t, base);
    if OnReply(t.host, p) == Retry(t.host) {
      RetryKeeps(t, base);
    }
  }

  lemma EcReceivesKeeps(s: State, base: int, gone: bool)
    requires Inv(s, base) && Enabled(s, EcReceives(gone))
    ensures Inv(Step(s, EcReceives(gone)), base)
  {
    hide RequestsOk, ProcessedOk, RepliesOk;
    EcRequests(s, base, gone);
    if s.toEc[0].Intact? {
      EcHistory(s, base, gone);
    } else {
      EcDamaged(s, base, gone);
    }
    EcReplies(s, base, gone);
  }

  lemma EcRequests(s: State, base: int, gone: bool)
    requires Inv(s, base) && Enabled(s, EcReceives(gone))
    ensures RequestsOk(Step(s, EcReceives(gone)), base)
  {
    hide ProcessedOk, RepliesOk;
    var t := Step(s, EcReceives(gone));
    assert forall i :: 0 <= i < |t.toEc| ==> t.toEc[i] == s.toEc[i + 1];
  }

  lemma EcDamaged(s: State, base: int, gone: bool)
    requires Inv(s, base) && Enabled(s, EcReceives(gone)) && s.toEc[0].Damaged?
    ensures ProcessedOk(Step(s, EcReceives(gone)), base)
  {
    assert Step(s, EcReceives(gone)).processed == s.processed;
  }

  lemma EcReplies(s: State, base: int, gone: bool)
    requires Inv(s, base) && Enabled(s, EcReceives(gone))
    ensures RepliesOk(Step(s, EcReceives(gone)), base)
  {
    var t := Step(s, EcReceives(gone));
    if s.toEc[0].Intact? {
      EcHistory(s, base, gone);
      forall r: Reply | r.Response? && ResponseOk(s, base, r)
        ensures ResponseOk(t, base, r)
      {
      }
    } else {
      assert t.processed == s.processed;
    }
  }

  /** The history after an intact packet: a request is processed only after all before it. */
  lemma EcHistory(s: State, base: int, gone: bool)
    requires Inv(s, base) && s.toEc != [] && s.toEc[0].Intact?
    ensures var t := Step(s, EcReceives(gone));
            && ProcessedOk(t, base)
            && (forall k :: k in t.processed ==> k in s.processed || k > s.ec.answered)
            && (forall k :: k in s.processed ==> k in t.processed)
            && (forall k :: t.ec.computedFrom < k ==> k !in t.processed)
  {
    var t := Step(s, EcReceives(gone));
    var act := OnRequest(s.ec, s.toEc[0], gone);
    if act.processed {
      var q := s.toEc[0].q;
      assert q.id > s.ec.answered;
      assert t.processed == s.processed + [q.id];
      assert q.id == t.processed[|s.processed|];
      assert forall i :: 0 <= i < |s.processed| ==> t.processed[i] == s.processed[i];
      assert forall k :: k in t.processed <==> k in s.processed || k == q.id;
    } else {
      assert t.processed == s.processed;
    }
  }

  lemma SameReplies(s: State, t: State, base: int)
    requires RepliesOk(s, base)
    requires t.host == s.host && t.ec == s.ec && t.processed == s.processed && t.toHost == s.toHost
    ensures RepliesOk(t, base)
  {
  }

  lemma SameRequests(s: State, t: State, base: int)
    requires RequestsOk(s, base)
    requires t.host == s.host && t.ec == s.ec && t.toEc == s.toEc
    ensures RequestsOk(t, base)
  {
  }

  /** Losing or damaging a packet to the EC. */
  lemma RequestLossKeeps(s: State, base: int, a: Action)
    requires Inv(s, base) && Enabled(s, a) && (a.RequestLost? || a.RequestDamaged?)
    ensures Inv(Step(s, a), base)
  {
    hide RepliesOk;
    var t := Step(s, a);
    SameReplies(s, t, base);
    if a.RequestLost? {
      assert forall k :: 0 <= k < |t.toEc| ==> t.toEc[k] == s.toEc[if k < a.i then k else k + 1];
    }
  }

  /** Losing or damaging a packet to the host. */
  lemma ReplyLossKeeps(s: State, base: int, a: Action)
    requires Inv(s, base) && Enabled(s, a) && (a.ReplyLost? || a.ReplyDamaged?)
    ensures Inv(Step(s, a), base)
  {
    hide RequestsOk;
    var t := Step(s, a);
    SameRequests(s, t, base);
    if a.ReplyLost? {
      assert forall k :: 0 <= k < |t.toHost| ==> t.toHost[k] == s.toHost[if k < a.i then k else k + 1];
    }
  }

  lemma StepKeeps(s: State, base: int, a: Action)
    requires Inv(s, base)
    ensures Inv(Step(s, a), base)
  {
    if Enabled(s, a) {
      match a
      case HostBegins(tries) => BeginKeeps(s, base, tries);
      case HostTimesOut => RetryKeeps(s, base);
      case HostReceives => HostReceivesKeeps(s, base);
      case EcReceives(gone) => EcReceivesKeeps(s, base, gone);
      case RequestLost(_) => RequestLossKeeps(s, base, a);
      case RequestDamaged(_, _, _) => RequestLossKeeps(s, base, a);
      case _ => ReplyLossKeeps(s, base, a);
    }
  }

  lemma {:induction false} RunKeeps(s: State, actions: seq<Action>)
    requires Initial(s)
    ensures Inv(Run(s, actions), s.host.seqNum)
    decreases |actions|
  {
    hide Inv, Step;
    if actions == [] {
      InitialInv(s);
    } else {
      var n := |actions| - 1;
      RunKeeps(s, actions[..n]);
      StepKeeps(Run(s, actions[..n]), s.host.seqNum, actions[n]);
    }
  }
}
