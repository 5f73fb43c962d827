/** When a V4 host can rely on what a request returns, told from the state in which the request
    is begun. Nothing that is left over may carry the two-bit number the request will get.
 */
module HostV4Freshness {
  import opened Sequences
  import opened HostV4
  import opened HostV4Safety
  import opened HostV4Theorems

  /** The rest of a request: anything but the start of another one. */
  predicate Continues(rest: seq<Action>) {
    forall i :: 0 <= i < |rest| ==> !rest[i].HostBegins?
  }

  /** The state in which a request has been begun and `rest` has happened. */
  function After(s: State, tries: int, rest: seq<Action>): State {
    Run(Step(s, HostBegins(tries)), rest)
  }

  /** The number that the next request gets. */
  function NextNumber(s: State): int {
    (s.host.seqNum + 1) % 4
  }

  predicate Carries(p: AtHost, number: int) {
    p.Received? && p.r.Response? && p.r.seqNum == number
  }

  predicate Requests(p: AtEc, number: int) {
    p.Intact? && p.q.seqNum == number
  }

  /** Neither the response buffer nor anything on the links has this number. */
  predicate Clear(s: State, number: int) {
    && s.ec.seqNum != number
    && (forall i :: 0 <= i < |s.toEc| ==> !Requests(s.toEc[i], number))
    && (forall i :: 0 <= i < |s.toHost| ==> !Carries(s.toHost[i], number))
  }

  /** A response that the host has accepted is that of its own request, which was processed. */
  predicate Fresh(t: State) {
    t.host.status.Succeeded? && t.host.status.reply.Response? ==>
      t.host.status.reply.computedFrom == t.host.id && t.host.id in t.processed
  }

  // ---- a clear start is enough -----------------------------------------------------------

  /** Everything with the number of the request belongs to the request. */
  ghost predicate Owned(t: State, n: int, number: int) {
    && t.host.id == n && t.host.seqNum == number
    && (t.ec.seqNum == number ==> t.ec.computedFrom == n && n in t.processed)
    && (forall i :: 0 <= i < |t.toEc| && Requests(t.toEc[i], number) ==> t.toEc[i].q.id == n)
    && (forall i :: 0 <= i < |t.toHost| && Carries(t.toHost[i], number) ==>
                      t.toHost[i].r.computedFrom == n && n in t.processed)
    && Fresh(t)
  }

  lemma BeginOwned(s: State, tries: int)
    requires !s.host.status.Waiting? && Clear(s, NextNumber(s))
    ensures Owned(Step(s, HostBegins(tries)), s.host.id + 1, NextNumber(s))
  {
  }

  lemma HostOwned(t: State, n: int, number: int, act: HostAction)
    requires Owned(t, n, number) && act.host.id == n && act.host.seqNum == number
    requires act.send.Some? ==> act.send.value.id == n
    requires act.host.status.Succeeded? && act.host.status.reply.Response? ==>
               act.host.status.reply.computedFrom == n && n in t.processed
    ensures Owned(Transmit(t, act), n, number)
  {
  }

  lemma HostReceivesOwned(t: State, n: int, number: int)
    requires Owned(t, n, number) && Enabled(t, HostReceives)
    ensures Owned(Step(t, HostReceives), n, number)
  {
    var u := t.(toHost := t.toHost[1..]);
    assert forall i :: 0 <= i < |u.toHost| ==> u.toHost[i] == t.toHost[i + 1];
    HostOwned(u, n, number, OnReply(t.host, t.toHost[0]));
  }

  lemma EcReceivesOwned(t: State, n: int, number: int, gone: bool)
    requires Owned(t, n, number) && Enabled(t, EcReceives(gone))
    ensures Owned(Step(t, EcReceives(gone)), n, number)
  {
    var u := Step(t, EcReceives(gone));
    assert forall i :: 0 <= i < |u.toEc| ==> u.toEc[i] == t.toEc[i + 1];
    assert forall k :: k in t.processed ==> k in u.processed;
    if Requests(t.toEc[0], number) && OnRequest(t.ec, t.toEc[0], gone).processed {
      assert u.processed[|t.processed|] == n;
    }
  }

  lemma LossOwned(t: State, n: int, number: int, a: Action)
    requires Owned(t, n, number) && Enabled(t, a)
    requires a.RequestLost? || a.ReplyLost? || a.RequestDamaged? || a.ReplyDamaged?
    ensures Owned(Step(t, a), n, number)
  {
    var u := Step(t, a);
    match a
    case RequestLost(i) =>
      assert forall k :: 0 <= k < |u.toEc| ==> u.toEc[k] == t.toEc[if k < i then k else k + 1];
    case ReplyLost(i) =>
      assert forall k :: 0 <= k < |u.toHost| ==> u.toHost[k] == t.toHost[if k < i then k else k + 1];
    case _ =>
  }

  lemma StepOwned(t: State, n: int, number: int, a: Action)
    requires Owned(t, n, number) && !a.HostBegins?
    ensures Owned(Step(t, a), n, number)
  {
    if Enabled(t, a) {
      match a
      case HostTimesOut => HostOwned(t, n, number, Retry(t.host));
      case HostReceives => HostReceivesOwned(t, n, number);
      case EcReceives(gone) => EcReceivesOwned(t, n, number, gone);
      case _ => LossOwned(t, n, number, a);
    }
  }

  lemma {:induction false} RunOwned(t: State, n: int, number: int, rest: seq<Action>)
    requires Owned(t, n, number) && Continues(rest)
    ensures Owned(Run(t, rest), n, number)
    decreases |rest|
  {
    hide Owned, Step;
    if rest != [] {
      var k := |rest| - 1;
      RunOwned(t, n, number, rest[..k]);
      StepOwned(Run(t, rest[..k]), n, number, rest[k]);
    }
  }

  /** A request begun in a clear state never returns a response that is not its own. This needs
      no history: it holds from every state, reachable or not. */
  lemma ClearStartIsFresh(s: State, tries: int, rest: seq<Action>)
    requires !s.host.status.Waiting? && Clear(s, NextNumber(s)) && Continues(rest)
    ensures Fresh(After(s, tries, rest))
  {
    hide Run, Step, Clear;
    BeginOwned(s, tries);
    RunOwned(Step(s, HostBegins(tries)), s.host.id + 1, NextNumber(s), rest);
  }

  // ---- a single try ------------------------------------------------------------------------

  lemma Begun(s: State, tries: int)
    requires !s.host.status.Waiting?
    ensures var t := Step(s, HostBegins(tries));
            && t.host == Host(s.host.id + 1, NextNumber(s), false, tries, Waiting)
            && t.toEc == s.toEc + [Intact(Packet(t.host))] && t.toHost == s.toHost
            && t.ec == s.ec && t.processed == s.processed
  {
  }

  /** No first packet with this number, and no response to one, is on the links. */
  predicate ClearOfFirsts(s: State, number: int) {
    && (forall i :: 0 <= i < |s.toEc| && Requests(s.toEc[i], number) ==> s.toEc[i].q.seqDup)
    && (forall i :: 0 <= i < |s.toHost| && Carries(s.toHost[i], number) ==> s.toHost[i].r.seqDup)
  }

  /** First packets with the number of the request are its own, and responses to them come
      from processing it, those accepted too. */
  ghost predicate FirstsOwned(t: State, n: int, number: int) {
    && t.host.id == n && t.host.seqNum == number
    && (forall i :: 0 <= i < |t.toEc| && Requests(t.toEc[i], number) && !t.toEc[i].q.seqDup ==>
                      t.toEc[i].q.id == n)
    && (forall i :: 0 <= i < |t.toHost| && Carries(t.toHost[i], number) && !t.toHost[i].r.seqDup ==>
                      t.toHost[i].r.computedFrom == n && n in t.processed)
    && (t.host.status.Succeeded? && t.host.status.reply.Response? && !t.host.status.reply.seqDup ==>
          t.host.status.reply.computedFrom == n && n in t.processed)
  }

  lemma StepFirstsOwned(t: State, n: int, number: int, a: Action)
    requires FirstsOwned(t, n, number) && !a.HostBegins?
    ensures FirstsOwned(Step(t, a), n, number)
  {
    if Enabled(t, a) {
      match a
      case HostTimesOut =>
      case HostReceives => HostReceivesFirsts(t, n, number);
      case EcReceives(gone) => EcReceivesFirsts(t, n, number, gone);
      case _ => LossFirsts(t, n, number, a);
    }
  }

  lemma HostReceivesFirsts(t: State, n: int, number: int)
    requires FirstsOwned(t, n, number) && Enabled(t, HostReceives)
    ensures FirstsOwned(Step(t, HostReceives), n, number)
  {
    var u := Step(t, HostReceives);
    assert forall i :: 0 <= i < |u.toHost| ==> u.toHost[i] == t.toHost[i + 1];
  }

  lemma EcReceivesFirsts(t: State, n: int, number: int, gone: bool)
    requires FirstsOwned(t, n, number) && Enabled(t, EcReceives(gone))
    ensures FirstsOwned(Step(t, EcReceives(gone)), n, number)
  {
    var u := Step(t, EcReceives(gone));
    assert forall i :: 0 <= i < |u.toEc| ==> u.toEc[i] == t.toEc[i + 1];
    assert forall k :: k in t.processed ==> k in u.processed;
    if Requests(t.toEc[0], number) && !t.toEc[0].q.seqDup {
      assert u.processed[|t.processed|] == n;
    }
  }

  lemma LossFirsts(t: State, n: int, number: int, a: Action)
    requires FirstsOwned(t, n, number) && Enabled(t, a)
    requires a.RequestLost? || a.ReplyLost? || a.RequestDamaged? || a.ReplyDamaged?
    ensures FirstsOwned(Step(t, a), n, number)
  {
    var u := Step(t, a);
    match a
    case RequestLost(i) =>
      assert forall k :: 0 <= k < |u.toEc| ==> u.toEc[k] == t.toEc[if k < i then k else k + 1];
    case ReplyLost(i) =>
      assert forall k :: 0 <= k < |u.toHost| ==> u.toHost[k] == t.toHost[if k < i then k else k + 1];
    case _ =>
  }

  lemma {:induction false} RunFirstsOwned(t: State, n: int, number: int, rest: seq<Action>)
    requires FirstsOwned(t, n, number) && Continues(rest)
    ensures FirstsOwned(Run(t, rest), n, number)
    decreases |rest|
  {
    hide FirstsOwned, Step;
    if rest != [] {
      var k := |rest| - 1;
      RunFirstsOwned(t, n, number, rest[..k]);
      StepFirstsOwned(Run(t, rest[..k]), n, number, rest[k]);
    }
  }

  /** The next reply stops the host at step 208, and it is a response. */
  predicate StopsAt208(t: State) {
    && t.host.status.Waiting? && t.host.seqDup
    && t.toHost != [] && Carries(t.toHost[0], t.host.seqNum) && !t.toHost[0].r.seqDup
  }

  /** A host with a single try sends no retry, and takes only a response to a first packet. */
  predicate SingleTry(t: State) {
    && !t.host.seqDup && (t.host.status.Waiting? ==> t.host.triesLeft <= 1)
    && (t.host.status.Succeeded? && t.host.status.reply.Response? ==> !t.host.status.reply.seqDup)
  }

  lemma {:induction false} RunSingleTry(t: State, rest: seq<Action>)
    requires SingleTry(t) && Continues(rest)
    ensures SingleTry(Run(t, rest)) && !StopsAt208(Run(t, rest))
    decreases |rest|
  {
    if rest != [] {
      var k := |rest| - 1;
      RunSingleTry(t, rest[..k]);
      StepSingleTry(Run(t, rest[..k]), rest[k]);
    }
  }

  lemma StepSingleTry(t: State, a: Action)
    requires SingleTry(t) && !a.HostBegins?
    ensures SingleTry(Step(t, a))
  {
  }

  /** With a single try it is enough that nothing is left over of a first packet. */
  lemma SingleTryIsFresh(s: State, tries: int, rest: seq<Action>)
    requires !s.host.status.Waiting? && ClearOfFirsts(s, NextNumber(s)) && Continues(rest) && tries <= 1
    ensures Fresh(After(s, tries, rest))
  {
    hide Run, Step, Continues;
    Begun(s, tries);
    RunSingleTry(Step(s, HostBegins(tries)), rest);
    RunFirstsOwned(Step(s, HostBegins(tries)), s.host.id + 1, NextNumber(s), rest);
  }

  /** What must not be left over when a request is begun that is allowed `tries` tries. */
  predicate ClearFor(s: State, tries: int) {
    if tries >= 2 then Clear(s, NextNumber(s)) else ClearOfFirsts(s, NextNumber(s))
  }

  lemma ClearForIsFresh(s: State, tries: int, rest: seq<Action>)
    requires !s.host.status.Waiting? && ClearFor(s, tries) && Continues(rest)
    ensures Fresh(After(s, tries, rest))
  {
    hide Fresh, After, Continues, Clear, ClearOfFirsts;
    if tries >= 2 {
      ClearStartIsFresh(s, tries, rest);
    } else {
      SingleTryIsFresh(s, tries, rest);
    }
  }

  // ---- and necessary ---------------------------------------------------------------------

  lemma {:induction false} DropReplies(s: State, k: nat)
    requires k <= |s.toHost|
    ensures Run(s, Repeat(ReplyLost(0), k)) == s.(toHost := s.toHost[k..])
    decreases k
  {
    if k > 0 {
      assert Repeat(ReplyLost(0), k)[..k - 1] == Repeat(ReplyLost(0), k - 1);
      DropReplies(s, k - 1);
      assert s.toHost[k - 1..][..0] + s.toHost[k - 1..][1..] == s.toHost[k..];
    }
  }

  lemma {:induction false} DropRequests(s: State, k: nat)
    requires k <= |s.toEc|
    ensures Run(s, Repeat(RequestLost(0), k)) == s.(toEc := s.toEc[k..])
    decreases k
  {
    if k > 0 {
      assert Repeat(RequestLost(0), k)[..k - 1] == Repeat(RequestLost(0), k - 1);
      DropRequests(s, k - 1);
      assert s.toEc[k - 1..][..0] + s.toEc[k - 1..][1..] == s.toEc[k..];
    }
  }

  lemma RunOne(s: State, a: Action)
    ensures Run(s, [a]) == Step(s, a)
  {
    assert [a][..0] == [];
  }

  lemma RunThen(s: State, rest: seq<Action>, a: Action)
    requires Continues(rest) && !a.HostBegins?
    ensures Run(s, rest + [a]) == Step(Run(s, rest), a) && Continues(rest + [a])
  {
    hide Run, Step;
    RunAppend(s, rest, [a]);
    RunOne(Run(s, rest), a);
  }

  /** The host waits, and the response at position `i` of its link is next. */
  lemma BringForward(t: State, i: nat) returns (rest: seq<Action>)
    requires i < |t.toHost|
    ensures Continues(rest) && Run(t, rest) == t.(toHost := t.toHost[i..])
  {
    rest := Repeat(ReplyLost(0), i);
    DropReplies(t, i);
  }

  /** A response with the host's number is accepted, at once or after one retry. */
  lemma Accepted(t: State, i: nat) returns (rest: seq<Action>)
    requires t.host.status.Waiting? && i < |t.toHost| && Carries(t.toHost[i], t.host.seqNum)
    requires t.host.seqDup == t.toHost[i].r.seqDup || (!t.host.seqDup && t.host.triesLeft >= 2)
    ensures Continues(rest)
    ensures var u := Run(t, rest);
            u.host.id == t.host.id && u.host.status == Succeeded(t.toHost[i].r)
    decreases !t.host.seqDup
  {
    hide Run;
    var r := t.toHost[i].r;
    if t.host.seqDup == r.seqDup {
      rest := BringForward(t, i);
      RunThen(t, rest, HostReceives);
      rest := rest + [HostReceives];
    } else {
      var u := Step(t, HostTimesOut);
      var more := Accepted(u, i);
      RunOne(t, HostTimesOut);
      RunAppend(t, [HostTimesOut], more);
      rest := [HostTimesOut] + more;
    }
  }

  /** A packet on the link to the EC is answered with its own number. */
  lemma Answer(t: State, i: nat) returns (rest: seq<Action>)
    requires i < |t.toEc| && t.toEc[i].Intact?
    ensures Continues(rest)
    ensures var u, q := Run(t, rest), t.toEc[i].q;
            && u.host == t.host && |u.toHost| == |t.toHost| + 1
            && Carries(u.toHost[|t.toHost|], q.seqNum)
            && var r := u.toHost[|t.toHost|].r;
            && r.seqDup == q.seqDup
            && (r.computedFrom == q.id || r.computedFrom == t.ec.computedFrom)
            && (q.seqDup && q.seqNum == t.ec.seqNum ==> r.computedFrom == t.ec.computedFrom)
            && (forall k :: k in u.processed ==> k in t.processed || k == q.id)
  {
    hide Run;
    rest := Repeat(RequestLost(0), i);
    DropRequests(t, i);
    RunThen(t, rest, EcReceives(false));
    rest := rest + [EcReceives(false)];
  }

  /** What is left over is older than the next request. */
  lemma LeftOver(s: State, base: int)
    requires Inv(s, base)
    ensures s.ec.computedFrom <= s.host.id
    ensures forall i :: 0 <= i < |s.toEc| && s.toEc[i].Intact? ==> s.toEc[i].q.id <= s.host.id
    ensures forall i :: 0 <= i < |s.toHost| && s.toHost[i].Received? && s.toHost[i].r.Response? ==>
                          s.toHost[i].r.computedFrom <= s.host.id
    ensures s.host.id + 1 !in s.processed
  {
  }

  /** A response with the next number is on its way to the host. It is accepted, at once if it
      answers a first packet. */
  lemma StaleReply(s: State, base: int, tries: int, i: nat) returns (rest: seq<Action>)
    requires Inv(s, base) && !s.host.status.Waiting?
    requires i < |s.toHost| && Carries(s.toHost[i], NextNumber(s))
    requires tries >= 2 || !s.toHost[i].r.seqDup
    ensures Continues(rest) && !Fresh(After(s, tries, rest))
  {
    hide Run, Step, Inv;
    LeftOver(s, base);
    Begun(s, tries);
    rest := Accepted(Step(s, HostBegins(tries)), i);
  }

  /** A packet with the next number is on its way to the EC. It is answered, and the answer
      accepted, at once if it is a first packet. */
  lemma StaleRequest(s: State, base: int, tries: int, i: nat) returns (rest: seq<Action>)
    requires Inv(s, base) && !s.host.status.Waiting?
    requires i < |s.toEc| && Requests(s.toEc[i], NextNumber(s))
    requires tries >= 2 || !s.toEc[i].q.seqDup
    ensures Continues(rest) && !Fresh(After(s, tries, rest))
  {
    hide Run, Step, Inv;
    LeftOver(s, base);
    Begun(s, tries);
    var t := Step(s, HostBegins(tries));
    var first := Answer(t, i);
    var more := Accepted(Run(t, first), |t.toHost|);
    RunAppend(t, first, more);
    rest := first + more;
  }

  /** The response buffer has the next number: lose the first packet and retry. */
  lemma StaleBuffer(s: State, base: int, tries: int) returns (rest: seq<Action>)
    requires Inv(s, base) && !s.host.status.Waiting? && s.ec.seqNum == NextNumber(s) && tries >= 2
    ensures Continues(rest) && !Fresh(After(s, tries, rest))
  {
    hide Run, Step, Inv;
    LeftOver(s, base);
    Begun(s, tries);
    var t := Step(s, HostBegins(tries));
    var lost := Repeat(RequestLost(0), |t.toEc|);
    DropRequests(t, |t.toEc|);
    RunThen(t, lost, HostTimesOut);
    var u := t.(toEc := []);
    assert t.toEc[|t.toEc|..] == [];
    Resends(u);
    var first := lost + [HostTimesOut];
    var answer := Answer(Run(t, first), 0);
    var more := Accepted(Run(Run(t, first), answer), |t.toHost|);
    RunAppend(t, first, answer);
    RunAppend(t, first + answer, more);
    rest := first + answer + more;
  }

  /** In a start that is not clear for the given tries, something goes wrong. */
  lemma StaleStart(s: State, base: int, tries: int) returns (rest: seq<Action>)
    requires Inv(s, base) && !s.host.status.Waiting? && !ClearFor(s, tries)
    ensures Continues(rest) && !Fresh(After(s, tries, rest))
  {
    hide Inv, Fresh, After, Continues;
    if tries >= 2 && s.ec.seqNum == NextNumber(s) {
      rest := StaleBuffer(s, base, tries);
    } else if i :| 0 <= i < |s.toEc| && Requests(s.toEc[i], NextNumber(s)) && (tries >= 2 || !s.toEc[i].q.seqDup) {
      rest := StaleRequest(s, base, tries, i);
    } else {
      var i :| 0 <= i < |s.toHost| && Carries(s.toHost[i], NextNumber(s)) && (tries >= 2 || !s.toHost[i].r.seqDup);
      rest := StaleReply(s, base, tries, i);
    }
  }

  /** A request that is allowed `tries` tries returns only its own response, whatever happens,
      exactly if it is begun in a state that is clear for that many tries. */
  lemma FreshFromStartIff(s: State, base: int, tries: int)
    requires Inv(s, base) && !s.host.status.Waiting?
    ensures ClearFor(s, tries)
       <==> forall rest: seq<Action> :: Continues(rest) ==> Fresh(After(s, tries, rest))
  {
    hide Inv, Fresh, After, Continues, ClearFor;
    if ClearFor(s, tries) {
      forall rest: seq<Action> | Continues(rest)
        ensures Fresh(After(s, tries, rest))
      {
        ClearForIsFresh(s, tries, rest);
      }
    } else {
      var rest := StaleStart(s, base, tries);
    }
  }

  // ---- how a start comes to be clear --------------------------------------------------------

  /** The start is clear once the EC has heard one of the three requests before, and no older
      response than theirs is on its way. What is on the link to the EC is then no older. */
  lemma ClearWhenHeard(s: State, base: int)
    requires Inv(s, base)
    requires Recent(s.ec.answered, s.host.id + 1)
    requires forall i :: 0 <= i < |s.toHost| && s.toHost[i].Received? && s.toHost[i].r.Response? ==>
                           Recent(s.toHost[i].r.answers, s.host.id + 1)
    ensures Clear(s, NextNumber(s))
  {
    NextSeq(base, s.host.id);
    forall k | Recent(k, s.host.id + 1)
      ensures SeqOf(base, k) != NextNumber(s)
    {
      SameNumber(base, k, s.host.id + 1);
    }
    forall i | 0 <= i < |s.toEc| && s.toEc[i].Intact?
      ensures Recent(s.toEc[i].q.id, s.host.id + 1)
    {
    }
  }

  /** Along a whole run: a request begun then returns only its own response, and the EC has
      processed it exactly once. */
  lemma FreshWhenHeard(s: State, actions: seq<Action>, tries: int, rest: seq<Action>)
    requires Initial(s) && Continues(rest)
    requires var u := Run(s, actions);
             && !u.host.status.Waiting? && Recent(u.ec.answered, u.host.id + 1)
             && forall i :: 0 <= i < |u.toHost| && u.toHost[i].Received? && u.toHost[i].r.Response? ==>
                              Recent(u.toHost[i].r.answers, u.host.id + 1)
    ensures var t := After(Run(s, actions), tries, rest);
            t.host.status.Succeeded? && t.host.status.reply.Response? ==>
              t.host.status.reply.computedFrom == t.host.id && multiset(t.processed)[t.host.id] == 1
  {
    hide Run, Step, Clear, Continues, Recent, Inv;
    var u := Run(s, actions);
    RunKeeps(s, actions);
    ClearWhenHeard(u, s.host.seqNum);
    ClearStartIsFresh(u, tries, rest);
    var begin: seq<Action> := [HostBegins(tries)];
    RunOne(u, HostBegins(tries));
    RunAppend(s, actions, begin);
    RunAppend(s, actions + begin, rest);
    var t := After(u, tries, rest);
    ProcessedAtMostOnce(s, actions + begin + rest);
    IncreasingOnce(t.processed, t.host.id);
  }

  // ---- step 208 ----------------------------------------------------------------------------

  /** A request that the host gives up at step 208 has been processed. */
  predicate GivenUpOnlyProcessed(t: State) {
    StopsAt208(t) ==> t.host.id in t.processed
  }

  /** An old response to a first packet is brought to the host after one retry. */
  lemma BringTo208(t: State, i: nat) returns (rest: seq<Action>)
    requires t.host.status.Waiting? && !t.host.seqDup && t.host.triesLeft >= 2
    requires i < |t.toHost| && Carries(t.toHost[i], t.host.seqNum) && !t.toHost[i].r.seqDup
    ensures Continues(rest)
    ensures var u := Run(t, rest);
            StopsAt208(u) && u.host.id == t.host.id && u.processed == t.processed
  {
    hide Run;
    var u := Step(t, HostTimesOut);
    var more := BringForward(u, i);
    RunOne(t, HostTimesOut);
    RunAppend(t, [HostTimesOut], more);
    rest := [HostTimesOut] + more;
  }

  lemma StaleFirst(s: State, base: int, tries: int) returns (rest: seq<Action>)
    requires Inv(s, base) && !s.host.status.Waiting? && !ClearOfFirsts(s, NextNumber(s)) && tries >= 2
    ensures Continues(rest) && !GivenUpOnlyProcessed(After(s, tries, rest))
  {
    hide Run, Step, Inv;
    LeftOver(s, base);
    Begun(s, tries);
    var t := Step(s, HostBegins(tries));
    if i :| 0 <= i < |s.toHost| && Carries(s.toHost[i], NextNumber(s)) && !s.toHost[i].r.seqDup {
      rest := BringTo208(t, i);
    } else {
      var i :| 0 <= i < |s.toEc| && Requests(s.toEc[i], NextNumber(s)) && !s.toEc[i].q.seqDup;
      var first := Answer(t, i);
      var more := BringTo208(Run(t, first), |t.toHost|);
      RunAppend(t, first, more);
      rest := first + more;
    }
  }

  lemma ClearOfFirstsIsProcessed(s: State, tries: int, rest: seq<Action>)
    requires !s.host.status.Waiting? && ClearOfFirsts(s, NextNumber(s)) && Continues(rest)
    ensures GivenUpOnlyProcessed(After(s, tries, rest))
  {
    hide Run, Step, Continues;
    Begun(s, tries);
    RunFirstsOwned(Step(s, HostBegins(tries)), s.host.id + 1, NextNumber(s), rest);
  }

  /** A host that is allowed a single try never stops at step 208 on a response. */
  lemma SingleTryNever208(s: State, tries: int, rest: seq<Action>)
    requires !s.host.status.Waiting? && Continues(rest) && tries <= 1
    ensures !StopsAt208(After(s, tries, rest))
  {
    hide Run, Step, Continues;
    Begun(s, tries);
    RunSingleTry(Step(s, HostBegins(tries)), rest);
  }

  /** A host that stops at step 208 on a response always gives up a request that was processed,
      exactly if it has a single try, and so never stops there, or the request is begun when no
      first packet with its number, and no response to one, is left on the links. */
  lemma GivenUpProcessedIff(s: State, base: int, tries: int)
    requires Inv(s, base) && !s.host.status.Waiting?
    ensures tries <= 1 || ClearOfFirsts(s, NextNumber(s))
       <==> forall rest: seq<Action> :: Continues(rest) ==> GivenUpOnlyProcessed(After(s, tries, rest))
  {
    hide Inv, GivenUpOnlyProcessed, After, Continues, ClearOfFirsts;
    if tries <= 1 || ClearOfFirsts(s, NextNumber(s)) {
      forall rest: seq<Action> | Continues(rest)
        ensures GivenUpOnlyProcessed(After(s, tries, rest))
      {
        if tries <= 1 {
          SingleTryNever208(s, tries, rest);
          NeverGivenUp(After(s, tries, rest));
        } else {
          ClearOfFirstsIsProcessed(s, tries, rest);
        }
      }
    } else {
      var rest := StaleFirst(s, base, tries);
    }
  }

  lemma NeverGivenUp(t: State)
    requires !StopsAt208(t)
    ensures GivenUpOnlyProcessed(t)
  {
  }

  /** So a clear start is enough for this too. */
  lemma ClearStartGivesUpProcessed(s: State, tries: int, rest: seq<Action>)
    requires !s.host.status.Waiting? && Clear(s, NextNumber(s)) && Continues(rest)
    ensures var t := After(s, tries, rest);
            StopsAt208(t) ==> t.host.id in t.processed && Step(t, HostReceives).host.status == Failed
  {
    hide Run;
    ClearOfFirstsIsProcessed(s, tries, rest);
  }

  /** An error at step 208 does not mean that the request was not processed: here it was, the
      response arrives, and one more try is left. */
  lemma GivenUpThoughProcessed()
    ensures Initial(QUIET) && Clear(QUIET, NextNumber(QUIET))
    ensures var t := Run(QUIET, [HostBegins(2), EcReceives(false), HostTimesOut]);
            var u := Step(t, HostReceives);
            && StopsAt208(t) && u.host.id == 1
            && u.host.status == Failed && u.host.triesLeft == 1 && u.processed == [1]
  {
    hide Run, Step;
    RunThree(QUIET, HostBegins(2), EcReceives(false), HostTimesOut);
    BeginsAlone(QUIET, 2);
    var s1 := Step(QUIET, HostBegins(2));
    ProcessesOnly(s1, s1.toEc[0].q);
    var s2 := Step(s1, EcReceives(false));
    Resends(s2);
    Stops(Step(s2, HostTimesOut));
  }

  lemma Stops(t: State)
    requires StopsAt208(t)
    ensures Step(t, HostReceives) == t.(host := t.host.(status := Failed), toHost := t.toHost[1..])
  {
  }
}
