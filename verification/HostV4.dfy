/** Host command protocol V4, as the numbered steps of include/ec_commands.h give it: a host
    that sends requests and retries them, an EC that answers, and two links between them
    that lose and damage packets but neither reorder nor repeat them.

    Requests are numbered 1, 2, 3, ...; the two sides only see this number modulo 4.
 */
module HostV4 {
  import opened Wrappers

  /** A request packet: `id` is the request's own number, which is not transmitted. */
  datatype Request = Request(id: int, seqNum: int, seqDup: bool)

  /** What arrives at the EC. Of a damaged packet only its two sequence fields matter, and
      they can be anything. */
  datatype AtEc = Intact(q: Request) | Damaged(seqNum: int, seqDup: bool)

  /** What the EC sends: its response buffer r, or its error buffer e. Not transmitted are
      the request whose processing filled r, and the request that is being answered. */
  datatype Reply =
    | Response(seqNum: int, seqDup: bool, computedFrom: int, answers: int)
    | ErrorReply(seqNum: int, seqDup: bool)

  /** What arrives at the host: a damaged reply fails one of the checks 201 to 203. */
  datatype AtHost = Received(r: Reply) | Garbled

  // ---- the host ------------------------------------------------------------------------

  datatype Status = Idle | Waiting | Succeeded(reply: Reply) | Failed

  datatype Host = Host(id: int, seqNum: int, seqDup: bool, triesLeft: int, status: Status)

  /** The host after an event, and the packet it sends. */
  datatype HostAction = HostAction(host: Host, send: Option<Request>)

  function Packet(h: Host): Request {
    Request(h.id, h.seqNum, h.seqDup)
  }

  /** Steps 101 to 105. */
  function Begin(h: Host, tries: int): HostAction {
    var h' := Host(h.id + 1, (h.seqNum + 1) % 4, false, tries, Waiting);
    HostAction(h', Some(Packet(h')))
  }

  /** Steps 301 to 304. */
  function Retry(h: Host): HostAction {
    var h' := h.(triesLeft := h.triesLeft - 1);
    if h'.triesLeft <= 0 then HostAction(h'.(status := Failed), None)
    else HostAction(h'.(seqDup := true), Some(Packet(h'.(seqDup := true))))
  }

  /** Steps 201 to 208. */
  function OnReply(h: Host, p: AtHost): HostAction {
    if p.Garbled? || p.r.seqNum != h.seqNum then Retry(h)
    else if p.r.seqDup == h.seqDup then HostAction(h.(status := Succeeded(p.r)), None)
    else if p.r.seqDup then Retry(h)
    else HostAction(h.(status := Failed), None)
  }

  // ---- the EC ----------------------------------------------------------------------------

  /** The response buffer. `answered` is the last request of which an intact packet arrived. */
  datatype Ec = Ec(computedFrom: int, seqNum: int, seqDup: bool, answered: int)

  /** The EC after a packet, its reply, and whether it processed the request. */
  datatype EcAction = EcAction(ec: Ec, reply: Reply, processed: bool)

  /** The EC algorithm for one packet; `gone` says that the data of the response buffer is no
      longer available. */
  function OnRequest(ec: Ec, p: AtEc, gone: bool): EcAction {
    match p
    case Damaged(n, d) => EcAction(ec, ErrorReply(n, d), false)
    case Intact(q) =>
      var processed := !q.seqDup || q.seqNum != ec.seqNum;
      var from := if processed then q.id else ec.computedFrom;
      EcAction(Ec(from, q.seqNum, q.seqDup, q.id),
               if gone then ErrorReply(q.seqNum, q.seqDup)
               else Response(q.seqNum, q.seqDup, from, q.id),
               processed)
  }

  // ---- the whole system --------------------------------------------------------------------

  /** Both sides, both links, and the history: the requests processed, the packets sent, and
      the number of tries allowed to each request. */
  datatype State = State(
    host: Host, ec: Ec, toEc: seq<AtEc>, toHost: seq<AtHost>,
    processed: seq<int>, sent: seq<Request>, tries: seq<int>)

  datatype Action =
    | HostBegins(tries: int)
    | HostTimesOut
    | HostReceives
    | EcReceives(gone: bool)
    | RequestLost(i: nat)
    | ReplyLost(i: nat)
    | RequestDamaged(i: nat, seqNum: int, seqDup: bool)
    | ReplyDamaged(i: nat)

  predicate Enabled(s: State, a: Action) {
    match a
    case HostBegins(_) => !s.host.status.Waiting?
    case HostTimesOut => s.host.status.Waiting?
    case HostReceives => s.host.status.Waiting? && s.toHost != []
    case EcReceives(_) => s.toEc != []
    case RequestLost(i) => i < |s.toEc|
    case ReplyLost(i) => i < |s.toHost|
    case RequestDamaged(i, _, _) => i < |s.toEc|
    case ReplyDamaged(i) => i < |s.toHost|
  }

  function Transmit(s: State, act: HostAction): State {
    match act.send
    case None => s.(host := act.host)
    case Some(q) => s.(host := act.host, toEc := s.toEc + [Intact(q)], sent := s.sent + [q])
  }

  /** One step of the system; an action that is not enabled changes nothing. */
  function Step(s: State, a: Action): State {
    if !Enabled(s, a) then s
    else
      match a
      case HostBegins(tries) => Transmit(s, Begin(s.host, tries)).(tries := s.tries + [tries])
      case HostTimesOut => Transmit(s, Retry(s.host))
      case HostReceives => Transmit(s.(toHost := s.toHost[1..]), OnReply(s.host, s.toHost[0]))
      case EcReceives(gone) =>
        var act := OnRequest(s.ec, s.toEc[0], gone);
        s.(ec := act.ec, toEc := s.toEc[1..], toHost := s.toHost + [Received(act.reply)],
        processed := s.processed + if act.processed then [s.toEc[0].q.id] else [])
      case RequestLost(i) => s.(toEc := s.toEc[..i] + s.toEc[i + 1..])
      case ReplyLost(i) => s.(toHost := s.toHost[..i] + s.toHost[i + 1..])
      case RequestDamaged(i, n, d) => s.(toEc := s.toEc[i := Damaged(n, d)])
      case ReplyDamaged(i) => s.(toHost := s.toHost[i := Garbled])
  }

  function Run(s: State, actions: seq<Action>): State
    decreases |actions|
  {
    if actions == [] then s
    else Step(Run(s, actions[..|actions| - 1]), actions[|actions| - 1])
  }

  /** Nothing is on its way. The EC's buffer holds an arbitrary response from before, which
      counts as that of one of the requests 0, -1, -2, -3. */
  predicate Initial(s: State) {
    && s.host.id == 0 && s.host.status == Idle && 0 <= s.host.seqNum < 4
    && -4 < s.ec.computedFrom <= 0 && s.ec.answered == s.ec.computedFrom
    && s.ec.seqNum == (s.host.seqNum + s.ec.computedFrom) % 4
    && s.toEc == [] && s.toHost == [] && s.processed == [] && s.sent == [] && s.tries == []
  }

  // ---- the numbered steps -------------------------------------------------------------------

  /** The host's algorithm, step by step. */
  class HostSide {
    var id: int
    var seqNum: int
    var seqDup: bool
    var triesLeft: int
    var status: Status

    function Value(): Host
      reads this
    {
      Host(id, seqNum, seqDup, triesLeft, status)
    }

    method SendRequest(tries: int) returns (send: Option<Request>)
      modifies this
      ensures HostAction(Value(), send) == Begin(old(Value()), tries)
    {
      triesLeft := tries;              // 101
      id := id + 1;
      seqNum := (seqNum + 1) % 4;      // 102, a two-bit field
      seqDup := false;                 // 103
      status := Waiting;
      send := Some(Packet(Value()));   // 105
    }

    method NoResponse() returns (send: Option<Request>)
      modifies this
      ensures HostAction(Value(), send) == Retry(old(Value()))
    {
      triesLeft := triesLeft - 1;      // 301
      if triesLeft <= 0 {
        status := Failed;
        return None;
      }
      if !seqDup {                     // 302
        seqDup := true;                // 303
      }
      send := Some(Packet(Value()));   // 105
    }

    method Receive(p: AtHost) returns (send: Option<Request>)
      modifies this
      ensures HostAction(Value(), send) == OnReply(old(Value()), p)
    {
      send := None;
      if p.Garbled? {                  // 201, 202, 203
        send := NoResponse();
      } else if p.r.seqNum != seqNum { // 204
        send := NoResponse();
      } else if p.r.seqDup == seqDup { // 205
        status := Succeeded(p.r);
      } else if p.r.seqDup {           // 207
        send := NoResponse();
      } else {
        status := Failed;              // 208
      }
    }
  }

  /** The EC's algorithm, step by step. */
  class EcSide {
    var computedFrom: int
    var seqNum: int
    var seqDup: bool
    var answered: int

    function Value(): Ec
      reads this
    {
      Ec(computedFrom, seqNum, seqDup, answered)
    }

    method Receive(p: AtEc, gone: bool) returns (reply: Reply, processed: bool)
      modifies this
      ensures EcAction(Value(), reply, processed) == OnRequest(old(Value()), p, gone)
      ensures p.Intact? ==> reply.seqNum == p.q.seqNum && reply.seqDup == p.q.seqDup
      ensures p.Damaged? ==> reply == ErrorReply(p.seqNum, p.seqDup)
    {
      processed := false;
      if p.Damaged? {                                     // 101, 102, 103
        reply := ErrorReply(p.seqNum, p.seqDup);          // 301 to 304
        return;
      }
      var q := p.q;
      answered := q.id;
      if !q.seqDup || q.seqNum != seqNum {                // 104, 105
        computedFrom := q.id;                             // 201
        processed := true;
        seqNum := q.seqNum;                               // 202
        seqDup := q.seqDup;                               // 203
      } else if q.seqDup != seqDup {                      // 106
        seqDup := q.seqDup;                               // 203
      }
      if gone {                                           // 205
        reply := ErrorReply(q.seqNum, q.seqDup);          // 301 to 304
      } else {
        reply := Response(seqNum, seqDup, computedFrom, q.id); // 206
      }
    }
  }
}
