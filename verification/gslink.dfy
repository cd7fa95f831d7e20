/**
 * The realm's link to its game server (`gslink.rs`) as interleaved steps: connections that come, replace each
 * other and go, and requests that wait for a reply, each advancing one lock or one await at a time.
 */
module GameServerLinks {
  import opened Bytes

  type ConnId = nat
  type ReqId = nat

  const MIN_VERSION: nat := 1
  const VERSION: nat := 2
  const LOBBY_VERSION: nat := 2

  /** A request as it is sent; lobby requests are for game servers that know them. */
  datatype Request = Request(id: nat, lobby: bool)

  datatype Reply = Reply(id: nat, body: seq<byte>)

  /** Where a connection is: past its hello, numbered, installed and read from, out of its read loop, closed. */
  datatype ConnState = Proved | Numbered(gen: nat) | Serving(gen: nat) | Leaving(gen: nat) | Gone

  datatype Conn = Conn(version: nat, state: ConnState, sent: seq<Request>)

  /** Where a request is; the connection is the one whose queue it took hold of. */
  datatype ReqState =
    | Checked(seen: Option<ConnId>, lobby: bool)
    | Bound(conn: ConnId, lobby: bool)
    | Named(conn: ConnId, lobby: bool, id: nat)
    | Listed(conn: ConnId, lobby: bool, id: nat)
    | Awaiting(id: nat)
    | Decided(id: nat, result: Option<Reply>)
    | Done(id: nat, result: Option<Reply>)
    | Unlinked

  datatype Current = Current(gen: nat, conn: ConnId)

  datatype Link = Link(
    current: Option<Current>,
    generation: nat,
    nextId: nat,
    pending: map<nat, ReqId>,
    games: seq<seq<byte>>,
    conns: map<ConnId, Conn>,
    reqs: map<ReqId, ReqState>,
    mail: map<ReqId, Reply>)

  const NEW_LINK := Link(None, 0, 0, map[], [], map[], map[], map[])

  datatype Step =
    | Hello(c: ConnId, version: nat)
    | TakeGeneration(c: ConnId)
    | Install(c: ConnId)
    | Push(c: ConnId, games: seq<seq<byte>>)
    | Answer(c: ConnId, reply: Reply)
    | Break(c: ConnId)
    | Close(c: ConnId)
    | Check(r: ReqId)
    | Ask(r: ReqId)
    | Begin(r: ReqId)
    | TakeId(r: ReqId)
    | List(r: ReqId)
    | Send(r: ReqId)
    | Receive(r: ReqId)
    | GiveUp(r: ReqId)
    | Finish(r: ReqId)

  predicate IsConnStep(step: Step) {
    step.Hello? || step.TakeGeneration? || step.Install? || step.Push? || step.Answer? || step.Break? || step.Close?
  }

  function Moved(s: Link, c: ConnId, state: ConnState): map<ConnId, Conn>
    requires c in s.conns
  {
    s.conns[c := s.conns[c].(state := state)]
  }

  // ---- What a connection does ----

  function ConnStep(s: Link, step: Step): Option<Link>
    requires IsConnStep(step)
  {
    var c := step.c;
    if step.Hello? then
      if c in s.conns || !(MIN_VERSION <= step.version <= VERSION) then None
      else Some(s.(conns := s.conns[c := Conn(step.version, Proved, [])]))
    else if c !in s.conns then None else
    var state := s.conns[c].state;
    match step
    case TakeGeneration(_) =>
      if !state.Proved? then None
      else Some(s.(generation := s.generation + 1, conns := Moved(s, c, ConnState.Numbered(s.generation + 1))))
    case Install(_) =>
      if !state.Numbered? then None
      else Some(s.(current := Some(Current(state.gen, c)), conns := Moved(s, c, Serving(state.gen))))
    case Push(_, games) => if !state.Serving? then None else Some(s.(games := games))
    case Answer(_, reply) =>
      if !state.Serving? then None
      else if reply.id !in s.pending then Some(s)
      else Some(s.(pending := s.pending - {reply.id}, mail := s.mail[s.pending[reply.id] := reply]))
    case Break(_) => if !state.Serving? then None else Some(s.(conns := Moved(s, c, Leaving(state.gen))))
    case Close(_) =>
      if !state.Leaving? then None else
      var gone := s.(conns := Moved(s, c, Gone));
      if s.current.Some? && s.current.value.gen == state.gen then Some(gone.(current := None, games := []))
      else Some(gone)
  }

  // ---- What a request does ----

  function ReqStep(s: Link, step: Step): Option<Link>
    requires !IsConnStep(step)
  {
    var r := step.r;
    if step.Check? then
      if r in s.reqs then None
      else if s.current.None? then Some(s.(reqs := s.reqs[r := Checked(None, false)]))
      else
        var c := s.current.value.conn;
        Some(s.(reqs := s.reqs[r := Checked(Some(c), c in s.conns && s.conns[c].version >= LOBBY_VERSION)]))
    else if step.Ask? then
      // A join or a map request: no first look, and nothing a game server of any version would not know.
      if r in s.reqs then None
      else if s.current.None? then Some(s.(reqs := s.reqs[r := Unlinked]))
      else Some(s.(reqs := s.reqs[r := Bound(s.current.value.conn, false)]))
    else if r !in s.reqs then None else
    match (step, s.reqs[r])
    case (Begin(_), Checked(_, lobby)) =>
      if s.current.None? then Some(s.(reqs := s.reqs[r := Unlinked]))
      else Some(s.(reqs := s.reqs[r := Bound(s.current.value.conn, lobby)]))
    case (TakeId(_), Bound(c, lobby)) =>
      Some(s.(nextId := s.nextId + 1, reqs := s.reqs[r := ReqState.Named(c, lobby, s.nextId)]))
    case (List(_), Named(c, lobby, id)) =>
      Some(s.(pending := s.pending[id := r], reqs := s.reqs[r := Listed(c, lobby, id)]))
    case (Send(_), Listed(c, lobby, id)) =>
      if c !in s.conns || s.conns[c].state.Gone? then None
      else
        Some(s.(conns := s.conns[c := s.conns[c].(sent := s.conns[c].sent + [Request(id, lobby)])],
                reqs := s.reqs[r := Awaiting(id)]))
    case (Receive(_), Awaiting(id)) =>
      if r in s.mail then Some(s.(reqs := s.reqs[r := Decided(id, Some(s.mail[r]))])) else None
    // The deadline passed, or the queue was closed.
    case (GiveUp(_), Listed(_, _, id)) => Some(s.(reqs := s.reqs[r := Decided(id, None)]))
    case (GiveUp(_), Awaiting(id)) => Some(s.(reqs := s.reqs[r := Decided(id, None)]))
    case (Finish(_), Decided(id, result)) =>
      Some(s.(pending := s.pending - {id}, reqs := s.reqs[r := Done(id, result)]))
    case _ => None
  }

  /** The link after the step, or nothing when it cannot be taken. */
  function Do(s: Link, step: Step): Option<Link> {
    if IsConnStep(step) then ConnStep(s, step) else ReqStep(s, step)
  }

  /** What the lobby shows. */
  function PublicGames(s: Link): seq<seq<byte>> {
    if s.current.None? then [] else s.games
  }

  // ---- Requests and replies ----

  function IdOf(q: ReqState): Option<nat> {
    match q
    case Named(_, _, id) => Some(id)
    case Listed(_, _, id) => Some(id)
    case Awaiting(id) => Some(id)
    case Decided(id, _) => Some(id)
    case Done(id, _) => Some(id)
    case _ => None
  }

  function ResultOf(q: ReqState): Option<Reply> {
    match q
    case Decided(_, result) => result
    case Done(_, result) => result
    case _ => None
  }

  ghost predicate IdsInOrder(reqs: map<ReqId, ReqState>, nextId: nat) {
    && (forall r | r in reqs :: IdOf(reqs[r]).Some? ==> IdOf(reqs[r]).value < nextId)
    && (forall r, q | r in reqs && q in reqs && r != q :: IdOf(reqs[r]).Some? ==> IdOf(reqs[r]) != IdOf(reqs[q]))
  }

  /** Every id listed is that of a request still under way, and under that request's name. */
  ghost predicate PendingInOrder(s: Link) {
    forall id | id in s.pending :: UnderWay(s, s.pending[id], id)
  }

  ghost predicate UnderWay(s: Link, r: ReqId, id: nat) {
    r in s.reqs && IdOf(s.reqs[r]) == Some(id) && (s.reqs[r].Listed? || s.reqs[r].Awaiting? || s.reqs[r].Decided?)
  }

  /** A delivered reply carries the id of the request it went to, which is not listed any more. */
  ghost predicate MailInOrder(s: Link) {
    forall r | r in s.mail :: r in s.reqs && IdOf(s.reqs[r]) == Some(s.mail[r].id) && s.mail[r].id !in s.pending
  }

  ghost predicate NotYetListed(q: ReqState) {
    q.Checked? || q.Bound? || q.Named? || q.Unlinked?
  }

  /** No mail for a request that was never listed; and one that waits is listed or has its reply. */
  ghost predicate WaitersInOrder(s: Link) {
    && (forall r | r in s.reqs && NotYetListed(s.reqs[r]) :: r !in s.mail)
    && (forall r | r in s.reqs && (s.reqs[r].Listed? || s.reqs[r].Awaiting?) :: IdOf(s.reqs[r]).value in s.pending || r in s.mail)
    && (forall r | r in s.reqs && ResultOf(s.reqs[r]).Some? :: r in s.mail && s.mail[r] == ResultOf(s.reqs[r]).value)
  }

  ghost predicate RequestsInOrder(s: Link) {
    IdsInOrder(s.reqs, s.nextId) && PendingInOrder(s) && MailInOrder(s) && WaitersInOrder(s)
  }

  // ---- Connections and the current one ----

  function GenOf(state: ConnState): Option<nat> {
    match state
    case Numbered(gen) => Some(gen)
    case Serving(gen) => Some(gen)
    case Leaving(gen) => Some(gen)
    case _ => None
  }

  ghost predicate Open(state: ConnState) {
    state.Serving? || state.Leaving?
  }

  /** Generations differ, and the current connection is one that was installed and has not closed. */
  ghost predicate ConnsInOrder(s: Link) {
    && (forall c | c in s.conns :: GenOf(s.conns[c].state).Some? ==> GenOf(s.conns[c].state).value <= s.generation)
    && (forall c, d | c in s.conns && d in s.conns && c != d ::
          GenOf(s.conns[c].state).Some? ==> GenOf(s.conns[c].state) != GenOf(s.conns[d].state))
    && (s.current.Some? ==>
          var k := s.current.value;
          k.conn in s.conns && Open(s.conns[k.conn].state) && GenOf(s.conns[k.conn].state) == Some(k.gen))
  }

  ghost predicate Inv(s: Link) {
    RequestsInOrder(s) && ConnsInOrder(s)
  }

  /** Connection `c` in a new state that has its old generation, none, or a fresh one. */
  lemma MoveKeepsConns(s: Link, c: ConnId, conn: Conn)
    requires ConnsInOrder(s)
    requires s.current.Some? && s.current.value.conn == c ==> c in s.conns && Open(conn.state)
    requires GenOf(conn.state).Some? ==>
      GenOf(conn.state).value == s.generation + 1 || (c in s.conns && GenOf(s.conns[c].state) == GenOf(conn.state))
    requires s.current.Some? && s.current.value.conn == c ==> GenOf(s.conns[c].state) == GenOf(conn.state)
    ensures ConnsInOrder(s.(generation := s.generation + 1, conns := s.conns[c := conn]))
    ensures GenOf(conn.state) != Some(s.generation + 1) ==> ConnsInOrder(s.(conns := s.conns[c := conn]))
  {
  }

  lemma UnlinkedIsInOrder(s: Link)
    requires ConnsInOrder(s)
    ensures ConnsInOrder(s.(current := None))
  {
  }

  lemma InstalledIsInOrder(s: Link, c: ConnId)
    requires ConnsInOrder(s) && c in s.conns && s.conns[c].state.Serving?
    ensures ConnsInOrder(s.(current := Some(Current(s.conns[c].state.gen, c))))
  {
  }

  lemma OnlyConnsMatter(s: Link, t: Link)
    requires ConnsInOrder(s) && s.current == t.current && s.generation == t.generation
    requires s.conns.Keys == t.conns.Keys && forall c | c in s.conns :: s.conns[c].state == t.conns[c].state
    ensures ConnsInOrder(t)
  {
    assert forall c :: c in s.conns <==> c in s.conns.Keys;
    assert forall c :: c in t.conns <==> c in t.conns.Keys;
  }

  /** A numbered connection is not the current one, and the current one is known by its generation. */
  lemma CurrentIsOpen(s: Link, c: ConnId)
    requires ConnsInOrder(s) && c in s.conns && GenOf(s.conns[c].state).Some?
    ensures s.current.Some? && s.current.value.conn == c ==> Open(s.conns[c].state)
    ensures s.current.Some? ==> (s.current.value.gen == GenOf(s.conns[c].state).value <==> s.current.value.conn == c)
  {
  }

  lemma ConnStepKeepsConns(s: Link, step: Step)
    requires ConnsInOrder(s) && IsConnStep(step) && Do(s, step).Some?
    ensures ConnsInOrder(Do(s, step).value)
  {
    hide ConnsInOrder;
    var c, t := step.c, Do(s, step).value;
    match step {
      case Hello(_, version) =>
        CurrentIsKnown(s);
        MoveKeepsConns(s, c, Conn(version, Proved, []));
      case Push(_, _) => OnlyConnsMatter(s, t);
      case Answer(_, _) => OnlyConnsMatter(s, t);
      case TakeGeneration(_) =>
        CurrentIsKnown(s);
        MoveKeepsConns(s, c, s.conns[c].(state := ConnState.Numbered(s.generation + 1)));
      case Break(_) => KnownGeneration(s, c); MoveKeepsConns(s, c, s.conns[c].(state := Leaving(s.conns[c].state.gen)));
      case Install(_) =>
        KnownGeneration(s, c);
        CurrentIsOpen(s, c);
        MoveKeepsConns(s, c, s.conns[c].(state := Serving(s.conns[c].state.gen)));
        InstalledIsInOrder(s.(conns := t.conns), c);
      case Close(_) =>
        KnownGeneration(s, c);
        CurrentIsOpen(s, c);
        UnlinkedIsInOrder(s);
        MoveKeepsConns(s.(current := t.current), c, s.conns[c].(state := Gone));
        OnlyConnsMatter(s.(current := t.current, conns := t.conns), t);
    }
  }

  lemma CurrentIsKnown(s: Link)
    requires ConnsInOrder(s)
    ensures s.current.Some? ==> s.current.value.conn in s.conns && Open(s.conns[s.current.value.conn].state)
  {
  }

  lemma KnownGeneration(s: Link, c: ConnId)
    requires ConnsInOrder(s) && c in s.conns && GenOf(s.conns[c].state).Some?
    ensures GenOf(s.conns[c].state).value <= s.generation
  {
  }

  lemma ReqStepKeepsConns(s: Link, step: Step)
    requires ConnsInOrder(s) && !IsConnStep(step) && Do(s, step).Some?
    ensures ConnsInOrder(Do(s, step).value)
  {
    hide ConnsInOrder;
    OnlyConnsMatter(s, Do(s, step).value);
  }

  lemma OnlyRequestsMatter(s: Link, t: Link)
    requires RequestsInOrder(s) && s.nextId == t.nextId && s.pending == t.pending && s.reqs == t.reqs && s.mail == t.mail
    ensures RequestsInOrder(t)
  {
  }

  /** Two requests never share an id. */
  lemma SameIdSameRequest(s: Link, r: ReqId, q: ReqId)
    requires IdsInOrder(s.reqs, s.nextId) && r in s.reqs && q in s.reqs && IdOf(s.reqs[r]).Some? && IdOf(s.reqs[r]) == IdOf(s.reqs[q])
    ensures r == q
  {
  }

  /** A reply handed over goes to the one request that has its id, and takes that id off the list. */
  lemma DeliveryKeepsRequests(s: Link, reply: Reply)
    requires RequestsInOrder(s) && reply.id in s.pending
    ensures RequestsInOrder(s.(pending := s.pending - {reply.id}, mail := s.mail[s.pending[reply.id] := reply]))
  {
    hide IdsInOrder;
    var w := s.pending[reply.id];
    var t := s.(pending := s.pending - {reply.id}, mail := s.mail[w := reply]);
    assert UnderWay(s, w, reply.id);
    forall id | id in t.pending ensures UnderWay(t, t.pending[id], id) {
      assert UnderWay(s, s.pending[id], id);
    }
    forall r | r in t.reqs && (t.reqs[r].Listed? || t.reqs[r].Awaiting?)
      ensures IdOf(t.reqs[r]).value in t.pending || r in t.mail
    {
      if IdOf(t.reqs[r]).value == reply.id { SameIdSameRequest(s, r, w); }
    }
    assert w !in s.mail;
  }

  lemma ConnStepKeepsRequests(s: Link, step: Step)
    requires RequestsInOrder(s) && IsConnStep(step) && Do(s, step).Some?
    ensures RequestsInOrder(Do(s, step).value)
  {
    hide RequestsInOrder, Moved;
    if step.Answer? && step.reply.id in s.pending {
      DeliveryKeepsRequests(s, step.reply);
    } else {
      OnlyRequestsMatter(s, Do(s, step).value);
    }
  }

  /** Request `r` goes on with the id it has, or gets the next one. */
  lemma AdvanceKeepsIds(s: Link, r: ReqId, q: ReqState, n: nat)
    requires IdsInOrder(s.reqs, s.nextId) && s.nextId <= n
    requires IdOf(q).Some? ==> (r in s.reqs && IdOf(s.reqs[r]) == IdOf(q)) || s.nextId == IdOf(q).value < n
    ensures IdsInOrder(s.reqs[r := q], n)
  {
  }

  /** Before its id is listed a request is nobody's waiter. */
  lemma EarlyStep(s: Link, r: ReqId, q: ReqState, n: nat)
    requires RequestsInOrder(s) && s.nextId <= n
    requires (r !in s.reqs || NotYetListed(s.reqs[r])) && NotYetListed(q)
    requires IdOf(q).Some? ==> s.nextId == IdOf(q).value < n
    ensures RequestsInOrder(s.(reqs := s.reqs[r := q], nextId := n))
  {
    hide IdsInOrder;
    var t := s.(reqs := s.reqs[r := q], nextId := n);
    AdvanceKeepsIds(s, r, q, n);
    forall id | id in t.pending ensures UnderWay(t, t.pending[id], id) {
      assert UnderWay(s, s.pending[id], id);
    }
  }

  /** Once listed it keeps its id, and any result is the reply in its mail. */
  lemma LateStep(s: Link, r: ReqId, q: ReqState)
    requires RequestsInOrder(s) && r in s.reqs && (s.reqs[r].Listed? || s.reqs[r].Awaiting?)
    requires (q.Awaiting? || q.Decided?) && IdOf(q) == IdOf(s.reqs[r])
    requires ResultOf(q).Some? ==> r in s.mail && ResultOf(q).value == s.mail[r]
    ensures RequestsInOrder(s.(reqs := s.reqs[r := q]))
  {
    hide IdsInOrder;
    var t := s.(reqs := s.reqs[r := q]);
    AdvanceKeepsIds(s, r, q, s.nextId);
    forall id | id in t.pending ensures UnderWay(t, t.pending[id], id) {
      assert UnderWay(s, s.pending[id], id);
    }
  }

  lemma ListStep(s: Link, r: ReqId, c: ConnId, lobby: bool, id: nat)
    requires RequestsInOrder(s) && r in s.reqs && s.reqs[r] == ReqState.Named(c, lobby, id)
    ensures RequestsInOrder(s.(pending := s.pending[id := r], reqs := s.reqs[r := Listed(c, lobby, id)]))
  {
    hide IdsInOrder;
    var t := s.(pending := s.pending[id := r], reqs := s.reqs[r := Listed(c, lobby, id)]);
    AdvanceKeepsIds(s, r, Listed(c, lobby, id), s.nextId);
    forall i | i in t.pending ensures UnderWay(t, t.pending[i], i) {
      if i != id { assert UnderWay(s, s.pending[i], i); }
    }
    forall q | q in t.mail ensures t.mail[q].id !in t.pending {
      if t.mail[q].id == id { SameIdSameRequest(s, q, r); }
    }
  }

  lemma FinishStep(s: Link, r: ReqId, id: nat, result: Option<Reply>)
    requires RequestsInOrder(s) && r in s.reqs && s.reqs[r] == Decided(id, result)
    ensures RequestsInOrder(s.(pending := s.pending - {id}, reqs := s.reqs[r := Done(id, result)]))
  {
    hide IdsInOrder;
    var t := s.(pending := s.pending - {id}, reqs := s.reqs[r := Done(id, result)]);
    AdvanceKeepsIds(s, r, Done(id, result), s.nextId);
    forall i | i in t.pending ensures UnderWay(t, t.pending[i], i) {
      assert UnderWay(s, s.pending[i], i);
    }
    forall q | q in t.reqs && (t.reqs[q].Listed? || t.reqs[q].Awaiting?)
      ensures IdOf(t.reqs[q]).value in t.pending || q in t.mail
    {
      if IdOf(t.reqs[q]).value == id { SameIdSameRequest(s, q, r); }
    }
  }

  lemma ReqStepKeepsRequests(s: Link, step: Step)
    requires RequestsInOrder(s) && !IsConnStep(step) && Do(s, step).Some?
    ensures RequestsInOrder(Do(s, step).value)
  {
    hide RequestsInOrder;
    var r, t := step.r, Do(s, step).value;
    match step {
      case List(_) =>
        var q := s.reqs[r];
        ListStep(s, r, q.conn, q.lobby, q.id);
      case Finish(_) => FinishStep(s, r, s.reqs[r].id, s.reqs[r].result);
      case Send(_) =>
        LateStep(s, r, t.reqs[r]);
        OnlyRequestsMatter(s.(reqs := t.reqs), t);
      case Receive(_) => LateStep(s, r, t.reqs[r]);
      case GiveUp(_) => LateStep(s, r, t.reqs[r]);
      case Check(_) => EarlyStep(s, r, t.reqs[r], s.nextId);
      case Ask(_) => EarlyStep(s, r, t.reqs[r], s.nextId);
      case Begin(_) => EarlyStep(s, r, t.reqs[r], s.nextId);
      case TakeId(_) => EarlyStep(s, r, t.reqs[r], s.nextId + 1);
    }
  }

  /** Main invariant: whatever task takes the next step, requests, replies and connections stay in order. */
  lemma StepKeepsInv(s: Link, step: Step)
    requires Inv(s) && Do(s, step).Some?
    ensures Inv(Do(s, step).value)
  {
    hide RequestsInOrder, ConnsInOrder, Do;
    if IsConnStep(step) {
      ConnStepKeepsConns(s, step);
      ConnStepKeepsRequests(s, step);
    } else {
      ReqStepKeepsConns(s, step);
      ReqStepKeepsRequests(s, step);
    }
  }

  // ---- What a step can do to others ----

  /** A request gets at most one reply: once there, it is not taken back or replaced. */
  lemma MailStays(s: Link, step: Step, r: ReqId)
    requires Inv(s) && Do(s, step).Some? && r in s.mail
    ensures r in Do(s, step).value.mail && Do(s, step).value.mail[r] == s.mail[r]
  {
    hide IdsInOrder, WaitersInOrder, ConnsInOrder, Moved, ReqStep;
    if step.Answer? && step.reply.id in s.pending {
      assert UnderWay(s, s.pending[step.reply.id], step.reply.id);
    }
    if !IsConnStep(step) { ReqStepKeepsMail(s, step); }
  }

  lemma ReqStepKeepsMail(s: Link, step: Step)
    requires !IsConnStep(step) && ReqStep(s, step).Some?
    ensures ReqStep(s, step).value.mail == s.mail
  {
  }

  /** A reply reaches the request that waits for its id, and leaves every request with another id alone. */
  lemma AnswerReaches(s: Link, c: ConnId, reply: Reply, r: ReqId)
    requires Inv(s) && Do(s, Answer(c, reply)).Some? && r in s.reqs
    ensures
      var t := Do(s, Answer(c, reply)).value;
      && ((s.reqs[r].Listed? || s.reqs[r].Awaiting?) && s.reqs[r].id == reply.id && r !in s.mail ==> t.mail == s.mail[r := reply])
      && (IdOf(s.reqs[r]) != Some(reply.id) ==>
            (r in t.mail <==> r in s.mail) && (r in s.mail ==> t.mail[r] == s.mail[r]))
  {
    hide ConnsInOrder;
    if reply.id in s.pending {
      var w := s.pending[reply.id];
      assert UnderWay(s, w, reply.id);
      if IdOf(s.reqs[r]) == Some(reply.id) { SameIdSameRequest(s, r, w); }
    }
  }

  /** Closing a connection unlinks the game server exactly when that connection is the current one. */
  lemma CloseUnlinksIff(s: Link, c: ConnId)
    requires Inv(s) && Do(s, Close(c)).Some?
    ensures
      var t := Do(s, Close(c)).value;
      if s.current.Some? && s.current.value.conn == c then t.current == None && t.games == []
      else t.current == s.current && t.games == s.games
  {
    hide RequestsInOrder, ConnsInOrder;
    CurrentIsOpen(s, c);
  }
}
