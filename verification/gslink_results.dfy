/** What a request on the game-server link ends with, that it always can end, and what one exchange does. */
module GameServerLinkResults {
  import opened Bytes
  import opened GameServerLinks
  import opened GameServerLinkRuns
  import opened GameServerLinkOrigins

  // ---- The result of a request ----

  /** The reply of the answer that reached the request. */
  ghost function Delivered(steps: seq<Step>, r: ReqId): Option<Reply> {
    if steps == [] then None else
    var most, last := steps[..|steps| - 1], steps[|steps| - 1];
    if last.Answer? && Run(most).Some? && last.reply.id in Run(most).value.pending && Run(most).value.pending[last.reply.id] == r
    then Some(last.reply) else Delivered(most, r)
  }

  function MailOf(s: Link, r: ReqId): Option<Reply> {
    if r in s.mail then Some(s.mail[r]) else None
  }

  lemma {:induction false} MailIsDelivered(steps: seq<Step>, r: ReqId)
    requires Run(steps).Some?
    ensures MailOf(Run(steps).value, r) == Delivered(steps, r)
    decreases |steps|
  {
    hide Do, Inv;
    if steps != [] {
      var most, last := steps[..|steps| - 1], steps[|steps| - 1];
      RunByStep(steps);
      RunsAreInOrder(most);
      MailIsDelivered(most, r);
      StepMovesMail(Run(most).value, last, r);
    }
  }

  lemma StepMovesMail(s: Link, step: Step, r: ReqId)
    requires Inv(s) && Do(s, step).Some?
    ensures MailOf(Do(s, step).value, r) ==
      if step.Answer? && step.reply.id in s.pending && s.pending[step.reply.id] == r then Some(step.reply) else MailOf(s, r)
  {
    hide Inv, Do;
    if r in Do(s, step).value.mail { NewMail(s, step, r); }
    if r in s.mail { MailStays(s, step, r); }
    if step.Answer? && step.reply.id in s.pending { DeliveryIsNew(s, step); }
  }

  /** Nothing while the request is under way; then what it ended with. */
  function EndOf(s: Link, r: ReqId): Option<Option<Reply>> {
    if r !in s.reqs then None else
    match s.reqs[r]
    case Decided(_, result) => Some(result)
    case Done(_, result) => Some(result)
    case _ => None
  }

  lemma StepMovesEnd(s: Link, step: Step, r: ReqId)
    requires Do(s, step).Some?
    ensures EndOf(Do(s, step).value, r) ==
      match step
      case Receive(q) => if q == r then Some(MailOf(s, r)) else EndOf(s, r)
      case GiveUp(q) => if q == r then Some(None) else EndOf(s, r)
      case _ => EndOf(s, r)
    ensures (step == Receive(r) || step == GiveUp(r)) ==> EndOf(s, r).None?
    ensures step == Receive(r) ==> MailOf(s, r).Some?
  {
    if IsConnStep(step) { ConnStepKeepsRequestsAsTheyAre(s, step); }
  }

  lemma ConnStepKeepsRequestsAsTheyAre(s: Link, step: Step)
    requires IsConnStep(step) && ConnStep(s, step).Some?
    ensures ConnStep(s, step).value.reqs == s.reqs
  {
  }

  /** A request takes one of the two ways at most, and at most once. */
  ghost predicate EndsAsItShould(steps: seq<Step>, r: ReqId) {
    Run(steps).Some? ==>
      var end := EndOf(Run(steps).value, r);
      && !(Receive(r) in steps && GiveUp(r) in steps)
      && (Receive(r) in steps ==> Delivered(steps, r).Some? && end == Some(Delivered(steps, r)))
      && (GiveUp(r) in steps ==> end == Some(None))
      && (Receive(r) !in steps && GiveUp(r) !in steps ==> end.None?)
  }

  /**
   Main result, in every interleaving: a request that received ends with the very reply delivered to it, one that
   gave up ends with none, and no other has ended.
   */
  lemma {:induction false} ResultIsTheDelivered(steps: seq<Step>, r: ReqId)
    requires Run(steps).Some?
    ensures EndsAsItShould(steps, r)
    decreases |steps|
  {
    hide Do, Inv, EndOf, MailOf, Delivered;
    if steps == [] {
      assert EndOf(NEW_LINK, r).None? by { NothingYet(r); }
    } else {
      var most, last := steps[..|steps| - 1], steps[|steps| - 1];
      RunByStep(steps);
      RunsAreInOrder(most);
      ResultIsTheDelivered(most, r);
      MailIsDelivered(most, r);
      MailIsDelivered(steps, r);
      StepMovesEnd(Run(most).value, last, r);
      StepMovesMail(Run(most).value, last, r);
      DeliveredStays(Run(most).value, last, r);
      assert forall x :: x in steps <==> x in most || x == last by { assert steps == most + [last]; }
    }
  }

  lemma NothingYet(r: ReqId)
    ensures EndOf(NEW_LINK, r).None?
  {
  }

  lemma DeliveredStays(s: Link, step: Step, r: ReqId)
    requires Inv(s) && Do(s, step).Some?
    ensures MailOf(s, r).Some? ==> MailOf(Do(s, step).value, r) == MailOf(s, r)
  {
    hide Inv, Do;
    if r in s.mail { MailStays(s, step, r); }
  }

  /** A request that waits can receive exactly when its reply was delivered. */
  lemma CanReceiveIff(steps: seq<Step>, r: ReqId)
    requires Run(steps).Some? && r in Run(steps).value.reqs && Run(steps).value.reqs[r].Awaiting?
    ensures Do(Run(steps).value, Receive(r)).Some? <==> Delivered(steps, r).Some?
  {
    hide Run;
    MailIsDelivered(steps, r);
  }

  // ---- Every request can end ----

  /** How many steps of its own a request may still take. */
  function StepsLeft(q: ReqState): nat {
    match q
    case Checked(_, _) => 6
    case Bound(_, _) => 5
    case Named(_, _, _) => 4
    case Listed(_, _, _) => 3
    case Awaiting(_) => 2
    case Decided(_, _) => 1
    case Done(_, _) => 0
    case Unlinked => 0
  }

  /** A step of another task leaves a request where it is; one of its own brings it nearer to its end. */
  lemma StepsRunOut(s: Link, step: Step, r: ReqId)
    requires Do(s, step).Some? && r in s.reqs
    ensures
      var t := Do(s, step).value;
      && r in t.reqs
      && (if !IsConnStep(step) && step.r == r then StepsLeft(t.reqs[r]) < StepsLeft(s.reqs[r]) else t.reqs[r] == s.reqs[r])
  {
    if IsConnStep(step) { ConnStepKeepsRequestsAsTheyAre(s, step); }
  }

  /** The step a request can take by itself, whatever the others have done. */
  function OwnStep(s: Link, r: ReqId): Step
    requires r in s.reqs && StepsLeft(s.reqs[r]) > 0
  {
    match s.reqs[r]
    case Checked(_, _) => Begin(r)
    case Bound(_, _) => TakeId(r)
    case Named(_, _, _) => List(r)
    case Decided(_, _) => Finish(r)
    case _ => GiveUp(r)
  }

  /** No request is ever stuck: with at most six steps of its own, which nobody can keep it from, it ends. */
  lemma NoRequestIsStuck(s: Link, r: ReqId)
    requires r in s.reqs && StepsLeft(s.reqs[r]) > 0
    ensures OwnStep(s, r).r == r && Do(s, OwnStep(s, r)).Some?
  {
  }

  // ---- One exchange ----

  /** The steps taken one after another from any state of the link. */
  function DoAll(s: Link, steps: seq<Step>): Option<Link>
    decreases |steps|
  {
    if steps == [] then Some(s) else
    match Do(s, steps[0])
    case None => None
    case Some(t) => DoAll(t, steps[1..])
  }

  lemma DoFirst(s: Link, first: Step, rest: seq<Step>)
    requires Do(s, first).Some?
    ensures DoAll(s, [first] + rest) == DoAll(Do(s, first).value, rest)
  {
    assert ([first] + rest)[1..] == rest;
  }

  lemma DoTwo(s: Link, a: Step, b: Step)
    requires Do(s, a).Some? && Do(Do(s, a).value, b).Some?
    ensures DoAll(s, [a, b]) == Do(Do(s, a).value, b)
  {
    hide Do;
    assert [a, b][1..] == [b];
    DoFirst(Do(s, a).value, b, []);
    assert [b] + [] == [b];
  }

  lemma DoThree(s: Link, a: Step, b: Step, c: Step, rest: seq<Step>)
    requires Do(s, a).Some? && Do(Do(s, a).value, b).Some? && Do(Do(Do(s, a).value, b).value, c).Some?
    ensures DoAll(s, [a, b, c] + rest) == DoAll(Do(Do(Do(s, a).value, b).value, c).value, rest)
  {
    hide Do, DoAll;
    DoFirst(s, a, [b, c] + rest);
    DoFirst(Do(s, a).value, b, [c] + rest);
    DoFirst(Do(Do(s, a).value, b).value, c, rest);
    assert [a] + ([b, c] + rest) == [a, b, c] + rest && [b] + ([c] + rest) == [b, c] + rest;
  }

  lemma DoLast(s: Link)
    ensures DoAll(s, []) == Some(s)
  {
  }

  /** What sending a request with id `n` to connection `c` does to the connections. */
  function WithSent(s: Link, c: ConnId, q: Request): map<ConnId, Conn>
    requires c in s.conns
  {
    s.conns[c := s.conns[c].(sent := s.conns[c].sent + [q])]
  }

  lemma NextIdIsFree(s: Link)
    requires Inv(s)
    ensures s.nextId !in s.pending
  {
    hide WaitersInOrder, MailInOrder, ConnsInOrder;
    forall id | id in s.pending ensures id < s.nextId { assert UnderWay(s, s.pending[id], id); }
  }

  lemma ListedThenGone(pending: map<nat, ReqId>, n: nat, r: ReqId)
    requires n !in pending
    ensures pending[n := r] - {n} == pending && n in pending[n := r] && pending[n := r][n] == r
  {
  }

  /** From the moment it is bound to a connection: a request is sent there once, and its reply comes back to it alone. */
  lemma BoundExchange(s: Link, r: ReqId, c: ConnId, lobby: bool, body: seq<byte>)
    requires Inv(s) && r in s.reqs && s.reqs[r] == Bound(c, lobby) && c in s.conns && s.conns[c].state.Serving?
    ensures
      var n := s.nextId;
      var reply := Reply(n, body);
      DoAll(s, [TakeId(r), List(r), Send(r), Answer(c, reply), Receive(r), Finish(r)]) == Some(s.(
        nextId := n + 1, conns := WithSent(s, c, Request(n, lobby)),
        reqs := s.reqs[r := Done(n, Some(reply))], mail := s.mail[r := reply]))
  {
    hide Do, DoAll, Inv;
    var n, reply := s.nextId, Reply(s.nextId, body);
    NextIdIsFree(s);
    ListedThenGone(s.pending, n, r);
    var s1 := s.(nextId := n + 1, reqs := s.reqs[r := ReqState.Named(c, lobby, n)]);
    var s2 := s1.(pending := s.pending[n := r], reqs := s.reqs[r := Listed(c, lobby, n)]);
    var s3 := s2.(conns := WithSent(s, c, Request(n, lobby)), reqs := s.reqs[r := Awaiting(n)]);
    var s4 := s3.(pending := s.pending, mail := s.mail[r := reply]);
    var s5 := s4.(reqs := s.reqs[r := Decided(n, Some(reply))]);
    var s6 := s5.(reqs := s.reqs[r := Done(n, Some(reply))]);
    ListingSteps(s, r, c, lobby);
    AnswerStep(s3, c, reply, r);
    EndingSteps(s4, s6, r, n, reply);
    var last := [Answer(c, reply), Receive(r), Finish(r)];
    DoThree(s, TakeId(r), List(r), Send(r), last);
    assert [TakeId(r), List(r), Send(r)] + last == [TakeId(r), List(r), Send(r), Answer(c, reply), Receive(r), Finish(r)];
    DoThree(s3, Answer(c, reply), Receive(r), Finish(r), []);
    Concat(last, [], []);
    DoLast(s6);
  }

  lemma ListingSteps(s: Link, r: ReqId, c: ConnId, lobby: bool)
    requires r in s.reqs && s.reqs[r] == Bound(c, lobby) && c in s.conns && s.conns[c].state.Serving?
    ensures
      var n := s.nextId;
      var s1 := s.(nextId := n + 1, reqs := s.reqs[r := ReqState.Named(c, lobby, n)]);
      var s2 := s1.(pending := s.pending[n := r], reqs := s.reqs[r := Listed(c, lobby, n)]);
      && Do(s, TakeId(r)) == Some(s1) && Do(s1, List(r)) == Some(s2)
      && Do(s2, Send(r)) == Some(s2.(conns := WithSent(s, c, Request(n, lobby)), reqs := s.reqs[r := Awaiting(n)]))
  {
    var n := s.nextId;
    assert s.reqs[r := ReqState.Named(c, lobby, n)][r := Listed(c, lobby, n)] == s.reqs[r := Listed(c, lobby, n)];
    assert s.reqs[r := Listed(c, lobby, n)][r := Awaiting(n)] == s.reqs[r := Awaiting(n)];
  }

  lemma AnswerStep(s: Link, c: ConnId, reply: Reply, r: ReqId)
    requires c in s.conns && s.conns[c].state.Serving? && reply.id in s.pending && s.pending[reply.id] == r
    ensures Do(s, Answer(c, reply)) == Some(s.(pending := s.pending - {reply.id}, mail := s.mail[r := reply]))
  {
  }

  lemma EndingSteps(s: Link, t: Link, r: ReqId, n: nat, reply: Reply)
    requires r in s.reqs && s.reqs[r] == Awaiting(n) && r in s.mail && s.mail[r] == reply && n !in s.pending
    requires t == s.(reqs := s.reqs[r := Done(n, Some(reply))])
    ensures Do(s, Receive(r)) == Some(s.(reqs := s.reqs[r := Decided(n, Some(reply))]))
    ensures Do(s.(reqs := s.reqs[r := Decided(n, Some(reply))]), Finish(r)) == Some(t)
  {
    assert s.reqs[r := Decided(n, Some(reply))][r := Done(n, Some(reply))] == t.reqs;
    assert s.pending - {n} == s.pending;
  }

  /**
   Main result, from any state there can be: a lobby request finds the linked connection, is sent to it once, and
   ends with the reply; a join or a map request does so without a first look. Nothing else changes.
   */
  lemma AskedAndAnswered(s: Link, r: ReqId, c: ConnId, body: seq<byte>)
    requires Inv(s) && r !in s.reqs && CurrentConn(s) == Some(c) && s.conns[c].state.Serving?
    ensures
      var (n, reply) := (s.nextId, Reply(s.nextId, body));
      var ended := s.(nextId := n + 1, reqs := s.reqs[r := Done(n, Some(reply))], mail := s.mail[r := reply]);
      var rest := [TakeId(r), List(r), Send(r), Answer(c, reply), Receive(r), Finish(r)];
      && DoAll(s, [Check(r)] + ([Begin(r)] + rest)) ==
           Some(ended.(conns := WithSent(s, c, Request(n, s.conns[c].version >= LOBBY_VERSION))))
      && DoAll(s, [Ask(r)] + rest) == Some(ended.(conns := WithSent(s, c, Request(n, false))))
  {
    hide DoAll, RequestsInOrder, ConnsInOrder;
    CurrentIsKnown(s);
    var reply := Reply(s.nextId, body);
    var rest := [TakeId(r), List(r), Send(r), Answer(c, reply), Receive(r), Finish(r)];
    var lobby := s.conns[c].version >= LOBBY_VERSION;
    var looked, bound, asked :=
      s.(reqs := s.reqs[r := Checked(Some(c), lobby)]), s.(reqs := s.reqs[r := Bound(c, lobby)]), s.(reqs := s.reqs[r := Bound(c, false)]);
    assert looked.reqs[r := Bound(c, lobby)] == bound.reqs;
    assert Inv(looked) by { StepKeepsInv(s, Check(r)); }
    assert Inv(bound) by { StepKeepsInv(looked, Begin(r)); }
    assert Inv(asked) by { StepKeepsInv(s, Ask(r)); }
    DoFirst(s, Check(r), [Begin(r)] + rest);
    DoFirst(looked, Begin(r), rest);
    DoFirst(s, Ask(r), rest);
    BoundExchange(bound, r, c, lobby, body);
    BoundExchange(asked, r, c, false, body);
    var done := Done(s.nextId, Some(reply));
    assert bound.reqs[r := done] == s.reqs[r := done] && asked.reqs[r := done] == s.reqs[r := done];
  }

  /** Without a game server, a request is told so at once. */
  lemma AskedUnlinked(s: Link, r: ReqId)
    requires r !in s.reqs && s.current.None?
    ensures DoAll(s, [Check(r), Begin(r)]) == Some(s.(reqs := s.reqs[r := Unlinked])) == DoAll(s, [Ask(r)])
  {
    hide DoAll;
    var looked := s.(reqs := s.reqs[r := Checked(None, false)]);
    assert looked.reqs[r := Unlinked] == s.reqs[r := Unlinked];
    DoTwo(s, Check(r), Begin(r));
    DoFirst(s, Ask(r), []);
    DoLast(s.(reqs := s.reqs[r := Unlinked]));
    assert [Ask(r)] + [] == [Ask(r)];
  }

  /** From any state: a game server comes, is linked, has its games shown, and leaves nothing behind when it goes. */
  lemma ComesAndGoes(s: Link, c: ConnId, version: nat, games: seq<seq<byte>>)
    requires c !in s.conns && MIN_VERSION <= version <= VERSION
    ensures
      var up := DoAll(s, [Hello(c, version), TakeGeneration(c), Install(c), Push(c, games)]);
      && up.Some? && CurrentConn(up.value) == Some(c) && PublicGames(up.value) == games
      && var down := DoAll(up.value, [Break(c), Close(c)]);
      down.Some? && CurrentConn(down.value) == None && PublicGames(down.value) == []
  {
    hide DoAll;
    var g := s.generation + 1;
    var conn := Conn(version, Proved, []);
    var s1 := s.(conns := s.conns[c := conn]);
    var s2 := s.(generation := g, conns := s.conns[c := conn.(state := ConnState.Numbered(g))]);
    var s3 := s2.(current := Some(Current(g, c)), conns := s.conns[c := conn.(state := Serving(g))]);
    var s4 := s3.(games := games);
    var s5 := s4.(conns := s.conns[c := conn.(state := Leaving(g))]);
    var s6 := s5.(current := None, games := [], conns := s.conns[c := conn.(state := Gone)]);
    ComingSteps(s, c, version, games);
    DoThree(s, Hello(c, version), TakeGeneration(c), Install(c), [Push(c, games)]);
    assert [Hello(c, version), TakeGeneration(c), Install(c)] + [Push(c, games)] ==
      [Hello(c, version), TakeGeneration(c), Install(c), Push(c, games)];
    DoFirst(s3, Push(c, games), []);
    DoLast(s4);
    assert [Push(c, games)] + [] == [Push(c, games)];
    DoTwo(s4, Break(c), Close(c));
  }

  lemma ComingSteps(s: Link, c: ConnId, version: nat, games: seq<seq<byte>>)
    requires c !in s.conns && MIN_VERSION <= version <= VERSION
    ensures
      var (g, conn) := (s.generation + 1, Conn(version, Proved, []));
      var s1 := s.(conns := s.conns[c := conn]);
      var s2 := s.(generation := g, conns := s.conns[c := conn.(state := ConnState.Numbered(g))]);
      var s3 := s2.(current := Some(Current(g, c)), conns := s.conns[c := conn.(state := Serving(g))]);
      var s4 := s3.(games := games);
      var s5 := s4.(conns := s.conns[c := conn.(state := Leaving(g))]);
      var s6 := s5.(current := None, games := [], conns := s.conns[c := conn.(state := Gone)]);
      && Do(s, Hello(c, version)) == Some(s1) && Do(s1, TakeGeneration(c)) == Some(s2) && Do(s2, Install(c)) == Some(s3)
      && Do(s3, Push(c, games)) == Some(s4) && Do(s4, Break(c)) == Some(s5) && Do(s5, Close(c)) == Some(s6)
  {
    hide ReqStep;
    var g := s.generation + 1;
    Overwritten(s.conns, c, Conn(version, Proved, []), Conn(version, ConnState.Numbered(g), []));
    Overwritten(s.conns, c, Conn(version, ConnState.Numbered(g), []), Conn(version, Serving(g), []));
    Overwritten(s.conns, c, Conn(version, Serving(g), []), Conn(version, Leaving(g), []));
    Overwritten(s.conns, c, Conn(version, Leaving(g), []), Conn(version, Gone, []));
  }

  lemma Overwritten(conns: map<ConnId, Conn>, c: ConnId, a: Conn, b: Conn)
    ensures conns[c := a][c := b] == conns[c := b]
  {
  }
}
