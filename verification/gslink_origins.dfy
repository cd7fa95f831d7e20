/** Who answers whom on the game-server link: replies are matched by id alone, so this rests on the game servers. */
module GameServerLinkOrigins {
  import opened Bytes
  import opened GameServerLinks
  import opened GameServerLinkRuns

  ghost predicate HasSent(conn: Conn, id: nat) {
    exists i :: 0 <= i < |conn.sent| && conn.sent[i].id == id
  }

  predicate Past(q: ReqState) {
    q.Awaiting? || q.Decided? || q.Done?
  }

  /** What was sent has an id given out, belongs to a request past its sending, and went to one connection. */
  ghost predicate SentOnce(s: Link) {
    && (forall c, id: nat | c in s.conns && HasSent(s.conns[c], id) :: id < s.nextId)
    && (forall c, r | c in s.conns && r in s.reqs && IdOf(s.reqs[r]).Some? && HasSent(s.conns[c], IdOf(s.reqs[r]).value) ::
          Past(s.reqs[r]))
    && (forall c, d, id: nat | c in s.conns && d in s.conns && HasSent(s.conns[c], id) && HasSent(s.conns[d], id) :: c == d)
  }

  /** Nothing is sent, and requests keep their ids or get the next one. */
  ghost predicate Quiet(s: Link, t: Link) {
    && s.nextId <= t.nextId
    && (forall c | c in t.conns :: (c in s.conns && t.conns[c].sent == s.conns[c].sent) || t.conns[c].sent == [])
    && (forall r | r in t.reqs && IdOf(t.reqs[r]).Some? :: Keeps(s, t, r))
  }

  ghost predicate Keeps(s: Link, t: Link, r: ReqId)
    requires r in t.reqs
  {
    || IdOf(t.reqs[r]) == Some(s.nextId)
    || (r in s.reqs && IdOf(s.reqs[r]) == IdOf(t.reqs[r]) && (Past(s.reqs[r]) ==> Past(t.reqs[r])))
  }

  lemma QuietKeepsSentOnce(s: Link, t: Link)
    requires SentOnce(s) && Quiet(s, t)
    ensures SentOnce(t)
  {
    hide IdOf;
    forall c, id: nat | c in t.conns && HasSent(t.conns[c], id) ensures c in s.conns && HasSent(s.conns[c], id) {
    }
    forall c, r | c in t.conns && r in t.reqs && IdOf(t.reqs[r]).Some? && HasSent(t.conns[c], IdOf(t.reqs[r]).value)
      ensures Past(t.reqs[r])
    {
      assert Keeps(s, t, r);
    }
  }

  lemma SendAppends(conn: Conn, q: Request, id: nat)
    ensures HasSent(conn.(sent := conn.sent + [q]), id) <==> HasSent(conn, id) || q.id == id
  {
    var more := conn.sent + [q];
    assert more[|conn.sent|] == q;
    if i :| 0 <= i < |conn.sent| && conn.sent[i].id == id { assert more[i].id == id; }
  }

  lemma SendKeepsSentOnce(s: Link, r: ReqId, c: ConnId, lobby: bool, id: nat)
    requires IdsInOrder(s.reqs, s.nextId) && SentOnce(s)
    requires r in s.reqs && s.reqs[r] == Listed(c, lobby, id) && c in s.conns
    ensures SentOnce(s.(conns := s.conns[c := s.conns[c].(sent := s.conns[c].sent + [Request(id, lobby)])], reqs := s.reqs[r := Awaiting(id)]))
  {
    hide HasSent;
    var t := s.(conns := s.conns[c := s.conns[c].(sent := s.conns[c].sent + [Request(id, lobby)])], reqs := s.reqs[r := Awaiting(id)]);
    forall i: nat ensures HasSent(t.conns[c], i) <==> HasSent(s.conns[c], i) || i == id {
      SendAppends(s.conns[c], Request(id, lobby), i);
    }
    assert forall d | d in s.conns :: !HasSent(s.conns[d], id);
  }

  lemma ConnStepIsQuiet(s: Link, step: Step)
    requires IsConnStep(step) && ConnStep(s, step).Some?
    ensures Quiet(s, ConnStep(s, step).value)
  {
  }

  lemma ReqStepIsQuiet(s: Link, step: Step)
    requires !IsConnStep(step) && !step.Send? && ReqStep(s, step).Some?
    ensures Quiet(s, ReqStep(s, step).value)
  {
  }

  lemma StepKeepsSentOnce(s: Link, step: Step)
    requires Inv(s) && SentOnce(s) && Do(s, step).Some?
    ensures SentOnce(Do(s, step).value)
  {
    hide SentOnce, ConnsInOrder, PendingInOrder, MailInOrder, WaitersInOrder, Quiet, IdsInOrder, ConnStep;
    if step.Send? {
      var q := s.reqs[step.r];
      SendKeepsSentOnce(s, step.r, q.conn, q.lobby, q.id);
    } else {
      if IsConnStep(step) { ConnStepIsQuiet(s, step); } else { ReqStepIsQuiet(s, step); }
      QuietKeepsSentOnce(s, Do(s, step).value);
    }
  }

  lemma {:induction false} RunsSendOnce(steps: seq<Step>)
    requires Run(steps).Some?
    ensures SentOnce(Run(steps).value)
    decreases |steps|
  {
    hide Do, Inv, SentOnce;
    if steps == [] {
      assert SentOnce(NEW_LINK) by { NewLinkSentNothing(); }
    } else {
      var most := steps[..|steps| - 1];
      RunByStep(steps);
      RunsAreInOrder(most);
      RunsSendOnce(most);
      StepKeepsSentOnce(Run(most).value, steps[|steps| - 1]);
    }
  }

  lemma NewLinkSentNothing()
    ensures SentOnce(NEW_LINK)
  {
  }

  // ---- Where a reply came from ----

  /** The connection whose answer reached the request. */
  ghost function DeliveredBy(steps: seq<Step>, r: ReqId): Option<ConnId> {
    if steps == [] then None else
    var most, last := steps[..|steps| - 1], steps[|steps| - 1];
    if last.Answer? && Run(most).Some? && last.reply.id in Run(most).value.pending && Run(most).value.pending[last.reply.id] == r
    then Some(last.c) else DeliveredBy(most, r)
  }

  /** An answer that reaches a request comes from a game server that was asked. */
  ghost predicate Honest(s: Link, step: Step) {
    step.Answer? && step.reply.id in s.pending && step.c in s.conns ==> HasSent(s.conns[step.c], step.reply.id)
  }

  ghost predicate HonestAt(o: Option<Link>, step: Step) {
    o.Some? ==> Honest(o.value, step)
  }

  /** The reply in the request's mail is from a connection that was sent its id. */
  ghost predicate FromAsked(s: Link, r: ReqId, sender: Option<ConnId>) {
    r in s.mail ==> sender.Some? && sender.value in s.conns && HasSent(s.conns[sender.value], s.mail[r].id)
  }

  lemma SentStays(s: Link, step: Step, c: ConnId, id: nat)
    requires Do(s, step).Some? && c in s.conns && HasSent(s.conns[c], id)
    ensures c in Do(s, step).value.conns && HasSent(Do(s, step).value.conns[c], id)
  {
    hide ConnStep, ReqStep, HasSent;
    if IsConnStep(step) {
      ConnStepSendsNothing(s, step, c);
      SameSent(s.conns[c], ConnStep(s, step).value.conns[c], id);
    } else {
      ReqStepSends(s, step, c, id);
    }
  }

  lemma ConnStepSendsNothing(s: Link, step: Step, c: ConnId)
    requires IsConnStep(step) && ConnStep(s, step).Some? && c in s.conns
    ensures c in ConnStep(s, step).value.conns && ConnStep(s, step).value.conns[c].sent == s.conns[c].sent
  {
  }

  lemma SameSent(a: Conn, b: Conn, id: nat)
    requires a.sent == b.sent && HasSent(a, id)
    ensures HasSent(b, id)
  {
  }

  lemma ReqStepSends(s: Link, step: Step, c: ConnId, id: nat)
    requires !IsConnStep(step) && ReqStep(s, step).Some? && c in s.conns && HasSent(s.conns[c], id)
    ensures c in ReqStep(s, step).value.conns && HasSent(ReqStep(s, step).value.conns[c], id)
  {
    hide HasSent;
    if step.Send? && s.reqs[step.r].conn == c {
      var q := s.reqs[step.r];
      SendAppends(s.conns[c], Request(q.id, q.lobby), id);
    }
  }

  /** Mail is new only by an answer to the one listed under its id. */
  lemma NewMail(s: Link, step: Step, r: ReqId)
    requires Inv(s) && Do(s, step).Some? && r in Do(s, step).value.mail
    ensures r in s.mail ==>
      Do(s, step).value.mail[r] == s.mail[r] && !(step.Answer? && step.reply.id in s.pending && s.pending[step.reply.id] == r)
    ensures r !in s.mail ==>
      step.Answer? && step.reply.id in s.pending && s.pending[step.reply.id] == r && Do(s, step).value.mail[r] == step.reply
      && step.c in s.conns && step.c in Do(s, step).value.conns
  {
    hide IdsInOrder, WaitersInOrder, ConnsInOrder, Moved, ReqStep;
    if step.Answer? && step.reply.id in s.pending {
      assert UnderWay(s, s.pending[step.reply.id], step.reply.id);
    }
    if !IsConnStep(step) { ReqStepKeepsMail(s, step); }
  }

  /** Every reply there is came from a connection that had been sent its id. */
  ghost predicate AllFromAsked(steps: seq<Step>) {
    Run(steps).Some? ==> forall r | r in Run(steps).value.mail :: FromAsked(Run(steps).value, r, DeliveredBy(steps, r))
  }

  lemma StepFromAskedIff(steps: seq<Step>)
    requires steps != [] && Run(steps).Some? && AllFromAsked(steps[..|steps| - 1])
    ensures AllFromAsked(steps) <==> HonestAt(Run(steps[..|steps| - 1]), steps[|steps| - 1])
  {
    hide Do, Inv, HasSent;
    var most, last := steps[..|steps| - 1], steps[|steps| - 1];
    RunByStep(steps);
    RunsAreInOrder(most);
    var s, t := Run(most).value, Run(steps).value;
    if Honest(s, last) {
      forall r | r in t.mail ensures FromAsked(t, r, DeliveredBy(steps, r)) {
        NewMail(s, last, r);
        if r in s.mail {
          assert FromAsked(s, r, DeliveredBy(most, r));
          SentStays(s, last, DeliveredBy(most, r).value, s.mail[r].id);
        } else {
          SentStays(s, last, last.c, last.reply.id);
        }
      }
    } else {
      var r := s.pending[last.reply.id];
      DeliveryIsNew(s, last);
      assert !HasSent(t.conns[last.c], t.mail[r].id);
      assert !FromAsked(t, r, DeliveredBy(steps, r));
    }
  }

  lemma DeliveryIsNew(s: Link, step: Step)
    requires Inv(s) && Do(s, step).Some? && step.Answer? && step.reply.id in s.pending
    ensures
      var t := Do(s, step).value;
      t.conns == s.conns && s.pending[step.reply.id] in t.mail && t.mail[s.pending[step.reply.id]] == step.reply
  {
  }

  /**
   Main result, on any run: at every moment each reply came from a connection that had been sent its id
   exactly when every answer that reached a request came from a game server that had been asked.
   */
  lemma {:induction false} RepliesComeFromAskedIff(steps: seq<Step>)
    requires Run(steps).Some?
    ensures (forall i | 0 <= i <= |steps| :: AllFromAsked(steps[..i]))
      <==> forall i | 0 <= i < |steps| :: HonestAt(Run(steps[..i]), steps[i])
    decreases |steps|
  {
    hide Do, AllFromAsked, HonestAt, Run;
    assert steps[..|steps|] == steps;
    if steps == [] {
      assert AllFromAsked([]) by { NoMail(); }
    } else {
      var most := steps[..|steps| - 1];
      PrefixesRun(steps, |steps| - 1);
      RepliesComeFromAskedIff(most);
      assert forall i | 0 <= i <= |most| :: most[..i] == steps[..i];
      assert most[..|most|] == most;
      if AllFromAsked(most) { StepFromAskedIff(steps); }
    }
  }

  lemma NoMail()
    ensures AllFromAsked([])
  {
  }

  /** And the connection that was sent an id is the only one that was. */
  lemma AskedAlone(steps: seq<Step>, r: ReqId, d: ConnId)
    requires Run(steps).Some? && r in Run(steps).value.mail && AllFromAsked(steps)
    requires d in Run(steps).value.conns && HasSent(Run(steps).value.conns[d], Run(steps).value.mail[r].id)
    ensures DeliveredBy(steps, r) == Some(d)
  {
    hide Run, HasSent, SentOnce, DeliveredBy;
    RunsSendOnce(steps);
    var s := Run(steps).value;
    assert FromAsked(s, r, DeliveredBy(steps, r));
    OneReceiver(s, d, s.mail[r].id);
  }

  lemma OneReceiver(s: Link, c: ConnId, id: nat)
    requires SentOnce(s) && c in s.conns && HasSent(s.conns[c], id)
    ensures forall d | d in s.conns && HasSent(s.conns[d], id) :: d == c
  {
  }

  /** The reply is from a connection that was sent nothing at all. */
  ghost predicate AnsweredUnasked(s: Link, r: ReqId, sender: Option<ConnId>) {
    r in s.mail && sender.Some? && sender.value in s.conns && s.conns[sender.value].sent == []
  }

  /** Nothing on the realm's side sees to it: a replaced game server can answer what its successor was asked. */
  lemma StrangerCanAnswer()
    ensures exists steps :: Run(steps).Some? && AnsweredUnasked(Run(steps).value, 9, DeliveredBy(steps, 9))
  {
    hide Run, LastInstalled, LastPush, DeliveredBy;
    assert Run([]) == Some(NEW_LINK) by { NoSteps(0); }
    var steps := LinkUp([], 1, MIN_VERSION);
    steps := LinkUp(steps, 2, VERSION);
    steps := Asks(steps, 9, 2);
    Extended(steps, Answer(1, Reply(0, [])));
    var more := steps + [Answer(1, Reply(0, []))];
    assert more[..|more| - 1] == steps;
    AnsweredLast(more, 9);
  }

  lemma AnsweredLast(steps: seq<Step>, r: ReqId)
    requires steps != [] && steps[|steps| - 1].Answer? && Run(steps[..|steps| - 1]).Some?
    requires
      var s := Run(steps[..|steps| - 1]).value;
      steps[|steps| - 1].reply.id in s.pending && s.pending[steps[|steps| - 1].reply.id] == r
    ensures DeliveredBy(steps, r) == Some(steps[|steps| - 1].c)
  {
  }

  /** A request looks at the link, is bound to the linked connection, gets its id, and is listed. */
  lemma Asks(steps: seq<Step>, r: ReqId, c: ConnId) returns (more: seq<Step>)
    requires Run(steps).Some? && r !in Run(steps).value.reqs && CurrentConn(Run(steps).value) == Some(c)
    ensures
      Run(more).Some? &&
      var (s, t) := (Run(steps).value, Run(more).value);
      t.conns == s.conns && t.pending == s.pending[s.nextId := r]
  {
    hide Run, LastInstalled, LastPush;
    Extended(steps, Check(r));
    more := steps + [Check(r)];
    Extended(more, Begin(r));
    more := more + [Begin(r)];
    Extended(more, TakeId(r));
    more := more + [TakeId(r)];
    Extended(more, List(r));
    more := more + [List(r)];
  }
}
