/**
 The game-server link told from its history alone: which step can be taken when, to which connection a request is
 bound, and what is sent where and in what order.
 */
module GameServerLinkHistories {
  import opened Bytes
  import opened GameServerLinks
  import opened GameServerLinkRuns
  import opened GameServerLinkResults

  // ---- Connections ----

  /** The last step the connection took. */
  ghost function LastOf(steps: seq<Step>, c: ConnId): Option<Step> {
    if steps == [] then None else
    var last := steps[|steps| - 1];
    if IsConnStep(last) && last.c == c then Some(last) else LastOf(steps[..|steps| - 1], c)
  }

  /** The version it said hello with. */
  ghost function VersionOf(steps: seq<Step>, c: ConnId): nat {
    if steps == [] then 0 else
    var last := steps[|steps| - 1];
    if last.Hello? && last.c == c then last.version else VersionOf(steps[..|steps| - 1], c)
  }

  /** After `last`, or at its very beginning, a connection may take this step. */
  predicate MayFollow(last: Option<Step>, step: Step)
    requires IsConnStep(step)
  {
    if step.Hello? then last.None? && MIN_VERSION <= step.version <= VERSION
    else
      last.Some? &&
      match step
      case TakeGeneration(_) => last.value.Hello?
      case Install(_) => last.value.TakeGeneration?
      case Close(_) => last.value.Break?
      case _ => last.value.Install? || last.value.Push? || last.value.Answer?
  }

  /** Where the connection is by its last step. */
  predicate IsAt(last: Step, state: ConnState)
    requires IsConnStep(last)
  {
    match last
    case Hello(_, _) => state.Proved?
    case TakeGeneration(_) => state.Numbered?
    case Break(_) => state.Leaving?
    case Close(_) => state.Gone?
    case _ => state.Serving?
  }

  ghost predicate ConnTells(s: Link, steps: seq<Step>, c: ConnId) {
    match LastOf(steps, c)
    case None => c !in s.conns
    case Some(last) =>
      IsConnStep(last) && c in s.conns && IsAt(last, s.conns[c].state) && s.conns[c].version == VersionOf(steps, c)
  }

  lemma ConnStepTells(s: Link, t: Link, steps: seq<Step>, c: ConnId)
    requires steps != [] && ConnTells(s, steps[..|steps| - 1], c) && Do(s, steps[|steps| - 1]) == Some(t)
    ensures ConnTells(t, steps, c)
  {
    hide ReqStep;
    var last := steps[|steps| - 1];
    if !IsConnStep(last) { ReqStepKeepsStates(s, last); }
  }

  lemma ReqStepKeepsStates(s: Link, step: Step)
    requires !IsConnStep(step) && ReqStep(s, step).Some?
    ensures
      var t := ReqStep(s, step).value;
      t.conns.Keys == s.conns.Keys &&
      forall c | c in s.conns :: t.conns[c].state == s.conns[c].state && t.conns[c].version == s.conns[c].version
  {
  }

  lemma {:induction false} RunTellsConns(steps: seq<Step>, c: ConnId)
    requires Run(steps).Some?
    ensures ConnTells(Run(steps).value, steps, c)
    decreases |steps|
  {
    hide Do, ConnTells;
    if steps == [] {
      assert ConnTells(NEW_LINK, [], c) by { NewTellsConns(c); }
    } else {
      RunByStep(steps);
      RunTellsConns(steps[..|steps| - 1], c);
      ConnStepTells(Run(steps[..|steps| - 1]).value, Run(steps).value, steps, c);
    }
  }

  lemma NewTellsConns(c: ConnId)
    ensures ConnTells(NEW_LINK, [], c)
  {
  }

  /**
   Main result: a connection says hello once, in a version that is known, takes its number, is installed, is read from
   any number of times, breaks off and closes, and nothing else: whenever it is its turn, and only then.
   */
  lemma ConnStepIff(steps: seq<Step>, step: Step)
    requires Run(steps).Some? && IsConnStep(step)
    ensures Do(Run(steps).value, step).Some? <==> MayFollow(LastOf(steps, step.c), step)
  {
    hide Run, LastOf, VersionOf, Moved;
    RunTellsConns(steps, step.c);
  }

  // ---- Requests ----

  /** The last step the request took. */
  ghost function LastBy(steps: seq<Step>, r: ReqId): Option<Step> {
    if steps == [] then None else
    var last := steps[|steps| - 1];
    if !IsConnStep(last) && last.r == r then Some(last) else LastBy(steps[..|steps| - 1], r)
  }

  /** The connection linked when the request began. */
  ghost function BoundTo(steps: seq<Step>, r: ReqId): Option<ConnId> {
    if steps == [] then None else
    var most, last := steps[..|steps| - 1], steps[|steps| - 1];
    if last == Begin(r) || last == Ask(r) then LastInstalled(most) else BoundTo(most, r)
  }

  /** Whether the connection linked at the request's first look knew lobby requests; one without a first look is none. */
  ghost function LobbyAt(steps: seq<Step>, r: ReqId): bool {
    if steps == [] then false else
    var most, last := steps[..|steps| - 1], steps[|steps| - 1];
    if last == Check(r) then LastInstalled(most).Some? && VersionOf(most, LastInstalled(most).value) >= LOBBY_VERSION
    else if last == Ask(r) then false
    else LobbyAt(most, r)
  }

  /** How many ids have been given out. */
  ghost function IdsGiven(steps: seq<Step>): nat {
    if steps == [] then 0
    else IdsGiven(steps[..|steps| - 1]) + if steps[|steps| - 1].TakeId? then 1 else 0
  }

  /** The id the request took: as many as were given before. */
  ghost function IdGiven(steps: seq<Step>, r: ReqId): nat {
    if steps == [] then 0 else
    var most, last := steps[..|steps| - 1], steps[|steps| - 1];
    if last == TakeId(r) then IdsGiven(most) else IdGiven(most, r)
  }

  /** Where the request is by its last step. */
  ghost predicate ReqIsAt(steps: seq<Step>, r: ReqId, last: Step, q: ReqState)
    requires !IsConnStep(last)
  {
    var (c, lobby, id) := (BoundTo(steps, r), LobbyAt(steps, r), IdGiven(steps, r));
    match last
    case Check(_) => q.Checked? && q.lobby == lobby
    case Ask(_) => q == if c.None? then Unlinked else Bound(c.value, lobby)
    case Begin(_) => q == if c.None? then Unlinked else Bound(c.value, lobby)
    case TakeId(_) => c.Some? && q == ReqState.Named(c.value, lobby, id)
    case List(_) => c.Some? && q == Listed(c.value, lobby, id)
    case Send(_) => c.Some? && q == Awaiting(id)
    case Receive(_) => q.Decided? && q.id == id
    case GiveUp(_) => q.Decided? && q.id == id
    case Finish(_) => q.Done? && q.id == id
  }

  ghost predicate ReqTells(s: Link, steps: seq<Step>, r: ReqId) {
    match LastBy(steps, r)
    case None => r !in s.reqs
    case Some(last) => !IsConnStep(last) && r in s.reqs && ReqIsAt(steps, r, last, s.reqs[r])
  }

  /** Nobody else's step changes what a request's history says. */
  lemma OthersTellNothing(steps: seq<Step>, r: ReqId)
    requires steps != [] && (IsConnStep(steps[|steps| - 1]) || steps[|steps| - 1].r != r)
    ensures
      var most := steps[..|steps| - 1];
      && LastBy(steps, r) == LastBy(most, r) && BoundTo(steps, r) == BoundTo(most, r)
      && LobbyAt(steps, r) == LobbyAt(most, r) && IdGiven(steps, r) == IdGiven(most, r)
  {
  }

  lemma OthersStepKeeps(s: Link, step: Step, r: ReqId)
    requires Do(s, step).Some? && (IsConnStep(step) || step.r != r)
    ensures (r in Do(s, step).value.reqs <==> r in s.reqs) && (r in s.reqs ==> Do(s, step).value.reqs[r] == s.reqs[r])
  {
    hide Moved;
  }

  lemma ReqStepTells(s: Link, t: Link, steps: seq<Step>, r: ReqId)
    requires steps != [] && Run(steps[..|steps| - 1]) == Some(s) && Do(s, steps[|steps| - 1]) == Some(t)
    requires ReqTells(s, steps[..|steps| - 1], r) && s.nextId == IdsGiven(steps[..|steps| - 1])
    ensures ReqTells(t, steps, r)
  {
    hide Run, ConnStep, LastInstalled, VersionOf, ConnTells, IdsGiven;
    var most, last := steps[..|steps| - 1], steps[|steps| - 1];
    if IsConnStep(last) || last.r != r {
      OthersTellNothing(steps, r);
      OthersStepKeeps(s, last, r);
    } else {
      CurrentIsLastInstalled(most);
      if LastInstalled(most).Some? { CurrentVersion(most); }
    }
  }

  lemma CurrentVersion(steps: seq<Step>)
    requires Run(steps).Some? && LastInstalled(steps).Some?
    ensures
      var (s, c) := (Run(steps).value, LastInstalled(steps).value);
      c in s.conns && s.conns[c].version == VersionOf(steps, c)
  {
    hide Run, LastInstalled, RequestsInOrder, ConnsInOrder;
    RunsAreInOrder(steps);
    CurrentIsLastInstalled(steps);
    CurrentIsKnown(Run(steps).value);
    RunTellsConns(steps, LastInstalled(steps).value);
  }

  lemma {:induction false} RunTellsIds(steps: seq<Step>)
    requires Run(steps).Some?
    ensures Run(steps).value.nextId == IdsGiven(steps)
    decreases |steps|
  {
    if steps != [] {
      RunByStep(steps);
      RunTellsIds(steps[..|steps| - 1]);
    }
  }

  lemma {:induction false} RunTellsReqs(steps: seq<Step>, r: ReqId)
    requires Run(steps).Some?
    ensures ReqTells(Run(steps).value, steps, r)
    decreases |steps|
  {
    hide Do, ReqTells;
    if steps == [] {
      assert ReqTells(NEW_LINK, [], r) by { NewTellsReqs(r); }
    } else {
      var most := steps[..|steps| - 1];
      RunByStep(steps);
      RunTellsReqs(most, r);
      RunTellsIds(most);
      ReqStepTells(Run(most).value, Run(steps).value, steps, r);
    }
  }

  lemma NewTellsReqs(r: ReqId)
    ensures ReqTells(NEW_LINK, [], r)
  {
  }

  /** When it is the turn of the request's step, by its own last step and by what others have done. */
  ghost predicate IsItsTurn(steps: seq<Step>, step: Step)
    requires !IsConnStep(step)
  {
    var (r, last) := (step.r, LastBy(steps, step.r));
    if step.Check? || step.Ask? then last.None? else
    last.Some? &&
    match step
    case Begin(_) => last.value.Check?
    case TakeId(_) => (last.value.Begin? || last.value.Ask?) && BoundTo(steps, r).Some?
    case List(_) => last.value.TakeId?
    case Send(_) => last.value.List? && BoundTo(steps, r).Some? && IsOpen(steps, BoundTo(steps, r).value)
    case Receive(_) => last.value.Send? && Delivered(steps, r).Some?
    case GiveUp(_) => last.value.List? || last.value.Send?
    case _ => last.value.Receive? || last.value.GiveUp?
  }

  /** The connection came and has not closed. */
  ghost predicate IsOpen(steps: seq<Step>, c: ConnId) {
    LastOf(steps, c).Some? && !LastOf(steps, c).value.Close?
  }

  /**
   Main result: a request looks, begins, takes an id, is listed, is sent, receives or gives up, and finishes, in this
   order; it begins to be sent only if a connection was linked, is sent only while that one is open, and receives
   only what was delivered. Whenever it is its turn it can go on, and only then.
   */
  lemma ReqStepIff(steps: seq<Step>, step: Step)
    requires Run(steps).Some? && !IsConnStep(step)
    ensures Do(Run(steps).value, step).Some? <==> IsItsTurn(steps, step)
  {
    hide Run, LastOf, LastBy, VersionOf, BoundTo, LobbyAt, IdGiven, Delivered;
    RunTellsReqs(steps, step.r);
    MailIsDelivered(steps, step.r);
    if BoundTo(steps, step.r).Some? { RunTellsConns(steps, BoundTo(steps, step.r).value); }
  }

  // ---- What is sent ----

  /** The requests sent to the connection, in the order in which they were. */
  ghost function SentTo(steps: seq<Step>, c: ConnId): seq<Request> {
    if steps == [] then [] else
    var most, last := steps[..|steps| - 1], steps[|steps| - 1];
    if last.Send? && BoundTo(most, last.r) == Some(c)
    then SentTo(most, c) + [Request(IdGiven(most, last.r), LobbyAt(most, last.r))] else SentTo(most, c)
  }

  lemma StepSends(s: Link, t: Link, steps: seq<Step>, c: ConnId)
    requires steps != [] && Do(s, steps[|steps| - 1]) == Some(t) && c in t.conns
    requires steps[|steps| - 1].Send? ==> ReqTells(s, steps[..|steps| - 1], steps[|steps| - 1].r)
    requires c in s.conns ==> s.conns[c].sent == SentTo(steps[..|steps| - 1], c)
    requires c !in s.conns ==> SentTo(steps[..|steps| - 1], c) == []
    ensures t.conns[c].sent == SentTo(steps, c)
  {
    hide LastBy, BoundTo, LobbyAt, IdGiven, Do, ReqTells;
    var last := steps[|steps| - 1];
    if last.Send? {
      SendDoes(s, t, steps[..|steps| - 1], last.r, c);
    } else {
      OthersSendNothing(s, last, c);
    }
  }

  lemma SendDoes(s: Link, t: Link, most: seq<Step>, r: ReqId, c: ConnId)
    requires Do(s, Send(r)) == Some(t) && ReqTells(s, most, r)
    ensures c in t.conns <==> c in s.conns
    ensures c in s.conns ==>
      t.conns[c].sent == s.conns[c].sent + if BoundTo(most, r) == Some(c) then [Request(IdGiven(most, r), LobbyAt(most, r))] else []
  {
    hide LastBy, BoundTo, LobbyAt, IdGiven;
  }

  lemma OthersSendNothing(s: Link, step: Step, c: ConnId)
    requires Do(s, step).Some? && !step.Send? && c in Do(s, step).value.conns
    ensures Do(s, step).value.conns[c].sent == if c in s.conns then s.conns[c].sent else []
  {
  }

  /** To a connection not there yet nothing is sent. */
  lemma {:induction false} NothingSentBefore(steps: seq<Step>, c: ConnId)
    requires Run(steps).Some? && c !in Run(steps).value.conns
    ensures SentTo(steps, c) == []
    decreases |steps|
  {
    hide LastBy, BoundTo, LobbyAt, IdGiven, Do;
    if steps != [] {
      var most, last := steps[..|steps| - 1], steps[|steps| - 1];
      RunByStep(steps);
      ConnsStay(Run(most).value, last, c);
      NothingSentBefore(most, c);
      if last.Send? {
        RunTellsReqs(most, last.r);
        SendNeedsConn(Run(most).value, Run(steps).value, most, last.r);
      }
    }
  }

  lemma ConnsStay(s: Link, step: Step, c: ConnId)
    requires Do(s, step).Some?
    ensures c in s.conns ==> c in Do(s, step).value.conns
  {
  }

  lemma SendNeedsConn(s: Link, t: Link, most: seq<Step>, r: ReqId)
    requires Do(s, Send(r)) == Some(t) && ReqTells(s, most, r)
    ensures BoundTo(most, r).Some? && BoundTo(most, r).value in t.conns
  {
    hide LastBy, BoundTo, LobbyAt, IdGiven;
  }

  /** Main result: every connection has been sent just the requests bound to it, each under its own id, in the order of their sending. */
  lemma {:induction false} SentIsWhatWasBound(steps: seq<Step>, c: ConnId)
    requires Run(steps).Some? && c in Run(steps).value.conns
    ensures Run(steps).value.conns[c].sent == SentTo(steps, c)
    decreases |steps|
  {
    hide Do, ReqTells, SentTo;
    if steps != [] {
      var most, last := steps[..|steps| - 1], steps[|steps| - 1];
      RunByStep(steps);
      if c in Run(most).value.conns { SentIsWhatWasBound(most, c); } else { NothingSentBefore(most, c); }
      if last.Send? { RunTellsReqs(most, last.r); }
      StepSends(Run(most).value, Run(steps).value, steps, c);
    }
  }
}
