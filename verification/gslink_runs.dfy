/** Whole runs of the game-server link: every interleaving of its steps. */
module GameServerLinkRuns {
  import opened Bytes
  import opened GameServerLinks

  /** The link after the steps, if each could be taken. */
  function Run(steps: seq<Step>): Option<Link> {
    if steps == [] then Some(NEW_LINK) else
    var s := Run(steps[..|steps| - 1]);
    if s.None? then None else Do(s.value, steps[|steps| - 1])
  }

  /** The state before the last step. */
  lemma RunByStep(steps: seq<Step>)
    requires steps != [] && Run(steps).Some?
    ensures
      var s := Run(steps[..|steps| - 1]);
      s.Some? && Do(s.value, steps[|steps| - 1]) == Run(steps)
  {
  }

  lemma NewLinkIsInOrder()
    ensures Inv(NEW_LINK)
  {
  }

  lemma {:induction false} RunsAreInOrder(steps: seq<Step>)
    requires Run(steps).Some?
    ensures Inv(Run(steps).value)
    decreases |steps|
  {
    hide Do, Inv;
    if steps == [] {
      NewLinkIsInOrder();
    } else {
      RunByStep(steps);
      RunsAreInOrder(steps[..|steps| - 1]);
      StepKeepsInv(Run(steps[..|steps| - 1]).value, steps[|steps| - 1]);
    }
  }

  /** Main result: in every interleaving a request that got a reply got its own, and no finished request is still listed. */
  lemma RepliesAreTheirOwn(steps: seq<Step>, r: ReqId)
    requires Run(steps).Some? && r in Run(steps).value.reqs
    ensures
      var s := Run(steps).value;
      && (ResultOf(s.reqs[r]).Some? ==> IdOf(s.reqs[r]) == Some(ResultOf(s.reqs[r]).value.id))
      && (s.reqs[r].Done? ==> s.reqs[r].id !in s.pending)
      && forall id | id in s.pending :: s.pending[id] in s.reqs && !s.reqs[s.pending[id]].Done?
  {
    hide Run, ConnsInOrder;
    RunsAreInOrder(steps);
    var s := Run(steps).value;
    forall id | id in s.pending ensures s.pending[id] in s.reqs && IdOf(s.reqs[s.pending[id]]) == Some(id) && !s.reqs[s.pending[id]].Done? {
      assert UnderWay(s, s.pending[id], id);
    }
    if s.reqs[r].Done? && s.reqs[r].id in s.pending {
      SameIdSameRequest(s, r, s.pending[s.reqs[r].id]);
    }
  }

  // ---- Which connection is the current one ----

  /** The connection installed last, until it closes. */
  ghost function LastInstalled(steps: seq<Step>): Option<ConnId> {
    if steps == [] then None else
    var before := LastInstalled(steps[..|steps| - 1]);
    match steps[|steps| - 1]
    case Install(c) => Some(c)
    case Close(c) => if before == Some(c) then None else before
    case _ => before
  }

  function CurrentConn(s: Link): Option<ConnId> {
    match s.current case None => None case Some(k) => Some(k.conn)
  }

  lemma StepMovesCurrent(s: Link, step: Step)
    requires Inv(s) && Do(s, step).Some?
    ensures CurrentConn(Do(s, step).value) ==
      match step
      case Install(c) => Some(c)
      case Close(c) => if CurrentConn(s) == Some(c) then None else CurrentConn(s)
      case _ => CurrentConn(s)
  {
    hide RequestsInOrder, ConnsInOrder;
    if step.Close? { CloseUnlinksIff(s, step.c); }
  }

  /** Main result: comparing generations does what it should: linked is the connection installed last, unless it has closed. */
  lemma {:induction false} CurrentIsLastInstalled(steps: seq<Step>)
    requires Run(steps).Some?
    ensures CurrentConn(Run(steps).value) == LastInstalled(steps)
    decreases |steps|
  {
    hide Do, Inv;
    if steps != [] {
      RunByStep(steps);
      RunsAreInOrder(steps[..|steps| - 1]);
      CurrentIsLastInstalled(steps[..|steps| - 1]);
      StepMovesCurrent(Run(steps[..|steps| - 1]).value, steps[|steps| - 1]);
    }
  }

  // ---- The game list ----

  /** The list the connection pushed last. */
  ghost function LastPush(steps: seq<Step>, c: ConnId): seq<seq<byte>> {
    if steps == [] then [] else
    var last := steps[|steps| - 1];
    if last.Push? && last.c == c then last.games else LastPush(steps[..|steps| - 1], c)
  }

  /** Whoever pushed the list there is now; nobody when there is none, or the unlinking of a connection took it. */
  ghost function LastAuthor(steps: seq<Step>): Option<ConnId> {
    if steps == [] then None else
    var most := steps[..|steps| - 1];
    match steps[|steps| - 1]
    case Push(c, _) => Some(c)
    case Close(c) => if LastInstalled(most) == Some(c) then None else LastAuthor(most)
    case _ => LastAuthor(most)
  }

  /** The list pushed last by any connection, unless the linked connection has closed since. */
  ghost function LastShown(steps: seq<Step>): seq<seq<byte>> {
    match LastAuthor(steps) case None => [] case Some(c) => LastPush(steps, c)
  }

  lemma StepMovesGames(s: Link, step: Step)
    requires Inv(s) && Do(s, step).Some?
    ensures Do(s, step).value.games ==
      match step
      case Push(_, games) => games
      case Close(c) => if CurrentConn(s) == Some(c) then [] else s.games
      case _ => s.games
  {
    hide RequestsInOrder, ConnsInOrder;
    if step.Close? { CloseUnlinksIff(s, step.c); }
  }

  /** Main result: in every run, whatever replaces what, this is the list the lobby shows. */
  lemma {:induction false} ShownIsLastShown(steps: seq<Step>)
    requires Run(steps).Some?
    ensures Run(steps).value.games == LastShown(steps)
    ensures PublicGames(Run(steps).value) == if LastInstalled(steps).None? then [] else LastShown(steps)
    decreases |steps|
  {
    hide Do, Inv;
    CurrentIsLastInstalled(steps);
    if steps != [] {
      var most := steps[..|steps| - 1];
      RunByStep(steps);
      RunsAreInOrder(most);
      ShownIsLastShown(most);
      CurrentIsLastInstalled(most);
      StepMovesGames(Run(most).value, steps[|steps| - 1]);
    }
  }

  /** Asking takes two looks, first whether a game server is linked and then at the list, and steps may come between. */
  function Looked(first: Link, second: Link): seq<seq<byte>> {
    if first.current.None? then [] else second.games
  }

  lemma TwoLooksShow(steps: seq<Step>, n: nat)
    requires Run(steps).Some? && n <= |steps|
    ensures
      Run(steps[..n]).Some?
      && Looked(Run(steps[..n]).value, Run(steps).value) == if LastInstalled(steps[..n]).None? then [] else LastShown(steps)
  {
    hide Run, LastInstalled, LastShown;
    PrefixesRun(steps, n);
    CurrentIsLastInstalled(steps[..n]);
    ShownIsLastShown(steps);
  }

  /** A connection that was never read from has pushed nothing; nor has the linked one, as long as nobody is the author. */
  ghost predicate Silent(s: Link, steps: seq<Step>) {
    && (forall c | c !in s.conns || s.conns[c].state.Proved? || s.conns[c].state.Numbered? :: LastPush(steps, c) == [])
    && (LastAuthor(steps).None? && s.current.Some? ==> LastPush(steps, s.current.value.conn) == [])
  }

  lemma ConnStepKeepsSilent(s: Link, steps: seq<Step>)
    requires steps != [] && Silent(s, steps[..|steps| - 1]) && LastInstalled(steps[..|steps| - 1]) == CurrentConn(s)
    requires IsConnStep(steps[|steps| - 1]) && ConnStep(s, steps[|steps| - 1]).Some?
    requires steps[|steps| - 1].Close? ==>
      (ConnStep(s, steps[|steps| - 1]).value.current.None? <==> s.current.None? || CurrentConn(s) == Some(steps[|steps| - 1].c))
    ensures Silent(ConnStep(s, steps[|steps| - 1]).value, steps)
  {
    assert !steps[|steps| - 1].Push? ==> forall c :: LastPush(steps, c) == LastPush(steps[..|steps| - 1], c);
  }

  lemma ReqStepIsElsewhere(s: Link, step: Step)
    requires !IsConnStep(step) && Do(s, step).Some?
    ensures
      var t := Do(s, step).value;
      && t.current == s.current
      && forall c :: (c in t.conns <==> c in s.conns) && (c in s.conns ==> t.conns[c].state == s.conns[c].state)
  {
  }

  lemma StepKeepsSilent(s: Link, steps: seq<Step>)
    requires steps != [] && Inv(s) && Silent(s, steps[..|steps| - 1]) && Do(s, steps[|steps| - 1]).Some?
    requires LastInstalled(steps[..|steps| - 1]) == CurrentConn(s)
    ensures Silent(Do(s, steps[|steps| - 1]).value, steps)
  {
    hide RequestsInOrder, ConnsInOrder, ConnStep, ReqStep;
    var step := steps[|steps| - 1];
    if IsConnStep(step) {
      if step.Close? { CloseUnlinksIff(s, step.c); }
      ConnStepKeepsSilent(s, steps);
    } else {
      ReqStepIsElsewhere(s, step);
      assert forall c :: LastPush(steps, c) == LastPush(steps[..|steps| - 1], c);
    }
  }

  lemma {:induction false} SilentOverRuns(steps: seq<Step>)
    requires Run(steps).Some?
    ensures Silent(Run(steps).value, steps)
    decreases |steps|
  {
    hide Do, Inv, Silent;
    if steps == [] {
      assert Silent(NEW_LINK, []) by { NewLinkIsSilent(); }
    } else {
      var most := steps[..|steps| - 1];
      RunByStep(steps);
      RunsAreInOrder(most);
      SilentOverRuns(most);
      CurrentIsLastInstalled(most);
      StepKeepsSilent(Run(most).value, steps);
    }
  }

  lemma NewLinkIsSilent()
    ensures Silent(NEW_LINK, [])
  {
  }

  /**
   Main result: the linked game server's own last list is the one shown exactly when nobody has pushed
   since the last unlinking, or the last to push was that server, or one that pushed the very same list.
   */
  lemma OwnListIsShownIff(steps: seq<Step>, c: ConnId)
    requires Run(steps).Some? && LastInstalled(steps) == Some(c)
    ensures PublicGames(Run(steps).value) == LastPush(steps, c) <==>
      match LastAuthor(steps) case None => true case Some(a) => a == c || LastPush(steps, a) == LastPush(steps, c)
  {
    hide Run, LastPush, LastInstalled, LastAuthor;
    ShownIsLastShown(steps);
    CurrentIsLastInstalled(steps);
    SilentOverRuns(steps);
  }

  /** No connection is installed while another is linked. */
  ghost predicate NeverReplaced(steps: seq<Step>) {
    steps == [] ||
    (NeverReplaced(steps[..|steps| - 1]) &&
     (steps[|steps| - 1].Install? ==> LastInstalled(steps[..|steps| - 1]).None?))
  }

  /** Only the linked connection is open, and only it can have pushed the list there is. */
  ghost predicate Alone(s: Link, steps: seq<Step>) {
    && (forall c | c in s.conns :: Open(s.conns[c].state) ==> CurrentConn(s) == Some(c))
    && (LastAuthor(steps).Some? ==> LastAuthor(steps) == CurrentConn(s))
  }

  lemma StepKeepsAlone(s: Link, steps: seq<Step>)
    requires steps != [] && Inv(s) && Alone(s, steps[..|steps| - 1]) && Do(s, steps[|steps| - 1]).Some?
    requires LastInstalled(steps[..|steps| - 1]) == CurrentConn(s)
    requires steps[|steps| - 1].Install? ==> s.current.None?
    ensures Alone(Do(s, steps[|steps| - 1]).value, steps)
  {
    hide RequestsInOrder, ConnsInOrder, ReqStep;
    var step := steps[|steps| - 1];
    if IsConnStep(step) {
      if step.Close? { CloseUnlinksIff(s, step.c); }
    } else {
      ReqStepIsElsewhere(s, step);
    }
  }

  lemma {:induction false} AloneOverRuns(steps: seq<Step>)
    requires Run(steps).Some? && NeverReplaced(steps)
    ensures Alone(Run(steps).value, steps)
    decreases |steps|
  {
    hide Do, Inv, Alone;
    if steps == [] {
      assert Alone(NEW_LINK, []) by { NewLinkIsAlone(); }
    } else {
      var most := steps[..|steps| - 1];
      RunByStep(steps);
      RunsAreInOrder(most);
      AloneOverRuns(most);
      CurrentIsLastInstalled(most);
      StepKeepsAlone(Run(most).value, steps);
    }
  }

  lemma NewLinkIsAlone()
    ensures Alone(NEW_LINK, [])
  {
  }

  /** So it is as long as no game server replaces another. */
  lemma ShownGamesAreItsOwn(steps: seq<Step>)
    requires Run(steps).Some? && NeverReplaced(steps)
    ensures PublicGames(Run(steps).value) ==
      match LastInstalled(steps) case None => [] case Some(c) => LastPush(steps, c)
  {
    hide Run, LastPush, LastInstalled, LastAuthor;
    ShownIsLastShown(steps);
    AloneOverRuns(steps);
    CurrentIsLastInstalled(steps);
    if LastInstalled(steps).Some? { OwnListIsShownIff(steps, LastInstalled(steps).value); }
  }

  /** One more step on a run. */
  lemma Extended(steps: seq<Step>, step: Step)
    requires Run(steps).Some?
    ensures
      var more := steps + [step];
      && more[|more| - 1] == step && Run(more) == Do(Run(steps).value, step)
      && LastInstalled(more) ==
           (match step
            case Install(c) => Some(c)
            case Close(c) => if LastInstalled(steps) == Some(c) then None else LastInstalled(steps)
            case _ => LastInstalled(steps))
      && forall c :: LastPush(more, c) == if step.Push? && step.c == c then step.games else LastPush(steps, c)
  {
    hide Do;
    assert (steps + [step])[..|steps|] == steps;
  }

  /** A game server that speaks `version` says hello, is numbered and installed. */
  lemma LinkUp(steps: seq<Step>, c: ConnId, version: nat) returns (more: seq<Step>)
    requires Run(steps).Some? && c !in Run(steps).value.conns && MIN_VERSION <= version <= VERSION
    ensures Run(more) == Some(Linked(Run(steps).value, c, version)) && LastInstalled(more) == Some(c)
    ensures forall d :: LastPush(more, d) == LastPush(steps, d)
  {
    hide Run, LastInstalled, LastPush;
    var s := Run(steps).value;
    more := steps + [Hello(c, version)];
    Extended(steps, Hello(c, version));
    Extended(more, TakeGeneration(c));
    more := more + [TakeGeneration(c)];
    Extended(more, Install(c));
    more := more + [Install(c)];
    assert Run(more).value.conns == s.conns[c := Conn(version, Serving(s.generation + 1), [])];
  }

  function Linked(s: Link, c: ConnId, version: nat): Link {
    s.(generation := s.generation + 1, conns := s.conns[c := Conn(version, Serving(s.generation + 1), [])],
       current := Some(Current(s.generation + 1, c)))
  }

  /** After a replacement it need not be: game server 2 is linked and has pushed nothing, and the list of 1 is shown. */
  lemma ReplacedListCanShow()
    ensures exists steps ::
      Run(steps).Some? && LastInstalled(steps) == Some(2) && LastPush(steps, 2) == [] && PublicGames(Run(steps).value) == [[7]]
  {
    hide Run, LastInstalled, LastPush;
    assert Run([]) == Some(NEW_LINK) && LastPush([], 2) == [] by { NoSteps(2); }
    var steps := LinkUp([], 1, VERSION);
    Extended(steps, Push(1, [[7]]));
    steps := steps + [Push(1, [[7]])];
    steps := LinkUp(steps, 2, VERSION);
  }

  lemma NoSteps(c: ConnId)
    ensures Run([]) == Some(NEW_LINK) && LastPush([], c) == []
  {
  }

  // ---- Lobby requests and link versions ----

  /** A request that saw a server that knows lobby requests takes hold of one that does. */
  ghost predicate Fits(s: Link, step: Step) {
    step.Begin? && step.r in s.reqs && s.reqs[step.r].Checked? && s.reqs[step.r].lobby && s.current.Some? ==>
      s.current.value.conn in s.conns && s.conns[s.current.value.conn].version >= LOBBY_VERSION
  }

  ghost predicate Understands(version: nat, lobby: bool) {
    lobby ==> version >= LOBBY_VERSION
  }

  ghost predicate QueueUnderstood(s: Link, q: ReqState) {
    match q
    case Checked(Some(c), lobby) => c in s.conns && Understands(s.conns[c].version, lobby)
    case Checked(None, lobby) => !lobby
    case Bound(c, lobby) => c in s.conns && Understands(s.conns[c].version, lobby)
    case Named(c, lobby, _) => c in s.conns && Understands(s.conns[c].version, lobby)
    case Listed(c, lobby, _) => c in s.conns && Understands(s.conns[c].version, lobby)
    case _ => true
  }

  /** Everything sent, or on its way, is known to the game server it goes to. */
  ghost predicate AllUnderstood(s: Link) {
    && (forall r | r in s.reqs :: QueueUnderstood(s, s.reqs[r]))
    && (forall c, i | c in s.conns && 0 <= i < |s.conns[c].sent| :: Understands(s.conns[c].version, s.conns[c].sent[i].lobby))
  }

  lemma ConnStepKeepsUnderstood(s: Link, step: Step)
    requires AllUnderstood(s) && IsConnStep(step) && ConnStep(s, step).Some?
    ensures AllUnderstood(ConnStep(s, step).value)
  {
    hide Understands;
    var t := ConnStep(s, step).value;
    assert t.reqs == s.reqs;
    forall r | r in t.reqs ensures QueueUnderstood(t, t.reqs[r]) {
      assert QueueUnderstood(s, s.reqs[r]);
    }
  }

  lemma ReqStepKeepsUnderstood(s: Link, step: Step)
    requires AllUnderstood(s) && !IsConnStep(step) && ReqStep(s, step).Some? && Fits(s, step)
    requires s.current.Some? ==> s.current.value.conn in s.conns
    ensures AllUnderstood(ReqStep(s, step).value)
  {
    var r, t := step.r, ReqStep(s, step).value;
    if r in s.reqs { assert QueueUnderstood(s, s.reqs[r]); }
    assert QueueUnderstood(t, t.reqs[r]);
    SameVersions(s, t, r);
  }

  /** Only request `r` moved, and what was sent in addition is known to its connection. */
  lemma SameVersions(s: Link, t: Link, r: ReqId)
    requires AllUnderstood(s) && r in t.reqs && QueueUnderstood(t, t.reqs[r])
    requires t.reqs == s.reqs[r := t.reqs[r]]
    requires forall c :: (c in t.conns <==> c in s.conns) && (c in s.conns ==> SentMore(s.conns[c], t.conns[c]))
    ensures AllUnderstood(t)
  {
    hide Understands;
    forall q | q in t.reqs ensures QueueUnderstood(t, t.reqs[q]) {
      if q != r { assert QueueUnderstood(s, s.reqs[q]); }
    }
  }

  ghost predicate SentMore(a: Conn, b: Conn) {
    && a.version == b.version && |a.sent| <= |b.sent|
    && forall i | 0 <= i < |b.sent| :: if i < |a.sent| then b.sent[i] == a.sent[i] else Understands(b.version, b.sent[i].lobby)
  }

  /** One step: everything stays understood exactly when the server taken hold of fits the request. */
  lemma StepUnderstoodIff(s: Link, step: Step)
    requires Inv(s) && AllUnderstood(s) && Do(s, step).Some?
    ensures AllUnderstood(Do(s, step).value) <==> Fits(s, step)
  {
    hide RequestsInOrder, ConnsInOrder, AllUnderstood, ConnStep, ReqStep;
    CurrentIsKnown(s);
    if IsConnStep(step) {
      ConnStepKeepsUnderstood(s, step);
    } else if Fits(s, step) {
      ReqStepKeepsUnderstood(s, step);
    } else {
      MisfitShows(s, step);
    }
  }

  lemma MisfitShows(s: Link, step: Step)
    requires !IsConnStep(step) && ReqStep(s, step).Some? && !Fits(s, step)
    ensures !AllUnderstood(ReqStep(s, step).value)
  {
    var t := ReqStep(s, step).value;
    assert !QueueUnderstood(t, t.reqs[step.r]);
  }

  lemma {:induction false} PrefixesRun(steps: seq<Step>, n: nat)
    requires Run(steps).Some? && n <= |steps|
    ensures Run(steps[..n]).Some?
    decreases |steps|
  {
    hide Do;
    if n < |steps| {
      RunByStep(steps);
      PrefixesRun(steps[..|steps| - 1], n);
      assert steps[..|steps| - 1][..n] == steps[..n];
    } else {
      assert steps[..n] == steps;
    }
  }

  ghost predicate UnderstoodAt(o: Option<Link>) {
    o.Some? ==> AllUnderstood(o.value)
  }

  ghost predicate FitsAt(o: Option<Link>, step: Step) {
    o.Some? ==> Fits(o.value, step)
  }

  /**
   Main result: over every run, nothing its version does not know is ever sent to a game server, or on its
   way there, exactly when every lobby request took hold of a server that knows such requests.
   */
  lemma {:induction false} VersionsAreRespectedIff(steps: seq<Step>)
    requires Run(steps).Some?
    ensures (forall i | 0 <= i <= |steps| :: UnderstoodAt(Run(steps[..i])))
      <==> forall i | 0 <= i < |steps| :: FitsAt(Run(steps[..i]), steps[i])
    decreases |steps|
  {
    hide Do, Inv, AllUnderstood, Fits, Run;
    assert steps[..|steps|] == steps;
    if steps == [] {
      assert UnderstoodAt(Run([])) by { NoSteps(0); NewLinkIsUnderstood(); }
    } else {
      var most, last := steps[..|steps| - 1], steps[|steps| - 1];
      PrefixesRun(steps, |steps| - 1);
      VersionsAreRespectedIff(most);
      assert forall i | 0 <= i <= |most| :: most[..i] == steps[..i];
      assert most[..|most|] == most;
      RunByStep(steps);
      RunsAreInOrder(most);
      if AllUnderstood(Run(most).value) { StepUnderstoodIff(Run(most).value, last); }
    }
  }

  lemma NewLinkIsUnderstood()
    ensures AllUnderstood(NEW_LINK)
  {
  }

  /** The request takes hold of the connection whose version it looked at. */
  ghost predicate Undisturbed(s: Link, step: Step) {
    step.Begin? && step.r in s.reqs && s.reqs[step.r].Checked? && s.current.Some? ==>
      s.reqs[step.r].seen == Some(s.current.value.conn)
  }

  /** A request that finds the server it looked at finds one that fits. */
  lemma UndisturbedFits(s: Link, step: Step)
    requires AllUnderstood(s) && Undisturbed(s, step)
    ensures Fits(s, step)
  {
    if step.Begin? && step.r in s.reqs { assert QueueUnderstood(s, s.reqs[step.r]); }
  }

  ghost predicate NeverDisturbed(steps: seq<Step>) {
    steps == [] ||
    (NeverDisturbed(steps[..|steps| - 1]) &&
     (Run(steps[..|steps| - 1]).Some? ==> Undisturbed(Run(steps[..|steps| - 1]).value, steps[|steps| - 1])))
  }

  /** So it is, in particular, while none is replaced between a request's two looks at the link. */
  lemma {:induction false} VersionsAreRespected(steps: seq<Step>)
    requires Run(steps).Some? && NeverDisturbed(steps)
    ensures AllUnderstood(Run(steps).value)
    decreases |steps|
  {
    hide Do, Inv, AllUnderstood, Undisturbed, Fits;
    if steps == [] {
      assert AllUnderstood(NEW_LINK) by { NewLinkIsUnderstood(); }
    } else {
      var most := steps[..|steps| - 1];
      RunByStep(steps);
      RunsAreInOrder(most);
      VersionsAreRespected(most);
      UndisturbedFits(Run(most).value, steps[|steps| - 1]);
      StepUnderstoodIff(Run(most).value, steps[|steps| - 1]);
    }
  }

  /** With a replacement between the two looks, a version-1 game server is sent a lobby request. */
  lemma OldServerCanGetLobbyRequest()
    ensures exists steps :: Run(steps).Some? && !AllUnderstood(Run(steps).value)
  {
    hide Run, LastInstalled, LastPush, AllUnderstood;
    assert Run([]) == Some(NEW_LINK) by { NoSteps(0); }
    var steps := LinkUp([], 2, LOBBY_VERSION);
    Extended(steps, Check(9));
    steps := steps + [Check(9)];
    steps := LinkUp(steps, 1, MIN_VERSION);
    Extended(steps, Begin(9));
    steps := steps + [Begin(9)];
    steps := SendsLobby(steps, 9, 1);
    SentToOldServer(Run(steps).value, 1);
  }

  /** From its hold on the queue of a fresh connection a request gets its id, is listed and sent. */
  lemma SendsLobby(steps: seq<Step>, r: ReqId, c: ConnId) returns (more: seq<Step>)
    requires Run(steps).Some?
    requires
      var s := Run(steps).value;
      && r in s.reqs && s.reqs[r] == Bound(c, true)
      && c in s.conns && s.conns[c].state.Serving? && s.conns[c].sent == []
    ensures Run(more).Some? && c in Run(more).value.conns
    ensures Run(more).value.conns[c] == Run(steps).value.conns[c].(sent := [Request(Run(steps).value.nextId, true)])
  {
    hide Run, LastInstalled, LastPush;
    Extended(steps, TakeId(r));
    more := steps + [TakeId(r)];
    Extended(more, List(r));
    more := more + [List(r)];
    Extended(more, Send(r));
    more := more + [Send(r)];
  }

  lemma SentToOldServer(s: Link, c: ConnId)
    requires c in s.conns && s.conns[c].version < LOBBY_VERSION && |s.conns[c].sent| == 1 && s.conns[c].sent[0].lobby
    ensures !AllUnderstood(s)
  {
    assert !Understands(s.conns[c].version, s.conns[c].sent[0].lobby);
  }
}
