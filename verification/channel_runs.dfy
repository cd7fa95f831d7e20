/** Whole runs of a channel: who may be operator, how long a ban lasts, and when the operator's flag is lost. */
module ChannelRuns {
  import opened Bytes
  import opened Text
  import opened Channels
  import opened ChannelRosters

  /** A channel as the node creates it, with the rule and the persistence the node gave it. */
  function Created(class_: ChannelClass, maxUsers: nat, grant: OpGrant, persist: bool): Channel {
    New(class_, maxUsers).(grant := grant, persist := persist)
  }

  ghost predicate IsCreated(c: Channel) {
    exists class_, maxUsers, grant, persist :: c == Created(class_, maxUsers, grant, persist)
  }

  /** The states `ss` that the operations `ops` go through. */
  ghost predicate IsRun(ss: seq<Channel>, ops: seq<Op>) {
    && |ss| == |ops| + 1
    && IsCreated(ss[0])
    && forall i | 0 <= i < |ops| :: Follows(ss[i], ops[i], ss[i + 1])
  }

  ghost predicate Follows(c: Channel, op: Op, d: Channel) {
    d == Step(c, op).0
  }

  /** Every state of every run is in order. */
  lemma {:induction false} RunsAreInOrder(ss: seq<Channel>, ops: seq<Op>, n: nat)
    requires IsRun(ss, ops) && n < |ss|
    ensures Inv(ss[n])
    decreases n
  {
    hide Inv, Step;
    if n == 0 {
      CreatedIsInOrder(ss[0]);
    } else {
      RunsAreInOrder(ss, ops, n - 1);
      assert Follows(ss[n - 1], ops[n - 1], ss[n]);
      StepKeepsInv(ss[n - 1], ops[n - 1]);
    }
  }

  lemma CreatedIsInOrder(c: Channel)
    requires IsCreated(c)
    ensures Inv(c)
  {
  }

  // ---- Where operators come from ----

  /** From state `i` to state `n` the account is in the channel. */
  ghost predicate StaysIn(ss: seq<Channel>, x: AccountId, i: nat, n: nat)
    requires n < |ss|
  {
    forall j | i < j <= n :: Present(ss[j].members, x)
  }

  /** At step `i` the account was granted the role on entry or designated, and it has not fully left before `n`. */
  ghost predicate Origin(ss: seq<Channel>, ops: seq<Op>, x: AccountId, i: nat, n: nat)
    requires |ss| == |ops| + 1 && i < n < |ss|
  {
    && (GrantedOnEntry(ss[i], ops[i], x) || DesignatedNow(ss[i], ops[i], x))
    && StaysIn(ss, x, i, n)
  }

  /**
   * Main result: whoever is operator, or in line to be, was once let in as operator by the channel's rule, or
   * designated by the operator of the time, and has had a session in the channel ever since.
   */
  lemma {:induction false} OperatorsHaveAnOrigin(ss: seq<Channel>, ops: seq<Op>, x: AccountId, n: nat)
    requires IsRun(ss, ops) && n < |ss| && Leads(ss[n], x)
    ensures exists i | 0 <= i < n :: Origin(ss, ops, x, i, n)
    decreases n
  {
    hide Inv, Step, GrantedOnEntry, DesignatedNow;
    if n == 0 {
      CreatedHasNoLeader(ss[0], x);
    } else {
      assert Follows(ss[n - 1], ops[n - 1], ss[n]);
      RunsAreInOrder(ss, ops, n - 1);
      RunsAreInOrder(ss, ops, n);
      LeadersArePresent(ss[n], x);
      StepOrigin(ss[n - 1], ops[n - 1], x);
      if Leads(ss[n - 1], x) {
        OperatorsHaveAnOrigin(ss, ops, x, n - 1);
        var i :| 0 <= i < n - 1 && Origin(ss, ops, x, i, n - 1);
        assert Origin(ss, ops, x, i, n);
      } else {
        assert Origin(ss, ops, x, n - 1, n);
      }
    }
  }

  lemma CreatedHasNoLeader(c: Channel, x: AccountId)
    requires IsCreated(c)
    ensures !Leads(c, x)
  {
  }

  lemma LeadersArePresent(c: Channel, x: AccountId)
    requires Inv(c) && Leads(c, x)
    ensures Present(c.members, x)
  {
  }

  /** The step before `n` that last put the account at the end of the line; -1 when none did. */
  ghost function PlacedAt(ss: seq<Channel>, ops: seq<Op>, x: AccountId, n: nat): (i: int)
    requires n <= |ops| < |ss|
    ensures -1 <= i < n
    decreases n
  {
    if n == 0 then -1 else if Places(ss[n - 1], ops[n - 1], x) then n - 1 else PlacedAt(ss, ops, x, n - 1)
  }

  /** Main result: at every moment the line stands in the order of its designations, and its first is the next operator. */
  lemma {:induction false} LineIsInOrderOfDesignation(ss: seq<Channel>, ops: seq<Op>, x: AccountId, y: AccountId, n: nat)
    requires IsRun(ss, ops) && n < |ss| && x in ss[n].heirs && y in ss[n].heirs && x != y
    ensures PlacedAt(ss, ops, x, n) >= 0
    ensures Before(ss[n].heirs, x, y) <==> PlacedAt(ss, ops, x, n) < PlacedAt(ss, ops, y, n)
    decreases n
  {
    hide Inv, Step, Places, Before, IsCreated;
    CreatedHasNoLine(ss[0]);
    if n > 0 {
      var c, op := ss[n - 1], ops[n - 1];
      assert Follows(c, op, ss[n]);
      RunsAreInOrder(ss, ops, n - 1);
      LineFollows(c, op, x, y);
      LineFollows(c, op, y, x);
      PlacesOne(c, op, x, y);
      if !Places(c, op, x) && !Places(c, op, y) {
        LineIsInOrderOfDesignation(ss, ops, x, y, n - 1);
      } else if !Places(c, op, x) {
        InLineWasPlaced(ss, ops, x, n - 1);
      }
    }
  }

  lemma CreatedHasNoLine(c: Channel)
    requires IsCreated(c)
    ensures c.heirs == []
  {
  }

  lemma PlacesOne(c: Channel, op: Op, x: AccountId, y: AccountId)
    ensures Places(c, op, x) && Places(c, op, y) ==> x == y
  {
    hide FirstNamed, FirstOfAccount, IndexOfName, IndexOfAccount;
    PlacesIff(c, op, x);
    PlacesIff(c, op, y);
  }

  lemma {:induction false} InLineWasPlaced(ss: seq<Channel>, ops: seq<Op>, x: AccountId, n: nat)
    requires IsRun(ss, ops) && n < |ss| && x in ss[n].heirs
    ensures PlacedAt(ss, ops, x, n) >= 0
    decreases n
  {
    hide Inv, Step, Places, Before, IsCreated;
    CreatedHasNoLine(ss[0]);
    if n > 0 {
      assert Follows(ss[n - 1], ops[n - 1], ss[n]);
      RunsAreInOrder(ss, ops, n - 1);
      LineFollows(ss[n - 1], ops[n - 1], x, x);
      if !Places(ss[n - 1], ops[n - 1], x) { InLineWasPlaced(ss, ops, x, n - 1); }
    }
  }

  /** The rule of the channel, its class and its limits never change. */
  lemma StepKeepsRule(c: Channel, op: Op)
    ensures SameRule(c, Step(c, op).0)
  {
    hide RemoveAt, Without, Grants;
    var banned := c.(bans := c.bans + (match op case Ban(_, t) => {t} case BanByName(_, n) => BanTarget(c, n) case _ => {}));
    forall i | 0 <= i < |c.members| ensures SameRule(c, RemoveAt(c, i).0) && SameRule(banned, RemoveAt(banned, i).0) {
      RemovalKeepsRule(c, i);
      RemovalKeepsRule(banned, i);
    }
  }

  ghost predicate SameRule(c: Channel, d: Channel) {
    d.grant == c.grant && d.class_ == c.class_ && d.maxUsers == c.maxUsers && d.persist == c.persist
  }

  lemma RemovalKeepsRule(c: Channel, i: nat)
    requires i < |c.members|
    ensures SameRule(c, RemoveAt(c, i).0)
  {
    hide Removed, WithFlag, Without;
  }

  lemma {:induction false} RunKeepsRule(ss: seq<Channel>, ops: seq<Op>, n: nat)
    requires IsRun(ss, ops) && n < |ss|
    ensures ss[n].grant == ss[0].grant
    decreases n
  {
    hide Step;
    if n > 0 {
      RunKeepsRule(ss, ops, n - 1);
      assert Follows(ss[n - 1], ops[n - 1], ss[n]);
      StepKeepsRule(ss[n - 1], ops[n - 1]);
    }
  }

  /** In a first-arrival channel the role is granted on entry only to somebody who joins while it is empty. */
  lemma GrantMeansEmpty(ss: seq<Channel>, ops: seq<Op>, x: AccountId, i: nat)
    requires IsRun(ss, ops) && i < |ops| && ss[0].grant == FirstArrival && GrantedOnEntry(ss[i], ops[i], x)
    ensures ss[i].members == [] && ss[i].operator.None? && ss[i + 1].operator == Some(x)
  {
    RunKeepsRule(ss, ops, i);
    assert Follows(ss[i], ops[i], ss[i + 1]);
  }

  /** An operator appears only by a grant on entry: nobody holds the role after an operatorless moment otherwise. */
  lemma OperatorlessUntilGranted(c: Channel, op: Op)
    requires Inv(c) && c.operator.None? && Step(c, op).0.operator.Some?
    ensures op.Join? && Grants(c, op.name)
  {
    hide Removed, WithFlag, Without, Lower;
  }

  /** A first-arrival channel that is not empty and has no operator gets none until it empties. */
  lemma {:induction false} OperatorlessUntilEmpty(ss: seq<Channel>, ops: seq<Op>, i: nat, n: nat)
    requires IsRun(ss, ops) && i <= n < |ss| && ss[0].grant == FirstArrival && ss[i].operator.None?
    requires forall j | i <= j < n :: ss[j].members != []
    ensures ss[n].operator.None? && ss[n].heirs == []
    decreases n
  {
    hide Step, Inv;
    RunsAreInOrder(ss, ops, n);
    if i < n {
      OperatorlessUntilEmpty(ss, ops, i, n - 1);
      RunKeepsRule(ss, ops, n - 1);
      RunsAreInOrder(ss, ops, n - 1);
      assert Follows(ss[n - 1], ops[n - 1], ss[n]);
      if ss[n].operator.Some? {
        OperatorlessUntilGranted(ss[n - 1], ops[n - 1]);
      }
    }
    NoHeirsWithoutOperator(ss[n]);
  }

  lemma NoHeirsWithoutOperator(c: Channel)
    requires Inv(c) && c.operator.None?
    ensures c.heirs == []
  {
  }

  /** Where nothing is granted, nobody is ever operator, and so nobody is ever kicked, banned or designated. */
  lemma {:induction false} NoGrantNoOperator(ss: seq<Channel>, ops: seq<Op>, n: nat)
    requires IsRun(ss, ops) && n < |ss| && ss[0].grant == NoGrant
    ensures ss[n].operator.None? && ss[n].bans == {}
    decreases n
  {
    hide Step, Inv;
    if n > 0 {
      NoGrantNoOperator(ss, ops, n - 1);
      RunKeepsRule(ss, ops, n - 1);
      RunsAreInOrder(ss, ops, n - 1);
      assert Follows(ss[n - 1], ops[n - 1], ss[n]);
      if ss[n].operator.Some? {
        OperatorlessUntilGranted(ss[n - 1], ops[n - 1]);
      }
      BansNeedAnOperator(ss[n - 1], ops[n - 1]);
    }
  }

  lemma BansNeedAnOperator(c: Channel, op: Op)
    requires c.operator.None?
    ensures Step(c, op).0.bans == c.bans
  {
    hide Removed, WithFlag, Without, FirstPresent;
  }

  /** A banned account that is out stays out through any run of operations without a lift of its ban. */
  lemma {:induction false} BanHolds(ss: seq<Channel>, ops: seq<Op>, account: AccountId, i: nat, n: nat)
    requires IsRun(ss, ops) && i <= n < |ss|
    requires account in ss[i].bans && !Present(ss[i].members, account)
    requires forall j | i <= j < n :: !(ops[j].Unban? && ops[j].target == account)
    ensures account in ss[n].bans && !Present(ss[n].members, account)
    decreases n
  {
    hide Step, Present;
    if i < n {
      BanHolds(ss, ops, account, i, n - 1);
      assert Follows(ss[n - 1], ops[n - 1], ss[n]);
      BanKeepsOut(ss[n - 1], ops[n - 1], account);
    }
  }

  // ---- The operator's flag ----

  ghost predicate OneSessionEach(ms: seq<Member>) {
    forall i, j | 0 <= i < j < |ms| :: ms[i].account != ms[j].account
  }

  ghost predicate SomebodyFlagged(ms: seq<Member>) {
    exists i :: 0 <= i < |ms| && Flagged(ms[i])
  }

  /** The flag shows the operator: someone carries it exactly when there is an operator. */
  ghost predicate FlagShows(c: Channel) {
    SomebodyFlagged(c.members) <==> c.operator.Some?
  }

  lemma FlaggedSurvives(ms: seq<Member>, i: nat)
    requires i < |ms| && SomebodyFlagged(ms) && !Flagged(ms[i])
    ensures SomebodyFlagged(Removed(ms, i))
  {
    hide Flagged;
    var k :| 0 <= k < |ms| && Flagged(ms[k]);
    RemovedLength(ms, i);
    RemovedAt(ms, i, if k < i then k else k - 1);
  }

  lemma FlaggedGoes(ms: seq<Member>, operator: Option<AccountId>, i: nat)
    requires i < |ms| && FlagInOrder(ms, operator) && Flagged(ms[i])
    ensures !SomebodyFlagged(Removed(ms, i))
  {
    hide Flagged;
    RemovedLength(ms, i);
    forall k | 0 <= k < |ms| - 1 ensures !Flagged(Removed(ms, i)[k]) {
      RemovedAt(ms, i, k);
    }
  }

  lemma HeirIsFlagged(ms: seq<Member>, h: AccountId)
    requires Present(ms, h)
    ensures SomebodyFlagged(WithFlag(ms, h))
  {
    var i := IndexOfAccount(ms, h);
    FlagBits(ms[i].flags);
    assert Flagged(WithFlag(ms, h)[i]);
  }

  lemma NobodyLeft(ms: seq<Member>, i: nat)
    requires i < |ms| && !SomebodyFlagged(ms)
    ensures !SomebodyFlagged(Removed(ms, i))
  {
    hide Flagged;
    RemovedLength(ms, i);
    forall k | 0 <= k < |ms| - 1 ensures !Flagged(Removed(ms, i)[k]) {
      RemovedAt(ms, i, k);
    }
  }

  /** A departure leaves an operator without a flag exactly when it takes the flagged one of several sessions. */
  lemma FlagIsLostIff(c: Channel, i: nat)
    requires Inv(c) && FlagShows(c) && i < |c.members|
    ensures !FlagShows(RemoveAt(c, i).0) <==> Flagged(c.members[i]) && Sessions(c.members, c.members[i].account) >= 2
  {
    hide SomebodyFlagged, Flagged, Without, WithFlag, NamesDiffer, Removed, Sessions;
    var account, ms := c.members[i].account, Removed(c.members, i);
    SessionsAfterRemoval(c.members, i, account);
    SessionsCount(ms, account);
    FlagAfterRemoval(c.members, i, c.operator);
    if !Present(ms, account) && c.operator == Some(account) {
      NobodyFlagged(ms, account);
      match FirstPresent(Without(c.heirs, account), ms) {
        case None => NobodyMeansNone(ms);
        case Some(h) => HeirIsFlagged(ms, h);
      }
    } else if Flagged(c.members[i]) {
      FlaggedGoes(c.members, c.operator, i);
    } else if SomebodyFlagged(c.members) {
      FlaggedSurvives(c.members, i);
    } else {
      NobodyLeft(c.members, i);
    }
  }

  lemma NobodyMeansNone(ms: seq<Member>)
    requires forall j | 0 <= j < |ms| :: !Flagged(ms[j])
    ensures !SomebodyFlagged(ms)
  {
  }

  lemma {:induction false} OneSessionCounts(ms: seq<Member>, account: AccountId)
    requires OneSessionEach(ms)
    ensures Sessions(ms, account) <= 1
    decreases |ms|
  {
    if ms != [] {
      OneSessionCounts(ms[1..], account);
      if ms[0].account == account {
        SessionsCount(ms[1..], account);
      }
    }
  }

  lemma OneSessionAfterRemoval(ms: seq<Member>, i: nat)
    requires OneSessionEach(ms) && i < |ms|
    ensures OneSessionEach(Removed(ms, i))
  {
    hide Removed;
    RemovedLength(ms, i);
    forall j, k | 0 <= j < k < |ms| - 1 ensures Removed(ms, i)[j].account != Removed(ms, i)[k].account {
      RemovedAt(ms, i, j);
      RemovedAt(ms, i, k);
    }
  }

  ghost predicate Shown(c: Channel) {
    OneSessionEach(c.members) && FlagShows(c)
  }

  lemma RemovalKeepsShown(c: Channel, i: nat)
    requires Inv(c) && Shown(c) && i < |c.members|
    ensures Shown(RemoveAt(c, i).0)
  {
    hide FlagShows, Removed, Without, Inv;
    OneSessionCounts(c.members, c.members[i].account);
    FlagIsLostIff(c, i);
    OneSessionAfterRemoval(c.members, i);
  }

  lemma JoinKeepsShown(c: Channel, account: AccountId, name: Name, baseFlags: Flags, statstring: seq<byte>)
    requires Inv(c) && Shown(c) && !Present(c.members, account)
    ensures Shown(Joining(c, account, name, baseFlags, statstring).0)
  {
    hide Grants, Inv, FlagShows;
    FlagPart(c);
    JoinKeepsFlag(c, account, name, baseFlags, statstring);
    var d := Joining(c, account, name, baseFlags, statstring).0;
    assert d != c ==> forall i | 0 <= i < |c.members| :: d.members[i] == c.members[i];
  }

  lemma EntryFlag(m: Member, granted: bool, baseFlags: Flags)
    requires m.flags == if granted then baseFlags | OPERATOR else baseFlags & !OPERATOR
    ensures Flagged(m) <==> granted
  {
    FlagBits(baseFlags);
  }

  lemma StepKeepsShown(c: Channel, op: Op)
    requires Inv(c) && Shown(c)
    requires op.Join? ==> !Present(c.members, op.account)
    ensures Shown(Step(c, op).0)
  {
    hide RemoveAt, Joining, Without, Grants, Shown, Inv, Present;
    var banned := c.(bans := c.bans + (match op case Ban(_, t) => {t} case BanByName(_, n) => BanTarget(c, n) case _ => {}));
    BansDoNotMatter(c, banned);
    forall i | 0 <= i < |c.members| ensures Shown(RemoveAt(c, i).0) && Shown(RemoveAt(banned, i).0) {
      RemovalKeepsShown(c, i);
      RemovalKeepsShown(banned, i);
    }
    if op.Join? {
      JoinKeepsShown(c, op.account, op.name, op.baseFlags, op.statstring);
    } else {
      forall heirs, n, bans ensures Shown(c.(heirs := heirs, seqNo := n)) && Shown(c.(bans := bans)) {
        OnlyRosterMatters(c, c.(heirs := heirs, seqNo := n));
        OnlyRosterMatters(c, c.(bans := bans));
      }
    }
  }

  lemma BansDoNotMatter(c: Channel, d: Channel)
    requires Inv(c) && Shown(c) && d == c.(bans := d.bans)
    ensures Inv(d) && Shown(d)
  {
  }

  lemma OnlyRosterMatters(c: Channel, d: Channel)
    requires Shown(c) && d.members == c.members && d.operator == c.operator
    ensures Shown(d)
  {
  }

  /** While nobody joins with a second session, the flag marks exactly the operator, at every moment of every run. */
  lemma {:induction false} FlagMarksOperator(ss: seq<Channel>, ops: seq<Op>, n: nat, x: AccountId)
    requires IsRun(ss, ops) && n < |ss|
    requires forall i | 0 <= i < n :: ops[i].Join? ==> !Present(ss[i].members, ops[i].account)
    ensures Shown(ss[n])
    ensures ss[n].operator == Some(x) <==> exists i :: 0 <= i < |ss[n].members| && Flagged(ss[n].members[i]) && ss[n].members[i].account == x
    decreases n
  {
    hide Step, Present;
    RunsAreInOrder(ss, ops, n);
    if n > 0 {
      FlagMarksOperator(ss, ops, n - 1, x);
      RunsAreInOrder(ss, ops, n - 1);
      assert Follows(ss[n - 1], ops[n - 1], ss[n]);
      StepKeepsShown(ss[n - 1], ops[n - 1]);
    }
    MarksIff(ss[n], x);
  }

  lemma MarksIff(c: Channel, x: AccountId)
    requires Inv(c) && Shown(c)
    ensures c.operator == Some(x) <==> exists i :: 0 <= i < |c.members| && Flagged(c.members[i]) && c.members[i].account == x
  {
  }

  // ---- The flag over any run ----

  /** The flagged session leaves while the operator has another. */
  ghost predicate LosesFlag(c: Channel, op: Op) {
    op.Leave? &&
    var i := IndexOfName(c.members, op.name);
    i < |c.members| && Flagged(c.members[i]) && Sessions(c.members, c.members[i].account) >= 2
  }

  lemma JoinKeepsFlag(c: Channel, account: AccountId, name: Name, baseFlags: Flags, statstring: seq<byte>)
    requires FlagInOrder(c.members, c.operator) && FlagShows(c)
    ensures FlagShows(Joining(c, account, name, baseFlags, statstring).0)
  {
    hide Flagged, Grants;
    var d := Joining(c, account, name, baseFlags, statstring).0;
    if d != c {
      assert forall i | 0 <= i < |c.members| :: d.members[i] == c.members[i];
      EntryFlag(d.members[|c.members|], Grants(c, name), baseFlags);
      GrantsOnlyWithoutOperator(c, name);
      if SomebodyFlagged(c.members) {
        var k :| 0 <= k < |c.members| && Flagged(c.members[k]);
        assert Flagged(d.members[k]);
      }
    }
  }

  lemma OnlyFlagMatters(c: Channel, d: Channel)
    requires FlagShows(c) && d.members == c.members && d.operator == c.operator
    ensures FlagShows(d)
  {
  }

  /** A session of somebody else than the operator is not flagged, and goes without consequence. */
  lemma OthersGoUnnoticed(c: Channel, i: nat)
    requires Inv(c) && FlagShows(c) && i < |c.members| && c.operator.Some? && c.members[i].account != c.operator.value
    ensures FlagShows(RemoveAt(c, i).0)
  {
    hide FlagShows, RemoveAt;
    FlagIsLostIff(c, i);
  }

  lemma Banning(c: Channel, bans: set<AccountId>)
    requires Inv(c) && FlagShows(c)
    ensures Inv(c.(bans := bans)) && FlagShows(c.(bans := bans))
  {
  }

  /** One step: the flag goes on showing the operator exactly when its session does not leave another behind. */
  lemma StepShowsFlagIff(c: Channel, op: Op)
    requires Inv(c) && FlagShows(c)
    ensures FlagShows(Step(c, op).0) <==> !LosesFlag(c, op)
  {
    hide RemoveAt, Joining, Without, Inv, IndexOfName, IndexOfAccount, Sessions, FlagShows, Flagged, Lower;
    match op {
      case Leave(name) => if IndexOfName(c.members, name) < |c.members| { FlagIsLostIff(c, IndexOfName(c.members, name)); }
      case Join(account, name, baseFlags, statstring) =>
        FlagPart(c);
        JoinKeepsFlag(c, account, name, baseFlags, statstring);
      case Kick(actor, target) =>
        IndexedAccount(c.members, target);
        if c.operator == Some(actor) && actor != target && IndexOfAccount(c.members, target) < |c.members| {
          OthersGoUnnoticed(c, IndexOfAccount(c.members, target));
        }
      case Ban(actor, target) =>
        var b := c.(bans := c.bans + {target});
        Banning(c, b.bans);
        IndexedAccount(c.members, target);
        if c.operator == Some(actor) && actor != target && IndexOfAccount(c.members, target) < |c.members| {
          OthersGoUnnoticed(b, IndexOfAccount(c.members, target));
        }
      case KickByName(actor, name) =>
        if Named(c, actor, name).Ok? { OthersGoUnnoticed(c, Named(c, actor, name).value); }
      case BanByName(actor, name) =>
        if Named(c, actor, name).Ok? {
          var i := Named(c, actor, name).value;
          Banning(c, c.bans + {c.members[i].account});
          OthersGoUnnoticed(c.(bans := c.bans + {c.members[i].account}), i);
        }
      case _ => OnlyFlagMatters(c, Step(c, op).0);
    }
  }

  lemma FlagPart(c: Channel)
    requires Inv(c)
    ensures FlagInOrder(c.members, c.operator)
  {
  }

  /** Main result over any run: the flag shows the operator at every moment exactly when no step loses it. */
  lemma {:induction false} FlagShowsThroughoutIff(ss: seq<Channel>, ops: seq<Op>, n: nat)
    requires IsRun(ss, ops) && n < |ss|
    ensures (forall i | 0 <= i <= n :: FlagShows(ss[i])) <==> forall i | 0 <= i < n :: !LosesFlag(ss[i], ops[i])
    decreases n
  {
    hide Step, Inv, FlagShows, LosesFlag;
    if n == 0 {
      CreatedShows(ss[0]);
    } else {
      FlagShowsThroughoutIff(ss, ops, n - 1);
      RunsAreInOrder(ss, ops, n - 1);
      assert Follows(ss[n - 1], ops[n - 1], ss[n]);
      if FlagShows(ss[n - 1]) { StepShowsFlagIff(ss[n - 1], ops[n - 1]); }
    }
  }

  lemma CreatedShows(c: Channel)
    requires IsCreated(c)
    ensures FlagShows(c)
  {
  }

  // ---- Bans over any run ----

  ghost predicate NoneBannedPresent(c: Channel) {
    forall a | a in c.bans :: !Present(c.members, a)
  }

  /** The account a ban takes effect on, if it does. */
  function BannedBy(c: Channel, op: Op): Option<AccountId> {
    match op
    case Ban(actor, target) => if Objection(c, actor, target).None? then Some(target) else None
    case BanByName(actor, name) =>
      if Named(c, actor, name).Ok? then Some(c.members[Named(c, actor, name).value].account) else None
    case _ => None
  }

  /** A ban that meets more sessions than the one it takes. */
  ghost predicate LeavesBanned(c: Channel, op: Op) {
    BannedBy(c, op).Some? && Sessions(c.members, BannedBy(c, op).value) >= 2
  }

  lemma BansAfter(c: Channel, op: Op, a: AccountId)
    requires a in Step(c, op).0.bans
    ensures BannedBy(c, op) == Some(a) || (a in c.bans && !(op.Unban? && op.target == a && Step(c, op).0 != c))
  {
    hide Removed, WithFlag, Without, FirstPresent, IndexOfName, IndexOfAccount, Grants, Lower;
  }

  /** An attempt to lift a ban that is refused changes nothing. */
  lemma UnbanLeavesMembers(c: Channel, op: Op)
    requires op.Unban?
    ensures Step(c, op).0.members == c.members && Step(c, op).0.bans <= c.bans
  {
  }

  /** One step: no banned account is present afterwards exactly unless a ban met a second session. */
  lemma StepKeepsBannedOutIff(c: Channel, op: Op)
    requires Inv(c) && NoneBannedPresent(c)
    ensures NoneBannedPresent(Step(c, op).0) <==> !LeavesBanned(c, op)
  {
    hide Step, Inv, Sessions, Present, IndexOfName, Lower;
    var d := Step(c, op).0;
    if BannedBy(c, op).Some? { BanTakesOneIff(c, op); }
    if op.Unban? {
      UnbanLeavesMembers(c, op);
    } else {
      forall a | a in d.bans && BannedBy(c, op) != Some(a) ensures !Present(d.members, a) {
        BansAfter(c, op, a);
        BanKeepsOut(c, op, a);
      }
    }
  }

  lemma BanTakesOneIff(c: Channel, op: Op)
    requires Inv(c) && BannedBy(c, op).Some?
    ensures
      var (a, d) := (BannedBy(c, op).value, Step(c, op).0);
      a in d.bans && (!Present(d.members, a) <==> Sessions(c.members, a) <= 1)
  {
    hide Inv, Sessions, Present, IndexOfName, Lower, RemoveAt, Step;
    match op {
      case Ban(actor, target) => BanRemovesAllIff(c, actor, target);
      case BanByName(actor, name) => BanByNameRemovesAllIff(c, actor, name);
      case _ =>
    }
  }

  /** Main result over any run: no banned account is present at any moment exactly when no ban met a second session. */
  lemma {:induction false} BannedStayOutThroughoutIff(ss: seq<Channel>, ops: seq<Op>, n: nat)
    requires IsRun(ss, ops) && n < |ss|
    ensures (forall i | 0 <= i <= n :: NoneBannedPresent(ss[i])) <==> forall i | 0 <= i < n :: !LeavesBanned(ss[i], ops[i])
    decreases n
  {
    hide Step, Inv, NoneBannedPresent, LeavesBanned;
    if n == 0 {
      CreatedBansNobody(ss[0]);
    } else {
      BannedStayOutThroughoutIff(ss, ops, n - 1);
      RunsAreInOrder(ss, ops, n - 1);
      assert Follows(ss[n - 1], ops[n - 1], ss[n]);
      if NoneBannedPresent(ss[n - 1]) { StepKeepsBannedOutIff(ss[n - 1], ops[n - 1]); }
    }
  }

  lemma CreatedBansNobody(c: Channel)
    requires IsCreated(c)
    ensures NoneBannedPresent(c)
  {
  }

  // ---- Who can make whom go ----

  lemma RemovalOfAnother(c: Channel, i: nat)
    requires i < |c.members| && c.operator.Some? && c.members[i].account != c.operator.value
    ensures RemoveAt(c, i).0.operator == c.operator
  {
    hide Removed, WithFlag, Without;
  }

  lemma RemovalOfOperator(c: Channel, i: nat)
    requires Inv(c) && i < |c.members| && c.operator == Some(c.members[i].account)
    ensures RemoveAt(c, i).0.operator != c.operator <==> Sessions(c.members, c.members[i].account) == 1
  {
    hide FlagInOrder, NamesDiffer, Removed, WithFlag, Sessions;
    var account := c.members[i].account;
    SessionsAfterRemoval(c.members, i, account);
    SessionsCount(Removed(c.members, i), account);
  }

  /** The role of an operator ends exactly when the operator's only session leaves of its own accord. */
  lemma RoleEndsIff(c: Channel, op: Op)
    requires Inv(c) && c.operator.Some?
    ensures Step(c, op).0.operator != c.operator <==>
      && op.Leave? && IndexOfName(c.members, op.name) < |c.members|
      && c.operator == Some(c.members[IndexOfName(c.members, op.name)].account)
      && Sessions(c.members, c.operator.value) == 1
  {
    hide RemoveAt, Inv, Sessions, Without, IndexOfName, IndexOfAccount, Grants, Lower;
    var banned := c.(bans := c.bans + (match op case Ban(_, t) => {t} case BanByName(_, n) => BanTarget(c, n) case _ => {}));
    forall i | 0 <= i < |c.members| && c.members[i].account != c.operator.value
      ensures RemoveAt(c, i).0.operator == c.operator && RemoveAt(banned, i).0.operator == c.operator
    {
      RemovalOfAnother(c, i);
      RemovalOfAnother(banned, i);
    }
    match op {
      case Leave(name) =>
        var i := IndexOfName(c.members, name);
        if i < |c.members| && c.operator == Some(c.members[i].account) { RemovalOfOperator(c, i); }
      case Join(_, name, _, _) => GrantsOnlyWithoutOperator(c, name);
      case Kick(_, target) => IndexedAccount(c.members, target);
      case Ban(_, target) => IndexedAccount(c.members, target);
      case _ =>
    }
  }

  lemma IndexedAccount(ms: seq<Member>, account: AccountId)
    ensures IndexOfAccount(ms, account) < |ms| ==> ms[IndexOfAccount(ms, account)].account == account
  {
  }

  // ---- Runs that show what does not hold ----

  lemma {:induction false} Extended(ss: seq<Channel>, ops: seq<Op>, op: Op) returns (tt: seq<Channel>, more: seq<Op>)
    requires IsRun(ss, ops)
    ensures IsRun(tt, more) && |tt| == |more| + 1 && tt[|more|] == Step(ss[|ops|], op).0
  {
    hide Step, IsCreated;
    tt, more := ss + [Step(ss[|ops|], op).0], ops + [op];
    forall i | 0 <= i < |more| ensures Follows(tt[i], more[i], tt[i + 1]) {
      if i < |ops| { assert Follows(ss[i], ops[i], ss[i + 1]); }
    }
  }

  /** "a", "b" and "c" */
  const NAME_A: Name := [97]
  const NAME_B: Name := [98]
  const NAME_C: Name := [99]

  lemma NamesApart()
    ensures Lower(NAME_A) != Lower(NAME_B) && Lower(NAME_A) != Lower(NAME_C) && Lower(NAME_B) != Lower(NAME_C)
  {
    assert Lower(NAME_A)[0] == 97 && Lower(NAME_B)[0] == 98 && Lower(NAME_C)[0] == 99;
  }

  const PLACE := Created(Local, 0, FirstArrival, false)

  /** The channel with these members, the first of whom is operator. */
  function Held(members: seq<Member>): Channel
    requires members != []
  {
    PLACE.(members := members, operator := Some(members[0].account), seqNo := |members|)
  }

  lemma FirstJoins(account: AccountId) returns (ss: seq<Channel>, ops: seq<Op>)
    ensures IsRun(ss, ops) && |ss| == |ops| + 1 && ss[|ops|] == Held([Member(account, NAME_A, OPERATOR, [])])
  {
    hide Lower, BaseName;
    assert IsCreated(PLACE);
    assert IsRun([PLACE], []);
    assert (0 as Flags) | OPERATOR == OPERATOR;
    ss, ops := Extended([PLACE], [], Join(account, NAME_A, 0, []));
  }

  lemma NextJoins(ss: seq<Channel>, ops: seq<Op>, members: seq<Member>, account: AccountId, name: Name)
    returns (tt: seq<Channel>, more: seq<Op>)
    requires members != [] && IsRun(ss, ops) && |ss| == |ops| + 1 && ss[|ops|] == Held(members)
    requires forall i | 0 <= i < |members| :: Lower(members[i].name) != Lower(name)
    ensures IsRun(tt, more) && |tt| == |more| + 1 && tt[|more|] == Held(members + [Member(account, name, 0, [])])
  {
    hide Lower, BaseName, IsRun;
    assert (0 as Flags) & !OPERATOR == 0;
    tt, more := Extended(ss, ops, Join(account, name, 0, []));
  }

  lemma {:induction false} SessionsOfTwo(a: Member, b: Member)
    requires a.account == b.account
    ensures Sessions([a, b], a.account) == 2
  {
    assert [a, b][1..] == [b] && [b][1..] == [];
    assert Sessions([b], a.account) == 1;
  }

  /** Two sessions of account 2, and a ban by operator 1 that leaves the second in the channel. */
  lemma BannedAccountCanStay()
    ensures exists ss: seq<Channel>, ops :: IsRun(ss, ops) && 2 in ss[|ops|].bans && Present(ss[|ops|].members, 2)
  {
    hide Step, IsRun, Lower, Present, Inv, Sessions;
    NamesApart();
    var ss, ops := FirstJoins(1);
    var a, b, c := Member(1, NAME_A, OPERATOR, []), Member(2, NAME_B, 0, []), Member(2, NAME_C, 0, []);
    ss, ops := NextJoins(ss, ops, [a], 2, NAME_B);
    assert [a] + [b] == [a, b];
    ss, ops := NextJoins(ss, ops, [a, b], 2, NAME_C);
    assert [a, b] + [c] == [a, b, c];
    RunInOrder(ss, ops);
    SessionsAfterOther(a, [b, c], 2);
    SessionsOfTwo(b, c);
    BanRemovesAllIff(ss[|ops|], 1, 2);
    ss, ops := Extended(ss, ops, Ban(1, 2));
  }

  lemma RunInOrder(ss: seq<Channel>, ops: seq<Op>)
    requires IsRun(ss, ops)
    ensures Inv(ss[|ops|])
  {
    RunsAreInOrder(ss, ops, |ops|);
  }

  lemma SessionsAfterOther(m: Member, ms: seq<Member>, account: AccountId)
    requires m.account != account
    ensures Sessions([m] + ms, account) == Sessions(ms, account)
    ensures |ms| == 2 ==> [m] + ms == [m, ms[0], ms[1]]
  {
    assert ([m] + ms)[1..] == ms;
  }

  /** Account 1 enters twice and the flagged session leaves: there is an operator, and nobody carries the flag. */
  lemma FlagCanBeLost()
    ensures exists ss: seq<Channel>, ops :: IsRun(ss, ops) && ss[|ops|].operator == Some(1) && !SomebodyFlagged(ss[|ops|].members)
  {
    hide IsRun, Lower, Inv, Sessions, RemoveAt, IndexOfName, SomebodyFlagged;
    NamesApart();
    var ss, ops := FirstJoins(1);
    var a, b := Member(1, NAME_A, OPERATOR, []), Member(1, NAME_B, 0, []);
    ss, ops := NextJoins(ss, ops, [a], 1, NAME_B);
    assert [a] + [b] == [a, b];
    var c := ss[|ops|];
    RunInOrder(ss, ops);
    assert SomebodyFlagged(c.members) by { FirstIsFlagged(a, b); }
    SessionsOfTwo(a, b);
    FlagIsLostIff(c, 0);
    RemovalOfOperator(c, 0);
    assert IndexOfName(c.members, NAME_A) == 0 by { FirstByName(c.members); }
    ss, ops := Extended(ss, ops, Leave(NAME_A));
  }

  lemma FirstIsFlagged(a: Member, b: Member)
    requires a.flags == OPERATOR
    ensures Flagged(a) && SomebodyFlagged([a, b])
  {
    FlagBits(0);
    assert (0 as Flags) | OPERATOR == OPERATOR;
    assert [a, b][0] == a;
  }

  lemma FirstByName(ms: seq<Member>)
    requires ms != []
    ensures IndexOfName(ms, ms[0].name) == 0
  {
  }
}
