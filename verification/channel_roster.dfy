/**
 What every operation of a channel does, told from outside: whom it takes out or lets in, who leads and who is in
 line afterwards, who is banned, and what the caller is told.
 */
module ChannelRosters {
  import opened Bytes
  import opened Text
  import opened Channels

  // ---- Who is meant ----

  ghost predicate FirstNamed(ms: seq<Member>, name: Name, i: nat) {
    i < |ms| && Lower(ms[i].name) == Lower(name) && forall j | 0 <= j < i :: Lower(ms[j].name) != Lower(name)
  }

  ghost predicate FirstOfAccount(ms: seq<Member>, account: AccountId, i: nat) {
    i < |ms| && ms[i].account == account && forall j | 0 <= j < i :: ms[j].account != account
  }

  ghost predicate NobodyNamed(ms: seq<Member>, name: Name) {
    forall i | 0 <= i < |ms| :: Lower(ms[i].name) != Lower(name)
  }

  /** The operator acts on somebody else. */
  predicate MayActOn(c: Channel, actor: AccountId, target: AccountId) {
    c.operator == Some(actor) && actor != target
  }

  /** The session the operation takes out. */
  ghost predicate Takes(c: Channel, op: Op, i: nat)
    requires i < |c.members|
  {
    match op
    case Leave(name) => FirstNamed(c.members, name, i)
    case Kick(actor, target) => MayActOn(c, actor, target) && FirstOfAccount(c.members, target, i)
    case Ban(actor, target) => MayActOn(c, actor, target) && FirstOfAccount(c.members, target, i)
    case KickByName(actor, name) => FirstNamed(c.members, name, i) && MayActOn(c, actor, c.members[i].account)
    case BanByName(actor, name) => FirstNamed(c.members, name, i) && MayActOn(c, actor, c.members[i].account)
    case _ => false
  }

  ghost predicate TakesNobody(c: Channel, op: Op) {
    forall i | 0 <= i < |c.members| :: !Takes(c, op, i)
  }

  ghost predicate Admits(c: Channel, account: AccountId, name: Name) {
    account !in c.bans && NobodyNamed(c.members, name) && (c.maxUsers == 0 || |c.members| < c.maxUsers)
  }

  /** Everything before position `k` is the name proper: all of it, or what stands before a `#` and digits. */
  ghost predicate IsBase(name: Name, k: nat) {
    || NumberedAt(name, k)
    || (k == |name| && forall j: nat :: !NumberedAt(name, j))
  }

  ghost predicate NumberedAt(name: Name, k: nat) {
    k + 1 < |name| && name[k] == HASH && forall j | k < j < |name| :: IsDigit(name[j])
  }

  /** The channel's rule makes an operator of whoever enters under this name now. */
  ghost predicate Promises(c: Channel, name: Name) {
    c.operator.None? &&
    match c.grant
    case NoGrant => false
    case FirstArrival => c.members == []
    case NameMatch(opName) => exists k: nat :: k <= |name| && IsBase(name, k) && Lower(name[..k]) == Lower(opName)
  }

  /** Afterwards there is an operator who was not before. */
  predicate Promoted(c: Channel, d: Channel) {
    d.operator.Some? && d.operator != c.operator
  }

  // ---- The name rule ----

  lemma BaseIff(name: Name, k: nat)
    requires k <= |name|
    ensures IsBase(name, k) <==> BaseName(name) == name[..k] && (k == |name| || NumberedAt(name, k))
  {
    var i := LastIndexOf(name, HASH);
    forall j: nat | NumberedAt(name, j) ensures i == j {
    }
    if 0 <= i && NumberedAt(name, i) {
      assert BaseName(name) == name[..i];
      assert |name[..i]| == i;
    } else {
      assert BaseName(name) == name;
      assert name[..|name|] == name;
    }
  }

  lemma BaseExists(name: Name) returns (k: nat)
    ensures k <= |name| && IsBase(name, k) && BaseName(name) == name[..k]
  {
    var i := LastIndexOf(name, HASH);
    forall j: nat | NumberedAt(name, j) ensures i == j {
    }
    k := if 0 <= i && NumberedAt(name, i) then i else |name|;
    assert name[..|name|] == name;
  }

  lemma GrantsIff(c: Channel, name: Name)
    ensures Grants(c, name) <==> Promises(c, name)
  {
    hide Lower, BaseName, IsBase;
    if c.grant.NameMatch? {
      var k := BaseExists(name);
      forall j: nat | j <= |name| && IsBase(name, j) ensures BaseName(name) == name[..j] {
        BaseIff(name, j);
      }
    }
  }

  // ---- The roster ----

  lemma NamedIff(ms: seq<Member>, name: Name, i: nat)
    ensures FirstNamed(ms, name, i) <==> i < |ms| && IndexOfName(ms, name) == i
    ensures NobodyNamed(ms, name) <==> IndexOfName(ms, name) == |ms|
  {
    hide Lower;
  }

  lemma OfAccountIff(ms: seq<Member>, account: AccountId, i: nat)
    ensures FirstOfAccount(ms, account, i) <==> i < |ms| && IndexOfAccount(ms, account) == i
    ensures !Present(ms, account) <==> IndexOfAccount(ms, account) == |ms|
  {
  }

  /** `d` is `c` without its session `i`: all others stay in their order, and only a new operator's first session is marked. */
  ghost predicate WithoutSession(c: Channel, d: Channel, i: nat)
    requires i < |c.members|
  {
    && |d.members| == |c.members| - 1
    && forall j | 0 <= j < |d.members| :: d.members[j] == Remarked(c, d, j, c.members[if j < i then j else j + 1])
  }

  ghost function Remarked(c: Channel, d: Channel, j: nat, m: Member): Member {
    if Promoted(c, d) && FirstOfAccount(d.members, d.operator.value, j) then m.(flags := m.flags | OPERATOR) else m
  }

  lemma RemovalTakesOne(c: Channel, i: nat)
    requires i < |c.members|
    ensures WithoutSession(c, RemoveAt(c, i).0, i)
  {
    hide Removed, FirstPresent, Without, WithFlag, IndexOfAccount, FirstOfAccount;
    var account, ms, d := c.members[i].account, Removed(c.members, i), RemoveAt(c, i).0;
    RemovedLength(c.members, i);
    forall j | 0 <= j < |ms| ensures ms[j] == c.members[if j < i then j else j + 1] { RemovedAt(c.members, i, j); }
    var heirs := Without(c.heirs, account);
    if !Present(ms, account) && c.operator == Some(account) && FirstPresent(heirs, ms).Some? {
      var h := FirstPresent(heirs, ms).value;
      MarkedOne(ms, h);
      forall j | 0 <= j < |ms| ensures FirstOfAccount(WithFlag(ms, h), h, j) <==> IndexOfAccount(ms, h) == j {
        OfAccountIff(WithFlag(ms, h), h, j);
        OfAccountIff(ms, h, j);
        FirstAfterFlag(ms, h, j);
      }
    }
  }

  lemma MarkedOne(ms: seq<Member>, h: AccountId)
    requires Present(ms, h)
    ensures |WithFlag(ms, h)| == |ms|
    ensures forall j | 0 <= j < |ms| ::
      WithFlag(ms, h)[j] == (if j == IndexOfAccount(ms, h) then ms[j].(flags := ms[j].flags | OPERATOR) else ms[j])
  {
  }

  lemma FirstAfterFlag(ms: seq<Member>, h: AccountId, j: nat)
    requires Present(ms, h) && j < |ms|
    ensures FirstOfAccount(WithFlag(ms, h), h, j) <==> FirstOfAccount(ms, h, j)
  {
  }

  lemma BansDoNotCount(c: Channel, b: Channel, d: Channel, i: nat)
    requires i < |c.members| && b == c.(bans := b.bans) && WithoutSession(b, d, i)
    ensures WithoutSession(c, d, i)
  {
  }

  /** Where the lookup of the operation ends, when it is allowed to go on. */
  function Target(c: Channel, op: Op): nat {
    match op
    case Leave(name) => IndexOfName(c.members, name)
    case Kick(actor, target) => if MayActOn(c, actor, target) then IndexOfAccount(c.members, target) else |c.members|
    case Ban(actor, target) => if MayActOn(c, actor, target) then IndexOfAccount(c.members, target) else |c.members|
    case KickByName(actor, name) => if Named(c, actor, name).Ok? then Named(c, actor, name).value else |c.members|
    case BanByName(actor, name) => if Named(c, actor, name).Ok? then Named(c, actor, name).value else |c.members|
    case _ => |c.members|
  }

  lemma TakesIff(c: Channel, op: Op, i: nat)
    requires i < |c.members|
    ensures Takes(c, op, i) <==> Target(c, op) == i
  {
    hide FirstNamed, FirstOfAccount, IndexOfName, IndexOfAccount;
    match op {
      case Leave(name) => NamedIff(c.members, name, i);
      case KickByName(_, name) => NamedIff(c.members, name, i);
      case BanByName(_, name) => NamedIff(c.members, name, i);
      case Kick(_, target) => OfAccountIff(c.members, target, i);
      case Ban(_, target) => OfAccountIff(c.members, target, i);
      case _ =>
    }
  }

  lemma TargetIsInside(c: Channel, op: Op)
    ensures Target(c, op) <= |c.members|
  {
  }

  /** The step in terms of its target: a removal, once the bans are as they will be, or no change to the members. */
  lemma StepAtTarget(c: Channel, op: Op)
    ensures
      var (i, d) := (Target(c, op), Step(c, op).0);
      if i < |c.members| then d == RemoveAt(c.(bans := d.bans), i).0
      else op.Join? || (d.members == c.members && d.operator == c.operator)
  {
    hide RemoveAt, IndexOfName, IndexOfAccount, Grants, Without, Lower;
    forall b: Channel, i: nat | b == c.(bans := b.bans) && i < |c.members| ensures RemoveAt(b, i).0.bans == b.bans {
      RemovalKeepsBans(b, i);
    }
  }

  lemma RemovalKeepsBans(c: Channel, i: nat)
    requires i < |c.members|
    ensures RemoveAt(c, i).0.bans == c.bans
  {
    hide Removed, WithFlag, Without;
  }

  /** The flags a session enters with: its own, with the operator's put in or taken out. */
  function EntryFlags(granted: bool, baseFlags: Flags): Flags {
    if granted then baseFlags | OPERATOR else baseFlags & !OPERATOR
  }

  ghost function Entrant(c: Channel, op: Op): Member
    requires op.Join?
  {
    Member(op.account, op.name, EntryFlags(Promises(c, op.name), op.baseFlags), op.statstring)
  }

  /** Main result: every operation takes out just the session it means, lets in just the one it admits, and leaves all others. */
  lemma RosterFollows(c: Channel, op: Op)
    ensures
      var d := Step(c, op).0;
      && (forall i | 0 <= i < |c.members| && Takes(c, op, i) :: WithoutSession(c, d, i))
      && (TakesNobody(c, op) && !op.Join? ==> d.members == c.members)
      && (op.Join? ==>
            if Admits(c, op.account, op.name) then d.members == c.members + [Entrant(c, op)] else d.members == c.members)
  {
    hide RemoveAt, WithoutSession, Takes, Target, Step;
    var d := Step(c, op).0;
    StepAtTarget(c, op);
    TargetIsInside(c, op);
    forall i | 0 <= i < |c.members| ensures Takes(c, op, i) <==> Target(c, op) == i { TakesIff(c, op, i); }
    forall i | 0 <= i < |c.members| && Takes(c, op, i) ensures WithoutSession(c, d, i) {
      var b := c.(bans := d.bans);
      RemovalTakesOne(b, i);
      BansDoNotCount(c, b, d, i);
    }
    if Target(c, op) < |c.members| { assert Takes(c, op, Target(c, op)); }
    if op.Join? { JoinFollows(c, op); }
  }

  lemma JoinFollows(c: Channel, op: Op)
    requires op.Join?
    ensures
      var d := Step(c, op).0;
      if Admits(c, op.account, op.name) then d.members == c.members + [Entrant(c, op)] else d.members == c.members
  {
    hide IndexOfName, Grants, Promises, NobodyNamed, Lower;
    NamedIff(c.members, op.name, 0);
    GrantsIff(c, op.name);
    assert Step(c, op) == Joining(c, op.account, op.name, op.baseFlags, op.statstring);
  }

  /** A new channel is empty and bans nobody, and whoever enters first is its operator unless the channel is an official one. */
  lemma FirstToEnter(class_: ChannelClass, maxUsers: nat, op: Op)
    requires op.Join?
    ensures
      var c := New(class_, maxUsers);
      && c.members == [] && c.operator.None? && c.heirs == [] && c.bans == {} && c.seqNo == 0 && !c.persist
      && Step(c, op).1 == Joined(class_ != Official, EntryFlags(class_ != Official, op.baseFlags))
      && Step(c, op).0.operator == if class_ == Official then None else Some(op.account)
  {
    hide Lower;
    assert Step(New(class_, maxUsers), op) == Joining(New(class_, maxUsers), op.account, op.name, op.baseFlags, op.statstring);
  }

  /** Whoever leaves is gone: under names that differ nobody of that name is left. */
  lemma LeaverIsGone(c: Channel, name: Name)
    requires NamesDiffer(c.members)
    ensures NobodyNamed(Step(c, Leave(name)).0.members, name)
  {
    hide Lower, Step, IndexOfName;
    var d := Step(c, Leave(name)).0;
    RosterFollows(c, Leave(name));
    NamedIff(c.members, name, IndexOfName(c.members, name));
    if IndexOfName(c.members, name) < |c.members| {
      assert Takes(c, Leave(name), IndexOfName(c.members, name));
    }
  }

  // ---- Sessions ----

  /** The operation takes out a session of the account. */
  ghost predicate SentAway(c: Channel, op: Op, x: AccountId) {
    exists i :: 0 <= i < |c.members| && Takes(c, op, i) && c.members[i].account == x
  }

  ghost predicate LetIn(c: Channel, op: Op, x: AccountId) {
    op.Join? && op.account == x && Admits(c, x, op.name)
  }

  lemma {:induction false} SameAccounts(ms: seq<Member>, ns: seq<Member>, x: AccountId)
    requires |ms| == |ns| && forall i | 0 <= i < |ms| :: ms[i].account == ns[i].account
    ensures Sessions(ms, x) == Sessions(ns, x)
    decreases |ms|
  {
    if ms != [] { SameAccounts(ms[1..], ns[1..], x); }
  }

  lemma {:induction false} SessionsAfterJoin(ms: seq<Member>, m: Member, x: AccountId)
    ensures Sessions(ms + [m], x) == Sessions(ms, x) + if m.account == x then 1 else 0
    decreases |ms|
  {
    if ms == [] {
      assert ms + [m] == [m] && [m][1..] == [];
    } else {
      SessionsAfterJoin(ms[1..], m, x);
      assert (ms + [m])[1..] == ms[1..] + [m];
    }
  }

  lemma SessionsWithout(c: Channel, d: Channel, i: nat, x: AccountId)
    requires i < |c.members| && WithoutSession(c, d, i)
    ensures Sessions(d.members, x) == Sessions(c.members, x) - if c.members[i].account == x then 1 else 0
  {
    hide Sessions, Removed, FirstOfAccount;
    RemovedLength(c.members, i);
    forall j | 0 <= j < |d.members| ensures d.members[j].account == Removed(c.members, i)[j].account {
      RemovedAt(c.members, i, j);
    }
    SameAccounts(d.members, Removed(c.members, i), x);
    SessionsAfterRemoval(c.members, i, x);
  }

  lemma TakesOne(c: Channel, op: Op, i: nat, j: nat)
    requires i < |c.members| && j < |c.members| && Takes(c, op, i) && Takes(c, op, j)
    ensures i == j
  {
    TakesIff(c, op, i);
    TakesIff(c, op, j);
  }

  /**
   Main result: an account has one session fewer exactly when it is the one that leaves, or that an allowed kick or
   ban takes, and one more exactly when it is let in; otherwise it has as many as before.
   */
  lemma SessionsFollow(c: Channel, op: Op, x: AccountId)
    ensures Sessions(Step(c, op).0.members, x) ==
      Sessions(c.members, x) - (if SentAway(c, op, x) then 1 else 0) + if LetIn(c, op, x) then 1 else 0
  {
    hide Step, Takes, WithoutSession, Sessions, Admits, Promises;
    var d := Step(c, op).0;
    RosterFollows(c, op);
    forall i, j | 0 <= i < |c.members| && 0 <= j < |c.members| && Takes(c, op, i) && Takes(c, op, j) ensures i == j {
      TakesOne(c, op, i, j);
    }
    assert op.Join? ==> TakesNobody(c, op) by { JoinTakesNobody(c, op); }
    if op.Join? {
      if Admits(c, op.account, op.name) { SessionsAfterJoin(c.members, Entrant(c, op), x); }
    } else if i :| 0 <= i < |c.members| && Takes(c, op, i) {
      SessionsWithout(c, d, i, x);
    }
  }

  lemma JoinTakesNobody(c: Channel, op: Op)
    ensures op.Join? ==> TakesNobody(c, op)
  {
  }

  /** So nobody's last session goes but by leaving or at the hands of the operator of the time, who cannot be sent away. */
  lemma OnlySentAwayGo(c: Channel, op: Op, x: AccountId)
    ensures Present(c.members, x) && !Present(Step(c, op).0.members, x) <==> SentAway(c, op, x) && Sessions(c.members, x) == 1
    ensures SentAway(c, op, x) && !op.Leave? ==> c.operator.Some? && c.operator.value != x
  {
    hide Step, Sessions, Admits, Present, FirstNamed;
    SessionsFollow(c, op, x);
    SessionsCount(c.members, x);
    SessionsCount(Step(c, op).0.members, x);
    assert LetIn(c, op, x) ==> !SentAway(c, op, x);
  }

  // ---- Operators and the line behind them ----

  /** Main result: a new operator comes by the channel's rule, or as the first in line when the last session of the old one leaves. */
  lemma OperatorFollows(c: Channel, op: Op)
    requires Inv(c)
    ensures Step(c, op).0.operator ==
      if op.Join? && Admits(c, op.account, op.name) && Promises(c, op.name) then Some(op.account)
      else if c.operator.Some? && SentAway(c, op, c.operator.value) && Sessions(c.members, c.operator.value) == 1
      then (if c.heirs == [] then None else Some(c.heirs[0]))
      else c.operator
  {
    hide Step, Inv, Sessions, Takes, Target, RemoveAt, Admits, Promises;
    var (i, d) := (Target(c, op), Step(c, op).0);
    StepAtTarget(c, op);
    forall j | 0 <= j < |c.members| ensures Takes(c, op, j) <==> i == j { TakesIff(c, op, j); }
    if i < |c.members| {
      assert op.Join? ==> !Takes(c, op, i) by { JoinTakesNobody(c, op); }
      assert SentAway(c, op, c.members[i].account);
      var b := c.(bans := d.bans);
      OnlyOrderMatters(c, b);
      RemovalAndRole(b, i);
    } else if op.Join? {
      OperatorAfterJoin(c, op);
    }
  }

  lemma RemovalAndRole(c: Channel, i: nat)
    requires Inv(c) && i < |c.members|
    ensures RemoveAt(c, i).0.operator ==
      if c.operator == Some(c.members[i].account) && Sessions(c.members, c.members[i].account) == 1
      then (if c.heirs == [] then None else Some(c.heirs[0]))
      else c.operator
  {
    hide Inv, Sessions, Removed, WithFlag, Without;
    var account := c.members[i].account;
    SessionsAfterRemoval(c.members, i, account);
    SessionsCount(Removed(c.members, i), account);
    if c.operator == Some(account) { SuccessionIsInOrder(c, i); }
  }

  lemma OperatorAfterJoin(c: Channel, op: Op)
    requires op.Join?
    ensures Step(c, op).0.operator ==
      if Admits(c, op.account, op.name) && Promises(c, op.name) then Some(op.account) else c.operator
  {
    hide IndexOfName, Grants, Promises, NobodyNamed, Lower;
    NamedIff(c.members, op.name, 0);
    GrantsIff(c, op.name);
    assert Step(c, op) == Joining(c, op.account, op.name, op.baseFlags, op.statstring);
  }

  /** The account an allowed designation puts at the end of the line; by name, only if it is not in line yet. */
  ghost predicate Places(c: Channel, op: Op, x: AccountId) {
    match op
    case Designate(actor, heir) => heir == x && MayActOn(c, actor, x) && exists i: nat :: FirstOfAccount(c.members, x, i)
    case DesignateByName(actor, name) =>
      MayActOn(c, actor, x) && x !in c.heirs && exists i: nat :: FirstNamed(c.members, name, i) && c.members[i].account == x
    case _ => false
  }

  /** `x` stands before `y`. */
  ghost predicate Before(line: seq<AccountId>, x: AccountId, y: AccountId) {
    exists i, j :: 0 <= i < j < |line| && line[i] == x && line[j] == y
  }

  lemma {:induction false} WithoutKeepsOrder(line: seq<AccountId>, a: AccountId, x: AccountId, y: AccountId)
    requires x != a && y != a
    ensures Before(Without(line, a), x, y) <==> Before(line, x, y)
    decreases |line|
  {
    if line != [] {
      WithoutKeepsOrder(line[1..], a, x, y);
      BeforeCons(line[0], line[1..], x, y);
      assert line == [line[0]] + line[1..];
      if line[0] != a { BeforeCons(line[0], Without(line[1..], a), x, y); }
    }
  }

  lemma BeforeCons(first: AccountId, rest: seq<AccountId>, x: AccountId, y: AccountId)
    ensures Before([first] + rest, x, y) <==> Before(rest, x, y) || (x == first && y in rest)
  {
    var line := [first] + rest;
    if i, j :| 0 <= i < j < |line| && line[i] == x && line[j] == y {
      assert rest[j - 1] == y;
      if i > 0 { assert rest[i - 1] == x; }
    }
    if i, j :| 0 <= i < j < |rest| && rest[i] == x && rest[j] == y {
      assert line[i + 1] == x && line[j + 1] == y;
    }
    if x == first && y in rest {
      var j :| 0 <= j < |rest| && rest[j] == y;
      assert line[0] == x && line[j + 1] == y;
    }
  }

  lemma BeforeAppend(line: seq<AccountId>, last: AccountId, x: AccountId, y: AccountId)
    requires x in line && last !in line
    ensures Before(line + [last], x, y) <==> Before(line, x, y) || y == last
    ensures !Before(line + [last], last, y)
  {
    var more := line + [last];
    if i, j :| 0 <= i < j < |more| && more[i] == x && more[j] == y {
      if j < |line| { assert line[i] == x && line[j] == y; }
    }
    if i, j :| 0 <= i < j < |line| && line[i] == x && line[j] == y {
      assert more[i] == x && more[j] == y;
    }
    if y == last {
      var i :| 0 <= i < |line| && line[i] == x;
      assert more[i] == x && more[|line|] == last;
    }
  }

  function Placed(c: Channel, op: Op): Option<AccountId> {
    match op
    case Designate(actor, heir) =>
      if MayActOn(c, actor, heir) && IndexOfAccount(c.members, heir) < |c.members| then Some(heir) else None
    case DesignateByName(actor, name) =>
      if Named(c, actor, name).Ok? && c.members[Named(c, actor, name).value].account !in c.heirs
      then Some(c.members[Named(c, actor, name).value].account) else None
    case _ => None
  }

  lemma PlacesIff(c: Channel, op: Op, x: AccountId)
    ensures Places(c, op, x) <==> Placed(c, op) == Some(x)
  {
    hide FirstNamed, FirstOfAccount, IndexOfName, IndexOfAccount, Lower;
    match op {
      case Designate(_, heir) =>
        forall i: nat ensures FirstOfAccount(c.members, heir, i) <==> i < |c.members| && IndexOfAccount(c.members, heir) == i {
          OfAccountIff(c.members, heir, i);
        }
        assert IndexOfAccount(c.members, heir) < |c.members| ==> FirstOfAccount(c.members, heir, IndexOfAccount(c.members, heir));
      case DesignateByName(_, name) =>
        forall i: nat ensures FirstNamed(c.members, name, i) <==> i < |c.members| && IndexOfName(c.members, name) == i {
          NamedIff(c.members, name, i);
        }
        assert IndexOfName(c.members, name) < |c.members| ==> FirstNamed(c.members, name, IndexOfName(c.members, name));
      case _ =>
    }
  }

  lemma LineWithoutRemoval(c: Channel, op: Op)
    requires Target(c, op) >= |c.members|
    ensures
      var d := Step(c, op).0;
      match Placed(c, op)
      case None => d.heirs == c.heirs
      case Some(x) => d.heirs == Without(c.heirs, x) + [x] && d.members == c.members && d.operator == c.operator != Some(x)
    ensures op.Join? ==> c.members <= Step(c, op).0.members
  {
    hide IndexOfName, IndexOfAccount, Grants, Lower, RemoveAt;
  }

  lemma PlacedIsPresent(c: Channel, op: Op)
    ensures Placed(c, op).Some? ==> Present(c.members, Placed(c, op).value)
  {
    hide IndexOfName, Lower;
    if op.DesignateByName? && Placed(c, op).Some? { PresentIff(c.members, Placed(c, op).value); }
  }

  lemma PlacesTakesNobody(c: Channel, op: Op)
    ensures Target(c, op) < |c.members| ==> Placed(c, op).None?
  {
  }

  /** A removal takes out of the line the account that is gone and the one that is promoted, and nobody else. */
  lemma LineAfterRemoval(c: Channel, i: nat, x: AccountId)
    requires Inv(c) && i < |c.members|
    ensures
      var d := RemoveAt(c, i).0;
      x in d.heirs <==> x in c.heirs && Present(d.members, x) && d.operator != Some(x)
  {
    hide FlagInOrder, NamesDiffer, Removed, WithFlag, Distinct;
    var ms := Removed(c.members, i);
    PresentAfterRemoval(c.members, i, x);
    var heirs := if !Present(ms, c.members[i].account) then Without(c.heirs, c.members[i].account) else c.heirs;
    if FirstPresent(heirs, ms).Some? { PresentAfterFlag(ms, FirstPresent(heirs, ms).value, x); }
  }

  lemma OrderAfterRemoval(c: Channel, i: nat, x: AccountId, y: AccountId)
    requires i < |c.members| && x in RemoveAt(c, i).0.heirs && y in RemoveAt(c, i).0.heirs
    ensures Before(RemoveAt(c, i).0.heirs, x, y) <==> Before(c.heirs, x, y)
  {
    hide Removed, WithFlag, Before;
    var account, ms := c.members[i].account, Removed(c.members, i);
    var heirs := if !Present(ms, account) then Without(c.heirs, account) else c.heirs;
    if !Present(ms, account) { WithoutKeepsOrder(c.heirs, account, x, y); }
    if FirstPresent(heirs, ms).Some? && RemoveAt(c, i).0.heirs != heirs {
      WithoutKeepsOrder(heirs, FirstPresent(heirs, ms).value, x, y);
    }
  }

  /** Main result: who is in line afterwards, and in what order: whoever is placed now goes to the end, the rest stay as they stood. */
  lemma LineFollows(c: Channel, op: Op, x: AccountId, y: AccountId)
    requires Inv(c)
    ensures
      var d := Step(c, op).0;
      && (x in d.heirs <==> (x in c.heirs || Places(c, op, x)) && Present(d.members, x) && d.operator != Some(x))
      && (x in d.heirs && y in d.heirs && x != y ==>
            (Before(d.heirs, x, y) <==> Places(c, op, y) || (!Places(c, op, x) && Before(c.heirs, x, y))))
  {
    hide Step, RemoveAt, Inv, Places, Before, Present, Target, Placed;
    var i, d := Target(c, op), Step(c, op).0;
    StepAtTarget(c, op);
    PlacesIff(c, op, x);
    PlacesIff(c, op, y);
    PlacesTakesNobody(c, op);
    if i < |c.members| {
      var b := c.(bans := d.bans);
      OnlyOrderMatters(c, b);
      LineAfterRemoval(b, i, x);
      if x in d.heirs && y in d.heirs { OrderAfterRemoval(b, i, x, y); }
    } else {
      StepKeepsInv(c, op);
      if x in d.heirs { LineIsPresent(d, x); }
      LineWithoutRemoval(c, op);
      PlacedIsPresent(c, op);
      if Placed(c, op).Some? {
        var z := Placed(c, op).value;
        if x != z && y != z { WithoutKeepsOrder(c.heirs, z, x, y); }
        if x in Without(c.heirs, z) { BeforeAppend(Without(c.heirs, z), z, x, y); }
        if y in Without(c.heirs, z) { BeforeAppend(Without(c.heirs, z), z, y, y); }
      }
    }
  }

  lemma LineIsPresent(c: Channel, x: AccountId)
    requires Inv(c) && x in c.heirs
    ensures Present(c.members, x) && c.operator != Some(x)
  {
  }

  /** The number moves by one exactly when a session goes or comes, or somebody is put at the end of the line. */
  lemma SeqFollows(c: Channel, op: Op)
    ensures Step(c, op).0.seqNo == c.seqNo +
      if !TakesNobody(c, op) || (op.Join? && Admits(c, op.account, op.name)) || exists x: AccountId :: Places(c, op, x) then 1 else 0
  {
    hide RemoveAt, Takes, Target, Places, Placed, IndexOfName, IndexOfAccount, NobodyNamed, Grants, Promises, Without, Lower, Step;
    forall i | 0 <= i < |c.members| ensures Takes(c, op, i) <==> Target(c, op) == i { TakesIff(c, op, i); }
    forall x: AccountId ensures Places(c, op, x) <==> Placed(c, op) == Some(x) { PlacesIff(c, op, x); }
    StepAtTarget(c, op);
    PlacesTakesNobody(c, op);
    assert op.Join? ==> TakesNobody(c, op) by { JoinTakesNobody(c, op); }
    if Target(c, op) < |c.members| {
      assert Takes(c, op, Target(c, op));
      RemovalBumps(c.(bans := Step(c, op).0.bans), Target(c, op));
    } else {
      if op.Join? { NamedIff(c.members, op.name, 0); IndexIsInside(c.members, op.name); }
      SeqWithoutRemoval(c, op);
      if Placed(c, op).Some? { assert Places(c, op, Placed(c, op).value); }
      TargetIsInside(c, op);
    }
  }

  lemma SeqWithoutRemoval(c: Channel, op: Op)
    requires Target(c, op) >= |c.members|
    ensures Step(c, op).0.seqNo == c.seqNo +
      if Placed(c, op).Some? || (op.Join? && op.account !in c.bans && IndexOfName(c.members, op.name) >= |c.members|
                                 && (c.maxUsers == 0 || |c.members| < c.maxUsers)) then 1 else 0
  {
    hide IndexOfName, IndexOfAccount, Grants, Lower, RemoveAt, Without;
  }

  // ---- Bans ----

  /** Main result: who is banned afterwards: whom an allowed ban names or takes, and whoever was and is not let off by the operator. */
  lemma BansFollow(c: Channel, op: Op, x: AccountId)
    ensures x in Step(c, op).0.bans <==>
      || (op.Ban? && op.target == x && MayActOn(c, op.actor, x))
      || (op.BanByName? && SentAway(c, op, x))
      || (x in c.bans && !(op.Unban? && op.target == x && c.operator == Some(op.actor)))
  {
    hide RemoveAt, IndexOfName, IndexOfAccount, Grants, Without, Lower, Takes;
    forall b: Channel, i: nat | i < |b.members| ensures RemoveAt(b, i).0.bans == b.bans { RemovalKeepsBans(b, i); }
    forall i | 0 <= i < |c.members| ensures Takes(c, op, i) <==> Target(c, op) == i { TakesIff(c, op, i); }
    if op.BanByName? && Named(c, op.actor, op.name).Ok? { assert Takes(c, op, Named(c, op.actor, op.name).value); }
  }

  /** Once its ban is lifted an account may enter again, like anybody else. */
  lemma LiftedMayEnter(c: Channel, actor: AccountId, target: AccountId, name: Name)
    requires c.operator == Some(actor)
    ensures
      var d := Step(c, Unban(actor, target)).0;
      && d == c.(bans := c.bans - {target})
      && (Admits(d, target, name) <==> NobodyNamed(c.members, name) && (c.maxUsers == 0 || |c.members| < c.maxUsers))
  {
  }

  // ---- Answers ----

  /** What a removal tells its caller. */
  ghost function Told(c: Channel, op: Op, d: Channel): LeaveOutcome {
    if TakesNobody(c, op) then NO_CHANGE
    else
      LeaveOutcome(
        if Promoted(c, d) then d.operator else None, d.members == [],
        d.members == [] && !c.class_.Official? && !c.persist)
  }

  ghost predicate NobodyOf(ms: seq<Member>, account: AccountId) {
    forall i | 0 <= i < |ms| :: ms[i].account != account
  }

  ghost predicate NamesItself(c: Channel, actor: AccountId, name: Name) {
    exists i: nat :: FirstNamed(c.members, name, i) && c.members[i].account == actor
  }

  /** Why an action on an account is refused; a ban may also meet somebody who is not there. */
  ghost function AccountRefusal(c: Channel, actor: AccountId, target: AccountId, mustBeThere: bool): Option<OpError> {
    if c.operator != Some(actor) then Some(NotOperator)
    else if actor == target then Some(CannotTargetSelf)
    else if mustBeThere && NobodyOf(c.members, target) then Some(NotPresent)
    else None
  }

  ghost function NameRefusal(c: Channel, actor: AccountId, name: Name): Option<OpError> {
    if c.operator != Some(actor) then Some(NotOperator)
    else if NobodyNamed(c.members, name) then Some(NotPresent)
    else if NamesItself(c, actor, name) then Some(CannotTargetSelf)
    else None
  }

  ghost function Refusal(c: Channel, op: Op): Option<OpError> {
    match op
    case Designate(actor, heir) => AccountRefusal(c, actor, heir, true)
    case Kick(actor, target) => AccountRefusal(c, actor, target, true)
    case Ban(actor, target) => AccountRefusal(c, actor, target, false)
    case DesignateByName(actor, name) => NameRefusal(c, actor, name)
    case KickByName(actor, name) => NameRefusal(c, actor, name)
    case BanByName(actor, name) => NameRefusal(c, actor, name)
    case Unban(actor, _) => if c.operator != Some(actor) then Some(NotOperator) else None
    case _ => None
  }

  /** The account of whoever bears the name. */
  ghost predicate BearerIs(c: Channel, name: Name, account: AccountId) {
    exists i: nat :: FirstNamed(c.members, name, i) && c.members[i].account == account
  }

  /** What the caller is told when nothing is refused. */
  ghost predicate Answers(c: Channel, op: Op, d: Channel, out: Outcome) {
    match op
    case Join(account, name, baseFlags, _) =>
      out == (if account in c.bans then Denied(Banned)
              else if !NobodyNamed(c.members, name) then Denied(AlreadyPresent)
              else if c.maxUsers != 0 && |c.members| >= c.maxUsers then Denied(Full)
              else Joined(Promises(c, name), EntryFlags(Promises(c, name), baseFlags)))
    case Leave(_) => out == Left(Told(c, op, d))
    case Kick(_, _) => out == Left(Told(c, op, d))
    case KickByName(_, _) => out == Left(Told(c, op, d))
    case Ban(_, target) => out == BannedAccount(target, Told(c, op, d))
    case BanByName(_, name) => out.BannedAccount? && out.outcome == Told(c, op, d) && BearerIs(c, name, out.account)
    case Designate(_, heir) => out == Heir(heir)
    case DesignateByName(_, name) => out.Heir? && BearerIs(c, name, out.account)
    case Unban(_, target) => out == Lifted(target in c.bans)
  }

  lemma RemovalTells(c: Channel, i: nat)
    requires i < |c.members|
    ensures
      var (d, out) := RemoveAt(c, i);
      out == LeaveOutcome(
        if Promoted(c, d) then d.operator else None, d.members == [], d.members == [] && !c.class_.Official? && !c.persist)
  {
    hide Removed, WithFlag;
    MarkedOneIfAny(c, i);
  }

  lemma MarkedOneIfAny(c: Channel, i: nat)
    requires i < |c.members|
    ensures RemoveAt(c, i).0.members == [] <==> Removed(c.members, i) == []
  {
    hide Removed, Without;
  }

  /** What a removal tells, in terms of the target. */
  lemma ToldIs(c: Channel, op: Op)
    ensures
      var (i, d) := (Target(c, op), Step(c, op).0);
      Told(c, op, d) == if i < |c.members| then RemoveAt(c.(bans := d.bans), i).1 else NO_CHANGE
  {
    hide RemoveAt, Step, Takes, Target;
    forall i | 0 <= i < |c.members| ensures Takes(c, op, i) <==> Target(c, op) == i { TakesIff(c, op, i); }
    StepAtTarget(c, op);
    var i := Target(c, op);
    if i < |c.members| {
      assert Takes(c, op, i);
      RemovalTells(c.(bans := Step(c, op).0.bans), i);
    }
  }

  lemma NameMeans(c: Channel, actor: AccountId, name: Name)
    ensures
      match Named(c, actor, name)
      case Err(e) => NameRefusal(c, actor, name) == Some(e)
      case Ok(i) => NameRefusal(c, actor, name).None? && BearerIs(c, name, c.members[i].account)
  {
    hide FirstNamed, NobodyNamed, IndexOfName, Lower;
    var i := IndexOfName(c.members, name);
    forall j: nat ensures FirstNamed(c.members, name, j) <==> j < |c.members| && i == j { NamedIff(c.members, name, j); }
    NamedIff(c.members, name, i);
    assert i <= |c.members| by { IndexIsInside(c.members, name); }
    if i < |c.members| { assert FirstNamed(c.members, name, i); }
  }

  lemma IndexIsInside(ms: seq<Member>, name: Name)
    ensures IndexOfName(ms, name) <= |ms|
  {
  }

  lemma AccountMeans(ms: seq<Member>, account: AccountId)
    ensures NobodyOf(ms, account) <==> !Present(ms, account)
  {
  }

  ghost predicate AnsweredRight(c: Channel, op: Op) {
    var (d, out) := Step(c, op);
    match Refusal(c, op)
    case Some(e) => d == c && out == Refused(e)
    case None => Answers(c, op, d, out)
  }

  lemma ByNameAnswers(c: Channel, op: Op)
    requires op.DesignateByName? || op.KickByName? || op.BanByName?
    ensures AnsweredRight(c, op)
  {
    hide RemoveAt, Told, IndexOfName, NameRefusal, BearerIs, Lower, Named;
    NameMeans(c, op.actor, op.name);
    ToldIs(c, op);
    forall b: Channel, i: nat | i < |b.members| ensures RemoveAt(b, i).0.bans == b.bans { RemovalKeepsBans(b, i); }
    NamedIsInside(c, op.actor, op.name);
  }

  lemma NamedIsInside(c: Channel, actor: AccountId, name: Name)
    ensures Named(c, actor, name).Ok? ==> Named(c, actor, name).value < |c.members|
  {
  }

  lemma ByAccountAnswers(c: Channel, op: Op)
    requires op.Designate? || op.Kick? || op.Ban?
    ensures AnsweredRight(c, op)
  {
    hide RemoveAt, Told, IndexOfAccount, NobodyOf, Without;
    AccountMeans(c.members, if op.Designate? then op.heir else op.target);
    ToldIs(c, op);
    forall b: Channel, i: nat | i < |b.members| ensures RemoveAt(b, i).0.bans == b.bans { RemovalKeepsBans(b, i); }
  }

  lemma OthersAnswer(c: Channel, op: Op)
    requires op.Join? || op.Leave? || op.Unban?
    ensures AnsweredRight(c, op)
  {
    hide RemoveAt, Told, IndexOfName, NobodyNamed, Promises, Grants, Lower;
    ToldIs(c, op);
    forall b: Channel, i: nat | i < |b.members| ensures RemoveAt(b, i).0.bans == b.bans { RemovalKeepsBans(b, i); }
    if op.Join? {
      NamedIff(c.members, op.name, 0);
      IndexIsInside(c.members, op.name);
      GrantsIff(c, op.name);
      assert Step(c, op) == Joining(c, op.account, op.name, op.baseFlags, op.statstring);
    }
  }

  /** Main result: an operation is refused for just the reason given, and then changes nothing; otherwise its answer tells what it did. */
  lemma AnswerFollows(c: Channel, op: Op)
    ensures AnsweredRight(c, op)
  {
    hide AnsweredRight;
    if op.Join? || op.Leave? || op.Unban? {
      OthersAnswer(c, op);
    } else if op.Designate? || op.Kick? || op.Ban? {
      ByAccountAnswers(c, op);
    } else {
      ByNameAnswers(c, op);
    }
  }
}
