/** A chat channel's roster and the rules for who is its operator (`channel.rs`). */
module Channels {
  import opened Bytes
  import opened Text

  type AccountId = nat
  type Flags = bv32

  const OPERATOR: Flags := 2

  datatype ChannelClass = Local | Federated | Official

  datatype OpGrant = NoGrant | FirstArrival | NameMatch(opName: Name)

  datatype Member = Member(account: AccountId, name: Name, flags: Flags, statstring: seq<byte>)

  datatype Channel = Channel(
    class_: ChannelClass,
    maxUsers: nat,
    members: seq<Member>,
    operator: Option<AccountId>,
    heirs: seq<AccountId>,
    bans: set<AccountId>,
    seqNo: nat,
    grant: OpGrant,
    persist: bool)

  datatype JoinDenial = Full | Banned | AlreadyPresent
  datatype OpError = NotOperator | NotPresent | CannotTargetSelf

  datatype LeaveOutcome = LeaveOutcome(newOperator: Option<AccountId>, nowEmpty: bool, shouldDestroy: bool)

  const NO_CHANGE := LeaveOutcome(None, false, false)

  datatype Op =
    | Join(account: AccountId, name: Name, baseFlags: Flags, statstring: seq<byte>)
    | Leave(name: Name)
    | Designate(actor: AccountId, heir: AccountId)
    | DesignateByName(actor: AccountId, name: Name)
    | Kick(actor: AccountId, target: AccountId)
    | KickByName(actor: AccountId, name: Name)
    | Ban(actor: AccountId, target: AccountId)
    | BanByName(actor: AccountId, name: Name)
    | Unban(actor: AccountId, target: AccountId)

  datatype Outcome =
    | Joined(grantedOperator: bool, flags: Flags)
    | Denied(why: JoinDenial)
    | Left(outcome: LeaveOutcome)
    | BannedAccount(account: AccountId, outcome: LeaveOutcome)
    | Heir(account: AccountId)
    | Lifted(was: bool)
    | Refused(error: OpError)

  // ---- Looking members up ----

  function IndexOfAccount(ms: seq<Member>, account: AccountId): (i: nat)
    ensures i <= |ms| && (i < |ms| ==> ms[i].account == account)
    ensures forall j | 0 <= j < i :: ms[j].account != account
  {
    if ms == [] || ms[0].account == account then 0 else 1 + IndexOfAccount(ms[1..], account)
  }

  function IndexOfName(ms: seq<Member>, name: Name): (i: nat)
    ensures i <= |ms| && (i < |ms| ==> Lower(ms[i].name) == Lower(name))
    ensures forall j | 0 <= j < i :: Lower(ms[j].name) != Lower(name)
  {
    if ms == [] || Lower(ms[0].name) == Lower(name) then 0 else 1 + IndexOfName(ms[1..], name)
  }

  predicate Present(ms: seq<Member>, account: AccountId) {
    IndexOfAccount(ms, account) < |ms|
  }

  /** How many sessions of the account are in the channel. */
  function Sessions(ms: seq<Member>, account: AccountId): nat {
    if ms == [] then 0 else (if ms[0].account == account then 1 else 0) + Sessions(ms[1..], account)
  }

  predicate Flagged(m: Member) {
    m.flags & OPERATOR != 0
  }

  function Without(heirs: seq<AccountId>, account: AccountId): (r: seq<AccountId>)
    ensures account !in r && forall h :: h in r <==> h in heirs && h != account
    ensures account !in heirs ==> r == heirs
    ensures |r| <= |heirs|
  {
    if heirs == [] then []
    else if heirs[0] == account then Without(heirs[1..], account)
    else [heirs[0]] + Without(heirs[1..], account)
  }

  /** The first heir still in the channel. */
  function FirstPresent(heirs: seq<AccountId>, ms: seq<Member>): (r: Option<AccountId>)
    ensures r.Some? ==> r.value in heirs && Present(ms, r.value)
    ensures r.None? ==> forall h | h in heirs :: !Present(ms, h)
    ensures heirs != [] && Present(ms, heirs[0]) ==> r == Some(heirs[0])
  {
    if heirs == [] then None
    else if Present(ms, heirs[0]) then Some(heirs[0])
    else FirstPresent(heirs[1..], ms)
  }

  /** A name without its `#N`; without digits behind the last `#`, all of it. */
  function BaseName(name: Name): Name {
    var i := LastIndexOf(name, HASH);
    if 0 <= i && i + 1 < |name| && forall j | i < j < |name| :: IsDigit(name[j]) then name[..i] else name
  }

  // ---- The rules ----

  function New(class_: ChannelClass, maxUsers: nat): Channel {
    Channel(class_, maxUsers, [], None, [], {}, 0, if class_.Official? then NoGrant else FirstArrival, false)
  }

  function Grants(c: Channel, name: Name): bool {
    c.operator.None? &&
    match c.grant
    case NoGrant => false
    case FirstArrival => c.members == []
    case NameMatch(opName) => Lower(BaseName(name)) == Lower(opName)
  }

  function Joining(c: Channel, account: AccountId, name: Name, baseFlags: Flags, statstring: seq<byte>): (Channel, Outcome) {
    if account in c.bans then (c, Denied(Banned))
    else if IndexOfName(c.members, name) < |c.members| then (c, Denied(AlreadyPresent))
    else if c.maxUsers != 0 && |c.members| >= c.maxUsers then (c, Denied(Full))
    else
      var granted := Grants(c, name);
      var flags := if granted then baseFlags | OPERATOR else baseFlags & !OPERATOR;
      (c.(members := c.members + [Member(account, name, flags, statstring)],
          operator := if granted then Some(account) else c.operator,
          seqNo := c.seqNo + 1),
       Joined(granted, flags))
  }

  function Removed(ms: seq<Member>, i: nat): seq<Member>
    requires i < |ms|
  {
    ms[..i] + ms[i + 1..]
  }

  function WithFlag(ms: seq<Member>, account: AccountId): (r: seq<Member>)
    requires Present(ms, account)
    ensures |r| == |ms|
    ensures forall i | 0 <= i < |ms| :: r[i].account == ms[i].account && r[i].name == ms[i].name
  {
    var i := IndexOfAccount(ms, account);
    ms[i := ms[i].(flags := ms[i].flags | OPERATOR)]
  }

  /** Take out one session; the role passes on when the operator's last session goes. */
  function RemoveAt(c: Channel, i: nat): (Channel, LeaveOutcome)
    requires i < |c.members|
  {
    var account := c.members[i].account;
    var ms := Removed(c.members, i);
    var gone := !Present(ms, account);
    var heirs := if gone then Without(c.heirs, account) else c.heirs;
    var destroy := ms == [] && !c.class_.Official? && !c.persist;
    var left := c.(members := ms, heirs := heirs, seqNo := c.seqNo + 1);
    if gone && c.operator == Some(account) then
      match FirstPresent(heirs, ms)
      case None => (left.(operator := None), LeaveOutcome(None, ms == [], destroy))
      case Some(h) =>
        (left.(operator := Some(h), members := WithFlag(ms, h), heirs := Without(heirs, h)),
         LeaveOutcome(Some(h), ms == [], destroy))
    else (left, LeaveOutcome(None, ms == [], destroy))
  }

  function LeaveAccount(c: Channel, account: AccountId): (Channel, LeaveOutcome) {
    var i := IndexOfAccount(c.members, account);
    if i < |c.members| then RemoveAt(c, i) else (c, NO_CHANGE)
  }

  /** Why the operator's action on an account present is refused, if it is. */
  function Objection(c: Channel, actor: AccountId, target: AccountId): Option<OpError> {
    if c.operator != Some(actor) then Some(NotOperator)
    else if actor == target then Some(CannotTargetSelf)
    else None
  }

  /** The member an operator names, or why the action is refused. */
  function Named(c: Channel, actor: AccountId, name: Name): (r: Result<nat, OpError>)
    ensures r.Ok? ==> r.value < |c.members| && c.operator == Some(actor) && c.members[r.value].account != actor
  {
    if c.operator != Some(actor) then Err(NotOperator) else
    var i := IndexOfName(c.members, name);
    if i >= |c.members| then Err(NotPresent)
    else if c.members[i].account == actor then Err(CannotTargetSelf)
    else Ok(i)
  }

  function Step(c: Channel, op: Op): (Channel, Outcome) {
    match op
    case Join(account, name, baseFlags, statstring) => Joining(c, account, name, baseFlags, statstring)
    case Leave(name) =>
      (var i := IndexOfName(c.members, name);
       if i >= |c.members| then (c, Left(NO_CHANGE)) else
       var (d, out) := RemoveAt(c, i);
       (d, Left(out)))
    case Designate(actor, heir) =>
      if Objection(c, actor, heir).Some? then (c, Refused(Objection(c, actor, heir).value))
      else if !Present(c.members, heir) then (c, Refused(NotPresent))
      else (c.(heirs := Without(c.heirs, heir) + [heir], seqNo := c.seqNo + 1), Heir(heir))
    case DesignateByName(actor, name) =>
      (match Named(c, actor, name)
       case Err(e) => (c, Refused(e))
       case Ok(i) =>
         var heir := c.members[i].account;
         if heir in c.heirs then (c, Heir(heir))
         else (c.(heirs := c.heirs + [heir], seqNo := c.seqNo + 1), Heir(heir)))
    case Kick(actor, target) =>
      (if Objection(c, actor, target).Some? then (c, Refused(Objection(c, actor, target).value))
       else if !Present(c.members, target) then (c, Refused(NotPresent)) else
       var (d, out) := LeaveAccount(c, target);
       (d, Left(out)))
    case KickByName(actor, name) =>
      (match Named(c, actor, name)
       case Err(e) => (c, Refused(e))
       case Ok(i) =>
         var (d, out) := RemoveAt(c, i);
         (d, Left(out)))
    case Ban(actor, target) =>
      (if Objection(c, actor, target).Some? then (c, Refused(Objection(c, actor, target).value)) else
       var (d, out) := LeaveAccount(c.(bans := c.bans + {target}), target);
       (d, BannedAccount(target, out)))
    case BanByName(actor, name) =>
      (match Named(c, actor, name)
       case Err(e) => (c, Refused(e))
       case Ok(i) =>
         var account := c.members[i].account;
         var (d, out) := RemoveAt(c.(bans := c.bans + {account}), i);
         (d, BannedAccount(account, out)))
    case Unban(actor, target) =>
      if c.operator != Some(actor) then (c, Refused(NotOperator))
      else (c.(bans := c.bans - {target}), Lifted(target in c.bans))
  }

  // ---- What every step keeps ----

  ghost predicate Distinct(s: seq<AccountId>) {
    forall i, j | 0 <= i < j < |s| :: s[i] != s[j]
  }

  ghost predicate NamesDiffer(ms: seq<Member>) {
    forall i, j | 0 <= i < j < |ms| :: Lower(ms[i].name) != Lower(ms[j].name)
  }

  ghost predicate HeirsInOrder(c: Channel) {
    && Distinct(c.heirs)
    && (forall h | h in c.heirs :: Present(c.members, h))
    && (c.operator.Some? ==> Present(c.members, c.operator.value) && c.operator.value !in c.heirs)
    && (c.operator.None? ==> c.heirs == [])
  }

  /** At most one member carries the operator's flag, and only a session of the operator does. */
  ghost predicate FlagInOrder(ms: seq<Member>, operator: Option<AccountId>) {
    && (forall i | 0 <= i < |ms| :: Flagged(ms[i]) ==> operator == Some(ms[i].account))
    && (forall i, j | 0 <= i < j < |ms| :: !(Flagged(ms[i]) && Flagged(ms[j])))
  }

  ghost predicate RosterInOrder(c: Channel) {
    && NamesDiffer(c.members)
    && (c.maxUsers != 0 ==> |c.members| <= c.maxUsers)
  }

  ghost predicate Inv(c: Channel) {
    HeirsInOrder(c) && FlagInOrder(c.members, c.operator) && RosterInOrder(c)
  }

  lemma PresentIff(ms: seq<Member>, account: AccountId)
    ensures Present(ms, account) <==> exists i :: 0 <= i < |ms| && ms[i].account == account
  {
  }

  /** Removing one session leaves everybody else where they were. */
  lemma PresentAfterRemoval(ms: seq<Member>, i: nat, account: AccountId)
    requires i < |ms|
    ensures Present(Removed(ms, i), account) ==> Present(ms, account)
    ensures Present(ms, account) && account != ms[i].account ==> Present(Removed(ms, i), account)
  {
    var rs := Removed(ms, i);
    if Present(rs, account) {
      var j := IndexOfAccount(rs, account);
      assert ms[if j < i then j else j + 1].account == account;
    }
    if Present(ms, account) && account != ms[i].account {
      var j := IndexOfAccount(ms, account);
      assert rs[if j < i then j else j - 1].account == account;
    }
  }

  lemma PresentAfterFlag(ms: seq<Member>, h: AccountId, account: AccountId)
    requires Present(ms, h)
    ensures Present(WithFlag(ms, h), account) <==> Present(ms, account)
  {
    var fs := WithFlag(ms, h);
    if Present(ms, account) { assert fs[IndexOfAccount(ms, account)].account == account; }
    if Present(fs, account) { assert ms[IndexOfAccount(fs, account)].account == account; }
  }

  lemma {:induction false} WithoutDistinct(s: seq<AccountId>, account: AccountId)
    requires Distinct(s)
    ensures Distinct(Without(s, account))
  {
    if s != [] {
      WithoutDistinct(s[1..], account);
      if s[0] != account {
        var tail := Without(s[1..], account);
        assert s[0] !in s[1..];
        assert s[0] !in tail;
      }
    }
  }

  lemma RemovalKeepsHeirs(c: Channel, i: nat)
    requires HeirsInOrder(c) && i < |c.members|
    ensures HeirsInOrder(RemoveAt(c, i).0)
  {
    var account, ms := c.members[i].account, Removed(c.members, i);
    var d := RemoveAt(c, i).0;
    forall a { PresentAfterRemoval(c.members, i, a); }
    WithoutDistinct(c.heirs, account);
    var gone := !Present(ms, account);
    var heirs := if gone then Without(c.heirs, account) else c.heirs;
    assert heirs != [] ==> heirs[0] in heirs;
    if gone && c.operator == Some(account) && FirstPresent(heirs, ms).Some? {
      var h := FirstPresent(heirs, ms).value;
      WithoutDistinct(heirs, h);
      forall a { PresentAfterFlag(ms, h, a); }
    }
  }

  /** Member `j` after the removal was member `j` or `j + 1` before it. */
  lemma RemovedAt(ms: seq<Member>, i: nat, j: nat)
    requires i < |ms| && j < |ms| - 1
    ensures Removed(ms, i)[j] == ms[if j < i then j else j + 1]
  {
  }

  lemma FlagAfterRemoval(ms: seq<Member>, i: nat, operator: Option<AccountId>)
    requires FlagInOrder(ms, operator) && i < |ms|
    ensures FlagInOrder(Removed(ms, i), operator)
  {
    hide Flagged, Removed;
    var rs := Removed(ms, i);
    assert |rs| == |ms| - 1 by { RemovedLength(ms, i); }
    forall j | 0 <= j < |rs| ensures Flagged(rs[j]) ==> operator == Some(rs[j].account) {
      RemovedAt(ms, i, j);
    }
    forall j, k | 0 <= j < k < |rs| ensures !(Flagged(rs[j]) && Flagged(rs[k])) {
      RemovedAt(ms, i, j);
      RemovedAt(ms, i, k);
    }
  }

  lemma RemovedLength(ms: seq<Member>, i: nat)
    requires i < |ms|
    ensures |Removed(ms, i)| == |ms| - 1
  {
  }

  /** With no session of the operator left, nobody is flagged. */
  lemma NobodyFlagged(ms: seq<Member>, operator: AccountId)
    requires FlagInOrder(ms, Some(operator)) && !Present(ms, operator)
    ensures forall j | 0 <= j < |ms| :: !Flagged(ms[j])
  {
  }

  lemma FlagTheHeir(ms: seq<Member>, h: AccountId)
    requires (forall j | 0 <= j < |ms| :: !Flagged(ms[j])) && Present(ms, h)
    ensures FlagInOrder(WithFlag(ms, h), Some(h))
  {
    var i := IndexOfAccount(ms, h);
    FlagBits(ms[i].flags);
  }

  lemma RemovalKeepsFlags(c: Channel, i: nat)
    requires FlagInOrder(c.members, c.operator) && i < |c.members|
    ensures var d := RemoveAt(c, i).0; FlagInOrder(d.members, d.operator)
  {
    hide FlagInOrder, Flagged, Removed, WithFlag, Without;
    var account, ms := c.members[i].account, Removed(c.members, i);
    FlagAfterRemoval(c.members, i, c.operator);
    if !Present(ms, account) && c.operator == Some(account) {
      NobodyFlagged(ms, account);
      var heirs := Without(c.heirs, account);
      match FirstPresent(heirs, ms) {
        case None => assert FlagInOrder(ms, None) by { NoFlagNoOperator(ms); }
        case Some(h) => FlagTheHeir(ms, h);
      }
    }
  }

  lemma NoFlagNoOperator(ms: seq<Member>)
    requires forall j | 0 <= j < |ms| :: !Flagged(ms[j])
    ensures FlagInOrder(ms, None)
  {
  }

  lemma NamesAfterRemoval(ms: seq<Member>, i: nat)
    requires NamesDiffer(ms) && i < |ms|
    ensures NamesDiffer(Removed(ms, i))
  {
    hide Removed, Lower;
    var rs := Removed(ms, i);
    RemovedLength(ms, i);
    forall j, k | 0 <= j < k < |rs| ensures Lower(rs[j].name) != Lower(rs[k].name) {
      RemovedAt(ms, i, j);
      RemovedAt(ms, i, k);
    }
  }

  lemma RemovalKeepsRoster(c: Channel, i: nat)
    requires RosterInOrder(c) && i < |c.members|
    ensures RosterInOrder(RemoveAt(c, i).0)
  {
    hide Removed, Without, Lower;
    NamesAfterRemoval(c.members, i);
    RemovedLength(c.members, i);
  }

  lemma RemovalKeepsInv(c: Channel, i: nat)
    requires Inv(c) && i < |c.members|
    ensures Inv(RemoveAt(c, i).0)
  {
    RemovalKeepsHeirs(c, i);
    RemovalKeepsFlags(c, i);
    RemovalKeepsRoster(c, i);
  }

  lemma FlagBits(f: Flags)
    ensures (f | OPERATOR) & OPERATOR != 0 && (f & !OPERATOR) & OPERATOR == 0
  {
  }

  lemma PresentAfterJoin(ms: seq<Member>, m: Member, a: AccountId)
    ensures Present(ms + [m], a) <==> Present(ms, a) || a == m.account
  {
    var ns := ms + [m];
    assert ns[|ms|] == m;
    if Present(ms, a) { assert ns[IndexOfAccount(ms, a)].account == a; }
    if Present(ns, a) && a != m.account { assert ms[IndexOfAccount(ns, a)].account == a; }
  }

  lemma FlagAfterJoin(ms: seq<Member>, m: Member, operator: Option<AccountId>, granted: bool)
    requires FlagInOrder(ms, operator) && (Flagged(m) <==> granted) && (granted ==> operator.None?)
    ensures FlagInOrder(ms + [m], if granted then Some(m.account) else operator)
  {
    hide Flagged;
    var ns := ms + [m];
    assert forall i | 0 <= i < |ns| :: ns[i] == if i < |ms| then ms[i] else m;
  }

  lemma NamesAfterJoin(ms: seq<Member>, m: Member)
    requires NamesDiffer(ms) && IndexOfName(ms, m.name) >= |ms|
    ensures NamesDiffer(ms + [m])
  {
    hide Lower;
    var ns := ms + [m];
    assert forall i | 0 <= i < |ns| :: ns[i] == if i < |ms| then ms[i] else m;
  }

  lemma JoiningKeepsInv(c: Channel, account: AccountId, name: Name, baseFlags: Flags, statstring: seq<byte>)
    requires Inv(c)
    ensures Inv(Joining(c, account, name, baseFlags, statstring).0)
  {
    hide FlagInOrder, NamesDiffer, Grants, Lower, IndexOfAccount, IndexOfName;
    var d := Joining(c, account, name, baseFlags, statstring).0;
    if d != c {
      var m := d.members[|c.members|];
      assert d.members == c.members + [m];
      assert Grants(c, name) ==> c.operator.None? by { GrantsOnlyWithoutOperator(c, name); }
      assert Flagged(m) <==> Grants(c, name) by { FlagBits(baseFlags); }
      FlagAfterJoin(c.members, m, c.operator, Grants(c, name));
      NamesAfterJoin(c.members, m);
      forall a { PresentAfterJoin(c.members, m, a); }
    }
  }

  lemma GrantsOnlyWithoutOperator(c: Channel, name: Name)
    ensures Grants(c, name) ==> c.operator.None?
  {
  }

  lemma DesignationKeepsInv(c: Channel, heir: AccountId)
    requires Inv(c) && c.operator.Some? && c.operator.value != heir && Present(c.members, heir)
    ensures Inv(c.(heirs := Without(c.heirs, heir) + [heir], seqNo := c.seqNo + 1))
  {
    WithoutDistinct(c.heirs, heir);
  }

  /** Bans and the sequence number are not part of the order. */
  lemma OnlyOrderMatters(c: Channel, d: Channel)
    requires Inv(c) && c.members == d.members && c.operator == d.operator && c.heirs == d.heirs && c.maxUsers == d.maxUsers
    ensures Inv(d)
  {
  }

  lemma NominationKeepsInv(c: Channel, i: nat)
    requires Inv(c) && i < |c.members| && c.operator.Some? && c.operator.value != c.members[i].account
    requires c.members[i].account !in c.heirs
    ensures Inv(c.(heirs := c.heirs + [c.members[i].account], seqNo := c.seqNo + 1))
  {
    PresentIff(c.members, c.members[i].account);
    DesignationKeepsInv(c, c.members[i].account);
  }

  /** Main invariant: every operation, allowed or refused, leaves the channel in order. */
  lemma StepKeepsInv(c: Channel, op: Op)
    requires Inv(c)
    ensures Inv(Step(c, op).0)
  {
    hide RemoveAt, Joining, Without, Grants, Inv, IndexOfAccount, IndexOfName, Lower;
    var b := c.(bans := Step(c, op).0.bans);
    OnlyOrderMatters(c, b);
    match op {
      case Join(account, name, baseFlags, statstring) => JoiningKeepsInv(c, account, name, baseFlags, statstring);
      case Leave(name) =>
        if IndexOfName(c.members, name) < |c.members| { RemovalKeepsInv(c, IndexOfName(c.members, name)); }
      case Designate(actor, heir) =>
        if c.operator == Some(actor) && actor != heir && Present(c.members, heir) { DesignationKeepsInv(c, heir); }
      case DesignateByName(actor, name) =>
        if Named(c, actor, name).Ok? && c.members[Named(c, actor, name).value].account !in c.heirs {
          NominationKeepsInv(c, Named(c, actor, name).value);
        }
      case Kick(actor, target) =>
        if IndexOfAccount(c.members, target) < |c.members| { RemovalKeepsInv(c, IndexOfAccount(c.members, target)); }
      case KickByName(actor, name) =>
        if Named(c, actor, name).Ok? { RemovalKeepsInv(c, Named(c, actor, name).value); }
      case Ban(actor, target) => BanKeepsInv(c, actor, target);
      case BanByName(actor, name) => BanByNameKeepsInv(c, actor, name);
      case Unban(actor, target) =>
    }
  }

  lemma BanKeepsInv(c: Channel, actor: AccountId, target: AccountId)
    requires Inv(c)
    ensures Inv(Step(c, Ban(actor, target)).0)
  {
    hide RemoveAt, Inv, IndexOfAccount;
    var b := c.(bans := c.bans + {target});
    OnlyOrderMatters(c, b);
    if IndexOfAccount(b.members, target) < |b.members| { RemovalKeepsInv(b, IndexOfAccount(b.members, target)); }
  }

  lemma BanByNameKeepsInv(c: Channel, actor: AccountId, name: Name)
    requires Inv(c)
    ensures Inv(Step(c, BanByName(actor, name)).0)
  {
    hide RemoveAt, Inv, IndexOfName, Lower;
    if Named(c, actor, name).Ok? {
      var i := Named(c, actor, name).value;
      var b := c.(bans := c.bans + {c.members[i].account});
      OnlyOrderMatters(c, b);
      RemovalKeepsInv(b, i);
    }
  }

  lemma NewIsInOrder(class_: ChannelClass, maxUsers: nat)
    ensures Inv(New(class_, maxUsers))
  {
  }

  /** When the operator's last session goes, the role passes to the first heir, or to nobody if there are none. */
  lemma SuccessionIsInOrder(c: Channel, i: nat)
    requires Inv(c) && i < |c.members| && c.operator == Some(c.members[i].account)
    ensures
      var d := RemoveAt(c, i).0;
      if Present(Removed(c.members, i), c.members[i].account) then d.operator == c.operator && d.heirs == c.heirs
      else if c.heirs == [] then d.operator == None && d.heirs == []
      else d.operator == Some(c.heirs[0]) && d.heirs == c.heirs[1..]
  {
    var account, ms := c.members[i].account, Removed(c.members, i);
    if !Present(ms, account) && c.heirs != [] {
      assert c.heirs[0] in c.heirs;
      PresentAfterRemoval(c.members, i, c.heirs[0]);
      FirstIsOnce(c.heirs);
    }
  }

  lemma FirstIsOnce(s: seq<AccountId>)
    requires Distinct(s) && s != []
    ensures Without(s, s[0]) == s[1..]
  {
    assert s[0] !in s[1..];
  }

  // ---- Bans ----

  lemma {:induction false} SessionsCount(ms: seq<Member>, account: AccountId)
    ensures Sessions(ms, account) > 0 <==> Present(ms, account)
    decreases |ms|
  {
    if ms != [] {
      SessionsCount(ms[1..], account);
    }
  }

  lemma {:induction false} SessionsAfterRemoval(ms: seq<Member>, i: nat, account: AccountId)
    requires i < |ms|
    ensures Sessions(Removed(ms, i), account) == Sessions(ms, account) - (if ms[i].account == account then 1 else 0)
    decreases |ms|
  {
    var rs := Removed(ms, i);
    if i == 0 {
      assert rs == ms[1..];
    } else {
      SessionsAfterRemoval(ms[1..], i - 1, account);
      assert rs[0] == ms[0] && rs[1..] == Removed(ms[1..], i - 1);
    }
  }

  /** A ban takes one session only: the account is gone afterwards exactly when it had at most one. */
  lemma BanRemovesAllIff(c: Channel, actor: AccountId, target: AccountId)
    requires Inv(c) && c.operator == Some(actor) && actor != target
    ensures
      var d := Step(c, Ban(actor, target)).0;
      target in d.bans && (!Present(d.members, target) <==> Sessions(c.members, target) <= 1)
  {
    var i := IndexOfAccount(c.members, target);
    SessionsCount(c.members, target);
    if i < |c.members| {
      var rs := Removed(c.members, i);
      SessionsAfterRemoval(c.members, i, target);
      SessionsCount(rs, target);
    }
  }

  /** So does a ban of the account behind a named session. */
  lemma BanByNameRemovesAllIff(c: Channel, actor: AccountId, name: Name)
    requires Inv(c) && Named(c, actor, name).Ok?
    ensures
      var account := c.members[Named(c, actor, name).value].account;
      var d := Step(c, BanByName(actor, name)).0;
      account in d.bans && (!Present(d.members, account) <==> Sessions(c.members, account) <= 1)
  {
    hide Lower, IndexOfName;
    var i := Named(c, actor, name).value;
    var account := c.members[i].account;
    SessionsAfterRemoval(c.members, i, account);
    SessionsCount(c.members, account);
    SessionsCount(Removed(c.members, i), account);
  }

  /** A banned account that is out stays out, whatever else happens, until the ban is lifted. */
  lemma BanKeepsOut(c: Channel, op: Op, account: AccountId)
    requires account in c.bans && !Present(c.members, account)
    requires op.Unban? ==> op.target != account
    ensures
      var d := Step(c, op).0;
      account in d.bans && !Present(d.members, account)
  {
    hide RemoveAt, Present;
    var banned := c.(bans := c.bans + (match op case Ban(_, t) => {t} case BanByName(_, n) => BanTarget(c, n) case _ => {}));
    forall i | 0 <= i < |c.members|
      ensures !Present(RemoveAt(c, i).0.members, account) && RemoveAt(c, i).0.bans == c.bans
      ensures !Present(RemoveAt(banned, i).0.members, account) && RemoveAt(banned, i).0.bans == banned.bans
    {
      RemovalKeepsOut(c, i, account);
      RemovalKeepsOut(banned, i, account);
    }
    if op.Join? {
      JoinKeepsOut(c.members, Step(c, op).0.members, account);
    }
  }

  function BanTarget(c: Channel, name: Name): set<AccountId> {
    var i := IndexOfName(c.members, name);
    if i < |c.members| then {c.members[i].account} else {}
  }

  lemma RemovalKeepsOut(c: Channel, i: nat, account: AccountId)
    requires i < |c.members| && !Present(c.members, account)
    ensures !Present(RemoveAt(c, i).0.members, account) && RemoveAt(c, i).0.bans == c.bans
  {
    hide Removed, WithFlag;
    var ms := Removed(c.members, i);
    PresentAfterRemoval(c.members, i, account);
    var heirs := if !Present(ms, c.members[i].account) then Without(c.heirs, c.members[i].account) else c.heirs;
    if FirstPresent(heirs, ms).Some? {
      PresentAfterFlag(ms, FirstPresent(heirs, ms).value, account);
    }
  }

  lemma JoinKeepsOut(ms: seq<Member>, ns: seq<Member>, account: AccountId)
    requires ms <= ns && !Present(ms, account)
    requires forall j | |ms| <= j < |ns| :: ns[j].account != account
    ensures !Present(ns, account)
  {
    assert forall j | 0 <= j < |ms| :: ns[j] == ms[j];
  }

  // ---- The sequence number ----

  /** It never falls, and rises by one whenever members, operator or heirs change; bans alone do not move it. */
  lemma SeqFollowsChanges(c: Channel, op: Op)
    ensures
      var d := Step(c, op).0;
      && (d.seqNo == c.seqNo || d.seqNo == c.seqNo + 1)
      && (d.seqNo == c.seqNo ==> d == c.(bans := d.bans))
      && (d.bans != c.bans && |d.members| == |c.members| ==> d.seqNo == c.seqNo)
  {
    hide RemoveAt;
    var banned := c.(bans := c.bans + (match op case Ban(_, t) => {t} case BanByName(_, n) => BanTarget(c, n) case _ => {}));
    forall i | 0 <= i < |c.members|
      ensures Bumped(c, RemoveAt(c, i).0) && Bumped(banned, RemoveAt(banned, i).0)
    {
      RemovalBumps(c, i);
      RemovalBumps(banned, i);
    }
  }

  ghost predicate Bumped(c: Channel, d: Channel) {
    d.seqNo == c.seqNo + 1 && |d.members| == |c.members| - 1
  }

  lemma RemovalBumps(c: Channel, i: nat)
    requires i < |c.members|
    ensures Bumped(c, RemoveAt(c, i).0)
  {
    hide Without;
    RemovedLength(c.members, i);
  }

  // ---- Where an operator comes from ----

  /** The account this operation makes operator because the channel's rule grants it on entry. */
  ghost predicate GrantedOnEntry(c: Channel, op: Op, account: AccountId) {
    op.Join? && op.account == account && Step(c, op).1.Joined? && Step(c, op).1.grantedOperator
  }

  /** The account the operator of the time nominates with this operation. */
  ghost predicate DesignatedNow(c: Channel, op: Op, account: AccountId) {
    Step(c, op).1 == Heir(account) &&
    match op
    case Designate(actor, _) => c.operator == Some(actor)
    case DesignateByName(actor, _) => c.operator == Some(actor)
    case _ => false
  }

  /** Operator, or in line to be. */
  ghost predicate Leads(c: Channel, x: AccountId) {
    c.operator == Some(x) || x in c.heirs
  }

  /** Operator or heir afterwards: operator or heir before, or granted or designated by this very step. */
  lemma StepOrigin(c: Channel, op: Op, x: AccountId)
    requires Inv(c)
    ensures Leads(Step(c, op).0, x) ==> Leads(c, x) || GrantedOnEntry(c, op, x) || DesignatedNow(c, op, x)
  {
    hide RemoveAt;
    var banned := c.(bans := c.bans + (match op case Ban(_, t) => {t} case BanByName(_, n) => BanTarget(c, n) case _ => {}));
    forall i | 0 <= i < |c.members|
      ensures Leads(RemoveAt(c, i).0, x) ==> Leads(c, x)
      ensures Leads(RemoveAt(banned, i).0, x) ==> Leads(banned, x)
    {
      RemovalOrigin(c, i, x);
      RemovalOrigin(banned, i, x);
    }
  }

  lemma RemovalOrigin(c: Channel, i: nat, x: AccountId)
    requires i < |c.members|
    ensures Leads(RemoveAt(c, i).0, x) ==> Leads(c, x)
  {
    hide Removed, WithFlag;
  }
}
