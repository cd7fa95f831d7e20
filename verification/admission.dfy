/** Admission control (`limits.rs`): the count tables always describe the connections that are open. */
module Admission {
  import opened Bytes
  import opened Counts

  type AccountId = nat
  type Ip = seq<byte>

  datatype ClientClass = Gateway | Bnftp | GamePending | Game(product: u32)

  datatype ConnLimits = ConnLimits(perIp: u32, perAccount: u32, global: u32)

  datatype Rejection = PerIp(limit: u32) | PerAccount(limit: u32) | Global(limit: u32)

  type Conn = (ClientClass, Ip)
  type Binding = (ClientClass, AccountId)

  datatype Table = Table(
    perIp: map<Conn, nat>,
    perAccount: map<Binding, nat>,
    perClass: map<ClientClass, nat>,
    total: nat,
    allowlist: set<Ip>)

  function Empty(allowlist: set<Ip>): Table {
    Table(map[], map[], map[], 0, allowlist)
  }

  function WouldAdmit(t: Table, class_: ClientClass, ip: Ip, limits: ConnLimits): Result<(), Rejection> {
    if CountOf(t.perClass, class_) >= limits.global then Err(Global(limits.global))
    else if ip !in t.allowlist && CountOf(t.perIp, (class_, ip)) >= limits.perIp then Err(PerIp(limits.perIp))
    else Ok(())
  }

  function Add(t: Table, class_: ClientClass, ip: Ip): Table {
    t.(perIp := Bumped(t.perIp, (class_, ip)), perClass := Bumped(t.perClass, class_), total := t.total + 1)
  }

  function Released(t: Table, class_: ClientClass, ip: Ip): Table {
    t.(perIp := Dropped(t.perIp, (class_, ip)),
       perClass := Dropped(t.perClass, class_),
       total := if t.total > 0 then t.total - 1 else 0)
  }

  datatype Event =
    | Admit(class_: ClientClass, ip: Ip, limits: ConnLimits)
    | Release(class_: ClientClass, ip: Ip)
    | Reclassify(ip: Ip, source: ClientClass, target: ClientClass, limits: ConnLimits)
    | Bind(class_: ClientClass, account: AccountId, limits: ConnLimits)
    | ReleaseAccount(class_: ClientClass, account: AccountId)

  function Apply(t: Table, e: Event): (Table, Result<(), Rejection>) {
    match e
    case Admit(class_, ip, limits) =>
      var r := WouldAdmit(t, class_, ip, limits);
      (if r.Ok? then Add(t, class_, ip) else t, r)
    case Release(class_, ip) => (Released(t, class_, ip), Ok(()))
    case Reclassify(ip, source, target, limits) =>
      if source == target then (t, Ok(())) else
      var r := WouldAdmit(t, target, ip, limits);
      (if r.Ok? then Add(Released(t, source, ip), target, ip) else t, r)
    case Bind(class_, account, limits) =>
      if CountOf(t.perAccount, (class_, account)) >= limits.perAccount then (t, Err(PerAccount(limits.perAccount)))
      else (t.(perAccount := Bumped(t.perAccount, (class_, account))), Ok(()))
    case ReleaseAccount(class_, account) => (t.(perAccount := Dropped(t.perAccount, (class_, account))), Ok(()))
  }

  // ---- What is really open ----

  /** The open connections and the bound accounts. */
  datatype World = World(live: multiset<Conn>, bound: multiset<Binding>)

  /** The world after an event that was answered with `r`. */
  ghost function Moves(w: World, e: Event, r: Result<(), Rejection>): World {
    if r.Err? then w else
    match e
    case Admit(class_, ip, _) => w.(live := w.live + multiset{(class_, ip)})
    case Release(class_, ip) => w.(live := w.live - multiset{(class_, ip)})
    case Reclassify(ip, source, target, _) =>
      if source == target || (source, ip) !in w.live then w
      else w.(live := w.live - multiset{(source, ip)} + multiset{(target, ip)})
    case Bind(class_, account, _) => w.(bound := w.bound + multiset{(class_, account)})
    case ReleaseAccount(class_, account) => w.(bound := w.bound - multiset{(class_, account)})
  }

  /** The counts of one class, by address. */
  ghost function OfClass(perIp: map<Conn, nat>, class_: ClientClass): map<Conn, nat> {
    map k | k in perIp && k.0 == class_ :: perIp[k]
  }

  ghost predicate ClassesAddUp(perClass: map<ClientClass, nat>, perIp: map<Conn, nat>) {
    forall c :: CountOf(perClass, c) == Sum(OfClass(perIp, c))
  }

  /** The tables say what is open: every count is right, the totals add up, and nothing is kept for what is closed. */
  ghost predicate Describes(t: Table, w: World) {
    && CountsOf(t.perIp, w.live)
    && CountsOf(t.perAccount, w.bound)
    && NoZeros(t.perClass)
    && ClassesAddUp(t.perClass, t.perIp)
    && t.total == |w.live| == Sum(t.perClass)
  }

  lemma OfClassBumped(m: map<Conn, nat>, k: Conn, c: ClientClass)
    ensures OfClass(Bumped(m, k), c) == if c == k.0 then Bumped(OfClass(m, c), k) else OfClass(m, c)
  {
  }

  lemma OfClassDropped(m: map<Conn, nat>, k: Conn, c: ClientClass)
    ensures OfClass(Dropped(m, k), c) == if c == k.0 then Dropped(OfClass(m, c), k) else OfClass(m, c)
  {
  }

  lemma AddDescribes(t: Table, w: World, class_: ClientClass, ip: Ip)
    requires Describes(t, w)
    ensures Describes(Add(t, class_, ip), w.(live := w.live + multiset{(class_, ip)}))
  {
    hide Bumped, OfClass, Sum, CountsOf;
    var k := (class_, ip);
    BumpedCounts(t.perIp, w.live, k);
    SumBumped(t.perClass, class_);
    forall c ensures CountOf(Bumped(t.perClass, class_), c) == Sum(OfClass(Bumped(t.perIp, k), c)) {
      OfClassBumped(t.perIp, k, c);
      SumBumped(OfClass(t.perIp, c), k);
      BumpedCount(t.perClass, class_, c);
    }
    BumpedNoZeros(t.perClass, class_);
  }

  lemma BumpedCount(m: map<ClientClass, nat>, k: ClientClass, c: ClientClass)
    ensures CountOf(Bumped(m, k), c) == CountOf(m, c) + if c == k then 1 else 0
  {
  }

  lemma BumpedNoZeros(m: map<ClientClass, nat>, k: ClientClass)
    requires NoZeros(m)
    ensures NoZeros(Bumped(m, k))
  {
  }

  lemma DroppedCount(m: map<ClientClass, nat>, k: ClientClass, c: ClientClass)
    requires NoZeros(m)
    ensures NoZeros(Dropped(m, k))
    ensures k in m ==> CountOf(Dropped(m, k), c) == CountOf(m, c) - if c == k then 1 else 0
    ensures k !in m ==> Dropped(m, k) == m
  {
  }

  /** A connection that is open has its class in the table. */
  lemma OpenClassIsCounted(t: Table, w: World, k: Conn)
    requires Describes(t, w)
    ensures k in w.live <==> k in t.perIp
    ensures k in w.live ==> k.0 in t.perClass && t.total > 0
  {
    assert CountOf(t.perIp, k) == w.live[k];
    if k in w.live {
      var m := OfClass(t.perIp, k.0);
      assert k in m;
      SumSplit(m, k);
      assert CountOf(t.perClass, k.0) > 0;
    }
  }

  lemma ReleasedDescribes(t: Table, w: World, class_: ClientClass, ip: Ip)
    requires Describes(t, w) && (class_, ip) in w.live
    ensures Describes(Released(t, class_, ip), w.(live := w.live - multiset{(class_, ip)}))
  {
    hide Dropped, OfClass, Sum, CountsOf;
    var k := (class_, ip);
    OpenClassIsCounted(t, w, k);
    DroppedCounts(t.perIp, w.live, k);
    SumDropped(t.perClass, class_);
    OneFewer(w.live, k);
    DroppedCount(t.perClass, class_, class_);
    forall c ensures CountOf(Dropped(t.perClass, class_), c) == Sum(OfClass(Dropped(t.perIp, k), c)) {
      OfClassDropped(t.perIp, k, c);
      OfClassKeys(t.perIp, k, c, w.live);
      SumDropped(OfClass(t.perIp, c), k);
      DroppedCount(t.perClass, class_, c);
    }
  }

  lemma OfClassKeys(m: map<Conn, nat>, k: Conn, c: ClientClass, live: multiset<Conn>)
    requires CountsOf(m, live) && k in m
    ensures NoZeros(OfClass(m, c)) && (k in OfClass(m, c) <==> c == k.0)
  {
  }

  lemma OneFewer(s: multiset<Conn>, k: Conn)
    requires k in s
    ensures |s - multiset{k}| == |s| - 1
  {
  }

  /** With nothing open the tables are empty. */
  lemma NothingOpenNothingKept(t: Table, w: World)
    requires Describes(t, w) && w == World(multiset{}, multiset{})
    ensures t == Empty(t.allowlist)
  {
    NothingCounted(t.perIp);
    NothingCounted(t.perAccount);
    SumIsZero(t.perClass);
  }

  lemma EmptyDescribes(allowlist: set<Ip>)
    ensures Describes(Empty(allowlist), World(multiset{}, multiset{}))
  {
    assert forall c :: OfClass(map[], c) == map[];
  }

  /** What a caller has to see to: what it moves to another class is open, and so is what it closes, unless nothing is. */
  ghost predicate Proper(w: World, e: Event) {
    match e
    case Release(class_, ip) => (class_, ip) in w.live || w.live == multiset{}
    case Reclassify(ip, source, target, _) => (source, ip) in w.live
    case _ => true
  }

  lemma ReleasedNothing(t: Table, w: World, class_: ClientClass, ip: Ip)
    requires Describes(t, w) && w.live == multiset{}
    ensures Released(t, class_, ip) == t
  {
    NothingCounted(t.perIp);
    SumIsZero(t.perClass);
  }

  lemma NothingMinus(k: Conn)
    ensures multiset{} - multiset{k} == multiset{}
  {
  }

  lemma ReleaseDescribesIff(t: Table, w: World, class_: ClientClass, ip: Ip)
    requires Describes(t, w)
    ensures Describes(Released(t, class_, ip), w.(live := w.live - multiset{(class_, ip)}))
      <==> (class_, ip) in w.live || w.live == multiset{}
  {
    hide CountsOf, ClassesAddUp, Sum, Dropped;
    if (class_, ip) in w.live {
      ReleasedDescribes(t, w, class_, ip);
    } else if w.live == multiset{} {
      ReleasedNothing(t, w, class_, ip);
      NothingMinus((class_, ip));
    } else {
      MinusAbsent(w.live, (class_, ip));
    }
  }

  lemma MinusAbsent(s: multiset<Conn>, k: Conn)
    requires k !in s
    ensures s - multiset{k} == s
    ensures s != multiset{} ==> |s| > 0
  {
  }

  lemma MovedDescribes(t: Table, w: World, ip: Ip, source: ClientClass, target: ClientClass)
    requires Describes(t, w) && (source, ip) in w.live
    ensures Describes(Add(Released(t, source, ip), target, ip), w.(live := w.live - multiset{(source, ip)} + multiset{(target, ip)}))
  {
    hide Describes, Add, Released;
    ReleasedDescribes(t, w, source, ip);
    AddDescribes(Released(t, source, ip), w.(live := w.live - multiset{(source, ip)}), target, ip);
  }

  /** A connection that was not open is counted in the class it is moved to, though none opened. */
  lemma StrayMoveCounts(t: Table, w: World, ip: Ip, source: ClientClass, target: ClientClass)
    requires Describes(t, w) && source != target
    ensures !Describes(Add(Released(t, source, ip), target, ip), w)
  {
    hide ClassesAddUp, Sum;
    var u := Add(Released(t, source, ip), target, ip);
    assert CountOf(t.perIp, (target, ip)) == w.live[(target, ip)];
    assert CountOf(u.perIp, (target, ip)) == CountOf(t.perIp, (target, ip)) + 1;
  }

  /** Moving a connection to another class keeps the tables right exactly when it is open. */
  lemma ReclassifyDescribesIff(t: Table, w: World, ip: Ip, source: ClientClass, target: ClientClass, limits: ConnLimits)
    requires Describes(t, w) && source != target
    ensures Describes(Add(Released(t, source, ip), target, ip), Moves(w, Reclassify(ip, source, target, limits), Ok(())))
      <==> (source, ip) in w.live
  {
    hide Describes, Add, Released;
    if (source, ip) in w.live {
      MovedDescribes(t, w, ip, source, target);
    } else {
      StrayMoveCounts(t, w, ip, source, target);
    }
  }

  lemma AccountsDescribe(t: Table, w: World, k: Binding)
    requires Describes(t, w)
    ensures Describes(t.(perAccount := Bumped(t.perAccount, k)), w.(bound := w.bound + multiset{k}))
    ensures Describes(t.(perAccount := Dropped(t.perAccount, k)), w.(bound := w.bound - multiset{k}))
  {
    hide CountsOf, ClassesAddUp, Sum, Dropped, Bumped;
    BumpedCounts(t.perAccount, w.bound, k);
    DroppedCounts(t.perAccount, w.bound, k);
  }

  /** Main result for one event: the tables go on describing what is open exactly when the caller did its part. */
  lemma ApplyDescribesIff(t: Table, w: World, e: Event)
    requires Describes(t, w)
    ensures
      var (u, r) := Apply(t, e);
      Describes(u, Moves(w, e, r)) <==>
        Proper(w, e) || (e.Reclassify? && (e.source == e.target || WouldAdmit(t, e.target, e.ip, e.limits).Err?))
  {
    hide Describes, Dropped, Bumped, Add, Released, WouldAdmit;
    match e {
      case Admit(class_, ip, limits) => AddDescribes(t, w, class_, ip);
      case Release(class_, ip) => ReleaseDescribesIff(t, w, class_, ip);
      case Reclassify(ip, source, target, limits) =>
        if source != target { ReclassifyDescribesIff(t, w, ip, source, target, limits); }
      case Bind(class_, account, limits) => AccountsDescribe(t, w, (class_, account));
      case ReleaseAccount(class_, account) => AccountsDescribe(t, w, (class_, account));
    }
  }

  /** A rejection names the ceiling that was reached and changes nothing. */
  lemma RejectionsChangeNothing(t: Table, e: Event)
    requires Apply(t, e).1.Err?
    ensures Apply(t, e).0 == t
    ensures
      var (class_, error) := (if e.Reclassify? then e.target else e.class_, Apply(t, e).1.error);
      match error
      case Global(limit) => (e.Admit? || e.Reclassify?) && limit == e.limits.global <= CountOf(t.perClass, class_)
      case PerIp(limit) =>
        && (e.Admit? || e.Reclassify?) && limit == e.limits.perIp <= CountOf(t.perIp, (class_, e.ip))
        && e.ip !in t.allowlist && CountOf(t.perClass, class_) < e.limits.global
      case PerAccount(limit) => e.Bind? && limit == e.limits.perAccount <= CountOf(t.perAccount, (class_, e.account))
  {
  }

  // ---- What is answered, told from what is open ----

  /** How many of the open connections are of the class. */
  ghost function OpenIn(live: multiset<Conn>, c: ClientClass): nat
    decreases |live|
  {
    if live == multiset{} then 0 else
    var k :| k in live;
    OneFewer(live, k);
    OpenIn(live - multiset{k}, c) + if k.0 == c then 1 else 0
  }

  lemma {:induction false} ClassCount(m: map<Conn, nat>, live: multiset<Conn>, c: ClientClass)
    requires CountsOf(m, live)
    ensures Sum(OfClass(m, c)) == OpenIn(live, c)
    decreases |live|
  {
    hide OfClass, Sum, CountsOf, Dropped;
    if live == multiset{} {
      NothingCounted(m);
      assert OfClass(m, c) == map[] by { NothingOfClass(c); }
      assert Sum<Conn>(map[]) == 0 by { SumOfNothing(); }
    } else {
      var k :| k in live && OpenIn(live, c) == OpenIn(live - multiset{k}, c) + if k.0 == c then 1 else 0;
      OneFewer(live, k);
      DroppedCounts(m, live, k);
      ClassCount(Dropped(m, k), live - multiset{k}, c);
      OfClassDropped(m, k, c);
      Counted(m, live, k);
      OfClassKeys(m, k, c, live);
      SumDropped(OfClass(m, c), k);
    }
  }

  lemma NothingOfClass(c: ClientClass)
    ensures OfClass(map[], c) == map[]
  {
  }

  lemma SumOfNothing()
    ensures Sum<Conn>(map[]) == 0
  {
  }

  lemma Counted(m: map<Conn, nat>, live: multiset<Conn>, k: Conn)
    requires CountsOf(m, live) && k in live
    ensures k in m
  {
    assert CountOf(m, k) == live[k];
  }

  /** Why a connection of the class from the address is refused, if it is: the class is full, or else the address. */
  ghost function Refusal(w: World, allowlist: set<Ip>, class_: ClientClass, ip: Ip, limits: ConnLimits): Result<(), Rejection> {
    if OpenIn(w.live, class_) >= limits.global then Err(Global(limits.global))
    else if ip !in allowlist && w.live[(class_, ip)] >= limits.perIp then Err(PerIp(limits.perIp))
    else Ok(())
  }

  lemma RefusedByWhatIsOpen(t: Table, w: World, class_: ClientClass, ip: Ip, limits: ConnLimits)
    requires Describes(t, w)
    ensures WouldAdmit(t, class_, ip, limits) == Refusal(w, t.allowlist, class_, ip, limits)
  {
    hide OfClass, Sum, OpenIn;
    ClassCount(t.perIp, w.live, class_);
    assert CountOf(t.perClass, class_) == Sum(OfClass(t.perIp, class_));
    assert CountOf(t.perIp, (class_, ip)) == w.live[(class_, ip)];
  }

  /** Main result for the answers: while the tables describe what is open, each event is answered by what is open. */
  lemma AnsweredByWhatIsOpen(t: Table, w: World, e: Event)
    requires Describes(t, w)
    ensures Apply(t, e).1 ==
      match e
      case Admit(class_, ip, limits) => Refusal(w, t.allowlist, class_, ip, limits)
      case Reclassify(ip, source, target, limits) =>
        if source == target then Ok(()) else Refusal(w, t.allowlist, target, ip, limits)
      case Bind(class_, account, limits) =>
        if w.bound[(class_, account)] >= limits.perAccount then Err(PerAccount(limits.perAccount)) else Ok(())
      case _ => Ok(())
  {
    hide OpenIn, Refusal, WouldAdmit, Add, Released, ClassesAddUp, Sum;
    match e {
      case Admit(class_, ip, limits) => RefusedByWhatIsOpen(t, w, class_, ip, limits);
      case Reclassify(ip, _, target, limits) => RefusedByWhatIsOpen(t, w, target, ip, limits);
      case Bind(class_, account, _) => assert CountOf(t.perAccount, (class_, account)) == w.bound[(class_, account)];
      case _ =>
    }
  }

  // ---- Runs ----

  function Run(t: Table, es: seq<Event>): Table {
    if es == [] then t else Apply(Run(t, es[..|es| - 1]), es[|es| - 1]).0
  }

  ghost function WorldAfter(t: Table, w: World, es: seq<Event>): World {
    if es == [] then w else
    var most, last := es[..|es| - 1], es[|es| - 1];
    Moves(WorldAfter(t, w, most), last, Apply(Run(t, most), last).1)
  }

  /** Every event of the run is one the caller may send at that point. */
  ghost predicate AllProper(t: Table, w: World, es: seq<Event>) {
    es == [] ||
    var most := es[..|es| - 1];
    AllProper(t, w, most) && Proper(WorldAfter(t, w, most), es[|es| - 1])
  }

  /** Main result: over every proper run the tables describe what is open, and are empty when everything is closed. */
  lemma {:induction false} RunsDescribe(allowlist: set<Ip>, es: seq<Event>)
    requires AllProper(Empty(allowlist), World(multiset{}, multiset{}), es)
    ensures
      var t, w := Run(Empty(allowlist), es), WorldAfter(Empty(allowlist), World(multiset{}, multiset{}), es);
      && Describes(t, w)
      && (w == World(multiset{}, multiset{}) ==> t.perIp == map[] && t.perAccount == map[] && t.perClass == map[] && t.total == 0)
    decreases |es|
  {
    hide Describes, Apply, Moves, Proper;
    if es == [] {
      EmptyDescribes(allowlist);
    } else {
      var most, last := es[..|es| - 1], es[|es| - 1];
      RunsDescribe(allowlist, most);
      ApplyDescribesIff(Run(Empty(allowlist), most), WorldAfter(Empty(allowlist), World(multiset{}, multiset{}), most), last);
    }
    var t, w := Run(Empty(allowlist), es), WorldAfter(Empty(allowlist), World(multiset{}, multiset{}), es);
    if w == World(multiset{}, multiset{}) { NothingOpenNothingKept(t, w); }
  }

  const NOTHING := World(multiset{}, multiset{})

  /** What keeps the tables right: a proper event, or a move that changes nothing. */
  ghost predicate Harmless(t: Table, w: World, e: Event) {
    Proper(w, e) || (e.Reclassify? && (e.source == e.target || WouldAdmit(t, e.target, e.ip, e.limits).Err?))
  }

  ghost predicate DescribesAfter(allowlist: set<Ip>, es: seq<Event>) {
    Describes(Run(Empty(allowlist), es), WorldAfter(Empty(allowlist), NOTHING, es))
  }

  ghost predicate HarmlessAfter(allowlist: set<Ip>, es: seq<Event>, e: Event) {
    Harmless(Run(Empty(allowlist), es), WorldAfter(Empty(allowlist), NOTHING, es), e)
  }

  /** Main result over any run: the tables describe what is open at every moment exactly when every event was harmless. */
  lemma {:induction false} RunsDescribeIff(allowlist: set<Ip>, es: seq<Event>)
    ensures (forall i | 0 <= i <= |es| :: DescribesAfter(allowlist, es[..i]))
      <==> forall i | 0 <= i < |es| :: HarmlessAfter(allowlist, es[..i], es[i])
    decreases |es|
  {
    hide DescribesAfter, HarmlessAfter;
    assert es[..|es|] == es;
    if es == [] {
      NothingDescribed(allowlist);
    } else {
      var most := es[..|es| - 1];
      RunsDescribeIff(allowlist, most);
      assert forall i | 0 <= i <= |most| :: most[..i] == es[..i];
      assert most[..|most|] == most;
      if DescribesAfter(allowlist, most) { LastDescribesIff(allowlist, es); }
    }
  }

  lemma NothingDescribed(allowlist: set<Ip>)
    ensures DescribesAfter(allowlist, [])
  {
    hide Describes;
    EmptyDescribes(allowlist);
  }

  lemma LastDescribesIff(allowlist: set<Ip>, es: seq<Event>)
    requires es != [] && DescribesAfter(allowlist, es[..|es| - 1])
    ensures DescribesAfter(allowlist, es) <==> HarmlessAfter(allowlist, es[..|es| - 1], es[|es| - 1])
  {
    hide Describes, Apply, Moves, Proper, WouldAdmit;
    var most, last := es[..|es| - 1], es[|es| - 1];
    ApplyDescribesIff(Run(Empty(allowlist), most), WorldAfter(Empty(allowlist), NOTHING, most), last);
  }

  const ONE_EACH := ConnLimits(1, 1, 1)

  /** One connection is open and another address is released: the total says nothing is open. */
  lemma StrayReleaseUpsets()
    ensures exists es :: !Describes(Run(Empty({}), es), WorldAfter(Empty({}), NOTHING, es))
  {
    hide Describes, Apply, Moves;
    var e, f := Admit(Gateway, [1], ONE_EACH), Release(Gateway, [2]);
    assert [e, f][..1] == [e] && [e][..0] == [];
    var t := Apply(Empty({}), e).0;
    EmptyDescribes({});
    ApplyDescribesIff(Empty({}), NOTHING, e);
    OneOpen(e);
    var w := Moves(NOTHING, e, Ok(()));
    assert WorldAfter(Empty({}), NOTHING, [e]) == w;
    ApplyDescribesIff(t, w, f);
    assert !Describes(Run(Empty({}), [e, f]), WorldAfter(Empty({}), NOTHING, [e, f]));
  }

  lemma OneOpen(e: Event)
    requires e == Admit(Gateway, [1], ONE_EACH)
    ensures Apply(Empty({}), e).1 == Ok(()) && Moves(NOTHING, e, Ok(())).live == multiset{(Gateway, [1])}
    ensures !Proper(Moves(NOTHING, e, Ok(())), Release(Gateway, [2]))
  {
    assert [1 as byte][0] != [2 as byte][0];
    var live := Moves(NOTHING, e, Ok(())).live;
    assert (Gateway, [1]) in live;
  }

  const STRAY_MOVE := Reclassify([1], GamePending, Gateway, ONE_EACH)

  /** Nothing was ever admitted, a connection is moved all the same, and the total is one. */
  lemma StrayMoveUpsets()
    ensures Run(Empty({}), [STRAY_MOVE]).total == 1 && WorldAfter(Empty({}), NOTHING, [STRAY_MOVE]) == NOTHING
    ensures !DescribesAfter({}, [STRAY_MOVE]) && !HarmlessAfter({}, [], STRAY_MOVE)
  {
    assert [STRAY_MOVE][..0] == [];
    assert WorldAfter(Empty({}), NOTHING, []) == NOTHING && Run(Empty({}), []) == Empty({});
    assert Run(Empty({}), [STRAY_MOVE]) == Apply(Empty({}), STRAY_MOVE).0;
    assert Moves(NOTHING, STRAY_MOVE, Ok(())) == NOTHING;
  }

  // ---- Ceilings ----

  /** Every event comes with the limits configured for its class. */
  ghost predicate Configured(e: Event, limits: ClientClass -> ConnLimits) {
    match e
    case Admit(class_, _, l) => l == limits(class_)
    case Reclassify(_, _, target, l) => l == limits(target)
    case Bind(class_, _, l) => l == limits(class_)
    case _ => true
  }

  /** No count is above its ceiling; addresses on the allowlist have none. */
  ghost predicate WithinCeilings(t: Table, limits: ClientClass -> ConnLimits) {
    && (forall c | c in t.perClass :: t.perClass[c] <= limits(c).global)
    && (forall k | k in t.perIp :: k.1 !in t.allowlist ==> t.perIp[k] <= limits(k.0).perIp)
    && (forall k | k in t.perAccount :: t.perAccount[k] <= limits(k.0).perAccount)
  }

  /** With fixed limits no ceiling is ever exceeded, whatever is released or not released. */
  lemma {:induction false} CeilingsHold(allowlist: set<Ip>, es: seq<Event>, limits: ClientClass -> ConnLimits)
    requires forall i | 0 <= i < |es| :: Configured(es[i], limits)
    ensures WithinCeilings(Run(Empty(allowlist), es), limits) && Run(Empty(allowlist), es).allowlist == allowlist
    decreases |es|
  {
    hide WithinCeilings, Apply;
    if es == [] {
      assert WithinCeilings(Empty(allowlist), limits) by { EmptyIsWithin(allowlist, limits); }
    } else {
      var most, last := es[..|es| - 1], es[|es| - 1];
      CeilingsHold(allowlist, most, limits);
      assert Configured(last, limits);
      ApplyKeepsCeilings(Run(Empty(allowlist), most), last, limits);
    }
  }

  lemma EmptyIsWithin(allowlist: set<Ip>, limits: ClientClass -> ConnLimits)
    ensures WithinCeilings(Empty(allowlist), limits)
  {
  }

  lemma ReleaseKeepsCeilings(t: Table, class_: ClientClass, ip: Ip, limits: ClientClass -> ConnLimits)
    requires WithinCeilings(t, limits)
    ensures WithinCeilings(Released(t, class_, ip), limits)
  {
  }

  lemma AddKeepsCeilings(t: Table, class_: ClientClass, ip: Ip, limits: ClientClass -> ConnLimits)
    requires WithinCeilings(t, limits) && CountOf(t.perClass, class_) < limits(class_).global
    requires ip in t.allowlist || CountOf(t.perIp, (class_, ip)) < limits(class_).perIp
    ensures WithinCeilings(Add(t, class_, ip), limits)
  {
  }

  lemma ApplyKeepsCeilings(t: Table, e: Event, limits: ClientClass -> ConnLimits)
    requires WithinCeilings(t, limits) && Configured(e, limits)
    ensures WithinCeilings(Apply(t, e).0, limits) && Apply(t, e).0.allowlist == t.allowlist
  {
    hide WithinCeilings;
    match e {
      case Admit(class_, ip, l) => if WouldAdmit(t, class_, ip, l).Ok? { AddKeepsCeilings(t, class_, ip, limits); }
      case Release(class_, ip) => ReleaseKeepsCeilings(t, class_, ip, limits);
      case Reclassify(ip, source, target, l) =>
        if source != target && WouldAdmit(t, target, ip, l).Ok? {
          ReleaseKeepsCeilings(t, source, ip, limits);
          ReleaseLowers(t, source, ip, target);
          AddKeepsCeilings(Released(t, source, ip), target, ip, limits);
        }
      case Bind(class_, account, l) => AccountsKeepCeilings(t, (class_, account), limits);
      case ReleaseAccount(class_, account) => AccountsKeepCeilings(t, (class_, account), limits);
    }
  }

  lemma ReleaseLowers(t: Table, class_: ClientClass, ip: Ip, c: ClientClass)
    ensures
      var u := Released(t, class_, ip);
      && CountOf(u.perClass, c) <= CountOf(t.perClass, c)
      && CountOf(u.perIp, (c, ip)) <= CountOf(t.perIp, (c, ip))
      && u.allowlist == t.allowlist
  {
  }

  lemma AccountsKeepCeilings(t: Table, k: Binding, limits: ClientClass -> ConnLimits)
    requires WithinCeilings(t, limits)
    ensures CountOf(t.perAccount, k) < limits(k.0).perAccount ==>
      WithinCeilings(t.(perAccount := Bumped(t.perAccount, k)), limits)
    ensures WithinCeilings(t.(perAccount := Dropped(t.perAccount, k)), limits)
  {
  }

  // ---- The object ----

  class AdmissionTable {
    var perIp: map<Conn, nat>
    var perAccount: map<Binding, nat>
    var perClass: map<ClientClass, nat>
    var total: nat
    var allowlist: set<Ip>

    ghost function View(): Table
      reads this
    {
      Table(perIp, perAccount, perClass, total, allowlist)
    }

    constructor (allowlist: set<Ip>)
      ensures View() == Empty(allowlist)
    {
      perIp, perAccount, perClass, total := map[], map[], map[], 0;
      this.allowlist := allowlist;
    }

    method Insert(class_: ClientClass, ip: Ip)
      modifies `perIp, `perClass, `total
      ensures View() == Add(old(View()), class_, ip)
    {
      perIp := perIp[(class_, ip) := CountOf(perIp, (class_, ip)) + 1];
      perClass := perClass[class_ := CountOf(perClass, class_) + 1];
      total := total + 1;
    }

    method Release(class_: ClientClass, ip: Ip)
      modifies `perIp, `perClass, `total
      ensures View() == Released(old(View()), class_, ip)
    {
      if (class_, ip) in perIp {
        var n := perIp[(class_, ip)];
        if n <= 1 { perIp := perIp - {(class_, ip)}; } else { perIp := perIp[(class_, ip) := n - 1]; }
      }
      if class_ in perClass {
        var n := perClass[class_];
        if n <= 1 { perClass := perClass - {class_}; } else { perClass := perClass[class_ := n - 1]; }
      }
      if total > 0 { total := total - 1; }
    }

    method Admit(class_: ClientClass, ip: Ip, limits: ConnLimits) returns (r: Result<(), Rejection>)
      modifies `perIp, `perClass, `total
      ensures (View(), r) == Apply(old(View()), Event.Admit(class_, ip, limits))
    {
      hide Add;
      r := WouldAdmit(Table(perIp, perAccount, perClass, total, allowlist), class_, ip, limits);
      if r.Ok? { Insert(class_, ip); }
    }

    method Reclassify(ip: Ip, source: ClientClass, target: ClientClass, limits: ConnLimits) returns (r: Result<(), Rejection>)
      modifies `perIp, `perClass, `total
      ensures (View(), r) == Apply(old(View()), Event.Reclassify(ip, source, target, limits))
    {
      hide Add, Released;
      if source == target { return Ok(()); }
      r := WouldAdmit(Table(perIp, perAccount, perClass, total, allowlist), target, ip, limits);
      if r.Ok? {
        Release(source, ip);
        Insert(target, ip);
      }
    }

    method BindAccount(class_: ClientClass, account: AccountId, limits: ConnLimits) returns (r: Result<(), Rejection>)
      modifies `perAccount
      ensures (View(), r) == Apply(old(View()), Bind(class_, account, limits))
    {
      var n := CountOf(perAccount, (class_, account));
      if n >= limits.perAccount { return Err(PerAccount(limits.perAccount)); }
      perAccount := perAccount[(class_, account) := n + 1];
      r := Ok(());
    }

    method ReleaseAccount(class_: ClientClass, account: AccountId)
      modifies `perAccount
      ensures View() == Apply(old(View()), Event.ReleaseAccount(class_, account)).0
    {
      var k := (class_, account);
      if k in perAccount {
        var n := perAccount[k];
        if n <= 1 { perAccount := perAccount - {k}; } else { perAccount := perAccount[k := n - 1]; }
      }
    }
  }
}
