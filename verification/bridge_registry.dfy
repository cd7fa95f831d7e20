/** The people one bridge presents: names are given out and found again, and a rename keeps the account. */
module BridgeRegistries {
  import opened Bytes
  import opened Text
  import opened Bridges

  type AccountId = nat

  datatype BridgedUser = BridgedUser(account: AccountId, remoteId: Name, name: Name)

  datatype Registry = Registry(tag: Tag, byRemote: map<Name, BridgedUser>, byName: map<Name, Name>)

  datatype Upserted =
    | EmptyRemoteId
    | Added(user: BridgedUser)
    | Renamed(user: BridgedUser, previous: Name)
    | Unchanged(user: BridgedUser)

  // ---- Giving out names ----

  /** Nobody else holds the name. */
  predicate Free(byName: map<Name, Name>, name: Name, remoteId: Name) {
    Lower(name) in byName ==> byName[Lower(name)] == remoteId
  }

  /** The first free candidate from number `i` on; when there is none, a name made of the remote id, not checked. */
  function AllocateFrom(r: Registry, display: Name, remoteId: Name, i: nat): (name: Name)
    requires i >= 1
    ensures
      if exists k :: i <= k <= CANDIDATES && Free(r.byName, Candidate(r.tag, display, k), remoteId)
      then Free(r.byName, name, remoteId)
      else name == DeriveName(r.tag, remoteId, None)
    decreases CANDIDATES + 1 - i
  {
    if i > CANDIDATES then DeriveName(r.tag, remoteId, None)
    else if Free(r.byName, Candidate(r.tag, display, i), remoteId) then Candidate(r.tag, display, i)
    else AllocateFrom(r, display, remoteId, i + 1)
  }

  function Allocate(r: Registry, display: Name, remoteId: Name): Name {
    AllocateFrom(r, display, remoteId, 1)
  }

  function AfterUpsert(r: Registry, remoteId: Name, display: Name, account: AccountId): (Registry, Upserted) {
    if remoteId == [] then (r, EmptyRemoteId) else
    var name := Allocate(r, display, remoteId);
    if remoteId in r.byRemote then
      var prev := r.byRemote[remoteId];
      if prev.name == name then (r, Unchanged(prev)) else
      var user := BridgedUser(prev.account, remoteId, name);
      (Registry(r.tag, r.byRemote[remoteId := user], (r.byName - {Lower(prev.name)})[Lower(name) := remoteId]),
       Renamed(user, prev.name))
    else
      var user := BridgedUser(account, remoteId, name);
      (Registry(r.tag, r.byRemote[remoteId := user], r.byName[Lower(name) := remoteId]), Added(user))
  }

  function AfterRemove(r: Registry, remoteId: Name): (Registry, Option<BridgedUser>) {
    if remoteId !in r.byRemote then (r, None) else
    var user := r.byRemote[remoteId];
    (Registry(r.tag, r.byRemote - {remoteId}, r.byName - {Lower(user.name)}), Some(user))
  }

  /** Who answers to the name. */
  function ByName(r: Registry, name: Name): Option<BridgedUser> {
    if Lower(name) in r.byName && r.byName[Lower(name)] in r.byRemote
    then Some(r.byRemote[r.byName[Lower(name)]]) else None
  }

  // ---- The two maps are each other's inverse ----

  ghost predicate Inverse(r: Registry) {
    && (forall id | id in r.byRemote :: HoldsName(r, id))
    && (forall key | key in r.byName :: r.byName[key] in r.byRemote && Lower(r.byRemote[r.byName[key]].name) == key)
  }

  ghost predicate HoldsName(r: Registry, id: Name)
    requires id in r.byRemote
  {
    var user := r.byRemote[id];
    user.remoteId == id && Lower(user.name) in r.byName && r.byName[Lower(user.name)] == id
  }

  /** With the maps inverse, a name leads to a person exactly when it is that person's, up to case. */
  lemma ByNameFindsIff(r: Registry, name: Name, user: BridgedUser)
    requires Inverse(r)
    ensures ByName(r, name) == Some(user) <==>
      user.remoteId in r.byRemote && r.byRemote[user.remoteId] == user && Lower(user.name) == Lower(name)
  {
    hide Lower;
    if user.remoteId in r.byRemote {
      assert HoldsName(r, user.remoteId);
    }
    if ByName(r, name).Some? {
      assert HoldsName(r, r.byName[Lower(name)]);
    }
  }

  /** A caller can see this before announcing: some candidate is free, or else the name made of the remote id is. */
  predicate NameLeft(r: Registry, display: Name, remoteId: Name) {
    || (exists k :: 1 <= k <= CANDIDATES && Free(r.byName, Candidate(r.tag, display, k), remoteId))
    || Free(r.byName, DeriveName(r.tag, remoteId, None), remoteId)
  }

  lemma AllocatedIsFreeIff(r: Registry, display: Name, remoteId: Name)
    ensures Free(r.byName, Allocate(r, display, remoteId), remoteId) <==> NameLeft(r, display, remoteId)
  {
    hide Free, Candidate, DeriveName;
  }

  /** Main result for one announcement: the maps stay inverse exactly when there was a name left. */
  lemma UpsertKeepsInverseIff(r: Registry, remoteId: Name, display: Name, account: AccountId)
    requires Inverse(r) && remoteId != []
    ensures Inverse(AfterUpsert(r, remoteId, display, account).0) <==> NameLeft(r, display, remoteId)
  {
    hide Lower, Allocate, NameLeft;
    var name := Allocate(r, display, remoteId);
    var q := AfterUpsert(r, remoteId, display, account).0;
    AllocatedIsFreeIff(r, display, remoteId);
    if remoteId in r.byRemote { assert HoldsName(r, remoteId); }
    if !Free(r.byName, name, remoteId) {
      TakenNameBreaks(r, q, remoteId, name);
    } else {
      forall id | id in q.byRemote ensures HoldsName(q, id) {
        if id != remoteId { assert HoldsName(r, id); }
      }
    }
  }

  lemma TakenNameBreaks(r: Registry, q: Registry, remoteId: Name, name: Name)
    requires Inverse(r) && !Free(r.byName, name, remoteId)
    requires Lower(name) in q.byName && q.byName[Lower(name)] == remoteId
    requires forall id | id in r.byRemote && id != remoteId :: id in q.byRemote && q.byRemote[id] == r.byRemote[id]
    ensures !Inverse(q)
  {
    hide Lower;
    var holder := r.byName[Lower(name)];
    assert holder in q.byRemote && Lower(q.byRemote[holder].name) == Lower(name);
    assert Inverse(q) ==> HoldsName(q, holder);
  }

  lemma RemoveKeepsInverse(r: Registry, remoteId: Name)
    requires Inverse(r)
    ensures Inverse(AfterRemove(r, remoteId).0)
  {
    hide Lower;
    if remoteId in r.byRemote {
      assert HoldsName(r, remoteId);
      var q := AfterRemove(r, remoteId).0;
      forall id | id in q.byRemote ensures HoldsName(q, id) { assert HoldsName(r, id); }
    }
  }

  // ---- What an announcement and a withdrawal do ----

  /** The name is the first free candidate, or when none is free the one made of the remote id. */
  ghost predicate FirstFree(r: Registry, display: Name, remoteId: Name, name: Name) {
    || (exists k :: 1 <= k <= CANDIDATES && IsFirstFree(r, display, remoteId, k) && name == Candidate(r.tag, display, k))
    || ((forall k | 1 <= k <= CANDIDATES :: !Free(r.byName, Candidate(r.tag, display, k), remoteId))
        && name == DeriveName(r.tag, remoteId, None))
  }

  ghost predicate IsFirstFree(r: Registry, display: Name, remoteId: Name, k: nat)
    requires 1 <= k <= CANDIDATES
  {
    && Free(r.byName, Candidate(r.tag, display, k), remoteId)
    && forall j | 1 <= j < k :: !Free(r.byName, Candidate(r.tag, display, j), remoteId)
  }

  lemma {:induction false} AllocatesFirst(r: Registry, display: Name, remoteId: Name, i: nat)
    requires 1 <= i <= CANDIDATES + 1
    requires forall j | 1 <= j < i :: !Free(r.byName, Candidate(r.tag, display, j), remoteId)
    ensures FirstFree(r, display, remoteId, AllocateFrom(r, display, remoteId, i))
    decreases CANDIDATES + 1 - i
  {
    hide Free, Candidate, DeriveName, FirstFree;
    if i > CANDIDATES {
      NoneIsFree(r, display, remoteId);
    } else if Free(r.byName, Candidate(r.tag, display, i), remoteId) {
      FirstIsFree(r, display, remoteId, i);
    } else {
      AllocatesFirst(r, display, remoteId, i + 1);
    }
  }

  lemma FirstIsFree(r: Registry, display: Name, remoteId: Name, i: nat)
    requires 1 <= i <= CANDIDATES && IsFirstFree(r, display, remoteId, i)
    ensures FirstFree(r, display, remoteId, Candidate(r.tag, display, i))
  {
    hide Free, Candidate, DeriveName, IsFirstFree;
  }

  lemma NoneIsFree(r: Registry, display: Name, remoteId: Name)
    requires forall j | 1 <= j <= CANDIDATES :: !Free(r.byName, Candidate(r.tag, display, j), remoteId)
    ensures FirstFree(r, display, remoteId, DeriveName(r.tag, remoteId, None))
  {
    hide Free, Candidate, DeriveName, IsFirstFree;
  }

  /**
   Main result for an announcement: the person has the first free name and the account of the first announcement, is
   found under that name and no longer under the old one, and nobody else is touched.
   */
  lemma AnnouncedIsPresented(r: Registry, remoteId: Name, display: Name, account: AccountId, other: Name)
    requires Inverse(r) && remoteId != [] && NameLeft(r, display, remoteId)
    ensures
      var (q, out) := AfterUpsert(r, remoteId, display, account);
      && q.byRemote.Keys == r.byRemote.Keys + {remoteId}
      && (forall id | id in r.byRemote && id != remoteId :: q.byRemote[id] == r.byRemote[id])
      && var user := q.byRemote[remoteId];
      && FirstFree(r, display, remoteId, user.name) && user.remoteId == remoteId
      && user.account == (if remoteId in r.byRemote then r.byRemote[remoteId].account else account)
      && out == (if remoteId !in r.byRemote then Added(user)
                 else if user == r.byRemote[remoteId] then Unchanged(user)
                 else Renamed(user, r.byRemote[remoteId].name))
      && ByName(q, other) == (if Lower(other) == Lower(user.name) then Some(user)
                              else if remoteId in r.byRemote && ByName(r, other) == Some(r.byRemote[remoteId]) then None
                              else ByName(r, other))
  {
    hide Lower, Allocate, FirstFree, NameLeft;
    var name := Allocate(r, display, remoteId);
    assert FirstFree(r, display, remoteId, name) by { AllocatesFirst(r, display, remoteId, 1); AllocateIs(r, display, remoteId); }
    AllocatedIsFreeIff(r, display, remoteId);
    if remoteId in r.byRemote { assert HoldsName(r, remoteId); }
    if Lower(other) in r.byName { assert HoldsName(r, r.byName[Lower(other)]); }
  }

  lemma AllocateIs(r: Registry, display: Name, remoteId: Name)
    ensures Allocate(r, display, remoteId) == AllocateFrom(r, display, remoteId, 1)
  {
  }

  /** And for a withdrawal: the person is gone and the name free to anybody, and nobody else is touched. */
  lemma WithdrawnIsGone(r: Registry, remoteId: Name, other: Name, anybody: Name)
    requires Inverse(r)
    ensures
      var (q, out) := AfterRemove(r, remoteId);
      && q.byRemote == r.byRemote - {remoteId}
      && out == (if remoteId in r.byRemote then Some(r.byRemote[remoteId]) else None)
      && ByName(q, other) == (if remoteId in r.byRemote && ByName(r, other) == Some(r.byRemote[remoteId]) then None else ByName(r, other))
      && (out.Some? ==> ByName(q, out.value.name) == None && Free(q.byName, out.value.name, anybody))
  {
    hide Lower;
    if remoteId in r.byRemote {
      assert HoldsName(r, remoteId);
    } else {
      assert r.byRemote - {remoteId} == r.byRemote;
    }
    if Lower(other) in r.byName { assert HoldsName(r, r.byName[Lower(other)]); }
  }

  // ---- Ninety-eight others cannot take ninety-nine names ----

  /** The holders of the first `n` candidates. */
  ghost function Holders(r: Registry, display: Name, n: nat): set<Name>
    requires n <= CANDIDATES
    requires forall k | 1 <= k <= n :: Lower(Candidate(r.tag, display, k)) in r.byName
  {
    set k | 1 <= k <= n :: r.byName[Lower(Candidate(r.tag, display, k))]
  }

  lemma {:induction false} HoldersAreMany(r: Registry, display: Name, remoteId: Name, n: nat)
    requires Inverse(r) && n <= CANDIDATES
    requires forall k | 1 <= k <= n ::
      Lower(Candidate(r.tag, display, k)) in r.byName && r.byName[Lower(Candidate(r.tag, display, k))] != remoteId
    ensures |Holders(r, display, n)| == n && Holders(r, display, n) <= r.byRemote.Keys - {remoteId}
    decreases n
  {
    hide Lower, Candidate;
    if n > 0 {
      HoldersAreMany(r, display, remoteId, n - 1);
      var before := Holders(r, display, n - 1);
      var last := r.byName[Lower(Candidate(r.tag, display, n))];
      forall k | 1 <= k <= n - 1 ensures r.byName[Lower(Candidate(r.tag, display, k))] != last {
        CandidatesDiffer(r.tag, display, k, n);
      }
      assert last !in before;
      assert Holders(r, display, n) == before + {last};
    } else {
      assert Holders(r, display, 0) == {};
    }
  }

  lemma SubsetIsNoLarger(a: set<Name>, b: set<Name>)
    requires a <= b
    ensures |a| <= |b|
  {
    assert b == a + (b - a);
  }

  /** Main result: with at most 98 other people presented, one of the candidates is free. */
  lemma FewPeopleLeaveNames(r: Registry, display: Name, remoteId: Name)
    requires Inverse(r) && |r.byRemote.Keys - {remoteId}| < CANDIDATES
    ensures NameLeft(r, display, remoteId)
  {
    hide Free, Candidate, Inverse;
    if forall k | 1 <= k <= CANDIDATES :: !Free(r.byName, Candidate(r.tag, display, k), remoteId) {
      AllTaken(r, display, remoteId);
    }
  }

  lemma AllTaken(r: Registry, display: Name, remoteId: Name)
    requires Inverse(r)
    requires forall k | 1 <= k <= CANDIDATES :: !Free(r.byName, Candidate(r.tag, display, k), remoteId)
    ensures |r.byRemote.Keys - {remoteId}| >= CANDIDATES
  {
    HoldersAreMany(r, display, remoteId, CANDIDATES);
    SubsetIsNoLarger(Holders(r, display, CANDIDATES), r.byRemote.Keys - {remoteId});
  }

  // ---- Runs ----

  datatype Op = Announce(remoteId: Name, display: Name, account: AccountId) | Withdraw(remoteId: Name)

  function Apply(r: Registry, op: Op): Registry {
    match op
    case Announce(remoteId, display, account) => AfterUpsert(r, remoteId, display, account).0
    case Withdraw(remoteId) => AfterRemove(r, remoteId).0
  }

  function Run(r: Registry, ops: seq<Op>): Registry {
    if ops == [] then r else Apply(Run(r, ops[..|ops| - 1]), ops[|ops| - 1])
  }

  function Empty(tag: Tag): Registry {
    Registry(tag, map[], map[])
  }

  predicate Safe(r: Registry, op: Op) {
    op.Announce? && op.remoteId != [] ==> NameLeft(r, op.display, op.remoteId)
  }

  lemma ApplyKeepsInverseIff(r: Registry, op: Op)
    requires Inverse(r)
    ensures Inverse(Apply(r, op)) <==> Safe(r, op)
  {
    hide Inverse, NameLeft, Allocate;
    match op {
      case Withdraw(remoteId) => RemoveKeepsInverse(r, remoteId);
      case Announce(remoteId, display, account) =>
        if remoteId != [] { UpsertKeepsInverseIff(r, remoteId, display, account); }
    }
  }

  /** Main result over runs: the maps are inverse at every moment exactly when every announcement found a name left. */
  lemma {:induction false} RunsKeepInverseIff(tag: Tag, ops: seq<Op>)
    ensures
      (forall i | 0 <= i <= |ops| :: Inverse(Run(Empty(tag), ops[..i])))
      <==> forall i | 0 <= i < |ops| :: Safe(Run(Empty(tag), ops[..i]), ops[i])
    decreases |ops|
  {
    hide Apply, Safe, Inverse, Run;
    var e := Empty(tag);
    assert ops[..|ops|] == ops;
    if ops == [] {
      EmptyIsInverse(tag);
    } else {
      var most, last := ops[..|ops| - 1], ops[|ops| - 1];
      RunsKeepInverseIff(tag, most);
      assert forall i | 0 <= i <= |most| :: most[..i] == ops[..i];
      assert most[..|most|] == most;
      RunByStep(e, ops);
      if Inverse(Run(e, most)) { ApplyKeepsInverseIff(Run(e, most), last); }
    }
  }

  lemma EmptyIsInverse(tag: Tag)
    ensures Run(Empty(tag), []) == Empty(tag) && Inverse(Empty(tag))
  {
  }

  lemma RunByStep(r: Registry, ops: seq<Op>)
    requires ops != []
    ensures Run(r, ops) == Apply(Run(r, ops[..|ops| - 1]), ops[|ops| - 1])
  {
  }

  /** So they are over every run in which an announcement never meets more than 98 other people. */
  lemma {:induction false} SmallBridgesStayInverse(tag: Tag, ops: seq<Op>)
    requires forall i | 0 <= i < |ops| ::
      ops[i].Announce? ==> |Run(Empty(tag), ops[..i]).byRemote.Keys - {ops[i].remoteId}| < CANDIDATES
    ensures Inverse(Run(Empty(tag), ops))
    decreases |ops|
  {
    hide Apply, NameLeft, Inverse, Run;
    var e := Empty(tag);
    if ops == [] {
      EmptyIsInverse(tag);
    } else {
      var most, last := ops[..|ops| - 1], ops[|ops| - 1];
      assert forall i | 0 <= i <= |most| :: most[..i] == ops[..i];
      SmallBridgesStayInverse(tag, most);
      RunByStep(e, ops);
      if last.Announce? { FewPeopleLeaveNames(Run(e, most), last.display, last.remoteId); }
      ApplyKeepsInverseIff(Run(e, most), last);
    }
  }

  /** Once presented, a person keeps the first account through any number of announcements, until withdrawn. */
  lemma {:induction false} AccountIsKept(r: Registry, ops: seq<Op>, remoteId: Name)
    requires remoteId in r.byRemote && Withdraw(remoteId) !in ops
    ensures
      var q := Run(r, ops);
      remoteId in q.byRemote && q.byRemote[remoteId].account == r.byRemote[remoteId].account
    decreases |ops|
  {
    hide Allocate, Lower;
    if ops != [] {
      AccountIsKept(r, ops[..|ops| - 1], remoteId);
      assert ops[|ops| - 1] in ops;
    }
  }

  // ---- The fallback name can be somebody's ----

  /** "D", "a" and "u" */
  const D: Tag := [68]
  const A: Name := [97]
  const U: Name := [117]

  /** People 1 to `n`, all of whom call themselves "a". */
  function Crowd(n: nat): seq<Op>
    requires n <= CANDIDATES
  {
    if n == 0 then [] else Crowd(n - 1) + [Announce(Decimal(n), A, n)]
  }

  ghost predicate SaysA(key: Name) {
    |key| >= 3 && key[2] == 97
  }

  /** The first `n` candidates are the first `n` people's; the other candidates and people are still to come. */
  ghost predicate Taken(r: Registry, n: nat)
    requires n <= CANDIDATES
  {
    && r.tag == D
    && Inverse(r)
    && (forall k | 1 <= k <= n :: Lower(Candidate(D, A, k)) in r.byName && r.byName[Lower(Candidate(D, A, k))] == Decimal(k))
    && (forall k | n < k <= CANDIDATES :: Lower(Candidate(D, A, k)) !in r.byName && Decimal(k) !in r.byRemote)
    && (forall key | key in r.byName :: SaysA(key))
    && (forall id | id in r.byRemote :: id != [] && IsDigit(id[0]))
  }

  lemma {:induction false} CrowdTakesNames(n: nat)
    requires n <= CANDIDATES
    ensures Taken(Run(Empty(D), Crowd(n)), n)
    decreases n
  {
    hide Lower, Candidate, Run, DeriveName, AfterUpsert;
    if n == 0 {
      EmptyIsInverse(D);
    } else {
      CrowdTakesNames(n - 1);
      var r := Run(Empty(D), Crowd(n - 1));
      RunByStep(Empty(D), Crowd(n));
      assert Crowd(n)[..|Crowd(n)| - 1] == Crowd(n - 1);
      NextName(r, n);
    }
  }

  lemma NextName(r: Registry, n: nat)
    requires 1 <= n <= CANDIDATES && Taken(r, n - 1)
    ensures Taken(AfterUpsert(r, Decimal(n), A, n).0, n)
  {
    hide Lower, Candidate, DeriveName, Inverse, AfterUpsert, Taken, Free;
    var name, id := Candidate(D, A, n), Decimal(n);
    IsNew(r, n);
    SkipsTaken(r, id, n, 1);
    UpsertKeepsInverseIff(r, id, A, n);
    assert Free(r.byName, name, id) by { NewIsFree(r.byName, name, id); }
    NewPerson(r, id, A, n);
    TakenGrows(r, AfterUpsert(r, id, A, n).0, n);
  }

  lemma NewIsFree(byName: map<Name, Name>, name: Name, id: Name)
    requires Lower(name) !in byName
    ensures Free(byName, name, id)
  {
  }

  lemma IsNew(r: Registry, n: nat)
    requires 1 <= n <= CANDIDATES && Taken(r, n - 1)
    ensures r.tag == D && Inverse(r) && Lower(Candidate(D, A, n)) !in r.byName && Decimal(n) !in r.byRemote
    ensures forall k | 1 <= k < n :: !Free(r.byName, Candidate(D, A, k), Decimal(n))
  {
    hide Lower, Candidate, Inverse;
    forall k | 1 <= k < n ensures Decimal(k) != Decimal(n) {
      DecimalIsRead(k);
      DecimalIsRead(n);
    }
  }

  lemma NewPerson(r: Registry, id: Name, display: Name, account: AccountId)
    requires id != [] && id !in r.byRemote
    ensures
      var q, name := AfterUpsert(r, id, display, account).0, Allocate(r, display, id);
      q == Registry(r.tag, r.byRemote[id := BridgedUser(account, id, name)], r.byName[Lower(name) := id])
  {
  }

  lemma TakenGrows(r: Registry, q: Registry, n: nat)
    requires 1 <= n <= CANDIDATES && Taken(r, n - 1) && Inverse(q) && q.tag == D
    requires q.byName == r.byName[Lower(Candidate(D, A, n)) := Decimal(n)]
    requires q.byRemote.Keys == r.byRemote.Keys + {Decimal(n)}
    ensures Taken(q, n)
  {
    hide Lower, Candidate, Inverse, SaysA, Decimal, Value;
    forall k | 1 <= k <= CANDIDATES && k != n
      ensures Lower(Candidate(D, A, k)) != Lower(Candidate(D, A, n)) && Decimal(k) != Decimal(n)
    {
      if k < n { CandidatesDiffer(D, A, k, n); } else { CandidatesDiffer(D, A, n, k); }
      DecimalIsRead(k);
      DecimalIsRead(n);
    }
    assert SaysA(Lower(Candidate(D, A, n))) by { NamesOfAAndU(n); }
    forall id | id in q.byRemote ensures id != [] && IsDigit(id[0]) {
      assert id in r.byRemote.Keys || id == Decimal(n);
    }
  }

  lemma {:induction false} SkipsTaken(r: Registry, id: Name, n: nat, i: nat)
    requires 1 <= i <= n <= CANDIDATES && r.tag == D
    requires forall k | i <= k < n :: !Free(r.byName, Candidate(D, A, k), id)
    requires Lower(Candidate(D, A, n)) !in r.byName
    ensures AllocateFrom(r, A, id, i) == Candidate(D, A, n)
    decreases n - i
  {
    hide Lower, Candidate;
    if i < n { SkipsTaken(r, id, n, i + 1); }
  }

  /** What "a" and "u" become. */
  lemma NamesOfAAndU(k: nat)
    requires 1 <= k <= CANDIDATES
    ensures SaysA(Lower(Candidate(D, A, k))) && !SaysA(Lower(Candidate(D, U, 1)))
  {
    var n: Option<u32> := if k == 1 then None else Some(k as u32);
    SuffixLength(n);
    assert Filtered(A) == A && Filtered(U) == U by { assert A[1..] == [] && U[1..] == []; }
    assert Stem(D, A, Suffix(n)) == A && Stem(D, U, Suffix(None)) == U;
    DerivedAt(D, A, n, 2);
    DerivedAt(D, U, None, 2);
  }

  /** Ninety-nine people called "a", one called "u", and then one whose remote id is "u": two people, one name. */
  lemma FallbackCanClash()
    ensures exists ops :: !Inverse(Run(Empty(D), ops))
  {
    hide Lower, Candidate, DeriveName, Inverse, AfterUpsert, Run, NameLeft, Free, Crowd;
    var crowd, x: Name := Crowd(CANDIDATES), [120];
    var r := Run(Empty(D), crowd);
    CrowdTakesNames(CANDIDATES);
    var ops1 := crowd + [Announce(x, U, 100)];
    var ops2 := ops1 + [Announce(U, A, 101)];
    RunByStep(Empty(D), ops1);
    RunByStep(Empty(D), ops2);
    assert ops1[..|ops1| - 1] == crowd && ops2[..|ops2| - 1] == ops1;
    var q := AfterUpsert(r, x, U, 100).0;
    UTakesItsName(r, x);
    NothingLeft(r, q, x);
    UpsertKeepsInverseIff(q, U, A, 101);
  }

  lemma UTakesItsName(r: Registry, x: Name)
    requires Taken(r, CANDIDATES) && x == [120]
    ensures
      var q := AfterUpsert(r, x, U, 100).0;
      Inverse(q) && q.tag == D && q.byName == r.byName[Lower(Candidate(D, U, 1)) := x]
  {
    hide Lower, Candidate, DeriveName, Inverse, AfterUpsert, NameLeft;
    assert !SaysA(Lower(Candidate(D, U, 1))) by { NamesOfAAndU(1); }
    NewIsFree(r.byName, Candidate(D, U, 1), x);
    assert Allocate(r, U, x) == Candidate(D, U, 1);
    assert x !in r.byRemote by { assert !IsDigit(x[0]); }
    AllocatedIsFreeIff(r, U, x);
    UpsertKeepsInverseIff(r, x, U, 100);
    NewPerson(r, x, U, 100);
  }

  lemma NothingLeft(r: Registry, q: Registry, x: Name)
    requires Taken(r, CANDIDATES) && x == [120] && q.tag == D
    requires q.byName == r.byName[Lower(Candidate(D, U, 1)) := x]
    ensures !NameLeft(q, A, U)
  {
    hide Lower, DeriveName, Inverse;
    forall k | 1 <= k <= CANDIDATES ensures !Free(q.byName, Candidate(D, A, k), U) {
      NamesOfAAndU(k);
      assert IsDigit(Decimal(k)[0]) && !IsDigit(U[0]);
    }
  }

  // ---- The object ----

  class BridgeRegistry {
    const tag: Tag
    var byRemote: map<Name, BridgedUser>
    var byName: map<Name, Name>

    ghost function View(): Registry
      reads this
    {
      Registry(tag, byRemote, byName)
    }

    constructor (tag: Tag)
      ensures View() == Empty(tag) && Inverse(View())
    {
      this.tag, byRemote, byName := tag, map[], map[];
    }

    method AllocateName(display: Name, remoteId: Name) returns (name: Name)
      ensures name == Allocate(View(), display, remoteId)
    {
      hide Candidate, DeriveName, Free;
      name := Candidate(tag, display, 1);
      if Free(byName, name, remoteId) { return; }
      var n := 2;
      while n <= CANDIDATES
        invariant 2 <= n <= CANDIDATES + 1
        invariant Allocate(View(), display, remoteId) == AllocateFrom(View(), display, remoteId, n)
      {
        name := Candidate(tag, display, n);
        if Free(byName, name, remoteId) { return; }
        n := n + 1;
      }
      name := DeriveName(tag, remoteId, None);
    }

    method Upsert(remoteId: Name, display: Name, account: AccountId) returns (out: Upserted)
      modifies this
      ensures (View(), out) == AfterUpsert(old(View()), remoteId, display, account)
    {
      hide Allocate, Lower;
      if remoteId == [] { return EmptyRemoteId; }
      var name := AllocateName(display, remoteId);
      if remoteId in byRemote {
        var prev := byRemote[remoteId];
        if prev.name == name { return Unchanged(prev); }
        byName := byName - {Lower(prev.name)};
        var user := BridgedUser(prev.account, remoteId, name);
        byName := byName[Lower(name) := remoteId];
        byRemote := byRemote[remoteId := user];
        return Renamed(user, prev.name);
      }
      var user := BridgedUser(account, remoteId, name);
      byName := byName[Lower(name) := remoteId];
      byRemote := byRemote[remoteId := user];
      out := Added(user);
    }

    method Remove(remoteId: Name) returns (user: Option<BridgedUser>)
      modifies this
      ensures (View(), user) == AfterRemove(old(View()), remoteId)
    {
      hide Lower;
      if remoteId !in byRemote { return None; }
      user := Some(byRemote[remoteId]);
      byRemote := byRemote - {remoteId};
      byName := byName - {Lower(user.value.name)};
    }
  }
}

/** Where a relayed message came from: no bridge twice, and never more than three. */
module OriginChains {
  import opened Bridges

  predicate MayDeliverTo<T(==)>(hops: seq<T>, tag: T) {
    |hops| < MAX_HOPS && tag !in hops
  }

  /** The bridges a message crosses when each of `tags` in turn tries to take it on. */
  function Relayed<T(==)>(hops: seq<T>, tags: seq<T>): seq<T>
    decreases |tags|
  {
    if tags == [] then hops
    else Relayed(if MayDeliverTo(hops, tags[0]) then hops + [tags[0]] else hops, tags[1..])
  }

  ghost predicate NoLoop<T>(hops: seq<T>) {
    |hops| <= MAX_HOPS && forall i, j | 0 <= i < j < |hops| :: hops[i] != hops[j]
  }

  /** However often bridges offer to relay, a message enters each at most once and at most three in all. */
  lemma {:induction false} RelayNeverLoops<T(!new)>(hops: seq<T>, tags: seq<T>)
    requires NoLoop(hops)
    ensures NoLoop(Relayed(hops, tags)) && hops <= Relayed(hops, tags)
    ensures |Relayed(hops, tags)| < MAX_HOPS ==> forall t | t in tags :: t in Relayed(hops, tags)
    decreases |tags|
  {
    if tags != [] {
      var next := if MayDeliverTo(hops, tags[0]) then hops + [tags[0]] else hops;
      RelayNeverLoops(next, tags[1..]);
      assert |next| < MAX_HOPS ==> tags[0] in next;
      assert forall t | t in tags :: t == tags[0] || t in tags[1..];
      PrefixHolds(next, Relayed(hops, tags));
    }
  }

  lemma PrefixHolds<T(!new)>(a: seq<T>, b: seq<T>)
    requires a <= b
    ensures forall t | t in a :: t in b
  {
  }

  class OriginChain {
    var hops: seq<Tag>

    ghost predicate Valid()
      reads this
    {
      NoLoop(hops)
    }

    /** A message that starts here, or entered through the one bridge given. */
    constructor (first: seq<Tag>)
      requires |first| <= 1
      ensures Valid() && hops == first
    {
      hops := first;
    }

    method Push(tag: Tag) returns (accepted: bool)
      requires Valid()
      modifies this
      ensures Valid() && accepted == MayDeliverTo(old(hops), tag)
      ensures hops == Relayed(old(hops), [tag])
    {
      accepted := MayDeliverTo(hops, tag);
      if accepted { hops := hops + [tag]; }
    }
  }
}
