/** CD keys (`limits.rs`): one live session a key, and a pause after each release. */
module Keys {
  import opened Bytes

  type KeyId = seq<byte>
  type AccountId = nat

  datatype Released = Released(holder: AccountId, at: nat)

  datatype Registry = Registry(
    active: map<KeyId, AccountId>,
    cooling: map<KeyId, Released>,
    banned: set<KeyId>,
    cooldownMs: nat)

  datatype Verdict = Granted | InUse(holder: AccountId) | Banned

  datatype Op =
    | Ban(key: KeyId)
    | Unban(key: KeyId)
    | Claim(key: KeyId, account: AccountId, nowMs: nat)
    | Release(key: KeyId, nowMs: nat)

  datatype Answer = Done | Lifted(was: bool) | Answered(verdict: Verdict)

  function Empty(cooldownMs: nat): Registry {
    Registry(map[], map[], {}, cooldownMs)
  }

  function Ago(nowMs: nat, at: nat): nat {
    if nowMs > at then nowMs - at else 0
  }

  /** The entries that are still within their pause. */
  function Fresh(cooling: map<KeyId, Released>, nowMs: nat, cooldownMs: nat): map<KeyId, Released> {
    map k | k in cooling && Ago(nowMs, cooling[k].at) < cooldownMs :: cooling[k]
  }

  function Claimed(r: Registry, key: KeyId, account: AccountId, nowMs: nat): (Registry, Verdict) {
    if key in r.banned then (r, Banned)
    else if key in r.active then (r, InUse(r.active[key]))
    else
      var kept := Fresh(r.cooling, nowMs, r.cooldownMs);
      if key in kept then (r.(cooling := kept), InUse(kept[key].holder))
      else (r.(cooling := kept, active := r.active[key := account]), Granted)
  }

  function ReleasedKey(r: Registry, key: KeyId, nowMs: nat): Registry {
    if key in r.active
    then r.(active := r.active - {key}, cooling := r.cooling[key := Released(r.active[key], nowMs)])
    else r
  }

  function Step(r: Registry, op: Op): (Registry, Answer) {
    match op
    case Ban(key) => (r.(banned := r.banned + {key}, active := r.active - {key}), Done)
    case Unban(key) => (r.(banned := r.banned - {key}), Lifted(key in r.banned))
    case Claim(key, account, nowMs) =>
      var (q, v) := Claimed(r, key, account, nowMs);
      (q, Answered(v))
    case Release(key, nowMs) => (ReleasedKey(r, key, nowMs), Done)
  }

  // ---- The registry that never forgets a release ----

  function ClaimedByMemory(r: Registry, key: KeyId, account: AccountId, nowMs: nat): (Registry, Verdict) {
    if key in r.banned then (r, Banned)
    else if key in r.active then (r, InUse(r.active[key]))
    else if key in r.cooling && Ago(nowMs, r.cooling[key].at) < r.cooldownMs then (r, InUse(r.cooling[key].holder))
    else (r.(active := r.active[key := account]), Granted)
  }

  function MemoryStep(r: Registry, op: Op): (Registry, Answer) {
    match op
    case Claim(key, account, nowMs) =>
      var (q, v) := ClaimedByMemory(r, key, account, nowMs);
      (q, Answered(v))
    case _ => Step(r, op)
  }

  /** The time of an operation, if it has one. */
  function TimeOf(op: Op, t: nat): nat {
    match op case Claim(_, _, nowMs) => nowMs case Release(_, nowMs) => nowMs case _ => t
  }

  /** At time `t` the forgetful registry has forgotten nothing that still counts. */
  ghost predicate Agrees(r: Registry, m: Registry, t: nat) {
    && r.active == m.active && r.banned == m.banned && r.cooldownMs == m.cooldownMs
    && (forall k | k in r.cooling :: k in m.cooling && r.cooling[k] == m.cooling[k])
    && (forall k | k in m.cooling :: k !in r.cooling ==> Ago(t, m.cooling[k].at) >= m.cooldownMs)
  }

  lemma AgoGrows(t: nat, u: nat, at: nat)
    requires t <= u
    ensures Ago(t, at) <= Ago(u, at)
  {
  }

  lemma AgreesLater(r: Registry, m: Registry, t: nat, u: nat)
    requires Agrees(r, m, t) && t <= u
    ensures Agrees(r, m, u)
  {
    forall k | k in m.cooling && k !in r.cooling ensures Ago(u, m.cooling[k].at) >= m.cooldownMs {
      AgoGrows(t, u, m.cooling[k].at);
    }
  }

  /** One step of both, no earlier than the last: the same answer, and agreement again. */
  lemma StepsAgree(r: Registry, m: Registry, t: nat, op: Op)
    requires Agrees(r, m, t) && t <= TimeOf(op, t)
    ensures Step(r, op).1 == MemoryStep(m, op).1
    ensures Agrees(Step(r, op).0, MemoryStep(m, op).0, TimeOf(op, t))
  {
    AgreesLater(r, m, t, TimeOf(op, t));
  }

  // ---- Runs ----

  function Run(r: Registry, ops: seq<Op>): Registry {
    if ops == [] then r else Step(Run(r, ops[..|ops| - 1]), ops[|ops| - 1]).0
  }

  function Answers(r: Registry, ops: seq<Op>): seq<Answer> {
    if ops == [] then []
    else Answers(r, ops[..|ops| - 1]) + [Step(Run(r, ops[..|ops| - 1]), ops[|ops| - 1]).1]
  }

  function MemoryRun(r: Registry, ops: seq<Op>): Registry {
    if ops == [] then r else MemoryStep(MemoryRun(r, ops[..|ops| - 1]), ops[|ops| - 1]).0
  }

  function MemoryAnswers(r: Registry, ops: seq<Op>): seq<Answer> {
    if ops == [] then []
    else MemoryAnswers(r, ops[..|ops| - 1]) + [MemoryStep(MemoryRun(r, ops[..|ops| - 1]), ops[|ops| - 1]).1]
  }

  /** The time reached after the operations, and whether the clock never went back. */
  function Clock(ops: seq<Op>): nat {
    if ops == [] then 0 else TimeOf(ops[|ops| - 1], Clock(ops[..|ops| - 1]))
  }

  predicate ClockRuns(ops: seq<Op>) {
    ops == [] || (ClockRuns(ops[..|ops| - 1]) && Clock(ops[..|ops| - 1]) <= Clock(ops))
  }

  /** Main result: while the clock does not go back, forgetting expired releases never shows in an answer. */
  lemma {:induction false} ForgettingIsInvisible(cooldownMs: nat, ops: seq<Op>)
    requires ClockRuns(ops)
    ensures Answers(Empty(cooldownMs), ops) == MemoryAnswers(Empty(cooldownMs), ops)
    ensures Agrees(Run(Empty(cooldownMs), ops), MemoryRun(Empty(cooldownMs), ops), Clock(ops))
    decreases |ops|
  {
    hide Step, MemoryStep, Agrees;
    var e := Empty(cooldownMs);
    if ops == [] {
      assert Agrees(e, e, 0) by { SameAgrees(e); }
    } else {
      var most, last := ops[..|ops| - 1], ops[|ops| - 1];
      ForgettingIsInvisible(cooldownMs, most);
      StepsAgree(Run(e, most), MemoryRun(e, most), Clock(most), last);
    }
  }

  lemma SameAgrees(r: Registry)
    ensures Agrees(r, r, 0)
  {
  }

  const K: KeyId := [1]
  const J: KeyId := [2]
  /** Key K released at 0, key J claimed at 1000, and then K again at 100. */
  const BACKWARDS: seq<Op> := [Claim(K, 1, 0), Release(K, 0), Claim(J, 2, 1000), Claim(K, 3, 100)]

  /** On a clock that went back the two can differ: the purge of a later claim has forgotten the release. */
  lemma ForgettingCanShow()
    ensures !ClockRuns(BACKWARDS) && Answers(Empty(500), BACKWARDS) != MemoryAnswers(Empty(500), BACKWARDS)
  {
    hide Step, MemoryStep, Run, MemoryRun, Answers, MemoryAnswers;
    var ops := BACKWARDS;
    assert ops[..3] == [Claim(K, 1, 0), Release(K, 0), Claim(J, 2, 1000)];
    LazyForgets();
    MemoryRemembers();
    LastAnswer(Empty(500), ops);
    assert Clock(ops) == 100 && Clock(ops[..3]) == 1000;
  }

  lemma LazyForgets()
    ensures Step(Run(Empty(500), [Claim(K, 1, 0), Release(K, 0), Claim(J, 2, 1000)]), Claim(K, 3, 100)).1 == Answered(Granted)
  {
    var e := Empty(500);
    var o1, o2, o3 := Claim(K, 1, 0), Release(K, 0), Claim(J, 2, 1000);
    assert [o1, o2, o3][..2] == [o1, o2] && [o1, o2][..1] == [o1] && [o1][..0] == [];
    assert Run(e, [o1]) == e.(active := map[K := 1]) by { FreshOfNothing(0, 500); }
    var r := e.(cooling := map[K := Released(1, 0)]);
    assert Run(e, [o1, o2]) == r;
    assert K !in Fresh(r.cooling, 1000, 500);
  }

  lemma MemoryRemembers()
    ensures MemoryStep(MemoryRun(Empty(500), [Claim(K, 1, 0), Release(K, 0), Claim(J, 2, 1000)]), Claim(K, 3, 100)).1
      == Answered(InUse(1))
  {
    var e := Empty(500);
    var o1, o2, o3 := Claim(K, 1, 0), Release(K, 0), Claim(J, 2, 1000);
    assert [o1, o2, o3][..2] == [o1, o2] && [o1, o2][..1] == [o1] && [o1][..0] == [];
    assert MemoryRun(e, [o1]) == e.(active := map[K := 1]);
    assert MemoryRun(e, [o1, o2]) == e.(cooling := map[K := Released(1, 0)]);
  }

  lemma FreshOfNothing(nowMs: nat, cooldownMs: nat)
    ensures Fresh(map[], nowMs, cooldownMs) == map[]
  {
  }

  lemma LastAnswer(r: Registry, ops: seq<Op>)
    requires ops != []
    ensures Answers(r, ops) == Answers(r, ops[..|ops| - 1]) + [Step(Run(r, ops[..|ops| - 1]), ops[|ops| - 1]).1]
    ensures MemoryAnswers(r, ops) ==
      MemoryAnswers(r, ops[..|ops| - 1]) + [MemoryStep(MemoryRun(r, ops[..|ops| - 1]), ops[|ops| - 1]).1]
    ensures Step(Run(r, ops[..|ops| - 1]), ops[|ops| - 1]).1 != MemoryStep(MemoryRun(r, ops[..|ops| - 1]), ops[|ops| - 1]).1
      ==> Answers(r, ops) != MemoryAnswers(r, ops)
  {
    hide Step, MemoryStep;
    AnswerCount(r, ops[..|ops| - 1]);
    var i := |ops| - 1;
    assert |Answers(r, ops)| == |ops| == |MemoryAnswers(r, ops)|;
    assert Answers(r, ops)[i] == Step(Run(r, ops[..|ops| - 1]), ops[|ops| - 1]).1;
    assert MemoryAnswers(r, ops)[i] == MemoryStep(MemoryRun(r, ops[..|ops| - 1]), ops[|ops| - 1]).1;
  }

  lemma {:induction false} AnswerCount(r: Registry, ops: seq<Op>)
    ensures |Answers(r, ops)| == |ops| == |MemoryAnswers(r, ops)|
    decreases |ops|
  {
    hide Step, MemoryStep;
    if ops != [] { AnswerCount(r, ops[..|ops| - 1]); }
  }

  // ---- Exactly when forgetting shows ----

  /** The keys whose last release the registry has purged: a claim since has met it past its pause. */
  function Forgotten(m: Registry, gone: set<KeyId>, op: Op): set<KeyId> {
    match op
    case Claim(key, _, nowMs) =>
      if key in m.banned || key in m.active then gone
      else gone + set k | k in m.cooling && Ago(nowMs, m.cooling[k].at) >= m.cooldownMs
    case Release(key, _) => if key in m.active then gone - {key} else gone
    case _ => gone
  }

  /** A claim that a purged release would still refuse: the clock is back within its pause. */
  predicate Misremembers(m: Registry, gone: set<KeyId>, op: Op) {
    && op.Claim? && op.key !in m.banned && op.key !in m.active
    && op.key in gone && op.key in m.cooling && Ago(op.nowMs, m.cooling[op.key].at) < m.cooldownMs
  }

  /** The registry knows what the one that never forgets knows, but for the releases in `gone`. */
  ghost predicate Tracks(r: Registry, m: Registry, gone: set<KeyId>) {
    r.active == m.active && r.banned == m.banned && r.cooldownMs == m.cooldownMs && r.cooling == m.cooling - gone
  }

  /** One step: the answer is the same, and the two stay in step, exactly when no purged release still counts. */
  lemma StepAnswersAlikeIff(r: Registry, m: Registry, gone: set<KeyId>, op: Op)
    requires Tracks(r, m, gone)
    ensures Step(r, op).1 == MemoryStep(m, op).1 <==> !Misremembers(m, gone, op)
    ensures !Misremembers(m, gone, op) ==> Tracks(Step(r, op).0, MemoryStep(m, op).0, Forgotten(m, gone, op))
  {
    if op.Claim? && op.key !in m.banned && op.key !in m.active && !Misremembers(m, gone, op) {
      assert Fresh(r.cooling, op.nowMs, r.cooldownMs) == m.cooling - Forgotten(m, gone, op);
    }
  }

  /** What has been purged after the operations. */
  function ForgottenAfter(e: Registry, ops: seq<Op>): set<KeyId> {
    if ops == [] then {} else
    var most := ops[..|ops| - 1];
    Forgotten(MemoryRun(e, most), ForgottenAfter(e, most), ops[|ops| - 1])
  }

  predicate MisremembersAt(e: Registry, ops: seq<Op>, i: nat)
    requires i < |ops|
  {
    Misremembers(MemoryRun(e, ops[..i]), ForgottenAfter(e, ops[..i]), ops[i])
  }

  /**
   Main result, on any clock: all answers are those of a registry that never forgets exactly when no claim
   meets, within its pause, a release that an earlier claim has met past it.
   */
  lemma {:induction false} AnswersAlikeIff(cooldownMs: nat, ops: seq<Op>)
    ensures
      var e := Empty(cooldownMs);
      && (Answers(e, ops) == MemoryAnswers(e, ops) <==> forall i | 0 <= i < |ops| :: !MisremembersAt(e, ops, i))
      && (Answers(e, ops) == MemoryAnswers(e, ops) ==> Tracks(Run(e, ops), MemoryRun(e, ops), ForgottenAfter(e, ops)))
    decreases |ops|
  {
    hide Step, MemoryStep, Misremembers, Forgotten, Tracks;
    var e := Empty(cooldownMs);
    if ops == [] {
      assert Tracks(e, e, {}) by { SameTracks(e); }
    } else {
      var most, last := ops[..|ops| - 1], ops[|ops| - 1];
      AnswersAlikeIff(cooldownMs, most);
      forall i | 0 <= i < |most| ensures MisremembersAt(e, most, i) == MisremembersAt(e, ops, i) {
        assert most[..i] == ops[..i];
      }
      AnswerCount(e, most);
      LastAnswer(e, ops);
      SameButLast(Answers(e, most), MemoryAnswers(e, most), Step(Run(e, most), last).1, MemoryStep(MemoryRun(e, most), last).1);
      if Answers(e, most) == MemoryAnswers(e, most) {
        StepAnswersAlikeIff(Run(e, most), MemoryRun(e, most), ForgottenAfter(e, most), last);
      }
      assert MisremembersAt(e, ops, |most|) == Misremembers(MemoryRun(e, most), ForgottenAfter(e, most), last);
    }
  }

  lemma SameTracks(r: Registry)
    ensures Tracks(r, r, {})
  {
    assert r.cooling - {} == r.cooling;
  }

  lemma SameButLast(a: seq<Answer>, b: seq<Answer>, x: Answer, y: Answer)
    requires |a| == |b|
    ensures a + [x] == b + [y] <==> a == b && x == y
  {
    if a + [x] == b + [y] {
      assert (a + [x])[..|a|] == a && (b + [y])[..|b|] == b;
      assert (a + [x])[|a|] == x && (b + [y])[|b|] == y;
    }
  }

  /** A key in use is neither banned nor pausing. */
  ghost predicate Apart(r: Registry) {
    r.active.Keys !! r.banned && r.active.Keys !! r.cooling.Keys
  }

  lemma StepKeepsApart(r: Registry, op: Op)
    requires Apart(r)
    ensures Apart(Step(r, op).0)
  {
    var q := Step(r, op).0;
    forall k | k in q.active.Keys ensures k !in q.banned && k !in q.cooling.Keys {
      assert k in r.active.Keys ==> k !in r.banned && k !in r.cooling.Keys;
    }
  }

  lemma {:induction false} RunsStayApart(cooldownMs: nat, ops: seq<Op>)
    ensures Apart(Run(Empty(cooldownMs), ops))
    decreases |ops|
  {
    hide Step, Apart;
    if ops == [] {
      assert Apart(Empty(cooldownMs)) by { EmptyIsApart(cooldownMs); }
    } else {
      RunsStayApart(cooldownMs, ops[..|ops| - 1]);
      StepKeepsApart(Run(Empty(cooldownMs), ops[..|ops| - 1]), ops[|ops| - 1]);
    }
  }

  lemma EmptyIsApart(cooldownMs: nat)
    ensures Apart(Empty(cooldownMs))
  {
  }

  // ---- Holding and pausing ----

  /** As long as nobody releases or bans the key, its holder keeps it and every other claim names the holder. */
  lemma {:induction false} HolderKeepsKey(r: Registry, ops: seq<Op>, key: KeyId, account: AccountId, nowMs: nat)
    requires key in r.active && key !in r.banned
    requires forall i | 0 <= i < |ops| :: !(ops[i].key == key && (ops[i].Release? || ops[i].Ban?))
    ensures
      var q := Run(r, ops);
      && key in q.active && q.active[key] == r.active[key] && key !in q.banned
      && Claimed(q, key, account, nowMs) == (q, InUse(r.active[key]))
    decreases |ops|
  {
    if ops != [] {
      HolderKeepsKey(r, ops[..|ops| - 1], key, account, nowMs);
      assert ops[|ops| - 1].key != key || !(ops[|ops| - 1].Release? || ops[|ops| - 1].Ban?);
    }
  }

  /** An operation that ends the claim of the key, whoever asks for it. */
  predicate Ends(op: Op, key: KeyId) {
    op.key == key && (op.Release? || op.Ban?)
  }

  predicate HeldBy(r: Registry, key: KeyId, account: AccountId) {
    key in r.active && r.active[key] == account
  }

  /** One step: the holder keeps the key exactly unless the step releases or bans it. */
  lemma StepKeepsHolderIff(r: Registry, op: Op, key: KeyId, account: AccountId)
    requires HeldBy(r, key, account)
    ensures HeldBy(Step(r, op).0, key, account) <==> !Ends(op, key)
  {
  }

  /** Main result: from a claim on, its holder has the key at every moment exactly when nobody, the holder or not, releases or bans it. */
  lemma {:induction false} HeldThroughoutIff(r: Registry, ops: seq<Op>, key: KeyId, account: AccountId)
    requires HeldBy(r, key, account)
    ensures (forall i | 0 <= i <= |ops| :: HeldBy(Run(r, ops[..i]), key, account))
      <==> forall i | 0 <= i < |ops| :: !Ends(ops[i], key)
    decreases |ops|
  {
    hide Step, HeldBy, Ends, Run;
    assert ops[..|ops|] == ops;
    if ops == [] {
      NoSteps(r);
    } else {
      var most, last := ops[..|ops| - 1], ops[|ops| - 1];
      HeldThroughoutIff(r, most, key, account);
      assert forall i | 0 <= i <= |most| :: most[..i] == ops[..i];
      assert most[..|most|] == most;
      RunByStep(r, ops);
      if HeldBy(Run(r, most), key, account) { StepKeepsHolderIff(Run(r, most), last, key, account); }
    }
  }

  lemma NoSteps(r: Registry)
    ensures Run(r, []) == r
  {
  }

  lemma RunByStep(r: Registry, ops: seq<Op>)
    requires ops != []
    ensures Run(r, ops) == Step(Run(r, ops[..|ops| - 1]), ops[|ops| - 1]).0
  {
  }

  ghost predicate ReleasedSince(m: Registry, key: KeyId, t: nat) {
    key in m.cooling && m.cooling[key].at >= t
  }

  lemma {:induction false} MemoryKeepsRelease(m: Registry, ops: seq<Op>, key: KeyId, t: nat)
    requires ReleasedSince(m, key, t)
    requires forall i | 0 <= i < |ops| :: TimeOf(ops[i], t) >= t
    ensures ReleasedSince(MemoryRun(m, ops), key, t) && MemoryRun(m, ops).cooldownMs == m.cooldownMs
    decreases |ops|
  {
    if ops != [] {
      MemoryKeepsRelease(m, ops[..|ops| - 1], key, t);
      assert TimeOf(ops[|ops| - 1], t) >= t;
    }
  }

  lemma {:induction false} MemoryRunSplits(m: Registry, a: seq<Op>, b: seq<Op>)
    ensures MemoryRun(m, a + b) == MemoryRun(MemoryRun(m, a), b)
    decreases |b|
  {
    hide MemoryStep;
    if b == [] {
      assert a + b == a;
    } else {
      MemoryRunSplits(m, a, b[..|b| - 1]);
      assert (a + b)[..|a + b| - 1] == a + b[..|b| - 1] && (a + b)[|a + b| - 1] == b[|b| - 1];
    }
  }

  lemma {:induction false} ClockNeverBack(a: seq<Op>, b: seq<Op>)
    requires ClockRuns(a + b)
    ensures ClockRuns(a) && Clock(a) <= Clock(a + b)
    ensures forall i | 0 <= i < |b| :: TimeOf(b[i], Clock(a)) >= Clock(a)
    decreases |b|
  {
    if b == [] {
      assert a + b == a;
    } else {
      var most := b[..|b| - 1];
      assert (a + b)[..|a + b| - 1] == a + most && (a + b)[|a + b| - 1] == b[|b| - 1];
      ClockNeverBack(a, most);
      forall i | 0 <= i < |b| ensures TimeOf(b[i], Clock(a)) >= Clock(a) {
        if i < |most| { assert b[i] == most[i]; }
      }
    }
  }

  lemma {:induction false} RunKeepsCooldown(m: Registry, ops: seq<Op>)
    ensures MemoryRun(m, ops).cooldownMs == m.cooldownMs
    decreases |ops|
  {
    if ops != [] { RunKeepsCooldown(m, ops[..|ops| - 1]); }
  }

  /**
   * Main result: on a clock that does not go back, once a key in use is released no claim of it succeeds before
   * the pause is over, whatever happens in between.
   */
  lemma NoClaimDuringPause(cooldownMs: nat, a: seq<Op>, b: seq<Op>, key: KeyId, at: nat, account: AccountId, nowMs: nat)
    requires ClockRuns(a + [Release(key, at)] + b) && Clock(a + [Release(key, at)] + b) <= nowMs < at + cooldownMs
    requires key in Run(Empty(cooldownMs), a).active
    ensures Claimed(Run(Empty(cooldownMs), a + [Release(key, at)] + b), key, account, nowMs).1 != Granted
  {
    hide Claimed, ClaimedByMemory, Run, MemoryRun, ClockRuns, Clock;
    var e, head := Empty(cooldownMs), a + [Release(key, at)];
    ClockNeverBack(head, b);
    ClockNeverBack(a, [Release(key, at)]);
    ForgettingIsInvisible(cooldownMs, a);
    ForgettingIsInvisible(cooldownMs, head + b);
    JustReleased(e, a, key, at);
    HeadClock(a, key, at);
    MemoryKeepsRelease(MemoryRun(e, head), b, key, at);
    RunKeepsCooldown(e, head);
    MemoryRunSplits(e, head, b);
    var r, m := Run(e, head + b), MemoryRun(e, head + b);
    ClaimsAgree(r, m, Clock(head + b), key, account, nowMs);
    PauseRefuses(m, key, at, account, nowMs);
  }

  lemma HeadClock(a: seq<Op>, key: KeyId, at: nat)
    ensures Clock(a + [Release(key, at)]) == at
  {
  }

  lemma JustReleased(e: Registry, a: seq<Op>, key: KeyId, at: nat)
    requires key in MemoryRun(e, a).active
    ensures ReleasedSince(MemoryRun(e, a + [Release(key, at)]), key, at)
  {
    assert (a + [Release(key, at)])[..|a|] == a;
  }

  lemma ClaimsAgree(r: Registry, m: Registry, t: nat, key: KeyId, account: AccountId, nowMs: nat)
    requires Agrees(r, m, t) && t <= nowMs
    ensures Claimed(r, key, account, nowMs).1 == ClaimedByMemory(m, key, account, nowMs).1
  {
    StepsAgree(r, m, t, Claim(key, account, nowMs));
  }

  lemma PauseRefuses(m: Registry, key: KeyId, t: nat, account: AccountId, nowMs: nat)
    requires ReleasedSince(m, key, t) && t <= nowMs < t + m.cooldownMs
    ensures ClaimedByMemory(m, key, account, nowMs).1 != Granted
  {
  }

  // ---- The object ----

  class KeyRegistry {
    var active: map<KeyId, AccountId>
    var cooling: map<KeyId, Released>
    var banned: set<KeyId>
    const cooldownMs: nat

    ghost function View(): Registry
      reads this
    {
      Registry(active, cooling, banned, cooldownMs)
    }

    constructor (cooldownMs: nat)
      ensures View() == Empty(cooldownMs) && Apart(View())
    {
      active, cooling, banned := map[], map[], {};
      this.cooldownMs := cooldownMs;
    }

    method Ban(key: KeyId)
      modifies `banned, `active
      ensures View() == Step(old(View()), Op.Ban(key)).0
    {
      banned := banned + {key};
      active := active - {key};
    }

    method Unban(key: KeyId) returns (was: bool)
      modifies `banned
      ensures (View(), Lifted(was)) == Step(old(View()), Op.Unban(key))
    {
      was := key in banned;
      banned := banned - {key};
    }

    method Claim(key: KeyId, account: AccountId, nowMs: nat) returns (v: Verdict)
      modifies `active, `cooling
      ensures (View(), v) == Claimed(old(View()), key, account, nowMs)
    {
      if key in banned { return Banned; }
      if key in active { return InUse(active[key]); }
      cooling := Fresh(cooling, nowMs, cooldownMs);
      if key in cooling {
        var last := cooling[key];
        if Ago(nowMs, last.at) < cooldownMs { return InUse(last.holder); }
      }
      ghost var kept := cooling;
      cooling := cooling - {key};
      assert cooling == kept;
      active := active[key := account];
      v := Granted;
    }

    method Release(key: KeyId, nowMs: nat)
      modifies `active, `cooling
      ensures View() == ReleasedKey(old(View()), key, nowMs)
    {
      if key in active {
        cooling := cooling[key := Released(active[key], nowMs)];
        active := active - {key};
      }
    }
  }
}
