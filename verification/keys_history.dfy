/** What a claim of a key is answered, told from the history of that key alone. */
module KeyHistories {
  import opened Bytes
  import opened Keys

  /** A ban of the key that has not been lifted since. */
  ghost predicate IsBanned(ops: seq<Op>, key: KeyId) {
    exists i :: 0 <= i < |ops| && BannedSince(ops, key, i)
  }

  ghost predicate BannedSince(ops: seq<Op>, key: KeyId, i: nat)
    requires i < |ops|
  {
    ops[i] == Ban(key) && forall j | i < j < |ops| :: ops[j] != Unban(key)
  }

  /** The account of the last claim of the key that was granted, unless the key was released or banned since. */
  ghost function HolderOf(cooldownMs: nat, ops: seq<Op>, key: KeyId): Option<AccountId>
    decreases |ops|, 0
  {
    if ops == [] then None else
    var most, last := ops[..|ops| - 1], ops[|ops| - 1];
    if last.key != key then HolderOf(cooldownMs, most, key) else
    match last
    case Claim(_, account, nowMs) =>
      if VerdictFrom(cooldownMs, most, key, nowMs) == Granted then Some(account) else HolderOf(cooldownMs, most, key)
    case Release(_, _) => None
    case Ban(_) => None
    case Unban(_) => HolderOf(cooldownMs, most, key)
  }

  /** The last release that ended a claim of the key: by whom it was held, and when it ended. */
  ghost function LastRelease(cooldownMs: nat, ops: seq<Op>, key: KeyId): Option<Released>
    decreases |ops|, 0
  {
    if ops == [] then None else
    var most, last := ops[..|ops| - 1], ops[|ops| - 1];
    if last.Release? && last.key == key && HolderOf(cooldownMs, most, key).Some?
    then Some(Released(HolderOf(cooldownMs, most, key).value, last.nowMs))
    else LastRelease(cooldownMs, most, key)
  }

  /** Refused while banned, while held, and within the pause after a release, in this order; granted otherwise. */
  ghost function VerdictFrom(cooldownMs: nat, ops: seq<Op>, key: KeyId, nowMs: nat): Verdict
    decreases |ops|, 1
  {
    if IsBanned(ops, key) then Banned else
    match HolderOf(cooldownMs, ops, key)
    case Some(holder) => InUse(holder)
    case None =>
      match LastRelease(cooldownMs, ops, key)
      case None => Granted
      case Some(r) => if nowMs < r.at + cooldownMs && cooldownMs > 0 then InUse(r.holder) else Granted
  }

  lemma BannedByLast(ops: seq<Op>, key: KeyId)
    requires ops != []
    ensures IsBanned(ops, key) <==>
      ops[|ops| - 1] == Ban(key) || (ops[|ops| - 1] != Unban(key) && IsBanned(ops[..|ops| - 1], key))
  {
    var most, n := ops[..|ops| - 1], |ops| - 1;
    if i :| 0 <= i < |ops| && BannedSince(ops, key, i) {
      if i < n { assert BannedSince(most, key, i); }
    }
    if ops[n] == Ban(key) { assert BannedSince(ops, key, n); }
    if ops[n] != Unban(key) && IsBanned(most, key) {
      var i :| 0 <= i < n && BannedSince(most, key, i);
      assert BannedSince(ops, key, i);
    }
  }

  /** The registry that never forgets holds, for each key, just what that key's history says. */
  ghost predicate Remembers(m: Registry, cooldownMs: nat, ops: seq<Op>, key: KeyId) {
    && m.cooldownMs == cooldownMs
    && (key in m.banned <==> IsBanned(ops, key))
    && HolderOf(cooldownMs, ops, key) == (if key in m.active then Some(m.active[key]) else None)
    && LastRelease(cooldownMs, ops, key) == (if key in m.cooling then Some(m.cooling[key]) else None)
  }

  lemma RememberedVerdict(m: Registry, cooldownMs: nat, ops: seq<Op>, key: KeyId, account: AccountId, nowMs: nat)
    requires Remembers(m, cooldownMs, ops, key)
    ensures ClaimedByMemory(m, key, account, nowMs).1 == VerdictFrom(cooldownMs, ops, key, nowMs)
  {
    hide IsBanned, HolderOf, LastRelease;
  }

  lemma StepRemembers(m: Registry, cooldownMs: nat, ops: seq<Op>, key: KeyId)
    requires ops != [] && Remembers(m, cooldownMs, ops[..|ops| - 1], key)
    ensures Remembers(MemoryStep(m, ops[|ops| - 1]).0, cooldownMs, ops, key)
  {
    hide IsBanned, VerdictFrom;
    var most, last := ops[..|ops| - 1], ops[|ops| - 1];
    BannedByLast(ops, key);
    if last.Claim? && last.key == key { RememberedVerdict(m, cooldownMs, most, key, last.account, last.nowMs); }
  }

  lemma {:induction false} MemoryRemembers(cooldownMs: nat, ops: seq<Op>, key: KeyId)
    ensures Remembers(MemoryRun(Empty(cooldownMs), ops), cooldownMs, ops, key)
    decreases |ops|
  {
    hide MemoryStep, Remembers;
    if ops == [] {
      assert Remembers(Empty(cooldownMs), cooldownMs, [], key) by { NothingRemembered(cooldownMs, key); }
    } else {
      MemoryRemembers(cooldownMs, ops[..|ops| - 1], key);
      StepRemembers(MemoryRun(Empty(cooldownMs), ops[..|ops| - 1]), cooldownMs, ops, key);
    }
  }

  lemma NothingRemembered(cooldownMs: nat, key: KeyId)
    ensures Remembers(Empty(cooldownMs), cooldownMs, [], key)
  {
  }

  ghost function AnswerFrom(cooldownMs: nat, ops: seq<Op>, op: Op): Answer {
    if op.Claim? then Answered(VerdictFrom(cooldownMs, ops, op.key, op.nowMs))
    else if op.Unban? then Lifted(IsBanned(ops, op.key))
    else Done
  }

  /**
   Main result, for any operations on a clock that does not go back: a claim is answered from the history of its
   own key, and lifting a ban tells whether there was one.
   */
  lemma AnsweredFromHistory(cooldownMs: nat, ops: seq<Op>, op: Op)
    requires ClockRuns(ops) && TimeOf(op, Clock(ops)) >= Clock(ops)
    ensures Step(Run(Empty(cooldownMs), ops), op).1 == AnswerFrom(cooldownMs, ops, op)
  {
    hide Run, MemoryRun, Clock, ClockRuns, IsBanned, VerdictFrom, HolderOf, LastRelease, Fresh;
    var r, m := Run(Empty(cooldownMs), ops), MemoryRun(Empty(cooldownMs), ops);
    ForgettingIsInvisible(cooldownMs, ops);
    MemoryRemembers(cooldownMs, ops, op.key);
    StepsAgree(r, m, Clock(ops), op);
    if op.Claim? { RememberedVerdict(m, cooldownMs, ops, op.key, op.account, op.nowMs); }
  }

  /** Once its ban is lifted a key that nobody holds and that is past its pause can be claimed. */
  lemma LiftedMayBeClaimed(cooldownMs: nat, ops: seq<Op>, key: KeyId, account: AccountId, nowMs: nat)
    requires ClockRuns(ops) && nowMs >= Clock(ops) && HolderOf(cooldownMs, ops, key).None?
    requires LastRelease(cooldownMs, ops, key).Some? ==> nowMs >= LastRelease(cooldownMs, ops, key).value.at + cooldownMs
    ensures Step(Run(Empty(cooldownMs), ops + [Unban(key)]), Claim(key, account, nowMs)).1 == Answered(Granted)
  {
    hide Step, Run, IsBanned;
    var more := ops + [Unban(key)];
    assert more[..|more| - 1] == ops;
    BannedByLast(more, key);
    AnsweredFromHistory(cooldownMs, more, Claim(key, account, nowMs));
  }

  /** What others do with other keys does not matter: only the operations on the key itself do. */
  function About(ops: seq<Op>, key: KeyId): seq<Op> {
    if ops == [] then []
    else About(ops[..|ops| - 1], key) + if ops[|ops| - 1].key == key then [ops[|ops| - 1]] else []
  }

  lemma {:induction false} OtherKeysDoNotMatter(cooldownMs: nat, ops: seq<Op>, key: KeyId, nowMs: nat)
    ensures IsBanned(ops, key) == IsBanned(About(ops, key), key)
    ensures HolderOf(cooldownMs, ops, key) == HolderOf(cooldownMs, About(ops, key), key)
    ensures LastRelease(cooldownMs, ops, key) == LastRelease(cooldownMs, About(ops, key), key)
    ensures VerdictFrom(cooldownMs, ops, key, nowMs) == VerdictFrom(cooldownMs, About(ops, key), key, nowMs)
    decreases |ops|
  {
    hide IsBanned;
    if ops != [] {
      var most, last := ops[..|ops| - 1], ops[|ops| - 1];
      OtherKeysDoNotMatter(cooldownMs, most, key, if last.Claim? then last.nowMs else 0);
      BannedByLast(ops, key);
      if last.key == key {
        var own := About(ops, key);
        assert own == About(most, key) + [last] && own[..|own| - 1] == About(most, key);
        BannedByLast(own, key);
      } else {
        assert About(ops, key) == About(most, key);
      }
    }
  }
}
