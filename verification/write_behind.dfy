/**
 Buffering attribute writes over a store (`write_behind.rs`), and why no caller can tell.

 A backend is free to refuse any put without effect; a flush keeps what was refused.
 */
module WriteBehind {
  import opened Bytes
  import opened Text
  import opened Storage

  datatype FlushPolicy = FlushPolicy(maxDirtyAccounts: nat, maxDirtyAttrs: nat, intervalMs: nat)

  type Dirty = map<AccountId, AttrMap>

  datatype Buffered = Buffered(
    backend: Store, dirty: Dirty, dirtyAttrs: nat,
    lastFlushMs: nat, flushes: nat, batchedWrites: nat)

  function Fresh(now: nat): Buffered {
    Buffered(EMPTY, map[], 0, now, 0, 0)
  }

  // ---- What a caller sees ----

  /** Stored attributes with the buffered ones on top. */
  function Merged(attrs: map<AccountId, AttrMap>, dirty: Dirty): map<AccountId, AttrMap> {
    map id | id in attrs.Keys + dirty.Keys :: AttrsOf(attrs, id) + AttrsOf(dirty, id)
  }

  function View(b: Buffered): Store {
    b.backend.(attrs := Merged(b.backend.attrs, b.dirty))
  }

  /** Every unflushed attribute, as an account and a key. */
  function Cells(dirty: Dirty): set<(AccountId, Name)> {
    set id, k | id in dirty && k in dirty[id] :: (id, k)
  }

  /** The counter is exact, and no buffered account is still to be issued. */
  ghost predicate Valid(b: Buffered) {
    && b.dirtyAttrs == |Cells(b.dirty)|
    && forall id | id in b.dirty :: b.dirty[id] != map[] && id <= b.backend.nextId
  }

  // ---- The buffer's answers ----

  function PutBuffered(b: Buffered, id: AccountId, attrs: AttrMap): Buffered {
    if attrs == map[] then b else
    var dirty := b.dirty[id := AttrsOf(b.dirty, id) + attrs];
    b.(dirty := dirty, dirtyAttrs := |Cells(dirty)|, batchedWrites := b.batchedWrites + |attrs|)
  }

  function Drop(b: Buffered, id: AccountId): Buffered {
    var dirty := b.dirty - {id};
    if id in b.dirty then b.(dirty := dirty, dirtyAttrs := |Cells(dirty)|) else b
  }

  /** One call through the buffer: attribute reads are merged, puts are kept, all else goes to the backend. */
  function ApplyBuffered(b: Buffered, c: Call): (Buffered, Reply) {
    match c
    case AttrsGet(id, keys) =>
      (b, Attrs(Select(AttrsOf(b.backend.attrs, id), keys) + Select(AttrsOf(b.dirty, id), keys)))
    case AttrsAll(id) =>
      (b, Attrs(AttrsOf(b.backend.attrs, id) + AttrsOf(b.dirty, id)))
    case AttrsPut(id, attrs) =>
      (PutBuffered(b, id, attrs), Done)
    case DeleteAccount(id) =>
      (Drop(b, id).(backend := Deleted(b.backend, id)), Done)
    case _ =>
      var (store, reply) := Apply(b.backend, c);
      (b.(backend := store), reply)
  }

  /** The backend after the puts in `dirty` that it took. */
  function Taken(attrs: map<AccountId, AttrMap>, dirty: Dirty, refused: set<AccountId>): map<AccountId, AttrMap> {
    Merged(attrs, dirty - refused)
  }

  /** What a flush leaves in the buffer. */
  function Kept(dirty: Dirty, refused: set<AccountId>): Dirty {
    map id | id in dirty && id in refused :: dirty[id]
  }

  /** A flush whose puts for `refused` fail. */
  function Flushed(b: Buffered, refused: set<AccountId>, now: nat): (Buffered, bool) {
    var kept := Kept(b.dirty, refused);
    var after := b.(
      backend := b.backend.(attrs := Taken(b.backend.attrs, b.dirty, refused)),
      dirty := kept, dirtyAttrs := |Cells(kept)|);
    if kept == map[] then (after.(lastFlushMs := now, flushes := b.flushes + 1), true) else (after, false)
  }

  function Due(b: Buffered, policy: FlushPolicy, now: nat): bool {
    |b.dirty| >= policy.maxDirtyAccounts || b.dirtyAttrs >= policy.maxDirtyAttrs
    || Max(now - b.lastFlushMs, 0) >= policy.intervalMs
  }

  /** The timer: whether a flush happened, or that it failed. */
  function Ticked(b: Buffered, policy: FlushPolicy, refused: set<AccountId>, now: nat): (Buffered, Option<bool>) {
    if b.dirty == map[] then (b.(lastFlushMs := now), Some(false))
    else if !Due(b, policy, now) then (b, Some(false))
    else
      var (after, ok) := Flushed(b, refused, now);
      (after, if ok then Some(true) else None)
  }

  // ---- Transparency, one step at a time ----

  /** A put is for an account that has been issued: the one thing asked of the caller. */
  predicate Issued(s: Store, c: Call) {
    c.AttrsPut? ==> c.id <= s.nextId
  }

  lemma MergedAt(attrs: map<AccountId, AttrMap>, dirty: Dirty, id: AccountId)
    ensures AttrsOf(Merged(attrs, dirty), id) == AttrsOf(attrs, id) + AttrsOf(dirty, id)
    ensures id in Merged(attrs, dirty) <==> id in attrs || id in dirty
  {
    var none: AttrMap := map[];
    assert none + none == none;
  }

  lemma Later(a: AttrMap, b: AttrMap, c: AttrMap)
    ensures a + (b + c) == (a + b) + c
    ensures a + map[] == a
  {
  }

  /** Two attribute tables with the same accounts and the same attributes for each. */
  lemma SameTable(x: map<AccountId, AttrMap>, y: map<AccountId, AttrMap>)
    requires x.Keys == y.Keys
    requires forall id | id in x :: AttrsOf(x, id) == AttrsOf(y, id)
    ensures x == y
  {
    forall id | id in x ensures x[id] == y[id] {
      assert AttrsOf(x, id) == AttrsOf(y, id);
    }
  }

  lemma MergedPut(attrs: map<AccountId, AttrMap>, dirty: Dirty, id: AccountId, more: AttrMap)
    requires more != map[]
    ensures Merged(attrs, dirty[id := AttrsOf(dirty, id) + more]) == Put(Merged(attrs, dirty), id, more)
  {
    var dirty' := dirty[id := AttrsOf(dirty, id) + more];
    var x, y := Merged(attrs, dirty'), Put(Merged(attrs, dirty), id, more);
    assert x.Keys == y.Keys;
    forall i | i in x ensures AttrsOf(x, i) == AttrsOf(y, i) {
      MergedAt(attrs, dirty, i);
      MergedAt(attrs, dirty', i);
      Later(AttrsOf(attrs, i), AttrsOf(dirty, i), more);
    }
    SameTable(x, y);
  }

  lemma PutIsTransparent(b: Buffered, id: AccountId, attrs: AttrMap)
    ensures View(PutBuffered(b, id, attrs)) == Apply(View(b), AttrsPut(id, attrs)).0
  {
    hide Merged, Put, Cells;
    if attrs == map[] {
      PutNothing(View(b).attrs, id);
    } else {
      MergedPut(b.backend.attrs, b.dirty, id, attrs);
    }
  }

  lemma PutNothing(attrs: map<AccountId, AttrMap>, id: AccountId)
    ensures Put(attrs, id, map[]) == attrs
  {
  }

  lemma MergedDelete(attrs: map<AccountId, AttrMap>, dirty: Dirty, id: AccountId)
    ensures Merged(attrs - {id}, dirty - {id}) == Merged(attrs, dirty) - {id}
  {
    var x, y := Merged(attrs - {id}, dirty - {id}), Merged(attrs, dirty) - {id};
    assert x.Keys == y.Keys;
    forall i | i in x ensures AttrsOf(x, i) == AttrsOf(y, i) {
      MergedAt(attrs, dirty, i);
      MergedAt(attrs - {id}, dirty - {id}, i);
    }
    SameTable(x, y);
  }

  lemma DeleteIsTransparent(b: Buffered, id: AccountId)
    ensures View(ApplyBuffered(b, DeleteAccount(id)).0) == Deleted(View(b), id)
  {
    hide Merged, Cells;
    MergedDelete(b.backend.attrs, b.dirty, id);
    if id !in b.dirty {
      assert b.dirty - {id} == b.dirty;
    }
  }

  lemma GetIsTransparent(b: Buffered, id: AccountId, keys: seq<Name>)
    ensures ApplyBuffered(b, AttrsGet(id, keys)) == (b, Attrs(Select(AttrsOf(View(b).attrs, id), keys)))
    ensures ApplyBuffered(b, AttrsAll(id)) == (b, Attrs(AttrsOf(View(b).attrs, id)))
  {
    hide Merged, Select, AttrsOf;
    MergedAt(b.backend.attrs, b.dirty, id);
    SelectMerged(AttrsOf(b.backend.attrs, id), AttrsOf(b.dirty, id), keys);
  }

  lemma SelectMerged(base: AttrMap, d: AttrMap, keys: seq<Name>)
    ensures Select(base, keys) + Select(d, keys) == Select(base + d, keys)
  {
  }

  /** The attributes buffered for the account about to be issued, if there are any. */
  function Waiting(b: Buffered): AttrMap {
    AttrsOf(b.dirty, b.backend.nextId + 1)
  }

  /**
   Creating an account through the buffer is the same as creating it in the merged store exactly when
   it is refused, carries no attributes, or carries every attribute already buffered for the new id.
   */
  lemma CreateIsTransparentIff(b: Buffered, req: NewAccount)
    ensures
      var c := CreateAccount(req);
      ApplyBuffered(b, c).1 == Apply(View(b), c).1
    ensures
      var c := CreateAccount(req);
      View(ApplyBuffered(b, c).0) == Apply(View(b), c).0
      <==> (CreateProblem(b.backend, req).Some? || req.attrs == map[]
            || forall k | k in Waiting(b) :: k in req.attrs && req.attrs[k] == Waiting(b)[k])
  {
    hide Merged, AttrsOf, ValidateAccountName, Lower;
    if CreateProblem(b.backend, req).None? && req.attrs != map[] {
      MergedCreate(b.backend.attrs, b.dirty, b.backend.nextId + 1, req.attrs);
    }
  }

  lemma MergedCreate(attrs: map<AccountId, AttrMap>, dirty: Dirty, id: AccountId, carried: AttrMap)
    ensures Merged(attrs[id := carried], dirty) == Merged(attrs, dirty)[id := carried]
       <==> forall k | k in AttrsOf(dirty, id) :: k in carried && carried[k] == AttrsOf(dirty, id)[k]
  {
    var x, y, d := Merged(attrs[id := carried], dirty), Merged(attrs, dirty)[id := carried], AttrsOf(dirty, id);
    assert x.Keys == y.Keys;
    MergedAt(attrs[id := carried], dirty, id);
    assert AttrsOf(x, id) == carried + d && AttrsOf(y, id) == carried;
    if carried + d == carried {
      forall i | i in x ensures AttrsOf(x, i) == AttrsOf(y, i) {
        MergedAt(attrs, dirty, i);
        MergedAt(attrs[id := carried], dirty, i);
      }
      SameTable(x, y);
    }
    if forall k | k in d :: k in carried && carried[k] == d[k] {
      assert carried + d == carried;
    }
    if carried + d == carried {
      forall k | k in d ensures k in carried && carried[k] == d[k] {
        assert (carried + d)[k] == d[k];
      }
    }
  }

  lemma PlainIsTransparent(b: Buffered, c: Call)
    requires !c.AttrsGet? && !c.AttrsAll? && !c.AttrsPut? && !c.DeleteAccount? && !c.CreateAccount?
    ensures
      var (after, reply) := ApplyBuffered(b, c);
      (View(after), reply) == Apply(View(b), c)
  {
    hide ApplyBuffered, Apply;
    if OnCharacters(c) { CharacterCallIsTransparent(b, c); } else { AccountCallIsTransparent(b, c); }
  }

  predicate OnCharacters(c: Call) {
    c.CharactersOf? || c.CharacterByName? || c.CreateCharacter? || c.UpdateCharacter? || c.DeleteCharacter?
  }

  lemma CharacterCallIsTransparent(b: Buffered, c: Call)
    requires OnCharacters(c)
    ensures
      var (after, reply) := ApplyBuffered(b, c);
      (View(after), reply) == Apply(View(b), c)
  {
    hide Merged, Lower, CharacterAt, WithoutNamed, OfOwner, Updated;
  }

  lemma AccountCallIsTransparent(b: Buffered, c: Call)
    requires !c.AttrsGet? && !c.AttrsAll? && !c.AttrsPut? && !c.DeleteAccount? && !c.CreateAccount? && !OnCharacters(c)
    ensures
      var (after, reply) := ApplyBuffered(b, c);
      (View(after), reply) == Apply(View(b), c)
  {
    hide Merged, Lower, InOrder, TheAccounts, ActiveBan;
  }

  lemma IdsOnlyGrow(s: Store, c: Call)
    ensures Apply(s, c).0.nextId >= s.nextId
  {
    hide CreateProblem, ActiveBan, Put, Select;
  }

  lemma PutKeepsValid(b: Buffered, id: AccountId, attrs: AttrMap)
    requires Valid(b) && id <= b.backend.nextId
    ensures Valid(PutBuffered(b, id, attrs))
  {
    hide Cells, AttrsOf;
    if attrs != map[] {
      PutIsNotEmpty(AttrsOf(b.dirty, id), attrs);
    }
  }

  lemma PutIsNotEmpty(was: AttrMap, attrs: AttrMap)
    requires attrs != map[]
    ensures was + attrs != map[]
  {
    var k :| k in attrs;
    assert k in was + attrs;
  }

  /** A call on issued ids keeps the counter exact and the buffer free of ids to come. */
  lemma CallKeepsValid(b: Buffered, c: Call)
    requires Valid(b) && Issued(b.backend, c)
    ensures Valid(ApplyBuffered(b, c).0)
  {
    hide Cells, Select, Apply, PutBuffered;
    if c.AttrsPut? {
      PutKeepsValid(b, c.id, c.attrs);
    } else {
      IdsOnlyGrow(b.backend, c);
    }
  }

  /** Every call, on issued ids, is answered as an unbuffered store answers it, and keeps the buffer in order. */
  lemma CallIsTransparent(b: Buffered, c: Call)
    requires Valid(b) && Issued(b.backend, c)
    ensures
      var (after, reply) := ApplyBuffered(b, c);
      && Valid(after)
      && (View(after), reply) == Apply(View(b), c)
  {
    CallKeepsValid(b, c);
    hide Merged, Cells;
    match c {
      case AttrsGet(id, keys) => GetIsTransparent(b, id, keys);
      case AttrsAll(id) => GetIsTransparent(b, id, []);
      case AttrsPut(id, attrs) => PutIsTransparent(b, id, attrs);
      case DeleteAccount(id) => DeleteIsTransparent(b, id);
      case CreateAccount(req) => CreateIsTransparentIff(b, req);
      case _ => PlainIsTransparent(b, c);
    }
  }

  /** A flush, whichever puts the backend refuses, changes nothing a caller can see. */
  lemma FlushIsInvisible(b: Buffered, refused: set<AccountId>, now: nat)
    requires Valid(b)
    ensures
      var after := Flushed(b, refused, now).0;
      Valid(after) && View(after) == View(b)
  {
    hide Merged, Cells;
    MergedFlush(b.backend.attrs, b.dirty, refused);
  }

  lemma MergedFlush(attrs: map<AccountId, AttrMap>, dirty: Dirty, refused: set<AccountId>)
    ensures Merged(Taken(attrs, dirty, refused), Kept(dirty, refused)) == Merged(attrs, dirty)
  {
    var kept, taken := Kept(dirty, refused), Taken(attrs, dirty, refused);
    var x, y := Merged(taken, kept), Merged(attrs, dirty);
    assert x.Keys == y.Keys;
    forall i | i in x ensures AttrsOf(x, i) == AttrsOf(y, i) {
      MergedAt(attrs, dirty - refused, i);
      MergedAt(taken, kept, i);
      MergedAt(attrs, dirty, i);
      Later(AttrsOf(attrs, i), map[], AttrsOf(dirty, i));
      Later(AttrsOf(attrs, i), AttrsOf(dirty, i), map[]);
    }
    SameTable(x, y);
  }

  /** After a tick that did not fail, nothing is left in the buffer or no flush is due. */
  lemma TickBoundsLoss(b: Buffered, policy: FlushPolicy, refused: set<AccountId>, now: nat)
    requires Valid(b)
    ensures
      var (after, r) := Ticked(b, policy, refused, now);
      && Valid(after) && View(after) == View(b)
      && (r.Some? ==> after.dirty == map[] || !Due(after, policy, now))
      && (r == Some(true) ==> after.dirty == map[] && after.lastFlushMs == now)
      && (r.None? ==> after.dirty != map[] && after.dirty.Keys <= b.dirty.Keys && after.lastFlushMs == b.lastFlushMs)
  {
    FlushIsInvisible(b, refused, now);
  }

  // ---- What waits, and what a flush does with it ----

  /** A put goes to the buffer alone, counted once, and a deletion takes what was waiting; no other call moves the buffer. */
  lemma PutsWait(b: Buffered, c: Call)
    ensures
      var d := ApplyBuffered(b, c).0;
      && (c.AttrsPut? ==>
            && d.backend == b.backend && d.batchedWrites == b.batchedWrites + |c.attrs|
            && AttrsOf(d.dirty, c.id) == AttrsOf(b.dirty, c.id) + c.attrs
            && forall id | id != c.id :: (id in d.dirty <==> id in b.dirty) && (id in b.dirty ==> d.dirty[id] == b.dirty[id]))
      && (c.DeleteAccount? ==> d.dirty == b.dirty - {c.id} && d.batchedWrites == b.batchedWrites)
      && (!c.AttrsPut? && !c.DeleteAccount? ==>
            d == b.(backend := d.backend) && (d.backend, ApplyBuffered(b, c).1).0 == Apply(b.backend, c).0)
      && d.lastFlushMs == b.lastFlushMs && d.flushes == b.flushes
  {
    hide Cells, Deleted, Apply, Select;
    if c.AttrsPut? { Later(AttrsOf(b.dirty, c.id), map[], map[]); }
    if c.DeleteAccount? && c.id !in b.dirty { assert b.dirty - {c.id} == b.dirty; }
    AttrReadsChangeNothing(b.backend, c);
  }

  lemma AttrReadsChangeNothing(s: Store, c: Call)
    ensures c.AttrsGet? || c.AttrsAll? ==> Apply(s, c).0 == s
  {
  }

  /**
   A flush stores what is buffered for every account whose put is taken, keeps what was refused as it was, and is
   counted, with its time, exactly when nothing was refused.
   */
  lemma FlushStoresTheRest(b: Buffered, refused: set<AccountId>, now: nat, id: AccountId)
    ensures
      var (d, ok) := Flushed(b, refused, now);
      && (id in d.dirty <==> id in b.dirty && id in refused)
      && (id in d.dirty ==> d.dirty[id] == b.dirty[id])
      && AttrsOf(d.backend.attrs, id) == (if id in refused then AttrsOf(b.backend.attrs, id)
                                          else AttrsOf(b.backend.attrs, id) + AttrsOf(b.dirty, id))
      && d.backend == b.backend.(attrs := d.backend.attrs)
      && (ok <==> forall i | i in b.dirty :: i !in refused)
      && d.flushes == b.flushes + (if ok then 1 else 0) && d.lastFlushMs == (if ok then now else b.lastFlushMs)
      && d.batchedWrites == b.batchedWrites
  {
    hide Merged, Cells;
    MergedAt(b.backend.attrs, b.dirty - refused, id);
    Later(AttrsOf(b.backend.attrs, id), map[], map[]);
    if i :| i in b.dirty && i in refused { assert i in Kept(b.dirty, refused); }
  }

  /** The timer flushes exactly when something waits and there is much of it, in accounts or in attributes, or it is late. */
  lemma TickFlushesIff(b: Buffered, policy: FlushPolicy, refused: set<AccountId>, now: nat)
    requires Valid(b)
    ensures
      var (d, r) := Ticked(b, policy, refused, now);
      var much := |b.dirty| >= policy.maxDirtyAccounts || |Cells(b.dirty)| >= policy.maxDirtyAttrs;
      var late := policy.intervalMs == 0 || now >= b.lastFlushMs + policy.intervalMs;
      if b.dirty != map[] && (much || late)
      then d == Flushed(b, refused, now).0 && r == (if Flushed(b, refused, now).1 then Some(true) else None)
      else d == (if b.dirty == map[] then b.(lastFlushMs := now) else b) && r == Some(false)
  {
    hide Flushed, Cells;
  }

  // ---- Whole runs ----

  datatype Event =
    | Called(c: Call)
    | FlushNow(refused: set<AccountId>, now: nat)
    | Tick(refused: set<AccountId>, now: nat)

  /** A run through the buffer: where it ends and what the callers were told. */
  function RunBuffered(b: Buffered, policy: FlushPolicy, events: seq<Event>): (Buffered, seq<Reply>)
    decreases |events|
  {
    if events == [] then (b, []) else
    match events[0]
    case Called(c) =>
      var (next, reply) := ApplyBuffered(b, c);
      var (last, replies) := RunBuffered(next, policy, events[1..]);
      (last, [reply] + replies)
    case FlushNow(refused, now) => RunBuffered(Flushed(b, refused, now).0, policy, events[1..])
    case Tick(refused, now) => RunBuffered(Ticked(b, policy, refused, now).0, policy, events[1..])
  }

  /** The same calls on a store that keeps everything at once; it is never flushed. */
  function RunReference(s: Store, events: seq<Event>): (Store, seq<Reply>)
    decreases |events|
  {
    if events == [] then (s, []) else
    match events[0]
    case Called(c) =>
      var (next, reply) := Apply(s, c);
      var (last, replies) := RunReference(next, events[1..]);
      (last, [reply] + replies)
    case _ => RunReference(s, events[1..])
  }

  /** Every put of the run is on an id issued by then. */
  ghost predicate AllIssued(s: Store, events: seq<Event>)
    decreases |events|
  {
    events == [] ||
    match events[0]
    case Called(c) => Issued(s, c) && AllIssued(Apply(s, c).0, events[1..])
    case _ => AllIssued(s, events[1..])
  }

  /**
   Main result: over every run, with flushes and ticks wherever they fall and puts failing as they
   like, callers are told what an unbuffered store would have told them.
   */
  lemma {:induction false} RunsAreTransparent(b: Buffered, policy: FlushPolicy, events: seq<Event>)
    requires Valid(b) && AllIssued(View(b), events)
    ensures
      var (last, replies) := RunBuffered(b, policy, events);
      && Valid(last)
      && (View(last), replies) == RunReference(View(b), events)
    decreases |events|
  {
    hide ApplyBuffered, Apply, Flushed, Ticked, Valid;
    if events != [] {
      match events[0] {
        case Called(c) =>
          CallIsTransparent(b, c);
          RunsAreTransparent(ApplyBuffered(b, c).0, policy, events[1..]);
        case FlushNow(refused, now) =>
          FlushIsInvisible(b, refused, now);
          RunsAreTransparent(Flushed(b, refused, now).0, policy, events[1..]);
        case Tick(refused, now) =>
          TickBoundsLoss(b, policy, refused, now);
          RunsAreTransparent(Ticked(b, policy, refused, now).0, policy, events[1..]);
      }
    }
  }

  // ---- Exactly when a run is transparent ----

  /** A creation finds nothing buffered under the new id that it does not carry itself. */
  predicate CreateFits(b: Buffered, c: Call) {
    c.CreateAccount? ==>
      || CreateProblem(b.backend, c.req).Some? || c.req.attrs == map[]
      || forall k | k in Waiting(b) :: k in c.req.attrs && c.req.attrs[k] == Waiting(b)[k]
  }

  /** One call on any buffer: the same answer, and the same view afterwards exactly when a creation fits. */
  lemma CallIsTransparentIff(b: Buffered, c: Call)
    ensures
      var (after, reply) := ApplyBuffered(b, c);
      && reply == Apply(View(b), c).1
      && (View(after) == Apply(View(b), c).0 <==> CreateFits(b, c))
  {
    hide Merged, Cells;
    match c {
      case AttrsGet(id, keys) => GetIsTransparent(b, id, keys);
      case AttrsAll(id) => GetIsTransparent(b, id, []);
      case AttrsPut(id, attrs) => PutIsTransparent(b, id, attrs);
      case DeleteAccount(id) => DeleteIsTransparent(b, id);
      case CreateAccount(req) => CreateIsTransparentIff(b, req);
      case _ => PlainIsTransparent(b, c);
    }
  }

  /** What an event makes of the buffer, and of the store that keeps everything at once. */
  function Next(b: Buffered, policy: FlushPolicy, e: Event): Buffered {
    match e
    case Called(c) => ApplyBuffered(b, c).0
    case FlushNow(refused, now) => Flushed(b, refused, now).0
    case Tick(refused, now) => Ticked(b, policy, refused, now).0
  }

  function NextReference(s: Store, e: Event): Store {
    match e case Called(c) => Apply(s, c).0 case _ => s
  }

  ghost predicate AlwaysFits(b: Buffered, policy: FlushPolicy, events: seq<Event>)
    decreases |events|
  {
    events == [] ||
    ((events[0].Called? ==> CreateFits(b, events[0].c)) && AlwaysFits(Next(b, policy, events[0]), policy, events[1..]))
  }

  /** At every moment of the run the merged view is the store's. */
  ghost predicate AlwaysAgrees(b: Buffered, s: Store, policy: FlushPolicy, events: seq<Event>)
    decreases |events|
  {
    View(b) == s &&
    (events != [] ==> AlwaysAgrees(Next(b, policy, events[0]), NextReference(s, events[0]), policy, events[1..]))
  }

  lemma EventIsTransparentIff(b: Buffered, policy: FlushPolicy, e: Event)
    ensures View(Next(b, policy, e)) == NextReference(View(b), e) <==> (e.Called? ==> CreateFits(b, e.c))
  {
    hide Merged, Cells, ApplyBuffered, Apply, CreateFits;
    match e {
      case Called(c) => CallIsTransparentIff(b, c);
      case FlushNow(refused, now) => MergedFlush(b.backend.attrs, b.dirty, refused);
      case Tick(refused, now) => MergedFlush(b.backend.attrs, b.dirty, refused);
    }
  }

  /**
   Main result, on any run: what callers can see is at every moment what an unbuffered store would show
   exactly when every creation fitted.
   */
  lemma {:induction false} RunsAreTransparentIff(b: Buffered, policy: FlushPolicy, events: seq<Event>)
    ensures AlwaysAgrees(b, View(b), policy, events) <==> AlwaysFits(b, policy, events)
    decreases |events|
  {
    hide View, Next, NextReference, CreateFits;
    if events != [] {
      var c, t := Next(b, policy, events[0]), NextReference(View(b), events[0]);
      EventIsTransparentIff(b, policy, events[0]);
      RunsAreTransparentIff(c, policy, events[1..]);
      if View(c) != t { Disagrees(c, t, policy, events[1..]); }
    }
  }

  /** And then every reply of the run is the one an unbuffered store gives. */
  lemma {:induction false} FittingRunsAnswerAlike(b: Buffered, policy: FlushPolicy, events: seq<Event>)
    requires AlwaysFits(b, policy, events)
    ensures
      var (last, replies) := RunBuffered(b, policy, events);
      (View(last), replies) == RunReference(View(b), events)
    decreases |events|
  {
    hide View, ApplyBuffered, Apply, Flushed, Ticked, CreateFits;
    if events != [] {
      EventIsTransparentIff(b, policy, events[0]);
      if events[0].Called? { CallIsTransparentIff(b, events[0].c); }
      FittingRunsAnswerAlike(Next(b, policy, events[0]), policy, events[1..]);
    }
  }

  lemma Disagrees(b: Buffered, s: Store, policy: FlushPolicy, events: seq<Event>)
    requires View(b) != s
    ensures !AlwaysAgrees(b, s, policy, events)
  {
  }

  lemma OneCall(b: Buffered, s: Store, policy: FlushPolicy, c: Call, rest: seq<Event>)
    ensures RunBuffered(b, policy, [Called(c)] + rest).1
         == [ApplyBuffered(b, c).1] + RunBuffered(ApplyBuffered(b, c).0, policy, rest).1
    ensures RunReference(s, [Called(c)] + rest).1 == [Apply(s, c).1] + RunReference(Apply(s, c).0, rest).1
  {
    assert ([Called(c)] + rest)[1..] == rest;
  }

  const EARLY_PUT := AttrsPut(1, map[[97] := [1]])
  const LATE_CREATE := CreateAccount(NewAccount([97, 98], Xsha1([]), 0, map[[98] := [2]]))

  /** The early put is still there after the account is created: the buffer merges it in. */
  lemma BufferKeepsEarlyPut()
    ensures
      var b2 := ApplyBuffered(ApplyBuffered(Fresh(0), EARLY_PUT).0, LATE_CREATE).0;
      [97] in ApplyBuffered(b2, AttrsAll(1)).1.attrs
  {
    var b1 := ApplyBuffered(Fresh(0), EARLY_PUT).0;
    assert b1.dirty[1] == map[[97] := [1]];
  }

  /** Kept at once, the creation replaces it. */
  lemma CreationReplacesEarlyPut()
    ensures
      var s2 := Apply(Apply(EMPTY, EARLY_PUT).0, LATE_CREATE).0;
      [97] !in Apply(s2, AttrsAll(1)).1.attrs
  {
    AbIsValid();
    var s1 := Apply(EMPTY, EARLY_PUT).0;
    assert [98] in LATE_CREATE.req.attrs;
    assert Apply(s1, LATE_CREATE).0.attrs[1] == LATE_CREATE.req.attrs;
    assert [97 as byte][0] != [98 as byte][0];
  }

  lemma AbIsValid()
    ensures ValidateAccountName([97, 98]) == None
  {
    var ab: Name := [97, 98];
    assert ab[..1] == [97] && ab[..1][..0] == [];
    assert LastIndexOf(ab[..1], AT) == -1;
    assert LastIndexOf(ab, AT) == -1;
    assert IsAlphanumeric(ab[0]);
  }

  /** A put on an id before it is issued can be told apart, by reading the account once it exists. */
  lemma UnissuedPutShows()
    ensures
      var events := [Called(EARLY_PUT)] + ([Called(LATE_CREATE)] + ([Called(AttrsAll(1))] + []));
      RunBuffered(Fresh(0), FlushPolicy(256, 4096, 30000), events).1 != RunReference(EMPTY, events).1
  {
    hide ApplyBuffered, Apply, RunBuffered, RunReference;
    var policy := FlushPolicy(256, 4096, 30000);
    var b1, s1 := ApplyBuffered(Fresh(0), EARLY_PUT).0, Apply(EMPTY, EARLY_PUT).0;
    var b2, s2 := ApplyBuffered(b1, LATE_CREATE).0, Apply(s1, LATE_CREATE).0;
    BufferKeepsEarlyPut();
    CreationReplacesEarlyPut();
    OneCall(b2, s2, policy, AttrsAll(1), []);
    OneCall(b1, s1, policy, LATE_CREATE, [Called(AttrsAll(1))] + []);
    OneCall(Fresh(0), EMPTY, policy, EARLY_PUT, [Called(LATE_CREATE)] + ([Called(AttrsAll(1))] + []));
    var events := [Called(EARLY_PUT)] + ([Called(LATE_CREATE)] + ([Called(AttrsAll(1))] + []));
    assert RunBuffered(Fresh(0), policy, events).1[2] == ApplyBuffered(b2, AttrsAll(1)).1;
    assert RunReference(EMPTY, events).1[2] == Apply(s2, AttrsAll(1)).1;
  }

  // ---- How old a buffered attribute can be ----

  /** When something happens; a flush is told that time or an earlier one, and a tick that time. */
  datatype Timed = Timed(at: nat, event: Event)

  predicate Told(e: Timed) {
    match e.event
    case FlushNow(_, now) => now <= e.at
    case Tick(_, now) => now == e.at
    case _ => true
  }

  /** For each account with something buffered, when the oldest of it was put. */
  ghost function Since(b: Buffered, since: map<AccountId, nat>, policy: FlushPolicy, e: Timed): map<AccountId, nat> {
    match e.event
    case Called(AttrsPut(id, attrs)) => if attrs == map[] || id in since then since else since[id := e.at]
    case Called(DeleteAccount(id)) => since - {id}
    case _ => map id | id in since && id in Next(b, policy, e.event).dirty :: since[id]
  }

  /** By the clock, everything buffered was put since the last flush that emptied the buffer. */
  ghost predicate PutSinceFlush(b: Buffered, since: map<AccountId, nat>, clock: nat) {
    && since.Keys == b.dirty.Keys && b.lastFlushMs <= clock
    && forall id | id in since :: b.lastFlushMs <= since[id] <= clock
  }

  lemma CallKeepsSince(b: Buffered, since: map<AccountId, nat>, clock: nat, policy: FlushPolicy, at: nat, c: Call)
    requires PutSinceFlush(b, since, clock) && clock <= at
    ensures PutSinceFlush(ApplyBuffered(b, c).0, Since(b, since, policy, Timed(at, Called(c))), at)
  {
    hide Apply, Cells, Select, Deleted;
    var d := ApplyBuffered(b, c).0;
    assert forall id :: id in since <==> id in since.Keys;
    assert forall id :: id in b.dirty <==> id in b.dirty.Keys;
    if !c.AttrsPut? && !c.DeleteAccount? {
      assert d.dirty == b.dirty && d.lastFlushMs == b.lastFlushMs;
    }
  }

  lemma FlushKeepsSince(b: Buffered, since: map<AccountId, nat>, clock: nat, policy: FlushPolicy, e: Timed)
    requires PutSinceFlush(b, since, clock) && clock <= e.at && Told(e) && !e.event.Called?
    ensures PutSinceFlush(Next(b, policy, e.event), Since(b, since, policy, e), e.at)
  {
    hide Taken, Cells, Due;
    assert forall id :: id in since <==> id in since.Keys;
    assert forall id :: id in b.dirty <==> id in b.dirty.Keys;
  }

  /** A timed run: where it ends, and since when things are buffered then. */
  ghost function Aged(b: Buffered, since: map<AccountId, nat>, policy: FlushPolicy, es: seq<Timed>): (Buffered, map<AccountId, nat>)
    decreases |es|
  {
    if es == [] then (b, since)
    else Aged(Next(b, policy, es[0].event), Since(b, since, policy, es[0]), policy, es[1..])
  }

  /** From `clock` on time does not go back, and flushes are told it. */
  predicate InTime(clock: nat, es: seq<Timed>)
    decreases |es|
  {
    es == [] || (clock <= es[0].at && Told(es[0]) && InTime(es[0].at, es[1..]))
  }

  function ClockAfter(clock: nat, es: seq<Timed>): nat {
    if es == [] then clock else es[|es| - 1].at
  }

  lemma {:induction false} RunsKeepSince(b: Buffered, since: map<AccountId, nat>, clock: nat, policy: FlushPolicy, es: seq<Timed>)
    requires PutSinceFlush(b, since, clock) && InTime(clock, es)
    ensures var (last, ages) := Aged(b, since, policy, es); PutSinceFlush(last, ages, ClockAfter(clock, es))
    decreases |es|
  {
    hide PutSinceFlush, Next, Since, Told;
    if es != [] {
      var e := es[0];
      match e.event {
        case Called(c) => CalledKeepsSince(b, since, clock, policy, e, c);
        case _ => FlushKeepsSince(b, since, clock, policy, e);
      }
      RunsKeepSince(Next(b, policy, e.event), Since(b, since, policy, e), e.at, policy, es[1..]);
    }
  }

  lemma CalledKeepsSince(b: Buffered, since: map<AccountId, nat>, clock: nat, policy: FlushPolicy, e: Timed, c: Call)
    requires PutSinceFlush(b, since, clock) && clock <= e.at && e.event == Called(c)
    ensures PutSinceFlush(Next(b, policy, e.event), Since(b, since, policy, e), e.at)
  {
    hide PutSinceFlush, ApplyBuffered, Since;
    CallKeepsSince(b, since, clock, policy, e.at, c);
  }

  /**
   Main result on what a crash can cost: on a clock that does not go back, after any run and a tick that did not
   fail, everything still buffered was put less than the interval ago, and there is less of it than the policy allows.
   */
  lemma LossIsYoung(start: nat, policy: FlushPolicy, es: seq<Timed>, refused: set<AccountId>, at: nat)
    requires InTime(start, es) && ClockAfter(start, es) <= at
    ensures
      var (last, ages) := Aged(Fresh(start), map[], policy, es);
      var tick := Tick(refused, at);
      var (after, r) := Ticked(last, policy, refused, at);
      var since := Since(last, ages, policy, Timed(at, tick));
      && since.Keys == after.dirty.Keys
      && (r.Some? && after.dirty != map[] ==>
            && (forall id | id in since :: since[id] <= at < since[id] + policy.intervalMs)
            && |after.dirty| < policy.maxDirtyAccounts && after.dirtyAttrs < policy.maxDirtyAttrs)
  {
    hide Ticked, Since, Aged;
    FreshIsEmpty(start);
    RunsKeepSince(Fresh(start), map[], start, policy, es);
    var (last, ages) := Aged(Fresh(start), map[], policy, es);
    var tick := Timed(at, Tick(refused, at));
    FlushKeepsSince(last, ages, ClockAfter(start, es), policy, tick);
    TickedIsNotDue(last, policy, refused, at);
  }

  lemma FreshIsEmpty(start: nat)
    ensures PutSinceFlush(Fresh(start), map[], start)
  {
  }

  lemma TickedIsNotDue(b: Buffered, policy: FlushPolicy, refused: set<AccountId>, now: nat)
    ensures var (after, r) := Ticked(b, policy, refused, now); r.Some? ==> after.dirty == map[] || !Due(after, policy, now)
  {
    hide Taken, Cells;
  }
}
