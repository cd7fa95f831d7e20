/** The write-behind layer as it runs: maps updated in place, loops over drained buffers. */
module WriteBehindStore {
  import opened Bytes
  import opened Text
  import opened Storage
  import opened WriteBehind

  lemma CellsAdd(dirty: Dirty, id: AccountId, k: Name, v: Name)
    requires id in dirty
    ensures Cells(dirty[id := dirty[id][k := v]]) == Cells(dirty) + {(id, k)}
  {
  }

  lemma CellsOfEmptySlot(dirty: Dirty, id: AccountId)
    requires id !in dirty
    ensures Cells(dirty[id := map[]]) == Cells(dirty)
  {
  }

  /** The cells of one account are as many as its attributes. */
  lemma {:induction false} OneAccount(id: AccountId, attrs: AttrMap)
    ensures |Cells(map[id := attrs])| == |attrs|
    decreases |attrs|
  {
    if attrs == map[] {
      assert Cells(map[id := attrs]) == {};
    } else {
      var k :| k in attrs;
      var rest := attrs - {k};
      OneAccount(id, rest);
      assert attrs == rest[k := attrs[k]];
      CellsAdd(map[id := rest], id, k, attrs[k]);
      assert map[id := rest][id := rest[k := attrs[k]]] == map[id := attrs];
      assert (id, k) !in Cells(map[id := rest]);
    }
  }

  /** The sum of the sizes of the buffered maps. */
  method Recount(dirty: Dirty) returns (n: nat)
    ensures n == |Cells(dirty)|
  {
    n := 0;
    var left := dirty;
    while left != map[]
      invariant left.Keys <= dirty.Keys && forall id | id in left :: left[id] == dirty[id]
      invariant n + |Cells(left)| == |Cells(dirty)|
      decreases |left|
    {
      var id :| id in left;
      var one: Dirty := map[id := left[id]];
      assert Cells(left) == Cells(left - {id}) + Cells(one);
      assert Cells(left - {id}) !! Cells(one);
      OneAccount(id, left[id]);
      n := n + |left[id]|;
      left := left - {id};
    }
    assert Cells(left) == {};
  }

  /** Moving an entry of `todo` into `slot` keeps their merge. */
  lemma Move(slot: AttrMap, todo: AttrMap, k: Name)
    requires k in todo
    ensures slot[k := todo[k]] + (todo - {k}) == slot + todo
  {
    var x, y := slot[k := todo[k]] + (todo - {k}), slot + todo;
    assert forall i :: i in x <==> i in y;
    forall i | i in x ensures x[i] == y[i] {
      if i in todo && i != k { assert i in todo - {k}; }
    }
  }

  lemma Shrink<K, V>(m: map<K, V>, k: K)
    requires k in m
    ensures |m - {k}| == |m| - 1
  {
    assert (m - {k}).Keys == m.Keys - {k};
    assert |m| == |m.Keys| && |m - {k}| == |(m - {k}).Keys|;
  }

  lemma KeptNothing(all: Dirty)
    ensures Kept(all, {}) == map[]
  {
  }

  lemma Alone(attrs: AttrMap)
    ensures map[] + attrs == attrs && attrs + map[] == attrs
  {
  }

  lemma KeptAdd(all: Dirty, refused: set<AccountId>, id: AccountId)
    requires id in all && id !in refused
    ensures Kept(all, refused + {id}) == Kept(all, refused)[id := AttrsOf(Kept(all, refused), id) + all[id]]
  {
    Alone(all[id]);
    assert Kept(all, refused + {id}) == Kept(all, refused)[id := all[id]];
  }

  lemma SlotUpdate(dirty: Dirty, id: AccountId, slot: AttrMap)
    ensures dirty[id := map[]][id := slot] == dirty[id := slot]
  {
  }

  lemma SelectNothing(keys: seq<Name>)
    ensures Select(map[], keys) == map[]
  {
  }

  /** The buffered values of `keys` laid over what the backend gave. */
  method Overlay(stored: AttrMap, pending: AttrMap, keys: seq<Name>) returns (out: AttrMap)
    ensures out == stored + Select(pending, keys)
  {
    hide Select;
    out := stored;
    assert keys[..0] == [];
    SelectNone(pending);
    Alone(stored);
    for i := 0 to |keys|
      invariant out == stored + Select(pending, keys[..i])
    {
      assert keys[..i + 1] == keys[..i] + [keys[i]];
      SelectOneMore(stored, pending, keys[..i], keys[i]);
      if keys[i] in pending {
        out := out[keys[i] := pending[keys[i]]];
      }
    }
    assert keys[..|keys|] == keys;
  }

  lemma SelectNone(all: AttrMap)
    ensures Select(all, []) == map[]
  {
  }

  lemma SelectOneMore(stored: AttrMap, all: AttrMap, keys: seq<Name>, k: Name)
    ensures stored + Select(all, keys + [k])
         == if k in all then (stored + Select(all, keys))[k := all[k]] else stored + Select(all, keys)
  {
    if k in all {
      assert Select(all, keys + [k]) == Select(all, keys)[k := all[k]];
    } else {
      assert Select(all, keys + [k]) == Select(all, keys);
    }
  }

  class WriteBehindStore {
    const backend: MemoryStorage
    const policy: FlushPolicy
    var dirty: Dirty
    var dirtyAttrs: nat
    var lastFlushMs: nat
    var flushes: nat
    var batchedWrites: nat

    ghost function State(): Buffered
      reads this, backend
    {
      Buffered(backend.View(), dirty, dirtyAttrs, lastFlushMs, flushes, batchedWrites)
    }

    constructor (policy: FlushPolicy, now: nat)
      ensures State() == Fresh(now) && Valid(State()) && this.policy == policy && fresh(backend)
    {
      this.policy := policy;
      dirty, dirtyAttrs, lastFlushMs, flushes, batchedWrites := map[], 0, now, 0, 0;
      backend := new MemoryStorage();
      new;
      assert Cells(dirty) == {};
    }

    method AttrsGet(id: AccountId, keys: seq<Name>) returns (out: AttrMap)
      ensures ApplyBuffered(State(), Call.AttrsGet(id, keys)) == (State(), Attrs(out))
    {
      hide Select;
      var stored := backend.Get(id, keys);
      if id in dirty {
        out := Overlay(stored, dirty[id], keys);
      } else {
        out := stored;
        SelectNothing(keys);
        Alone(stored);
      }
    }

    method AttrsAll(id: AccountId) returns (out: AttrMap)
      ensures ApplyBuffered(State(), Call.AttrsAll(id)) == (State(), Attrs(out))
    {
      out := backend.All(id);
      if id in dirty {
        out := out + dirty[id];
      } else {
        assert out + map[] == out;
      }
    }

    /** One attribute into an account's slot; a key already there is not counted again. */
    method BufferOne(id: AccountId, k: Name, v: Name)
      requires id in dirty && dirtyAttrs == |Cells(dirty)|
      modifies this`dirty, this`dirtyAttrs, this`batchedWrites
      ensures dirty == old(dirty)[id := old(dirty)[id][k := v]]
      ensures dirtyAttrs == |Cells(dirty)| && batchedWrites == old(batchedWrites) + 1
    {
      CellsAdd(dirty, id, k, v);
      if k !in dirty[id] {
        assert (id, k) !in Cells(dirty);
        dirtyAttrs := dirtyAttrs + 1;
      } else {
        assert (id, k) in Cells(dirty);
        assert Cells(dirty) + {(id, k)} == Cells(dirty);
      }
      dirty := dirty[id := dirty[id][k := v]];
      batchedWrites := batchedWrites + 1;
    }

    method AttrsPut(id: AccountId, attrs: AttrMap)
      requires Valid(State())
      modifies this`dirty, this`dirtyAttrs, this`batchedWrites
      ensures State() == PutBuffered(old(State()), id, attrs)
    {
      hide Cells;
      if attrs == map[] {
        return;
      }
      ghost var before := dirty;
      if id !in dirty {
        CellsOfEmptySlot(dirty, id);
        dirty := dirty[id := map[]];
      }
      ghost var slot := dirty[id];
      BufferAll(id, attrs);
      SlotUpdate(before, id, slot + attrs);
    }

    method BufferAll(id: AccountId, attrs: AttrMap)
      requires id in dirty && dirtyAttrs == |Cells(dirty)|
      modifies this`dirty, this`dirtyAttrs, this`batchedWrites
      ensures dirty == old(dirty)[id := old(dirty)[id] + attrs]
      ensures dirtyAttrs == |Cells(dirty)| && batchedWrites == old(batchedWrites) + |attrs|
    {
      hide Cells;
      ghost var before := dirty;
      var todo := attrs;
      while todo != map[]
        invariant id in dirty && dirty == before[id := dirty[id]]
        invariant dirty[id] + todo == before[id] + attrs
        invariant dirtyAttrs == |Cells(dirty)|
        invariant batchedWrites + |todo| == old(batchedWrites) + |attrs|
        decreases |todo|
      {
        var k :| k in todo;
        Move(dirty[id], todo, k);
        Shrink(todo, k);
        BufferOne(id, k, todo[k]);
        todo := todo - {k};
      }
      Alone(dirty[id]);
    }

    method DeleteAccount(id: AccountId)
      requires Valid(State())
      modifies this, backend
      ensures (State(), Done) == ApplyBuffered(old(State()), Call.DeleteAccount(id))
    {
      if id in dirty {
        dirty := dirty - {id};
        dirtyAttrs := Recount(dirty);
      }
      backend.Delete(id);
    }

    method CreateAccount(req: NewAccount) returns (r: Result<Account, StorageError>)
      modifies backend
      ensures (State(), if r.Ok? then TheAccount(Some(r.value)) else Failed(r.error))
           == ApplyBuffered(old(State()), Call.CreateAccount(req))
    {
      r := backend.Create(req);
    }

    /** Try to put every account of `all`; `kept` is what the backend refused. */
    method TryAll(all: Dirty) returns (kept: Dirty, ghost refused: set<AccountId>)
      requires forall id | id in all :: all[id] != map[]
      modifies backend
      ensures refused <= all.Keys && kept == Kept(all, refused)
      ensures backend.View() == old(backend.View()).(attrs := Taken(old(backend.View()).attrs, all, refused))
    {
      hide Taken, Put, Kept, AttrsOf;
      assert Kept(all, {}) == map[] by { KeptNothing(all); }
      var pending := all;
      ghost var stored := backend.View();
      kept, refused := map[], {};
      NothingTaken(stored.attrs, all, refused);
      while pending != map[]
        invariant pending.Keys <= all.Keys && forall id | id in pending :: pending[id] == all[id]
        invariant refused <= all.Keys && refused !! pending.Keys
        invariant kept == Kept(all, refused)
        invariant backend.View() == stored.(attrs := Taken(stored.attrs, all - pending.Keys, refused))
        decreases |pending|
      {
        var id :| id in pending;
        var attrs := pending[id];
        var taken := backend.TryPutAttrs(id, attrs);
        TakeOne(stored.attrs, all, pending, refused, id, taken);
        if !taken {
          KeptAdd(all, refused, id);
          kept := kept[id := AttrsOf(kept, id) + attrs];
          refused := refused + {id};
        }
        pending := pending - {id};
      }
      assert all - {} == all;
    }

    /** Drain the buffer, try every account, keep what was refused; `refused` is whatever the backend did. */
    method FlushNow(now: nat) returns (ok: bool, ghost refused: set<AccountId>)
      requires Valid(State())
      modifies this, backend
      ensures (State(), ok) == Flushed(old(State()), refused, now)
    {
      hide Taken, Cells, Kept;
      var pending := dirty;
      dirty := map[];
      var kept;
      kept, refused := TryAll(pending);
      dirty := kept;
      dirtyAttrs := Recount(dirty);
      if kept != map[] {
        return false, refused;
      }
      lastFlushMs := now;
      flushes := flushes + 1;
      return true, refused;
    }

    method Tick(now: nat) returns (r: Option<bool>, ghost refused: set<AccountId>)
      requires Valid(State())
      modifies this, backend
      ensures (State(), r) == Ticked(old(State()), policy, refused, now)
    {
      hide Flushed, Cells;
      refused := {};
      if dirty == map[] {
        lastFlushMs := now;
        return Some(false), refused;
      }
      var due := |dirty| >= policy.maxDirtyAccounts || dirtyAttrs >= policy.maxDirtyAttrs
                 || Max(now - lastFlushMs, 0) >= policy.intervalMs;
      if !due {
        return Some(false), refused;
      }
      var ok;
      ok, refused := FlushNow(now);
      r := if ok then Some(true) else None;
    }
  }

  lemma NothingTaken(attrs: map<AccountId, AttrMap>, all: Dirty, refused: set<AccountId>)
    ensures Taken(attrs, all - all.Keys, refused) == attrs
  {
    assert all - all.Keys - refused == map[];
    var x := Merged(attrs, map[]);
    forall id | id in x ensures AttrsOf(x, id) == AttrsOf(attrs, id) {
      MergedAt(attrs, map[], id);
      Later(AttrsOf(attrs, id), map[], map[]);
    }
    assert x.Keys == attrs.Keys;
    SameTable(x, attrs);
  }

  /** One more account of the drained buffer tried. */
  lemma TakeOne(attrs: map<AccountId, AttrMap>, all: Dirty, pending: Dirty, refused: set<AccountId>, id: AccountId, taken: bool)
    requires pending.Keys <= all.Keys && id in pending && pending[id] == all[id] && all[id] != map[]
    requires refused !! pending.Keys
    ensures
      var before := Taken(attrs, all - pending.Keys, refused);
      var left := pending.Keys - {id};
      && (taken ==> Put(before, id, all[id]) == Taken(attrs, all - left, refused))
      && (!taken ==> before == Taken(attrs, all - left, refused + {id}))
  {
    var left := pending.Keys - {id};
    var done := all - pending.Keys - refused;
    if taken {
      assert all - left - refused == done[id := AttrsOf(done, id) + all[id]] by {
        assert AttrsOf(done, id) == map[];
        assert AttrsOf(done, id) + all[id] == all[id];
      }
      MergedPut(attrs, done, id, all[id]);
    } else {
      assert all - left - (refused + {id}) == done;
    }
  }
}
