/** Accounts, attributes, bans and characters: what a store answers, and the in-memory store that is its reference. */
module Storage {
  import opened Bytes
  import opened Text

  type AccountId = nat
  type AttrMap = map<Name, Name>

  datatype Credential = Xsha1(digest: seq<byte>) | Srp(salt: seq<byte>, verifier: seq<byte>)
  datatype Account = Account(id: AccountId, name: Name, credential: Credential, createdAt: nat)
  datatype NewAccount = NewAccount(name: Name, credential: Credential, createdAt: nat, attrs: AttrMap)
  datatype BanScope = Node | Network
  datatype Ban = Ban(account: AccountId, scope: BanScope, reason: Name, appliedAt: nat, expiresAt: Option<nat>)

  datatype Character = Character(
    account: AccountId, name: Name, class_: byte, status: byte, level: byte, progression: byte,
    createdAt: nat, lastPlayed: nat, save: Option<seq<byte>>)

  datatype StorageError = NameTaken | NoSuchAccount | InvalidName(why: NameProblem) | Backend

  datatype Store = Store(
    accounts: map<AccountId, Account>,
    byName: map<Name, AccountId>,
    attrs: map<AccountId, AttrMap>,
    bans: map<(AccountId, BanScope), Ban>,
    characters: seq<Character>,
    nextId: AccountId)

  const EMPTY := Store(map[], map[], map[], map[], [], 0)

  datatype Call =
    | AccountByName(name: Name)
    | AccountById(id: AccountId)
    | CreateAccount(req: NewAccount)
    | SetCredential(id: AccountId, credential: Credential)
    | AttrsGet(id: AccountId, keys: seq<Name>)
    | AttrsAll(id: AccountId)
    | AttrsPut(id: AccountId, attrs: AttrMap)
    | BanPut(ban: Ban)
    | BanGet(id: AccountId, now: nat)
    | BanClear(id: AccountId, scope: BanScope)
    | AccountCount
    | ListAccounts(offset: nat, limit: u32)
    | DeleteAccount(id: AccountId)
    | CharactersOf(account: AccountId)
    | CharacterByName(name: Name)
    | CreateCharacter(character: Character)
    | UpdateCharacter(character: Character)
    | DeleteCharacter(account: AccountId, name: Name)

  datatype Reply =
    | Done
    | Failed(why: StorageError)
    | TheAccount(account: Option<Account>)
    | Attrs(attrs: AttrMap)
    | TheBan(ban: Option<Ban>)
    | Count(n: nat)
    | Accounts(accounts: seq<Account>)
    | Characters(characters: seq<Character>)
    | TheCharacter(character: Option<Character>)
    | Found(found: bool)

  function ActiveAt(b: Ban, now: nat): bool {
    match b.expiresAt
    case None => true
    case Some(e) => now < e
  }

  function AttrsOf(attrs: map<AccountId, AttrMap>, id: AccountId): AttrMap {
    if id in attrs then attrs[id] else map[]
  }

  /** The part of `all` under `keys`. */
  function Select(all: AttrMap, keys: seq<Name>): AttrMap {
    map k | k in keys && k in all :: all[k]
  }

  function Put(attrs: map<AccountId, AttrMap>, id: AccountId, more: AttrMap): map<AccountId, AttrMap> {
    if more == map[] then attrs else attrs[id := AttrsOf(attrs, id) + more]
  }

  /** Network scope outranks node scope. */
  function ActiveBan(bans: map<(AccountId, BanScope), Ban>, id: AccountId, now: nat): Option<Ban> {
    if (id, Network) in bans && ActiveAt(bans[(id, Network)], now) then Some(bans[(id, Network)])
    else if (id, Node) in bans && ActiveAt(bans[(id, Node)], now) then Some(bans[(id, Node)])
    else None
  }

  /** Why an account cannot be created, if it cannot. */
  function CreateProblem(s: Store, req: NewAccount): Option<StorageError> {
    match ValidateAccountName(req.name)
    case Some(why) => Some(InvalidName(why))
    case None => if Lower(req.name) in s.byName then Some(NameTaken) else None
  }

  function Created(s: Store, req: NewAccount): (Store, Reply) {
    var id := s.nextId + 1;
    var account := Account(id, req.name, req.credential, req.createdAt);
    (Store(
       s.accounts[id := account],
       s.byName[Lower(req.name) := id],
       if req.attrs == map[] then s.attrs else s.attrs[id := req.attrs],
       s.bans,
       s.characters,
       id),
     TheAccount(Some(account)))
  }

  function Deleted(s: Store, id: AccountId): Store {
    Store(
      s.accounts - {id},
      if id in s.accounts then s.byName - {Lower(s.accounts[id].name)} else s.byName,
      s.attrs - {id},
      map k | k in s.bans && k.0 != id :: s.bans[k],
      WithoutOwner(s.characters, id),
      s.nextId)
  }

  // ---- Accounts in order ----

  ghost predicate Ascending(ids: seq<AccountId>) {
    forall i, j | 0 <= i < j < |ids| :: ids[i] < ids[j]
  }

  ghost predicate IsLeast(ids: set<AccountId>, m: AccountId) {
    m in ids && forall i | i in ids :: m <= i
  }

  lemma {:induction false} LeastExists(ids: set<AccountId>)
    requires ids != {}
    ensures exists m :: IsLeast(ids, m)
  {
    var m :| m in ids;
    var below := set i | i in ids && i < m;
    if below == {} {
      assert forall i | i in ids :: i !in below;
      assert IsLeast(ids, m);
    } else {
      assert below < ids;
      LeastExists(below);
      var k :| IsLeast(below, k);
      assert forall i | i in ids :: i in below || i >= m;
      assert IsLeast(ids, k);
    }
  }

  function Least(ids: set<AccountId>): (m: AccountId)
    requires ids != {}
    ensures IsLeast(ids, m)
  {
    LeastExists(ids);
    var m :| m in ids && forall i | i in ids :: m <= i;
    m
  }

  /** The ids in ascending order. */
  function InOrder(ids: set<AccountId>): (s: seq<AccountId>)
    ensures forall i :: i in s <==> i in ids
  {
    if ids == {} then [] else [Least(ids)] + InOrder(ids - {Least(ids)})
  }

  lemma {:induction false} InOrderAscends(ids: set<AccountId>)
    ensures Ascending(InOrder(ids)) && |InOrder(ids)| == |ids|
  {
    hide Least;
    if ids != {} {
      var m, others := Least(ids), ids - {Least(ids)};
      InOrderAscends(others);
      Ascends(m, InOrder(others), others);
    }
  }

  lemma Ascends(m: AccountId, rest: seq<AccountId>, others: set<AccountId>)
    requires Ascending(rest) && (forall i | i in rest :: i in others) && forall i | i in others :: m < i
    ensures Ascending([m] + rest)
  {
    forall j | 0 <= j < |rest| ensures m < rest[j] { assert rest[j] in rest; }
  }

  function Page(ids: seq<AccountId>, offset: nat, limit: nat): seq<AccountId> {
    if offset >= |ids| then [] else ids[offset..offset + Min(limit, |ids| - offset)]
  }

  function TheAccounts(accounts: map<AccountId, Account>, ids: seq<AccountId>): (r: seq<Account>)
    requires forall i | i in ids :: i in accounts
    ensures |r| == |ids| && forall i | 0 <= i < |ids| :: r[i] == accounts[ids[i]]
  {
    if ids == [] then [] else [accounts[ids[0]]] + TheAccounts(accounts, ids[1..])
  }

  // ---- Characters ----

  function WithoutOwner(cs: seq<Character>, account: AccountId): (r: seq<Character>)
    ensures forall c :: c in r <==> c in cs && c.account != account
  {
    if cs == [] then []
    else (if cs[0].account != account then [cs[0]] else []) + WithoutOwner(cs[1..], account)
  }

  function OfOwner(cs: seq<Character>, account: AccountId): (r: seq<Character>)
    ensures forall c :: c in r <==> c in cs && c.account == account
  {
    if cs == [] then []
    else (if cs[0].account == account then [cs[0]] else []) + OfOwner(cs[1..], account)
  }

  predicate Bears(c: Character, name: Name) {
    Lower(c.name) == Lower(name)
  }

  /** Where the first character of that name is; with an owner, the first of the owner's. */
  function CharacterAt(cs: seq<Character>, owner: Option<AccountId>, name: Name): (i: nat)
    ensures i <= |cs|
    ensures i < |cs| ==> Bears(cs[i], name) && (owner.Some? ==> cs[i].account == owner.value)
    ensures forall j | 0 <= j < i :: !(Bears(cs[j], name) && (owner.Some? ==> cs[j].account == owner.value))
  {
    if cs == [] || (Bears(cs[0], name) && (owner.Some? ==> cs[0].account == owner.value)) then 0
    else 1 + CharacterAt(cs[1..], owner, name)
  }

  function WithoutNamed(cs: seq<Character>, account: AccountId, name: Name): (r: seq<Character>)
    ensures forall c :: c in r <==> c in cs && !(c.account == account && Bears(c, name))
    ensures |r| <= |cs| && (|r| == |cs| ==> r == cs)
  {
    if cs == [] then []
    else (if cs[0].account == account && Bears(cs[0], name) then [] else [cs[0]]) + WithoutNamed(cs[1..], account, name)
  }

  /** What an update changes: not the owner, the name, the class or the time of creation. */
  function Updated(old_: Character, with: Character): Character {
    old_.(status := with.status, level := with.level, progression := with.progression,
          lastPlayed := with.lastPlayed, save := with.save)
  }

  /** One call on a store that keeps everything at once. */
  function Apply(s: Store, c: Call): (Store, Reply) {
    match c
    case AccountByName(name) =>
      (s, TheAccount(
         if Lower(name) in s.byName && s.byName[Lower(name)] in s.accounts then Some(s.accounts[s.byName[Lower(name)]]) else None))
    case AccountById(id) =>
      (s, TheAccount(if id in s.accounts then Some(s.accounts[id]) else None))
    case CreateAccount(req) =>
      (match CreateProblem(s, req)
       case Some(e) => (s, Failed(e))
       case None => Created(s, req))
    case SetCredential(id, credential) =>
      if id !in s.accounts then (s, Failed(NoSuchAccount))
      else (s.(accounts := s.accounts[id := s.accounts[id].(credential := credential)]), Done)
    case AttrsGet(id, keys) => (s, Attrs(Select(AttrsOf(s.attrs, id), keys)))
    case AttrsAll(id) => (s, Attrs(AttrsOf(s.attrs, id)))
    case AttrsPut(id, attrs) => (s.(attrs := Put(s.attrs, id, attrs)), Done)
    case BanPut(ban) => (s.(bans := s.bans[(ban.account, ban.scope) := ban]), Done)
    case BanGet(id, now) => (s, TheBan(ActiveBan(s.bans, id, now)))
    case BanClear(id, scope) => (s.(bans := s.bans - {(id, scope)}), Done)
    case AccountCount => (s, Count(|s.accounts|))
    case ListAccounts(offset, limit) =>
      (s, Accounts(TheAccounts(s.accounts, Page(InOrder(s.accounts.Keys), offset, limit))))
    case DeleteAccount(id) => (Deleted(s, id), Done)
    case CharactersOf(account) => (s, Characters(OfOwner(s.characters, account)))
    case CharacterByName(name) =>
      var i := CharacterAt(s.characters, None, name);
      (s, TheCharacter(if i < |s.characters| then Some(s.characters[i]) else None))
    case CreateCharacter(c) =>
      if c.account !in s.accounts then (s, Failed(NoSuchAccount))
      else if CharacterAt(s.characters, None, c.name) < |s.characters| then (s, Failed(NameTaken))
      else (s.(characters := s.characters + [c]), Done)
    case UpdateCharacter(c) =>
      var i := CharacterAt(s.characters, Some(c.account), c.name);
      if i >= |s.characters| then (s, Found(false))
      else (s.(characters := s.characters[i := Updated(s.characters[i], c)]), Found(true))
    case DeleteCharacter(account, name) =>
      var left := WithoutNamed(s.characters, account, name);
      (s.(characters := left), Found(|left| != |s.characters|))
  }

  // ---- What every call keeps ----

  /** Accounts and names are each other's inverse, and no id is beyond the last one issued. */
  ghost predicate AccountsInOrder(s: Store) {
    && (forall id | id in s.accounts :: AccountInOrder(s, id))
    && (forall name | name in s.byName :: s.byName[name] in s.accounts && Lower(s.accounts[s.byName[name]].name) == name)
  }

  ghost predicate AccountInOrder(s: Store, id: AccountId)
    requires id in s.accounts
  {
    var a := s.accounts[id];
    a.id == id <= s.nextId && Lower(a.name) in s.byName && s.byName[Lower(a.name)] == id
  }

  /** Characters have owners, and no two have one name, whoever owns them. */
  ghost predicate CharactersInOrder(s: Store) {
    && (forall c | c in s.characters :: c.account in s.accounts)
    && NamesApart(s.characters)
  }

  ghost predicate NamesApart(cs: seq<Character>) {
    forall i, j | 0 <= i < j < |cs| :: Lower(cs[i].name) != Lower(cs[j].name)
  }

  lemma CreateKeepsAccounts(s: Store, req: NewAccount)
    requires AccountsInOrder(s) && CreateProblem(s, req).None?
    ensures AccountsInOrder(Created(s, req).0)
  {
    hide Lower, ValidateAccountName;
    var t := Created(s, req).0;
    forall id | id in t.accounts ensures AccountInOrder(t, id) {
      if id in s.accounts { assert AccountInOrder(s, id); }
    }
  }

  lemma DeleteKeepsAccounts(s: Store, id: AccountId)
    requires AccountsInOrder(s)
    ensures AccountsInOrder(Deleted(s, id))
  {
    hide Lower;
    var t := Deleted(s, id);
    if id in s.accounts { assert AccountInOrder(s, id); }
    forall i | i in t.accounts ensures AccountInOrder(t, i) { assert AccountInOrder(s, i); }
  }

  lemma CredentialKeepsAccounts(s: Store, id: AccountId, credential: Credential)
    requires AccountsInOrder(s) && id in s.accounts
    ensures AccountsInOrder(s.(accounts := s.accounts[id := s.accounts[id].(credential := credential)]))
  {
    hide Lower;
    var t := s.(accounts := s.accounts[id := s.accounts[id].(credential := credential)]);
    assert AccountInOrder(s, id);
    forall i | i in t.accounts ensures AccountInOrder(t, i) { assert AccountInOrder(s, i); }
  }

  lemma SameAccounts(s: Store, t: Store)
    requires AccountsInOrder(s) && t.accounts == s.accounts && t.byName == s.byName && t.nextId == s.nextId
    ensures AccountsInOrder(t)
  {
    forall i | i in t.accounts ensures AccountInOrder(t, i) { assert AccountInOrder(s, i); }
  }

  lemma {:induction false} WithoutOwnerApart(cs: seq<Character>, account: AccountId)
    requires NamesApart(cs)
    ensures NamesApart(WithoutOwner(cs, account))
    decreases |cs|
  {
    hide Lower;
    if cs != [] {
      WithoutOwnerApart(cs[1..], account);
      FirstApart(cs, WithoutOwner(cs[1..], account));
    }
  }

  lemma {:induction false} WithoutNamedApart(cs: seq<Character>, account: AccountId, name: Name)
    requires NamesApart(cs)
    ensures NamesApart(WithoutNamed(cs, account, name))
    decreases |cs|
  {
    hide Lower;
    if cs != [] {
      WithoutNamedApart(cs[1..], account, name);
      FirstApart(cs, WithoutNamed(cs[1..], account, name));
    }
  }

  lemma FirstApart(cs: seq<Character>, rest: seq<Character>)
    requires cs != [] && NamesApart(cs) && NamesApart(rest) && forall c | c in rest :: c in cs[1..]
    ensures NamesApart([cs[0]] + rest)
  {
    hide Lower;
    forall j | 0 <= j < |rest| ensures Lower(cs[0].name) != Lower(rest[j].name) {
      assert rest[j] in cs[1..];
    }
  }

  lemma UpdateApart(cs: seq<Character>, i: nat, with: Character)
    requires NamesApart(cs) && i < |cs|
    ensures NamesApart(cs[i := Updated(cs[i], with)])
  {
    hide Lower;
  }

  lemma AppendApart(cs: seq<Character>, c: Character)
    requires NamesApart(cs) && CharacterAt(cs, None, c.name) >= |cs|
    ensures NamesApart(cs + [c])
  {
    hide Lower;
    forall i | 0 <= i < |cs| ensures Lower(cs[i].name) != Lower(c.name) {
      assert !Bears(cs[i], c.name);
    }
  }

  lemma ApplyKeepsAccounts(s: Store, c: Call)
    requires AccountsInOrder(s)
    ensures AccountsInOrder(Apply(s, c).0)
  {
    hide AccountsInOrder, Lower, InOrder, TheAccounts, ActiveBan, Select, Put, CharacterAt, CreateProblem, WithoutOwner,
      WithoutNamed, OfOwner, Created, Deleted;
    match c {
      case CreateAccount(req) => if CreateProblem(s, req).None? { CreateKeepsAccounts(s, req); }
      case SetCredential(id, credential) => if id in s.accounts { CredentialKeepsAccounts(s, id, credential); }
      case DeleteAccount(id) => DeleteKeepsAccounts(s, id);
      case _ => SameAccounts(s, Apply(s, c).0);
    }
  }

  /** Nothing about characters or who may own them has changed, except that there may be more accounts. */
  lemma SameCharacters(s: Store, t: Store)
    requires CharactersInOrder(s) && t.characters == s.characters && s.accounts.Keys <= t.accounts.Keys
    ensures CharactersInOrder(t)
  {
    assert forall id | id in s.accounts :: id in t.accounts.Keys;
  }

  lemma ApplyKeepsCharacters(s: Store, c: Call)
    requires CharactersInOrder(s)
    ensures CharactersInOrder(Apply(s, c).0)
  {
    hide NamesApart, Lower, InOrder, TheAccounts, ActiveBan, Select, Put, CharacterAt, CreateProblem, WithoutOwner, WithoutNamed, OfOwner;
    match c {
      case DeleteAccount(id) => WithoutOwnerApart(s.characters, id);
      case CreateCharacter(ch) =>
        if CharacterAt(s.characters, None, ch.name) >= |s.characters| { AppendApart(s.characters, ch); }
      case UpdateCharacter(ch) =>
        var i := CharacterAt(s.characters, Some(ch.account), ch.name);
        if i < |s.characters| { UpdateApart(s.characters, i, ch); }
      case DeleteCharacter(account, name) => WithoutNamedApart(s.characters, account, name);
      case _ => SameCharacters(s, Apply(s, c).0);
    }
  }

  /** Every call keeps accounts and names in step, and characters owned and apart by name. */
  lemma ApplyKeepsOrder(s: Store, c: Call)
    requires AccountsInOrder(s) && CharactersInOrder(s)
    ensures AccountsInOrder(Apply(s, c).0) && CharactersInOrder(Apply(s, c).0)
  {
    hide AccountsInOrder, CharactersInOrder, Apply;
    ApplyKeepsAccounts(s, c);
    ApplyKeepsCharacters(s, c);
  }

  /** A deleted account leaves nothing behind under its id, and its name is free again. */
  lemma DeletedIsGone(s: Store, id: AccountId)
    requires AccountsInOrder(s)
    ensures
      var t := Deleted(s, id);
      && id !in t.accounts && id !in t.attrs && id !in t.byName.Values
      && (forall k | k in t.bans :: k.0 != id)
      && (forall c | c in t.characters :: c.account != id)
      && (id in s.accounts ==> Lower(s.accounts[id].name) !in t.byName)
  {
    hide Lower;
    DeleteKeepsAccounts(s, id);
  }

  /** The in-memory store: maps updated in place. */
  class MemoryStorage {
    var accounts: map<AccountId, Account>
    var byName: map<Name, AccountId>
    var attrs: map<AccountId, AttrMap>
    var bans: map<(AccountId, BanScope), Ban>
    var characters: seq<Character>
    var nextId: AccountId

    ghost function View(): Store
      reads this
    {
      Store(accounts, byName, attrs, bans, characters, nextId)
    }

    constructor ()
      ensures View() == EMPTY
    {
      accounts, byName, attrs, bans, characters, nextId := map[], map[], map[], map[], [], 0;
    }

    method ByName(name: Name) returns (r: Option<Account>)
      ensures (View(), TheAccount(r)) == Apply(View(), AccountByName(name))
    {
      if Lower(name) in byName && byName[Lower(name)] in accounts {
        r := Some(accounts[byName[Lower(name)]]);
      } else {
        r := None;
      }
    }

    method Create(req: NewAccount) returns (r: Result<Account, StorageError>)
      modifies this
      ensures (View(), if r.Ok? then TheAccount(Some(r.value)) else Failed(r.error)) == Apply(old(View()), CreateAccount(req))
    {
      var problem := ValidateAccountName(req.name);
      if problem.Some? {
        return Err(InvalidName(problem.value));
      }
      var key := Lower(req.name);
      if key in byName {
        return Err(NameTaken);
      }
      nextId := nextId + 1;
      var account := Account(nextId, req.name, req.credential, req.createdAt);
      byName := byName[key := account.id];
      accounts := accounts[account.id := account];
      if req.attrs != map[] {
        attrs := attrs[account.id := req.attrs];
      }
      r := Ok(account);
    }

    method Get(id: AccountId, keys: seq<Name>) returns (out: AttrMap)
      ensures (View(), Attrs(out)) == Apply(View(), AttrsGet(id, keys))
    {
      if id !in attrs {
        return map[];
      }
      var all := attrs[id];
      out := map k | k in keys && k in all :: all[k];
    }

    method All(id: AccountId) returns (out: AttrMap)
      ensures (View(), Attrs(out)) == Apply(View(), AttrsAll(id))
    {
      out := if id in attrs then attrs[id] else map[];
    }

    method PutAttrs(id: AccountId, more: AttrMap)
      modifies this
      ensures (View(), Done) == Apply(old(View()), AttrsPut(id, more))
    {
      if more == map[] {
        return;
      }
      attrs := attrs[id := (if id in attrs then attrs[id] else map[]) + more];
    }

    /** A put the backend is free to refuse without effect. */
    method TryPutAttrs(id: AccountId, more: AttrMap) returns (ok: bool)
      modifies this
      ensures View() == if ok then old(View()).(attrs := Put(old(attrs), id, more)) else old(View())
    {
      if * {
        PutAttrs(id, more);
        ok := true;
      } else {
        ok := false;
      }
    }

    method Delete(id: AccountId)
      modifies this
      ensures (View(), Done) == Apply(old(View()), DeleteAccount(id))
    {
      if id in accounts {
        byName := byName - {Lower(accounts[id].name)};
        accounts := accounts - {id};
      }
      attrs := attrs - {id};
      bans := map k | k in bans && k.0 != id :: bans[k];
      characters := WithoutOwner(characters, id);
      assert id !in old(accounts) ==> old(accounts) - {id} == old(accounts);
    }

    /** The accounts with the smallest ids behind the first `offset`. */
    method List(offset: nat, limit: u32) returns (out: seq<Account>)
      ensures (View(), Accounts(out)) == Apply(View(), ListAccounts(offset, limit))
    {
      hide InOrder;
      var page := Page(InOrder(accounts.Keys), offset, limit);
      assert forall i | i in page :: i in InOrder(accounts.Keys);
      out := TheAccounts(accounts, page);
    }

    method AddCharacter(c: Character) returns (r: Result<(), StorageError>)
      modifies `characters
      ensures (View(), if r.Ok? then Done else Failed(r.error)) == Apply(old(View()), CreateCharacter(c))
    {
      hide CharacterAt;
      if c.account !in accounts { return Err(NoSuchAccount); }
      if CharacterAt(characters, None, c.name) < |characters| { return Err(NameTaken); }
      characters := characters + [c];
      r := Ok(());
    }

    method ChangeCharacter(c: Character) returns (found: bool)
      modifies `characters
      ensures (View(), Found(found)) == Apply(old(View()), UpdateCharacter(c))
    {
      hide CharacterAt;
      var i := CharacterAt(characters, Some(c.account), c.name);
      if i >= |characters| { return false; }
      characters := characters[i := Updated(characters[i], c)];
      found := true;
    }

    method RemoveCharacter(account: AccountId, name: Name) returns (found: bool)
      modifies `characters
      ensures (View(), Found(found)) == Apply(old(View()), DeleteCharacter(account, name))
    {
      hide WithoutNamed;
      var before := |characters|;
      characters := WithoutNamed(characters, account, name);
      found := |characters| != before;
    }
  }
}
