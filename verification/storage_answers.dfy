/** What each call of the storage interface changes and answers, told from outside. */
module StorageAnswers {
  import opened Bytes
  import opened Text
  import opened Storage

  // ---- Which part of the store a call touches ----

  predicate Reads(c: Call) {
    || c.AccountByName? || c.AccountById? || c.AttrsGet? || c.AttrsAll? || c.BanGet? || c.AccountCount? || c.ListAccounts?
    || c.CharactersOf? || c.CharacterByName?
  }

  /** A question changes nothing, and every other call leaves all of the store but its own part alone. */
  lemma CallsKeepToTheirPart(s: Store, c: Call)
    ensures
      var t := Apply(s, c).0;
      && (Reads(c) ==> t == s)
      && (c.CreateAccount? ==> t == s.(accounts := t.accounts, byName := t.byName, attrs := t.attrs, nextId := t.nextId))
      && (c.SetCredential? ==> t == s.(accounts := t.accounts))
      && (c.AttrsPut? ==> t == s.(attrs := t.attrs))
      && (c.BanPut? || c.BanClear? ==> t == s.(bans := t.bans))
      && (c.DeleteAccount? ==> t.nextId == s.nextId)
      && (c.CreateCharacter? || c.UpdateCharacter? || c.DeleteCharacter? ==> t == s.(characters := t.characters))
  {
    hide CreateProblem, Lower, ActiveBan, CharacterAt, WithoutNamed, WithoutOwner, OfOwner, Put, Select, InOrder, TheAccounts;
  }

  // ---- Accounts ----

  function AccountNamed(s: Store, name: Name): Option<Account> {
    Apply(s, AccountByName(name)).1.account
  }

  function AccountWith(s: Store, id: AccountId): Option<Account> {
    Apply(s, AccountById(id)).1.account
  }

  /** An account is found by its name in any case of letters, and by its id; nobody else is found by either. */
  lemma FoundIff(s: Store, name: Name, id: AccountId, a: Account)
    requires AccountsInOrder(s)
    ensures AccountNamed(s, name) == Some(a) <==> a.id in s.accounts && s.accounts[a.id] == a && Lower(a.name) == Lower(name)
    ensures AccountWith(s, id) == Some(a) <==> a.id == id && id in s.accounts && s.accounts[id] == a
  {
    hide Lower;
    if a.id in s.accounts { assert AccountInOrder(s, a.id); }
    if Lower(name) in s.byName { assert AccountInOrder(s, s.byName[Lower(name)]); }
    if id in s.accounts { assert AccountInOrder(s, id); }
  }

  /**
   An account is created exactly when its name may be had and is nobody's, under an id never given out before; it is then
   found, has just the attributes it came with when none were there, and no other account is touched.
   */
  lemma CreatedIff(s: Store, req: NewAccount, other: AccountId)
    requires AccountsInOrder(s)
    ensures
      var (t, out) := Apply(s, CreateAccount(req));
      var a := Account(s.nextId + 1, req.name, req.credential, req.createdAt);
      if ValidateAccountName(req.name).Some? then t == s && out == Failed(InvalidName(ValidateAccountName(req.name).value))
      else if AccountNamed(s, req.name).Some? then t == s && out == Failed(NameTaken)
      else
        && out == TheAccount(Some(a)) && t.nextId == a.id && a.id !in s.accounts
        && AccountNamed(t, req.name) == Some(a) && AccountWith(t, a.id) == Some(a)
        && AttrsOf(t.attrs, a.id) == (if req.attrs == map[] then AttrsOf(s.attrs, a.id) else req.attrs)
        && (other != a.id ==> AccountWith(t, other) == AccountWith(s, other) && AttrsOf(t.attrs, other) == AttrsOf(s.attrs, other))
  {
    hide Lower, ValidateAccountName;
    forall i | i in s.accounts ensures i <= s.nextId { assert AccountInOrder(s, i); }
    if Lower(req.name) in s.byName { assert AccountInOrder(s, s.byName[Lower(req.name)]); }
  }

  /** A new credential takes the place of the old one, and nothing else about any account changes. */
  lemma CredentialIsReplaced(s: Store, id: AccountId, credential: Credential, other: AccountId)
    ensures
      var (t, out) := Apply(s, SetCredential(id, credential));
      match AccountWith(s, id)
      case None => t == s && out == Failed(NoSuchAccount)
      case Some(a) =>
        && out == Done && AccountWith(t, id) == Some(Account(a.id, a.name, credential, a.createdAt))
        && (other != id ==> AccountWith(t, other) == AccountWith(s, other))
  {
  }

  // ---- Listing ----

  /** All accounts, by ascending id. */
  function AllAccounts(s: Store): seq<Account> {
    TheAccounts(s.accounts, InOrder(s.accounts.Keys))
  }

  lemma AllAreListed(s: Store)
    requires AccountsInOrder(s)
    ensures forall a: Account :: a in AllAccounts(s) <==> a.id in s.accounts && s.accounts[a.id] == a
    ensures forall i, j | 0 <= i < j < |AllAccounts(s)| :: AllAccounts(s)[i].id < AllAccounts(s)[j].id
    ensures Apply(s, AccountCount).1 == Count(|AllAccounts(s)|)
  {
    hide TheAccounts, InOrder, Lower;
    var ids, all := InOrder(s.accounts.Keys), AllAccounts(s);
    InOrderAscends(s.accounts.Keys);
    forall i | 0 <= i < |all| ensures all[i] == s.accounts[ids[i]] && all[i].id == ids[i] {
      assert ids[i] in ids;
      assert AccountInOrder(s, ids[i]);
    }
    forall a: Account | a.id in s.accounts && s.accounts[a.id] == a ensures a in all {
      assert a.id in ids;
      var i :| 0 <= i < |ids| && ids[i] == a.id;
      assert all[i] == a;
    }
  }

  function Listed(s: Store, offset: nat, limit: u32): seq<Account> {
    Apply(s, ListAccounts(offset, limit)).1.accounts
  }

  lemma {:induction false} AccountsOfPage(accounts: map<AccountId, Account>, ids: seq<AccountId>, from: nat, to: nat)
    requires from <= to <= |ids| && forall i | i in ids :: i in accounts
    ensures forall i | i in ids[from..to] :: i in accounts
    ensures TheAccounts(accounts, ids[from..to]) == TheAccounts(accounts, ids)[from..to]
  {
    hide TheAccounts;
    forall i | i in ids[from..to] ensures i in accounts { assert i in ids; }
  }

  lemma PageIs(s: Store, offset: nat, limit: u32)
    ensures Listed(s, offset, limit) ==
      if offset >= |AllAccounts(s)| then [] else AllAccounts(s)[offset..Min(offset + limit, |AllAccounts(s)|)]
  {
    hide TheAccounts, InOrder;
    var ids := InOrder(s.accounts.Keys);
    if offset < |ids| {
      AccountsOfPage(s.accounts, ids, offset, Min(offset + limit, |ids|));
    } else {
      AccountsOfPage(s.accounts, ids, 0, 0);
    }
  }

  /** The first `n` pages, one behind the other. */
  function Pages(s: Store, limit: u32, n: nat): seq<Account> {
    if n == 0 then [] else Pages(s, limit, n - 1) + Listed(s, Product(n - 1, limit), limit)
  }

  function Product(n: nat, limit: u32): nat {
    if n == 0 then 0 else Product(n - 1, limit) + limit
  }

  /** Main result for listing: page by page, every account is listed once and by ascending id. */
  lemma {:induction false} PagesListAll(s: Store, limit: u32, n: nat)
    ensures Pages(s, limit, n) == AllAccounts(s)[..Min(Product(n, limit), |AllAccounts(s)|)]
    decreases n
  {
    hide Listed, AllAccounts;
    if n > 0 {
      var at := Product(n - 1, limit);
      PagesListAll(s, limit, n - 1);
      PageIs(s, at, limit);
      PutTogether(AllAccounts(s), at, limit);
    }
  }

  lemma PutTogether(all: seq<Account>, at: nat, n: nat)
    ensures all[..Min(at, |all|)] + (if at >= |all| then [] else all[at..Min(at + n, |all|)]) == all[..Min(at + n, |all|)]
  {
  }

  // ---- Attributes ----

  /** What is put is what is got, on top of what was there; other accounts keep theirs. */
  lemma PutIsGot(s: Store, id: AccountId, attrs: AttrMap, other: AccountId, keys: seq<Name>, k: Name)
    ensures
      var t := Apply(s, AttrsPut(id, attrs)).0;
      var got, was := Apply(t, AttrsGet(other, keys)).1.attrs, AttrsOf(s.attrs, other);
      && (k in got <==> k in keys && (k in was || (other == id && k in attrs)))
      && (k in got ==> got[k] == if other == id && k in attrs then attrs[k] else was[k])
      && Apply(t, AttrsAll(other)).1 == Attrs(if other == id then was + attrs else was)
  {
    assert AttrsOf(s.attrs, other) + map[] == AttrsOf(s.attrs, other);
  }

  // ---- Bans ----

  /** The ban has an end, and it has come. */
  predicate Expired(b: Ban, now: nat) {
    b.expiresAt.Some? && b.expiresAt.value <= now
  }

  ghost predicate Stands(s: Store, id: AccountId, scope: BanScope, now: nat) {
    (id, scope) in s.bans && !Expired(s.bans[(id, scope)], now)
  }

  /** An account's ban for the whole network counts before one for the node, and an expired one not at all. */
  lemma BanIsTheStanding(s: Store, id: AccountId, now: nat)
    ensures Apply(s, BanGet(id, now)).1 == TheBan(
      if Stands(s, id, Network, now) then Some(s.bans[(id, Network)])
      else if Stands(s, id, Node, now) then Some(s.bans[(id, Node)])
      else None)
  {
  }

  /** A ban put is the one that stands for its account and scope, and one cleared does not; no other ban changes. */
  lemma BansFollow(s: Store, ban: Ban, id: AccountId, scope: BanScope)
    ensures
      var put, cleared := Apply(s, BanPut(ban)).0, Apply(s, BanClear(ban.account, ban.scope)).0;
      var same := (id, scope) == (ban.account, ban.scope);
      && (same ==> (id, scope) in put.bans && put.bans[(id, scope)] == ban && (id, scope) !in cleared.bans)
      && (!same ==> ((id, scope) in put.bans <==> (id, scope) in s.bans) && ((id, scope) in cleared.bans <==> (id, scope) in s.bans))
      && (!same && (id, scope) in s.bans ==> put.bans[(id, scope)] == cleared.bans[(id, scope)] == s.bans[(id, scope)])
  {
  }

  // ---- Characters ----

  predicate IsTheirs(c: Character, account: AccountId, name: Name) {
    c.account == account && Lower(c.name) == Lower(name)
  }

  function Kept(c: Character, keep: bool): seq<Character> {
    if keep then [c] else []
  }

  lemma OfOwnerFirst(cs: seq<Character>, account: AccountId)
    ensures OfOwner(cs, account) ==
      if cs == [] then [] else Kept(cs[0], cs[0].account == account) + OfOwner(cs[1..], account)
  {
  }

  lemma WithoutOwnerFirst(cs: seq<Character>, account: AccountId)
    ensures WithoutOwner(cs, account) ==
      if cs == [] then [] else Kept(cs[0], cs[0].account != account) + WithoutOwner(cs[1..], account)
  {
  }

  lemma WithoutNamedFirst(cs: seq<Character>, account: AccountId, name: Name)
    ensures WithoutNamed(cs, account, name) ==
      if cs == [] then [] else Kept(cs[0], !IsTheirs(cs[0], account, name)) + WithoutNamed(cs[1..], account, name)
  {
    hide Lower;
  }

  lemma FirstOfBoth(a: seq<Character>, b: seq<Character>)
    ensures if a == [] then a + b == b else (a + b)[0] == a[0] && (a + b)[1..] == a[1..] + b
  {
  }

  /** Keeping some of a list keeps them in order: each stays or goes by itself. */
  lemma {:induction false} KeptInOrder(a: seq<Character>, b: seq<Character>, account: AccountId, name: Name)
    ensures OfOwner(a + b, account) == OfOwner(a, account) + OfOwner(b, account)
    ensures WithoutOwner(a + b, account) == WithoutOwner(a, account) + WithoutOwner(b, account)
    ensures WithoutNamed(a + b, account, name) == WithoutNamed(a, account, name) + WithoutNamed(b, account, name)
    decreases |a|
  {
    hide OfOwner, WithoutOwner, WithoutNamed, IsTheirs, Kept;
    FirstOfBoth(a, b);
    OfOwnerFirst(a, account);
    WithoutOwnerFirst(a, account);
    WithoutNamedFirst(a, account, name);
    if a != [] {
      var own, named := a[0].account == account, IsTheirs(a[0], account, name);
      OfOwnerFirst(a + b, account);
      WithoutOwnerFirst(a + b, account);
      WithoutNamedFirst(a + b, account, name);
      KeptInOrder(a[1..], b, account, name);
      Concat(Kept(a[0], own), OfOwner(a[1..], account), OfOwner(b, account));
      Concat(Kept(a[0], !own), WithoutOwner(a[1..], account), WithoutOwner(b, account));
      Concat(Kept(a[0], !named), WithoutNamed(a[1..], account, name), WithoutNamed(b, account, name));
    }
  }

  /** And of one character it is told by its owner, or by its owner and name. */
  lemma KeptAlone(c: Character, account: AccountId, name: Name)
    ensures OfOwner([c], account) == (if c.account == account then [c] else [])
    ensures WithoutOwner([c], account) == (if c.account == account then [] else [c])
    ensures WithoutNamed([c], account, name) == (if IsTheirs(c, account, name) then [] else [c])
  {
    assert [c][1..] == [];
  }

  /** A character is created last in the list, exactly when its owner exists and nobody's has that name. */
  lemma CharacterCreatedIff(s: Store, c: Character)
    ensures
      var (t, out) := Apply(s, CreateCharacter(c));
      if c.account !in s.accounts then t == s && out == Failed(NoSuchAccount)
      else if exists i :: 0 <= i < |s.characters| && Lower(s.characters[i].name) == Lower(c.name) then t == s && out == Failed(NameTaken)
      else out == Done && t.characters == s.characters + [c]
  {
    hide Lower;
    var at := CharacterAt(s.characters, None, c.name);
    if at < |s.characters| {
      assert Bears(s.characters[at], c.name);
    } else {
      forall i | 0 <= i < |s.characters| ensures Lower(s.characters[i].name) != Lower(c.name) {
        assert !Bears(s.characters[i], c.name);
      }
    }
  }

  ghost predicate FirstNamed(cs: seq<Character>, name: Name, i: nat) {
    i < |cs| && Lower(cs[i].name) == Lower(name) && forall j | 0 <= j < i :: Lower(cs[j].name) != Lower(name)
  }

  /** By name, the first of that name is found, whoever owns it. */
  lemma CharacterFound(s: Store, name: Name)
    ensures
      match Apply(s, CharacterByName(name)).1.character
      case None => forall i | 0 <= i < |s.characters| :: Lower(s.characters[i].name) != Lower(name)
      case Some(c) => exists i: nat :: FirstNamed(s.characters, name, i) && s.characters[i] == c
  {
    hide Lower;
    var at := CharacterAt(s.characters, None, name);
    forall i | 0 <= i < at ensures Lower(s.characters[i].name) != Lower(name) { assert !Bears(s.characters[i], name); }
    if at < |s.characters| { assert Bears(s.characters[at], name) && FirstNamed(s.characters, name, at); }
  }

  /** What an update takes from the new record, and what it keeps of the old one. */
  predicate IsUpdate(now: Character, was: Character, new_: Character) {
    && now.account == was.account && now.name == was.name && now.class_ == was.class_ && now.createdAt == was.createdAt
    && now.status == new_.status && now.level == new_.level && now.progression == new_.progression
    && now.lastPlayed == new_.lastPlayed && now.save == new_.save
  }

  ghost predicate UpdatedAt(cs: seq<Character>, ds: seq<Character>, i: nat, c: Character)
    requires |ds| == |cs|
  {
    && i < |cs| && IsTheirs(cs[i], c.account, c.name) && IsUpdate(ds[i], cs[i], c)
    && (forall j | 0 <= j < i :: !IsTheirs(cs[j], c.account, c.name))
    && forall j | 0 <= j < |cs| && j != i :: ds[j] == cs[j]
  }

  /** An update changes the owner's first character of that name in five fields, and no other character. */
  lemma CharacterUpdatedIff(s: Store, c: Character)
    ensures
      var (t, out) := Apply(s, UpdateCharacter(c));
      if forall i | 0 <= i < |s.characters| :: !IsTheirs(s.characters[i], c.account, c.name) then t == s && out == Found(false)
      else
        && out == Found(true) && |t.characters| == |s.characters|
        && exists i: nat :: UpdatedAt(s.characters, t.characters, i, c)
  {
    hide Lower;
    var at := CharacterAt(s.characters, Some(c.account), c.name);
    forall j | 0 <= j < at ensures !IsTheirs(s.characters[j], c.account, c.name) {
      assert !(Bears(s.characters[j], c.name) && s.characters[j].account == c.account);
    }
    if at < |s.characters| {
      assert IsTheirs(s.characters[at], c.account, c.name) by { assert Bears(s.characters[at], c.name); }
      assert UpdatedAt(s.characters, Apply(s, UpdateCharacter(c)).0.characters, at, c);
    }
  }

  /** A deletion takes all of the owner's characters of that name and says whether there was one. */
  lemma CharacterDeletedIff(s: Store, account: AccountId, name: Name)
    ensures
      var (t, out) := Apply(s, DeleteCharacter(account, name));
      && t.characters == WithoutNamed(s.characters, account, name)
      && out == Found(exists i :: 0 <= i < |s.characters| && IsTheirs(s.characters[i], account, name))
  {
    hide Lower;
    var left := WithoutNamed(s.characters, account, name);
    if |left| == |s.characters| {
      forall i | 0 <= i < |s.characters| ensures !IsTheirs(s.characters[i], account, name) {
        assert s.characters[i] in left;
      }
    } else {
      DroppedOne(s.characters, account, name);
    }
  }

  lemma {:induction false} DroppedOne(cs: seq<Character>, account: AccountId, name: Name)
    ensures (forall i | 0 <= i < |cs| :: !IsTheirs(cs[i], account, name)) ==> WithoutNamed(cs, account, name) == cs
    decreases |cs|
  {
    if cs != [] { DroppedOne(cs[1..], account, name); }
  }

  /** With its account a player's characters and attributes go, and nobody else's. */
  lemma DeletionSparesOthers(s: Store, id: AccountId, other: AccountId)
    requires AccountsInOrder(s) && other != id
    ensures
      var t := Apply(s, DeleteAccount(id)).0;
      && AccountWith(t, other) == AccountWith(s, other) && AttrsOf(t.attrs, other) == AttrsOf(s.attrs, other)
      && (forall scope :: ((other, scope) in t.bans <==> (other, scope) in s.bans)
                       && ((other, scope) in s.bans ==> t.bans[(other, scope)] == s.bans[(other, scope)]))
      && t.characters == WithoutOwner(s.characters, id)
      && (other in s.accounts ==> AccountNamed(t, s.accounts[other].name) == Some(s.accounts[other]))
  {
    hide Lower, WithoutOwner;
    if other in s.accounts { assert AccountInOrder(s, other); }
    if id in s.accounts { assert AccountInOrder(s, id); }
  }
}
