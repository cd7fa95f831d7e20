/** The schema the server starts with, and the two filters every read and write of attributes goes through (`attr.rs`). */
module AttributeAccess {
  import opened Bytes
  import opened Text
  import opened Attributes

  /** `System\Password Digest` as it is written, and its canonical form. */
  const RAW_DIGEST: Name := [83, 121, 115, 116, 101, 109, 92, 80, 97, 115, 115, 119, 111, 114, 100, 32, 68, 105, 103, 101, 115, 116]
  const DIGEST: Name := [115, 121, 115, 116, 101, 109, 92, 112, 97, 115, 115, 119, 111, 114, 100, 32, 100, 105, 103, 101, 115, 116]
  /** `System\SRP Salt` as it is written, and its canonical form. */
  const RAW_SALT: Name := [83, 121, 115, 116, 101, 109, 92, 83, 82, 80, 32, 83, 97, 108, 116]
  const SALT: Name := [115, 121, 115, 116, 101, 109, 92, 115, 114, 112, 32, 115, 97, 108, 116]
  /** `System\SRP Verifier` as it is written, and its canonical form. */
  const RAW_VERIFIER: Name := [83, 121, 115, 116, 101, 109, 92, 83, 82, 80, 32, 86, 101, 114, 105, 102, 105, 101, 114]
  const VERIFIER: Name := [115, 121, 115, 116, 101, 109, 92, 115, 114, 112, 32, 118, 101, 114, 105, 102, 105, 101, 114]
  /** `System` as it is written, and its canonical form. */
  const RAW_SYSTEM: Name := [83, 121, 115, 116, 101, 109]
  const SYSTEM: Name := [115, 121, 115, 116, 101, 109]
  /** `Record` as it is written, and its canonical form. */
  const RAW_RECORD: Name := [82, 101, 99, 111, 114, 100]
  const RECORD: Name := [114, 101, 99, 111, 114, 100]
  /** `profile` as it is written, and its canonical form. */
  const RAW_PROFILE: Name := [112, 114, 111, 102, 105, 108, 101]
  const PROFILE: Name := [112, 114, 111, 102, 105, 108, 101]

  const DEFAULT_SETS: seq<Rule> := [
    (RAW_DIGEST, SECRET), (RAW_SALT, SECRET), (RAW_VERIFIER, SECRET),
    (RAW_SYSTEM, SERVER_PUBLIC), (RAW_RECORD, SERVER_PUBLIC), (RAW_PROFILE, PUBLIC)]

  function DefaultSchema(): Schema {
    AfterSets(Schema([], PRIVATE), DEFAULT_SETS)
  }

  /** A key that begins and ends with an ASCII character other than white space is trimmed already. */
  lemma LetterKeys(raw: Name, key: Name)
    requires |raw| == |key| > 0 && raw[0] < 0x80 && raw[|raw| - 1] < 0x80 && !IsBlank(raw[0]) && !IsBlank(raw[|raw| - 1])
    requires forall i | 0 <= i < |raw| :: key[i] == KeyByte(raw[i])
    ensures Normalize(raw) == key
  {
    hide SpaceInFront, SpaceAtEnd, KeyByte;
    assert Trimmed(raw) by { EndsTrimmed(raw); }
    TrimmedStays(raw);
    assert Folded(raw) == key;
  }

  lemma EndsTrimmed(raw: Name)
    requires raw != [] && raw[0] < 0x80 && raw[|raw| - 1] < 0x80 && !IsBlank(raw[0]) && !IsBlank(raw[|raw| - 1])
    ensures SpaceInFront(raw) == 0 && SpaceAtEnd(raw) == 0
  {
    hide IsSpaceChar, IsBlank;
    forall k | 1 <= k <= 3 && k <= |raw| ensures !IsSpaceChar(raw[..k]) && !IsSpaceChar(raw[|raw| - k..]) {
      AsciiEnds(raw[..k]);
      AsciiEnds(raw[|raw| - k..]);
    }
  }

  /** A white-space character neither begins nor ends with another ASCII character. */
  lemma AsciiEnds(c: Name)
    requires c != []
    ensures c[0] < 0x80 && !IsBlank(c[0]) ==> !IsSpaceChar(c)
    ensures c[|c| - 1] < 0x80 && !IsBlank(c[|c| - 1]) ==> !IsSpaceChar(c)
  {
  }

  lemma DefaultKeys()
    ensures Normalize(RAW_DIGEST) == DIGEST && Normalize(RAW_SALT) == SALT && Normalize(RAW_VERIFIER) == VERIFIER
    ensures Normalize(RAW_SYSTEM) == SYSTEM && Normalize(RAW_RECORD) == RECORD && Normalize(RAW_PROFILE) == PROFILE
  {
    hide Normalize;
    LetterKeys(RAW_DIGEST, DIGEST);
    LetterKeys(RAW_SALT, SALT);
    LetterKeys(RAW_VERIFIER, VERIFIER);
    LetterKeys(RAW_SYSTEM, SYSTEM);
    LetterKeys(RAW_RECORD, RECORD);
    LetterKeys(RAW_PROFILE, PROFILE);
  }

  lemma {:induction false} LastSetsOf(sets: seq<Rule>, x: Rule)
    ensures LastSets(sets + [x]) == LastSets(sets)[Normalize(x.0) := x.1]
  {
    hide Normalize;
    assert (sets + [x])[..|sets|] == sets;
  }

  const DEFAULT_MAP: map<Name, Acl> := map[
    DIGEST := SECRET, SALT := SECRET, VERIFIER := SECRET, SYSTEM := SERVER_PUBLIC, RECORD := SERVER_PUBLIC, PROFILE := PUBLIC]

  lemma DefaultMap()
    ensures LastSets(DEFAULT_SETS) == DEFAULT_MAP
  {
    hide Normalize, LastSets;
    DefaultKeys();
    assert LastSets([]) == map[] by { NoSets(); }
    LastSetsOf([], DEFAULT_SETS[0]);
    LastSetsOf(DEFAULT_SETS[..1], DEFAULT_SETS[1]);
    LastSetsOf(DEFAULT_SETS[..2], DEFAULT_SETS[2]);
    LastSetsOf(DEFAULT_SETS[..3], DEFAULT_SETS[3]);
    LastSetsOf(DEFAULT_SETS[..4], DEFAULT_SETS[4]);
    LastSetsOf(DEFAULT_SETS[..5], DEFAULT_SETS[5]);
    assert [] + [DEFAULT_SETS[0]] == DEFAULT_SETS[..1];
    assert DEFAULT_SETS[..1] + [DEFAULT_SETS[1]] == DEFAULT_SETS[..2];
    assert DEFAULT_SETS[..2] + [DEFAULT_SETS[2]] == DEFAULT_SETS[..3];
    assert DEFAULT_SETS[..3] + [DEFAULT_SETS[3]] == DEFAULT_SETS[..4];
    assert DEFAULT_SETS[..4] + [DEFAULT_SETS[4]] == DEFAULT_SETS[..5];
    assert DEFAULT_SETS[..5] + [DEFAULT_SETS[5]] == DEFAULT_SETS;
  }

  lemma NoSets()
    ensures LastSets([]) == map[]
  {
  }

  /** A password digest, SRP salt or SRP verifier, or anything kept below one. */
  predicate Credential(key: Name) {
    Matches(DIGEST, key) || Matches(SALT, key) || Matches(VERIFIER, key)
  }

  /** Keys of different rules of the default schema are told apart by these characters. */
  lemma RulesApart(key: Name)
    ensures !(Matches(DIGEST, key) && Matches(SALT, key))
    ensures !(Matches(DIGEST, key) && Matches(VERIFIER, key))
    ensures !(Matches(SALT, key) && Matches(VERIFIER, key))
    ensures Matches(RECORD, key) ==> !Matches(SYSTEM, key) && !Matches(PROFILE, key) && !Credential(key)
    ensures Matches(PROFILE, key) ==> !Matches(SYSTEM, key) && !Credential(key)
  {
    hide Matches;
    if Matches(DIGEST, key) { MatchIsPrefix(DIGEST, key); assert key[0] == 115 && key[7] == 112; }
    if Matches(SALT, key) { MatchIsPrefix(SALT, key); assert key[0] == 115 && key[7] == 115 && key[11] == 115; }
    if Matches(VERIFIER, key) { MatchIsPrefix(VERIFIER, key); assert key[0] == 115 && key[7] == 115 && key[11] == 118; }
    if Matches(SYSTEM, key) { MatchIsPrefix(SYSTEM, key); assert key[0] == 115; }
    if Matches(RECORD, key) { MatchIsPrefix(RECORD, key); assert key[0] == 114; }
    if Matches(PROFILE, key) { MatchIsPrefix(PROFILE, key); assert key[0] == 112; }
  }

  /** The prefix that decides about the key, if one of them matches. */
  function DefaultPrefix(key: Name): Name {
    if Matches(DIGEST, key) then DIGEST else if Matches(SALT, key) then SALT else if Matches(VERIFIER, key) then VERIFIER
    else if Matches(SYSTEM, key) then SYSTEM else if Matches(RECORD, key) then RECORD else PROFILE
  }

  lemma KeysDiffer()
    ensures |DIGEST| == 22 && |SALT| == 15 && |VERIFIER| == 19 && |SYSTEM| == |RECORD| == 6 && |PROFILE| == 7
    ensures SYSTEM != RECORD
  {
    assert SYSTEM[0] != RECORD[0];
  }

  lemma DefaultValues()
    ensures DEFAULT_MAP.Keys == {DIGEST, SALT, VERIFIER, SYSTEM, RECORD, PROFILE}
    ensures DEFAULT_MAP[DIGEST] == DEFAULT_MAP[SALT] == DEFAULT_MAP[VERIFIER] == SECRET
    ensures DEFAULT_MAP[SYSTEM] == DEFAULT_MAP[RECORD] == SERVER_PUBLIC && DEFAULT_MAP[PROFILE] == PUBLIC
  {
    KeysDiffer();
  }

  lemma DefaultIsLongest(key: Name)
    ensures if Matches(DefaultPrefix(key), key) then IsLongest(DEFAULT_MAP, key, DefaultPrefix(key))
      else forall q | q in DEFAULT_MAP :: !Matches(q, key)
  {
    hide Matches;
    DefaultValues();
    KeysDiffer();
    RulesApart(key);
    assert forall q :: q in DEFAULT_MAP <==> q in DEFAULT_MAP.Keys;
  }

  /** What the default schema says of every key there can be. */
  lemma DefaultAcl(key: Name)
    ensures AclOf(DefaultSchema(), key) ==
      if Credential(key) then SECRET
      else if Matches(SYSTEM, key) || Matches(RECORD, key) then SERVER_PUBLIC
      else if Matches(PROFILE, key) then PUBLIC
      else PRIVATE
  {
    hide Matches, AfterSets, LastSets, AclOf, IsLongest;
    DefaultMap();
    DefaultValues();
    DefaultIsLongest(key);
    AclIsLongestPrefix(PRIVATE, DEFAULT_SETS, key, DefaultPrefix(key));
  }

  // ---- Reading ----

  type AttrMap = seq<(Name, Value)>

  predicate CanRead(s: Schema, key: Name, actor: Actor, owner: AccountId) {
    Permits(AclOf(s, key).read, actor, owner)
  }

  predicate CanWrite(s: Schema, key: Name, actor: Actor, owner: AccountId) {
    Permits(AclOf(s, key).write, actor, owner)
  }

  function FilterReadable(s: Schema, attrs: AttrMap, actor: Actor, owner: AccountId): AttrMap {
    if attrs == [] then []
    else (if CanRead(s, attrs[0].0, actor, owner) then [attrs[0]] else []) + FilterReadable(s, attrs[1..], actor, owner)
  }

  lemma {:induction false} FilteredIff(s: Schema, attrs: AttrMap, actor: Actor, owner: AccountId, e: (Name, Value))
    ensures e in FilterReadable(s, attrs, actor, owner) <==> e in attrs && CanRead(s, e.0, actor, owner)
    decreases |attrs|
  {
    hide CanRead;
    if attrs != [] {
      FilteredIff(s, attrs[1..], actor, owner, e);
      assert e in attrs <==> e == attrs[0] || e in attrs[1..];
    }
  }

  /**
   * Main result for the default schema: credentials are shown to nobody but the server itself, not even to staff;
   * everything else to the account's owner and to staff; and to others just the system, record and profile keys.
   */
  lemma WhoSeesWhat(attrs: AttrMap, actor: Actor, owner: AccountId, e: (Name, Value))
    ensures e in FilterReadable(DefaultSchema(), attrs, actor, owner) <==>
      && e in attrs
      && (match actor
          case Internal => true
          case Admin => !Credential(e.0)
          case Owner(id) => !Credential(e.0) && (id == owner || Matches(SYSTEM, e.0) || Matches(RECORD, e.0) || Matches(PROFILE, e.0))
          case Other => !Credential(e.0) && (Matches(SYSTEM, e.0) || Matches(RECORD, e.0) || Matches(PROFILE, e.0)))
  {
    hide Matches, DefaultSchema, AclOf, Credential, FilterReadable;
    FilteredIff(DefaultSchema(), attrs, actor, owner, e);
    DefaultAcl(e.0);
  }

  // ---- Writing ----

  function Accepted(s: Schema, attrs: AttrMap, actor: Actor, owner: AccountId): AttrMap {
    if attrs == [] then []
    else
      var (most, last) := (attrs[..|attrs| - 1], attrs[|attrs| - 1]);
      Accepted(s, most, actor, owner) + if CanWrite(s, last.0, actor, owner) then [last] else []
  }

  function Denied(s: Schema, attrs: AttrMap, actor: Actor, owner: AccountId): seq<Name> {
    if attrs == [] then []
    else
      var (most, last) := (attrs[..|attrs| - 1], attrs[|attrs| - 1]);
      Denied(s, most, actor, owner) + if CanWrite(s, last.0, actor, owner) then [] else [last.0]
  }

  /** What is let through stays in its order: each entry passes or not by itself. */
  lemma {:induction false} FilteredInOrder(s: Schema, attrs: AttrMap, e: (Name, Value), actor: Actor, owner: AccountId)
    ensures FilterReadable(s, attrs + [e], actor, owner) ==
      FilterReadable(s, attrs, actor, owner) + if CanRead(s, e.0, actor, owner) then [e] else []
    decreases |attrs|
  {
    hide CanRead;
    if attrs == [] {
      assert attrs + [e] == [e] && [e][1..] == [];
    } else {
      FilteredInOrder(s, attrs[1..], e, actor, owner);
      assert (attrs + [e])[1..] == attrs[1..] + [e];
    }
  }

  /** And so it is with what may be written and the keys that may not. */
  lemma PartitionInOrder(s: Schema, attrs: AttrMap, e: (Name, Value), actor: Actor, owner: AccountId)
    ensures
      var writable := Permits(AclOf(s, e.0).write, actor, owner);
      && Accepted(s, attrs + [e], actor, owner) == Accepted(s, attrs, actor, owner) + (if writable then [e] else [])
      && Denied(s, attrs + [e], actor, owner) == Denied(s, attrs, actor, owner) + (if writable then [] else [e.0])
  {
    assert (attrs + [e])[..|attrs|] == attrs;
  }

  /** Every entry is accepted or its key denied, never both, and nothing is added. */
  lemma {:induction false} PartitionIsExact(s: Schema, attrs: AttrMap, actor: Actor, owner: AccountId, e: (Name, Value))
    ensures
      var (ok, denied) := (Accepted(s, attrs, actor, owner), Denied(s, attrs, actor, owner));
      && (e in ok <==> e in attrs && CanWrite(s, e.0, actor, owner))
      && (e.0 in denied <==> !CanWrite(s, e.0, actor, owner) && exists i :: 0 <= i < |attrs| && attrs[i].0 == e.0)
      && |ok| + |denied| == |attrs|
    decreases |attrs|
  {
    hide CanWrite;
    if attrs != [] {
      var most, last := attrs[..|attrs| - 1], attrs[|attrs| - 1];
      PartitionIsExact(s, most, actor, owner, e);
      assert attrs == most + [last];
      assert e in attrs <==> e in most || e == last;
      KeyIn(most, last, e.0);
    }
  }

  /** Where a change of the default schema's keys is the server's own business. */
  predicate ServerKept(key: Name) {
    Credential(key) || Matches(SYSTEM, key) || Matches(RECORD, key)
  }

  /**
   Main result for writes under the default schema: what the server keeps is changed by the server alone, not even by
   staff; everything else by the account's owner and by staff; and nothing of somebody else's by anybody else.
   */
  lemma WhoMayWrite(attrs: AttrMap, actor: Actor, owner: AccountId, e: (Name, Value))
    ensures e in Accepted(DefaultSchema(), attrs, actor, owner) <==>
      && e in attrs
      && (match actor
          case Internal => true
          case Admin => !ServerKept(e.0)
          case Owner(id) => id == owner && !ServerKept(e.0)
          case Other => false)
  {
    hide Matches, DefaultSchema, AclOf, Credential, Accepted, Denied;
    PartitionIsExact(DefaultSchema(), attrs, actor, owner, e);
    DefaultAcl(e.0);
  }

  lemma KeyIn(most: AttrMap, last: (Name, Value), key: Name)
    ensures (exists i :: 0 <= i < |most + [last]| && (most + [last])[i].0 == key)
      <==> last.0 == key || exists i :: 0 <= i < |most| && most[i].0 == key
  {
    var all := most + [last];
    assert all[|most|] == last;
    if i :| 0 <= i < |most| && most[i].0 == key { assert all[i].0 == key; }
  }

  // ---- The object ----

  class AttrSchema {
    var rules: seq<Rule>
    const fallback: Acl

    ghost function View(): Schema
      reads this
    {
      Schema(rules, fallback)
    }

    constructor (fallback: Acl)
      ensures View() == Schema([], fallback)
    {
      rules := [];
      this.fallback := fallback;
    }

    method Set(prefix: Name, acl: Acl)
      modifies `rules
      ensures View() == AfterSet(old(View()), prefix, acl)
    {
      hide Normalize, Retained, Sorted;
      var key := Normalize(prefix);
      rules := Retained(rules, key);
      rules := rules + [(key, acl)];
      rules := Sorted(rules);
    }

    method LookUp(key: Name) returns (acl: Acl)
      ensures acl == AclOf(View(), key)
    {
      hide Matches;
      var i := 0;
      while i < |rules|
        invariant i <= |rules|
        invariant AclOf(View(), key) == FirstMatch(rules[i..], key, fallback)
      {
        if Matches(rules[i].0, key) { return rules[i].1; }
        assert rules[i..][1..] == rules[i + 1..];
        i := i + 1;
      }
      acl := fallback;
    }

    method PartitionWritable(attrs: AttrMap, actor: Actor, owner: AccountId) returns (ok: AttrMap, denied: seq<Name>)
      ensures ok == Accepted(View(), attrs, actor, owner) && denied == Denied(View(), attrs, actor, owner)
    {
      hide AclOf;
      ok, denied := [], [];
      var i := 0;
      while i < |attrs|
        invariant i <= |attrs|
        invariant ok == Accepted(View(), attrs[..i], actor, owner) && denied == Denied(View(), attrs[..i], actor, owner)
      {
        assert attrs[..i + 1][..i] == attrs[..i];
        var acl := LookUp(attrs[i].0);
        if Permits(acl.write, actor, owner) {
          ok := ok + [attrs[i]];
        } else {
          denied := denied + [attrs[i].0];
        }
        i := i + 1;
      }
      assert attrs[..i] == attrs;
    }
  }
}
