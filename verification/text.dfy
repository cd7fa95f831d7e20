/** ASCII text as bytes: case folding, and what an account may be called. */
module Text {
  import opened Bytes

  type Name = seq<byte>

  const AT: byte := 64
  const COLON: byte := 58
  const HASH: byte := 35

  function LowerByte(b: byte): byte {
    if 65 <= b <= 90 then b + 32 else b
  }

  function Lower(s: Name): (t: Name)
    ensures |t| == |s| && forall i | 0 <= i < |s| :: t[i] == LowerByte(s[i])
  {
    seq(|s|, i requires 0 <= i < |s| => LowerByte(s[i]))
  }

  /** Two names are one when they are folded exactly when they differ in the case of ASCII letters at most. */
  lemma LowerIff(s: Name, t: Name)
    ensures Lower(s) == Lower(t) <==> SameSpelling(s, t)
  {
    if Lower(s) == Lower(t) {
      assert |Lower(s)| == |s| && |Lower(t)| == |t|;
      forall i | 0 <= i < |s| ensures s[i] == t[i] || IsCasePair(s[i], t[i]) {
        assert Lower(s)[i] == LowerByte(s[i]) && Lower(t)[i] == LowerByte(t[i]);
      }
    }
    if SameSpelling(s, t) {
      forall i | 0 <= i < |s| ensures Lower(s)[i] == Lower(t)[i] { assert s[i] == t[i] || IsCasePair(s[i], t[i]); }
    }
  }

  predicate IsDigit(b: byte) {
    48 <= b <= 57
  }

  predicate IsAlphanumeric(b: byte) {
    IsDigit(b) || 65 <= b <= 90 || 97 <= b <= 122
  }

  predicate IsBlankOrControl(b: byte) {
    b <= 0x20 || b == 0x7F
  }

  /** Where the last `x` is, or -1. */
  function LastIndexOf(s: Name, x: byte): (i: int)
    ensures -1 <= i < |s|
    ensures i >= 0 ==> s[i] == x
    ensures forall j | i < j < |s| :: s[j] != x
  {
    if s == [] then -1
    else if s[|s| - 1] == x then |s| - 1
    else LastIndexOf(s[..|s| - 1], x)
  }

  /** `Name@realm` cut at the last `@`. */
  function SplitRealm(name: Name): (r: (Name, Option<Name>))
    ensures r.1.None? ==> r.0 == name && AT !in name
    ensures r.1.Some? ==> name == r.0 + [AT] + r.1.value && AT !in r.1.value
  {
    var i := LastIndexOf(name, AT);
    if i < 0 then (name, None) else (name[..i], Some(name[i + 1..]))
  }

  datatype NameProblem =
    | RealmLength | RealmCharacters | TooShort | TooLong | NonAscii | BlankOrControl | NoAlphanumeric | ReservedForBridges

  const MIN_NAME_LEN := 2
  const MAX_NAME_LEN := 15

  predicate NameIsReservedForBridges(name: Name) {
    COLON in name
  }

  /** Why an account may not have this name, if it may not; the checks come in this order. */
  function ValidateAccountName(full: Name): Option<NameProblem> {
    var (name, realm) := SplitRealm(full);
    if realm.Some? && (realm.value == [] || |realm.value| > MAX_NAME_LEN) then Some(RealmLength)
    else if realm.Some? && exists i | 0 <= i < |realm.value| :: realm.value[i] >= 0x80 || IsBlankOrControl(realm.value[i])
    then Some(RealmCharacters)
    else if |name| < MIN_NAME_LEN then Some(TooShort)
    else if |name| > MAX_NAME_LEN then Some(TooLong)
    else if exists i | 0 <= i < |name| :: name[i] >= 0x80 then Some(NonAscii)
    else if exists i | 0 <= i < |name| :: IsBlankOrControl(name[i]) then Some(BlankOrControl)
    else if forall i | 0 <= i < |name| :: !IsAlphanumeric(name[i]) then Some(NoAlphanumeric)
    else if NameIsReservedForBridges(name) then Some(ReservedForBridges)
    else None
  }

  // ---- Which names are allowed ----

  predicate IsPrintable(s: Name) {
    forall i | 0 <= i < |s| :: 0x21 <= s[i] <= 0x7E
  }

  /** Two to fifteen printable ASCII characters, a letter or digit among them, and no colon. */
  predicate IsAllowed(name: Name) {
    && MIN_NAME_LEN <= |name| <= MAX_NAME_LEN && IsPrintable(name) && COLON !in name
    && exists i :: 0 <= i < |name| && IsAlphanumeric(name[i])
  }

  predicate IsAllowedRealm(realm: Name) {
    1 <= |realm| <= MAX_NAME_LEN && IsPrintable(realm)
  }

  /** The name and the realm behind its last `@`. */
  ghost predicate IsSplit(full: Name, name: Name, realm: Name) {
    full == name + [AT] + realm && AT !in realm
  }

  lemma SplitIsUnique(full: Name, name: Name, realm: Name)
    requires IsSplit(full, name, realm)
    ensures SplitRealm(full) == (name, Some(realm))
  {
    var i := LastIndexOf(full, AT);
    assert full[|name|] == AT;
    forall j | |name| < j < |full| ensures full[j] != AT {
      assert full[j] == realm[j - |name| - 1] && realm[j - |name| - 1] in realm;
    }
    assert i == |name|;
    assert full[..i] == name && full[i + 1..] == realm;
  }

  /** Main result: an account may be called just what is allowed, with an allowed realm behind an `@` or without one. */
  lemma AllowedIff(full: Name)
    ensures ValidateAccountName(full).None? <==>
      || (AT !in full && IsAllowed(full))
      || exists name, realm :: IsSplit(full, name, realm) && IsAllowed(name) && IsAllowedRealm(realm)
  {
    hide IsAllowed, IsAllowedRealm;
    var (name, realm) := SplitRealm(full);
    PartsAllowedIff(full);
    if realm.Some? { assert IsSplit(full, name, realm.value); }
    if n, r :| IsSplit(full, n, r) && IsAllowed(n) && IsAllowedRealm(r) {
      SplitIsUnique(full, n, r);
    }
    if AT !in full { NoSplit(full); }
  }

  lemma NoSplit(full: Name)
    requires AT !in full
    ensures SplitRealm(full) == (full, None)
  {
  }

  lemma PartsAllowedIff(full: Name)
    ensures
      var (name, realm) := SplitRealm(full);
      ValidateAccountName(full).None? <==> IsAllowed(name) && (realm.Some? ==> IsAllowedRealm(realm.value))
  {
    hide SplitRealm;
  }
}
