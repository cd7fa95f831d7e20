/** Names for the people a bridge brings in (`bridge.rs`): how they are built, and why they cannot be taken or clash. */
module Bridges {
  import opened Bytes
  import opened Text

  const MAX_NAME: nat := 15
  const MAX_TAG: nat := 3
  const MAX_HOPS: nat := 3
  /** "user" */
  const FALLBACK_STEM: Name := [117, 115, 101, 114]
  /** The suffixes tried are none, `#2`, ..., `#99`. */
  const CANDIDATES: nat := 99

  predicate IsTag(raw: Name) {
    1 <= |raw| <= MAX_TAG && forall i | 0 <= i < |raw| :: IsAlphanumeric(raw[i])
  }

  type Tag = raw: Name | IsTag(raw) witness [68]

  /** The tag of a name in the bridges' namespace. */
  function IsBridgedName(name: Name): Option<Tag> {
    var i := IndexOf(name, COLON);
    if i + 1 < |name| && IsTag(name[..i]) then Some(name[..i]) else None
  }

  /** A name reads as bridged exactly when it is a tag, a colon, and something more. */
  lemma BridgedIff(name: Name, tag: Tag)
    ensures IsBridgedName(name) == Some(tag) <==>
      |name| > |tag| + 1 && name[..|tag|] == tag && name[|tag|] == COLON
  {
    if |name| > |tag| + 1 && name[..|tag|] == tag && name[|tag|] == COLON {
      forall k | 0 <= k < |tag| ensures name[k] != COLON { assert name[k] == tag[k] && IsAlphanumeric(tag[k]); }
      assert IndexOf(name, COLON) == |tag|;
    }
  }

  predicate Carried(b: byte) {
    IsAlphanumeric(b) || b == 45 || b == 95 || b == 91 || b == 93
  }

  function Filtered(s: Name): (r: Name)
    ensures forall i | 0 <= i < |r| :: Carried(r[i])
    ensures |r| <= |s|
  {
    if s == [] then [] else (if Carried(s[0]) then [s[0]] else []) + Filtered(s[1..])
  }

  function SanitizeRemoteName(display: Name): (r: Name)
    ensures r != [] && forall i | 0 <= i < |r| :: Carried(r[i])
  {
    if Filtered(display) == [] then FALLBACK_STEM else Filtered(display)
  }

  /** A number as its decimal digits. */
  function Decimal(n: nat): (s: Name)
    ensures s != [] && forall i | 0 <= i < |s| :: IsDigit(s[i])
  {
    (if n < 10 then [] else Decimal(n / 10)) + [48 + n % 10]
  }

  function Value(digits: Name): int {
    if digits == [] then 0 else 10 * Value(digits[..|digits| - 1]) + digits[|digits| - 1] as int - 48
  }

  lemma {:induction false} DecimalIsRead(n: nat)
    ensures Value(Decimal(n)) == n
  {
    var s := Decimal(n);
    if n >= 10 {
      DecimalIsRead(n / 10);
      assert s[..|s| - 1] == Decimal(n / 10);
    } else {
      assert s[..|s| - 1] == [];
    }
  }

  lemma {:induction false} DecimalLength(n: nat, k: nat)
    requires k >= 1 && n < Pow(10, k)
    ensures |Decimal(n)| <= k
    decreases k
  {
    if n >= 10 {
      DecimalLength(n / 10, k - 1);
    }
  }

  function Suffix(n: Option<u32>): Name {
    match n case None => [] case Some(k) => [HASH] + Decimal(k as nat)
  }

  lemma SuffixLength(n: Option<u32>)
    ensures |Suffix(n)| <= 11
    ensures n.Some? && n.value < 100 ==> |Suffix(n)| <= 3
  {
    if n.Some? {
      assert Pow(10, 2) == 100 && Pow(10, 10) == 10000000000 by {
        assert Pow(10, 1) == 10 && Pow(10, 4) == 10000 && Pow(10, 7) == 10000000;
      }
      DecimalLength(n.value as nat, 10);
      if n.value < 100 { DecimalLength(n.value as nat, 2); }
    }
  }

  /** As much of the stem as still fits. */
  function Stem(tag: Tag, display: Name, suffix: Name): Name {
    var stem := SanitizeRemoteName(display);
    var left := MAX_NAME - (|tag| + 1);
    var budget := if left < |suffix| then 0 else left - |suffix|;
    stem[..Min(budget, |stem|)]
  }

  /** An empty stem leaves the bare tag and suffix, which is what this reads as too. */
  function DeriveName(tag: Tag, display: Name, n: Option<u32>): Name {
    tag + [COLON] + Stem(tag, display, Suffix(n)) + Suffix(n)
  }

  lemma DerivedAt(tag: Tag, display: Name, n: Option<u32>, i: nat)
    requires i < |DeriveName(tag, display, n)|
    ensures
      var stem := Stem(tag, display, Suffix(n));
      DeriveName(tag, display, n)[i] ==
        (if i < |tag| then tag[i] else if i == |tag| then COLON
         else if i <= |tag| + |stem| then stem[i - |tag| - 1] else Suffix(n)[i - |tag| - 1 - |stem|])
  {
    hide Stem, Suffix;
    PartsAt(tag, Stem(tag, display, Suffix(n)), Suffix(n), i);
  }

  lemma PartsAt(a: Name, b: Name, c: Name, i: nat)
    requires i < |a + [COLON] + b + c|
    ensures (a + [COLON] + b + c)[i] ==
      (if i < |a| then a[i] else if i == |a| then COLON
       else if i <= |a| + |b| then b[i - |a| - 1] else c[i - |a| - 1 - |b|])
  {
  }

  /** Whatever the remote name and the number: at most 15 printable characters, in this bridge's namespace. */
  lemma DerivedNameFits(tag: Tag, display: Name, n: Option<u32>)
    ensures
      var name := DeriveName(tag, display, n);
      && |name| <= MAX_NAME
      && IsBridgedName(name) == Some(tag)
      && forall i | 0 <= i < |name| :: name[i] < 0x80 && !IsBlankOrControl(name[i])
  {
    hide SanitizeRemoteName, Suffix;
    var name, stem := DeriveName(tag, display, n), Stem(tag, display, Suffix(n));
    SuffixLength(n);
    SuffixShape(n);
    StemIsNotEmpty(tag, display, n);
    StemIsCarried(tag, display, Suffix(n));
    forall i | 0 <= i < |name| ensures name[i] < 0x80 && !IsBlankOrControl(name[i]) {
      DerivedAt(tag, display, n, i);
    }
    forall i | 0 <= i <= |tag| ensures name[i] == if i < |tag| then tag[i] else COLON {
      DerivedAt(tag, display, n, i);
    }
    FirstColon(tag, name);
    assert name[..|tag|] == tag;
  }

  lemma FirstColon(tag: Tag, name: Name)
    requires |tag| < |name| && forall i | 0 <= i <= |tag| :: name[i] == if i < |tag| then tag[i] else COLON
    ensures IndexOf(name, COLON) == |tag|
  {
    assert name[|tag|] == COLON;
    assert forall k | 0 <= k < |tag| :: name[k] == tag[k] && IsAlphanumeric(tag[k]);
  }

  lemma StemIsNotEmpty(tag: Tag, display: Name, n: Option<u32>)
    ensures Stem(tag, display, Suffix(n)) + Suffix(n) != []
  {
  }

  lemma StemIsCarried(tag: Tag, display: Name, suffix: Name)
    ensures forall i | 0 <= i < |Stem(tag, display, suffix)| :: Carried(Stem(tag, display, suffix)[i])
  {
  }

  lemma SuffixShape(n: Option<u32>)
    ensures forall i | 0 <= i < |Suffix(n)| :: Suffix(n)[i] == HASH || IsDigit(Suffix(n)[i])
  {
  }

  lemma {:induction false} FilteredParts(a: Name, b: Name)
    ensures Filtered(a + b) == Filtered(a) + Filtered(b)
    decreases |a|
  {
    if a == [] {
      assert a + b == b;
    } else {
      FilteredParts(a[1..], b);
      assert (a + b)[1..] == a[1..] + b;
    }
  }

  /** Of the display name each character that can be carried is kept in its place, and each other one is dropped. */
  lemma SanitizedKeepsOrder(a: Name, x: byte, b: Name)
    ensures Filtered(a + [x] + b) == Filtered(a) + (if Carried(x) then [x] else []) + Filtered(b)
    ensures SanitizeRemoteName(a) == FALLBACK_STEM <==> Filtered(a) == [] || Filtered(a) == FALLBACK_STEM
    ensures Filtered(a) != [] ==> SanitizeRemoteName(a) == Filtered(a)
  {
    hide Filtered, Carried;
    FilteredParts(a + [x], b);
    FilteredParts(a, [x]);
    FilteredOne(x);
  }

  lemma FilteredOne(x: byte)
    ensures Filtered([x]) == if Carried(x) then [x] else []
  {
    assert [x][1..] == [];
  }

  /** A derived name shows the tag, as much of the display name as fits, and the number. */
  lemma DerivedShowsName(tag: Tag, display: Name, n: Option<u32>) returns (shown: Name)
    ensures shown <= SanitizeRemoteName(display)
    ensures DeriveName(tag, display, n) == tag + [COLON] + shown + Suffix(n)
    ensures shown == SanitizeRemoteName(display) || |DeriveName(tag, display, n)| == MAX_NAME
    ensures n.Some? ==> Suffix(n)[0] == HASH && Value(Suffix(n)[1..]) == n.value
    ensures n.None? ==> Suffix(n) == []
  {
    shown := Stem(tag, display, Suffix(n));
    SuffixLength(n);
    if n.Some? {
      DecimalIsRead(n.value as nat);
      assert Suffix(n)[1..] == Decimal(n.value as nat);
    }
  }

  // ---- Accounts cannot look like bridged people ----

  lemma LowerKeepsPunctuation(s: Name, t: Name, i: nat)
    requires Lower(s) == Lower(t) && i < |s|
    ensures |s| == |t|
    ensures s[i] == COLON <==> t[i] == COLON
    ensures s[i] == AT <==> t[i] == AT
    ensures s[i] == HASH <==> t[i] == HASH
    ensures IsDigit(s[i]) ==> s[i] == t[i]
  {
    assert Lower(s)[i] == LowerByte(s[i]) && Lower(t)[i] == LowerByte(t[i]);
  }

  /** No name an account may have reads as bridged, even with a colon in its realm. */
  lemma AccountsAreNotBridged(full: Name)
    requires ValidateAccountName(full).None?
    ensures IsBridgedName(full).None?
  {
    hide IsTag;
    var i := IndexOf(full, COLON);
    if i < |full| {
      ColonIsBehindRealmSign(full, i);
      var at :| 0 <= at < i && full[at] == AT;
      assert full[..i][at] == AT;
      TagsHaveNoSigns(full[..i], at);
    }
  }

  lemma TagsHaveNoSigns(raw: Name, at: nat)
    requires at < |raw| && raw[at] == AT
    ensures !IsTag(raw)
  {
  }

  /** A colon in an allowed name stands in the realm, behind an `@`. */
  lemma ColonIsBehindRealmSign(full: Name, i: nat)
    requires ValidateAccountName(full).None? && i < |full| && full[i] == COLON
    ensures exists at :: 0 <= at < i && full[at] == AT
  {
    var (name, realm) := SplitRealm(full);
    assert realm.Some? ==> full == name + ([AT] + realm.value);
    BehindName(name, [AT] + realm.value, i);
    assert full[|name|] == AT;
  }

  lemma BehindName(name: Name, rest: Name, i: nat)
    requires i < |name + rest| && (name + rest)[i] == COLON && COLON !in name
    ensures |name| <= i
  {
  }

  /** No derived name equals a name an account may have, not even with letters of the other case. */
  lemma DerivedNamesAreNobodys(tag: Tag, display: Name, n: Option<u32>, full: Name)
    requires ValidateAccountName(full).None?
    ensures Lower(DeriveName(tag, display, n)) != Lower(full)
  {
    hide Stem, Suffix, IsTag, ValidateAccountName;
    var name := DeriveName(tag, display, n);
    if Lower(name) == Lower(full) {
      DerivedAt(tag, display, n, |tag|);
      LowerKeepsPunctuation(name, full, |tag|);
      ColonIsBehindRealmSign(full, |tag|);
      var at :| 0 <= at < |tag| && full[at] == AT;
      DerivedAt(tag, display, n, at);
      LowerKeepsPunctuation(name, full, at);
      TagsHaveNoSigns(tag, at);
      assert false;
    }
  }

  // ---- The candidates differ ----

  /** Candidate 1 has no suffix, candidate `i` has `#i`. */
  function Candidate(tag: Tag, display: Name, i: nat): Name
    requires 1 <= i <= CANDIDATES
  {
    DeriveName(tag, display, if i == 1 then None else Some(i as u32))
  }

  /** Where the `#` is, if there is one: right behind the stem, and nowhere else. */
  lemma HashOfDerived(tag: Tag, display: Name, n: Option<u32>, i: nat)
    requires i < |DeriveName(tag, display, n)|
    ensures DeriveName(tag, display, n)[i] == HASH <==> n.Some? && i == |tag| + 1 + |Stem(tag, display, Suffix(n))|
  {
    hide Stem;
    DerivedAt(tag, display, n, i);
    StemIsCarried(tag, display, Suffix(n));
  }

  /** Two candidates for one display name never coincide, whatever the case of the letters. */
  lemma CandidatesDiffer(tag: Tag, display: Name, i: nat, j: nat)
    requires 1 <= i < j <= CANDIDATES
    ensures Lower(Candidate(tag, display, i)) != Lower(Candidate(tag, display, j))
  {
    hide Stem, Suffix, DeriveName;
    var ni: Option<u32>, nj: Option<u32> := if i == 1 then None else Some(i as u32), Some(j as u32);
    var a, b := DeriveName(tag, display, ni), DeriveName(tag, display, nj);
    if Lower(a) == Lower(b) {
      var p := |tag| + 1 + |Stem(tag, display, Suffix(nj))|;
      DerivedLength(tag, display, ni);
      DerivedLength(tag, display, nj);
      assert |Lower(a)| == |a| && |Lower(b)| == |b|;
      HashOfDerived(tag, display, nj, p);
      LowerKeepsPunctuation(a, b, p);
      HashOfDerived(tag, display, ni, p);
      var d, e := Decimal(i), Decimal(j);
      assert |d| == |e|;
      forall k | 0 <= k < |d| ensures d[k] == e[k] {
        DigitOfDerived(tag, display, i, k);
        DigitOfDerived(tag, display, j, k);
        LowerKeepsPunctuation(a, b, p + 1 + k);
      }
      assert d == e;
      DecimalIsRead(i);
      DecimalIsRead(j);
    }
  }

  lemma DerivedLength(tag: Tag, display: Name, n: Option<u32>)
    ensures |DeriveName(tag, display, n)| == |tag| + 1 + |Stem(tag, display, Suffix(n))| + |Suffix(n)|
    ensures n.Some? ==> |Suffix(n)| == 1 + |Decimal(n.value as nat)|
  {
  }

  lemma DigitOfDerived(tag: Tag, display: Name, i: nat, k: nat)
    requires 2 <= i <= CANDIDATES && k < |Decimal(i)|
    ensures
      var name, p := Candidate(tag, display, i), |tag| + 1 + |Stem(tag, display, Suffix(Some(i as u32)))|;
      p + 1 + k < |name| && name[p + 1 + k] == Decimal(i)[k]
  {
    hide Stem;
    var n: Option<u32> := Some(i as u32);
    var p := |tag| + 1 + |Stem(tag, display, Suffix(n))|;
    DerivedLength(tag, display, n);
    DerivedAt(tag, display, n, p + 1 + k);
  }
}
