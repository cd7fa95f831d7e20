/** Account attributes and who may see and change them (`attr.rs`). */
module Attributes {
  import opened Bytes
  import opened Text

  type AccountId = nat
  type Value = seq<byte>

  const BACKSLASH: byte := 92
  const SLASH: byte := 47

  datatype Actor = Other | Owner(id: AccountId) | Internal | Admin

  datatype Level = Anyone | OwnerOnly | InternalOnly

  datatype Acl = Acl(read: Level, write: Level)

  const PUBLIC := Acl(Anyone, OwnerOnly)
  const PRIVATE := Acl(OwnerOnly, OwnerOnly)
  const SERVER_PUBLIC := Acl(Anyone, InternalOnly)
  const SECRET := Acl(InternalOnly, InternalOnly)

  predicate Permits(level: Level, actor: Actor, owner: AccountId) {
    match level
    case Anyone => true
    case OwnerOnly => actor.Internal? || actor.Admin? || actor == Owner(owner)
    case InternalOnly => actor.Internal?
  }

  // ---- Keys ----

  predicate IsBlank(b: byte) {
    9 <= b <= 13 || b == 32
  }

  /** The UTF-8 form of one white-space character of Unicode. */
  predicate IsSpaceChar(c: Name) {
    || (|c| == 1 && IsBlank(c[0]))
    || (|c| == 2 && c[0] == 0xC2 && (c[1] == 0x85 || c[1] == 0xA0))
    || (|c| == 3 && c[0] == 0xE1 && c[1] == 0x9A && c[2] == 0x80)
    || (|c| == 3 && c[0] == 0xE2 && c[1] == 0x80 && (c[2] <= 0x8A || c[2] == 0xA8 || c[2] == 0xA9 || c[2] == 0xAF) && c[2] >= 0x80)
    || (|c| == 3 && c[0] == 0xE2 && c[1] == 0x81 && c[2] == 0x9F)
    || (|c| == 3 && c[0] == 0xE3 && c[1] == 0x80 && c[2] == 0x80)
  }

  /** A code point below 0x10000 in UTF-8. */
  function Utf8(cp: nat): Name
    requires cp < 0x1_0000
  {
    if cp < 0x80 then [cp]
    else if cp < 0x800 then [0xC0 + cp / 64, 0x80 + cp % 64]
    else [0xE0 + cp / 4096, 0x80 + cp / 64 % 64, 0x80 + cp % 64]
  }

  /** The code points that Unicode calls white space. */
  predicate IsWhiteSpace(cp: nat) {
    || 9 <= cp <= 13 || cp == 0x20 || cp == 0x85 || cp == 0xA0 || cp == 0x1680 || 0x2000 <= cp <= 0x200A
    || cp == 0x2028 || cp == 0x2029 || cp == 0x202F || cp == 0x205F || cp == 0x3000
  }

  /** The white-space characters are the UTF-8 forms of those code points, and no others. */
  lemma SpaceCharIff(c: Name)
    ensures IsSpaceChar(c) <==> exists cp: nat :: cp < 0x1_0000 && IsWhiteSpace(cp) && c == Utf8(cp)
  {
    hide IsSpaceChar, Utf8, IsWhiteSpace;
    if IsSpaceChar(c) { var cp := SpaceCode(c); }
    if cp: nat :| cp < 0x1_0000 && IsWhiteSpace(cp) && c == Utf8(cp) { SpaceOfCode(cp); }
  }

  lemma SpaceOfCode(cp: nat)
    requires cp < 0x1_0000 && IsWhiteSpace(cp)
    ensures IsSpaceChar(Utf8(cp))
  {
    if 0x2000 <= cp <= 0x200A {
      assert cp / 4096 == 2 && cp / 64 % 64 == 0 && cp % 64 == cp - 0x2000;
    } else if cp >= 0x800 {
      assert cp == 0x1680 || cp == 0x2028 || cp == 0x2029 || cp == 0x202F || cp == 0x205F || cp == 0x3000;
    }
  }

  lemma SpaceCode(c: Name) returns (cp: nat)
    requires IsSpaceChar(c)
    ensures cp < 0x1_0000 && IsWhiteSpace(cp) && c == Utf8(cp)
  {
    if |c| == 1 {
      cp := c[0];
    } else if |c| == 2 {
      cp := c[1];
    } else {
      cp := if c[0] == 0xE1 then 0x1680 else if c[0] == 0xE3 then 0x3000 else if c[1] == 0x81 then 0x205F else 0x1F80 + (c[2] as int);
    }
  }

  predicate StartsWithSpace(s: Name, k: nat) {
    k <= |s| && IsSpaceChar(s[..k])
  }

  predicate EndsWithSpace(s: Name, k: nat) {
    k <= |s| && IsSpaceChar(s[|s| - k..])
  }

  /** No white-space character stands at either end. */
  ghost predicate IsBare(s: Name) {
    forall k: nat | 1 <= k <= 3 :: !StartsWithSpace(s, k) && !EndsWithSpace(s, k)
  }

  /** How many bytes the white-space character at the front takes; 0 without one. */
  function SpaceInFront(s: Name): (n: nat)
    ensures n <= |s|
  {
    if |s| >= 1 && IsSpaceChar(s[..1]) then 1
    else if |s| >= 2 && IsSpaceChar(s[..2]) then 2
    else if |s| >= 3 && IsSpaceChar(s[..3]) then 3
    else 0
  }

  /** The same at the end. */
  function SpaceAtEnd(s: Name): (n: nat)
    ensures n <= |s|
  {
    if |s| >= 1 && IsSpaceChar(s[|s| - 1..]) then 1
    else if |s| >= 2 && IsSpaceChar(s[|s| - 2..]) then 2
    else if |s| >= 3 && IsSpaceChar(s[|s| - 3..]) then 3
    else 0
  }

  function TrimStart(s: Name): Name {
    var n := SpaceInFront(s);
    if n > 0 then TrimStart(s[n..]) else s
  }

  function TrimEnd(s: Name): Name {
    var n := SpaceAtEnd(s);
    if n > 0 then TrimEnd(s[..|s| - n]) else s
  }

  function KeyByte(b: byte): byte {
    LowerByte(if b == SLASH then BACKSLASH else b)
  }

  function Folded(s: Name): (t: Name)
    ensures |t| == |s| && forall i | 0 <= i < |s| :: t[i] == KeyByte(s[i])
  {
    seq(|s|, i requires 0 <= i < |s| => KeyByte(s[i]))
  }

  /** The canonical form of a key. */
  function Normalize(raw: Name): Name {
    Folded(TrimEnd(TrimStart(raw)))
  }

  ghost predicate Trimmed(s: Name) {
    SpaceInFront(s) == 0 && SpaceAtEnd(s) == 0
  }

  lemma {:induction false} TrimEndTrims(s: Name)
    ensures TrimEnd(s) <= s && SpaceAtEnd(TrimEnd(s)) == 0
    decreases |s|
  {
    hide SpaceAtEnd;
    if SpaceAtEnd(s) > 0 { TrimEndTrims(s[..|s| - SpaceAtEnd(s)]); }
  }

  lemma {:induction false} TrimStartTrims(s: Name)
    ensures SpaceInFront(TrimStart(s)) == 0
    decreases |s|
  {
    hide SpaceInFront;
    if SpaceInFront(s) > 0 { TrimStartTrims(s[SpaceInFront(s)..]); }
  }

  /** White space in front of a piece from the front is white space in front of the whole. */
  lemma FrontOfPrefix(p: Name, s: Name)
    requires p <= s && SpaceInFront(s) == 0
    ensures SpaceInFront(p) == 0
  {
    hide IsSpaceChar;
    assert forall k | 0 <= k <= |p| :: p[..k] == s[..k];
  }

  lemma TrimmedStays(s: Name)
    requires Trimmed(s)
    ensures TrimEnd(TrimStart(s)) == s
  {
  }

  /** Folding neither makes white space nor takes it away. */
  lemma FoldedSpace(c: Name)
    ensures IsSpaceChar(Folded(c)) <==> IsSpaceChar(c)
  {
  }

  lemma FoldedEnds(s: Name, k: nat)
    ensures StartsWithSpace(Folded(s), k) == StartsWithSpace(s, k) && EndsWithSpace(Folded(s), k) == EndsWithSpace(s, k)
  {
    hide IsSpaceChar;
    if k <= |s| {
      assert Folded(s)[..k] == Folded(s[..k]) && Folded(s)[|s| - k..] == Folded(s[|s| - k..]);
      FoldedSpace(s[..k]);
      FoldedSpace(s[|s| - k..]);
    }
  }

  lemma NoSpaceInFrontIff(s: Name)
    ensures SpaceInFront(s) == 0 <==> !StartsWithSpace(s, 1) && !StartsWithSpace(s, 2) && !StartsWithSpace(s, 3)
  {
    hide IsSpaceChar;
  }

  lemma NoSpaceAtEndIff(s: Name)
    ensures SpaceAtEnd(s) == 0 <==> !EndsWithSpace(s, 1) && !EndsWithSpace(s, 2) && !EndsWithSpace(s, 3)
  {
    hide IsSpaceChar;
  }

  lemma TrimmedIff(s: Name)
    ensures Trimmed(s) <==> IsBare(s)
  {
    hide SpaceInFront, SpaceAtEnd, StartsWithSpace, EndsWithSpace;
    NoSpaceInFrontIff(s);
    NoSpaceAtEndIff(s);
  }

  lemma FoldedStaysTrimmed(s: Name)
    requires Trimmed(s)
    ensures Trimmed(Folded(s))
  {
    hide Folded, Trimmed, StartsWithSpace, EndsWithSpace;
    TrimmedIff(s);
    TrimmedIff(Folded(s));
    forall k: nat | 1 <= k <= 3 ensures !StartsWithSpace(Folded(s), k) && !EndsWithSpace(Folded(s), k) {
      FoldedEnds(s, k);
    }
  }

  /** A canonical key is its own canonical form, so two spellings are one key exactly when their forms agree. */
  lemma NormalizeIsCanonical(raw: Name)
    ensures Normalize(Normalize(raw)) == Normalize(raw)
  {
    hide SpaceInFront, SpaceAtEnd;
    var t := TrimEnd(TrimStart(raw));
    TrimStartTrims(raw);
    TrimEndTrims(TrimStart(raw));
    FrontOfPrefix(t, TrimStart(raw));
    FoldedStaysTrimmed(t);
    TrimmedStays(Folded(t));
    assert forall i | 0 <= i < |t| :: KeyByte(Folded(t)[i]) == Folded(t)[i];
    assert Folded(Folded(t)) == Folded(t);
  }

  /** White space and nothing else: one white-space character after the other. */
  ghost predicate AllSpace(s: Name) {
    s == [] || exists k :: 1 <= k <= 3 && k <= |s| && IsSpaceChar(s[..k]) && AllSpace(s[k..])
  }

  lemma {:induction false} StartIsSpace(s: Name) returns (front: Name)
    ensures s == front + TrimStart(s) && AllSpace(front)
    decreases |s|
  {
    hide IsSpaceChar;
    var n := SpaceInFront(s);
    if n > 0 {
      var rest := StartIsSpace(s[n..]);
      front := s[..n] + rest;
      assert front[..n] == s[..n] && front[n..] == rest;
    } else {
      front := [];
    }
  }

  lemma {:induction false} SpaceAppends(s: Name, c: Name)
    requires AllSpace(s) && 1 <= |c| <= 3 && IsSpaceChar(c)
    ensures AllSpace(s + c)
    decreases |s|
  {
    hide IsSpaceChar;
    if s == [] {
      assert s + c == c && c[..|c|] == c && c[|c|..] == [];
      assert AllSpace([]);
    } else {
      var k :| 1 <= k <= 3 && k <= |s| && IsSpaceChar(s[..k]) && AllSpace(s[k..]);
      SpaceAppends(s[k..], c);
      assert (s + c)[..k] == s[..k] && (s + c)[k..] == s[k..] + c;
    }
  }

  lemma {:induction false} EndIsSpace(s: Name) returns (back: Name)
    ensures s == TrimEnd(s) + back && AllSpace(back)
    decreases |s|
  {
    hide IsSpaceChar, AllSpace, SpaceAtEnd;
    var n := SpaceAtEnd(s);
    if n > 0 {
      var most, last := s[..|s| - n], s[|s| - n..];
      var rest := EndIsSpace(most);
      back := rest + last;
      assert 1 <= |last| <= 3 && IsSpaceChar(last) by { LastIsSpace(s); }
      SpaceAppends(rest, last);
      Concat(TrimEnd(most), rest, last);
      TwoParts(s, |s| - n);
    } else {
      back := [];
      assert AllSpace([]) by { NothingIsSpace(); }
    }
  }

  lemma TwoParts(s: Name, n: nat)
    requires n <= |s|
    ensures s[..n] + s[n..] == s
  {
  }

  lemma LastIsSpace(s: Name)
    requires SpaceAtEnd(s) > 0
    ensures SpaceAtEnd(s) <= 3 && IsSpaceChar(s[|s| - SpaceAtEnd(s)..])
  {
    hide IsSpaceChar;
  }

  lemma NothingIsSpace()
    ensures AllSpace([])
  {
  }

  /** A byte of a key as it is written, and as it is kept: a slash turned, a capital letter made small. */
  predicate IsKept(raw: byte, kept: byte) {
    if raw == SLASH then kept == BACKSLASH else if 65 <= raw <= 90 then kept == raw + 32 else kept == raw
  }

  /** A key is kept without the white space around it, and byte by byte otherwise. */
  lemma NormalizeKeeps(raw: Name) returns (front: Name, core: Name, back: Name)
    ensures raw == front + core + back && AllSpace(front) && AllSpace(back) && IsBare(core)
    ensures |Normalize(raw)| == |core| && forall i | 0 <= i < |core| :: IsKept(core[i], Normalize(raw)[i])
  {
    hide SpaceInFront, SpaceAtEnd, AllSpace, IsBare;
    front := StartIsSpace(raw);
    back := EndIsSpace(TrimStart(raw));
    core := TrimEnd(TrimStart(raw));
    TrimStartTrims(raw);
    TrimEndTrims(TrimStart(raw));
    FrontOfPrefix(core, TrimStart(raw));
    TrimmedIff(core);
    Concat(front, core, back);
  }

  // ---- Rules ----

  type Rule = (Name, Acl)

  datatype Schema = Schema(rules: seq<Rule>, fallback: Acl)

  /** The prefix is the key, or whole segments at its front. */
  predicate Matches(prefix: Name, key: Name) {
    key == prefix || prefix + [BACKSLASH] <= key
  }

  /** A key falls under a prefix when it is the prefix, or goes on from it with a backslash. */
  lemma MatchesIff(prefix: Name, key: Name)
    ensures Matches(prefix, key) <==>
      && |prefix| <= |key| && (forall i | 0 <= i < |prefix| :: key[i] == prefix[i])
      && (|key| == |prefix| || key[|prefix|] == 92)
  {
    var p := prefix + [BACKSLASH];
    assert forall i | 0 <= i < |p| :: p[i] == if i < |prefix| then prefix[i] else BACKSLASH;
    if p <= key { assert key[..|p|] == p; }
    if |prefix| < |key| && (forall i | 0 <= i < |prefix| :: key[i] == prefix[i]) && key[|prefix|] == 92 {
      assert key[..|p|] == p;
    }
  }

  function FirstMatch(rules: seq<Rule>, key: Name, fallback: Acl): Acl {
    if rules == [] then fallback
    else if Matches(rules[0].0, key) then rules[0].1
    else FirstMatch(rules[1..], key, fallback)
  }

  function AclOf(s: Schema, key: Name): Acl {
    FirstMatch(s.rules, key, s.fallback)
  }

  function Retained(rules: seq<Rule>, key: Name): seq<Rule> {
    if rules == [] then []
    else (if rules[0].0 == key then [] else [rules[0]]) + Retained(rules[1..], key)
  }

  /** Behind every rule at least as long. */
  function Insert(rules: seq<Rule>, rule: Rule): seq<Rule> {
    if rules == [] then [rule]
    else if |rules[|rules| - 1].0| >= |rule.0| then rules + [rule]
    else Insert(rules[..|rules| - 1], rule) + [rules[|rules| - 1]]
  }

  /** The stable sort, longest prefix first. */
  function Sorted(rules: seq<Rule>): seq<Rule> {
    if rules == [] then [] else Insert(Sorted(rules[..|rules| - 1]), rules[|rules| - 1])
  }

  function AfterSet(s: Schema, prefix: Name, acl: Acl): Schema {
    var key := Normalize(prefix);
    s.(rules := Sorted(Retained(s.rules, key) + [(key, acl)]))
  }

  function AfterSets(s: Schema, sets: seq<Rule>): Schema {
    if sets == [] then s
    else AfterSet(AfterSets(s, sets[..|sets| - 1]), sets[|sets| - 1].0, sets[|sets| - 1].1)
  }

  ghost predicate LongestFirst(rules: seq<Rule>) {
    forall i, j | 0 <= i < j < |rules| :: |rules[i].0| >= |rules[j].0|
  }

  /** The rules of one length, in order. */
  function OfLength(rules: seq<Rule>, n: nat): seq<Rule> {
    if rules == [] then []
    else OfLength(rules[..|rules| - 1], n) + if |rules[|rules| - 1].0| == n then [rules[|rules| - 1]] else []
  }

  lemma Appended(most: seq<Rule>, last: Rule)
    ensures forall x :: x in most + [last] <==> x in most || x == last
  {
  }

  lemma {:induction false} InsertHas(rules: seq<Rule>, rule: Rule)
    ensures forall x :: x in Insert(rules, rule) <==> x in rules || x == rule
    decreases |rules|
  {
    Appended(rules, rule);
    if rules != [] {
      var most, last := rules[..|rules| - 1], rules[|rules| - 1];
      assert rules == most + [last];
      Appended(most, last);
      InsertHas(most, rule);
      Appended(Insert(most, rule), last);
    }
  }

  lemma ShorterLast(most: seq<Rule>, last: Rule)
    requires LongestFirst(most) && forall x | x in most :: |x.0| >= |last.0|
    ensures LongestFirst(most + [last])
  {
    forall i | 0 <= i < |most| ensures |most[i].0| >= |last.0| { assert most[i] in most; }
  }

  lemma {:induction false} InsertSorts(rules: seq<Rule>, rule: Rule)
    requires LongestFirst(rules)
    ensures LongestFirst(Insert(rules, rule))
    decreases |rules|
  {
    if rules != [] {
      var most, last := rules[..|rules| - 1], rules[|rules| - 1];
      assert forall x | x in most :: |x.0| >= |last.0|;
      if |last.0| < |rule.0| {
        InsertSorts(most, rule);
        InsertHas(most, rule);
        ShorterLast(Insert(most, rule), last);
      }
    }
  }

  lemma {:induction false} InsertIsStable(rules: seq<Rule>, rule: Rule, n: nat)
    requires LongestFirst(rules)
    ensures OfLength(Insert(rules, rule), n) == OfLength(rules, n) + if |rule.0| == n then [rule] else []
    decreases |rules|
  {
    if rules == [] {
      assert [rule][..0] == [];
    } else {
      var most, last := rules[..|rules| - 1], rules[|rules| - 1];
      if |last.0| >= |rule.0| {
        assert (rules + [rule])[..|rules|] == rules;
      } else {
        InsertIsStable(most, rule, n);
        assert (Insert(most, rule) + [last])[..|Insert(most, rule)|] == Insert(most, rule);
        if |rule.0| == n { NoneSoLong(rules, n); NoneSoLong(most, n); }
      }
    }
  }

  lemma {:induction false} NoneSoLong(rules: seq<Rule>, n: nat)
    ensures OfLength(rules, n) == [] || exists i :: 0 <= i < |rules| && |rules[i].0| == n
    decreases |rules|
  {
    if rules != [] {
      NoneSoLong(rules[..|rules| - 1], n);
      assert forall i | 0 <= i < |rules| - 1 :: rules[..|rules| - 1][i] == rules[i];
    }
  }

  /** The sort sorts, and keeps the order of rules of one length: so it drops and adds none. */
  lemma {:induction false} SortedSorts(rules: seq<Rule>, n: nat)
    ensures LongestFirst(Sorted(rules)) && OfLength(Sorted(rules), n) == OfLength(rules, n)
    ensures forall x :: x in Sorted(rules) <==> x in rules
    decreases |rules|
  {
    hide OfLength, Insert;
    if rules != [] {
      var most, last := rules[..|rules| - 1], rules[|rules| - 1];
      SortedSorts(most, n);
      InsertSorts(Sorted(most), last);
      InsertIsStable(Sorted(most), last, n);
      InsertHas(Sorted(most), last);
      assert rules == most + [last];
      Appended(most, last);
      OfLengthByLast(rules, n);
    } else {
      NoRules(n);
    }
  }

  lemma NoRules(n: nat)
    ensures OfLength([], n) == []
  {
  }

  lemma OfLengthByLast(rules: seq<Rule>, n: nat)
    requires rules != []
    ensures OfLength(rules, n) ==
      OfLength(rules[..|rules| - 1], n) + if |rules[|rules| - 1].0| == n then [rules[|rules| - 1]] else []
  {
  }

  // ---- What a list of rules means ----

  /** The rules are those of the map: each prefix with its last ACL, and the longer prefixes first. */
  ghost predicate Represents(rules: seq<Rule>, m: map<Name, Acl>) {
    && LongestFirst(rules)
    && (forall x | x in rules :: x.0 in m && m[x.0] == x.1)
    && (forall p | p in m :: (p, m[p]) in rules)
  }

  /** Each prefix as it was set last. */
  function LastSets(sets: seq<Rule>): map<Name, Acl> {
    if sets == [] then map[]
    else LastSets(sets[..|sets| - 1])[Normalize(sets[|sets| - 1].0) := sets[|sets| - 1].1]
  }

  lemma {:induction false} RetainedHas(rules: seq<Rule>, key: Name)
    ensures forall x :: x in Retained(rules, key) <==> x in rules && x.0 != key
    decreases |rules|
  {
    if rules != [] {
      RetainedHas(rules[1..], key);
      assert forall x :: x in rules <==> x == rules[0] || x in rules[1..];
    }
  }

  lemma ReplacedRepresents(rules: seq<Rule>, before: seq<Rule>, m: map<Name, Acl>, key: Name, acl: Acl)
    requires Represents(before, m) && LongestFirst(rules)
    requires forall x :: x in rules <==> (x in before && x.0 != key) || x == (key, acl)
    ensures Represents(rules, m[key := acl])
  {
    hide LongestFirst;
    var n := m[key := acl];
    forall p | p in n ensures (p, n[p]) in rules {
      if p != key { assert (p, m[p]) in before; }
    }
  }

  lemma SetRepresents(s: Schema, m: map<Name, Acl>, prefix: Name, acl: Acl)
    requires Represents(s.rules, m)
    ensures Represents(AfterSet(s, prefix, acl).rules, m[Normalize(prefix) := acl])
  {
    hide Normalize, LongestFirst, Sorted, Retained, Represents;
    var key := Normalize(prefix);
    var kept := Retained(s.rules, key);
    RetainedHas(s.rules, key);
    Appended(kept, (key, acl));
    SortedSorts(kept + [(key, acl)], 0);
    ReplacedRepresents(Sorted(kept + [(key, acl)]), s.rules, m, key, acl);
  }

  lemma {:induction false} SetsRepresent(fallback: Acl, sets: seq<Rule>)
    ensures
      var s := AfterSets(Schema([], fallback), sets);
      Represents(s.rules, LastSets(sets)) && s.fallback == fallback
    decreases |sets|
  {
    hide Represents, Normalize;
    if sets == [] {
      assert Represents([], map[]) by { NothingRepresented(); }
    } else {
      var most, last := sets[..|sets| - 1], sets[|sets| - 1];
      SetsRepresent(fallback, most);
      SetRepresents(AfterSets(Schema([], fallback), most), LastSets(most), last.0, last.1);
    }
  }

  lemma NothingRepresented()
    ensures Represents([], map[])
  {
  }

  /** The longest prefix of the map that matches, if one does. */
  ghost predicate IsLongest(m: map<Name, Acl>, key: Name, p: Name) {
    p in m && Matches(p, key) && forall q | q in m && Matches(q, key) :: |q| <= |p|
  }

  /** Two different prefixes of one length cannot both match. */
  lemma LongestIsUnique(m: map<Name, Acl>, key: Name, p: Name, q: Name)
    requires IsLongest(m, key, p) && IsLongest(m, key, q)
    ensures p == q
  {
    assert |p| == |q|;
    assert forall i | 0 <= i < |p| :: p[i] == key[i] && q[i] == key[i] by { MatchIsPrefix(p, key); MatchIsPrefix(q, key); }
  }

  lemma MatchIsPrefix(p: Name, key: Name)
    requires Matches(p, key)
    ensures |p| <= |key| && forall i | 0 <= i < |p| :: p[i] == key[i]
  {
    if key != p {
      assert forall i | 0 <= i < |p| :: (p + [BACKSLASH])[i] == p[i];
    }
  }

  /** A rule that matches, none that matches being longer. */
  ghost predicate Decides(rules: seq<Rule>, key: Name, x: Rule) {
    x in rules && Matches(x.0, key) && forall y | y in rules && Matches(y.0, key) :: |y.0| <= |x.0|
  }

  /** The first rule that matches is the longest, and without one the fallback holds. */
  lemma {:induction false} FirstIsLongest(rules: seq<Rule>, key: Name, fallback: Acl) returns (x: Rule)
    requires LongestFirst(rules)
    ensures
      if exists y :: y in rules && Matches(y.0, key) then Decides(rules, key, x) && FirstMatch(rules, key, fallback) == x.1
      else FirstMatch(rules, key, fallback) == fallback
    decreases |rules|
  {
    hide Matches;
    if rules != [] {
      assert forall x :: x in rules <==> x == rules[0] || x in rules[1..];
      x := FirstIsLongest(rules[1..], key, fallback);
      if Matches(rules[0].0, key) {
        x := rules[0];
      }
    } else {
      x := ([], fallback);
    }
  }

  /** The prefixes of the rules are those of the map. */
  lemma SamePrefixes(rules: seq<Rule>, m: map<Name, Acl>, key: Name)
    requires Represents(rules, m)
    ensures (exists y :: y in rules && Matches(y.0, key)) <==> exists q :: q in m && Matches(q, key)
    ensures forall x :: Decides(rules, key, x) ==> IsLongest(m, key, x.0) && m[x.0] == x.1
  {
    hide Matches, LongestFirst;
    if q :| q in m && Matches(q, key) { assert (q, m[q]) in rules; }
    forall x | Decides(rules, key, x) ensures IsLongest(m, key, x.0) {
      forall q | q in m && Matches(q, key) ensures |q| <= |x.0| { assert (q, m[q]) in rules; }
    }
  }

  /**
   * Main result: after any calls of `set`, a key has the ACL that was last set for the longest prefix of whole
   * segments among all those set, and the fallback when none matches.
   */
  lemma AclIsLongestPrefix(fallback: Acl, sets: seq<Rule>, key: Name, p: Name)
    ensures
      var (acl, m) := (AclOf(AfterSets(Schema([], fallback), sets), key), LastSets(sets));
      && (IsLongest(m, key, p) ==> acl == m[p])
      && ((forall q | q in m :: !Matches(q, key)) ==> acl == fallback)
  {
    hide Matches, AfterSets, LastSets, FirstMatch, Represents, Decides;
    var rules, m := AfterSets(Schema([], fallback), sets).rules, LastSets(sets);
    SetsRepresent(fallback, sets);
    LongestComesFirst(rules, m);
    var x := FirstIsLongest(rules, key, fallback);
    SamePrefixes(rules, m, key);
    if IsLongest(m, key, p) {
      LongestIsUnique(m, key, p, x.0);
    }
  }

  lemma LongestComesFirst(rules: seq<Rule>, m: map<Name, Acl>)
    requires Represents(rules, m)
    ensures LongestFirst(rules)
  {
  }

  /** So calls that leave the same ACL for each prefix, in whatever order, make the same schema. */
  lemma OrderDoesNotMatter(fallback: Acl, a: seq<Rule>, b: seq<Rule>, key: Name)
    requires LastSets(a) == LastSets(b)
    ensures AclOf(AfterSets(Schema([], fallback), a), key) == AclOf(AfterSets(Schema([], fallback), b), key)
  {
    hide Matches, AfterSets, LastSets, FirstMatch, AclOf;
    var m := LastSets(a);
    AclIsLongestPrefix(fallback, a, key, []);
    AclIsLongestPrefix(fallback, b, key, []);
    if exists q :: q in m && Matches(q, key) {
      var p := SomeLongest(m, key);
      AclIsLongestPrefix(fallback, a, key, p);
      AclIsLongestPrefix(fallback, b, key, p);
    }
  }

  lemma {:induction false} SomeLongest(m: map<Name, Acl>, key: Name) returns (p: Name)
    requires exists q :: q in m && Matches(q, key)
    ensures IsLongest(m, key, p)
    decreases |m|
  {
    hide Matches;
    p :| p in m && Matches(p, key);
    var rest := m - {p};
    assert rest.Keys == m.Keys - {p};
    assert |rest.Keys| < |m.Keys|;
    assert forall q :: q in m <==> q in rest || q == p;
    if exists q :: q in rest && Matches(q, key) {
      var best := SomeLongest(rest, key);
      if |best| > |p| { p := best; }
    }
  }
}
