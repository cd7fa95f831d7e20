/**
 What the values of a logon pin down: whoever presents one has put the same things into it, or has found two
 inputs with one hash. No hash of twenty bytes is free of collisions, so each result names the inputs.
 */
module NlsBinding {
  import opened Bytes
  import opened Modular
  import opened Nls

  type Inputs = (seq<byte>, seq<byte>)

  /** Two different inputs with one hash. */
  ghost predicate Collision(h: Hash, x: Inputs) {
    x.0 != x.1 && h(x.0) == h(x.1)
  }

  ghost predicate Collides(h: Hash, xs: seq<Inputs>) {
    exists i :: 0 <= i < |xs| && Collision(h, xs[i])
  }

  /** Equal hashes of pair `i` come from equal inputs, unless the pairs hold a collision. */
  lemma SameInput(h: Hash, xs: seq<Inputs>, i: nat)
    requires i < |xs| && h(xs[i].0) == h(xs[i].1)
    ensures xs[i].0 == xs[i].1 || Collides(h, xs)
  {
    if xs[i].0 != xs[i].1 { assert Collision(h, xs[i]); }
  }

  lemma {:induction false} FromLeInjective(a: seq<byte>, b: seq<byte>)
    requires |a| == |b| && FromLe(a) == FromLe(b)
    ensures a == b
    decreases |a|
  {
    if a != [] {
      FromLeInjective(a[1..], b[1..]);
      assert a == [a[0]] + a[1..] && b == [b[0]] + b[1..];
    }
  }

  lemma SameFront<T>(a: seq<T>, b: seq<T>, c: seq<T>, d: seq<T>)
    requires |a| == |c| && a + b == c + d
    ensures a == c && b == d
  {
    Front(a, b);
    Front(c, d);
  }

  // ---- The private key ----

  function Credentials(username: seq<byte>, password: seq<byte>): seq<byte> {
    Upper(username) + [58] + Upper(password)
  }

  function KeyInputs(h: Hash, u: seq<byte>, p: seq<byte>, salt: Field, u': seq<byte>, p': seq<byte>, salt': Field): seq<Inputs> {
    var inner, inner' := Credentials(u, p), Credentials(u', p');
    [(inner, inner'), (salt + h(inner), salt' + h(inner'))]
  }

  lemma CredentialsAre(u: seq<byte>, p: seq<byte>)
    ensures Credentials(u, p) == Upper(u + [58] + p)
  {
    assert Upper([58]) == [58];
  }

  /** One private key belongs to one salt, and to one name and password up to the case of their letters. */
  lemma PrivateKeyBinds(h: Hash, u: seq<byte>, p: seq<byte>, salt: Field, u': seq<byte>, p': seq<byte>, salt': Field)
    requires PrivateKey(h, u, p, salt) == PrivateKey(h, u', p', salt')
    ensures (salt == salt' && SameSpelling(u + [58] + p, u' + [58] + p')) || Collides(h, KeyInputs(h, u, p, salt, u', p', salt'))
  {
    hide Upper, SameSpelling, Collides, FromLe;
    var xs := KeyInputs(h, u, p, salt, u', p', salt');
    FromLeInjective(h(xs[1].0), h(xs[1].1));
    SameInput(h, xs, 1);
    if !Collides(h, xs) {
      SameFront(salt, h(xs[0].0), salt', h(xs[0].1));
      SameInput(h, xs, 0);
      CredentialsAre(u, p);
      CredentialsAre(u', p');
      UpperIff(u + [58] + p, u' + [58] + p');
    }
  }

  /** Where the name ends is known as long as neither name has a colon, as no account's name has. */
  lemma ColonEndsName(u: seq<byte>, p: seq<byte>, u': seq<byte>, p': seq<byte>)
    requires SameSpelling(u + [58] + p, u' + [58] + p') && 58 !in u && 58 !in u'
    ensures SameSpelling(u, u') && SameSpelling(p, p')
  {
    var s, t := u + [58] + p, u' + [58] + p';
    assert s[|u|] == 58 && t[|u'|] == 58;
    assert forall i | 0 <= i < |u| :: s[i] == u[i];
    assert forall i | 0 <= i < |u'| :: t[i] == u'[i];
    assert |u| == |u'|;
    forall i | 0 <= i < |p| ensures p[i] == p'[i] || IsCasePair(p[i], p'[i]) {
      assert s[|u| + 1 + i] == p[i] && t[|u| + 1 + i] == p'[i];
    }
  }

  // ---- Session keys ----

  function SecretInputs(s: Field, s': Field): seq<Inputs> {
    [(EveryOther(s, 0), EveryOther(s', 0)), (EveryOther(s, 1), EveryOther(s', 1))]
  }

  lemma HalvesMakeWhole(s: Field, s': Field)
    requires EveryOther(s, 0) == EveryOther(s', 0) && EveryOther(s, 1) == EveryOther(s', 1)
    ensures s == s'
  {
    forall i | 0 <= i < FIELD_LEN ensures s[i] == s'[i] {
      assert EveryOther(s, i % 2)[i / 2] == s[2 * (i / 2) + i % 2];
      assert EveryOther(s', i % 2)[i / 2] == s'[2 * (i / 2) + i % 2];
    }
  }

  /** One session key belongs to one secret. */
  lemma SessionKeyBinds(h: Hash, s: Field, s': Field)
    requires SessionKey(h, s) == SessionKey(h, s')
    ensures s == s' || Collides(h, SecretInputs(s, s'))
  {
    hide SessionKey, EveryOther, Collides;
    SessionKeyInterleaves(h, s);
    SessionKeyInterleaves(h, s');
    SameInput(h, SecretInputs(s, s'), 0);
    SameInput(h, SecretInputs(s, s'), 1);
    if !Collides(h, SecretInputs(s, s')) { HalvesMakeWhole(s, s'); }
  }

  // ---- Proofs ----

  /** What a client's proof is made of. */
  datatype Said = Said(username: seq<byte>, salt: Field, clientPublic: Field, serverPublic: Field, key: Key)

  function Proof(h: Hash, x: Said): Digest {
    ClientProofFromKey(h, x.username, x.salt, x.clientPublic, x.serverPublic, x.key)
  }

  function ProofInputs(h: Hash, x: Said, y: Said): seq<Inputs> {
    [(Upper(x.username), Upper(y.username)), (Message(h, x), Message(h, y))]
  }

  function Message(h: Hash, x: Said): seq<byte> {
    I + h(Upper(x.username)) + x.salt + x.clientPublic + x.serverPublic + x.key
  }

  lemma MessageParts(h: Hash, x: Said, y: Said)
    requires Message(h, x) == Message(h, y)
    ensures h(Upper(x.username)) == h(Upper(y.username)) && y == x.(username := y.username)
  {
    hide Upper;
    var a, b := h(Upper(x.username)), h(Upper(y.username));
    SameFront(I + a + x.salt + x.clientPublic + x.serverPublic, x.key, I + b + y.salt + y.clientPublic + y.serverPublic, y.key);
    SameFront(I + a + x.salt + x.clientPublic, x.serverPublic, I + b + y.salt + y.clientPublic, y.serverPublic);
    SameFront(I + a + x.salt, x.clientPublic, I + b + y.salt, y.clientPublic);
    SameFront(I + a, x.salt, I + b, y.salt);
    SameFront(I, a, I, b);
  }

  /** One proof belongs to one name up to case, one salt, one pair of public keys and one session key. */
  lemma ClientProofBinds(h: Hash, x: Said, y: Said)
    requires Proof(h, x) == Proof(h, y)
    ensures (SameSpelling(x.username, y.username) && y == x.(username := y.username)) || Collides(h, ProofInputs(h, x, y))
  {
    hide Upper, SameSpelling, Collides;
    var xs := ProofInputs(h, x, y);
    SameInput(h, xs, 1);
    if !Collides(h, xs) {
      MessageParts(h, x, y);
      SameInput(h, xs, 0);
      UpperIff(x.username, y.username);
    }
  }

  /** The server's answer belongs to one client key, one proof and one session key. */
  lemma ServerProofBinds(h: Hash, A: Field, m1: Digest, key: Key, A': Field, m1': Digest, key': Key)
    requires ServerProofFromKey(h, A, m1, key) == ServerProofFromKey(h, A', m1', key')
    ensures (A == A' && m1 == m1' && key == key') || Collides(h, [(A + m1 + key, A' + m1' + key')])
  {
    hide Collides;
    var xs := [(A + m1 + key, A' + m1' + key')];
    SameInput(h, xs, 0);
    if !Collides(h, xs) {
      SameFront(A + m1, key, A' + m1', key');
      SameFront(A, m1, A', m1');
    }
  }

  /**
   Main result, against any client: a proof made from what it `said`, with the session key of its `secret`, is
   accepted only if it said the server's own salt, keys and name up to case and reached the server's own secret,
   or shows a collision.
   */
  lemma AcceptedMeansSameSecret(h: Hash, said: Said, secret: Field, username: seq<byte>, salt: Field, v: Field, b: Field, A: Field, B: Field)
    requires said.key == SessionKey(h, secret) && ServerVerify(h, username, salt, v, b, A, B, Proof(h, said)).Some?
    ensures
      var own := FieldOf(ServerSecret(h, v, b, A, B));
      || (&& SameSpelling(username, said.username) && secret == own
          && said.salt == salt && said.clientPublic == A && said.serverPublic == B)
      || Collides(h, ProofInputs(h, Said(username, salt, A, B, SessionKey(h, own)), said))
      || Collides(h, SecretInputs(own, secret))
  {
    hide Collides, SessionKey, ServerSecret, FieldOf, ClientProofFromKey, SameSpelling, FromLe;
    var own := FieldOf(ServerSecret(h, v, b, A, B));
    var x := Said(username, salt, A, B, SessionKey(h, own));
    ClientProofBinds(h, x, said);
    if !Collides(h, ProofInputs(h, x, said)) { SessionKeyBinds(h, own, secret); }
  }

  // ---- Refusals ----

  /** The client goes on unless `B` is a multiple of `N`. */
  lemma ClientAbortsIff(h: Hash, username: seq<byte>, password: seq<byte>, salt: Field, a: Field, B: Field)
    ensures ClientProof(h, username, password, salt, a, B).None? <==> FromLe(B) % N == 0
  {
  }

  /** The server accepts the one proof its own key makes, and none at all when `A` is a multiple of `N`. */
  lemma ServerAcceptsIff(h: Hash, username: seq<byte>, salt: Field, v: Field, b: Field, A: Field, B: Field, m1: Digest)
    ensures
      var key := SessionKey(h, FieldOf(ServerSecret(h, v, b, A, B)));
      ServerVerify(h, username, salt, v, b, A, B, m1).Some? <==>
        FromLe(A) % N != 0 && m1 == Proof(h, Said(username, salt, A, B, key))
  {
    hide ClientProofFromKey, ServerSecret, SessionKey, FieldOf, FromLe;
  }

  /** Why it must not: the secret would be 0, whatever the verifier, and so known to whoever sent such an `A`. */
  lemma ZeroKeyMeansZeroSecret(h: Hash, v: Field, b: Field, A: Field, B: Field)
    requires FromLe(A) % N == 0
    ensures ServerSecret(h, v, b, A, B) == 0
  {
    hide Scrambler, Exponent, FromLe;
    var w := PowMod(FromLe(v), Scrambler(h, B), N);
    assert 0 * w % N == 0;
    ZeroToThe(Exponent(b));
  }

  lemma ZeroToThe(e: nat)
    requires e >= 1
    ensures Pow(0, e) == 0
  {
  }

  // ---- The random values ----

  /** An exponent is its random value, unless that is 0 or not below `N`; it is never 0. */
  lemma ExponentIff(random: Field)
    ensures Exponent(random) == FromLe(random) <==> 1 <= FromLe(random) < N
    ensures FromLe(random) % N != 0 ==> Exponent(random) % N == FromLe(random) % N
  {
  }

  /** The scrambler's big-endian bytes are the first four of the hash of `B`. */
  lemma ScramblerIsFirstFour(h: Hash, B: Field)
    ensures Be32(Scrambler(h, B)) == h(B)[..4]
  {
    hide ReadBe32, Be32;
    var bs := h(B)[..4];
    var turned := [bs[3], bs[2], bs[1], bs[0]];
    TurnedBytes(bs, turned);
    Write32(turned);
  }

  lemma TurnedBytes(bs: seq<byte>, turned: seq<byte>)
    requires |bs| == 4 && turned == [bs[3], bs[2], bs[1], bs[0]]
    ensures ReadBe32(bs) == ReadLe32(turned)
    ensures forall v: u32 :: Le32(v) == turned <==> Be32(v) == bs
  {
  }
}
