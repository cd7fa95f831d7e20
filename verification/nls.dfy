/**
 The WarCraft III logon (`nls.rs`): SRP with Blizzard's constants, on both sides.

 SHA-1 is a parameter everywhere: any function from bytes to twenty bytes.
 */
module Nls {
  import opened Bytes
  import opened Modular

  const FIELD_LEN := 32
  const KEY_LEN := 40
  const PROOF_LEN := 20

  type Field = s: seq<byte> | |s| == FIELD_LEN witness Zeros(FIELD_LEN)
  type Key = s: seq<byte> | |s| == KEY_LEN witness Zeros(KEY_LEN)
  type Digest = s: seq<byte> | |s| == PROOF_LEN witness Zeros(PROOF_LEN)
  type Hash = seq<byte> -> Digest

  const G: nat := 47

  const N: nat := 0xF8FF1A8B619918032186B68CA092B5557E976C78C73212D91216F6658523C787

  /** `47 * G_INVERSE == 29 * N + 1`. */
  const G_INVERSE: nat := 0x99A2D9E910A54548BD8996C3B4C775556ECA5E29D780F06541A13B6FA94C8B74

  const I: Digest := [
    0x6C, 0x0E, 0x97, 0xED, 0x0A, 0xF9, 0x6B, 0xAB, 0xB1, 0x58, 0x89, 0xEB, 0x8B, 0xBA, 0x25,
    0xA4, 0xF0, 0x8C, 0x01, 0xF8]

  function UpperByte(b: byte): byte {
    if 97 <= b <= 122 then b - 32 else b
  }

  function Upper(s: seq<byte>): seq<byte> {
    seq(|s|, i requires 0 <= i < |s| => UpperByte(s[i]))
  }

  lemma UpperIff(s: seq<byte>, t: seq<byte>)
    ensures Upper(s) == Upper(t) <==> SameSpelling(s, t)
  {
    if Upper(s) == Upper(t) {
      assert |Upper(s)| == |s| && |Upper(t)| == |t|;
      forall i | 0 <= i < |s| ensures s[i] == t[i] || IsCasePair(s[i], t[i]) {
        assert Upper(s)[i] == UpperByte(s[i]) && Upper(t)[i] == UpperByte(t[i]);
      }
    }
  }

  // ---- Fields ----

  /** The shortest little-endian form, with one byte for zero: what a big integer hands out. */
  function ToBytesLe(v: nat): (bs: seq<byte>)
    ensures |bs| > 0
  {
    if v < 256 then [v] else [v % 256] + ToBytesLe(v / 256)
  }

  lemma {:induction false} PaddedBytes(v: nat, width: nat, i: nat)
    requires i < width
    ensures ToLe(v, width)[i] == if i < |ToBytesLe(v)| then ToBytesLe(v)[i] else 0
    decreases width
  {
    if i > 0 {
      PaddedBytes(v / 256, width - 1, i - 1);
    }
  }

  /** The low 32 bytes of any value, zero padded. */
  method ToLe32(v: nat) returns (out: array<byte>)
    ensures fresh(out) && out[..] == ToLe(v, FIELD_LEN)
  {
    var bytes := ToBytesLe(v);
    out := new byte[FIELD_LEN](_ => 0);
    var n := Min(|bytes|, FIELD_LEN);
    for i := 0 to n
      invariant forall k | 0 <= k < FIELD_LEN :: out[k] == if k < i then bytes[k] else 0
    {
      out[i] := bytes[i];
    }
    forall k: nat | k < FIELD_LEN
      ensures out[k] == ToLe(v, FIELD_LEN)[k]
    {
      PaddedBytes(v, FIELD_LEN, k);
    }
  }

  function FieldOf(v: nat): Field {
    ToLe(v, FIELD_LEN)
  }

  /** 2^256 */
  const FIELD_SIZE: nat := 0x1_0000_0000_0000_0000_0000_0000_0000_0000_0000_0000_0000_0000_0000_0000_0000_0000

  lemma FieldSize()
    ensures Pow(256, FIELD_LEN) == FIELD_SIZE
  {
    PowSum(256, 16, 16);
    PowSum(256, 8, 8);
    PowSum(256, 4, 4);
    PowSum(256, 2, 2);
    assert Pow(256, 2) == 0x1_0000;
  }

  /** A value survives its 32 bytes exactly when it is below 2^256. */
  lemma FieldRoundTrip(v: nat)
    ensures FromLe(FieldOf(v)) == v <==> v < FIELD_SIZE
  {
    hide FromLe, ToLe, Pow;
    FieldSize();
    FromLeBound(FieldOf(v));
    if v < FIELD_SIZE { FromLeToLe(v, FIELD_LEN); }
  }

  // ---- Keys and proofs ----

  function PrivateKey(h: Hash, username: seq<byte>, password: seq<byte>, salt: Field): nat {
    FromLe(h(salt + h(Upper(username) + [58] + Upper(password))))
  }

  function Verifier(h: Hash, username: seq<byte>, password: seq<byte>, salt: Field): Field {
    FieldOf(PowMod(G, PrivateKey(h, username, password, salt), N))
  }

  function Exponent(random: Field): (e: nat)
    ensures 1 <= e < N
  {
    var e := FromLe(random) % N;
    if e == 0 then 1 else e
  }

  function ClientPublic(a: Field): Field {
    FieldOf(PowMod(G, Exponent(a), N))
  }

  function ServerPublic(verifier: Field, b: Field): Field {
    FieldOf(Challenge(G, N, FromLe(verifier), Exponent(b)))
  }

  function Scrambler(h: Hash, serverPublic: Field): u32 {
    ReadBe32(h(serverPublic)[..4])
  }

  function EveryOther(s: seq<byte>, from: nat): (r: seq<byte>)
    requires from <= 1 && |s| % 2 == 0
    ensures |r| == |s| / 2
  {
    seq(|s| / 2, i requires 0 <= i < |s| / 2 => s[2 * i + from])
  }

  function SessionKey(h: Hash, secret: Field): Key {
    var even, odd := h(EveryOther(secret, 0)), h(EveryOther(secret, 1));
    seq(KEY_LEN, i requires 0 <= i < KEY_LEN => if i % 2 == 0 then even[i / 2] else odd[i / 2])
  }

  /** The key taken apart again is the two digests, of the secret taken apart. */
  lemma SessionKeyInterleaves(h: Hash, secret: Field)
    ensures EveryOther(SessionKey(h, secret), 0) == h(EveryOther(secret, 0))
    ensures EveryOther(SessionKey(h, secret), 1) == h(EveryOther(secret, 1))
  {
    hide SessionKey, EveryOther;
    var k, even, odd := SessionKey(h, secret), h(EveryOther(secret, 0)), h(EveryOther(secret, 1));
    forall i | 0 <= i < PROOF_LEN ensures EveryOther(k, 0)[i] == even[i] && EveryOther(k, 1)[i] == odd[i] {
      KeyAt(h, secret, i);
      OtherAt(k, i);
    }
    assert EveryOther(k, 0) == even && EveryOther(k, 1) == odd;
  }

  lemma KeyAt(h: Hash, secret: Field, i: nat)
    requires i < PROOF_LEN
    ensures SessionKey(h, secret)[2 * i] == h(EveryOther(secret, 0))[i]
    ensures SessionKey(h, secret)[2 * i + 1] == h(EveryOther(secret, 1))[i]
  {
    hide EveryOther;
    assert (2 * i) % 2 == 0 && (2 * i) / 2 == i;
    assert (2 * i + 1) % 2 == 1 && (2 * i + 1) / 2 == i;
  }

  lemma OtherAt(k: Key, i: nat)
    requires i < PROOF_LEN
    ensures EveryOther(k, 0)[i] == k[2 * i] && EveryOther(k, 1)[i] == k[2 * i + 1]
  {
  }

  method ComputeSessionKey(h: Hash, secret: Field) returns (k: array<byte>)
    ensures fresh(k) && k[..] == SessionKey(h, secret)
  {
    var evenIn, oddIn := new byte[16](_ => 0), new byte[16](_ => 0);
    for i := 0 to 16
      invariant forall j | 0 <= j < i :: evenIn[j] == secret[2 * j] && oddIn[j] == secret[2 * j + 1]
    {
      evenIn[i] := secret[2 * i];
      oddIn[i] := secret[2 * i + 1];
    }
    assert evenIn[..] == EveryOther(secret, 0) && oddIn[..] == EveryOther(secret, 1);
    var even, odd := h(evenIn[..]), h(oddIn[..]);
    k := new byte[KEY_LEN](_ => 0);
    for i := 0 to PROOF_LEN
      invariant forall j | 0 <= j < i :: k[2 * j] == even[j] && k[2 * j + 1] == odd[j]
    {
      k[2 * i] := even[i];
      k[2 * i + 1] := odd[i];
    }
    forall i | 0 <= i < KEY_LEN
      ensures k[i] == SessionKey(h, secret)[i]
    {
      assert i == 2 * (i / 2) + i % 2;
    }
  }

  function ClientProofFromKey(h: Hash, username: seq<byte>, salt: Field, clientPublic: Field, serverPublic: Field, key: Key): Digest {
    h(I + h(Upper(username)) + salt + clientPublic + serverPublic + key)
  }

  function ServerProofFromKey(h: Hash, clientPublic: Field, clientProof: Digest, key: Key): Digest {
    h(clientPublic + clientProof + key)
  }

  /** The client's route to the secret; the subtraction in it never goes below zero. */
  function ClientSecret(h: Hash, username: seq<byte>, password: seq<byte>, salt: Field, a: Field, serverPublic: Field): nat {
    var x := PrivateKey(h, username, password, salt);
    ClientValue(G, N, x, Exponent(a), Scrambler(h, serverPublic), FromLe(serverPublic))
  }

  function ServerSecret(h: Hash, verifier: Field, b: Field, clientPublic: Field, serverPublic: Field): nat {
    ServerValue(N, FromLe(verifier), Exponent(b), Scrambler(h, serverPublic), FromLe(clientPublic))
  }

  function ClientProof(h: Hash, username: seq<byte>, password: seq<byte>, salt: Field, a: Field, serverPublic: Field): Option<(Digest, Key)> {
    if FromLe(serverPublic) % N == 0 then None else
    var key := SessionKey(h, FieldOf(ClientSecret(h, username, password, salt, a, serverPublic)));
    Some((ClientProofFromKey(h, username, salt, ClientPublic(a), serverPublic, key), key))
  }

  function ServerVerify(h: Hash, username: seq<byte>, salt: Field, verifier: Field, b: Field,
                        clientPublic: Field, serverPublic: Field, clientProof: Digest): Option<Digest> {
    if FromLe(clientPublic) % N == 0 then None else
    var key := SessionKey(h, FieldOf(ServerSecret(h, verifier, b, clientPublic, serverPublic)));
    if ClientProofFromKey(h, username, salt, clientPublic, serverPublic, key) == clientProof
    then Some(ServerProofFromKey(h, clientPublic, clientProof, key))
    else None
  }

  // ---- The two sides agree ----

  /** No exponent makes the client's public key one the server must refuse. */
  lemma ClientPublicIsNeverZero(a: Field)
    ensures FromLe(ClientPublic(a)) % N != 0
  {
    hide PowMod, FieldOf, FromLe, Exponent;
    GIsInvertible();
    InvertiblePower(G, G_INVERSE, Exponent(a), N);
    PowModField(Exponent(a));
  }

  lemma GIsInvertible()
    ensures Congruent(G * G_INVERSE, 1, N)
  {
    CongruentBy(G * G_INVERSE, 1, 29, N);
  }

  /** Client and server reach the same secret, whatever the hash and the random values. */
  lemma SecretsAgree(h: Hash, username: seq<byte>, password: seq<byte>, salt: Field, a: Field, b: Field)
    ensures
      var v := Verifier(h, username, password, salt);
      var A, B := ClientPublic(a), ServerPublic(v, b);
      ClientSecret(h, username, password, salt, a, B) == ServerSecret(h, v, b, A, B)
  {
    var x, ea, eb := PrivateKey(h, username, password, salt), Exponent(a), Exponent(b);
    var vField := Verifier(h, username, password, salt);
    PowModField(x);
    PowModField(ea);
    ChallengeField(FromLe(vField), eb);
    SharedSecret(G, N, x, ea, eb, Scrambler(h, ServerPublic(vField, b)));
  }

  lemma PowModField(e: nat)
    ensures FromLe(FieldOf(PowMod(G, e, N))) == PowMod(G, e, N)
    ensures PowMod(G, e, N) != 0 ==> PowMod(G, e, N) % N != 0
  {
    hide Pow, FieldOf, FromLe;
    FieldRoundTrip(PowMod(G, e, N));
  }

  lemma ChallengeField(v: nat, e: nat)
    ensures FromLe(FieldOf(Challenge(G, N, v, e))) == Challenge(G, N, v, e) < N
  {
    FieldRoundTrip(Challenge(G, N, v, e));
  }

  /** The private key does not depend on the case of letters. */
  lemma SpellingIsFolded(h: Hash, u: seq<byte>, p: seq<byte>, u': seq<byte>, p': seq<byte>, salt: Field)
    requires SameSpelling(u, u') && SameSpelling(p, p')
    ensures PrivateKey(h, u, p, salt) == PrivateKey(h, u', p', salt)
  {
    UpperIff(u, u');
    UpperIff(p, p');
  }

  /**
   Main result. With the right name and password, in whatever case its letters are typed, the server accepts the
   client's proof and answers with the proof the client expects from its own key; the one challenge refused is
   a `B` divisible by `N`.
   */
  lemma RightPasswordIsAccepted(h: Hash, username: seq<byte>, password: seq<byte>, typedName: seq<byte>, typedPassword: seq<byte>,
                                knownName: seq<byte>, salt: Field, a: Field, b: Field)
    requires SameSpelling(username, typedName) && SameSpelling(password, typedPassword) && SameSpelling(typedName, knownName)
    ensures
      var v := Verifier(h, username, password, salt);
      var A, B := ClientPublic(a), ServerPublic(v, b);
      match ClientProof(h, typedName, typedPassword, salt, a, B)
      case None => FromLe(B) == 0
      case Some((m1, key)) => ServerVerify(h, knownName, salt, v, b, A, B, m1) == Some(ServerProofFromKey(h, A, m1, key))
  {
    hide Verifier, ClientPublic, ServerPublic, ServerSecret, SessionKey, ServerProofFromKey, FromLe, FieldOf, Upper, SameSpelling,
      PrivateKey, ClientValue;
    var v := Verifier(h, username, password, salt);
    SpellingIsFolded(h, username, password, typedName, typedPassword, salt);
    UpperIff(typedName, knownName);
    SecretsAgree(h, username, password, salt, a, b);
    ClientPublicIsNeverZero(a);
    ServerPublicIsReduced(v, b);
  }

  lemma ServerPublicIsReduced(v: Field, b: Field)
    ensures FromLe(ServerPublic(v, b)) % N == 0 ==> FromLe(ServerPublic(v, b)) == 0
  {
    hide Challenge, FromLe, FieldOf;
    ChallengeField(FromLe(v), Exponent(b));
  }
}
