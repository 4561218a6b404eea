/** The SRP-6a computations of srp.c: the server's, and those of the client that the file keeps
    under `#if 0`. The hash and the group are parameters. */
module Srp {
  import opened Bytes
  import opened ModArith
  import opened Options
  import opened Seqs

  datatype Suite = Suite(N: nat, g: nat, hash: seq<byte> -> seq<byte>, rfc5054: bool)

  predicate GroupOk(suite: Suite) {
    suite.N > 0
  }

  // ---- The key agreement ----

  /** `v = g^x`. */
  function VerifierOf(suite: Suite, x: nat): nat
    requires GroupOk(suite)
  {
    ModExp(suite.g, x, suite.N)
  }

  /** `A = g^a`. */
  function ClientPublic(suite: Suite, a: nat): nat
    requires GroupOk(suite)
  {
    ModExp(suite.g, a, suite.N)
  }

  /** `B = kv + g^b`, reduced in the compatible variant only. */
  function ServerPublic(suite: Suite, k: nat, v: nat, b: nat): nat
    requires GroupOk(suite)
  {
    if suite.rfc5054 then (k * v % suite.N + ModExp(suite.g, b, suite.N)) % suite.N
    else k * v + ModExp(suite.g, b, suite.N)
  }

  /** `S = (A * v^u) ^ b`. */
  function ServerSecret(suite: Suite, A: nat, v: nat, u: nat, b: nat): nat
    requires GroupOk(suite)
  {
    ModExp(A * ModExp(v, u, suite.N), b, suite.N)
  }

  /** `S = (B - k*g^x) ^ (a + ux)`, where the base may be negative. */
  function ClientSecret(suite: Suite, B: nat, k: nat, x: nat, a: nat, u: nat): nat
    requires GroupOk(suite)
  {
    ModExp(B - k * ModExp(suite.g, x, suite.N), a + u * x, suite.N)
  }

  lemma ServerSecretIsPower(suite: Suite, a: nat, x: nat, u: nat, b: nat)
    requires GroupOk(suite)
    ensures ServerSecret(suite, ClientPublic(suite, a), VerifierOf(suite, x), u, b)
         == ModExp(suite.g, (a + u * x) * b, suite.N)
  {
    var N, g, A, v := suite.N, suite.g, ClientPublic(suite, a), VerifierOf(suite, x);
    ModExpIsCongruent(g, a, N);
    ModExpIsCongruent(g, x, N);
    ModExpIsCongruent(v, u, N);
    PowerOfCongruent(v, Pow(g, x), u, N);
    ProductOfCongruent(A, Pow(g, a), ModExp(v, u, N), Pow(Pow(g, x), u), N);
    PowOfPow(g, x, u);
    assert x * u == u * x;
    PowSum(g, a, u * x);
    PowerOfCongruent(A * ModExp(v, u, N), Pow(g, a + u * x), b, N);
    PowOfPow(g, a + u * x, b);
  }

  lemma ClientBaseIsPower(suite: Suite, k: nat, x: nat, b: nat)
    requires GroupOk(suite)
    ensures Congruent(ServerPublic(suite, k, VerifierOf(suite, x), b) - k * ModExp(suite.g, x, suite.N), Pow(suite.g, b), suite.N)
  {
    var N, v, y := suite.N, VerifierOf(suite, x), ModExp(suite.g, b, suite.N);
    ModExpIsCongruent(suite.g, b, N);
    if suite.rfc5054 {
      ReducedIsCongruent(k * v, N);
      SumOfCongruent(k * v % N, k * v, y, y, N);
      ReducedIsCongruent(k * v % N + y, N);
    }
    SumOfCongruent(ServerPublic(suite, k, v, b), k * v + y, k * v, k * v, N);
  }

  lemma ClientSecretIsPower(suite: Suite, k: nat, x: nat, b: nat, a: nat, u: nat)
    requires GroupOk(suite)
    ensures ClientSecret(suite, ServerPublic(suite, k, VerifierOf(suite, x), b), k, x, a, u)
         == ModExp(suite.g, (a + u * x) * b, suite.N)
  {
    var N, g, e := suite.N, suite.g, a + u * x;
    ClientBaseIsPower(suite, k, x, b);
    PowerOfCongruent(ServerPublic(suite, k, VerifierOf(suite, x), b) - k * ModExp(g, x, N), Pow(g, b), e, N);
    PowOfPow(g, b, e);
    assert b * e == e * b;
  }

  /** The two sides compute the same secret, by different formulas. */
  lemma SecretsAgree(suite: Suite, a: nat, b: nat, x: nat, u: nat, k: nat)
    requires GroupOk(suite)
    ensures ServerSecret(suite, ClientPublic(suite, a), VerifierOf(suite, x), u, b)
         == ClientSecret(suite, ServerPublic(suite, k, VerifierOf(suite, x), b), k, x, a, u)
  {
    ServerSecretIsPower(suite, a, x, u, b);
    ClientSecretIsPower(suite, k, x, b, a, u);
  }

  // ---- Numbers as bytes, and the hashes ----

  /** `BN_num_bytes`. */
  function NumBytes(n: nat): (k: nat)
    ensures n < Pow256(k)
    ensures k > 0 ==> Pow256(k - 1) <= n
  {
    if n == 0 then 0 else 1 + NumBytes(n / 256)
  }

  lemma {:induction false} NumBytesMonotone(m: nat, n: nat)
    requires m <= n
    ensures NumBytes(m) <= NumBytes(n)
  {
    if m > 0 {
      NumBytesMonotone(m / 256, n / 256);
    }
  }

  /** `BN_bn2bin`. */
  function Bin(n: nat): (s: seq<byte>)
    ensures |s| == NumBytes(n)
  {
    ToBE(n, NumBytes(n))
  }

  /** `BN_bin2bn` undoes it. */
  lemma BinRoundTrip(n: nat)
    ensures FromBE(Bin(n)) == n
  {
    FromToBE(n, NumBytes(n));
  }

  /** `H_nn_rfc5054` with left padding to the length of N, or `H_nn_orig` without. The first gives
      nothing when a number is longer than N. */
  function HashPair(suite: Suite, n1: nat, n2: nat): Option<nat> {
    if suite.rfc5054 then
      var len := NumBytes(suite.N);
      if NumBytes(n1) > len || NumBytes(n2) > len then None
      else Some(FromBE(suite.hash(seq(len - NumBytes(n1), _ => 0) + Bin(n1) + seq(len - NumBytes(n2), _ => 0) + Bin(n2))))
    else Some(FromBE(suite.hash(Bin(n1) + Bin(n2))))
  }

  /** The multiplier `k`. */
  function Multiplier(suite: Suite): Option<nat> {
    if suite.rfc5054 then HashPair(suite, suite.N, suite.g) else Some(FromBE(suite.hash(Bin(suite.N) + Bin(suite.g))))
  }

  const COLON: seq<byte> := [58]

  /** `calculate_x`. */
  function PrivateX(suite: Suite, salt: nat, user: seq<byte>, password: seq<byte>): nat {
    FromBE(suite.hash(Bin(salt) + suite.hash(user + COLON + password)))
  }

  /** Apple's session key: two hashes of the secret behind a counter. */
  function SessionKey(suite: Suite, S: nat): seq<byte> {
    suite.hash(Bin(S) + [0, 0, 0, 0]) + suite.hash(Bin(S) + [0, 0, 0, 1])
  }

  function XorAll(a: seq<byte>, b: seq<byte>): seq<byte> {
    seq(if |a| <= |b| then |a| else |b|, i requires 0 <= i < |a| && i < |b| => Xor(a[i], b[i]))
  }

  /** `calculate_M`. */
  function ProofM(suite: Suite, user: seq<byte>, salt: nat, A: nat, B: nat, key: seq<byte>): seq<byte> {
    suite.hash(XorAll(suite.hash(Bin(suite.N)), suite.hash(Bin(suite.g))) + suite.hash(user)
               + Bin(salt) + Bin(A) + Bin(B) + key)
  }

  /** `calculate_H_AMK`. */
  function ProofHAMK(suite: Suite, A: nat, M: seq<byte>, key: seq<byte>): seq<byte> {
    suite.hash(Bin(A) + M + key)
  }

  /** What either side holds at the end: the proof it shows or expects, the answer, and the key. */
  datatype Proofs = Proofs(M: seq<byte>, HAMK: seq<byte>, key: seq<byte>)

  function ProofsOf(suite: Suite, user: seq<byte>, salt: nat, A: nat, B: nat, S: nat): Proofs {
    var key := SessionKey(suite, S);
    var M := ProofM(suite, user, salt, A, B, key);
    Proofs(M, ProofHAMK(suite, A, M, key), key)
  }

  /** `srp_verifier_new`: nothing if A is zero modulo N, or a hash input is too long. */
  function ServerProofs(suite: Suite, user: seq<byte>, salt: nat, v: nat, A: nat, b: nat): Option<(nat, Proofs)>
    requires GroupOk(suite)
  {
    if A % suite.N == 0 then None
    else match Multiplier(suite)
      case None => None
      case Some(k) =>
        var B := ServerPublic(suite, k, v, b);
        match HashPair(suite, A, B)
        case None => None
        case Some(u) => Some((B, ProofsOf(suite, user, salt, A, B, ServerSecret(suite, A, v, u, b))))
  }

  /** `srp_user_process_challenge`: nothing if B or u is zero. */
  function ClientProofs(suite: Suite, user: seq<byte>, password: seq<byte>, salt: nat, a: nat, B: nat): Option<Proofs>
    requires GroupOk(suite)
  {
    var A := ClientPublic(suite, a);
    match (HashPair(suite, A, B), Multiplier(suite))
    case (Some(u), Some(k)) =>
      var x := PrivateX(suite, salt, user, password);
      if B == 0 || u == 0 then None
      else Some(ProofsOf(suite, user, salt, A, B, ClientSecret(suite, B, k, x, a, u)))
    case _ => None
  }

  /** The hash inputs that pass between the two sides always fit, and A is not zero modulo N. */
  lemma InputsFit(suite: Suite, a: nat, v: nat, b: nat)
    requires GroupOk(suite) && (suite.rfc5054 ==> suite.g < suite.N) && ClientPublic(suite, a) != 0
    ensures Multiplier(suite).Some? && ClientPublic(suite, a) % suite.N != 0
    ensures HashPair(suite, ClientPublic(suite, a), ServerPublic(suite, Multiplier(suite).value, v, b)).Some?
  {
    hide HashPair, ServerPublic, ClientPublic, NumBytes;
    PairFits(suite, suite.N, suite.g);
    PublicKeysAreReduced(suite, a, Multiplier(suite).value, v, b);
    PairFits(suite, ClientPublic(suite, a), ServerPublic(suite, Multiplier(suite).value, v, b));
    SmallIsReduced(ClientPublic(suite, a), suite.N);
  }

  lemma PairFits(suite: Suite, n1: nat, n2: nat)
    requires suite.rfc5054 ==> n1 <= suite.N && n2 <= suite.N
    ensures HashPair(suite, n1, n2).Some?
  {
    if suite.rfc5054 {
      NumBytesMonotone(n1, suite.N);
      NumBytesMonotone(n2, suite.N);
    }
  }

  lemma PublicKeysAreReduced(suite: Suite, a: nat, k: nat, v: nat, b: nat)
    requires GroupOk(suite)
    ensures ClientPublic(suite, a) < suite.N && (suite.rfc5054 ==> ServerPublic(suite, k, v, b) < suite.N)
  {
    hide ModExp;
  }

  lemma SmallIsReduced(n: nat, m: nat)
    requires n < m
    ensures n % m == n
  {
  }

  /** With the right password the server has proofs, and the client has the same ones exactly if
      neither B nor u is zero, and none otherwise. */
  lemma ProofsAgree(suite: Suite, user: seq<byte>, password: seq<byte>, salt: nat, a: nat, b: nat)
    returns (B: nat, proofs: Proofs)
    requires GroupOk(suite) && (suite.rfc5054 ==> suite.g < suite.N) && ClientPublic(suite, a) != 0
    ensures ServerProofs(suite, user, salt, VerifierOf(suite, PrivateX(suite, salt, user, password)), ClientPublic(suite, a), b)
         == Some((B, proofs))
    ensures ClientProofs(suite, user, password, salt, a, B)
         == if B != 0 && HashPair(suite, ClientPublic(suite, a), B) != Some(0) then Some(proofs) else None
  {
    var x, A := PrivateX(suite, salt, user, password), ClientPublic(suite, a);
    var v := VerifierOf(suite, x);
    InputsFit(suite, a, v, b);
    hide ProofsOf, HashPair, Multiplier, PrivateX, VerifierOf, ClientPublic, ServerPublic, ServerSecret, ClientSecret;
    var k := Multiplier(suite).value;
    B := ServerPublic(suite, k, v, b);
    var u := HashPair(suite, A, B).value;
    SecretsAgree(suite, a, b, x, u, k);
    proofs := ProofsOf(suite, user, salt, A, B, ServerSecret(suite, A, v, u, b));
  }

  // ---- What the hashes are taken of ----

  /** Two numbers, each padded on the left to the length of N (section 2.6 of RFC 5054). */
  ghost predicate Pads(suite: Suite, s: seq<byte>, n1: nat, n2: nat) {
    var len := NumBytes(suite.N);
    |s| == 2 * len && FromBE(s[..len]) == n1 && FromBE(s[len..]) == n2
  }

  lemma {:induction false} LeadingZeros(k: nat, s: seq<byte>)
    ensures FromBE(seq(k, _ => 0) + s) == FromBE(s)
    decreases k
  {
    FromBEHalves(seq(k, _ => 0), s);
    Zeros(k);
  }

  lemma {:induction false} Zeros(k: nat)
    ensures FromBE(seq(k, _ => 0)) == 0
  {
    if k > 0 {
      Zeros(k - 1);
      assert seq(k, _ => 0)[..k - 1] == seq(k - 1, _ => 0);
    }
  }

  /** The compatible hash is taken of the two padded numbers, and of nothing else. */
  lemma HashPairReads(suite: Suite, n1: nat, n2: nat) returns (s: seq<byte>)
    requires suite.rfc5054 && HashPair(suite, n1, n2).Some?
    ensures Pads(suite, s, n1, n2) && HashPair(suite, n1, n2) == Some(FromBE(suite.hash(s)))
  {
    hide NumBytes, Bin, FromBE;
    var len := NumBytes(suite.N);
    var a := PaddedNumber(len, n1);
    var b := PaddedNumber(len, n2);
    s := a + b;
    Associate(a, seq(len - NumBytes(n2), _ => 0), Bin(n2));
    TwoParts(a, b);
  }

  lemma PaddedNumber(len: nat, n: nat) returns (a: seq<byte>)
    requires NumBytes(n) <= len
    ensures a == seq(len - NumBytes(n), _ => 0) + Bin(n) && |a| == len && FromBE(a) == n
  {
    a := seq(len - NumBytes(n), _ => 0) + Bin(n);
    LeadingZeros(len - NumBytes(n), Bin(n));
    BinRoundTrip(n);
  }

  /** So under a hash without collisions on inputs of that length, it tells any two pairs apart. */
  lemma HashPairTellsApart(suite: Suite, n1: nat, n2: nat, m1: nat, m2: nat)
    requires suite.rfc5054 && HashPair(suite, n1, n2).Some? && HashPair(suite, m1, m2) == HashPair(suite, n1, n2)
    requires forall s, t :: |s| == |t| == 2 * NumBytes(suite.N) && FromBE(suite.hash(s)) == FromBE(suite.hash(t)) ==> s == t
    ensures n1 == m1 && n2 == m2
  {
    var s := HashPairReads(suite, n1, n2);
    var t := HashPairReads(suite, m1, m2);
    assert s == t;
  }

  /** The original hash, without padding, does not tell these apart under any hash. */
  lemma OriginalHashMixesUp(suite: Suite)
    requires !suite.rfc5054
    ensures HashPair(suite, 0x01, 0x0203) == HashPair(suite, 0x0102, 0x03)
  {
    assert Bin(0x01) == [1] && Bin(0x03) == [3];
    assert Bin(0x0203) == [2, 3] && Bin(0x0102) == [1, 2] by {
      assert ToBE(2, 1) == [2] && ToBE(1, 1) == [1] && NumBytes(2) == 1 && NumBytes(1) == 1;
    }
    assert Bin(0x01) + Bin(0x0203) == [1, 2, 3] == Bin(0x0102) + Bin(0x03);
  }

  /** `B` in one formula: k v + g^b modulo N, with k the hash of the padded N and g. */
  lemma ServerPublicReads(suite: Suite, v: nat, b: nat) returns (s: seq<byte>)
    requires GroupOk(suite) && suite.rfc5054 && Multiplier(suite).Some?
    ensures Pads(suite, s, suite.N, suite.g)
    ensures ServerPublic(suite, Multiplier(suite).value, v, b) == (FromBE(suite.hash(s)) * v + Pow(suite.g, b)) % suite.N
  {
    s := HashPairReads(suite, suite.N, suite.g);
    hide Pads, Pow, HashPair;
    var k := Multiplier(suite).value;
    ReducedIsCongruent(k * v, suite.N);
    ModExpIsCongruent(suite.g, b, suite.N);
    SumOfCongruent(k * v % suite.N, k * v, ModExp(suite.g, b, suite.N), Pow(suite.g, b), suite.N);
  }

  /** The secret in one formula: (A v^u)^b modulo N. */
  lemma ServerSecretReads(suite: Suite, A: nat, v: nat, u: nat, b: nat)
    requires GroupOk(suite)
    ensures ServerSecret(suite, A, v, u, b) == Pow(A * Pow(v, u), b) % suite.N
  {
    ModExpIsCongruent(v, u, suite.N);
    ProductOfCongruent(A, A, ModExp(v, u, suite.N), Pow(v, u), suite.N);
    PowerOfCongruent(A * ModExp(v, u, suite.N), A * Pow(v, u), b, suite.N);
    hide Pow;
  }

  /** What the server ends up with: `u` is the hash of the padded A and B. */
  lemma ServerProofsRead(suite: Suite, user: seq<byte>, salt: nat, v: nat, A: nat, b: nat) returns (s: seq<byte>)
    requires GroupOk(suite) && suite.rfc5054 && ServerProofs(suite, user, salt, v, A, b).Some?
    ensures var (B, proofs) := ServerProofs(suite, user, salt, v, A, b).value;
      && Pads(suite, s, A, B)
      && proofs == ProofsOf(suite, user, salt, A, B, Pow(A * Pow(v, FromBE(suite.hash(s))), b) % suite.N)
  {
    var (B, proofs) := ServerProofs(suite, user, salt, v, A, b).value;
    s := HashPairReads(suite, A, B);
    ServerSecretReads(suite, A, v, FromBE(suite.hash(s)), b);
    hide Pads, Pow, HashPair, ProofsOf, ServerSecret, ServerPublic;
  }

  /** The session key is two hashes, of the secret followed by the counters 0 and 1. */
  lemma SessionKeyReads(suite: Suite, S: nat) returns (s0: seq<byte>, s1: seq<byte>)
    ensures SessionKey(suite, S) == suite.hash(s0) + suite.hash(s1)
    ensures |s0| == |s1| == NumBytes(S) + 4
    ensures FromBE(s0[..NumBytes(S)]) == S && FromBE(s0[NumBytes(S)..]) == 0
    ensures FromBE(s1[..NumBytes(S)]) == S && FromBE(s1[NumBytes(S)..]) == 1
  {
    s0, s1 := Bin(S) + [0, 0, 0, 0], Bin(S) + [0, 0, 0, 1];
    BinRoundTrip(S);
    TwoParts(Bin(S), [0, 0, 0, 0]);
    TwoParts(Bin(S), [0, 0, 0, 1]);
    assert FromBE([0, 0, 0]) == 0 && [0, 0, 0, 1][..3] == [0, 0, 0] == [0, 0, 0, 0][..3];
  }

  /** `x` is the hash of the salt and of the hash of name, colon and password. */
  lemma PrivateXReads(suite: Suite, salt: nat, user: seq<byte>, password: seq<byte>) returns (s: seq<byte>, t: seq<byte>)
    ensures PrivateX(suite, salt, user, password) == FromBE(suite.hash(s))
    ensures |s| >= NumBytes(salt) && FromBE(s[..NumBytes(salt)]) == salt && s[NumBytes(salt)..] == suite.hash(t)
    ensures |t| == |user| + 1 + |password| && t[..|user|] == user && t[|user|] == 58 && t[|user| + 1..] == password
  {
    t := user + COLON + password;
    s := Bin(salt) + suite.hash(t);
    BinRoundTrip(salt);
    TwoParts(Bin(salt), suite.hash(t));
    Middle(user, COLON, password);
  }

  /** The client's proof is the hash of H(N) exclusive-or H(g), H(user), salt, A, B and the key, in this
      order (section 3 of RFC 2945). */
  lemma ProofReads(suite: Suite, user: seq<byte>, salt: nat, A: nat, B: nat, key: seq<byte>, n: nat)
    returns (s: seq<byte>, a: nat, b: nat, c: nat)
    requires forall t :: |suite.hash(t)| == n
    ensures ProofM(suite, user, salt, A, B, key) == suite.hash(s)
    ensures a == 2 * n + NumBytes(salt) && b == a + NumBytes(A) && c == b + NumBytes(B) && c <= |s|
    ensures forall j :: 0 <= j < n ==> DifferingBits(s[j], suite.hash(Bin(suite.N))[j], suite.hash(Bin(suite.g))[j])
    ensures s[n..2 * n] == suite.hash(user) && FromBE(s[2 * n..a]) == salt
    ensures FromBE(s[a..b]) == A && FromBE(s[b..c]) == B && s[c..] == key
  {
    hide Bin, XorAll, FromBE, DifferingBits, NumBytes;
    var hN, hg, hI := suite.hash(Bin(suite.N)), suite.hash(Bin(suite.g)), suite.hash(user);
    var x := XorAll(hN, hg);
    XorAllBits(hN, hg);
    a, b, c := 2 * n + NumBytes(salt), 2 * n + NumBytes(salt) + NumBytes(A), 2 * n + NumBytes(salt) + NumBytes(A) + NumBytes(B);
    s := x + hI + Bin(salt) + Bin(A) + Bin(B) + key;
    BinRoundTrip(salt);
    BinRoundTrip(A);
    BinRoundTrip(B);
    SixParts(x, hI, Bin(salt), Bin(A), Bin(B), key);
  }

  lemma XorAllBits(a: seq<byte>, b: seq<byte>)
    requires |a| == |b|
    ensures |XorAll(a, b)| == |a| && forall j :: 0 <= j < |a| ==> DifferingBits(XorAll(a, b)[j], a[j], b[j])
  {
    forall j | 0 <= j < |a| ensures DifferingBits(XorAll(a, b)[j], a[j], b[j]) {
      XorAt(a[j], b[j]);
    }
  }

  lemma SixParts<T>(p: seq<T>, q: seq<T>, r: seq<T>, u: seq<T>, v: seq<T>, w: seq<T>)
    ensures var s := p + q + r + u + v + w;
      var i := |p|; var j := i + |q|; var k := j + |r|; var l := k + |u|; var m := l + |v|;
      && s[..i] == p && s[i..j] == q && s[j..k] == r && s[k..l] == u && s[l..m] == v && s[m..] == w
  {
  }

  /** And the server's answer that of A, the proof and the key. */
  lemma AnswerReads(suite: Suite, A: nat, M: seq<byte>, key: seq<byte>) returns (s: seq<byte>)
    ensures ProofHAMK(suite, A, M, key) == suite.hash(s) && |s| == NumBytes(A) + |M| + |key|
    ensures FromBE(s[..NumBytes(A)]) == A && s[NumBytes(A)..NumBytes(A) + |M|] == M && s[NumBytes(A) + |M|..] == key
  {
    s := Bin(A) + M + key;
    BinRoundTrip(A);
    Middle(Bin(A), M, key);
  }
}
