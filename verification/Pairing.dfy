/** PIN pairing (pairing.c): the two SRP steps of a session, and their completion with an honest
    client. */
module Pairing {
  import opened Bytes
  import opened ModArith
  import opened Options
  import opened Srp

  const USERNAME_SIZE := 24
  const SALT_SIZE := 16
  const VERIFIER_SIZE := 256
  const HASH_LENGTH := 20
  const SESSION_KEY_SIZE := 40

  /** `srp_t`, kept between the two steps. */
  datatype SrpData = SrpData(salt: seq<byte>, verifier: seq<byte>, privateKey: seq<byte>, sessionKey: seq<byte>)

  /** The group of the source is used with the compatible formulas, and the hash is SHA-1. */
  ghost predicate SuiteOk(suite: Suite) {
    GroupOk(suite) && suite.rfc5054 && suite.g < suite.N && forall s :: |suite.hash(s)| == HASH_LENGTH
  }

  lemma MultiplierExists(suite: Suite)
    requires SuiteOk(suite)
    ensures Multiplier(suite).Some?
  {
    NumBytesMonotone(suite.g, suite.N);
  }

  /** The client keys for which a verifier exists: not zero modulo N, and of no more bytes than N, for
      `H_nn_rfc5054` gives nothing otherwise. */
  ghost predicate KeyFits(suite: Suite, A: nat)
    requires SuiteOk(suite)
  {
    A % suite.N != 0 && NumBytes(A) <= NumBytes(suite.N)
  }

  lemma VerifierExistsExactly(suite: Suite, user: seq<byte>, salt: nat, v: nat, A: nat, b: nat)
    requires SuiteOk(suite)
    ensures ServerProofs(suite, user, salt, v, A, b).Some? <==> KeyFits(suite, A)
  {
    MultiplierExists(suite);
    var B := ServerPublic(suite, Multiplier(suite).value, v, b);
    PublicKeysAreReduced(suite, 0, Multiplier(suite).value, v, b);
    NumBytesMonotone(B, suite.N);
    hide ProofsOf, ServerPublic, ServerSecret, Multiplier;
  }

  /** Both ways to fail: a key that N divides, and a longer one that it does not divide. */
  lemma KeysThatDoNotFit(suite: Suite)
    requires SuiteOk(suite) && suite.N == 23
    ensures !KeyFits(suite, 46) && 46 % suite.N == 0
    ensures !KeyFits(suite, 257) && 257 % suite.N != 0
  {
    assert NumBytes(257) == 2 && NumBytes(23) == 1;
  }

  /** How the second step ends: with a return value, or in reading through a null pointer, that of the
      session's data or that of the verifier. */
  datatype StepTwo = Returned(ret: int) | NullSession | NullVerifier

  /** The verifier of a PIN. */
  ghost function PinVerifier(suite: Suite, deviceId: seq<byte>, pin: seq<byte>, salt: nat): nat
    requires SuiteOk(suite)
  {
    VerifierOf(suite, PrivateX(suite, salt, deviceId, pin))
  }

  /** The public key the server sends in the first step. */
  ghost function FirstB(suite: Suite, v: nat, privateKey: seq<byte>): nat
    requires SuiteOk(suite)
  {
    MultiplierExists(suite);
    ServerPublic(suite, Multiplier(suite).value, v, FromBE(privateKey))
  }

  /** `B` is k v + g^b modulo N, with k the hash of N and the padded g. */
  ghost predicate IsPublicKey(suite: Suite, v: nat, b: nat, B: nat)
    requires SuiteOk(suite)
  {
    exists s :: Pads(suite, s, suite.N, suite.g) && B == (FromBE(suite.hash(s)) * v + Pow(suite.g, b)) % suite.N
  }

  lemma FirstBReads(suite: Suite, v: nat, privateKey: seq<byte>)
    requires SuiteOk(suite)
    ensures IsPublicKey(suite, v, FromBE(privateKey), FirstB(suite, v, privateKey))
  {
    hide Multiplier, ServerPublic, Pads, Pow, FromBE;
    MultiplierExists(suite);
    var s := ServerPublicReads(suite, v, FromBE(privateKey));
  }

  /** The device name fits, and neither the salt nor the verifier has leading zero bytes. */
  ghost predicate StepOneOk(suite: Suite, deviceId: seq<byte>, pin: seq<byte>, salt: nat)
    requires SuiteOk(suite)
  {
    |deviceId| <= USERNAME_SIZE && NumBytes(salt) == SALT_SIZE
    && NumBytes(PinVerifier(suite, deviceId, pin, salt)) == VERIFIER_SIZE
  }

  /** The client goes on: it sees neither a zero B nor a zero u. */
  ghost predicate ClientGoesOn(suite: Suite, a: nat, B: nat)
    requires SuiteOk(suite)
  {
    B != 0 && HashPair(suite, ClientPublic(suite, a), B) != Some(0)
  }

  /** `SRPVerifier`, the fields that matter after its creation. */
  class SRPVerifier {
    const proofs: Proofs
    const bytesB: seq<byte>
    var authenticated: bool

    constructor (proofs: Proofs, bytesB: seq<byte>)
      ensures this.proofs == proofs && this.bytesB == bytesB && !authenticated
    {
      this.proofs, this.bytesB, authenticated := proofs, bytesB, false;
    }

    /** `srp_verifier_new`; it fails where the source returns a null pointer. */
    static method New(suite: Suite, user: seq<byte>, salt: seq<byte>, verifier: seq<byte>, bytesA: seq<byte>, bytesb: seq<byte>)
      returns (ver: SRPVerifier?)
      requires SuiteOk(suite)
      ensures match ServerProofs(suite, user, FromBE(salt), FromBE(verifier), FromBE(bytesA), FromBE(bytesb))
        case None => ver == null
        case Some((B, proofs)) => ver != null && fresh(ver) && ver.proofs == proofs && ver.bytesB == Bin(B) && !ver.authenticated
    {
      var s, v, A, b := FromBE(salt), FromBE(verifier), FromBE(bytesA), FromBE(bytesb);
      ver := null;
      if A % suite.N != 0 {
        var k := Multiplier(suite);
        if k.None? {
          return;
        }
        var B := ServerPublic(suite, k.value, v, b);
        var u := HashPair(suite, A, B);
        if u.None? {
          return;
        }
        var S := ServerSecret(suite, A, v, u.value, b);
        var key := SessionKey(suite, S);
        var M := ProofM(suite, user, s, A, B, key);
        ver := new SRPVerifier(Proofs(M, ProofHAMK(suite, A, M, key), key), Bin(B));
      }
    }

    /** Compares the client's proof with the expected one; on a match hands out the answer. */
    method VerifySession(userM: array<byte>) returns (hamk: Option<seq<byte>>)
      requires userM.Length >= HASH_LENGTH && |proofs.M| == HASH_LENGTH
      modifies this
      ensures authenticated == (old(authenticated) || userM[..HASH_LENGTH] == proofs.M)
      ensures hamk == if userM[..HASH_LENGTH] == proofs.M then Some(proofs.HAMK) else None
    {
      if userM[..HASH_LENGTH] == proofs.M {
        authenticated := true;
        hamk := Some(proofs.HAMK);
      } else {
        hamk := None;
      }
    }
  }

  class Session {
    var username: seq<byte>
    var srp: Option<SrpData>

    constructor ()
      ensures srp == None && username == []
    {
      username, srp := [], None;
    }

    /** The first step: a salt, a verifier for the PIN, and the server's public key. The random
        private key and the random salt number are inputs. */
    method NewUser(suite: Suite, deviceId: seq<byte>, pin: seq<byte>, privateKey: seq<byte>, randomSalt: nat)
      returns (ret: int, salt: seq<byte>, pk: seq<byte>)
      requires SuiteOk(suite)
      modifies this
      ensures ret == -1 <==> |deviceId| > USERNAME_SIZE
      ensures ret == -1 ==> srp == old(srp) && username == old(username)
      ensures ret == 0 <==> StepOneOk(suite, deviceId, pin, randomSalt)
      ensures ret == 0 || ret == -1 || ret == -3
      ensures ret == -3 ==> username == deviceId && srp == Some(SrpData([], [], privateKey, []))
      ensures ret == 0 ==>
        && username == deviceId && salt == Bin(randomSalt)
        && srp == Some(SrpData(Bin(randomSalt), Bin(PinVerifier(suite, deviceId, pin, randomSalt)), privateKey, []))
        && pk == Bin(FirstB(suite, PinVerifier(suite, deviceId, pin, randomSalt), privateKey))
      ensures ret == 0 ==>
        IsPublicKey(suite, PinVerifier(suite, deviceId, pin, randomSalt), FromBE(privateKey), FromBE(pk))
    {
      hide Multiplier, PrivateX, VerifierOf, ServerPublic, IsPublicKey, Bin, FromBE, NumBytes;
      salt, pk := [], [];
      if |deviceId| > USERNAME_SIZE {
        return -1, [], [];
      }
      username := deviceId;
      srp := Some(SrpData([], [], privateKey, []));
      var v := VerifierOf(suite, PrivateX(suite, randomSalt, deviceId, pin));
      if NumBytes(randomSalt) != SALT_SIZE || NumBytes(v) != VERIFIER_SIZE {
        return -3, [], [];
      }
      srp := Some(SrpData(Bin(randomSalt), Bin(v), privateKey, []));
      MultiplierExists(suite);
      BinRoundTrip(v);
      BinRoundTrip(FirstB(suite, v, privateKey));
      FirstBReads(suite, v, privateKey);
      return 0, Bin(randomSalt), Bin(ServerPublic(suite, Multiplier(suite).value, FromBE(Bin(v)), FromBE(privateKey)));
    }

    /** What the second step computes for a client key. */
    ghost function Expected(suite: Suite, bytesA: seq<byte>): Option<(nat, Proofs)>
      requires SuiteOk(suite) && srp.Some?
      reads this
    {
      ServerProofs(suite, username, FromBE(srp.value.salt), FromBE(srp.value.verifier), FromBE(bytesA), FromBE(srp.value.privateKey))
    }

    /** The second step: the proof buffer holds the client's proof, and on success the answer. It needs
        a first step that no wrong proof has undone, and a client key that fits. */
    method ValidateProof(suite: Suite, bytesA: seq<byte>, proof: array<byte>) returns (end: StepTwo)
      requires SuiteOk(suite) && proof.Length >= HASH_LENGTH
      modifies this`srp, proof
      ensures end == NullSession <==> old(srp).None?
      ensures end == NullVerifier <==> old(srp).Some? && !KeyFits(suite, FromBE(bytesA))
      ensures !end.Returned? ==> srp == old(srp) && proof[..] == old(proof[..])
      ensures end.Returned? ==> old(Expected(suite, bytesA)).Some?
      ensures end.Returned? ==>
        var proofs := old(Expected(suite, bytesA)).value.1;
        if old(proof[..HASH_LENGTH]) == proofs.M
        then end.ret == 0 && proof[..HASH_LENGTH] == proofs.HAMK && srp == Some(old(srp).value.(sessionKey := proofs.key))
        else end.ret == -1 && srp == None && proof[..] == old(proof[..])
    {
      hide ServerProofs, KeyFits;
      if srp.None? {
        return NullSession;
      }
      VerifierExistsExactly(suite, username, FromBE(srp.value.salt), FromBE(srp.value.verifier), FromBE(bytesA), FromBE(srp.value.privateKey));
      var ver := SRPVerifier.New(suite, username, srp.value.salt, srp.value.verifier, bytesA, srp.value.privateKey);
      if ver == null {
        return NullVerifier;
      }
      ghost var proofs := Expected(suite, bytesA).value.1;
      LengthsFit(suite, username, FromBE(srp.value.salt), FromBE(srp.value.verifier), FromBE(bytesA), FromBE(srp.value.privateKey));
      var hamk := ver.VerifySession(proof);
      if !ver.authenticated {
        srp := None;
        return Returned(-1);
      }
      if |ver.proofs.key| != SESSION_KEY_SIZE {
        return Returned(-2);
      }
      srp := Some(srp.value.(sessionKey := ver.proofs.key));
      var i := 0;
      while i < HASH_LENGTH
        modifies proof
        invariant 0 <= i <= HASH_LENGTH
        invariant forall j :: 0 <= j < i ==> proof[j] == hamk.value[j]
      {
        proof[i] := hamk.value[i];
        i := i + 1;
      }
      assert proof[..HASH_LENGTH] == hamk.value;
      return Returned(0);
    }
  }

  lemma LengthsFit(suite: Suite, user: seq<byte>, salt: nat, v: nat, A: nat, b: nat)
    requires SuiteOk(suite) && ServerProofs(suite, user, salt, v, A, b).Some?
    ensures var proofs := ServerProofs(suite, user, salt, v, A, b).value.1;
      |proofs.M| == HASH_LENGTH && |proofs.HAMK| == HASH_LENGTH && |proofs.key| == SESSION_KEY_SIZE
  {
  }

  /** What the second step finds for an honest client is what the client has, if it has anything;
      and the public key recomputed there is the one sent in the first step. */
  lemma HonestProofs(suite: Suite, deviceId: seq<byte>, pin: seq<byte>, privateKey: seq<byte>, salt: nat, a: nat)
    returns (proofs: Proofs)
    requires SuiteOk(suite) && ClientPublic(suite, a) != 0
    ensures var v := PinVerifier(suite, deviceId, pin, salt);
      var B := FirstB(suite, v, privateKey);
      && ServerProofs(suite, deviceId, FromBE(Bin(salt)), FromBE(Bin(v)), FromBE(Bin(ClientPublic(suite, a))), FromBE(privateKey))
         == Some((B, proofs))
      && ClientProofs(suite, deviceId, pin, FromBE(Bin(salt)), a, FromBE(Bin(B)))
         == if ClientGoesOn(suite, a, B) then Some(proofs) else None
  {
    var B;
    B, proofs := ProofsAgree(suite, deviceId, pin, salt, a, FromBE(privateKey));
    var v := PinVerifier(suite, deviceId, pin, salt);
    assert B == FirstB(suite, v, privateKey);
    hide PrivateX, VerifierOf, ClientPublic, ServerPublic, HashPair, Bin, FromBE, ServerProofs, ClientProofs;
    BinRoundTrip(salt);
    BinRoundTrip(v);
    BinRoundTrip(ClientPublic(suite, a));
    BinRoundTrip(B);
  }

  /** An honest client with the right PIN against a server session, both steps in a row. The
      pairing completes on both sides exactly if the client does not see a zero B or u. */
  method PairWithHonestClient(suite: Suite, deviceId: seq<byte>, pin: seq<byte>, privateKey: seq<byte>, randomSalt: nat, a: nat)
    returns (stepOne: int, stepTwo: Option<StepTwo>, clientAccepts: bool, sessionKeysEqual: bool)
    requires SuiteOk(suite) && ClientPublic(suite, a) != 0
    ensures stepOne == 0 <==> StepOneOk(suite, deviceId, pin, randomSalt)
    ensures stepOne == 0 ==>
      var goesOn := ClientGoesOn(suite, a, FirstB(suite, PinVerifier(suite, deviceId, pin, randomSalt), privateKey));
      && (stepTwo == if goesOn then Some(Returned(0)) else None)
      && (clientAccepts <==> goesOn) && (goesOn ==> sessionKeysEqual)
  {
    hide PrivateX, VerifierOf, ClientPublic, ServerPublic, HashPair, Bin, FromBE, ServerProofs, ClientProofs;
    stepTwo, clientAccepts, sessionKeysEqual := None, false, false;
    var session := new Session();
    var salt, pk;
    stepOne, salt, pk := session.NewUser(suite, deviceId, pin, privateKey, randomSalt);
    if stepOne != 0 {
      return;
    }
    ghost var v := PinVerifier(suite, deviceId, pin, randomSalt);
    ghost var proofs := HonestProofs(suite, deviceId, pin, privateKey, randomSalt, a);
    var client := ClientProofs(suite, deviceId, pin, FromBE(salt), a, FromBE(pk));
    if client.None? {
      return;
    }
    var A := Bin(ClientPublic(suite, a));
    LengthsFit(suite, deviceId, FromBE(Bin(randomSalt)), FromBE(Bin(v)), FromBE(A), FromBE(privateKey));
    var proof := new byte[HASH_LENGTH](i requires 0 <= i < HASH_LENGTH => client.value.M[i]);
    assert proof[..HASH_LENGTH] == client.value.M;
    VerifierExistsExactly(suite, deviceId, FromBE(Bin(randomSalt)), FromBE(Bin(v)), FromBE(A), FromBE(privateKey));
    var end := session.ValidateProof(suite, A, proof);
    stepTwo := Some(end);
    clientAccepts := end == Returned(0) && proof[..HASH_LENGTH] == client.value.HAMK;
    sessionKeysEqual := session.srp.Some? && session.srp.value.sessionKey == client.value.key;
  }
}
