/** The Ed25519 side of a chain's keyring (src/keyring.rs, src/chain/registry.rs). */
module KeyRing {
  import opened Base

  datatype TendermintKey = AccountKey(pk: bytes) | ConsensusKey(pk: bytes)

  /** A signer; `sign` stands for the provider behind it, which may fail. */
  datatype Signer = Signer(provider: nat, publicKey: TendermintKey, sign: bytes -> Option<bytes>)

  type Keys = map<TendermintKey, Signer>

  /** `Unimplemented` stands for the panic on Ed25519 account keys. */
  datatype KeyError = InvalidKey | SigningError | Unimplemented

  /** Every entry is filed under its signer's own public key. */
  ghost predicate KeyedBySigner(keys: Keys) {
    forall k :: k in keys ==> keys[k].publicKey == k && k.ConsensusKey?
  }

  /** The one key of a keyring that has exactly one. */
  ghost function OnlyKey(keys: Keys): (k: Option<TendermintKey>)
    ensures k.Some? <==> |keys| == 1
    ensures k.Some? ==> keys.Keys == {k.value}
    ensures k.None? ==> forall x :: keys.Keys != {x}
  {
    if |keys.Keys| == 1 then
      var x :| x in keys.Keys;
      assert |keys.Keys - {x}| == 0;
      Some(x)
    else
      assert forall x: TendermintKey :: |{x}| == 1;
      None
  }

  class KeyRing {
    var ed25519Keys: Keys

    ghost predicate Valid()
      reads this
    {
      KeyedBySigner(ed25519Keys)
    }

    constructor ()
      ensures Valid() && ed25519Keys == map[]
    {
      ed25519Keys := map[];
    }

    /** A duplicate is reported, but by then the new signer has replaced the old one. */
    method AddEd25519(signer: Signer) returns (r: Result<(), KeyError>)
      requires Valid()
      modifies this
      ensures Valid()
      ensures ed25519Keys == Register(old(ed25519Keys), signer)
      ensures r.Ok? <==> signer.publicKey.ConsensusKey? && signer.publicKey !in old(ed25519Keys)
      ensures r == Err(Unimplemented) <==> signer.publicKey.AccountKey?
      ensures r == Err(InvalidKey) <==> signer.publicKey.ConsensusKey? && signer.publicKey in old(ed25519Keys)
    {
      if signer.publicKey.AccountKey? {
        return Err(Unimplemented);
      }
      var duplicate := signer.publicKey in ed25519Keys;
      ed25519Keys := ed25519Keys[signer.publicKey := signer];
      r := if duplicate then Err(InvalidKey) else Ok(());
    }

    /** The key the KMS advertises to validators. */
    method DefaultEd25519Pubkey() returns (r: Result<TendermintKey, KeyError>)
      ensures r == match OnlyKey(ed25519Keys) { case Some(k) => Ok(k) case None => Err(InvalidKey) }
    {
      if |ed25519Keys| == 1 {
        assert |ed25519Keys.Keys| == 1;
        var k :| k in ed25519Keys.Keys;
        r := Ok(k);
      } else {
        r := Err(InvalidKey);
      }
    }

    /** With no key asked for, the signer is that of the advertised key, or there is none. */
    method SignEd25519(publicKey: Option<TendermintKey>, msg: bytes) returns (r: Result<bytes, KeyError>)
      requires Valid()
      ensures publicKey.None? && |ed25519Keys| == 0 ==> r == Err(InvalidKey)
      ensures publicKey.None? && |ed25519Keys| > 1 ==> r == Err(SigningError)
      ensures publicKey.None? && OnlyKey(ed25519Keys).Some? ==>
                var s := ed25519Keys[OnlyKey(ed25519Keys).value];
                s.publicKey == OnlyKey(ed25519Keys).value && r == Signed(s, msg)
      ensures publicKey.Some? ==>
                r == if publicKey.value in ed25519Keys then Signed(ed25519Keys[publicKey.value], msg)
                     else Err(InvalidKey)
    {
      var signer: Signer;
      match publicKey {
        case Some(k) =>
          if k !in ed25519Keys {
            return Err(InvalidKey);
          }
          signer := ed25519Keys[k];
        case None =>
          if |ed25519Keys| > 1 {
            return Err(SigningError);
          }
          if |ed25519Keys| == 0 {
            return Err(InvalidKey);
          }
          assert |ed25519Keys.Keys| == 1;
          var k :| k in ed25519Keys.Keys;
          signer := ed25519Keys[k];
      }
      r := Signed(signer, msg);
    }
  }

  function Signed(s: Signer, msg: bytes): Result<bytes, KeyError> {
    match s.sign(msg)
    case Some(sig) => Ok(sig)
    case None => Err(SigningError)
  }

  function Register(keys: Keys, s: Signer): Keys {
    if s.publicKey.AccountKey? then keys else keys[s.publicKey := s]
  }

  function RegisterAll(signers: seq<Signer>): Keys {
    if signers == [] then map[] else Register(RegisterAll(signers[..|signers| - 1]), signers[|signers| - 1])
  }

  /** No later signer has the same key. */
  ghost predicate IsLast(signers: seq<Signer>, i: nat)
    requires i < |signers|
  {
    forall j :: i < j < |signers| ==> signers[j].publicKey != signers[i].publicKey
  }

  /**
   * After any sequence of registrations, duplicates and rejected account keys included, a key is
   * advertised exactly when all consensus signers share it, and it is then the key that signs.
   */
  lemma {:induction false} RegistrationRuns(signers: seq<Signer>)
    ensures KeyedBySigner(RegisterAll(signers))
    ensures RegisterAll(signers).Keys ==
            set i | 0 <= i < |signers| && signers[i].publicKey.ConsensusKey? :: signers[i].publicKey
    decreases |signers|
  {
    if signers != [] {
      var n := |signers| - 1;
      RegistrationRuns(signers[..n]);
    }
  }

  /** Of several signers offered with one key, the last one is kept. */
  lemma {:induction false} LastSignerWins(signers: seq<Signer>, i: nat)
    requires i < |signers| && signers[i].publicKey.ConsensusKey? && IsLast(signers, i)
    ensures signers[i].publicKey in RegisterAll(signers) && RegisterAll(signers)[signers[i].publicKey] == signers[i]
    decreases |signers|
  {
    var n := |signers| - 1;
    if i < n {
      LastSignerWins(signers[..n], i);
      assert signers[n].publicKey != signers[i].publicKey;
    }
  }

  lemma AdvertisedKeyIsTheOnlyOne(signers: seq<Signer>, k: TendermintKey)
    ensures OnlyKey(RegisterAll(signers)) == Some(k) <==>
            && (exists i :: 0 <= i < |signers| && signers[i].publicKey == k)
            && k.ConsensusKey?
            && (forall i :: 0 <= i < |signers| && signers[i].publicKey.ConsensusKey? ==> signers[i].publicKey == k)
  {
    RegistrationRuns(signers);
    var keys := RegisterAll(signers);
    if OnlyKey(keys) == Some(k) {
      assert k in keys.Keys;
      forall i | 0 <= i < |signers| && signers[i].publicKey.ConsensusKey? ensures signers[i].publicKey == k {
        assert signers[i].publicKey in keys.Keys;
      }
    }
    if (exists i :: 0 <= i < |signers| && signers[i].publicKey == k) && k.ConsensusKey? &&
       (forall i :: 0 <= i < |signers| && signers[i].publicKey.ConsensusKey? ==> signers[i].publicKey == k)
    {
      assert keys.Keys == {k};
    }
  }
}
