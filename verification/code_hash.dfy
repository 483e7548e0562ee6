/** `hasContract` (lib/utils.js): classifies an account by the hash of the
    code deployed on it. */
module CodeHash {
  import opened Text

  /** The `code_hash` the chain reports for an account without a contract:
      thirty-two '1' characters. */
  const NoContractHash: string := "11111111111111111111111111111111"

  /** Length of the fingerprint `hasContract` cuts from a hash. */
  const FingerprintLength: nat := 6

  /** The part of an account state record `hasContract` reads. */
  datatype AccountState = AccountState(codeHash: string)

  /** What `hasContract` returns: `false`, or a short string. */
  datatype ContractStatus = NoContract | Fingerprint(prefix: string)

  function Min(a: nat, b: nat): nat {
    if a <= b then a else b
  }

  /** `false` exactly for the no-contract hash; otherwise the hash's first
      six characters, or the whole hash when it is shorter. */
  function HasContract(state: AccountState): (r: ContractStatus)
    ensures r == NoContract <==> state.codeHash == NoContractHash
    ensures r.Fingerprint? ==> IsPrefix(r.prefix, state.codeHash)
    ensures r.Fingerprint? ==> |r.prefix| == Min(FingerprintLength, |state.codeHash|)
  {
    if state.codeHash == NoContractHash then NoContract
    else Fingerprint(state.codeHash[..Min(FingerprintLength, |state.codeHash|)])
  }

  /** The no-contract hash is 32 copies of '1'. */
  lemma NoContractHashShape()
    ensures |NoContractHash| == 32
    ensures forall i :: 0 <= i < |NoContractHash| ==> NoContractHash[i] == '1'
  {
  }

  /** The two classifications worked out for concrete hashes. */
  lemma HasContractExamples()
    ensures HasContract(AccountState(NoContractHash)) == NoContract
    ensures HasContract(AccountState("abcdef0123456789")) == Fingerprint("abcdef")
    ensures HasContract(AccountState("abc")) == Fingerprint("abc")
  {
  }
}
