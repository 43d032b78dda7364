// The decision a soft open makes over the header checks it performs, in order:
// the initialized marker, the password verification tag, and the Merkle root of
// the header leaves against the persisted root hash.
module SoftOpen {

  datatype OpenError = BackstoreNotInitialized | BadPassword | IntegrityFailure

  datatype Outcome = Opened | Refused(error: OpenError)

  /** The results of the three header checks: whether the initialized marker holds
      its set value, whether the verification tag matches the one derived from the
      password and salt, and whether the recomputed Merkle root matches the
      persisted root hash. */
  datatype Checks = Checks(initialized: bool, passwordVerified: bool, rootMatches: bool)

  /** A failed root comparison is ignored when ignoreIntegrity is set. */
  function Decide(c: Checks, ignoreIntegrity: bool): (r: Outcome)
    ensures r == Opened <==> c.initialized && c.passwordVerified && (c.rootMatches || ignoreIntegrity)
    ensures r == Refused(BackstoreNotInitialized) <==> !c.initialized
    ensures r == Refused(BadPassword) <==> c.initialized && !c.passwordVerified
    ensures r == Refused(IntegrityFailure) <==> c.initialized && c.passwordVerified && !c.rootMatches && !ignoreIntegrity
  {
    if !c.initialized then Refused(BackstoreNotInitialized)
    else if !c.passwordVerified then Refused(BadPassword)
    else if !c.rootMatches && !ignoreIntegrity then Refused(IntegrityFailure)
    else Opened
  }

  /** The headers of the backing file. */
  datatype Header =
    | Version | Salt | MasterRootHash | TpmGlobalVersion | Verification
    | NumNuggets | FlakesPerNugget | FlakeSizeBytes | Initialized

  /** The headers the Merkle tree covers, in leaf order. */
  const MerkleLeaves: seq<Header> :=
    [TpmGlobalVersion, Version, Salt, Verification, NumNuggets, FlakesPerNugget, FlakeSizeBytes]

  /** The checks of a backing file that opens cleanly once the single header h has
      been overwritten with different bytes. The verification tag is derived from
      the password and the salt, and the root is recomputed from the leaves and
      compared with the persisted root hash. */
  function ChecksAfterCorrupting(h: Header): Checks
  {
    Checks(h != Initialized, h != Verification && h != Salt, h !in MerkleLeaves && h != MasterRootHash)
  }

  /** The four corruption outcomes: a bad verification tag is reported as a bad
      password even though it also breaks the root, a bad marker as an uninitialized
      backstore, a bad root hash as an integrity failure unless integrity failures
      are ignored. */
  lemma CorruptedHeaderOutcomes()
    ensures Decide(ChecksAfterCorrupting(Verification), false) == Refused(BadPassword)
    ensures Decide(ChecksAfterCorrupting(Initialized), false) == Refused(BackstoreNotInitialized)
    ensures Decide(ChecksAfterCorrupting(MasterRootHash), false) == Refused(IntegrityFailure)
    ensures Decide(ChecksAfterCorrupting(MasterRootHash), true) == Opened
  {
    assert Verification in MerkleLeaves;
  }

  /** Without the ignore flag, corrupting any header is detected. */
  lemma EveryCorruptionDetected(h: Header)
    ensures Decide(ChecksAfterCorrupting(h), false).Refused?
  {
    if h !in {Initialized, MasterRootHash} && h !in MerkleLeaves {
      assert false;
    }
  }

  /** The ignore flag changes the outcome only by letting a root mismatch through:
      it never masks a missing marker or a wrong password. */
  lemma IgnoreOnlyMasksIntegrity(c: Checks)
    ensures Decide(c, true) != Decide(c, false) ==>
      Decide(c, false) == Refused(IntegrityFailure) && Decide(c, true) == Opened
    ensures Decide(c, true) == Opened ==> c.initialized && c.passwordVerified
  {
  }
}
