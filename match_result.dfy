/** Match results (circuits/src/types/match.rs): the cleartext result read
    from five `u64` values, its authenticated (secret-shared) form flattened
    to and read back from five shared scalars, opening, and commitment.
    The sharing network, batch opening and Pedersen commitments are
    parameters of the operations that use them. */
module Matches {
  import opened Wrappers
  import opened Scalars

  /** `MATCH_SIZE_SCALARS`. */
  const MatchSizeScalars: nat := 5

  /** `MatchResult`: mints are `BigInt`s built from `u64`s. */
  datatype MatchResult = MatchResult(quoteMint: int, baseMint: int, quoteAmount: U64, baseAmount: U64, direction: U64)

  /** `MpcError`; the serialisation error carries the length received (its
      message says "Expected 12 values" although five are expected). */
  datatype MpcError = SerializationError(got: nat) | OpeningError(message: string) | SharingError(message: string)

  /** The five fields every form of a match result carries, in declaration
      order; the authenticated, committed and variable forms differ only in
      the type of their fields. */
  datatype MatchRecord<T> = MatchRecord(quoteMint: T, baseMint: T, quoteAmount: T, baseAmount: T, direction: T)

  /** Every `From<..> for Vec<..>` conversion: the fields in declaration
      order. */
  function Flatten<T>(m: MatchRecord<T>): (r: seq<T>)
    ensures |r| == MatchSizeScalars
  {
    [m.quoteMint, m.baseMint, m.quoteAmount, m.baseAmount, m.direction]
  }

  /** The fields of a cleartext result in declaration order. */
  function MatchFields(m: MatchResult): (r: seq<int>)
    ensures |r| == MatchSizeScalars
  {
    Flatten(MatchRecord(m.quoteMint, m.baseMint, m.quoteAmount, m.baseAmount, m.direction))
  }

  /** `TryFrom<&[u64]> for MatchResult`. */
  function MatchResultFromU64s(values: seq<U64>): (r: Result<MatchResult, MpcError>)
    ensures r.Success? <==> |values| == MatchSizeScalars
    ensures r.Failure? ==> r.error == SerializationError(|values|)
  {
    if |values| != MatchSizeScalars then Failure(SerializationError(|values|))
    else Success(MatchResult(values[0], values[1], values[2], values[3], values[4]))
  }

  /** Five values are read into the fields in declaration order, and every
      result with `u64` mints is read back from its own fields. */
  lemma MatchResultFieldOrder(values: seq<U64>, m: MatchResult)
    ensures |values| == MatchSizeScalars ==> MatchFields(MatchResultFromU64s(values).value) == values
    ensures 0 <= m.quoteMint < TwoTo64 && 0 <= m.baseMint < TwoTo64 ==>
      MatchResultFromU64s([m.quoteMint as U64, m.baseMint as U64, m.quoteAmount, m.baseAmount, m.direction]) == Success(m)
  {
  }

  // ---------------------------------------------------------------------
  // Authenticated results
  // ---------------------------------------------------------------------

  /** `AuthenticatedMatchResult`, generic in the shared-value type. */
  type AuthenticatedMatchResult<T> = MatchRecord<T>

  /** `TryFrom<&[AuthenticatedScalar]> for AuthenticatedMatchResult` as
      written: index 1 is read into `quote_amount` and index 2 into
      `base_mint`. */
  function AuthenticatedFromValuesAsWritten<T>(values: seq<T>): (r: Result<AuthenticatedMatchResult<T>, MpcError>)
    ensures r.Success? <==> |values| == MatchSizeScalars
    ensures r.Failure? ==> r.error == SerializationError(|values|)
  {
    if |values| != MatchSizeScalars then Failure(SerializationError(|values|))
    else Success(MatchRecord(
      /* quoteMint */ values[0], /* baseMint */ values[2], /* quoteAmount */ values[1],
      /* baseAmount */ values[3], /* direction */ values[4]))
  }

  /** As written, reading back a flattened result exchanges its base mint
      and its quote amount. */
  lemma AuthenticatedRoundTripSwaps<T>(m: AuthenticatedMatchResult<T>)
    ensures AuthenticatedFromValuesAsWritten(Flatten(m))
         == Success(m.(baseMint := m.quoteAmount, quoteAmount := m.baseMint))
    ensures m.baseMint != m.quoteAmount ==> AuthenticatedFromValuesAsWritten(Flatten(m)) != Success(m)
  {
  }

  /** A concrete result the written conversion does not give back. */
  lemma AuthenticatedRoundTripCounterexample()
    ensures var m := MatchRecord(1, 2, 3, 4, 0);
      AuthenticatedFromValuesAsWritten(Flatten(m)) == Success(MatchRecord(1, 3, 2, 4, 0))
  {
    AuthenticatedRoundTripSwaps(MatchRecord(1, 2, 3, 4, 0));
  }

  /** The conversion in the order `From` flattens in. */
  function AuthenticatedFromValues<T>(values: seq<T>): (r: Result<AuthenticatedMatchResult<T>, MpcError>)
    ensures r.Success? <==> |values| == MatchSizeScalars
    ensures r.Failure? ==> r.error == SerializationError(|values|)
  {
    if |values| != MatchSizeScalars then Failure(SerializationError(|values|))
    else Success(MatchRecord(values[0], values[1], values[2], values[3], values[4]))
  }

  /** With the corrected order, flattening and reading back are inverse
      both ways. */
  lemma AuthenticatedRoundTrip<T>(m: AuthenticatedMatchResult<T>, values: seq<T>)
    ensures AuthenticatedFromValues(Flatten(m)) == Success(m)
    ensures |values| == MatchSizeScalars ==> Flatten(AuthenticatedFromValues(values).value) == values
  {
  }

  // ----- opening -----

  /** `open` (and `open_and_authenticate`, which differs only in the batch
      operation): flatten, batch-open, cast each scalar to `u64`, and read
      the cleartext result. */
  function Open<T>(m: AuthenticatedMatchResult<T>, batchOpen: seq<T> -> Result<seq<Scalar>, string>): (r: Result<MatchResult, MpcError>)
    ensures batchOpen(Flatten(m)).Failure? ==> r == Failure(OpeningError(batchOpen(Flatten(m)).error))
  {
    match batchOpen(Flatten(m))
    case Failure(e) => Failure(OpeningError(e))
    case Success(scalars) =>
      MatchResultFromU64s(seq(|scalars|, i requires 0 <= i < |scalars| => ScalarToU64(scalars[i])))
  }

  /** When the batch opening opens each shared value on its own, every
      opened field comes from the share of the same field. */
  lemma OpenFieldwise<T>(m: AuthenticatedMatchResult<T>, batchOpen: seq<T> -> Result<seq<Scalar>, string>, openOne: T -> Scalar)
    requires batchOpen(Flatten(m)) == Success([openOne(m.quoteMint), openOne(m.baseMint),
      openOne(m.quoteAmount), openOne(m.baseAmount), openOne(m.direction)])
    ensures Open(m, batchOpen) == Success(MatchResult(
      ScalarToU64(openOne(m.quoteMint)), ScalarToU64(openOne(m.baseMint)), ScalarToU64(openOne(m.quoteAmount)),
      ScalarToU64(openOne(m.baseAmount)), ScalarToU64(openOne(m.direction))))
  {
  }

  /** A batch opening that returns the wrong number of values is a
      serialisation error. */
  lemma OpenWrongCount<T>(m: AuthenticatedMatchResult<T>, batchOpen: seq<T> -> Result<seq<Scalar>, string>)
    requires batchOpen(Flatten(m)).Success? && |batchOpen(Flatten(m)).value| != MatchSizeScalars
    ensures Open(m, batchOpen) == Failure(SerializationError(|batchOpen(Flatten(m)).value|))
  {
  }

  // ----- commitment -----

  /** `AuthenticatedMatchResultVar` and `AuthenticatedCommittedMatchResult`. */
  type MatchResultVar<V> = MatchRecord<V>
  type CommittedMatchResult<C> = MatchRecord<C>

  /** `commit`: the five shared values, in field order, are committed in
      one batch with five blinders (random, so a parameter); the i-th
      variable and commitment become the i-th field. The batch returns one
      commitment and one variable per value. */
  function Commit<T, C, V>(m: AuthenticatedMatchResult<T>, blinders: seq<Scalar>,
                           batchCommit: (seq<T>, seq<Scalar>) -> Result<(seq<C>, seq<V>), string>)
    : (r: Result<(MatchResultVar<V>, CommittedMatchResult<C>), MpcError>)
    requires |blinders| == MatchSizeScalars
    requires batchCommit(Flatten(m), blinders).Success? ==>
      |batchCommit(Flatten(m), blinders).value.0| >= MatchSizeScalars &&
      |batchCommit(Flatten(m), blinders).value.1| >= MatchSizeScalars
    ensures r.Success? <==> batchCommit(Flatten(m), blinders).Success?
    ensures r.Failure? ==> r.error == SharingError(batchCommit(Flatten(m), blinders).error)
    ensures r.Success? ==>
      Flatten(r.value.0) == batchCommit(Flatten(m), blinders).value.1[..MatchSizeScalars] &&
      Flatten(r.value.1) == batchCommit(Flatten(m), blinders).value.0[..MatchSizeScalars]
  {
    match batchCommit(Flatten(m), blinders)
    case Failure(e) => Failure(SharingError(e))
    case Success((commitments, vars)) =>
      Success((MatchRecord(vars[0], vars[1], vars[2], vars[3], vars[4]),
               MatchRecord(commitments[0], commitments[1], commitments[2], commitments[3], commitments[4])))
  }
}
