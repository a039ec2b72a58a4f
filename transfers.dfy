/** The direction of an external transfer and its one-scalar circuit encoding
    (circuit-types/src/transfers.rs). */
module Transfers {
  import opened Wrappers
  import opened Scalars

  /** `Deposit = 0`, `Withdrawal` is the next discriminant, 1. */
  datatype ExternalTransferDirection = Deposit | Withdrawal

  /** The `as u8` discriminant of a direction. */
  function Discriminant(d: ExternalTransferDirection): (r: nat)
    ensures r == 0 <==> d == Deposit
    ensures r < 2
  {
    match d
    case Deposit => 0
    case Withdrawal => 1
  }

  /** `to_scalars`: a single scalar holding the discriminant. */
  function ToScalars(d: ExternalTransferDirection): (r: seq<Scalar>)
    ensures |r| == 1
    ensures r[0] == 0 <==> d == Deposit
    ensures r[0] == 1 <==> d == Withdrawal
  {
    [Discriminant(d) as Scalar]
  }

  /** `from_scalars`: consumes one scalar from the iterator and returns the
      direction together with what the iterator still holds. Running out of
      scalars (`next().unwrap()`) and a value other than 0 or 1 both panic,
      modelled as failures. */
  function FromScalars(i: seq<Scalar>): (r: Result<(ExternalTransferDirection, seq<Scalar>), string>)
    ensures r.Success? ==> |i| > 0 && r.value.1 == i[1..]
  {
    if |i| == 0 then Failure("called `Option::unwrap()` on a `None` value")
    else if ScalarToU64(i[0]) == 0 then Success((Deposit, i[1..]))
    else if ScalarToU64(i[0]) == 1 then Success((Withdrawal, i[1..]))
    else Failure("invalid value for ExternalTransferDirection")
  }

  /** `Default`: a deposit. */
  function DefaultDirection(): (r: ExternalTransferDirection)
    ensures Discriminant(r) == 0
  {
    Deposit
  }

  /** `From<ExternalTransferDirection> for Scalar`. */
  function IntoScalar(d: ExternalTransferDirection): (r: Scalar)
    ensures r == ToScalars(d)[0]
  {
    Discriminant(d) as Scalar
  }

  /** `from_scalars` accepts exactly the scalars whose low 64 bits are 0 or 1,
      and maps 0 to `Deposit` and 1 to `Withdrawal`. */
  lemma FromScalarsAccepts(i: seq<Scalar>)
    ensures FromScalars(i).Success? <==> |i| > 0 && ScalarToU64(i[0]) < 2
    ensures FromScalars(i).Success? ==>
      (FromScalars(i).value.0 == Deposit <==> ScalarToU64(i[0]) == 0)
  {
  }

  /** Decoding what was encoded gives back the direction and leaves the rest
      of the iterator untouched. */
  lemma RoundTrip(d: ExternalTransferDirection, rest: seq<Scalar>)
    ensures FromScalars(ToScalars(d) + rest) == Success((d, rest))
  {
    assert (ToScalars(d) + rest)[1..] == rest;
  }
}
