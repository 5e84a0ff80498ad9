/** Failure results shared by the identity and stamp algebras. */
module Results {

  /** The two ways an operation of the algebra can refuse its input. */
  datatype Failure =
    | NonDisjointIds   // Id.Sum of two identities that overlap
    | GrowExhausted    // the case analysis of Grow found no branch for the (Id, Event) pair

  /** Either a value or the failure that stopped the computation. */
  datatype Result<+T> = Ok(value: T) | Fail(error: Failure)
}
