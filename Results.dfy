/** Results returned by the business services and the rule runner that
    combines them. */
module Results {
  import opened Entities

  /** Reason codes carried by results (the human-readable texts are not modelled). */
  datatype Message =
    | RentalAdded
    | RentalNotAvailable
    | RentalUndeliveredCar
    | FindeksNotFound
    | FindeksNotEnoughForCar

  /** `SuccessResult` (with an optional message) or `ErrorResult` (with one). */
  datatype Result = SuccessResult(info: Option<Message>) | ErrorResult(reason: Message)

  /** What a call does: it returns a value, or it throws because it
      dereferenced a null reference. */
  datatype Outcome<+T> = Returned(value: T) | NullReferenceFault

  /** The rule runner: `None` (C#'s `null`) when every rule succeeded,
      otherwise the first failing result in argument order. */
  function Run(logics: seq<Result>): (r: Option<Result>)
    ensures r.None? <==> forall i :: 0 <= i < |logics| ==> logics[i].SuccessResult?
    ensures r.Some? ==>
      exists i :: 0 <= i < |logics| && logics[i] == r.value && logics[i].ErrorResult? &&
        forall j :: 0 <= j < i ==> logics[j].SuccessResult?
  {
    if |logics| == 0 then None
    else if logics[0].ErrorResult? then Some(logics[0])
    else
      var rest := Run(logics[1..]);
      assert forall i :: 1 <= i < |logics| ==> logics[i] == logics[1..][i - 1];
      rest
  }

  /** With two rules the first failure wins; two successes give `None`. */
  lemma RunOfTwo(first: Result, second: Result)
    ensures first.ErrorResult? ==> Run([first, second]) == Some(first)
    ensures first.SuccessResult? && second.ErrorResult? ==> Run([first, second]) == Some(second)
    ensures first.SuccessResult? && second.SuccessResult? ==> Run([first, second]) == None
  {
    assert [first, second][1..] == [second];
  }
}
