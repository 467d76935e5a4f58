/** The rental admission logic of the rental manager: the availability rule,
    the credit rule, the undelivered-car check, the date-window query and
    `Add`, which stores a rental only when both rules pass. */
module Business {
  import opened Entities
  import opened Results
  import opened Queries

  /** Rental `r` occupies its car at instant `d`, both endpoints included. */
  predicate Occupies(r: Rental, d: Date) {
    r.rentStartDate <= d <= r.rentEndDate
  }

  /** The closed-interval overlap test between a stored rental `r` and a
      candidate. For well-formed date ranges it holds exactly when some
      instant is occupied by both, so touching endpoints conflict. */
  predicate Conflicts(r: Rental, candidate: Rental): (b: bool)
    ensures r.rentStartDate <= r.rentEndDate && candidate.rentStartDate <= candidate.rentEndDate ==>
      (b <==> exists d :: Occupies(r, d) && Occupies(candidate, d))
  {
    var b := r.rentEndDate >= candidate.rentStartDate && r.rentStartDate <= candidate.rentEndDate;
    var shared := if r.rentStartDate <= candidate.rentStartDate then candidate.rentStartDate else r.rentStartDate;
    assert b && r.rentStartDate <= r.rentEndDate && candidate.rentStartDate <= candidate.rentEndDate ==>
      Occupies(r, shared) && Occupies(candidate, shared);
    b
  }

  /** The availability rule: the candidate is refused when a stored rental of
      the same car overlaps it. Return dates play no part. */
  function IsRentable(rentals: seq<Rental>, rental: Rental): (res: Result)
    ensures res.ErrorResult? <==>
      exists r :: r in rentals && r.carId == rental.carId && Conflicts(r, rental)
    ensures res.ErrorResult? ==> res.reason == RentalNotAvailable
    ensures res.SuccessResult? ==> res.info == None
  {
    var result := Where(rentals, (r: Rental) => r.carId == rental.carId);
    if Any(result, (r: Rental) => Conflicts(r, rental)) then
      var i :| 0 <= i < |result| && Conflicts(result[i], rental);
      assert result[i] in result;
      ErrorResult(RentalNotAvailable)
    else
      assert forall r :: r in result ==> !Conflicts(r, rental);
      SuccessResult(None)
  }

  /** The credit rule, given what the two lookups returned. A missing record is
      refused before the car's minimum is read; a record whose car is missing
      faults on a null reference; a null minimum makes C#'s lifted `<` false. */
  function CheckFindeksScoreSufficiency(car: Option<Car>, findeks: Option<Findeks>): (res: Outcome<Result>)
    ensures findeks.None? ==> res == Returned(ErrorResult(FindeksNotFound))
    ensures res.NullReferenceFault? <==> findeks.Some? && car.None?
    ensures res == Returned(ErrorResult(FindeksNotEnoughForCar)) <==>
      findeks.Some? && car.Some? && car.value.minFindeksScore.Some? &&
      findeks.value.score < car.value.minFindeksScore.value
    ensures res == Returned(SuccessResult(None)) <==>
      findeks.Some? && car.Some? &&
      (car.value.minFindeksScore.None? || findeks.value.score >= car.value.minFindeksScore.value)
  {
    if findeks.None? then Returned(ErrorResult(FindeksNotFound))
    else match car
      case None => NullReferenceFault
      case Some(c) =>
        if c.minFindeksScore.Some? && findeks.value.score < c.minFindeksScore.value
        then Returned(ErrorResult(FindeksNotEnoughForCar))
        else Returned(SuccessResult(None))
  }

  /** Is some rental of the car still out, that is, without a return date? */
  function CheckReturnDateByCarId(rentals: seq<Rental>, carId: int): (res: Result)
    ensures res.ErrorResult? <==>
      exists r :: r in rentals && r.carId == carId && r.returnDate.None?
    ensures res.ErrorResult? ==> res.reason == RentalUndeliveredCar
    ensures res.SuccessResult? ==> res.info == None
  {
    var result := Where(rentals, (x: Rental) => x.carId == carId && x.returnDate.None?);
    if |result| > 0 then
      assert result[0] in result;
      ErrorResult(RentalUndeliveredCar)
    else SuccessResult(None)
  }

  /** The stored rentals lying strictly inside the window: they start after
      `rentDate` and end before `returnDate`, each kept as often as it is stored. */
  function GetByDate(rentals: seq<Rental>, rentDate: Date, returnDate: Date): (res: seq<Rental>)
    ensures forall r :: r in res <==>
      r in rentals && r.rentStartDate > rentDate && r.rentEndDate < returnDate
    ensures forall r ::
      multiset(res)[r] ==
        (if r.rentStartDate > rentDate && r.rentEndDate < returnDate then multiset(rentals)[r] else 0)
  {
    Where(rentals, (r: Rental) => r.rentStartDate > rentDate && r.rentEndDate < returnDate)
  }

  /** The store invariant: no two stored rentals of one car overlap. */
  ghost predicate NoDoubleBooking(rentals: seq<Rental>) {
    forall i, j ::
      0 <= i < |rentals| && 0 <= j < |rentals| && i != j && rentals[i].carId == rentals[j].carId
      ==> !Conflicts(rentals[i], rentals[j])
  }

  /** Overlap does not depend on which of the two rentals is the candidate. */
  lemma ConflictsSymmetric(a: Rental, b: Rental)
    ensures Conflicts(a, b) <==> Conflicts(b, a)
  {
  }

  /** Rentals of other cars never matter: two stores holding the same rentals
      of the candidate's car give the same availability answer. */
  lemma IsRentableOnlySeesItsCar(a: seq<Rental>, b: seq<Rental>, rental: Rental)
    requires forall r: Rental :: r.carId == rental.carId ==> (r in a <==> r in b)
    ensures IsRentable(a, rental) == IsRentable(b, rental)
  {
  }

  /** A car with no stored rentals is always rentable. */
  lemma UnbookedCarIsRentable(rentals: seq<Rental>, rental: Rental)
    requires forall r :: r in rentals ==> r.carId != rental.carId
    ensures IsRentable(rentals, rental) == SuccessResult(None)
  {
  }

  /** Admitting a rental the availability rule accepts keeps the store free of
      double bookings. */
  lemma {:induction false} AdmissionKeepsNoDoubleBooking(rentals: seq<Rental>, rental: Rental)
    requires NoDoubleBooking(rentals)
    requires IsRentable(rentals, rental).SuccessResult?
    ensures NoDoubleBooking(rentals + [rental])
  {
    var s := rentals + [rental];
    forall i, j | 0 <= i < |s| && 0 <= j < |s| && i != j && s[i].carId == s[j].carId
      ensures !Conflicts(s[i], s[j])
    {
      if j == |rentals| {
        assert s[i] in rentals;
      } else if i == |rentals| {
        assert s[j] in rentals;
        ConflictsSymmetric(s[i], s[j]);
      }
    }
  }

  /** The rental manager: its store of rentals, updated in place by `Add`, and
      the contents of the car and credit services it consults. */
  class RentalManager {
    /** The rentals held by the rental store. */
    var rentals: seq<Rental>
    /** The cars the car service knows, by id. */
    const cars: map<int, Car>
    /** The credit records the credit service knows, by customer id. */
    const creditRecords: map<int, Findeks>

    constructor (rentals: seq<Rental>, cars: map<int, Car>, creditRecords: map<int, Findeks>)
      ensures this.rentals == rentals && this.cars == cars && this.creditRecords == creditRecords
    {
      this.rentals := rentals;
      this.cars := cars;
      this.creditRecords := creditRecords;
    }

    /** The credit rule for `rental` as `Add` runs it: both lookups first, then
        the decision, stated over the two services' contents. */
    function CreditCheck(rental: Rental): (res: Outcome<Result>)
      ensures rental.customerId !in creditRecords ==> res == Returned(ErrorResult(FindeksNotFound))
      ensures res.NullReferenceFault? <==> rental.customerId in creditRecords && rental.carId !in cars
      ensures res == Returned(ErrorResult(FindeksNotEnoughForCar)) <==>
        rental.customerId in creditRecords && rental.carId in cars &&
        cars[rental.carId].minFindeksScore.Some? &&
        creditRecords[rental.customerId].score < cars[rental.carId].minFindeksScore.value
      ensures res == Returned(SuccessResult(None)) <==>
        rental.customerId in creditRecords && rental.carId in cars &&
        (cars[rental.carId].minFindeksScore.None? ||
         creditRecords[rental.customerId].score >= cars[rental.carId].minFindeksScore.value)
    {
      var car := if rental.carId in cars then Some(cars[rental.carId]) else None;
      var findeks := if rental.customerId in creditRecords then Some(creditRecords[rental.customerId]) else None;
      CheckFindeksScoreSufficiency(car, findeks)
    }

    /** Both rules are evaluated before they are combined, so a faulting credit
        rule aborts the call whatever availability said. Otherwise the first
        failure is returned and the store is untouched; when both pass the
        rental is appended and `RentalAdded` is returned. */
    method Add(rental: Rental) returns (res: Outcome<Result>)
      modifies this
      ensures res.NullReferenceFault? <==> CreditCheck(rental).NullReferenceFault?
      ensures !res.NullReferenceFault? && IsRentable(old(rentals), rental).ErrorResult? ==>
        res == Returned(ErrorResult(RentalNotAvailable))
      ensures IsRentable(old(rentals), rental).SuccessResult? && CreditCheck(rental).Returned? &&
              CreditCheck(rental).value.ErrorResult?
              ==> res == CreditCheck(rental)
      ensures res == Returned(SuccessResult(Some(RentalAdded))) <==>
        IsRentable(old(rentals), rental).SuccessResult? && CreditCheck(rental) == Returned(SuccessResult(None))
      ensures rentals == if res == Returned(SuccessResult(Some(RentalAdded)))
        then old(rentals) + [rental] else old(rentals)
      ensures old(NoDoubleBooking(rentals)) ==> NoDoubleBooking(rentals)
    {
      var availability := IsRentable(rentals, rental);
      var credit := CreditCheck(rental);
      if credit.NullReferenceFault? {
        return NullReferenceFault;
      }
      RunOfTwo(availability, credit.value);
      var result := Run([availability, credit.value]);
      if result.Some? {
        return Returned(result.value);
      }
      ghost var before := rentals;
      rentals := rentals + [rental];
      if NoDoubleBooking(before) {
        AdmissionKeepsNoDoubleBooking(before, rental);
      }
      return Returned(SuccessResult(Some(RentalAdded)));
    }
  }
}
