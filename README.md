# Rental admission in the car rental manager

This project models the admission logic of `RentalManager` in a car rental
back end. The logic decides whether a proposed rental may be stored. A
rental names a car, a customer, a start date and an end date.

- **Availability rule (`IsRentable`).** The rental is refused with
  `RentalNotAvailable` when a stored rental of the same car overlaps it.
  The intervals are closed, so touching endpoints count as an overlap.
- **Credit rule (`CheckFindeksScoreSufficiency`).** A customer with no
  Findeks (credit) record is refused with `FindeksNotFound`. A record whose
  score is below the car's optional minimum is refused with
  `FindeksNotEnoughForCar`. A car with no minimum accepts any record.
- **`Add`.** Both rule results are computed first. The rule runner then
  returns the first failure, availability before credit. Only when both pass
  is the rental appended to the store, with `RentalAdded` returned.
- **`CheckReturnDateByCarId`.** It reports `RentalUndeliveredCar` when a
  rental of the car has no return date.
- **`GetByDate`.** It returns the rentals that start after one date and end
  before another.

Layout:

- `Entities.dfy`: rentals, the car's minimum score (`short?`), credit records.
- `Results.dfy`: reason codes, success and error results, and the rule runner.
- `Queries.dfy`: the filtered store read and `Any`.
- `Business.dfy`: the rules, the no-double-booking invariant and the
  `RentalManager` class with its store and `Add`.
- `AdmissionClient.dfy`: three admissions followed through `Add`'s contract.

Modelling decisions:

- Dates are integers, since the rules only compare them.
- The store is a `seq<Rental>` field that `Add` reassigns.
- The car service and the credit service are maps, looked up as `Option`s.
  The credit records are keyed by customer id.
- The rule runner's own source is not part of this model. It is modelled
  from how `Add` uses it at `Business/Concrete/RentalManager.cs:70-71`:
  `null` when every result succeeds, otherwise the first failing result.
- Both rule results are passed to the runner as already computed values. The
  model keeps this eager order, rather than a lazy chain that stops before
  the credit lookup. One consequence follows in the next point.
- Line 122 dereferences the car without a null check. The model gives this
  as a distinct `NullReferenceFault` outcome, never as a rule rejection. It
  happens only when a credit record exists and the car does not, because
  line 121 returns first when the record is missing. Both rules run before
  the runner, so this fault escapes `Add` even when the car is also
  unavailable. The store is then left unchanged.
- The availability rule looks only at dates. A returned rental still blocks
  its interval. This is the code's literal behaviour, and the model keeps it.

## Model

| member | source | states |
|---|---|---|
| `Business.Conflicts` | Business/Concrete/RentalManager.cs:109-110 | for well-formed date ranges, the closed overlap test holds exactly when some instant lies inside both rentals, so touching endpoints conflict |
| `Business.RentalManager.CreditCheck` | Business/Concrete/RentalManager.cs:116-125 | with both lookups done first: a customer without a record gets `FindeksNotFound`; a fault exactly when the record exists and the car does not; `FindeksNotEnoughForCar` exactly when the car has a minimum and the record's score is below it; success exactly when both exist and the minimum is null or reached |
| `Business.IsRentable` | Business/Concrete/RentalManager.cs:104-114 | fails, with `RentalNotAvailable`, exactly when some stored rental of the same car has `end >= candidate.start` and `start <= candidate.end`; otherwise succeeds with no message |
| `Business.ConflictsSymmetric` | Business/Concrete/RentalManager.cs:108-110 | the closed overlap test gives the same answer with the two rentals swapped |
| `Business.IsRentableOnlySeesItsCar` | Business/Concrete/RentalManager.cs:106-113 | two stores holding the same rentals of the candidate's car give the same answer, so rentals of other cars never matter |
| `Business.UnbookedCarIsRentable` | Business/Concrete/RentalManager.cs:106-113 | a car with no stored rentals is always rentable |
| `Business.CheckFindeksScoreSufficiency` | Business/Concrete/RentalManager.cs:116-125 | no record gives `FindeksNotFound` before the car is dereferenced (line 122); a record with no car is a null-reference fault; `FindeksNotEnoughForCar` exactly when a minimum exists and the score is below it; success exactly when a record and a car exist and the minimum is null or the score reaches it (equal passes) |
| `Business.CheckReturnDateByCarId` | Business/Concrete/RentalManager.cs:95-101 | fails, with `RentalUndeliveredCar`, exactly when some stored rental of the car has no return date; otherwise succeeds with no message |
| `Business.GetByDate` | Business/Concrete/RentalManager.cs:55-58 | returns exactly the stored rentals with `start > rentDate` and `end < returnDate`, each as many times as it is stored |
| `Business.AdmissionKeepsNoDoubleBooking` | Business/Concrete/RentalManager.cs:104-114 | if no two stored rentals of one car overlap and the availability rule accepts the candidate, no two overlap after appending it |
| `Business.RentalManager.Add` | Business/Concrete/RentalManager.cs:68-76 | a fault exactly when the credit rule faults; otherwise an unavailable car gives `RentalNotAvailable` before any credit failure, and a credit failure is returned as is; `RentalAdded` exactly when both rules pass; the store gains exactly the given rental in that case and is unchanged otherwise; no double booking is preserved |
| `Business.RentalManager.constructor` | Business/Concrete/RentalManager.cs:23-28 | the manager starts with the given store and the given car and credit services |
| `Results.Run` | Business/Concrete/RentalManager.cs:70-71 | `None` exactly when every result succeeds; otherwise the first failing result, with every earlier one a success |
| `Results.RunOfTwo` | Business/Concrete/RentalManager.cs:70-71 | with two results, a failing first one wins, then a failing second one, and two successes give `None` |
| `Queries.Where` | Business/Concrete/RentalManager.cs:106 | the filtered read keeps exactly the elements satisfying the filter, with their multiplicities, and is no longer than the store |
| `Queries.Any` | Business/Concrete/RentalManager.cs:108-111 | true exactly when some element satisfies the predicate |

## Left out

- The `SecuredOperation` and `ValidationAspect` attributes (access control and `RentalValidator`) are not modelled. They are declarative interception around the methods, and the validator is not part of this model.
- The data-access layer is not modelled. The rental store is a sequence, and the car and credit services are maps.
- The credit service is reduced to a map from customer id to a record carrying only a score. Its own lookup code is not part of this model, a score is an unbounded integer, and a customer has at most one record.
- `Update`, `Delete`, `GetById`, `GetAll`, `GetAllByCarId`, `GetByCustomerId` and `GetRentalInfo` are not modelled. They pass straight through to the store.
- The car and brand managers, the car data-access interface and the DTOs are not modelled. They only forward to the store or carry data.
- The message texts are replaced by reason codes. The text file does not define the rental and Findeks keys.
- `DateTime` is replaced by integers. Only the order of dates is used.
- The `SuccessDataResult` wrapper around `GetByDate`'s list is not modelled. That result is always a success.
- Concurrent calls to `Add` are not modelled. The code has no locking, so two overlapping admissions racing each other are outside this sequential model.
- The identifier the store assigns on insert is not modelled. The rental is stored as given.
- `Queries.Where`: states membership and multiplicity, not that the original order is kept.
- `Business.GetByDate`: states membership and multiplicity, not that the original order is kept.
