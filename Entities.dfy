/** The entities the rental admission logic reads: rentals, the car's credit
    threshold and a customer's credit (Findeks) record. */
module Entities {

  /** A nullable value: `None` is C#'s `null`. */
  datatype Option<+T> = None | Some(value: T)

  /** The range of a C# `short`. */
  type Short = x: int | -0x8000 <= x < 0x8000

  /** A point in time, of which only the order matters. */
  type Date = int

  /** A stored or proposed rental. `returnDate` is `None` while the car is out. */
  datatype Rental = Rental(
    id: int,
    carId: int,
    customerId: int,
    rentStartDate: Date,
    rentEndDate: Date,
    returnDate: Option<Date>)

  /** A car, reduced to the one field admission reads: its optional minimum
      Findeks score, a nullable 16-bit integer. */
  datatype Car = Car(minFindeksScore: Option<Short>)

  /** A customer's credit record, reduced to its score; the customer it
      belongs to is the key under which the credit service holds it. */
  datatype Findeks = Findeks(score: int)
}
