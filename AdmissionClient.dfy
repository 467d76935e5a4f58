/** A client of `RentalManager` that follows three admissions through the
    contract of `Add` alone. Dates are day numbers. */
module AdmissionClient {
  import opened Entities
  import opened Results
  import opened Business

  method ThreeAdmissions() {
    var booked := Rental(1, 1, 10, 1, 10, None);
    var m := new RentalManager([booked], map[1 := Car(Some(700)), 2 := Car(Some(700))], map[20 := Findeks(800)]);

    // An overlapping request for the booked car is refused and not stored.
    var res := m.Add(Rental(2, 1, 20, 5, 8, None));
    assert booked in [booked] && Conflicts(booked, Rental(2, 1, 20, 5, 8, None));
    assert res == Returned(ErrorResult(RentalNotAvailable)) && m.rentals == [booked];

    // A later request passes availability but the customer has no credit record.
    res := m.Add(Rental(3, 1, 10, 11, 15, None));
    assert res == Returned(ErrorResult(FindeksNotFound)) && m.rentals == [booked];

    // A request for a free car by a customer above the minimum is stored.
    var other := Rental(4, 2, 20, 1, 5, None);
    res := m.Add(other);
    assert res == Returned(SuccessResult(Some(RentalAdded))) && m.rentals == [booked, other];
  }
}
