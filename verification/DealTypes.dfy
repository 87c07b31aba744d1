/** The record kept in the index table for one deal. */
module DealTypes {
  import opened Base

  /** DEALS_EXPIRES: one day, in seconds. */
  const EXPIRES: nat := 60 * 60 * 24

  datatype DealInfo = DealInfo(
    timestamp: nat,
    origin: nat,
    destination: nat,
    departureDate: nat,
    returnDate: nat,
    price: nat,
    stayDays: nat,
    destinationCountry: nat,
    departureDays: bv8,
    returnDays: bv8,
    direct: bool,
    overriden: bool,
    pageName: Option<nat>,
    index: nat,
    size: nat)

  /** A zeroed record, as found in fresh shared memory or in a fresh map entry. */
  const NO_DEAL: DealInfo := DealInfo(0, 0, 0, 0, 0, 0, 0, 0, 0, 0, false, false, None, 0, 0)

  /** Same route, dates and kind of flight. */
  predicate SameItinerary(a: DealInfo, b: DealInfo) {
    && a.departureDate == b.departureDate
    && a.returnDate == b.returnDate
    && a.direct == b.direct
    && a.destination == b.destination
    && a.origin == b.origin
  }

  /** The itinerary is made of these five, and nothing else of a deal matters. */
  lemma SameItineraryIff(a: DealInfo, b: DealInfo)
    ensures SameItinerary(a, b)
            <==> (a.origin, a.destination, a.departureDate, a.returnDate, a.direct)
                 == (b.origin, b.destination, b.departureDate, b.returnDate, b.direct)
  {
  }
}
