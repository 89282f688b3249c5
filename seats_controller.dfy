/**
 * The seats controller over an in-memory store: creating the initial inventory, listing it,
 * booking by count and unbooking by seat numbers. The store is a class whose one field is the
 * list of seat records sorted by seat number, as the booking path reads it; results take the
 * place of the HTTP responses.
 */
module SeatsController {
  import opened Wrappers
  import opened SeatModel
  import opened Allocation

  /** Size of the initial inventory. */
  const TotalSeats: nat := 80

  /** Seats 1..PreBooked start out booked. */
  const PreBooked: nat := 7

  datatype GenerateResult = Created(seats: seq<Seat>) | AlreadyExist

  datatype BookResult = Booked(bookedSeats: seq<nat>) | MissingCount | NotAvailable

  datatype UnbookResult = Unbooked | MissingNumbers | Invalid

  /** The inventory created on an empty store: seats 1..80 in order, the first seven booked. */
  predicate IsInitialInventory(seats: seq<Seat>)
  {
    |seats| == TotalSeats &&
    forall i :: 0 <= i < |seats| ==> seats[i].seatNo == i + 1 && (seats[i].isBooked <==> i + 1 <= PreBooked)
  }

  /** The outcome of a booking request on a given store state. */
  function BookOutcome(seats: seq<Seat>, numSeats: nat): BookResult
  {
    if numSeats == 0 then MissingCount
    else match Allocate(seats, numSeats)
      case Some(p) => Booked(p)
      case None => NotAvailable
  }

  /** The all-or-nothing check of unbooking: one booked record was found per requested entry. */
  predicate UnbookAccepted(seats: seq<Seat>, seatNumbers: seq<int>)
  {
    |Matching(seats, Elements(seatNumbers), true)| == |seatNumbers|
  }

  /** The push loop of `generateSeats` (controller lines 8-12). */
  method BuildInitialSeats() returns (seats: seq<Seat>)
    ensures IsInitialInventory(seats)
  {
    seats := [];
    var i := 1;
    while i <= TotalSeats
      invariant 1 <= i <= TotalSeats + 1
      invariant |seats| == i - 1
      invariant forall j :: 0 <= j < |seats| ==> seats[j].seatNo == j + 1 && (seats[j].isBooked <==> j + 1 <= PreBooked)
    {
      var isBooked := i <= PreBooked;
      seats := seats + [Seat(i, isBooked)];
      i := i + 1;
    }
  }

  /**
   * The selection part of `bookingSeats` (controller lines 48-97): the row phase, then the
   * sliding window when the row phase found nothing; an empty result means seats not available.
   */
  method ChooseSeats(allSeats: seq<Seat>, numSeats: nat) returns (bookedSeats: seq<nat>)
    requires 1 <= numSeats
    ensures Allocate(allSeats, numSeats).Some? ==> bookedSeats == Allocate(allSeats, numSeats).value
    ensures Allocate(allSeats, numSeats).None? ==> bookedSeats == []
  {
    bookedSeats := RowPhase(allSeats, numSeats);
    if RowPick(allSeats, numSeats).Some? {
      AllocateByRow(allSeats, numSeats);
    }
    if |bookedSeats| == 0 {
      var unbookedSeatNos := SeatNos(Available(allSeats));
      var closestSeats := ClosestWindow(unbookedSeatNos, numSeats);
      AllocateByWindow(allSeats, numSeats);
      if |closestSeats| == numSeats {
        bookedSeats := closestSeats;
      }
    }
  }

  class SeatStore {
    /** The seat records, sorted by seat number. */
    var seats: seq<Seat>

    ghost predicate Valid()
      reads this
    {
      SortedBySeatNo(seats)
    }

    /** An empty store. */
    constructor ()
      ensures Valid() && seats == []
    {
      seats := [];
    }

    /** `generateSeats`: fills an empty store with the initial inventory, otherwise changes nothing. */
    method Generate() returns (r: GenerateResult)
      requires Valid()
      modifies this
      ensures Valid()
      ensures old(seats) == [] ==> IsInitialInventory(seats) && r == Created(seats)
      ensures old(seats) != [] ==> seats == old(seats) && r == AlreadyExist
    {
      if |seats| == 0 {
        var created := BuildInitialSeats();
        InitialInventorySorted(created);
        seats := created;
        r := Created(created);
      } else {
        r := AlreadyExist;
      }
    }

    /** `getAllSeats`: the records as stored. */
    method GetAll() returns (all: seq<Seat>)
      ensures all == seats
    {
      all := seats;
    }

    /**
     * `bookingSeats`: rejects a missing or zero count, chooses the seats, then marks the chosen
     * seats booked in place.
     */
    method Book(numSeats: nat) returns (r: BookResult)
      requires Valid()
      modifies this
      ensures Valid()
      ensures r == BookOutcome(old(seats), numSeats)
      ensures r.Booked? ==> seats == SetFlag(old(seats), r.bookedSeats, true)
      ensures !r.Booked? ==> seats == old(seats)
    {
      if numSeats == 0 {
        return MissingCount;
      }
      var bookedSeats := ChooseSeats(seats, numSeats);
      if |bookedSeats| > 0 {
        MarkBooked(bookedSeats);
        r := Booked(bookedSeats);
      } else {
        r := NotAvailable;
      }
    }

    /** The commit loop of `bookingSeats` (controller lines 101-106): sets `isBooked` on the chosen records. */
    method MarkBooked(bookedSeats: seq<nat>)
      requires Valid()
      modifies this
      ensures Valid()
      ensures seats == SetFlag(old(seats), bookedSeats, true)
    {
      var i := 0;
      while i < |seats|
        invariant 0 <= i <= |seats| == |old(seats)|
        invariant forall j :: 0 <= j < i ==> seats[j] == SetFlag(old(seats), bookedSeats, true)[j]
        invariant forall j :: i <= j < |seats| ==> seats[j] == old(seats)[j]
      {
        if seats[i].seatNo in bookedSeats {
          seats := seats[i := seats[i].(isBooked := true)];
        }
        i := i + 1;
      }
      assert seats == SetFlag(old(seats), bookedSeats, true);
      BookingKeepsOrder(old(seats), bookedSeats);
    }

    /**
     * `unbookSeats`: rejects a missing list; otherwise succeeds only if every entry found a
     * booked record, and then unbooks exactly the listed seats in one batch.
     */
    method Unbook(seatNumbers: Option<seq<int>>) returns (r: UnbookResult)
      requires Valid()
      modifies this
      ensures Valid()
      ensures seatNumbers.None? ==> r == MissingNumbers
      ensures seatNumbers.Some? ==>
                r == (if UnbookAccepted(old(seats), seatNumbers.value) then Unbooked else Invalid)
      ensures r == Unbooked ==> seats == SetFlag(old(seats), seatNumbers.value, false)
      ensures r != Unbooked ==> seats == old(seats)
    {
      if seatNumbers.None? {
        return MissingNumbers;
      }
      var nums := seatNumbers.value;
      var validSeats := Matching(seats, Elements(nums), true);
      if |validSeats| != |nums| {
        return Invalid;
      }
      UnbookingKeepsOrder(seats, nums);
      seats := SetFlag(seats, nums, false);
      r := Unbooked;
    }
  }

  // ---------------------------------------------------------------------------------------
  // Properties of the controller's operations

  /** The initial inventory is sorted, and a seat is booked iff its number is at most seven. */
  lemma InitialInventorySorted(seats: seq<Seat>)
    requires IsInitialInventory(seats)
    ensures SortedBySeatNo(seats)
    ensures forall i :: 0 <= i < |seats| ==> (seats[i].isBooked <==> seats[i].seatNo <= PreBooked)
  {
  }

  /** Changing booked flags keeps every seat number, hence the order. */
  lemma SetFlagEffect(seats: seq<Seat>, nos: seq<int>, booked: bool)
    ensures |SetFlag(seats, nos, booked)| == |seats|
    ensures forall i :: 0 <= i < |seats| ==>
              && SetFlag(seats, nos, booked)[i].seatNo == seats[i].seatNo
              && SetFlag(seats, nos, booked)[i].isBooked == (if seats[i].seatNo in nos then booked else seats[i].isBooked)
    ensures SeatNos(SetFlag(seats, nos, booked)) == SeatNos(seats)
  {
  }

  lemma BookingKeepsOrder(seats: seq<Seat>, nos: seq<int>)
    requires SortedBySeatNo(seats)
    ensures SortedBySeatNo(SetFlag(seats, nos, true))
  {
    SetFlagEffect(seats, nos, true);
  }

  lemma UnbookingKeepsOrder(seats: seq<Seat>, nos: seq<int>)
    requires SortedBySeatNo(seats)
    ensures SortedBySeatNo(SetFlag(seats, nos, false))
  {
    SetFlagEffect(seats, nos, false);
  }

  /**
   * With `numSeats >= 1`, booking fails exactly when fewer than `numSeats` seats are unbooked;
   * a zero or missing count is always rejected.
   */
  lemma BookingFailsIff(seats: seq<Seat>, numSeats: nat)
    ensures numSeats == 0 ==> BookOutcome(seats, numSeats) == MissingCount
    ensures numSeats >= 1 ==>
              (BookOutcome(seats, numSeats) == NotAvailable <==> |UnbookedNos(seats)| < numSeats)
  {
    if numSeats >= 1 {
      AllocateFailsIff(seats, numSeats);
    }
  }

  /**
   * A successful booking books exactly `numSeats` previously unbooked seats: every chosen seat is
   * booked afterwards, every other seat keeps its flag, and the unbooked count drops by
   * `numSeats`.
   */
  lemma BookingTakesExactly(seats: seq<Seat>, numSeats: nat)
    requires SortedBySeatNo(seats) && BookOutcome(seats, numSeats).Booked?
    ensures var p := BookOutcome(seats, numSeats).bookedSeats;
            var after := SetFlag(seats, p, true);
            && |p| == numSeats
            && (forall i :: 0 <= i < |seats| ==> after[i].seatNo == seats[i].seatNo)
            && (forall i :: 0 <= i < |seats| && seats[i].seatNo in p ==> after[i].isBooked && !seats[i].isBooked)
            && (forall i :: 0 <= i < |seats| && seats[i].seatNo !in p ==> after[i].isBooked == seats[i].isBooked)
            && |UnbookedNos(after)| == |UnbookedNos(seats)| - numSeats
  {
    var p := BookOutcome(seats, numSeats).bookedSeats;
    AllocateSound(seats, numSeats);
    SetFlagEffect(seats, p, true);
    ChosenWereFree(seats, p);
    MatchingCount(seats, Elements(p), false);
    ElementsCount(p);
    BookingRemovesFree(seats, p);
  }

  /** If each listed number names an unbooked seat, each record carrying a listed number is unbooked. */
  lemma ChosenWereFree(seats: seq<Seat>, p: seq<int>)
    requires SortedBySeatNo(seats) && forall n :: n in p ==> HasSeat(seats, n, false)
    ensures forall i :: 0 <= i < |seats| && seats[i].seatNo in p ==> !seats[i].isBooked
    ensures forall n :: n in Elements(p) ==> HasSeat(seats, n, false)
  {
    forall i | 0 <= i < |seats| && seats[i].seatNo in p ensures !seats[i].isBooked {
      var j :| 0 <= j < |seats| && seats[j].seatNo == seats[i].seatNo && !seats[j].isBooked;
      if i < j {
        assert SeatNos(seats)[i] < SeatNos(seats)[j];
      } else if j < i {
        assert SeatNos(seats)[j] < SeatNos(seats)[i];
      }
    }
  }

  /**
   * Unbooking succeeds iff the requested numbers are pairwise distinct and each names an
   * existing booked seat.
   */
  lemma UnbookAcceptedIff(seats: seq<Seat>, seatNumbers: seq<int>)
    requires SortedBySeatNo(seats)
    ensures UnbookAccepted(seats, seatNumbers) <==>
            Distinct(seatNumbers) && forall n :: n in seatNumbers ==> HasSeat(seats, n, true)
  {
    MatchingCount(seats, Elements(seatNumbers), true);
    ElementsCount(seatNumbers);
  }

  /** An empty unbooking request is accepted and changes nothing. */
  lemma EmptyUnbook(seats: seq<Seat>)
    ensures UnbookAccepted(seats, [])
    ensures SetFlag(seats, [], false) == seats
  {
    assert Elements([]) == {};
    assert Matching(seats, {}, true) == [] by {
      MatchingNone(seats);
    }
  }

  lemma {:induction false} MatchingNone(seats: seq<Seat>)
    ensures Matching(seats, {}, true) == []
  {
    if seats != [] {
      MatchingNone(seats[1..]);
    }
  }

  /**
   * Unbooking the seats a booking just took is accepted and restores the store exactly, so the
   * same booking request can be repeated with the same outcome.
   */
  lemma BookThenUnbookRestores(seats: seq<Seat>, numSeats: nat)
    requires SortedBySeatNo(seats) && BookOutcome(seats, numSeats).Booked?
    ensures var p := BookOutcome(seats, numSeats).bookedSeats;
            var after := SetFlag(seats, p, true);
            && UnbookAccepted(after, p)
            && SetFlag(after, p, false) == seats
            && BookOutcome(SetFlag(after, p, false), numSeats) == BookOutcome(seats, numSeats)
  {
    var p := BookOutcome(seats, numSeats).bookedSeats;
    var after := SetFlag(seats, p, true);
    AllocateSound(seats, numSeats);
    ChosenWereFree(seats, p);
    SetFlagEffect(seats, p, true);
    BookingKeepsOrder(seats, p);
    forall n | n in p ensures HasSeat(after, n, true) {
      var j :| 0 <= j < |seats| && seats[j].seatNo == n && !seats[j].isBooked;
      assert after[j].seatNo == n && after[j].isBooked;
    }
    UnbookAcceptedIff(after, p);
    var restored := SetFlag(after, p, false);
    SetFlagEffect(after, p, false);
    assert restored == seats by {
      forall i | 0 <= i < |seats| ensures restored[i] == seats[i] {
      }
    }
  }
}

