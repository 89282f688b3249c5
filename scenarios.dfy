/** Worked examples of the allocation on concrete stores. */
module Scenarios {
  import opened Wrappers
  import opened SeatModel
  import opened Allocation
  import opened SeatsController

  lemma {:induction false} AllFree(s: seq<Seat>)
    requires forall i :: 0 <= i < |s| ==> !s[i].isBooked
    ensures Available(s) == s
  {
    if s != [] {
      AllFree(s[1..]);
    }
  }

  lemma {:induction false} AllBooked(s: seq<Seat>)
    requires forall i :: 0 <= i < |s| ==> s[i].isBooked
    ensures Available(s) == []
  {
    if s != [] {
      AllBooked(s[1..]);
    }
  }

  /**
   * On the freshly created inventory row 1 is fully booked and row 2 is free, so a request for
   * five seats gets seats 8 to 12.
   */
  lemma FirstBookingAfterGenerate(seats: seq<Seat>)
    requires IsInitialInventory(seats)
    ensures BookOutcome(seats, 5) == Booked([8, 9, 10, 11, 12])
  {
    assert TotalRows(|seats|) == 12;
    InitialFirstRow(seats);
    InitialSecondRow(seats);
    RowPhaseChoice(seats, 5, 2);
  }

  lemma InitialFirstRow(seats: seq<Seat>)
    requires IsInitialInventory(seats)
    ensures !RowFits(seats, 5, 1)
  {
    assert RowSlice(seats, 1) == seats[0..7];
    AllBooked(seats[0..7]);
  }

  lemma InitialSecondRow(seats: seq<Seat>)
    requires IsInitialInventory(seats)
    ensures RowFits(seats, 5, 2)
    ensures UnbookedNos(RowSlice(seats, 2))[..5] == [8, 9, 10, 11, 12]
  {
    var row := seats[7..14];
    assert RowSlice(seats, 2) == row;
    AllFree(row);
    assert UnbookedNos(row) == SeatNos(row);
  }

  /** Two rows of seven in which only seats 6 to 9 are free. */
  predicate TieStore(seats: seq<Seat>)
  {
    |seats| == 14 && forall i :: 0 <= i < 14 ==> seats[i] == Seat(i + 1, i < 5 || 9 <= i)
  }

  /**
   * Neither row of `TieStore` holds three free seats, so the sliding window decides, and of the
   * two windows of spread 2 the earlier one, seats 6 to 8, wins.
   */
  lemma WindowTieGoesToEarliest(seats: seq<Seat>)
    requires TieStore(seats)
    ensures BookOutcome(seats, 3) == Booked([6, 7, 8])
  {
    TieRowsTooFull(seats);
    TieUnbooked(seats);
    var u := UnbookedNos(seats);
    assert Spread(u, 3, 0) == 2 && Spread(u, 3, 1) == 2;
    assert BestUpTo(u, 3, 2) == 0;
  }

  lemma TieRowsTooFull(seats: seq<Seat>)
    requires TieStore(seats)
    ensures FirstFitFrom(seats, 3, 1) == None
  {
    TieFirstRow(seats);
    TieSecondRow(seats);
    assert TotalRows(|seats|) == 2;
  }

  lemma TieFirstRow(seats: seq<Seat>)
    requires TieStore(seats)
    ensures |Available(RowSlice(seats, 1))| == 2
  {
    assert RowSlice(seats, 1) == seats[0..5] + seats[5..7];
    TieBooked(seats, 0, 5);
    TieFree(seats, 5, 7);
    AvailableAppend(seats[0..5], seats[5..7]);
  }

  lemma TieSecondRow(seats: seq<Seat>)
    requires TieStore(seats)
    ensures |Available(RowSlice(seats, 2))| == 2
  {
    assert RowSlice(seats, 2) == seats[7..9] + seats[9..14];
    TieFree(seats, 7, 9);
    TieBooked(seats, 9, 14);
    AvailableAppend(seats[7..9], seats[9..14]);
  }

  lemma TieUnbooked(seats: seq<Seat>)
    requires TieStore(seats)
    ensures UnbookedNos(seats) == [6, 7, 8, 9]
  {
    TieAvailable(seats);
    var nos := SeatNos(seats[5..9]);
    assert nos[0] == 6 && nos[1] == 7 && nos[2] == 8 && nos[3] == 9;
  }

  lemma TieAvailable(seats: seq<Seat>)
    requires TieStore(seats)
    ensures Available(seats) == seats[5..9]
  {
    TieBooked(seats, 0, 5);
    TieFree(seats, 5, 9);
    TieBooked(seats, 9, 14);
    assert seats == seats[0..5] + seats[5..9] + seats[9..14];
    AvailableBetween(seats[0..5], seats[5..9], seats[9..14]);
  }

  lemma AvailableBetween(a: seq<Seat>, b: seq<Seat>, c: seq<Seat>)
    requires Available(a) == [] && Available(c) == []
    ensures Available(a + b + c) == Available(b)
  {
    AvailableAppend(a, b);
    AvailableAppend(a + b, c);
  }

  lemma TieBooked(seats: seq<Seat>, lo: nat, hi: nat)
    requires TieStore(seats) && lo <= hi <= 14 && (hi <= 5 || 9 <= lo)
    ensures Available(seats[lo..hi]) == []
  {
    AllBooked(seats[lo..hi]);
  }

  lemma TieFree(seats: seq<Seat>, lo: nat, hi: nat)
    requires TieStore(seats) && 5 <= lo <= hi <= 9
    ensures Available(seats[lo..hi]) == seats[lo..hi]
  {
    AllFree(seats[lo..hi]);
  }

  /** A number that names no seat makes the whole unbooking request invalid. */
  lemma UnknownSeatRejects(seats: seq<Seat>)
    requires IsInitialInventory(seats)
    ensures !UnbookAccepted(seats, [3, 99])
  {
    InitialInventorySorted(seats);
    UnbookAcceptedIff(seats, [3, 99]);
    assert 99 in [3, 99];
    assert !HasSeat(seats, 99, true);
  }
}
