/**
 * The seat records of the booking store and the pure helpers the controller applies to
 * them: the `filter` for unbooked seats, the `map` to seat numbers, the `$in` lookup
 * used when unbooking, and the batch update of the booked flag.
 */
module SeatModel {

  /** One persisted seat record: its number and whether it is booked. */
  datatype Seat = Seat(seatNo: nat, isBooked: bool)

  /** Strictly increasing numbers, hence also pairwise distinct. */
  predicate Ascending(xs: seq<int>)
  {
    forall i, j :: 0 <= i < j < |xs| ==> xs[i] < xs[j]
  }

  /** No number occurs twice. */
  predicate Distinct(xs: seq<int>)
  {
    forall i, j :: 0 <= i < j < |xs| ==> xs[i] != xs[j]
  }

  /** The seat numbers of a list of seats, in the same order (`seats.map(seat => seat.seatNo)`). */
  function SeatNos(seats: seq<Seat>): (nos: seq<nat>)
    ensures |nos| == |seats|
    ensures forall i :: 0 <= i < |seats| ==> nos[i] == seats[i].seatNo
  {
    seq(|seats|, i requires 0 <= i < |seats| => seats[i].seatNo)
  }

  /** The store's ordering invariant: the records are sorted by strictly increasing seat number. */
  predicate SortedBySeatNo(seats: seq<Seat>)
  {
    Ascending(SeatNos(seats))
  }

  /** Some record numbered `n` exists and its booked flag equals `booked`. */
  predicate HasSeat(seats: seq<Seat>, n: int, booked: bool)
  {
    exists j :: 0 <= j < |seats| && seats[j].seatNo == n && seats[j].isBooked == booked
  }

  /** The unbooked records, in order (`seats.filter(seat => !seat.isBooked)`). */
  function Available(seats: seq<Seat>): (free: seq<Seat>)
    ensures |free| <= |seats|
    ensures forall x :: x in free ==> x in seats && !x.isBooked
  {
    if seats == [] then []
    else (if seats[0].isBooked then [] else [seats[0]]) + Available(seats[1..])
  }

  /** The numbers of the unbooked seats, in store order. */
  function UnbookedNos(seats: seq<Seat>): seq<nat>
  {
    SeatNos(Available(seats))
  }

  /**
   * The records whose number is in `requested` and whose booked flag equals `booked`
   * (for unbooking: `find({seatNo: {$in: seatNumbers}})` followed by `filter(seat => seat.isBooked)`).
   */
  function Matching(seats: seq<Seat>, requested: set<int>, booked: bool): (found: seq<Seat>)
    ensures |found| <= |seats|
    ensures forall x :: x in found ==> x in seats && x.seatNo in requested && x.isBooked == booked
  {
    if seats == [] then []
    else (if seats[0].seatNo in requested && seats[0].isBooked == booked then [seats[0]] else [])
         + Matching(seats[1..], requested, booked)
  }

  /** The set of numbers occurring in a request list. */
  function Elements(nos: seq<int>): set<int>
  {
    set n | n in nos
  }

  /** Every record whose number is listed in `nos` gets booked flag `booked`; the rest are kept. */
  function SetFlag(seats: seq<Seat>, nos: seq<int>, booked: bool): seq<Seat>
  {
    seq(|seats|, i requires 0 <= i < |seats| =>
      if seats[i].seatNo in nos then seats[i].(isBooked := booked) else seats[i])
  }

  // ---------------------------------------------------------------------------------------
  // Structural facts about the filters

  lemma {:induction false} AvailableAppend(a: seq<Seat>, b: seq<Seat>)
    ensures Available(a + b) == Available(a) + Available(b)
  {
    if a == [] {
      assert a + b == b;
    } else {
      assert (a + b)[1..] == a[1..] + b;
      AvailableAppend(a[1..], b);
    }
  }

  lemma SeatNosAppend(a: seq<Seat>, b: seq<Seat>)
    ensures SeatNos(a + b) == SeatNos(a) + SeatNos(b)
  {
  }

  /** A number is among the unbooked numbers exactly when some unbooked record carries it. */
  lemma {:induction false} UnbookedNosMembership(seats: seq<Seat>, n: int)
    ensures n in UnbookedNos(seats) <==> HasSeat(seats, n, false)
  {
    if seats != [] {
      var head := if seats[0].isBooked then [] else [seats[0]];
      assert Available(seats) == head + Available(seats[1..]);
      SeatNosAppend(head, Available(seats[1..]));
      UnbookedNosMembership(seats[1..], n);
      if HasSeat(seats, n, false) {
        var j :| 0 <= j < |seats| && seats[j].seatNo == n && !seats[j].isBooked;
        if j > 0 {
          assert seats[1..][j - 1] == seats[j];
        }
      }
      if HasSeat(seats[1..], n, false) {
        var j :| 0 <= j < |seats[1..]| && seats[1..][j].seatNo == n && !seats[1..][j].isBooked;
        assert seats[j + 1] == seats[1..][j];
      }
    }
  }

  /** Filtering the sorted store keeps the unbooked numbers sorted. */
  lemma {:induction false} UnbookedNosAscending(seats: seq<Seat>)
    requires SortedBySeatNo(seats)
    ensures Ascending(UnbookedNos(seats))
  {
    if seats != [] {
      var rest := seats[1..];
      SortedSlice(seats, 1, |seats|);
      UnbookedNosAscending(rest);
      if !seats[0].isBooked {
        HeadBelowUnbooked(seats);
        PrependAscending(seats[0].seatNo, UnbookedNos(rest));
        SeatNosAppend([seats[0]], Available(rest));
        assert Available(seats) == [seats[0]] + Available(rest);
      } else {
        assert Available(seats) == Available(rest);
      }
    }
  }

  lemma HeadBelowUnbooked(seats: seq<Seat>)
    requires seats != [] && SortedBySeatNo(seats)
    ensures forall x :: x in UnbookedNos(seats[1..]) ==> seats[0].seatNo < x
  {
    var rest := seats[1..];
    forall x | x in UnbookedNos(rest) ensures seats[0].seatNo < x {
      UnbookedNosMembership(rest, x);
      var j :| 0 <= j < |rest| && rest[j].seatNo == x && !rest[j].isBooked;
      assert rest[j] == seats[j + 1];
      assert SeatNos(seats)[0] < SeatNos(seats)[j + 1];
    }
  }

  lemma PrependAscending(x: int, tail: seq<int>)
    requires Ascending(tail) && forall y :: y in tail ==> x < y
    ensures Ascending([x] + tail)
  {
    var nos := [x] + tail;
    forall i, j | 0 <= i < j < |nos| ensures nos[i] < nos[j] {
      assert nos[j] == tail[j - 1] && tail[j - 1] in tail;
      if i > 0 {
        assert nos[i] == tail[i - 1];
      }
    }
  }

  /** Any slice of a sorted list of seats is sorted. */
  lemma SortedSlice(seats: seq<Seat>, lo: nat, hi: nat)
    requires SortedBySeatNo(seats) && lo <= hi <= |seats|
    ensures SortedBySeatNo(seats[lo..hi])
  {
    var part := seats[lo..hi];
    forall i, j | 0 <= i < j < |part| ensures SeatNos(part)[i] < SeatNos(part)[j] {
      assert part[i] == seats[lo + i] && part[j] == seats[lo + j];
    }
  }

  // ---------------------------------------------------------------------------------------
  // Counting: the all-or-nothing check of unbooking and the bookkeeping of booking

  /** Removing a number that no record carries does not change what `Matching` finds. */
  lemma {:induction false} MatchingIgnoresAbsent(seats: seq<Seat>, requested: set<int>, m: int, booked: bool)
    requires forall j :: 0 <= j < |seats| ==> seats[j].seatNo != m
    ensures Matching(seats, requested, booked) == Matching(seats, requested - {m}, booked)
  {
    if seats != [] {
      MatchingIgnoresAbsent(seats[1..], requested, m, booked);
    }
  }

  /** In a sorted store, no later record carries the first record's number. */
  lemma HeadUnique(seats: seq<Seat>)
    requires seats != [] && SortedBySeatNo(seats)
    ensures forall j :: 1 <= j < |seats| ==> seats[j].seatNo != seats[0].seatNo
    ensures forall j :: 0 <= j < |seats[1..]| ==> seats[1..][j].seatNo != seats[0].seatNo
  {
    forall j | 1 <= j < |seats| ensures seats[j].seatNo != seats[0].seatNo {
      assert SeatNos(seats)[0] < SeatNos(seats)[j];
    }
  }

  /** Looking up a number other than the first record's is a lookup in the rest of the store. */
  lemma HasSeatInRest(seats: seq<Seat>, n: int, booked: bool)
    requires seats != [] && n != seats[0].seatNo
    ensures HasSeat(seats, n, booked) <==> HasSeat(seats[1..], n, booked)
  {
    var rest := seats[1..];
    if HasSeat(seats, n, booked) {
      var j :| 0 <= j < |seats| && seats[j].seatNo == n && seats[j].isBooked == booked;
      assert rest[j - 1] == seats[j];
    }
    if HasSeat(rest, n, booked) {
      var j :| 0 <= j < |rest| && rest[j].seatNo == n && rest[j].isBooked == booked;
      assert seats[j + 1] == rest[j];
    }
  }

  /** In a sorted store, the first record's number has the wanted flag iff that record has it. */
  lemma HasSeatAtHead(seats: seq<Seat>, booked: bool)
    requires seats != [] && SortedBySeatNo(seats)
    ensures HasSeat(seats, seats[0].seatNo, booked) <==> seats[0].isBooked == booked
  {
    HeadUnique(seats);
    if HasSeat(seats, seats[0].seatNo, booked) {
      var j :| 0 <= j < |seats| && seats[j].seatNo == seats[0].seatNo && seats[j].isBooked == booked;
      assert j == 0;
    }
  }

  /**
   * With unique seat numbers, at most one record is found per requested number, and one is
   * found for every requested number exactly when each names a record with the wanted flag.
   */
  lemma {:induction false} MatchingCount(seats: seq<Seat>, requested: set<int>, booked: bool)
    requires SortedBySeatNo(seats)
    ensures |Matching(seats, requested, booked)| <= |requested|
    ensures |Matching(seats, requested, booked)| == |requested| <==>
            forall n :: n in requested ==> HasSeat(seats, n, booked)
  {
    if seats == [] {
      assert forall n :: !HasSeat(seats, n, booked);
      if forall n :: n in requested ==> HasSeat(seats, n, booked) {
        assert forall n :: n !in requested;
        assert requested == {};
      }
    } else {
      var x, rest := seats[0], seats[1..];
      SortedSlice(seats, 1, |seats|);
      HeadUnique(seats);
      HasSeatAtHead(seats, booked);
      forall n | n != x.seatNo ensures HasSeat(seats, n, booked) <==> HasSeat(rest, n, booked) {
        HasSeatInRest(seats, n, booked);
      }
      var smaller := requested - {x.seatNo};
      MatchingIgnoresAbsent(rest, requested, x.seatNo, booked);
      MatchingCount(rest, smaller, booked);
      if x.seatNo in requested {
        assert |smaller| == |requested| - 1;
        if x.isBooked == booked {
          assert Matching(seats, requested, booked) == [x] + Matching(rest, requested, booked);
        } else {
          assert Matching(seats, requested, booked) == Matching(rest, requested, booked);
        }
      } else {
        assert smaller == requested;
        assert Matching(seats, requested, booked) == Matching(rest, requested, booked);
      }
    }
  }

  /** A list has at most as many distinct elements as entries, and exactly as many iff it has no repeats. */
  lemma {:induction false} ElementsCount(nos: seq<int>)
    ensures |Elements(nos)| <= |nos|
    ensures |Elements(nos)| == |nos| <==> Distinct(nos)
  {
    if nos != [] {
      var rest := nos[1..];
      ElementsCount(rest);
      assert Elements(nos) == {nos[0]} + Elements(rest) by {
        forall n ensures n in Elements(nos) <==> n in {nos[0]} + Elements(rest) {
          if n in nos && n != nos[0] {
            var i :| 0 <= i < |nos| && nos[i] == n;
            assert rest[i - 1] == n;
          }
        }
      }
      if nos[0] in rest {
        var i :| 0 <= i < |rest| && rest[i] == nos[0];
        assert nos[i + 1] == nos[0];
        assert !Distinct(nos);
        assert Elements(nos) == Elements(rest);
      } else {
        assert |Elements(nos)| == 1 + |Elements(rest)|;
        if Distinct(rest) {
          forall i, j | 0 <= i < j < |nos| ensures nos[i] != nos[j] {
            if i == 0 {
              assert nos[j] == rest[j - 1];
            } else {
              assert nos[i] == rest[i - 1] && nos[j] == rest[j - 1];
            }
          }
        } else {
          var i, j :| 0 <= i < j < |rest| && rest[i] == rest[j];
          assert nos[i + 1] == nos[j + 1];
        }
      }
    }
  }

  /** The records whose number is not listed in `nos`, in order. */
  function Unlisted(records: seq<Seat>, nos: seq<int>): (kept: seq<Seat>)
    ensures |kept| <= |records|
    ensures forall x :: x in kept ==> x in records && x.seatNo !in nos
  {
    if records == [] then []
    else (if records[0].seatNo in nos then [] else [records[0]]) + Unlisted(records[1..], nos)
  }

  /**
   * Setting the booked flag for the listed numbers removes from the unbooked records exactly
   * those that are listed, keeping the others in order; so the unbooked count drops by the
   * number of unbooked records that were listed.
   */
  lemma {:induction false} BookingRemovesFree(seats: seq<Seat>, nos: seq<int>)
    ensures Available(SetFlag(seats, nos, true)) == Unlisted(Available(seats), nos)
    ensures |Available(SetFlag(seats, nos, true))| + |Matching(seats, Elements(nos), false)| == |Available(seats)|
  {
    FreeAfterBooking(seats, nos);
    FreeCountAfterBooking(seats, nos);
  }

  lemma {:induction false} FreeAfterBooking(seats: seq<Seat>, nos: seq<int>)
    ensures Available(SetFlag(seats, nos, true)) == Unlisted(Available(seats), nos)
  {
    if seats != [] {
      var rest := seats[1..];
      FreeAfterBooking(rest, nos);
      var flagged := SetFlag(seats, nos, true);
      assert flagged[1..] == SetFlag(rest, nos, true);
      var free := Available(seats);
      if seats[0].isBooked {
        assert free == Available(rest);
      } else {
        assert free[0] == seats[0] && free[1..] == Available(rest);
        assert Unlisted(free, nos) ==
          (if seats[0].seatNo in nos then [] else [seats[0]]) + Unlisted(Available(rest), nos);
      }
    }
  }

  lemma {:induction false} FreeCountAfterBooking(seats: seq<Seat>, nos: seq<int>)
    ensures |Available(SetFlag(seats, nos, true))| + |Matching(seats, Elements(nos), false)| == |Available(seats)|
  {
    if seats != [] {
      FreeCountAfterBooking(seats[1..], nos);
      assert SetFlag(seats, nos, true) == [SetFlag(seats, nos, true)[0]] + SetFlag(seats[1..], nos, true);
    }
  }
}
