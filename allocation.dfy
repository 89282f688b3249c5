/**
 * The two-phase seat allocator of the booking endpoint. First it looks for a row: the sorted
 * seats are cut into index slices of seven, and the first slice with enough unbooked seats is
 * used. If no row fits, it slides a window of the requested size over the sorted unbooked
 * numbers and takes the window with the smallest spread, the earliest one on ties.
 * The specification functions come first; the loop-based methods that mirror the controller
 * are proved against them, and the lemmas state what the allocation guarantees.
 */
module Allocation {
  import opened Wrappers
  import opened SeatModel

  /** Seats per row (`seatsPerRow`). */
  const SeatsPerRow: nat := 7

  function Min(a: int, b: int): int
  {
    if a <= b then a else b
  }

  function Abs(x: int): int
  {
    if x < 0 then -x else x
  }

  /** The number of rows, `Math.ceil(totalSeats / seatsPerRow)`. */
  function TotalRows(totalSeats: nat): nat
  {
    (totalSeats + SeatsPerRow - 1) / SeatsPerRow
  }

  /** `TotalRows` is the least number of rows of seven that holds every seat. */
  lemma TotalRowsIsCeiling(totalSeats: nat)
    ensures totalSeats <= TotalRows(totalSeats) * SeatsPerRow
    ensures TotalRows(totalSeats) == 0 || (TotalRows(totalSeats) - 1) * SeatsPerRow < totalSeats
  {
  }

  /** Row `row` (1-based) as an index slice of the sorted seats; `slice` clamps at the end. */
  function RowSlice(seats: seq<Seat>, row: nat): seq<Seat>
    requires 1 <= row
  {
    seats[Min((row - 1) * SeatsPerRow, |seats|)..Min(row * SeatsPerRow, |seats|)]
  }

  /** Row `row` has at least `k` unbooked seats. */
  predicate RowFits(seats: seq<Seat>, k: nat, row: nat)
    requires 1 <= row
  {
    |Available(RowSlice(seats, row))| >= k
  }

  /** The lowest row at or after `row` that fits, if any. */
  function FirstFitFrom(seats: seq<Seat>, k: nat, row: nat): (r: Option<nat>)
    requires 1 <= row
    ensures r.Some? ==> row <= r.value <= TotalRows(|seats|) && RowFits(seats, k, r.value)
    ensures r.Some? ==> forall q :: row <= q < r.value ==> !RowFits(seats, k, q)
    ensures r.None? ==> forall q :: row <= q <= TotalRows(|seats|) ==> !RowFits(seats, k, q)
    decreases TotalRows(|seats|) + 1 - row
  {
    if row > TotalRows(|seats|) then None
    else if RowFits(seats, k, row) then Some(row)
    else FirstFitFrom(seats, k, row + 1)
  }

  /** Row phase: the first `k` unbooked seat numbers of the lowest fitting row. */
  function RowPick(seats: seq<Seat>, k: nat): Option<seq<nat>>
  {
    match FirstFitFrom(seats, k, 1)
    case Some(r) => Some(UnbookedNos(RowSlice(seats, r))[..k])
    case None => None
  }

  /** The spread of the window of `k` entries of `nos` starting at index `i`, as the controller measures it. */
  function Spread(nos: seq<int>, k: nat, i: nat): int
    requires 1 <= k && i + k <= |nos|
  {
    Abs(nos[i] - nos[i + k - 1])
  }

  /** Window `i` has the smallest spread of all windows, and every earlier window is strictly wider. */
  predicate IsBestWindow(nos: seq<int>, k: nat, i: nat)
    requires 1 <= k
  {
    && i + k <= |nos|
    && (forall j :: 0 <= j && j + k <= |nos| ==> Spread(nos, k, i) <= Spread(nos, k, j))
    && (forall j :: 0 <= j < i ==> Spread(nos, k, j) > Spread(nos, k, i))
  }

  /**
   * The earliest window of least spread among the windows starting at 0..m-1, found the way the
   * controller's loop finds it: a later window replaces the current one only if strictly tighter.
   */
  function BestUpTo(nos: seq<int>, k: nat, m: nat): (i: nat)
    requires 1 <= k && 1 <= m && m + k - 1 <= |nos|
    ensures i < m
    ensures forall j :: 0 <= j < m ==> Spread(nos, k, i) <= Spread(nos, k, j)
    ensures forall j :: 0 <= j < i ==> Spread(nos, k, j) > Spread(nos, k, i)
  {
    if m == 1 then 0
    else
      var b := BestUpTo(nos, k, m - 1);
      if Spread(nos, k, m - 1) < Spread(nos, k, b) then m - 1 else b
  }

  /** Fallback phase: the start of the best window, or None when fewer than `k` numbers exist. */
  function BestWindow(nos: seq<int>, k: nat): (r: Option<nat>)
    requires 1 <= k
    ensures r.Some? <==> k <= |nos|
    ensures r.Some? ==> IsBestWindow(nos, k, r.value)
  {
    if k <= |nos| then Some(BestUpTo(nos, k, |nos| - k + 1)) else None
  }

  /** The whole allocation: the row phase, and the sliding window only when no row fits. */
  function Allocate(seats: seq<Seat>, k: nat): Option<seq<nat>>
    requires 1 <= k
  {
    match RowPick(seats, k)
    case Some(p) => Some(p)
    case None =>
      var nos := UnbookedNos(seats);
      match BestWindow(nos, k)
      case Some(i) => Some(nos[i..i + k])
      case None => None
  }

  // ---------------------------------------------------------------------------------------
  // The controller's loops

  /** The `for` loop over rows (controller lines 51-68); an empty result means that no row fits. */
  method RowPhase(allSeats: seq<Seat>, numSeats: nat) returns (bookedSeats: seq<nat>)
    requires 1 <= numSeats
    ensures RowPick(allSeats, numSeats).Some? ==> bookedSeats == RowPick(allSeats, numSeats).value
    ensures RowPick(allSeats, numSeats).None? ==> bookedSeats == []
  {
    var totalRows := (|allSeats| + SeatsPerRow - 1) / SeatsPerRow;
    bookedSeats := [];
    var row := 1;
    while row <= totalRows
      invariant 1 <= row <= totalRows + 1
      invariant bookedSeats == []
      invariant FirstFitFrom(allSeats, numSeats, 1) == FirstFitFrom(allSeats, numSeats, row)
    {
      var rowSeats := RowSlice(allSeats, row);
      var availableSeats := Available(rowSeats);
      if |availableSeats| >= numSeats {
        bookedSeats := SeatNos(availableSeats[..numSeats]);
        break;
      }
      row := row + 1;
    }
  }

  /**
   * The sliding-window `while` loop (controller lines 75-91). `minDiff` is None before the first
   * window, standing for the initial `Infinity`.
   */
  method ClosestWindow(unbookedSeatNos: seq<nat>, numSeats: nat) returns (closestSeats: seq<nat>)
    requires 1 <= numSeats
    ensures BestWindow(unbookedSeatNos, numSeats).Some? ==>
              var i := BestWindow(unbookedSeatNos, numSeats).value;
              closestSeats == unbookedSeatNos[i..i + numSeats]
    ensures BestWindow(unbookedSeatNos, numSeats).None? ==> closestSeats == []
  {
    var startIndex := 0;
    var endIndex := numSeats - 1;
    var minDiff: Option<int> := None;
    closestSeats := [];
    ghost var best := 0;
    while endIndex < |unbookedSeatNos|
      invariant endIndex == startIndex + numSeats - 1
      invariant startIndex + numSeats <= |unbookedSeatNos| + 1 || startIndex == 0
      invariant startIndex == 0 <==> minDiff.None?
      invariant startIndex == 0 ==> closestSeats == []
      invariant startIndex > 0 ==>
                  && best == BestUpTo(unbookedSeatNos, numSeats, startIndex)
                  && minDiff == Some(Spread(unbookedSeatNos, numSeats, best))
                  && closestSeats == unbookedSeatNos[best..best + numSeats]
    {
      var diff := Abs(unbookedSeatNos[startIndex] as int - unbookedSeatNos[endIndex]);
      assert diff == Spread(unbookedSeatNos, numSeats, startIndex);
      if startIndex > 0 {
        BestUpToStep(unbookedSeatNos, numSeats, startIndex);
      }
      if minDiff.None? || diff < minDiff.value {
        minDiff := Some(diff);
        closestSeats := unbookedSeatNos[startIndex..endIndex + 1];
        best := startIndex;
      }
      assert best == BestUpTo(unbookedSeatNos, numSeats, startIndex + 1);
      startIndex := startIndex + 1;
      endIndex := endIndex + 1;
    }
    if startIndex > 0 {
      LastWindow(unbookedSeatNos, numSeats);
    }
  }

  /** One more window: it replaces the best so far only if strictly tighter. */
  lemma BestUpToStep(nos: seq<int>, k: nat, m: nat)
    requires 1 <= k && 1 <= m && m + k <= |nos|
    ensures BestUpTo(nos, k, m + 1) ==
            if Spread(nos, k, m) < Spread(nos, k, BestUpTo(nos, k, m)) then m else BestUpTo(nos, k, m)
  {
  }

  /** The best window overall is the best among all `|nos| - k + 1` windows. */
  lemma LastWindow(nos: seq<int>, k: nat)
    requires 1 <= k <= |nos|
    ensures BestWindow(nos, k) == Some(BestUpTo(nos, k, |nos| - k + 1))
  {
  }

  // ---------------------------------------------------------------------------------------
  // What the allocation guarantees

  /** A row's unbooked seats are unbooked seats of the store, so a row never has more of them. */
  lemma RowWithinStore(seats: seq<Seat>, row: nat)
    requires 1 <= row
    ensures |UnbookedNos(RowSlice(seats, row))| <= |UnbookedNos(seats)|
    ensures forall n :: n in UnbookedNos(RowSlice(seats, row)) ==> n in UnbookedNos(seats)
  {
    var lo, hi := Min((row - 1) * SeatsPerRow, |seats|), Min(row * SeatsPerRow, |seats|);
    var pre, mid, post := seats[..lo], seats[lo..hi], seats[hi..];
    assert seats == pre + mid + post;
    AvailableAppend(pre + mid, post);
    AvailableAppend(pre, mid);
    SeatNosAppend(Available(pre) + Available(mid), Available(post));
    SeatNosAppend(Available(pre), Available(mid));
  }

  /**
   * The row phase takes the lowest row with at least `k` unbooked seats, and from it the first
   * `k` unbooked seat numbers.
   */
  lemma RowPhaseChoice(seats: seq<Seat>, k: nat, r: nat)
    requires 1 <= k && 1 <= r <= TotalRows(|seats|) && RowFits(seats, k, r)
    requires forall q :: 1 <= q < r ==> !RowFits(seats, k, q)
    ensures Allocate(seats, k) == Some(UnbookedNos(RowSlice(seats, r))[..k])
  {
  }

  /** On an ascending list the controller's absolute spread is the last entry minus the first. */
  lemma SpreadOfAscending(nos: seq<int>, k: nat)
    requires 1 <= k && Ascending(nos)
    ensures forall j :: 0 <= j && j + k <= |nos| ==> Spread(nos, k, j) == nos[j + k - 1] - nos[j]
  {
    forall j | 0 <= j && j + k <= |nos| ensures Spread(nos, k, j) == nos[j + k - 1] - nos[j] {
      if k > 1 {
        assert nos[j] < nos[j + k - 1];
      }
    }
  }

  /**
   * When no row fits but at least `k` seats are unbooked, the result is a window of `k`
   * consecutive entries of the unbooked numbers whose spread is the smallest, and every earlier
   * window is strictly wider (UnbookedSpread: on a sorted store the spread is last minus first).
   */
  lemma FallbackChoice(seats: seq<Seat>, k: nat)
    requires 1 <= k
    requires forall q :: 1 <= q <= TotalRows(|seats|) ==> !RowFits(seats, k, q)
    requires k <= |UnbookedNos(seats)|
    ensures exists i: nat :: IsBestWindow(UnbookedNos(seats), k, i) &&
                             Allocate(seats, k) == Some(UnbookedNos(seats)[i..i + k])
  {
    NoRowMeansNoPick(seats, k);
    AllocateByWindow(seats, k);
  }

  /** When no row fits, the row phase yields nothing. */
  lemma NoRowMeansNoPick(seats: seq<Seat>, k: nat)
    requires forall q :: 1 <= q <= TotalRows(|seats|) ==> !RowFits(seats, k, q)
    ensures RowPick(seats, k).None?
  {
  }

  /** A row pick has exactly `k` entries and is the allocation. */
  lemma AllocateByRow(seats: seq<Seat>, k: nat)
    requires 1 <= k && RowPick(seats, k).Some?
    ensures |RowPick(seats, k).value| == k
    ensures Allocate(seats, k) == RowPick(seats, k)
  {
  }

  /** Without a row pick, the allocation is the best window, if there is one. */
  lemma AllocateByWindow(seats: seq<Seat>, k: nat)
    requires 1 <= k && RowPick(seats, k).None?
    ensures BestWindow(UnbookedNos(seats), k).Some? ==>
              var i := BestWindow(UnbookedNos(seats), k).value;
              Allocate(seats, k) == Some(UnbookedNos(seats)[i..i + k])
    ensures BestWindow(UnbookedNos(seats), k).None? ==> Allocate(seats, k).None?
  {
  }

  /**
   * On a sorted store the spread the window search compares is the last unbooked number of the
   * window minus the first.
   */
  lemma UnbookedSpread(seats: seq<Seat>, k: nat)
    requires 1 <= k && SortedBySeatNo(seats)
    ensures forall j :: 0 <= j && j + k <= |UnbookedNos(seats)| ==>
              Spread(UnbookedNos(seats), k, j) == UnbookedNos(seats)[j + k - 1] as int - UnbookedNos(seats)[j]
  {
    UnbookedNosAscending(seats);
    SpreadOfAscending(UnbookedNos(seats), k);
  }

  /** The row phase yields `k` ascending numbers of unbooked seats. */
  lemma RowPickSound(seats: seq<Seat>, k: nat)
    requires SortedBySeatNo(seats) && RowPick(seats, k).Some?
    ensures var p := RowPick(seats, k).value;
            |p| == k && Ascending(p) && forall n :: n in p ==> n in UnbookedNos(seats)
  {
    var r := FirstFitFrom(seats, k, 1).value;
    var row := RowSlice(seats, r);
    SortedSlice(seats, Min((r - 1) * SeatsPerRow, |seats|), Min(r * SeatsPerRow, |seats|));
    UnbookedNosAscending(row);
    RowWithinStore(seats, r);
    var p := RowPick(seats, k).value;
    assert p == UnbookedNos(row)[..k];
    forall n | n in p ensures n in UnbookedNos(seats) {
      assert n in UnbookedNos(row);
    }
  }

  /** The fallback phase yields `k` consecutive entries of the ascending unbooked numbers. */
  lemma WindowSound(seats: seq<Seat>, k: nat)
    requires 1 <= k && SortedBySeatNo(seats) && BestWindow(UnbookedNos(seats), k).Some?
    ensures var nos := UnbookedNos(seats);
            var i := BestWindow(nos, k).value;
            |nos[i..i + k]| == k && Ascending(nos[i..i + k]) && forall n :: n in nos[i..i + k] ==> n in nos
  {
    UnbookedNosAscending(seats);
  }

  /** Numbers taken from the unbooked numbers name unbooked seats. */
  lemma TakenAreFree(seats: seq<Seat>, p: seq<nat>)
    requires forall n :: n in p ==> n in UnbookedNos(seats)
    ensures forall n :: n in p ==> HasSeat(seats, n, false)
  {
    forall n | n in p ensures HasSeat(seats, n, false) {
      UnbookedNosMembership(seats, n);
    }
  }

  /** Ascending numbers are distinct. */
  lemma AscendingDistinct(p: seq<int>)
    requires Ascending(p)
    ensures Distinct(p)
  {
  }

  /**
   * Every successful allocation names exactly `k` distinct seats, in ascending order, each of
   * which is an existing unbooked seat.
   */
  lemma AllocateSound(seats: seq<Seat>, k: nat)
    requires 1 <= k && SortedBySeatNo(seats)
    ensures Allocate(seats, k).Some? ==>
              var p := Allocate(seats, k).value;
              && |p| == k && Ascending(p) && Distinct(p)
              && forall n :: n in p ==> HasSeat(seats, n, false)
  {
    if Allocate(seats, k).Some? {
      var p := Allocate(seats, k).value;
      if RowPick(seats, k).Some? {
        RowPickSound(seats, k);
      } else {
        WindowSound(seats, k);
      }
      TakenAreFree(seats, p);
      AscendingDistinct(p);
    }
  }

  /** With `k >= 1`, the allocation fails exactly when fewer than `k` seats are unbooked. */
  lemma AllocateFailsIff(seats: seq<Seat>, k: nat)
    requires 1 <= k
    ensures Allocate(seats, k).None? <==> |UnbookedNos(seats)| < k
  {
    var f := FirstFitFrom(seats, k, 1);
    if f.Some? {
      RowWithinStore(seats, f.value);
    }
  }
}
