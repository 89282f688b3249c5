# Seat booking core, modelled in Dafny

The system is a small seat reservation service: 80 numbered seats in rows of seven, of which
seats 1 to 7 start out booked. Its seat controller creates that inventory once,
lists it, books a requested number of seats and unbooks a list of seat numbers. The booking
allocator works in two phases. It first takes the lowest row that still has enough unbooked
seats. If no row fits, it slides a window of the requested size over the ascending unbooked
seat numbers and takes the tightest window, the earliest one on ties.

The project has five modules, one per file:

- `Wrappers` (`wrappers.dfy`) holds the `Option` type. It stands for an absent request field
  and for the initial `Infinity` of the window search.
- `SeatModel` (`seat_model.dfy`) holds the seat record `Seat(seatNo, isBooked)`. It also holds
  the filters the controller applies to the seat list and the bulk flag update. Lemmas relate
  these to each other.
- `Allocation` (`allocation.dfy`) holds the two-phase allocator. It is stated as specification
  functions (`FirstFitFrom`, `RowPick`, `BestUpTo`, `BestWindow`, `Allocate`). The controller's
  row loop and sliding-window loop are methods proved against those functions. Lemmas say what
  an allocation guarantees.
- `SeatsController` (`seats_controller.dfy`) holds the endpoints, as the class `SeatStore`. Its
  field `seats` is the stored seat collection, kept sorted by seat number. `Generate`,
  `GetAll`, `Book` and `Unbook` update that field or read it. `Generate`, `Book` and `Unbook`
  answer with a datatype that has one constructor per non-error response the controller
  sends; `GetAll` returns the seat list itself. The file also has the lemmas about booking and
  unbooking outcomes.
- `Scenarios` (`scenarios.dfy`) holds worked examples on concrete stores.

Three behaviours of the controller are worth noting:

- `unbookSeats` takes a list of seat numbers. It checks that the number of booked records
  found equals the length of that list, so a list that repeats a number is rejected
  (`UnbookAcceptedIff`).
- `!numSeats` treats 0 like a missing count, so 0 gets the "number of seats required"
  response.
- An empty `seatNumbers` list is truthy in JavaScript. It passes the first guard and unbooks
  nothing (`EmptyUnbook`).

## Model

| member | source | states |
|---|---|---|
| SeatModel.SeatNos | controller/seats.controller.js:65 | the number list has one entry per record, and entry i is the number of record i |
| SeatModel.Available | controller/seats.controller.js:62 | the unbooked filter is no longer than its input, and every record it keeps is an unbooked record of the input |
| SeatModel.Matching | controller/seats.controller.js:125-128 | the records found for unbooking are records of the store whose number was requested and whose flag matches |
| SeatModel.UnbookedNos | controller/seats.controller.js:72-73 | definition: the seat numbers of the unbooked records, in store order (its meaning is stated by UnbookedNosMembership and UnbookedNosAscending) |
| SeatModel.SetFlag | controller/seats.controller.js:101-104 | definition: every record whose number is listed gets the given flag, the rest are kept (used for lines 101-104 with true and line 135 with false; stated by SetFlagEffect) |
| SeatModel.Unlisted | controller/seats.controller.js:101-104 | definition: the records of the input whose numbers are not listed, in input order (the free list after the commit loop of 101-104; used by BookingRemovesFree); its contract says every kept record is an unlisted record of the input |
| SeatModel.UnbookedNosMembership | controller/seats.controller.js:72-73 | a number is among the unbooked seat numbers exactly when the store has an unbooked seat with that number |
| SeatModel.UnbookedNosAscending | controller/seats.controller.js:43-73 | on a store sorted by seat number, the unbooked seat numbers are strictly ascending |
| SeatModel.MatchingCount | controller/seats.controller.js:125-129 | on a sorted store, the booked records found never outnumber the distinct requested numbers, and they equal them exactly when every requested number names a booked seat |
| SeatModel.ElementsCount | controller/seats.controller.js:129 | a request list has at most as many distinct numbers as entries, with equality exactly when it has no repeats |
| SeatModel.BookingRemovesFree | controller/seats.controller.js:100-106 | after booking a list of numbers, the unbooked records are the previously unbooked records whose numbers are not listed, in the same order; so the free count drops by the number of free records listed |
| Allocation.TotalRows | controller/seats.controller.js:46 | definition: `Math.ceil(totalSeats / 7)` in integer arithmetic (stated by TotalRowsIsCeiling) |
| Allocation.RowSlice | controller/seats.controller.js:52 | definition: the index slice of row `row`, clamped at the end of the list as `slice` clamps |
| Allocation.RowPick | controller/seats.controller.js:51-68 | definition: the first k unbooked numbers of the lowest fitting row, or none (stated by RowPhaseChoice and RowPickSound) |
| Allocation.RowFits | controller/seats.controller.js:62-64 | definition: the index slice of row `row` has at least k unbooked records |
| Allocation.Spread | controller/seats.controller.js:82 | definition: the absolute difference between the first and last entry of a window (stated by SpreadOfAscending) |
| Allocation.IsBestWindow | controller/seats.controller.js:81-91 | definition: window i exists, no window has a smaller spread, and every earlier window has a strictly larger one |
| Allocation.Allocate | controller/seats.controller.js:48-97 | definition: the row pick, else the best window, else failure (stated by AllocateSound, AllocateFailsIff and FallbackChoice) |
| Allocation.TotalRowsIsCeiling | controller/seats.controller.js:44-46 | the row count is the least number of rows of seven that holds every seat |
| Allocation.FirstFitFrom | controller/seats.controller.js:51-68 | the row found is the lowest row at or after the start with at least k unbooked seats, and no row in range fits when none is found |
| Allocation.BestUpTo | controller/seats.controller.js:81-91 | the chosen window has the least spread of the windows scanned so far, and every earlier window is strictly wider |
| Allocation.BestWindow | controller/seats.controller.js:71-91 | a window is found exactly when at least k numbers exist, and it is the earliest window of least spread over all windows |
| Allocation.RowPhase | controller/seats.controller.js:48-68 | the row loop returns the first k unbooked numbers of the lowest fitting row, or an empty list when no row fits |
| Allocation.ClosestWindow | controller/seats.controller.js:75-91 | the sliding-window loop returns the earliest window of least spread, or an empty list when fewer than k numbers exist |
| Allocation.BestUpToStep | controller/seats.controller.js:84-87 | proof helper (unfolds `BestUpTo` one step): one more window replaces the best so far only when it is strictly tighter |
| Allocation.LastWindow | controller/seats.controller.js:81 | proof helper (unfolds `BestWindow`): the loop's last window index is the last one the overall best window ranges over |
| Allocation.RowWithinStore | controller/seats.controller.js:52-73 | a row's unbooked seat numbers are unbooked seat numbers of the whole store, so a row never has more of them |
| Allocation.RowPhaseChoice | controller/seats.controller.js:51-68 | when row r is the lowest row with at least k unbooked seats, the allocation is the first k unbooked numbers of row r |
| Allocation.SpreadOfAscending | controller/seats.controller.js:82 | on an ascending list, the absolute difference the loop measures is the last entry of the window minus the first |
| Allocation.FallbackChoice | controller/seats.controller.js:71-97 | when no row fits and at least k seats are unbooked, the allocation is k consecutive unbooked numbers forming the earliest window of least spread |
| Allocation.NoRowMeansNoPick | controller/seats.controller.js:71 | when no row fits, the row phase leaves the booked list empty |
| Allocation.AllocateByRow | controller/seats.controller.js:64-66 | proof helper (the row branch of `Allocate`): a row pick has exactly k numbers and is the allocation |
| Allocation.AllocateByWindow | controller/seats.controller.js:71-97 | proof helper (the window branch of `Allocate`): without a row pick, the allocation is the best window when there is one and fails otherwise |
| Allocation.UnbookedSpread | controller/seats.controller.js:82 | on a sorted store, a window's spread is its last unbooked number minus its first |
| Allocation.RowPickSound | controller/seats.controller.js:62-65 | a row pick has k ascending numbers, each an unbooked seat number of the store |
| Allocation.WindowSound | controller/seats.controller.js:86 | on a sorted store the fallback window is strictly ascending (its length k and its membership in the unbooked numbers hold for any slice) |
| Allocation.TakenAreFree | controller/seats.controller.js:72-73 | a number taken from the unbooked numbers names an unbooked seat of the store |
| Allocation.AscendingDistinct | controller/seats.controller.js:65 | an ascending number list has no repeats |
| Allocation.AllocateSound | controller/seats.controller.js:48-97 | every successful allocation names exactly k distinct existing unbooked seats, in ascending order |
| Allocation.AllocateFailsIff | controller/seats.controller.js:51-110 | for k of at least 1, the allocation fails exactly when fewer than k seats are unbooked |
| SeatsController.IsInitialInventory | controller/seats.controller.js:8-12 | definition: 80 records numbered 1 to 80 in order, booked exactly for numbers 1 to 7 |
| SeatsController.BookOutcome | controller/seats.controller.js:39-41 | definition: a count of 0 gets the "number of seats required" response, otherwise the allocation decides between the booked seats (line 108) and "not available" (line 110); stated by BookingFailsIff and BookingTakesExactly |
| SeatsController.UnbookAccepted | controller/seats.controller.js:129 | definition: the number of booked records found equals the length of the request list (stated by UnbookAcceptedIff) |
| SeatsController.BuildInitialSeats | controller/seats.controller.js:8-12 | the generated inventory is 80 seats numbered 1 to 80, of which exactly seats 1 to 7 are booked |
| SeatsController.ChooseSeats | controller/seats.controller.js:48-97 | the controller's two phases together return the allocation, or an empty list when it fails |
| SeatsController.SeatStore.Generate | controller/seats.controller.js:6-17 | an empty store receives the initial inventory and reports it as created; a non-empty store is left unchanged and reports that seats already exist |
| SeatsController.SeatStore.GetAll | controller/seats.controller.js:26-29 | the listing returns the stored seats |
| SeatsController.SeatStore.Book | controller/seats.controller.js:36-111 | the response is the booking outcome of the old store; on success the chosen seats are booked and nothing else changes; on failure the store is unchanged |
| SeatsController.SeatStore.MarkBooked | controller/seats.controller.js:100-106 | every record whose number is listed becomes booked, and every other record is kept |
| SeatsController.SeatStore.Unbook | controller/seats.controller.js:116-137 | a missing list gets the 404 response; a list is unbooked exactly when it is accepted, and then every listed seat becomes free; otherwise the store is unchanged |
| SeatsController.InitialInventorySorted | controller/seats.controller.js:9-11 | the initial inventory is sorted by seat number, and a seat is booked exactly when its number is at most 7 |
| SeatsController.SetFlagEffect | controller/seats.controller.js:101-104 | the flag update keeps the length and every seat number, sets the flag of the listed seats and keeps every other record |
| SeatsController.BookingKeepsOrder | controller/seats.controller.js:100-106 | booking keeps the store sorted by seat number |
| SeatsController.UnbookingKeepsOrder | controller/seats.controller.js:135 | unbooking keeps the store sorted by seat number |
| SeatsController.BookingFailsIff | controller/seats.controller.js:39-110 | a count of 0 gets the "number of seats required" response; otherwise booking fails exactly when fewer seats than requested are unbooked |
| SeatsController.BookingTakesExactly | controller/seats.controller.js:100-106 | a successful booking names exactly the requested number of seats, all previously free and now booked; every other seat keeps its flag, and the free count drops by the requested number |
| SeatsController.ChosenWereFree | controller/seats.controller.js:100-104 | every record whose number was chosen from the free seats was unbooked before the booking |
| SeatsController.UnbookAcceptedIff | controller/seats.controller.js:125-132 | an unbooking list is accepted exactly when it has no repeats and every number in it names a booked seat |
| SeatsController.EmptyUnbook | controller/seats.controller.js:118-135 | an empty unbooking list is accepted and changes nothing |
| SeatsController.MatchingNone | controller/seats.controller.js:125-128 | with no requested numbers, no seat record is found |
| SeatsController.BookThenUnbookRestores | controller/seats.controller.js:100-135 | unbooking the seats a booking just took is accepted, restores the store exactly, and makes the same booking request give the same seats again |
| Scenarios.FirstBookingAfterGenerate | controller/seats.controller.js:8-65 | on the fresh inventory a request for five seats gets seats 8 to 12, the start of the second row |
| Scenarios.WindowTieGoesToEarliest | controller/seats.controller.js:81-91 | when two windows of the fallback tie on spread, the earlier one is booked |
| Scenarios.UnknownSeatRejects | controller/seats.controller.js:125-131 | an unbooking list that names a seat that does not exist is rejected as a whole |

## Left out

- HTTP transport: status codes and message strings are modelled as response constructors
  (`Created`, `AlreadyExist`, `Booked`, `MissingCount`, `NotAvailable`, `Unbooked`,
  `MissingNumbers`, `Invalid`), not as numbers and text.
- The store failure paths (the 500 responses and the `console.error` branch of
  `generateSeats`) are not modelled, because the in-memory store cannot fail.
- Asynchronous persistence is not modelled: the per-document `save` calls and the `updateMany`
  are single updates of the `seats` field, so a booking that fails half-way through saving is
  not represented.
- Concurrency is not modelled: two bookings that read the seats (line 43) before either saves
  (line 104) can double-book a seat in the controller. Here each request is atomic.
- JavaScript coercion of the request body is not modelled. `numSeats` is a natural number
  whose 0 stands for both "missing" and "0"; a string, negative or fractional `numSeats` is
  outside the model. `seatNumbers` is an optional list of integers: a negative or unknown
  number is inside the model and is rejected by the count check, as in the controller, while
  a non-array value or entries that are strings or fractions are outside the model.
- SeatsController.SeatStore.GetAll: returns the store in its sorted order, while `find()` with
  no sort promises no order.
- models/seats.model.js is not part of this model. The store invariant `Valid` (sorted
  strictly by seat number, so seat numbers are unique) stands in for the uniqueness of `seatNo`.
  Every endpoint keeps it.
- index.js, the routes and the "latest seats" controller (controller/latestSeats.controller.js)
  are not part of this model.
