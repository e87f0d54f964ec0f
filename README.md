# GIC cinema booking system — seat allocation and booking ledger in Dafny

This project models the core of the GIC cinema booking system.

A movie has a title and a grid of at most 26 rows (lettered `A`..`Z`) by at
most 50 seats per row (numbered from 1). It also holds a ledger of bookings.
Each booking has an ID (`GIC0001`, `GIC0002`, …), a status (`R` reserved or
`B` booked) and a list of seat labels.

The model covers:

- the two-dimensional seat universe and its occupancy. Only `B` bookings block a seat.
- ranking the seats of a row by centrality. Ties go to the rightmost seat.
- three allocation policies:
  - the default policy: row by row from `A`, each row by centrality, then a prefix.
  - the anchored policy: fill right of the anchor seat, then the later rows, then left of the anchor, then the earlier rows nearest first.
  - the contiguous-block policy: the most central window of k consecutive free seats in the first row that has one, with a row-by-row fallback.
- booking-ID generation and status changes: confirm, unbook, and view.
- the `Movie`/`Booking` ledger classes.
- parsing the movie definition, counting available seats, and the glyph display map.
- the input validators.

Seats are pairs `Seat(row index, column)`. Labels such as `"C12"` appear only
where the program reads user text (`Seats.Label`, `Seats.ParseLabel`, proved
inverse). Every other operation works on `Seat` values. Because `Label` is
injective, comparing labels and comparing seats give the same answers.

The allocator reads a movie as its record `MovieRec`, the value
`Movie.to_dict()` produces. Operations that change a movie in place are methods
of the classes `MovieClasses.Movie` and `MovieClasses.Booking`. Each of them is
proved equal to a specification function on records, and the properties are
proved as lemmas about those functions.

The float centrality is modelled exactly:

- `seat_sort_order` uses a distance with half-units. It is doubled into an integer (`Ranking.Dist2`), and the sort key becomes (doubled distance, −column, row).
- `block_center` returns a float mean. It is modelled by a `real` (`AdvancedSeating.BlockCenter`).
- `_find_best_block_in_row` compares integer sums.

Modules: `Wrappers` (Option), `Seqs` (sequence facts), `Text` (Python string
built-ins), `Seats`, `MovieClasses`, `Grid`, `Ranking`, `DefaultSeating`,
`CustomSeating`, `AdvancedSeating`, `Reservations`, `CheckBooking`,
`MovieOps`, `Validation`.

## Model

| member | source | states |
|---|---|---|
| Seats.ParseLabelOfLabel | src/booking.py:182 | reading a seat label back (`s[0]`, `int(s[1:])`) gives the seat it names |
| Seats.LabelInjective | src/booking.py:113 | different seats have different labels |
| Seats.ParseLabel | src/validation.py:96 | a label is read as row letter `s[0]` and number `int(s[1:])`, as src/booking.py:182 reads it, only in the canonical spelling a seat map lists; the seat it names is in rows `A`..`Z` and its label is exactly the input |
| MovieClasses.FindFirst | src/movie_classes.py:117-128 | `None` iff no booking has the ID; otherwise the index of the first booking with that ID |
| MovieClasses.RemoveAll | src/movie_classes.py:131-137 | keeps exactly the bookings whose ID differs, never growing the list |
| MovieClasses.RemoveAllConcat | src/movie_classes.py:131-137 | removal distributes over concatenation, so the survivors keep their original order |
| MovieClasses.RemoveAllAbsent | src/movie_classes.py:131-137 | removing an absent ID changes nothing |
| MovieClasses.SetStatus | src/booking.py:93-95 | only the first booking with the ID gets the new status; IDs and seats of all bookings are kept; an unknown ID changes nothing |
| MovieClasses.SetStatusFound | src/booking.py:93-95 | with the first match at `i`, the update is exactly `bs[i := bs[i].(status := s)]` |
| MovieClasses.SetStatusTwice | src/check_booking.py:52-54 | setting a status twice equals setting the last one (unbook followed by confirm) |
| MovieClasses.FindFirstSameIds | src/movie_classes.py:117-128 | lookup depends on the IDs alone, so a status update never moves the match |
| MovieClasses.Booking.constructor | src/movie_classes.py:10-20 | the new booking holds the ID, status and its own copy of the seats |
| MovieClasses.Booking.FromRecord | src/movie_classes.py:22-43 | `Booking.from_dict(b.to_dict())` rebuilds the same record |
| MovieClasses.Records | src/movie_classes.py:96-107 | `to_dict` of the ledger: one record per booking, element-wise |
| MovieClasses.KeepOthersRecords | src/movie_classes.py:131-137 | the objects that `remove_booking` keeps have exactly `RemoveAll`'s records |
| MovieClasses.Movie.constructor | src/movie_classes.py:65-77 | the new movie holds the given title, dimensions and bookings |
| MovieClasses.Movie.FromRecord | src/movie_classes.py:79-107 | `Movie.from_dict(d).to_dict() == d`, with fresh booking objects and no object listed twice |
| MovieClasses.Movie.AddBooking | src/movie_classes.py:109-115 | appends at the end, leaving earlier bookings and the dimensions unchanged |
| MovieClasses.Movie.GetBooking | src/movie_classes.py:117-128 | returns the first booking whose ID matches, or null when none does |
| MovieClasses.Movie.RemoveBooking | src/movie_classes.py:131-137 | the ledger becomes `RemoveAll` of the old ledger, keeping the other objects |
| MovieClasses.CopyBooking | src/movie_classes.py:22-53 | `from_dict(b.to_dict())` is a new object that `__eq__` finds equal to `b`, in both directions |
| MovieClasses.CopyMovie | src/movie_classes.py:79-107 | `from_dict(m.to_dict())` has the same dictionary form; each booking is a new object equal under `__eq__` to the one at its position |
| Grid.RowCenter | src/booking.py:132-145 | `sp/2` for even rows, `(sp+1)/2` for odd ones, always a seat of the row |
| Grid.RowSeatsElements | src/booking.py:113 | a row lists its columns `1..sp` once each, in ascending order |
| Grid.SeatMap | src/booking.py:98-114 | one row per row index, row `i` holding that row's seats 1 to `seats_per_row` in order; the labels are `Grid.BuildSeatMap` |
| Grid.BuildSeatMap | src/booking.py:98-114 | one row per letter; cell `j` of row `i` is labelled with the letter followed by `j+1` |
| Grid.Occupied | src/booking.py:116-130 | defines `get_booked_seats` on the booking records; its meaning is `Grid.OccupiedMeans` |
| Grid.OccupiedMeans | src/booking.py:116-130 | a seat is booked iff some `B` booking lists it; `R` bookings add nothing |
| Grid.GetBookedSeats | src/booking.py:116-130 | the loop accumulates exactly the occupied set |
| Grid.FreeSeats | src/booking.py:127 | free seats are the grid seats that no `B` booking holds |
| Grid.Unassigned | src/booking_advanced.py:109 | keeps exactly the seats that are neither booked nor already assigned |
| Grid.UnassignedDistinct | src/booking_advanced.py:109 | filtering a duplicate-free row keeps it duplicate-free |
| Ranking.Dist2IsTwiceDistance | src/booking.py:183-197 | doubled distance equals twice the float distance, with the two centre seats of an even row at 0 |
| Ranking.RowOrderIsLabelOrder | src/booking.py:193-198 | breaking ties on the label string orders seats by row letter |
| Ranking.KeyLeTotalOrder | src/booking.py:193-198 | the sort key is a total order: total, antisymmetric and transitive |
| Ranking.InsertMultiset | src/booking.py:198 | an insertion adds exactly one element |
| Ranking.InsertSorted | src/booking.py:198 | inserting into a sorted list keeps it sorted |
| Ranking.SortSpec | src/booking.py:198-199 | the sort yields a sorted permutation of its input |
| Ranking.SortedUnique | src/booking.py:198-199 | there is only one sorted permutation, so the order is fully determined |
| Ranking.SortElements | src/booking.py:198-199 | the sort keeps the same members and length, and keeps lists duplicate-free |
| Ranking.SeatSortOrder | src/booking.py:167-202 | defines `seat_sort_order` as the centrality sort followed by the `take` slice; its properties are `Ranking.SeatSortOrderSpec`, `Ranking.SeatSortOrderAll` and `Ranking.SeatSortOrderBest` |
| Ranking.SeatSortOrderSpec | src/booking.py:167-202 | without `take`, a permutation; with a positive `take`, that many seats (or all); always sorted and drawn from the input |
| Ranking.SeatSortOrderAll | src/booking.py:167-202 | without `take`, same members and length; duplicate-free input stays duplicate-free |
| Ranking.SeatSortOrderBest | src/booking.py:199-202 | every seat kept by `take` ranks no worse than every seat dropped |
| Ranking.SortSeats | src/booking.py:167-202 | the insertion loop computes `SeatSortOrder` |
| DefaultSeating.OrderedFree | src/booking.py:147-165 | defines `ordered_free_seats`: each row's unbooked seats by centrality, rows front to back; proved by `DefaultSeating.OrderedFreeElements` and `DefaultSeating.OrderedFreeOfGrid` |
| DefaultSeating.OrderedFreeElements | src/booking.py:147-165 | the list holds exactly the unbooked seats of the map |
| DefaultSeating.OrderedFreeSeatMap | src/booking.py:147-165 | the loop computes the row-by-row concatenation of centrality-sorted free seats |
| DefaultSeating.GridRowBlock | src/booking.py:160-164 | each row's contribution is duplicate-free, sorted by centrality, and holds exactly its free seats |
| DefaultSeating.OrderedFreeOfGrid | src/booking.py:147-165 | for the real grid: a duplicate-free permutation of the free seats, row A first, each row by centrality |
| DefaultSeating.DefaultSeats | src/booking.py:204-217 | defines `default_seating` as the first `num_tickets` seats of that list; proved by `DefaultSeating.DefaultSeatsBest` |
| DefaultSeating.DefaultSeatsBest | src/booking.py:204-217 | `min(n, free)` distinct free seats; every chosen seat precedes every free seat left out |
| DefaultSeating.DefaultSeating | src/booking.py:204-217 | the method returns the first `n` seats of the ordered free list, duplicate-free and free |
| CustomSeating.FillRightElements | src/booking.py:219-229 | the anchor row's unassigned free seats from the anchor rightwards, once each |
| CustomSeating.FillLeftElements | src/booking.py:244-254 | the anchor row's unassigned free seats left of the anchor, once each; their order is `CustomSeating.FillLeftDescending` |
| CustomSeating.UnassignedOrder | src/booking.py:224-228 | filtering keeps ascending column order |
| CustomSeating.UnassignedOrderDown | src/booking.py:250-254 | filtering keeps descending column order |
| CustomSeating.FillLeftDescending | src/booking.py:250 | the leftward fill goes from the seat next to the anchor down to seat 1, column numbers strictly decreasing |
| CustomSeating.FillRightInRow | src/booking.py:219-229 | the loop computes the rightward fill |
| CustomSeating.FillLeftInRow | src/booking.py:244-254 | the loop computes the leftward fill |
| CustomSeating.FillNextRowsByCentrality | src/booking.py:231-242 | the loop appends each later row's free seats by centrality, avoiding earlier picks; order in `CustomSeating.NextRowsOrder`, contents in `CustomSeating.NextRowsElements` |
| CustomSeating.FillPrevRowsByCentrality | src/booking.py:256-267 | the loop appends each earlier row, nearest first, by centrality; order in `CustomSeating.PrevRowsOrder`, contents in `CustomSeating.PrevRowsElements` |
| CustomSeating.NextRowsElements | src/booking.py:231-242 | the later-rows phase holds exactly the unbooked, unassigned seats of those rows |
| CustomSeating.PrevRowsElements | src/booking.py:256-267 | the earlier-rows phase holds exactly the unbooked, unassigned seats of those rows |
| CustomSeating.NextRowsDistinct | src/booking.py:231-242 | the later-rows phase repeats no seat |
| CustomSeating.PrevRowsDistinct | src/booking.py:256-267 | the earlier-rows phase repeats no seat |
| CustomSeating.NextRowsOrder | src/booking.py:231-242 | rows behind the anchor come in ascending row order, and the seats of one row by centrality (`KeyLe`) |
| CustomSeating.PrevRowsOrder | src/booking.py:256-267 | rows in front of the anchor come nearest row first, and the seats of one row by centrality (`KeyLe`) |
| CustomSeating.CustomSeats | src/booking.py:269-310 | defines `custom_seating` on an anchor of the grid: the first phase whose list is long enough, cut to `num_tickets`; proved by the lemmas below |
| CustomSeating.StopAfterRight | src/booking.py:289-293 | when the right fill suffices, the answer is its first `n` seats |
| CustomSeating.StopAfterNext | src/booking.py:295-299 | when the later rows complete it, the answer is the first `n` seats so far |
| CustomSeating.StopAfterLeft | src/booking.py:301-305 | when the left fill completes it, the answer is the first `n` seats so far |
| CustomSeating.StopAfterPrev | src/booking.py:307-310 | otherwise the answer is the first `n` of all four phases |
| CustomSeating.PhasesGrow | src/booking.py:286-310 | each phase only extends the assigned list |
| CustomSeating.CustomSeatsPrefix | src/booking.py:269-310 | the early returns amount to the first `n` seats of the four phases |
| CustomSeating.AfterPrevFacts | src/booking.py:269-310 | the four phases together repeat no seat and cover right-of-anchor, later rows, left-of-anchor and earlier rows |
| CustomSeating.CustomOrder | src/booking.py:286-310 | the four phases are concatenated in source order: anchor row rightwards (columns ascending), later rows front to back, anchor row leftwards (columns descending), earlier rows nearest first |
| CustomSeating.CustomWhole | src/booking.py:269-310 | for an anchor on the grid, the phases list every free seat exactly once |
| CustomSeating.CustomSeatsCount | src/booking.py:269-310 | `min(n, free)` distinct free seats: never a booked seat, never a repeat |
| CustomSeating.CustomAnchorFirst | src/booking.py:286-293 | a free anchor seat always comes first |
| CustomSeating.CustomRightSuffices | src/booking.py:286-293 | if the right fill suffices, the result is anchor-row seats in ascending column order |
| CustomSeating.ParseAnchor | src/booking.py:283-287 | an anchor that parses lies in a row of the seat map; `CustomSeating.ParseAnchorOfLabel` shows every seat label parses back |
| CustomSeating.ParseAnchorOfLabel | src/booking.py:283-287 | a label of a row of the movie parses back to its seat |
| CustomSeating.CustomSeating | src/booking.py:269-310 | an unreadable anchor gives no result; otherwise the result is the four-phase prefix |
| CustomSeating.AssignFromAnchor | src/booking.py:286-310 | the phase-by-phase method with its early returns computes `CustomSeats` |
| AdvancedSeating.MeanDistance | src/booking_advanced.py:47-49 | `|c − total/n|` as a non-negative real, scaled: `d·n = |c·n − total|` |
| AdvancedSeating.BlockCenter | src/booking_advanced.py:40-49 | infinite exactly for the empty block; otherwise the non-negative distance of the row centre from the mean seat number |
| AdvancedSeating.Runs | src/booking_advanced.py:51-67 | empty input gives no run, and every run is non-empty |
| AdvancedSeating.RunsFlatten | src/booking_advanced.py:51-67 | concatenating the runs gives back the input |
| AdvancedSeating.RunsInside | src/booking_advanced.py:59-61 | inside a run consecutive seat numbers differ by exactly 1 |
| AdvancedSeating.RunsBetween | src/booking_advanced.py:62-64 | between adjacent runs they do not |
| AdvancedSeating.FindContiguousBlocks | src/booking_advanced.py:51-67 | the loop computes `Runs` |
| AdvancedSeating.BestIndex | src/booking_advanced.py:144-147 | the index of the first candidate that no other beats under the sort key |
| AdvancedSeating.CandidatesEmpty | src/booking_advanced.py:127-143 | no candidate window iff every run is shorter than k |
| AdvancedSeating.CandidatesFrom | src/booking_advanced.py:126-141 | every candidate is a length-k window of some run |
| AdvancedSeating.CandidatesHave | src/booking_advanced.py:126-141 | every window of every long enough run is a candidate |
| AdvancedSeating.BestBlockNone | src/booking_advanced.py:118-147 | `None` exactly when no run has length ≥ k |
| AdvancedSeating.BestBlockShape | src/booking_advanced.py:126-147 | a result is k consecutive available seats of one row |
| AdvancedSeating.BestBlockOptimal | src/booking_advanced.py:133-147 | no window beats the result: least sum of distances, then highest rightmost seat |
| AdvancedSeating.BestBlockLength | src/booking_advanced.py:118-147 | a result has exactly k seats |
| AdvancedSeating.BlockWindows | src/booking_advanced.py:128-141 | the window loop builds the candidate list of a run |
| AdvancedSeating.ScoreWindow | src/booking_advanced.py:129-141 | one window's sum of distances and rightmost seat |
| AdvancedSeating.BestBlockInRow | src/booking_advanced.py:118-147 | defines `_find_best_block_in_row` as the seats of the best-scoring window; proved by `AdvancedSeating.BestBlockNone`, `AdvancedSeating.BestBlockShape` and `AdvancedSeating.BestBlockOptimal` |
| AdvancedSeating.FindBestBlockInRow | src/booking_advanced.py:118-147 | the method computes `BestBlockInRow` |
| AdvancedSeating.FirstBlockNone | src/booking_advanced.py:149-160 | no row answers iff every row's answer is empty |
| AdvancedSeating.FirstBlockFirst | src/booking_advanced.py:149-160 | a found block is the answer of a row before which no row answered |
| AdvancedSeating.RowBlocksTruthy | src/booking_advanced.py:157-159 | a row's block is falsy exactly when there is none |
| AdvancedSeating.FirstRowWithBlock | src/booking_advanced.py:149-160 | defines `_find_first_row_with_block` as the first non-empty row answer; proved by `AdvancedSeating.FirstBlockNone` and `AdvancedSeating.FirstBlockFirst` |
| AdvancedSeating.FindFirstRowWithBlock | src/booking_advanced.py:149-160 | the loop returns the first row's block, else `None` |
| AdvancedSeating.PickBestSingle | src/booking_advanced.py:91-104 | the single-ticket branch picks the top-ranked of all available seats |
| AdvancedSeating.CollectAvailable | src/booking_advanced.py:93-98 | the loop collects every unbooked, unassigned seat row by row |
| AdvancedSeating.FillRowByRow | src/booking_advanced.py:105-116 | the fallback loop takes the first `n` seats of the row-by-row centrality order |
| AdvancedSeating.FillMatchesDefault | src/booking_advanced.py:105-116 | the fallback equals `default_seating` |
| AdvancedSeating.DefaultAdvanced | src/booking_advanced.py:69-116 | defines `default_seating_advanced` as intended, on the movie's state: a block, else the best single seat, else the row-by-row fill; proved by `AdvancedSeating.AdvancedBlock`, `AdvancedSeating.AdvancedSingle`, `AdvancedSeating.AdvancedFallback` and `AdvancedSeating.AdvancedServes` |
| AdvancedSeating.DefaultSeatingAdvanced | src/booking_advanced.py:69-116 | the method computes the intended `DefaultAdvanced` on the `Movie` object's record |
| AdvancedSeating.DefaultAdvancedAsWritten | src/booking_advanced.py:78-81 | `default_seating_advanced` as written: `None` (it raises) on a `Movie` object and on a dictionary alike |
| AdvancedSeating.AdvancedRaisesAsWritten | src/booking_advanced.py:78-81 | the code as written returns for no movie, while the intended allocation seats every ticket that the free seats of the `Movie` allow |
| AdvancedSeating.AssignAdvanced | src/booking_advanced.py:82-116 | block first, then the single-seat branch, then the row-by-row fallback |
| AdvancedSeating.AdvancedBlockRow | src/booking_advanced.py:84-89 | when some row has a block, the result is the best block of the lowest such row |
| AdvancedSeating.AdvancedBlock | src/booking_advanced.py:84-89 | when a long enough run exists, the result is n consecutive free seats of one row, the best block of the first row that has one |
| AdvancedSeating.AdvancedFallback | src/booking_advanced.py:105-116 | with no run of n seats (n ≥ 2), the result is the default seating |
| AdvancedSeating.BestSingleSpec | src/booking_advanced.py:91-104 | empty iff nothing is free; otherwise one free seat ranked first among all free seats |
| AdvancedSeating.AdvancedSingle | src/booking_advanced.py:84-104 | one ticket: empty iff the house is full, else one free seat found by the block search |
| AdvancedSeating.AdvancedServes | src/booking_advanced.py:69-116 | when n ≤ free seats, exactly n seats are assigned |
| AdvancedSeating.GridAvailable | src/booking_advanced.py:93-98 | the collected list holds exactly the unbooked, unassigned seats of the first rows |
| Reservations.MaxIdNumber | src/booking.py:73-79 | an upper bound of every `GIC<digits>` number that is attained (or 0 for none) |
| Reservations.NextIdNumber | src/booking.py:80-81 | the new ID reads back as the maximum plus one |
| Reservations.NextIdFresh | src/booking.py:63-81 | the new ID is at least 7 characters, exceeds every existing number and equals no existing ID (gaps are not reused) |
| Reservations.FirstBookingId | src/booking.py:80-81 | an empty ledger gives `GIC0001` |
| Reservations.NextBookingId | src/booking.py:63-81 | defines `get_booking_id` as `GIC` and the zero-padded successor of the largest ID number; proved by `Reservations.NextIdFresh` and `Reservations.FirstBookingId` |
| Reservations.GetBookingId | src/booking.py:63-81 | the loop computes `NextBookingId` |
| Reservations.ConfirmReservation | src/booking.py:83-96 | the first booking with the ID becomes `B`; nothing else changes |
| CheckBooking.UnbookReservation | src/check_booking.py:10-32 | the first booking with the ID becomes `R`; the rest and all seats are unchanged; an unknown ID changes nothing |
| CheckBooking.ViewBooking | src/check_booking.py:34-56 | unbook then confirm: the booking ends up `B`; an unknown ID changes nothing |
| Text.SplitJoin | src/movie.py:21-22 | splitting a single-spaced join of words gives the words back |
| Text.DecimalRoundTrip | src/booking.py:77 | `int(str(n)) == n` |
| Text.ZeroPaddedRoundTrip | src/booking.py:81 | `int(f"{n:04d}") == n` and the padded text is a numeral |
| Text.Strip | src/movie.py:21 | `strip()` is empty iff the text is all whitespace |
| MovieOps.CreateMovie | src/movie.py:12-25 | defines `create_movie` on the stripped, split input line; proved by `MovieOps.CreateMovieRoundTrip` and `MovieOps.CreateMovieShort` |
| MovieOps.CreateMovieRoundTrip | src/movie.py:12-25 | title = all tokens but the last two joined by spaces; rows and seats the last two; no bookings |
| MovieOps.CreateMovieShort | src/movie.py:23 | fewer than two words is an error (`parts[-2]` raises `IndexError`) |
| MovieOps.Available | src/movie.py:27-40 | defines `movie_available_seats` as the grid size minus the seats of every booking; proved by `MovieOps.AvailableAtMostFree`, `MovieOps.AvailableAfterAdd` and `MovieOps.AvailableAfterStatus` |
| MovieOps.MovieAvailableSeats | src/movie.py:27-40 | the loop returns `rows·sp` minus the seats of every booking, `R` or `B` |
| MovieOps.SeatCountConcat | src/movie.py:37-39 | the seat count adds up over concatenated ledgers |
| MovieOps.AvailableAfterAdd | src/movie.py:27-40 | adding a booking lowers availability by its seat count |
| MovieOps.AvailableAfterStatus | src/movie.py:37-40 | availability ignores statuses, so confirming or unbooking does not change it |
| MovieOps.SeatCountRemove | src/movie.py:37-39 | removing bookings never raises the seat count |
| MovieOps.GridSeats | src/booking.py:98-114 | the grid's seat set holds exactly the grid seats |
| MovieOps.GridSeatsCount | src/movie.py:36 | the grid has `rows·sp` seats |
| MovieOps.OccupiedCount | src/booking.py:116-130 | there are no more occupied seats than listed booking seats |
| MovieOps.AvailableAtMostFree | src/movie.py:27-40 | the movie's available count is at most the allocator's free count |
| MovieOps.ReservedStillFree | src/movie.py:37-40 | a reserved seat lowers the available count but stays free for the allocator (the two counts differ) |
| MovieOps.MarkAll | src/movie.py:118-125 | every listed seat's cell gets the symbol; all other cells keep their value |
| MovieOps.MarkSeatsOnMap | src/movie.py:107-125 | `R` writes `o`, `B` writes `#` at column `col−1` of each seat's row; any other status or cell changes nothing |
| MovieOps.HitsMeans | src/movie.py:118-125 | a cell is hit iff some listed seat lands on it |
| MovieOps.BuildSeatDisplayMap | src/movie.py:127-151 | a fresh rows × sp map; each cell is what the bookings, applied in order, leave there |
| MovieOps.CellSnoc | src/movie.py:147-150 | applying one more booking marks the map exactly as `mark_seats_on_map` does |
| MovieOps.CellUnmarked | src/movie.py:146 | a cell no booking marks stays `.`, so an empty ledger shows all `.` |
| MovieOps.CellLastWriter | src/movie.py:147-150 | the last booking that marks a cell decides its glyph |
| MovieOps.CellShowsOccupied | src/movie.py:127-151 | a `#` cell is an occupied seat and a `.` cell is not |
| Validation.IsPositiveInteger | src/validation.py:10-16 | defines `is_positive_integer` as a decimal numeral with a positive value; proved by `Validation.PositiveIntegerOfNumeral` |
| Validation.PositiveIntegerOfNumeral | src/validation.py:10-16 | a (zero-padded) numeral is accepted iff its value is positive |
| Validation.TitleNeverBlank | src/validation.py:38-40 | with at least three tokens the title is never blank |
| Validation.MovieWordsValidMeans | src/validation.py:30-56 | at least three tokens, the last two numerals with row in 1..26 and seats in 1..50 |
| Validation.MovieValidation | src/validation.py:18-56 | defines `movie_validation` on the stripped, split line; proved by `Validation.MovieValidationMeans` and `Validation.MovieValidationRoundTrip` |
| Validation.MovieValidationMeans | src/validation.py:18-56 | valid iff `create_movie` succeeds with in-range dimensions; a valid input gives a titled movie without bookings |
| Validation.MovieValidationRoundTrip | src/validation.py:18-56 | a title followed by two numbers is valid iff the numbers are in range |
| Validation.TicketNumValidation | src/validation.py:58-77 | defines `ticket_num_validation` as a positive numeral no larger than the available seats; proved by `Validation.TicketNumValidationOfNumeral` and `Validation.ValidatedTicketsSeated` |
| Validation.TicketNumValidationOfNumeral | src/validation.py:58-77 | a number is accepted iff `1 ≤ n ≤ movie_available_seats` |
| Validation.ValidatedTicketsSeated | src/validation.py:58-77 | an accepted count is always fully seated by both the default and the block policies |
| Validation.RowLabelsMeans | src/validation.py:94-97 | a label is in a seat-map row iff it parses to a seat of that row in range |
| Validation.BookedLabelsMeans | src/validation.py:98-100 | a seat's label is among the booked labels iff the seat is occupied |
| Validation.LabelCheckMeans | src/validation.py:87-102 | a non-blank label is valid iff it names a free seat |
| Validation.IsValidSeat | src/validation.py:79-102 | defines `is_valid_seat` as `Blank` for a blank input, else `ValidSeat` or `InvalidSeat` for the upper-cased label; proved by `Validation.IsValidSeatMeans` |
| Validation.IsValidSeatMeans | src/validation.py:79-102 | blank iff the input is all whitespace; valid iff the upper-cased input names a free seat |
| Validation.UpperLabel | src/validation.py:87 | upper-casing leaves a seat label unchanged |
| Validation.SeatLabelValid | src/validation.py:79-102 | a grid seat's label is valid iff the seat is not occupied; reserved seats are valid |
| Validation.IsValidBookingAsWritten | src/validation.py:104-121 | defines `is_valid_booking` as written: only a dict with a `bookings` key can pass; shown by `Validation.ValidBookingRejectedAsWritten` |
| Validation.IsValidBooking | src/validation.py:104-121 | defines the corrected check on the ledger of a dict or a `Movie`; proved by `Validation.IsValidBookingMeans` |
| Validation.IsValidBookingMeans | src/validation.py:116-121 | true iff some booking's ID equals the given one; agrees with the original on dict input |
| Validation.ValidBookingRejectedAsWritten | src/validation.py:110-112 | the original rejects an existing ID whenever it is given a `Movie` object |

## Left out

- Logging (every `log_info`/`log_warning`/`log_error` call): it only writes to a log file.
- `save_movie`: JSON file I/O. The `save_movie` call inside `unbook_reservation` is left out with it.
- `movie_display`: terminal rendering with `str.center` padding. The glyph grid it prints is modelled by `MovieOps.BuildSeatDisplayMap`.
- `src/main.py`: the menu loop and its prompts are driven by `input()`/`print()`. The `print` calls inside `view_booking` are left out too.
- `book_ticket` and `book_ticket_advanced`: the interactive confirmation loops. The steps they run are modelled on their own:
  - a new ID (`Reservations.GetBookingId`);
  - the seats (`DefaultSeating.DefaultSeating`, `CustomSeating.CustomSeating`, `AdvancedSeating.DefaultSeatingAdvanced`);
  - appending the booking (`MovieClasses.Movie.AddBooking`);
  - confirming it (`Reservations.ConfirmReservation`).
- Python's lenient `int()` (surrounding whitespace, signs, underscores) and Unicode `str.isdigit`: numerals are ASCII decimal digits (`Text.ParseDecimal`). `upper()` is ASCII-only. A signed or underscored number is therefore rejected where Python might accept it.
- Dynamic type checks are represented by Dafny's types:
  - the non-string branch of `movie_validation`;
  - the non-string ID branch of `is_valid_booking`;
  - the non-`Movie` branches of `unbook_reservation` and `view_booking`;
  - the dict branch of `build_seat_display_map`.
  The model receives the type the main program passes. Where the code as written fails on that type, the failure is a finding below (`is_valid_booking`, `default_seating_advanced`).
- Python exceptions: in `create_movie`, `parts[-2]` on a line of fewer than two words (`IndexError`) and `int()` on a non-numeric token (`ValueError`) become `None` (`MovieOps.CreateMovie`), and so does an anchor label whose row letter is not in the seat map (`CustomSeating.ParseAnchor`; the source raises `ValueError` at src/booking.py:284-287). A row beyond `Z`, which would raise in `string.ascii_uppercase[i]`, is a precondition (`rows <= 26`) on the methods that build the seat map.
- MovieOps.BuildSeatDisplayMap: requires every seat of `R` and `B` bookings to lie in the grid, or to be column 0 (Python's index −1, which wraps to the last cell). A seat off the grid would raise `KeyError`/`IndexError` in the source.
- AdvancedSeating.BlockCenter: the float result is an exact `real`, not IEEE-754 rounding. `.value * len == |centre·len − sum|` states the mean without division, and the source never calls the function.
- The sort tie-break on the label string: it is modelled for the cases that occur, since seats of one list never share a column and a row. `Ranking.RowOrderIsLabelOrder` shows that the label order and the row order agree.
- AdvancedSeating.DefaultSeatingAdvanced: takes the `Movie` object that the menu passes and returns the seats of the intended algorithm. The source as written raises there, and that failure is a finding below (`AdvancedSeating.DefaultAdvancedAsWritten`). The values follow the expectations of tests/test_booking_advanced.py:101-123.
- AdvancedSeating.DefaultAdvanced: requires at least one ticket, as do `AdvancedSeating.BestBlockInRow` and `AdvancedSeating.FirstRowWithBlock` (seats needed ≥ 1). With zero tickets the source raises `ValueError` from `max` of an empty window as soon as some row has a free seat (src/booking_advanced.py:137). That error path is not modelled. The menu only books after `ticket_num_validation` accepts the count (src/main.py:89-94), and `Validation.ValidatedTicketsSeated` proves an accepted count is at least 1.
- Defaults of the Python signatures: `Movie(..., bookings=None)` (src/movie_classes.py:65) and the `.get("seats", [])` / `.get("bookings", [])` fallbacks of the two `from_dict` methods (src/movie_classes.py:34, 88). The model has no missing value: a record always carries both lists, and a movie built without bookings is given the empty sequence.
- Aliasing of `Booking.seats` lists: Python copies the list in the constructor, and a Dafny `seq` is a value, so later changes to the caller's list cannot affect a booking.

## Findings

| source | as written | input that shows it | evidently intended | confidence | as-written member | corrected member |
|---|---|---|---|---|---|---|
| src/validation.py:110-112 with its caller src/main.py:131 | `is_valid_booking` returns False unless it receives a dict with a `bookings` key, but the menu passes the `Movie` object | movie "Inception" 8×8 holding booking `GIC0001`; checking `GIC0001` from the menu is rejected | true iff some booking of the movie, dict or `Movie`, has that ID | not executed | Validation.IsValidBookingAsWritten (shown by Validation.ValidBookingRejectedAsWritten) | Validation.IsValidBooking (proved by Validation.IsValidBookingMeans) |
| src/booking_advanced.py:78-80 with src/booking.py:108 and its caller src/main.py:94 | `default_seating_advanced` reads `movie_json["row"]` by subscript, then passes the same argument to `build_seat_map`, which reads `movie.row` as an attribute. A `Movie` fails the first (`TypeError`) and a dictionary the second (`AttributeError`). `book_ticket_advanced` also subscripts `movie_json['title']` at line 13. | movie "Inception" 8×8 without bookings; booking 2 tickets in advanced mode raises instead of seating them, and so does the same movie given as a dictionary | the most central block of the first row with enough adjacent free seats, else the best single seat or the row-by-row fill, read from the movie's state | not executed | AdvancedSeating.DefaultAdvancedAsWritten (shown by AdvancedSeating.AdvancedRaisesAsWritten) | AdvancedSeating.DefaultAdvanced (proved by AdvancedSeating.AdvancedServes, AdvancedSeating.AdvancedBlock) |