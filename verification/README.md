# Verification of the rating calculator

Dafny models of the parts of the rating calculator that carry its guarantees, with proofs over every
input, every run and every interleaving.

- **The ranked table** (`Ranking.dfy`, `RankedTable.dfy`). The container keeps the same shared nodes in
  a vector ordered by a changing key and in a map by a fixed one, and changes a node's key where it
  stands. `RankedTable` is that object, with its swaps, its binary search and its scan over ties;
  `Ranking` says from the history of calls alone what the vector must be. Order and combining function
  are arbitrary.
- **The weekly rating** (`TimeHelper.dfy`, `RatingProvider.dfy`). The week arithmetic on top of gmtime and
  timegm, the window that rolls over, and the deals that are accepted into it, in exact arithmetic.
- **Acknowledge and resend** (`ResendStore.dfy`, `AckProtocol.dfy`). The 16-bit ids, the protocol object
  with its store of shared records and its scan, and a state machine of sender, receiver and lossy channel.
- **WebSocket** (`WebSocketFraming.dfy`, `WebSocketServer.dfy`, `WriteQueue.dfy`, `ScopeRunner.dfy`). Framing
  and masking byte by byte, reassembly of fragments, the write queue and the scope lock, against RFC 6455.
  `ClientToServer.dfy` puts queue, frames and reading together.
- **Messages and routes** (`EnumConverter.dfy`, `JsonMessages.dfy`, `Routing.dfy`). The property trees of all
  messages both ways, and the maps from users to streams and connections.

Classes stand for the objects that the code updates in place. Their methods are proved against functions on
the abstract value, and most objects carry a ghost record of everything that happened to them: they are always
what that run gives, so the lemmas about runs hold for the objects. An exception is a value of `Option` or
`Result`. The clock, the random mask, the liveness of a connection, the order of a hash map and the success of a
write are parameters or nondeterministic steps.

Where the code does less than its comments or names suggest, the model follows the code, gives the condition
under which it does what they say, and an input or a run in which it does not:

- The query for low positions drops the last row when fewer than n rows lie below
  (`RankedTable.LowMeetsPromise`, `RankedTable.LastRowDropped`).
- The id counter gives id 0 twice in a row at overflow (`ResendStore.IdsInWindow`, `ResendStore.OverflowRepeats`).
- An ack ends the resending of its message only if the message is tracked by then; an earlier one is lost
  (`AckProtocol.AckEndsIff`, `AckProtocol.EarlyAckResends`).
- An ack can remove the entry of another message exactly when an id is reused while in use
  (`AckProtocol.AcksRightIffNoReuse`, `AckProtocol.ReuseMisleads`).
- Resends can come too early exactly when the time noted for the last transmission is before it, because the clock
  was set back (`AckProtocol.VisitsSpacedIff`, `AckProtocol.ClockBackBreaksSpacing`).
- The size check adds two lengths that can wrap around (`WebSocketServer.EscapesIff`,
  `WebSocketServer.WrappedLengthAccepted`).
- The end of an old stream or connection can take away a user's newer route (`GrpcRouting.RoutesAre`,
  `GrpcRouting.NewerRouteLost`, `WsRouting.CloseTakesNewerRoute`, `WsRouting.NewerRouteLost`).
- Before the Epoch the previous weekday can lie in the future (`TimeHelper.PreviousIsPast`,
  `TimeHelper.ThursdayBeforeEpoch`).
- A deal's unsigned timestamp is compared with a signed window bound, which goes wrong for windows that begin
  before the Epoch (`RatingWeek.PassesIff`, `RatingWeek.EpochRefused`).
- A deal checked against the old week can be counted in the new one (`RatingInterleaved.InWindowIffClean`,
  `RatingInterleaved.LateDealSlipsIn`).
- After a clock set back before the window's start the watcher does not find the current week
  (`RatingWeek.CaughtUpIsThisWeek`, `RatingWeek.SetBackMissesWeek`).

`dafny verify dfyconfig.toml` checks the project.

## Model

| member | source | states |
|---|---|---|
| `Ranking.RunIsRanking` | core/include/core/MultiKeyVolatileContainer.hpp:78-135 | After any run of insertions and clears the rows are a ranking of the history: exactly the ids inserted since the last clear, each under the in-order fold of its amounts, better key first and, among equivalent keys, the most recently created or key-changed first. For any strict weak order and any combining function. |
| `Ranking.RankingUnique` | core/include/core/MultiKeyVolatileContainer.hpp:78-135 | A history has only one such ranking, so the claim above fixes the whole vector. |
| `Ranking.UpsertRanks` | core/include/core/MultiKeyVolatileContainer.hpp:78-135 | One insertion turns the ranking of a history into the ranking of the longer one: new row, moved row and unmoved row alike. |
| `Ranking.CreateRanks` | core/include/core/MultiKeyVolatileContainer.hpp:126-134 | A new row placed after all strictly better rows goes ahead of every older row with an equivalent key. |
| `Ranking.MoveRanks` | core/include/core/MultiKeyVolatileContainer.hpp:89-124 | A row whose key changed, taken out and put back after all strictly better rows, takes its rank and leaves the others in order. |
| `Ranking.RekeyRanks` | core/include/core/MultiKeyVolatileContainer.hpp:106-124 | A key replaced by an equivalent one keeps every rank: nothing moves. |
| `Ranking.CutSplits` | core/include/core/MultiKeyVolatileContainer.hpp:130 | In a sorted vector the rows strictly better than a key are exactly a prefix: what the binary search needs. |
| `RankedTable.Table.Clear` | core/include/core/MultiKeyVolatileContainer.hpp:72-76 | Both containers become empty and the history records it. |
| `RankedTable.Table.Insert` | core/include/core/MultiKeyVolatileContainer.hpp:78-135 | Keeps vector and map in step and sorted, and changes the rows to the fold-and-rank update of the specification; the call is recorded in the history. |
| `RankedTable.Table.InsertRow` | core/include/core/MultiKeyVolatileContainer.hpp:78-135 | The two branches together keep the node-for-node agreement and the order, and give exactly the specified rows. |
| `RankedTable.Table.UpdateRow` | core/include/core/MultiKeyVolatileContainer.hpp:80-125 | The update branch on a shared node gives the removed-and-reinserted rows, with the same nodes. |
| `RankedTable.Table.CreateRow` | core/include/core/MultiKeyVolatileContainer.hpp:126-134 | The insert branch puts the new node after all strictly better rows and under its access key. |
| `RankedTable.Table.Create` | core/include/core/MultiKeyVolatileContainer.hpp:128-133 | The new node is inserted at the found place in the vector and under its access key in the map. |
| `RankedTable.Table.Update` | core/include/core/MultiKeyVolatileContainer.hpp:82-124 | Overwriting the shared key and shifting carries the node to a place where the shift loops stop, all other nodes keeping their order. |
| `RankedTable.Table.ShiftLeft` | core/include/core/MultiKeyVolatileContainer.hpp:89-105 | The swap loop carries the node left past exactly the rows up to the first strictly better one. |
| `RankedTable.Table.ShiftRight` | core/include/core/MultiKeyVolatileContainer.hpp:106-124 | The swap loop carries the node right past exactly the strictly better rows. |
| `RankedTable.ShiftedIsMoved` | core/include/core/MultiKeyVolatileContainer.hpp:89-124 | Any number of adjacent swaps in one direction takes the node out and puts it back in at its new place. |
| `RankedTable.UpdateIsUpsert` | core/include/core/MultiKeyVolatileContainer.hpp:85-124 | Where the adjacent swaps stop is where removing the row and re-inserting it would put it; an equivalent key moves nothing. |
| `RankedTable.UpsertSorted` | core/include/core/MultiKeyVolatileContainer.hpp:78-135 | Every insertion keeps the vector sorted. |
| `RankedTable.EnterOneToOne` | core/include/core/MultiKeyVolatileContainer.hpp:128-133 | A new node under a new access key keeps the two containers holding the same nodes one to one. |
| `RankedTable.MovedOneToOne` | core/include/core/MultiKeyVolatileContainer.hpp:89-124 | Carrying a node along the vector keeps the one-to-one agreement with the map. |
| `RankedTable.Table.LowerBound` | core/include/core/MultiKeyVolatileContainer.hpp:231 | The halving search finds the number of rows strictly better than the key. |
| `RankedTable.Table.ScanTies` | core/include/core/MultiKeyVolatileContainer.hpp:232-243 | From any start at or before the node, the scan over ties stops at it, always inside the vector: the throw on line 236 is unreachable. |
| `RankedTable.Table.NotPassed` | core/include/core/MultiKeyVolatileContainer.hpp:231 | The search never starts the scan beyond the node's own row. |
| `RankedTable.Table.FindNode` | core/include/core/MultiKeyVolatileContainer.hpp:229-246 | Search and scan return the row that holds the very node, for any number of ties. |
| `RankedTable.Table.Find` | core/include/core/MultiKeyVolatileContainer.hpp:207-219 | The row of a key, or the missing-key error exactly when the map does not hold it. |
| `RankedTable.Table.IsPresent` | core/include/core/MultiKeyVolatileContainer.hpp:201-204 | A key is present if and only if the vector holds a row of it. |
| `RankedTable.Table.AlwaysRanked` | core/include/core/MultiKeyVolatileContainer.hpp:78-135 | Whatever calls were made on the object, its vector is the ranking of that history. |
| `RankedTable.Table.GetPosition` | core/include/core/MultiKeyVolatileContainer.hpp:137-142 | Row number and row of the key, or the missing-key error. |
| `RankedTable.Table.GetHeadPositions` | core/include/core/MultiKeyVolatileContainer.hpp:144-155 | Rows 0 up to min(n, size) with their row numbers. |
| `RankedTable.Table.GetHighPositions` | core/include/core/MultiKeyVolatileContainer.hpp:157-177 | Rows max(0, p - n) up to p with their row numbers, or the missing-key error. |
| `RankedTable.Table.GetLowPositions` | core/include/core/MultiKeyVolatileContainer.hpp:179-199 | Rows p + 1 up to p + 1 + n when n rows lie below, otherwise every row below but the last, with their row numbers; or the missing-key error. |
| `RankedTable.Neighbourhood` | core/include/core/MultiKeyVolatileContainer.hpp:137-199 | High rows, the user's own and low rows, read in one state, are one contiguous run of rows with the right numbers. |
| `RankedTable.LowMeetsPromise` | core/include/core/MultiKeyVolatileContainer.hpp:185-193 | The low rows are the min(n, rows below) nearest ones if and only if n rows lie below or none does; otherwise exactly the last of them is missing. |
| `RankedTable.LastRowDropped` | core/include/core/MultiKeyVolatileContainer.hpp:185-193 | The smallest failing case: the first of two rows asks for two below and gets none. |
| `Calendar.YearStep` | core/src/TimeHelper.cpp:22-35 | The leap terms of the day-count formula of section 4.16 of the Base Definitions of IEEE Std 1003.1-2017 grow by exactly each year's length. |
| `Calendar.MonthTable` | core/src/TimeHelper.cpp:24-35 | The months begin on the well-known days of the year, one later from March on in leap years. |
| `Calendar.KnownDates` | core/src/TimeHelper.cpp:24-35 | Some dates that fix the calendar: the Epoch, the second before it, a leap day in 2000, a date of 2018 and the end of February 2100. |
| `Calendar.TimegmGmtime` | core/src/TimeHelper.cpp:24-35 | timegm undoes gmtime at every time before or after the Epoch. |
| `Calendar.GmtimeTimegm` | core/src/TimeHelper.cpp:24-35 | gmtime finds the very date timegm was given, for every date with its fields in range. |
| `TimeHelper.ShiftedBack` | core/src/TimeHelper.cpp:29-35 | A day of the month taken down, below 1 where need be, means that many days earlier at 00:00:00, across months, years and leap days. |
| `TimeHelper.WeekOfEpoch` | core/include/core/TimeHelper.hpp:26-34 | The days of the week of the Epoch, each under its name: it was a Thursday. |
| `TimeHelper.PreviousWeekDay` | core/src/TimeHelper.cpp:20-38 | From the Epoch on, the result is the one UTC midnight of that weekday with result <= t < result + 7 days. |
| `TimeHelper.NextWeekDay` | core/src/TimeHelper.cpp:40-45 | The result is a midnight of that weekday in (t, t + 7 days]. |
| `TimeHelper.PreviousIdempotent` | core/src/TimeHelper.cpp:20-38 | Applied to its own result it changes nothing, at any time. |
| `TimeHelper.PreviousMonotone` | core/src/TimeHelper.cpp:20-38 | A later time never gives an earlier result, at any time. |
| `TimeHelper.PreviousIsPast` | core/src/TimeHelper.cpp:22-37 | At any time the result is not after the time asked about, except exactly for a fraction of a second before the Epoch that truncates up to a midnight of that weekday; and it is never 7 days or more before it. |
| `TimeHelper.ThursdayBeforeEpoch` | core/src/TimeHelper.cpp:22-37 | The failing input: the previous Thursday of a nanosecond before the Epoch is the Epoch. |
| `RatingWeek.AmountsAreFolds` | tempstore/src/UserRatingProvider.cpp:149-164 | In every run a user has a row if and only if one of the user's deals was accepted since the last rollover, and the row holds the in-order sum of exactly those; the highest sum comes first and, among equal sums, the one changed last. |
| `RatingWeek.AcceptedOneMore` | tempstore/src/UserRatingProvider.cpp:149-164 | A deal counts exactly if start <= timestamp < end of the window open when it arrives, whatever its user and amount; a rollover leaves none. |
| `RatingWeek.AcceptedInWindow` | tempstore/src/UserRatingProvider.cpp:151-163 | Every accepted deal still counted has start <= timestamp < end of the window now open, for windows of whole seconds from the Epoch on. |
| `RatingWeek.PassesIff` | tempstore/src/UserRatingProvider.cpp:151-158 | The two tests, which compare an unsigned timestamp with a signed bound, mean start <= timestamp < end for all timestamps if and only if the window does not start before the Epoch or ends at it. |
| `RatingWeek.EpochRefused` | tempstore/src/UserRatingProvider.cpp:151-158 | The failing input: a deal at the Epoch is refused by a window around the Epoch. |
| `RatingWeek.SumConserved` | tempstore/src/UserRatingProvider.cpp:56-61 | In exact arithmetic the table sums to the accepted deals, in every run. |
| `RatingWeek.TotalUpserted` | core/include/core/MultiKeyVolatileContainer.hpp:78-135 | One insertion adds its amount to the total of the table and nothing else. |
| `RatingWeek.TableAfter` | tempstore/src/UserRatingProvider.cpp:149-164 | After every run the table is what inserting the accepted deals in order into an empty one builds. |
| `RatingWeek.WindowAfter` | tempstore/src/UserRatingProvider.cpp:140-143 | The open window is the first one moved on by as many whole periods as there were rollovers. |
| `RatingWeek.EveryWindowIsAWeek` | service/src/UserRatingWatcher.cpp:22-28 | Every window of every run is one week long and starts at a Monday midnight UTC. |
| `RatingWeek.CaughtUp` | tempstore/src/UserRatingProvider.cpp:40-62 | Rolling over until the window ends after now terminates with start <= now < end if it began so, aligned as before, with an empty table if any rollover was due and untouched otherwise. |
| `RatingWeek.CaughtUpIsThisWeek` | tempstore/src/UserRatingProvider.cpp:28-62 | Whenever the loop runs, its window is the one a fresh start at that time would open if and only if the clock has not gone back before the window. |
| `RatingWeek.SetBackMissesWeek` | tempstore/src/UserRatingProvider.cpp:40-62 | The failing inputs: a provider started at any Monday midnight from 5 January 1970 on, whose clock is then set back to before it. |
| `RatingWeek.PunctualReachesThisWeek` | tempstore/src/UserRatingProvider.cpp:40-62 | Against a clock that does not go back, where each rollover waits for the end of its window, the loop always reaches the week of the present time, however late it runs. |
| `RatingInterleaved.TableInEveryInterleaving` | tempstore/src/UserRatingProvider.cpp:56-61 | With check, insertion, clear and move as steps of their own, in every interleaving the rows are the in-order sums of the deals inserted since the last clear, user by user, the highest sum first and among equal sums the one changed last, and they sum to those deals. |
| `RatingInterleaved.AtomicIsFine` | tempstore/src/UserRatingProvider.cpp:56-61 | A check at once followed by its insertion, and a clear at once followed by the move, are the atomic steps of the provider. |
| `RatingInterleaved.InWindowIffClean` | tempstore/src/UserRatingProvider.cpp:56-61 | In every interleaving the counted deals and those on their way are inside the open window all along if and only if no move of the window catches a deal between check and insertion or between insertion and clear. |
| `RatingInterleaved.LateDealSlipsIn` | tempstore/src/UserRatingProvider.cpp:151-162 | A run in which a deal checked against the old week is counted in the new one. |
| `RatingProvider.UserRatingProvider.constructor` | tempstore/src/UserRatingProvider.cpp:23-28 | The object begins its run with the window at the previous start day and an empty table. |
| `RatingProvider.UserRatingProvider.AddDeal` | tempstore/src/UserRatingProvider.cpp:149-164 | Carries the object on by one deal event of the run, whichever branch is taken. |
| `RatingProvider.UserRatingProvider.RollOver` | tempstore/src/UserRatingProvider.cpp:56-61 | Carries the object on by one rollover event: empty table, next window. |
| `RatingProvider.UserRatingProvider.Watch` | tempstore/src/UserRatingProvider.cpp:40-62 | The watcher loop terminates in the caught-up state. |
| `RatingProvider.UserRatingProvider.RowsAreAcceptedDeals` | tempstore/src/UserRatingProvider.cpp:40-164 | Whatever calls were made, the rows of the object are, user by user, the in-order sums of exactly the deals accepted since its last rollover, the highest sum first and among equal sums the one changed last, and they sum to those deals. |
| `ResendStore.WireIdIs` | webapi/src/transport/WsProtocol.cpp:60-63 | The n-th id is n mod 65536 except at counter overflow, where 0 is given again: the exact effect of the modulus that is one short. |
| `ResendStore.IdsCoincide` | webapi/src/transport/WsProtocol.cpp:60-70 | Below the overflow two sends share an id if and only if 65536 divides their distance. |
| `ResendStore.IdsInWindow` | webapi/src/transport/WsProtocol.cpp:60-70 | Over the whole counter range, exactly when two of any 65536 consecutive sends share an id: only at the overflow. |
| `ResendStore.OverflowRepeats` | webapi/src/transport/WsProtocol.cpp:60-63 | The failing input: the send numbered SIZE_MAX and the one after it both get id 0. |
| `ResendStore.VisitsAreScan` | webapi/src/transport/WsProtocol.cpp:157-193 | Judging the entries one by one, in any order, comes to one simultaneous update of the store. |
| `ResendStore.ScanOfEntry` | webapi/src/transport/WsProtocol.cpp:162-192 | What a scan does to an entry, by its fields and the readings: resends used up, or due with the connection gone, and it leaves; due otherwise, and it has one resend more and the new time; else it stays as it is. |
| `ResendStore.HitsSpendResends` | webapi/src/transport/WsProtocol.cpp:162-192 | Without new sends a stored entry has used up exactly one resend for each scan that found its resends used up or its time due. |
| `ResendStore.StoreDrains` | webapi/src/transport/WsProtocol.cpp:147-199 | Without new sends no entry is stored any more after resendNumber + 1 scans that found its resends used up or its time due, whatever acks and disconnections occur. |
| `ResendStore.AckTakesOut` | webapi/src/transport/WsProtocol.cpp:93-97 | An ack takes out the entry with its id and no other. |
| `WsProtocol.Protocol.GetNextOutCounter` | webapi/src/transport/WsProtocol.cpp:60-63 | The counter values, cut to 16 bits, are the wire ids in order, wrap-around included. |
| `WsProtocol.Protocol.Transmit` | webapi/src/transport/WsProtocol.cpp:70-73 | The frame carries the next wire id and the payload. |
| `WsProtocol.Protocol.AddToResendStore` | webapi/src/transport/WsProtocol.cpp:112-120 | The entry is stored unless its id is still taken, in which case nothing changes. |
| `WsProtocol.Protocol.RemoveFromResendStore` | webapi/src/transport/WsProtocol.cpp:122-140 | Exactly the entry with that id goes. |
| `WsProtocol.Protocol.ParseMessage` | webapi/src/transport/WsProtocol.cpp:78-110 | An ack removes its entry; data is handed up and acknowledged under its id every time; errors change nothing. |
| `WsProtocol.Protocol.Visit` | webapi/src/transport/WsProtocol.cpp:162-192 | One record: resends used up means to be dropped; otherwise due and connected means counted up and restamped, due and disconnected means to be dropped; otherwise it is untouched. |
| `WsProtocol.Protocol.TurnAll` | webapi/src/transport/WsProtocol.cpp:156-193 | The first loop, in any order of the map, turns every entry once, collects exactly the finished ids and resends exactly the due entries, each once. |
| `WsProtocol.Protocol.EraseAll` | webapi/src/transport/WsProtocol.cpp:195-198 | The second loop removes exactly the collected ids. |
| `WsProtocol.Protocol.Scan` | webapi/src/transport/WsProtocol.cpp:156-198 | The two loops together are one simultaneous update of the store; what went on the wire is one copy of each due entry. |
| `WsProtocol.CollectThenErase` | webapi/src/transport/WsProtocol.cpp:156-198 | Updating all and then erasing the collected is the simultaneous update. |
| `AckProtocol.TransmissionsBounded` | webapi/src/transport/WsProtocol.cpp:157-193 | In every interleaving of sender, receiver and lossy channel, whatever the clock reads, a message is transmitted between 1 and 1 + resendNumber times. |
| `AckProtocol.TransmissionsSpaced` | webapi/src/transport/WsProtocol.cpp:164-174 | So over a whole run: if the clock does not go back between a transmission and the time noted for it, nor within a visit, successive transmissions of a message are more than the timeout apart. |
| `AckProtocol.VisitsSpacedIff` | webapi/src/transport/WsProtocol.cpp:162-174 | In any state of any run, under any clock: for a stored message with resends left, all resends whose check is not after the send come more than the timeout after the last transmission, if and only if the time noted for that transmission is not before it. |
| `AckProtocol.MonotoneIsSteady` | webapi/src/transport/WsProtocol.cpp:164-174 | A clock that never goes back meets that condition. |
| `AckProtocol.ClockBackBreaksSpacing` | webapi/src/transport/WsProtocol.cpp:73-75 | A run whose clock is set back between transmitting and tracking, and whose second transmission comes too early. |
| `AckProtocol.DeliveriesBounded` | webapi/src/transport/WsProtocol.cpp:98-109 | Whatever the clock reads, the peer's handler gets a message at most as often as it was transmitted, although nothing removes duplicates. |
| `AckProtocol.AckMeansParsed` | webapi/src/transport/WsProtocol.cpp:67-140 | Without id reuse among messages still referred to, an ack that removes an entry answers a copy of that very message that the peer has parsed. |
| `AckProtocol.AcksRightIffNoReuse` | webapi/src/transport/WsProtocol.cpp:60-140 | In every state of a run and every continuation of it without new sends each ack on its way would remove nothing but the entry of the message it answers, if and only if no send of the run took the id of a message still pending, stored, or in transit as a copy or an ack. |
| `AckProtocol.SendStaysRightIff` | webapi/src/transport/WsProtocol.cpp:60-76 | The same for one more send after a run without reuse. |
| `AckProtocol.PromptNoReuse` | webapi/src/transport/WsProtocol.cpp:60-76 | In particular no id is reused as long as nothing is referred to for 65536 sends, below the overflow. |
| `AckProtocol.ReuseMisleads` | webapi/src/transport/WsProtocol.cpp:60-76 | A run with reuse: the ack of message 0 removes the entry of message 65536, of which the peer has parsed nothing. |
| `AckProtocol.TrackKeeps` | webapi/src/transport/WsProtocol.cpp:73-76 | In every run tracking drops no message while the stored ones are within 65535 sends of it, below the overflow. |
| `AckProtocol.TrackStoresIff` | webapi/src/transport/WsProtocol.cpp:112-120 | In every run tracking stores a message exactly if its id is free; otherwise it changes nothing and the message is never sent again. |
| `AckProtocol.VisitSteps` | webapi/src/transport/WsProtocol.cpp:162-192 | One entry's turn in a scan of a run: dropped, sent once more, or left alone, by its fields and the readings. |
| `AckProtocol.ChannelSteps` | webapi/src/transport/WsProtocol.cpp:93-107 | Every delivered copy is handled and acknowledged, however often its message was before; copies and acks can get lost; an arriving ack removes whatever is stored under its id. |
| `AckProtocol.AckEndsIff` | webapi/src/transport/WsProtocol.cpp:73-140 | An ack ends the transmissions of the message it answers, in every continuation, if and only if that message is tracked by then or is never resent. |
| `AckProtocol.EarlyAckResent` | webapi/src/transport/WsProtocol.cpp:73-75 | From every state in which an ack overtakes tracking, the continuation that tracks the message and visits it when due sends it again. |
| `AckProtocol.EarlyAckResends` | webapi/src/transport/WsProtocol.cpp:73-75 | Such a run: the message is sent and handled twice although it was acknowledged. |
| `AckProtocol.AlwaysCounted` | webapi/src/transport/WsProtocol.cpp:67-193 | The invariant of every run: each stored entry belongs to its id, has been transmitted once more than it was resent, and every copy in flight or handled was transmitted. |
| `AckProtocol.AlwaysOneOwner` | webapi/src/transport/WsProtocol.cpp:67-140 | Without reuse, two messages still referred to never share an id. |
| `WebSocketFraming.ClientFrame` | webapi/include/webapi/websockets/client_ws.hpp:215-262 | The loops write the frame of section 5.2 of RFC 6455, stated on the bytes written: first byte, mask bit, shortest length field, mask, and each payload bit inverted exactly where the mask byte whose turn it is has a one. |
| `WebSocketFraming.WireIsFrame` | webapi/include/webapi/websockets/client_ws.hpp:231-254 | A frame byte by byte and bit by bit: first byte, mask bit, length or its code, extended length most significant byte first, mask, and payload bit i of byte c inverted exactly if bit i of mask byte c mod 4 is set (sections 5.2 and 5.3 of RFC 6455). |
| `WebSocketFraming.ServerHeader` | webapi/include/webapi/websockets/server_ws.hpp:273-294 | The loops write, byte by byte, the first byte and the shortest length field without the mask bit. |
| `WebSocketFraming.WriteLength` | webapi/include/webapi/websockets/server_ws.hpp:279-294 | The branch on the length and the shifting loop write the shortest length field, big-endian. |
| `WebSocketFraming.ShortestIsShortest` | webapi/include/webapi/websockets/client_ws.hpp:233-248 | Any other fitting length form takes strictly more bytes (section 5.2 of RFC 6455). |
| `WebSocketFraming.XorBit` | webapi/include/webapi/websockets/client_ws.hpp:253-254 | Each bit of a masked byte is set if and only if payload and mask differ there. |
| `WebSocketFraming.UnmaskMasked` | webapi/include/webapi/websockets/server_ws.hpp:656-658 | Masking twice with one mask gives the payload back (section 5.3 of RFC 6455). |
| `WebSocketFraming.ValueOfBigEndian` | webapi/include/webapi/websockets/server_ws.hpp:603-606 | Reading the length bytes gives back every length that fits. |
| `WebSocketFraming.BigEndianAt` | webapi/include/webapi/websockets/client_ws.hpp:244-245 | Byte i of k is the number shifted right by the k - 1 - i bytes after it, cut to eight bits. |
| `WebSocketFraming.BigEndianOfValue` | webapi/include/webapi/websockets/server_ws.hpp:603-606 | And every byte string is the big-endian form of what is read from it. |
| `WebSocketFraming.HeaderOfWire` | webapi/include/webapi/websockets/server_ws.hpp:553-620 | The header of any masked frame, in any fitting length form, is read as its opcode byte and length. |
| `WebSocketFraming.ContentOfWire` | webapi/include/webapi/websockets/server_ws.hpp:631-658 | What is read behind the header is the payload, and the rest of the stream is left as it was. |
| `WebSocketFraming.ReadIsWire` | webapi/include/webapi/websockets/server_ws.hpp:541-658 | Conversely, whatever is read as a frame is laid out as one, in some fitting length form, not necessarily the shortest. |
| `Reassembly.SplitDelivers` | webapi/include/webapi/websockets/server_ws.hpp:622-723 | Any split of a message into fragments, with pings and pongs anywhere before the last, gives each control frame its reply in place and the whole message once at the end, with its opcode byte, length and payload; the assembly is clean again (section 5.4 of RFC 6455). |
| `Reassembly.SplitEqualsWhole` | webapi/include/webapi/websockets/server_ws.hpp:622-723 | The handler is called for a split message exactly as for the same message in one frame. |
| `Reassembly.FirstByteBits` | webapi/include/webapi/websockets/server_ws.hpp:645-648 | FIN is bit 7 of the first byte and the opcode its low four bits; setting or clearing FIN changes no other bit. |
| `Reassembly.PingAnswered` | webapi/include/webapi/websockets/server_ws.hpp:677-701 | A ping is answered by a pong and reported; a pong is reported. |
| `Reassembly.ShortClose` | webapi/include/webapi/websockets/server_ws.hpp:665-674 | A close with fewer than two bytes is reported with status 0 and those bytes as the reason. |
| `Reassembly.UnfinishedPing` | webapi/include/webapi/websockets/server_ws.hpp:645-690 | The opcode is looked at before FIN: a ping without FIN is answered, and begins an assembly as well. |
| `Reassembly.UnfinishedClose` | webapi/include/webapi/websockets/server_ws.hpp:645-674 | A close without FIN takes its status from the front of what is assembled. |
| `Reassembly.OrphanDelivered` | webapi/include/webapi/websockets/server_ws.hpp:645-654 | A continuation with nothing begun is taken for a message of its own. |
| `Reassembly.AssemblyDropped` | webapi/include/webapi/websockets/server_ws.hpp:654-716 | A whole message inside a fragmented one is delivered, and the assembled part is dropped. |
| `Reassembly.SecondStartJoined` | webapi/include/webapi/websockets/server_ws.hpp:645-652 | A second start inside a fragmented message is joined to it, its opcode lost. |
| `Reassembly.RoomIsEnough` | webapi/include/webapi/websockets/server_ws.hpp:623-630 | A limit with room for the message and one control frame admits every split of it. |
| `Reassembly.LimitCoversMessage` | webapi/include/webapi/websockets/server_ws.hpp:623-630 | A split within the limit joins to a message within the limit. |
| `Reassembly.AllDelivered` | webapi/include/webapi/websockets/server_ws.hpp:541-723 | Any sequence of split messages is delivered message by message, in order. |
| `WebSocketServer.ReadOne` | webapi/include/webapi/websockets/server_ws.hpp:541-658 | One read takes exactly one frame from the stream, whatever follows it. |
| `WebSocketServer.StreamRead` | webapi/include/webapi/websockets/server_ws.hpp:541-723 | The bytes of any frames, in any length forms and under any masks, are read as those frames in order, with nothing left over. |
| `WebSocketServer.SendsRoundTrip` | webapi/include/webapi/websockets/client_ws.hpp:215-262 | The byte stream of any sequence of client sends reaches the server's handler as the same opcodes and payloads in the same order, and is used up to the last byte. |
| `WebSocketServer.SplitsRoundTrip` | webapi/include/webapi/websockets/server_ws.hpp:541-723 | The same for messages sent in fragments with control frames in between. |
| `WebSocketServer.ClosePayload` | webapi/include/webapi/websockets/server_ws.hpp:310-315 | The body of a close: two status bytes, most significant first, then the reason. |
| `WebSocketServer.CloseRoundTrip` | webapi/include/webapi/websockets/server_ws.hpp:660-675 | A close frame reaches the close handler with the status and reason its sender gave, and nothing after it is read. |
| `WebSocketServer.OversizeRefused` | webapi/include/webapi/websockets/server_ws.hpp:623-630 | A frame that with what is assembled exceeds the limit is refused on its header, before any of it reaches a handler, as long as the two lengths add up below 2^64; reading stops. |
| `WebSocketServer.EscapesIff` | webapi/include/webapi/websockets/server_ws.hpp:623 | Exactly which declared lengths over the limit pass the check: those whose sum with the assembled length wraps around to within the limit. |
| `WebSocketServer.WrappedLengthAccepted` | webapi/include/webapi/websockets/server_ws.hpp:623 | The failing input: 10 bytes assembled, a limit of 1000 and a declared length of 2^64 - 10. |
| `WebSocketServer.HeldWithinLimit` | webapi/include/webapi/websockets/server_ws.hpp:623-654 | The length assembled never exceeds the limit, whatever is read. |
| `WebSocketServer.UnmaskedRefused` | webapi/include/webapi/websockets/server_ws.hpp:558-564 | An unmasked frame is refused whatever it holds; reading stops. |
| `WebSocketServer.Connection.ReadLength` | webapi/include/webapi/websockets/server_ws.hpp:603-606 | The shifting loop computes the big-endian value. |
| `WebSocketServer.Connection.ReadMessage` | webapi/include/webapi/websockets/server_ws.hpp:541-620 | Consumes one frame of the buffer or none, with the calls to the handlers that the specification gives. |
| `WebSocketServer.Connection.ReadMessageContent` | webapi/include/webapi/websockets/server_ws.hpp:622-658 | Size check, then mask and payload taken from the buffer, then the frame handled as specified. |
| `WebSocketServer.Connection.HandleFrame` | webapi/include/webapi/websockets/server_ws.hpp:635-718 | The frame is appended to the shared assembly or to a message of its own and dispatched as specified. |
| `WebSocketServer.Connection.Dispatch` | webapi/include/webapi/websockets/server_ws.hpp:660-718 | Close ends the reading, a ping is answered, and only a final data frame clears the assembly. |
| `WebSocketServer.Connection.Unmask` | webapi/include/webapi/websockets/server_ws.hpp:656-658 | The loop appends the unmasked payload: each bit inverted exactly where the mask byte whose turn it is has a one. |
| `WriteQueue.SingleChain` | webapi/include/webapi/websockets/server_ws.hpp:219-302 | In every interleaving of sends, write progress, completions, failures and stops, at most one write chain is active, it never looks at an empty queue, and while not stopped it is active if and only if something is queued. |
| `WriteQueue.WholeFramesInOrder` | webapi/include/webapi/websockets/server_ws.hpp:219-302 | Until the first write error the wire holds the finished items whole, each once, in the order they were queued, then at most part of the next; an empty queue means everything was written. |
| `WriteQueue.EverythingCanBeWritten` | webapi/include/webapi/websockets/server_ws.hpp:221-253 | From every state of a run without stop or write error there is a way, without further sends, to have every item completed and on the wire. |
| `WriteQueue.CallbacksAtMostOnce` | webapi/include/webapi/websockets/server_ws.hpp:233-249 | In every run the callbacks made and the items waiting are together never more than the items sent. |
| `WriteQueue.FailureReported` | webapi/include/webapi/websockets/server_ws.hpp:241-249 | A failed write is reported as failed to its callback; the queue is emptied and no chain is left. |
| `WriteQueue.StoppedReportsNothing` | webapi/include/webapi/websockets/server_ws.hpp:225-232 | After a stop no callback is made in any continuation. |
| `WriteQueue.StoppedCompletion` | webapi/include/webapi/websockets/server_ws.hpp:225-232 | A completion after a stop ends its own operation and nothing else. |
| `WriteQueue.PostedStarts` | webapi/include/webapi/websockets/server_ws.hpp:223-224 | A posted task starts the write of the first part of the item in front, after a stop as well. |
| `WriteQueue.EnqueueShape` | webapi/include/webapi/websockets/server_ws.hpp:297-301 | A send is appended, and a chain begun exactly if the queue was empty, after a stop as well. |
| `WriteQueue.AlwaysOneChain` | webapi/include/webapi/websockets/client_ws.hpp:178-199 | The invariant behind the single chain, for items of one part (client) or two (server). |
| `WriteQueue.AlwaysInOrder` | webapi/include/webapi/websockets/server_ws.hpp:221-253 | The invariant behind the order: parts already written plus the bytes left of the current part make up the front item. |
| `SendQueue.Connection.SendTask` | webapi/include/webapi/websockets/server_ws.hpp:296-301 | Carries the object on by one queued send, whether or not a chain has to be started. |
| `SendQueue.Connection.PostedTask` | webapi/include/webapi/websockets/server_ws.hpp:223-224 | Carries the object on by the start of the next write; the queue is not empty then. |
| `SendQueue.Connection.WriteHandler` | webapi/include/webapi/websockets/server_ws.hpp:224-251 | Carries the object on by one completion, in each case: stopped, next part, next item, error; the front item is there whenever it is looked at. |
| `SendQueue.Connection.OneWriteAtATime` | webapi/include/webapi/websockets/server_ws.hpp:219-302 | Whatever was called, at most one write of the object is outstanding, one exactly when something is queued while not stopped, and until a write fails its wire holds what was sent in order. |
| `ClientToServer.HandledAreFirstSent` | webapi/include/webapi/websockets/client_ws.hpp:178-262 | From end to end: in every run of a client's write queue without a write error, whatever part of its bytes is on the wire, the server's handler is given exactly the first messages sent, each once, whole and in order: those the client has seen completed and at most one more; all of them, with nothing left over, once the queue is empty. |
| `ClientToServer.EverythingCanBeHandled` | webapi/include/webapi/websockets/client_ws.hpp:178-262 | From every state of such a run that is not stopped there is a way, without further sends, to have the handler given everything sent so far, with nothing left over. |
| `ClientToServer.PartLeft` | webapi/include/webapi/websockets/server_ws.hpp:541-631 | Any proper beginning of a frame within the limit is left where it is and leads to no call of a handler. |
| `ClientToServer.FlatIsBytes` | webapi/include/webapi/websockets/client_ws.hpp:215-262 | The queued frames one after the other are the byte stream that the server reads. |
| `ScopeRunner.CountIsLiveLocks` | webapi/include/webapi/websockets/utility.hpp:312-354 | For any number of calls, any interleaving and any spurious failures, the count is the number of live locks, or -1 with none live. |
| `ScopeRunner.OpenGrants` | webapi/include/webapi/websockets/utility.hpp:333-342 | While the runner is open, an undisturbed call of continue_lock gets a lock at the first attempt that does not fail spuriously; when it is closed, the call is refused. |
| `ScopeRunner.RefusedOnlyClosed` | webapi/include/webapi/websockets/utility.hpp:333-342 | In every run a call is refused only if the count is -1. |
| `ScopeRunner.StopIsFinal` | webapi/include/webapi/websockets/utility.hpp:344-353 | Once any stop has returned no lock is live and none is granted in any later run. |
| `ScopeRunner.StopWaits` | webapi/include/webapi/websockets/utility.hpp:345-353 | With a live lock an attempt of stop changes nothing. |
| `ScopeRunner.StopReturns` | webapi/include/webapi/websockets/utility.hpp:345-353 | With no live lock an attempt of stop that does not fail spuriously returns and leaves the runner closed; with the runner closed every attempt returns. |
| `ScopeRunner.CountedStep` | webapi/include/webapi/websockets/utility.hpp:325-353 | Every single atomic access keeps the invariant. |
| `ScopeRunner.Runner.EnterContinueLock` | webapi/include/webapi/websockets/utility.hpp:334 | The call is refused if the count is -1 and else tries from the count it read. |
| `ScopeRunner.Runner.TryContinueLock` | webapi/include/webapi/websockets/utility.hpp:335-341 | One turn of the loop: refused if the count is -1, locked and counted if the count is what was read and the exchange does not fail, and otherwise another turn from the count now read. |
| `ScopeRunner.Runner.ReleaseLock` | webapi/include/webapi/websockets/utility.hpp:325-327 | Carries the object on by a lock's end. |
| `ScopeRunner.Runner.BeginStop` | webapi/include/webapi/websockets/utility.hpp:345-346 | Carries the object on by a call of stop, which has changed nothing yet. |
| `ScopeRunner.Runner.TryStopTurn` | webapi/include/webapi/websockets/utility.hpp:346-353 | Carries the object on by one turn of the loop; it returns only when no lock is live, and leaves the count at -1. |
| `ScopeRunner.Runner.CountsLiveLocks` | webapi/include/webapi/websockets/utility.hpp:312-354 | Whatever accesses were made, the count of the object is the number of live locks, or -1 with none live, and -1 once a stop has returned. |
| `EnumNames.OneKey` | core/include/core/EnumConverter.hpp:27-32 | Neither of two names is less than the other exactly when they have the same length and agree place by place up to the case of the letters A to Z. |
| `EnumNames.FoldIs` | core/include/core/EnumConverter.hpp:27-32 | Two names are the same in upper case exactly when they agree place by place up to the case of the letters A to Z, said with character codes. |
| `EnumNames.LessOrders` | core/include/core/EnumConverter.hpp:27-36 | The comparison is a strict weak order, as an ordered map demands. |
| `EnumNames.RoundTripIff` | core/include/core/EnumConverter.hpp:48-72 | With distinct values, every name leads back to its value if and only if no two names agree up to letter case. |
| `EnumNames.AnyCase` | core/include/core/EnumConverter.hpp:59-72 | Then every spelling of a name in other letter case is accepted too. |
| `EnumNames.AcceptedIff` | core/include/core/EnumConverter.hpp:69-72 | And a name is accepted for a value if and only if it spells that value's name. |
| `EnumNames.BuildToString` | core/include/core/EnumConverter.hpp:59-62 | Every value added once keeps its own name. |
| `EnumNames.BuildToEnum` | core/include/core/EnumConverter.hpp:48-72 | A name finds the first value added under it in any letter case, and is unknown if there is none. |
| `EnumNames.EnumConverter.AddConversion` | core/include/core/EnumConverter.hpp:48-52 | The object stays the table of everything added so far, in order. |
| `EnumNames.EnumConverter.ToString` | core/include/core/EnumConverter.hpp:59-62 | The first name added for the value; the exception exactly when none was. |
| `EnumNames.EnumConverter.ToEnum` | core/include/core/EnumConverter.hpp:69-72 | The first value added under the name in any letter case; the exception exactly when none was. |
| `PropertyTree.UnsignedRoundTrip` | webapi/include/webapi/serialization/JsonDeserializer.hpp:44-50 | Every unsigned value below the limit of its type, over the full 64-bit range, is read back from its decimal text. |
| `PropertyTree.DecimalPlaces` | webapi/include/webapi/serialization/JsonSerializer.hpp:42-51 | The text of a number is its decimal numeral: place by place the right digit, and no leading zero. |
| `PropertyTree.UnsignedReadIff` | webapi/include/webapi/serialization/JsonDeserializer.hpp:44-50 | A text is read as a number exactly if it is one or more digits whose value is below the limit. |
| `PropertyTree.LeadingZero` | webapi/include/webapi/serialization/JsonDeserializer.hpp:44-50 | A leading zero changes nothing. |
| `PropertyTree.VectorRoundTrip` | webapi/include/webapi/serialization/JsonDeserializer.hpp:76-91 | A vector of any length, the empty one included, is read back in order if and only if each of its elements is. |
| `JsonMessages.UserRoundTrip` | webapi/include/webapi/serialization/JsonDeserializerModel.hpp:32-42 | User information is read back. |
| `JsonMessages.DealRoundTrip` | webapi/include/webapi/serialization/JsonDeserializerModel.hpp:44-55 | A deal is read back if and only if the text of its amount is. |
| `JsonMessages.PositionRoundTrip` | webapi/include/webapi/serialization/JsonDeserializerModel.hpp:68-79 | A rating position is read back if and only if the text of its amount is. |
| `JsonMessages.RatingRoundTrip` | webapi/include/webapi/serialization/JsonDeserializerModel.hpp:81-93 | A relative rating with lists of any lengths is read back if and only if the text of every amount in it is. |
| `JsonMessages.PayloadRoundTrip` | webapi/include/webapi/serialization/JsonSerializerModel.hpp:103-148 | For all six payload kinds the dispatch on the type reads back what the dispatch on the value wrote, if and only if the text of every amount in it is read back. |
| `JsonMessages.MessageRoundTrip` | webapi/include/webapi/serialization/JsonDeserializerModel.hpp:95-157 | A message is read back, its type name in any letter case, if and only if the text of every amount in it is. |
| `JsonMessages.WsErrorRoundTrip` | webapi/include/webapi/serialization/JsonDeserializerWsMessage.hpp:21-37 | Every error envelope is read back. |
| `JsonMessages.WsDataRoundTrip` | webapi/include/webapi/serialization/JsonDeserializerWsMessage.hpp:39-53 | A data envelope is read back with its message if and only if the text of every amount in it is. |
| `JsonMessages.WsRoundTrip` | webapi/include/webapi/serialization/JsonDeserializerWsMessage.hpp:55-83 | Every ack and error, and every data envelope exactly if the text of each amount in it is read back, is read back from its tree with the type names in any letter case. |
| `JsonMessages.ParseSerialize` | webapi/include/webapi/serialization/JsonSerializerWsMessage.hpp:35-95 | Parsing undoes serialising for every message without amounts, and for the others exactly if the text of each amount is read back. |
| `JsonMessages.UserFields` | webapi/include/webapi/serialization/JsonSerializerModel.hpp:26-60 | User information on the wire: the id under "id", the name under "name". |
| `JsonMessages.DealFields` | webapi/include/webapi/serialization/JsonSerializerModel.hpp:38-49 | A deal on the wire: each value under its own name. |
| `JsonMessages.PositionFields` | webapi/include/webapi/serialization/JsonSerializerModel.hpp:62-74 | A rating position on the wire: user, position and amount under their names. |
| `JsonMessages.RatingFields` | webapi/include/webapi/serialization/JsonSerializerModel.hpp:76-90 | A relative rating on the wire: own position and the three lists under their names, each list in order. |
| `JsonMessages.MessageFields` | webapi/include/webapi/serialization/JsonSerializerModel.hpp:92-101 | A message on the wire: the name of its kind under "type", its contents under "payload". |
| `JsonMessages.WsFields` | webapi/include/webapi/serialization/JsonSerializerWsMessage.hpp:23-95 | An envelope on the wire: id, the name of its kind, and the message under "data" or message and code under "error". |
| `JsonMessages.UserReadIff` | webapi/include/webapi/serialization/JsonDeserializerModel.hpp:32-66 | Exactly which trees are read as given user information, whatever the order of the children and whatever else is there. |
| `JsonMessages.DealReadIff` | webapi/include/webapi/serialization/JsonDeserializerModel.hpp:44-55 | Exactly which trees are read as a given deal. |
| `JsonMessages.PositionReadIff` | webapi/include/webapi/serialization/JsonDeserializerModel.hpp:68-79 | Exactly which trees are read as a given rating position. |
| `JsonMessages.MessageReadIff` | webapi/include/webapi/serialization/JsonDeserializerModel.hpp:108-157 | Exactly which trees are read as a given message: its name in any letter case and a payload read as its contents. |
| `JsonMessages.WsReadIff` | webapi/include/webapi/serialization/JsonDeserializerWsMessage.hpp:21-83 | Exactly which trees are read as a given envelope. |
| `JsonMessages.EmptyRefused` | webapi/include/webapi/serialization/JsonDeserializerModel.hpp:26-30 | A tree without children is refused everywhere with the error for empty values. |
| `JsonMessages.NamesOk` | core/src/Model.cpp:22-30 | The type names are distinct whatever their letter case, and so are the envelope names. |
| `JsonMessages.TypeNameAccepted` | core/include/core/EnumConverter.hpp:69-72 | A type name is accepted if and only if it spells one of the six in some letter case. |
| `GrpcRouting.RoutesSound` | grpcapi/src/GrpcTransportServer.cpp:138-179 | In every run each route leads to a stream that is still registered and whose session named that user. |
| `GrpcRouting.NoneAfterClose` | grpcapi/src/GrpcTransportServer.cpp:168-176 | So no route survives the clean-up of its own stream. |
| `GrpcRouting.RoutesAre` | grpcapi/src/GrpcTransportServer.cpp:138-179 | Exactly which routes exist, from the events alone: the stream that last named the user, unless any stream that had named the user was cleaned up since. |
| `GrpcRouting.RouteIff` | grpcapi/src/GrpcTransportServer.cpp:138-179 | The same by position in the run: the last read that named the user on an open stream, with no close of a stream that had named the user since. |
| `GrpcRouting.NewerRouteLost` | grpcapi/src/GrpcTransportServer.cpp:171-174 | A run in which the end of an old stream takes a user's route to the newer one out of the map, although that stream is open and has named the user. |
| `GrpcRouting.Server.Connect` | grpcapi/src/GrpcTransportServer.cpp:138-142 | Carries the object on by the opening of a stream. |
| `GrpcRouting.Server.ReadEvent` | grpcapi/src/GrpcTransportServer.cpp:146-159 | Carries the object on by one turn of the read loop: the stream registered once, the user routed to it and noted in the session. |
| `GrpcRouting.Server.CleanUp` | grpcapi/src/GrpcTransportServer.cpp:168-176 | Carries the object on by the end of a stream: the loop removes the routes of exactly the users of its session. |
| `GrpcRouting.Server.LookUp` | grpcapi/src/GrpcTransportServer.cpp:183-193 | A handle found belongs to a registered stream that is open and has named the user, and is the one the events alone give; none is found exactly when they give none. |
| `WsRouting.RoutesSound` | webapi/src/transport/WsTransportServer.cpp:49-67 | In every run a user's route is the connection of the last connect with no later disconnect of that user. |
| `WsRouting.RoutesAre` | webapi/src/transport/WsTransportServer.cpp:49-98 | Exactly which routes and bookings exist, from the events alone. |
| `WsRouting.RouteIff` | webapi/src/transport/WsTransportServer.cpp:49-98 | The same by position in the run: the user's last connect, with no disconnect of the user and no close of a connection booked under the user since. |
| `WsRouting.OwnerIff` | webapi/src/transport/WsTransportServer.cpp:49-98 | A connection is booked under the user of its last connect, if since then there was no disconnect on it and it was not closed. |
| `WsRouting.CloseTakesNewerRoute` | webapi/src/transport/WsTransportServer.cpp:92-98 | Closing a connection takes a user's route to another one out of the map if and only if the closed one had that user's connect with neither disconnect nor close on it since. |
| `WsRouting.NewerRouteLost` | webapi/src/transport/WsTransportServer.cpp:92-98 | Such a run: a user connects again on a second connection, the first closes, and the route is gone. |
| `WsRouting.Server.OnMessage` | webapi/src/transport/WsTransportServer.cpp:49-67 | Carries the object on by a connect, a disconnect or any other message. |
| `WsRouting.Server.OnClose` | webapi/src/transport/WsTransportServer.cpp:85-99 | Carries the object on by a close. |
| `WsRouting.Server.LookUp` | webapi/src/transport/WsTransportServer.cpp:141-148 | A connection found is that of the user's last connect with no disconnect since, and the one the events alone give; none is found exactly when they give none. |

## Left out

- AckProtocol.AckMeansParsed: assumes that no id is reused while its message is tracked or in transit, which the code does not enforce; `AckProtocol.AcksRightIffNoReuse` shows that this is the exact condition.
- AckProtocol.TransmissionsSpaced: asks for steady readings throughout the run; `AckProtocol.VisitsSpacedIff` gives the exact condition state by state for visits within which the clock does not go back.
- AckProtocol.TrackKeeps: is stated below counter overflow, where id 0 is given twice.
- RatingInterleaved.InWindowIffClean: reads and writes the two window bounds in one step each.
- RatingProvider.UserRatingProvider.RowsAreAcceptedDeals: is about exact amounts and atomic deal and rollover steps.
- RatingWeek.AmountsAreFolds: takes a deal and a rollover as atomic steps; `RatingInterleaved` takes them apart, but still reads both window bounds at once.
- RatingWeek.SumConserved: is stated in exact arithmetic; float amounts round. The in-order fold of `Ranking.RunIsRanking` holds for any combining function.
- RatingWeek.TotalUpserted: is stated in exact arithmetic; float amounts round.
- RatingWeek.AcceptedInWindow: is stated for windows from the Epoch on; `RatingWeek.PassesIff` covers the others.
- TimeHelper.PreviousWeekDay: is stated from the Epoch on; `TimeHelper.PreviousIsPast` covers the times before it.
- JsonMessages.WsRoundTrip: starts from property trees, not from JSON text, and leaves open which float amounts have a text that reads back; the same holds for `JsonMessages.ParseSerialize` and the payloads with amounts.
- PropertyTree.UnsignedRoundTrip: the number reader accepts digits only; the stream extraction of the original also takes signs and surrounding white space.
- ScopeRunner.StopIsFinal: is about atomic accesses interleaved one by one; threads, memory orders and progress of the spinning loops are not modelled.
- WriteQueue.WholeFramesInOrder: says nothing about the wire after the first write error, and a queue left behind by a stop is never written.
- Reassembly.SplitDelivers: is about data opcodes and control frames that RFC 6455 allows; of the other sequences of frames the single steps are stated, not whole runs.
- EnumNames.FoldIs: is about the letters A to Z; what a locale does to other characters is not modelled.
- GrpcRouting.RoutesSound: a route may be missing for a connected user; `GrpcRouting.RoutesAre` says exactly when. What happens to a stream after the look-up lock is released is not modelled.
- WsRouting.Server.LookUp: whether the connection found is still alive is not modelled.
- WebSocketServer.Connection.ReadMessageContent: a declared length within 4 of 2^64 that passes the size check makes the number of bytes to wait for wrap, and the handler would then copy that many bytes out of an empty buffer; it is taken as a connection that reads no further.
- The send counter is incremented without a lock; the model takes the increment together with the transmission as one step.
- NaN keys: the table requires a strict weak order, which float comparison is only without NaN.
- std::lower_bound is modelled as the usual halving search; the initial capacity of the containers is not modelled.
- Overflow of the year in timegm is not modelled.
- The name look-ups that the rating queries add to the rows, and the consistency of the four queries of one rating message.
- The flag that makes a close be sent only once, timeouts, and the handshake.
- The client's reading side, including what it does with bytes left over from the handshake.
- The JSON text reader and writer, Asio, TLS, threads and timers, gRPC and its generated code, and the crypto helpers.
- HTTP headers, query strings and percent coding.
- The user and deal stores, start-up, option parsing, logging, the test client and the status-code tables.
