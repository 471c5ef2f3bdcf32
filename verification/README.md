# Map holder, map synchronisation and work loop of the SLAMWARE ROS server

A Dafny model of the server side of `slamware_ros_sdk`, and of one command subscriber of `grasp_topic`, with proofs.

- The **map holder** keeps an unbounded grid of bytes in one row-major buffer over a 16-aligned available rectangle, with a
  valid rectangle inside it. `HolderSpec.dfy` says what each operation does to the grid, `MapHolder.dfy` is the class with its
  copy loops, `HolderRuns.dfy` has the theorems over all sequences of operations, and `HolderWidth.dfy` shows when 32-bit
  arithmetic agrees with the unbounded integers used elsewhere. `CellRects.dfy`, `Alignment.dfy` and `CellAreas.dfy` are its
  rectangle, alignment and area helpers.
- The **explore-map worker** synchronises the holder with the platform. `SyncTiles.dfy` is the tiling of the requests,
  `MapSync.dfy` what a sync achieves, `MapEpochs.dfy` the flags over whole runs, `MapPerform.dfy` one perform as a whole with
  its exceptions, `ExploreMapWorker.dfy` the class.
- The **work thread** connects, re-initialises the workers and schedules them. `LoopLog.dfy` defines the protocol of its log of
  events, phase by phase, and what must have come before, `LoopProgress.dfy` what comes next, stated on the events alone,
  `WorkLoop.dfy` is the thread. `MapReconnect.dfy` puts a run of the map worker into such a
  log and says what a connection fault means for it.
- `LaserScan.dfy` is the compensation of laser scans, `SensorCache.dfy` the sensor-info worker, `CommandDedupe.dfy` the
  command window of the plan subscriber.

What is outside enters as parameters. `Platform.Script` gives the platform's answer to the n-th call, any answer or exception
for any n. `WorkLoop.World` does the same for the clock, connects, resets, re-initialisations and performs; a stop request
arrives after an arbitrary number of polls, so every prefix of every run is covered.

## Conventions

- Lengths are exact reals, angles exact reals in degrees (half a turn is 180), times integers in nanoseconds.
- Float equality is a difference below 2^-23, as in `src/slamware_sdk/include/rpos/system/types.h:85-91`.
- The holder works on unbounded integers. `HolderWidth` lists the signed 32-bit values of a write and of a reservation and
  shows that none overflows while the touched box, widened as the waste theorem says, has representable ends and area.
- An assertion of the source that can fail is an outcome of the model (`AssertionFailed` for a tile limit of 0).
- Code and comment disagree in one place: `src/slamware_ros_sdk/src/server/server_map_holder.h:49` announces the rectangle of
  the cells actually filled, while the code returns the requested rectangle. The model follows the code.
- The work thread starts without a connection: only its own connect sets one (`slamware_ros_sdk_server.cpp:452-478`), and
  cleaning up releases it (`:341`). A poll that says no stands for a stop request or for ROS being down.
- A request for a sync made while a perform runs either takes effect as if made right before or after it, or is absorbed by
  the flag store of a sync that succeeds. The run theorems therefore place requests between performs.

## Model

| member | source | states |
|---|---|---|
| CellRects.ContainsIsCellInclusion | src/slamware_ros_sdk/src/server/server_map_holder.cpp:239-253 | for a non-empty object, rectangle containment holds exactly when every cell of the object is a cell of the container |
| CellRects.EmptyObjectContainment | src/slamware_ros_sdk/src/server/server_map_holder.cpp:239-253 | for every empty object, which has no cell to miss, the test holds exactly when the corner is a cell of the container and the side that is left, if any, ends inside it |
| CellRects.MergeIsLeastUpperBound | src/slamware_ros_sdk/src/server/server_map_holder.cpp:255-279 | the merge of two non-empty rectangles is contained in a rectangle exactly when both are, and covers both |
| CellRects.MergeLaws | src/slamware_ros_sdk/src/server/server_map_holder.cpp:255-279 | merging is associative and idempotent for all arguments, and commutes exactly when the arguments are equal or not both empty |
| CellRects.IntersectIsSharedCells | src/slamware_ros_sdk/src/server/server_map_holder.cpp:281-305 | the intersection has exactly the shared cells, for empty arguments too |
| CellRects.HullIsLeast | src/slamware_ros_sdk/src/server/server_map_holder.cpp:141 | successive merging builds the least rectangle containing all that were merged |
| CellRects.HullIgnoresOrder | src/slamware_ros_sdk/src/server/server_map_holder.cpp:141 | that rectangle depends only on which rectangles occur, not on order or repetition |
| Alignment.AlignedFloor32Exact | src/slamware_ros_sdk/src/server/server_map_holder.cpp:428-446 | the unsigned 32-bit path gives the greatest multiple of 16 at or below the index for all indices from -(2^31 - 16), and a signed overflow for all smaller ones |
| Alignment.AlignedCeil32Exact | src/slamware_ros_sdk/src/server/server_map_holder.cpp:448-458 | a negative size throws; the result is the least multiple of 16 at or above the size exactly for 0 .. 2^31 - 16, and wraps to -2^31 above |
| Alignment.AdjustedIsLeastAligned | src/slamware_ros_sdk/src/server/server_map_holder.cpp:460-478 | the adjusted rectangle is the least 16-aligned rectangle containing the argument |
| Alignment.Adjusted32Exact | src/slamware_ros_sdk/src/server/server_map_holder.cpp:460-478 | in 32-bit arithmetic the adjustment is exact if and only if the aligned starts, the ends and the aligned sizes are representable |
| CellAreas.RoundedInvertsAreaOf | src/slamware_ros_sdk/src/server/server_map_holder.cpp:355-363 | rounding the area of a cell rectangle gives back that rectangle |
| CellAreas.RoundIsNearest | src/slamware_ros_sdk/src/server/server_map_holder.cpp:115-116 | rounding is at most one half off, takes halves away from zero, and treats both signs alike, for all reals |
| CellAreas.RoundedIsNearest | src/slamware_ros_sdk/src/server/server_map_holder.cpp:355-363 | each field of the rounded rectangle is the nearest whole number of cells to that of the area, at most half a cell off, for both signs |
| CellAreas.MinBoundingIsLeastCover | src/slamware_ros_sdk/src/server/server_map_holder.cpp:317-346 | the bounding rectangle is the least one whose half-open cells cover the closed area |
| CellAreas.MinBoundingOfCellArea | src/slamware_ros_sdk/src/server/server_map_holder.cpp:317-346 | on the area of a non-empty cell rectangle the result is one column and one row larger |
| CellAreas.MinBoundingToleratesOffByOne | src/slamware_ros_sdk/src/server/server_map_holder.cpp:321-337 | with floored quotients off by one either way, the correction branches still cover the half-open area of positive size |
| HolderSpec.ReservedKeepsCells | src/slamware_ros_sdk/src/server/server_map_holder.cpp:50-96 | reserving keeps every cell, contains the request and what was available, and keeps the representation invariant |
| HolderSpec.ExtendedKeepsCells | src/slamware_ros_sdk/src/server/server_map_holder.cpp:372-409 | extending for a write keeps every cell and the invariant, and makes room for the write |
| HolderSpec.WrittenIsOverwrite | src/slamware_ros_sdk/src/server/server_map_holder.cpp:107-143 | a write overwrites exactly the cells of its rectangle, merges the valid rectangle, and keeps the invariant |
| MapHolder.Holder.constructor | src/slamware_ros_sdk/src/server/server_map_holder.cpp:16-21 | a new holder is blank, with the default resolution and extension count |
| MapHolder.Holder.Clear | src/slamware_ros_sdk/src/server/server_map_holder.cpp:28-35 | the whole state afterwards: empty rectangles, areas and buffer, same resolution and extension count |
| MapHolder.Holder.Reinit | src/slamware_ros_sdk/src/server/server_map_holder.cpp:37-43 | an invalid resolution throws and changes nothing; otherwise the holder is cleared and takes the resolution |
| MapHolder.Holder.SetMoreCellCountToExtend | src/slamware_ros_sdk/src/server/server_map_holder.cpp:45-48 | a negative count selects the default; nothing else changes |
| MapHolder.Holder.ReserveByCellIdxRect | src/slamware_ros_sdk/src/server/server_map_holder.cpp:50-96 | the reallocation with its row copies yields exactly the reserved state, in bounds throughout |
| MapHolder.CopyValidCells | src/slamware_ros_sdk/src/server/server_map_holder.cpp:64-84 | the copy loop with two running offsets moves exactly the cells of the valid rectangle to their place in the new buffer |
| MapHolder.Holder.ReserveByArea | src/slamware_ros_sdk/src/server/server_map_holder.cpp:98-105 | reserving an area reserves its minimal bounding rectangle, unless the area is empty |
| MapHolder.Holder.CheckToExtendMap | src/slamware_ros_sdk/src/server/server_map_holder.cpp:372-409 | the branch-by-branch extension yields exactly the extended state |
| MapHolder.Holder.SetBlock | src/slamware_ros_sdk/src/server/server_map_holder.cpp:107-143 | outcome and state for every case: empty block, unequal or invalid resolution, or the pointwise overwrite |
| MapHolder.CopyBlock | src/slamware_ros_sdk/src/server/server_map_holder.cpp:130-139 | the copy loop overwrites exactly the rows of the block, cell by cell |
| MapHolder.Holder.SetMapData | src/slamware_ros_sdk/src/server/server_map_holder.cpp:145-161 | outcome and state for every received map, including the empty handle, unequal axes and too few cells |
| MapHolder.Holder.FillRosMapMsg | src/slamware_ros_sdk/src/server/server_map_holder.cpp:163-224 | the published grid is the classified value of every cell of the requested rectangle, at its origin and size |
| MapHolder.Holder.ShowCells | src/slamware_ros_sdk/src/server/server_map_holder.cpp:199-219 | the nested loops show exactly the intersection of the request with the valid rectangle |
| MapHolder.Holder.FillRosMapMsgForArea | src/slamware_ros_sdk/src/server/server_map_holder.cpp:226-232 | the grid of an area is that of its minimal bounding rectangle, with the resolution, origin and size of that rectangle; an empty area gives the empty rectangle |
| HolderRuns.ApplyKeepsInvariant | src/slamware_ros_sdk/src/server/server_map_holder.cpp:28-161 | every operation keeps the representation invariant: buffer size, alignment to 16, containment of the valid rectangle, 0 outside it |
| HolderRuns.StoreEffect | src/slamware_ros_sdk/src/server/server_map_holder.cpp:107-161 | a map changes the holder exactly when it passes all checks, and then as a pointwise overwrite |
| HolderRuns.StoreOutcome | src/slamware_ros_sdk/src/server/server_map_holder.cpp:107-161 | which error a received map gets, for each of the four, from its resolutions, sizes and data and the holder's resolution alone |
| HolderRuns.StoredMapIsNearest | src/slamware_ros_sdk/src/server/server_map_holder.cpp:107-161 | an accepted map starts at the cell nearest to its position on both axes, and its byte j * dimX + i is the cell i columns and j rows further |
| HolderRuns.RunRefinesGrid | src/slamware_ros_sdk/src/server/server_map_holder.cpp:28-161 | over every sequence of operations the buffer stands for the last-writer grid computed from the operations alone, and the valid rectangle is the hull of the writes since the last reset |
| HolderRuns.PublishedShowsGrid | src/slamware_ros_sdk/src/server/server_map_holder.cpp:163-224 | after any run and for any request, each published cell is -1, 0 or 100 exactly as the grid byte is 0, 1..127 or 128..255, inside and outside the available area |
| HolderRuns.PublishedIsMap | src/slamware_ros_sdk/src/server/server_map_holder.cpp:163-224 | the grid read as a map: entry k classifies the cell whose lower corner is k % width columns and k / width rows from the published origin, at the published resolution |
| HolderRuns.ValidRectIgnoresOrder | src/slamware_ros_sdk/src/server/server_map_holder.cpp:141 | two runs with the same written rectangles end with the same valid rectangle |
| HolderRuns.ReallocationGrows | src/slamware_ros_sdk/src/server/server_map_holder.cpp:372-409 | a write that reallocates increases width plus height by at least the extension count plus one, rounded up to 16 |
| HolderRuns.ReallocationsAreAmortised | src/slamware_ros_sdk/src/server/server_map_holder.cpp:372-409 | the reallocations since the last reset times that growth never exceed width plus height |
| HolderRuns.ReallocationBound | src/slamware_ros_sdk/src/server/server_map_holder.cpp:372-409 | their number is at most (width + height) / (extension count + 1) |
| HolderRuns.WasteIsBounded | src/slamware_ros_sdk/src/server/server_map_holder.cpp:372-478 | the available rectangle stays within extension count + 15 cells of the box of the origin and everything written or reserved since the last reset |
| HolderWidth.StoreNeverOverflows | src/slamware_ros_sdk/src/server/server_map_holder.cpp:107-161 | while that widened box has 32-bit ends and area, the next accepted write computes without signed overflow: the product of its dimensions, the ends of the available and the valid rectangle before and after, the extension, its adjustment and area, and the copy offsets |
| HolderWidth.ReserveNeverOverflows | src/slamware_ros_sdk/src/server/server_map_holder.cpp:50-96 | the same for the next reservation |
| SyncTiles.TilesPartition | src/slamware_ros_sdk/src/server/server_workers.cpp:413-437 | the requests of a sync are non-empty, bounded by the limit, pairwise disjoint, and cover exactly the known rectangle |
| SyncTiles.TilesHull | src/slamware_ros_sdk/src/server/server_workers.cpp:413-437 | their hull is the known rectangle |
| MapSync.TileLimitIsPositive | src/slamware_ros_sdk/src/server/server_workers.cpp:388-395 | the tile limit is the request length, at least 16, rounded to the nearest cell; the asserted limit is positive if and only if the resolution is at most twice that length |
| MapSync.UpdateKeepsInvariant | src/slamware_ros_sdk/src/server/server_workers.cpp:354-381 | one update keeps the holder good and of its resolution, changes it only on success, and asks for a re-initialisation exactly on a resolution mismatch |
| MapSync.SyncFlags | src/slamware_ros_sdk/src/server/server_workers.cpp:383-439 | a whole sync leaves the request flag to its caller, asks for a re-initialisation exactly when one of its requests meets another resolution, and does not succeed then |
| MapSync.UpdateTilesShows | src/slamware_ros_sdk/src/server/server_workers.cpp:413-438 | against a platform that fails or answers exactly, the requests succeed just when none fails, and then the holder shows exactly the requested tiles, in the same buffer |
| MapSync.SyncMakesHolderEqual | src/slamware_ros_sdk/src/server/server_workers.cpp:383-439 | after a successful whole sync the valid rectangle is the known one, each known cell equals the platform's, all else is 0, and nothing was reallocated after the first reservation |
| MapEpochs.NearRectIsWindow | src/slamware_ros_sdk/src/server/server_workers.cpp:450-457 | the cells requested around the robot are exactly those that meet the closed window of the half width around its position, at any resolution and parameter |
| MapEpochs.PerformEffect | src/slamware_ros_sdk/src/server/server_workers.cpp:282-306 | how each way through a perform shows in the two flags; an update near the robot asks for a sync exactly if the platform knows nothing; a re-initialisation is pending afterwards exactly when a pending one did not succeed or a request met another resolution |
| MapEpochs.PerformKeepsOwn | src/slamware_ros_sdk/src/server/server_workers.cpp:282-439 | one perform leaves only cells of maps served since the holder was last cleared, by a re-initialisation or by the start of a sync |
| MapEpochs.RunKeepsOwn | src/slamware_ros_sdk/src/server/server_workers.cpp:326-439 | in every state of every run all cells are 0 or come from maps of the holder's own resolution that the platform served since the last re-initialisation or start of a sync |
| MapEpochs.RunExtends | src/slamware_ros_sdk/src/server/server_workers.cpp:270-306 | any event can follow any run |
| MapEpochs.NearUpdateFollowsSync | src/slamware_ros_sdk/src/server/server_workers.cpp:270-306 | an update near the robot follows a re-initialisation and then a successful whole sync, with no re-initialisation pending since and only such updates after the sync |
| MapEpochs.ReadyIsUninterrupted | src/slamware_ros_sdk/src/server/server_workers.cpp:270-363 | no re-initialisation pending since an event means no work loop began and no request met another resolution since |
| MapEpochs.RequestEndsOnlyBySync | src/slamware_ros_sdk/src/server/server_workers.cpp:290-303 | the sync request goes down only by a whole sync that succeeded |
| MapEpochs.RequestStands | src/slamware_ros_sdk/src/server/slamware_ros_sdk_server.cpp:77-91 | a request for a sync stands until a whole sync succeeds, and keeps updates near the robot away until then |
| MapPerform.ReinitTakesResolution | src/slamware_ros_sdk/src/server/server_workers.cpp:326-352 | for every reply to the probe: result, flags and holder; on success the holder is blank and has the resolution of the received map |
| MapPerform.UpdateResult | src/slamware_ros_sdk/src/server/server_workers.cpp:354-381 | for every reply to one request: the result, the flag, and whether and where the map is stored |
| MapPerform.NearUpdateShows | src/slamware_ros_sdk/src/server/server_workers.cpp:441-484 | against a platform that fails or shows a grid, the update near the robot succeeds exactly when neither call fails and some known cell lies in the window; then exactly the known cells of the window equal the grid, all others are unchanged, and the valid rectangle has grown by them |
| MapPerform.QuietPerformIsNearUpdate | src/slamware_ros_sdk/src/server/server_workers.cpp:282-306 | with no flag up a perform is that update |
| MapPerform.PerformShowsMap | src/slamware_ros_sdk/src/server/server_workers.cpp:282-439 | with a flag up, against a platform whose calls succeed, a perform leaves both flags down and the platform's resolution, known rectangle and cells in the holder, and 0 elsewhere |
| MapPerform.RaiseEndsPerform | src/slamware_ros_sdk/src/server/server_workers.cpp:282-484 | whichever call of a perform raises, the perform ends with that call: with the same exception, or quietly if it is a map request that failed as an operation |
| MapPerform.FaultWasRaised | src/slamware_ros_sdk/src/server/server_workers.cpp:282-484 | a perform that ends with a connection exception has it from its last call |
| ExploreMapWorker.WorkData.constructor | src/slamware_ros_sdk/src/server/server_work_data.cpp:10-14 | the shared data start with a sync requested and a blank holder |
| ExploreMapWorker.UpdateWorker.ReinitWorkLoop | src/slamware_ros_sdk/src/server/server_workers.cpp:270-280 | starting a work loop asks for a re-initialisation and changes nothing else |
| ExploreMapWorker.UpdateWorker.GetMapByPltfm | src/slamware_ros_sdk/src/server/server_workers.cpp:308-319 | only an operation failure is turned into an empty map; every other exception and every map is handed on |
| ExploreMapWorker.UpdateWorker.CheckToReinitMap | src/slamware_ros_sdk/src/server/server_workers.cpp:326-352 | flags, holder, calls and outcome after each way the re-initialisation can go |
| ExploreMapWorker.UpdateWorker.CheckRecvResolution | src/slamware_ros_sdk/src/server/server_workers.cpp:354-363 | a different resolution raises the re-initialisation flag |
| ExploreMapWorker.UpdateWorker.UpdateMapInCellIdxRect | src/slamware_ros_sdk/src/server/server_workers.cpp:365-381 | flags, holder, calls and outcome after each way one request can go |
| ExploreMapWorker.UpdateWorker.SyncWholeMap | src/slamware_ros_sdk/src/server/server_workers.cpp:383-439 | the sync in place computes the same state and outcome as the requests of the tiling in order |
| ExploreMapWorker.UpdateWorker.RequestTiles | src/slamware_ros_sdk/src/server/server_workers.cpp:413-438 | the outer loop over the rows of tiles issues exactly the tiling, up to the first failure |
| ExploreMapWorker.UpdateWorker.RequestRow | src/slamware_ros_sdk/src/server/server_workers.cpp:421-434 | the inner loop issues exactly one row of the tiling, up to the first failure |
| ExploreMapWorker.UpdateWorker.UpdateMapNearRobot | src/slamware_ros_sdk/src/server/server_workers.cpp:441-484 | flags, holder, calls made and outcome after each way the update near the robot can go |
| ExploreMapWorker.UpdateWorker.DoPerform | src/slamware_ros_sdk/src/server/server_workers.cpp:282-306 | one perform takes exactly the step the run theorems are about, and makes exactly the calls the exception theorems are about, in that order |
| LoopLog.FlagWasRaised | src/slamware_ros_sdk/src/server/slamware_ros_sdk_server.cpp:485-542 | a worker whose flag is up after a reset was re-initialised since, which left the flag up |
| LoopLog.ReconnectBeforeNextCheck | src/slamware_ros_sdk/src/server/slamware_ros_sdk_server.cpp:394-638 | between a connection fault of any worker, in a perform, a re-initialisation or a reset, and any later worker check there is a release, then a connect in use without fault up to the check, on it a reset and a re-initialisation of every worker, and then a round counting all; and all flags are up |
| LoopLog.ReconnectBeforeNextUse | src/slamware_ros_sdk/src/server/slamware_ros_sdk_server.cpp:394-559 | already a reset or re-initialisation of any worker waits for the release and a new connect |
| LoopLog.DueAfterPerforms | src/slamware_ros_sdk/src/server/server_worker_base.cpp:39-48 | after n performs without a re-initialisation a worker is not due before n intervals past the first |
| LoopLog.PerformsAreBounded | src/slamware_ros_sdk/src/server/server_worker_base.cpp:39-48 | in a time span T without a re-initialisation a worker with interval d > 0 performs at most T / d + 1 times, raised exceptions included |
| LoopProgress.NextEvent | src/slamware_ros_sdk/src/server/slamware_ros_sdk_server.cpp:394-638 | what comes after each event: the resets in order after a connect, polls, waits of 2000 ms after the first two failed rounds, all checks of a pass in order, and the release right after whatever ends the work |
| LoopProgress.YesIsFollowed | src/slamware_ros_sdk/src/server/slamware_ros_sdk_server.cpp:394-638 | what each poll that says yes is followed by: a connect, a round, the checks of a pass, or a wait of 3000 ms after a release |
| LoopProgress.YesIsAPass | src/slamware_ros_sdk/src/server/slamware_ros_sdk_server.cpp:576-638 | in a finished log each yes of the scheduling loop is followed by one pass: a check of every worker in order and at most a sleep, or checks up to a connection fault and the release |
| LoopProgress.StartLeadsToPass | src/slamware_ros_sdk/src/server/slamware_ros_sdk_server.cpp:561-590 | after a start that succeeded the thread polls, says yes exactly if a yes is left, and then the pass begins with the first worker |
| LoopProgress.RoundIsComplete | src/slamware_ros_sdk/src/server/slamware_ros_sdk_server.cpp:500-546 | a round begins with a poll and re-initialises just the workers whose flag was down; its count is the flags that were up plus the re-initialisations that returned true |
| LoopProgress.SleepIsShort | src/slamware_ros_sdk/src/server/slamware_ros_sdk_server.cpp:632-637 | no sleep is longer than 100 ms or reaches past any next trigger |
| WorkLoop.ServerWorker.ResetOnWorkLoopBegin | src/slamware_ros_sdk/src/server/server_worker_base.cpp:26-29 | the flag goes down, unless the reset raised |
| WorkLoop.ServerWorker.ReinitWorkLoop | src/slamware_ros_sdk/src/server/server_worker_base.cpp:31-37 | the worker becomes due at once; its flag is the returned value, or whatever an exception left |
| WorkLoop.ServerWorker.CheckToPerform | src/slamware_ros_sdk/src/server/server_worker_base.cpp:39-48 | a worker performs exactly when due and reports what the perform did, and its next trigger time moves one interval on even if the perform raises |
| WorkLoop.Server.Poll | src/slamware_ros_sdk/src/server/slamware_ros_sdk_server.cpp:93-96 | every poll is logged with its answer, and none says yes after one that said no |
| WorkLoop.Server.RoughSleepWait | src/slamware_ros_sdk/src/server/slamware_ros_sdk_server.cpp:438-450 | a wait lasts at least the given time unless a stop is requested, and the polls during it are counted |
| WorkLoop.Server.ResetWorker | src/slamware_ros_sdk/src/server/slamware_ros_sdk_server.cpp:488-497 | one reset is logged with its outcome; unless it raised, the connection stays in use |
| WorkLoop.Server.ResetWorkers | src/slamware_ros_sdk/src/server/slamware_ros_sdk_server.cpp:485-498 | on success every worker was reset since the connect; otherwise the log ends with the reset that raised |
| WorkLoop.Server.ReinitIfDown | src/slamware_ros_sdk/src/server/slamware_ros_sdk_server.cpp:509-541 | a worker whose flag is up is only counted; otherwise it is re-initialised once and counted only if that returned true |
| WorkLoop.Server.ReinitEach | src/slamware_ros_sdk/src/server/slamware_ros_sdk_server.cpp:504-542 | the count of a round is the number of flags that were up plus the number of re-initialisations that returned true |
| WorkLoop.Server.ReinitRound | src/slamware_ros_sdk/src/server/slamware_ros_sdk_server.cpp:504-546 | a round that counts all workers leaves all flags up and makes the work loop ready to start |
| WorkLoop.Server.RunRounds | src/slamware_ros_sdk/src/server/slamware_ros_sdk_server.cpp:500-558 | at most three rounds; they end with a round that counts all workers, an exception that escapes, three failed rounds or a stop request |
| WorkLoop.Server.ReinitWorkLoop | src/slamware_ros_sdk/src/server/slamware_ros_sdk_server.cpp:480-559 | success means all workers were reset and then one of at most three rounds counted them all; failure shows in the last event of the log unless a stop was requested |
| WorkLoop.Server.CheckWorker | src/slamware_ros_sdk/src/server/slamware_ros_sdk_server.cpp:586-625 | one check is logged with its time and what the perform did; only a connection fault asks for a reconnect |
| WorkLoop.Server.CheckAll | src/slamware_ros_sdk/src/server/slamware_ros_sdk_server.cpp:578-630 | each worker is checked once, in order, up to a connection fault; the computed time is the least of the next triggers and 100 ms after the start of the pass |
| WorkLoop.Server.SleepUntil | src/slamware_ros_sdk/src/server/slamware_ros_sdk_server.cpp:632-637 | the thread sleeps for the whole milliseconds up to the computed time, hence at most 100 ms and no later than any next trigger |
| WorkLoop.Server.Pass | src/slamware_ros_sdk/src/server/slamware_ros_sdk_server.cpp:576-638 | a full pass checks every worker exactly once and then sleeps for the whole milliseconds left until the least next trigger or 100 ms after the start of the pass, if any; a pass cut short ends with a connection fault |
| WorkLoop.Server.LoopWork | src/slamware_ros_sdk/src/server/slamware_ros_sdk_server.cpp:561-639 | the loop keeps the protocol whatever the workers raise, makes one pass for each poll that says yes, and ends only on a stop request, a failed start or a connection fault |
| WorkLoop.Server.Dial | src/slamware_ros_sdk/src/server/slamware_ros_sdk_server.cpp:464-471 | one try to connect is logged with its outcome |
| WorkLoop.Server.LoopTryConnect | src/slamware_ros_sdk/src/server/slamware_ros_sdk_server.cpp:452-478 | it dials after each poll that says yes and waits the configured time after each failure; it ends with a connect made after all earlier faults were released, or unconnected on a stop request |
| WorkLoop.Server.ReleasePlatform | src/slamware_ros_sdk/src/server/slamware_ros_sdk_server.cpp:131-139 | afterwards no fault is unreleased |
| WorkLoop.Server.WorkThread | src/slamware_ros_sdk/src/server/slamware_ros_sdk_server.cpp:394-436 | whatever the performs, re-initialisations and resets raise, the log of the thread obeys the protocol to its end, has every poll that said yes, and ends only with a poll that said no |
| MapReconnect.NearUpdateAfterFault | src/slamware_ros_sdk/src/server/slamware_ros_sdk_server.cpp:394-638 | after a connection fault of any worker, an update near the robot waits for a release, a connect, a reset and re-initialisation of every worker and a round counting all, and then, on that connection, for a re-initialisation of the map and a whole sync that succeeded, with only such updates after it |
| MapReconnect.LostCallIsFault | src/slamware_ros_sdk/src/server/slamware_ros_sdk_server.cpp:586-625 | a call of the map worker that loses the connection, whichever it is, shows as a connection fault in the log of the thread |
| MapReconnect.NearUpdateAfterLostCall | src/slamware_ros_sdk/src/server/slamware_ros_sdk_server.cpp:394-638 | hence after such a call the next update near the robot waits for the whole reconnect, a re-initialisation of the map and a whole sync on the new connection |
| MapReconnect.ContainsNext | src/slamware_ros_sdk/src/server/server_workers.cpp:270-306 | any event of the map worker that the thread reports truthfully extends the log and the run together |
| LaserScan.NormalisedIsCanonical | src/slamware_ros_sdk/src/server/server_workers.cpp:673-685 | the normalised angle is the only one in [-pi, pi) that differs from the input by whole turns |
| LaserScan.AngleDiffIsCircular | src/slamware_ros_sdk/src/server/server_workers.cpp:703-721 | on normalised angles the folded difference is the circular distance |
| LaserScan.OffsetIsCircular | src/slamware_ros_sdk/src/server/server_workers.cpp:775-782 | what the bins compare is the circular distance between bin angle and point angle |
| LaserScan.PublishedAngles | src/slamware_ros_sdk/src/server/server_workers.cpp:737-748 | counter-clockwise the bins run from -pi up, clockwise from pi down, one increment per bin; the two are mirror images |
| LaserScan.BinErrorIsHalfIncrement | src/slamware_ros_sdk/src/server/server_workers.cpp:687-701 | in both directions the bin is below 360 and its published angle within half an increment of the point, at the wrap too |
| LaserScan.NearestWinsExactly | src/slamware_ros_sdk/src/server/server_workers.cpp:724-790 | for any points, infinite distances included: a bin holds the first of its points at minimal circular distance exactly when that point is finite or the last of its bin, and then shows the distance and the quality of that point |
| LaserScan.InfiniteNearestRestarts | src/slamware_ros_sdk/src/server/server_workers.cpp:780-788 | otherwise, after an infinite nearest point, the bin ends as if the scan began right after that point |
| LaserScan.BinEndsFinite | src/slamware_ros_sdk/src/server/server_workers.cpp:780-788 | for any points: a bin ends finite exactly when some finite point of it has no nearer one after it |
| LaserScan.NearestPointWins | src/slamware_ros_sdk/src/server/server_workers.cpp:724-790 | with finite distances a bin is infinite exactly when no valid point maps to it; otherwise it holds the first of the points at minimal circular distance |
| LaserScan.InfiniteReadingIsForgotten | src/slamware_ros_sdk/src/server/server_workers.cpp:780-788 | a witness that the condition is needed: the infinite nearest point leaves its bin open, and a farther point replaces a nearer one |
| LaserScan.BinIgnoresOrder | src/slamware_ros_sdk/src/server/server_workers.cpp:724-790 | without ties a bin depends only on which points occur |
| LaserScan.ReversalIsInvisible | src/slamware_ros_sdk/src/server/server_workers.cpp:750-764 | without ties forward and reverse processing give the same bins |
| LaserScan.CompensateAndFillRange | src/slamware_ros_sdk/src/server/server_workers.cpp:767-790 | one point updates the three arrays to what the specification says for one point more |
| LaserScan.CompensateAndFillRanges | src/slamware_ros_sdk/src/server/server_workers.cpp:724-765 | the loops, forward or backward, fill all 360 bins as specified; the published angles are those of the first and the last bin and the step between bins |
| LaserScan.FillRangeMinMax | src/slamware_ros_sdk/src/server/server_workers.cpp:648-671 | the limits are attained and bound all valid distances cut off at 0; infinity and 0 if no point is valid |
| LaserScan.RangesWithinLimits | src/slamware_ros_sdk/src/server/server_workers.cpp:648-671 | every finite range the compensation writes lies between the limits |
| SensorCache.AsTheSameMeans | src/slamware_ros_sdk/src/server/server_workers.cpp:904-945 | the size test and one-sided scan mean equal id sets and, for each id, equal sensor type, impact type and pose |
| SensorCache.AsTheSameIsEquivalence | src/slamware_ros_sdk/src/server/server_workers.cpp:904-945 | on maps keyed by id the comparison is reflexive, symmetric and transitive if the pose comparison is |
| SensorCache.FromList | src/slamware_ros_sdk/src/server/server_workers.cpp:890-902 | every listed id is a key, and every entry is a listed info under its own id |
| SensorCache.FirstInfoWins | src/slamware_ros_sdk/src/server/server_workers.cpp:897-900 | of several infos with one id the first listed is kept |
| SensorCache.InsertAll | src/slamware_ros_sdk/src/server/server_workers.cpp:890-902 | the insertion loop builds the map of the listing |
| SensorCache.ToRos | src/slamware_ros_sdk/src/server/msg_convert.h:372-379 | clearing and converting entry after entry, in any order of the keys, yields the elementwise conversion with the same keys |
| SensorCache.Cache.DoPerform | src/slamware_ros_sdk/src/server/server_workers.cpp:858-888 | it publishes exactly on a change; the stored map is what the series of answers leaves, and the converted map its elementwise conversion |
| SensorCache.CacheTracksPlatform | src/slamware_ros_sdk/src/server/server_workers.cpp:858-888 | after any answers the map the cache stores compares as the same as the last list the platform supplied |
| CommandDedupe.RepeatsAreFarApart | src/grasp_topic/scripts/xinhai_connect.py:1629-1643 | between two executions of one command lie at least 100 executed commands, pairwise distinct and different from it |
| CommandDedupe.WindowIsDistinct | src/grasp_topic/scripts/xinhai_connect.py:1601 | no stretch of at most 100 executed commands repeats one |
| CommandDedupe.WindowIsTail | src/grasp_topic/scripts/xinhai_connect.py:1601 | a command is in the window exactly if it is among the last 100 executed ones |
| CommandDedupe.PlanSubscriber.PlanCallback | src/grasp_topic/scripts/xinhai_connect.py:1629-1643 | the window is always the last 100 executed commands; a command runs exactly when it is not in it, whether or not it succeeds |

## Left out

- Publishers, subscribers, services, transforms, logging and parameter declarations: plumbing over libraries that are not part of this model.
- The platform library, the composite map reader and writer, and the network: only their answers and exceptions appear.
- Floating-point rounding and NaN: arithmetic is exact; the bounding rectangle is proved for quotients off by one.
- The conversions of `server_map_holder.cpp:115-116` and `:157` from float and from the byte count to a 32-bit integer: the rounded position and the size of the received data are taken as they are.
- Starting, stopping and cleaning up the server (`startRun`, `waitUntilStopped`, `cleanup_`): one-branch state changes around the thread.
- Uncompensated laser scans (`fillOriginalRangesInMsg_`) and the choice of the reverse direction: elementwise copies.
- The other workers' perform bodies, message conversion tables, and the remaining Python scripts: field copies and device sequencing.
- What each worker does while re-initialising: the reply and the flag it leaves are arbitrary, which covers the workers whose flag is up before their body ends.
- Liveness of a sync request that arrives during a sync: a sync that succeeds may absorb it.
- Pose equality of the sensor comparison lives in the platform library: it is a parameter, and the equivalence is proved for any pose comparison that is one.
- A plan callback that runs while another waits for a pose: callbacks are handled one at a time.
