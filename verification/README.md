# Verified model of the game's support software

The repository holds a two-player FPGA game: its hardware description, the Nios II support
package it runs on, and the script that turns sprites into hardware tables. This project
models the parts of it that keep state under concurrency or do delicate arithmetic, and
proves what they are for.

| files | what they model |
|---|---|
| `UartSystem.dfy` | The interrupt-driven JTAG UART driver as a system of steps: a writer, a reader, the interrupt routine, the timer and the host share two 2048-byte rings without a lock. Invariant, refinement of unbounded queues, no lost wakeup, termination of the interrupt routine, when calls fail |
| `UartProgress.dfy` | Progress of that system: everything gets out and in, and every write returns, from every reachable state; a run in which a write gives up too early |
| `JtagUart.dfy` | The same driver as the code is written: an object whose fields the routine and the two calls update. Every update is a step of the system above, with arbitrary interference between any two accesses to shared state, and host actions within the interrupt routine |
| `Palette.dfy`, `Chunks.dfy` | Palette reduction by greedy clustering, which is optimal, the in-place recolouring, and the split of a sprite into chunk tables |
| `AlarmTimer.dfy`, `Alarms.dfy`, `AlarmRuns.dfy`, `ClockRuns.dfy` | 32-bit alarm times with a roll-over flag against unbounded time; the circular list of alarms on the heap, walked while entries leave it; whole runs of ticks, and of starts, stops and ticks |
| `Numerals.dfy`, `HexWord.dfy`, `Formats.dfy`, `FormatParsing.dfy`, `FormatLaws.dfy`, `LogPrintf.dfy`, `AltPrintf.dfy` | The two small printf engines against one rendering of formats; written formats and what the automaton reads; what each conversion prints, read back as a number; numerals and their values |
| `TimeOfDay.dfy` | `settimeofday` and `gettimeofday`, with their 32- and 64-bit, signed and unsigned arithmetic |
| `FdSpec.dfy`, `FdLaws.dfy`, `FdTable.dfy` | The file-descriptor table: open, close, ioctl locks, redirection; its invariant over runs, and what each call changes and answers |
| `HeapSpec.dfy`, `HeapLaws.dfy`, `CallGraph.dfy`, `CallCounts.dfy`, `Heap.dfy` | `sbrk`, the profiler's slab allocator on top of it, where everything lies over runs; the lists of functions and call arcs it builds in its records, and that they count every call exactly |
| `Elevator.dfy` | The elevator's movement registers |
| `Words.dfy` | 32-bit words and facts of division, used by the others |

Where the code is imperative the model is a class or an array algorithm, proved against
functions on values; the theorems are about those functions. `dafny verify dfyconfig.toml`
checks everything.

## Conventions and assumptions

- Time, interrupts, the host, the names of files and what drivers answer are parameters or
  nondeterministic choices. The build is single-threaded apart from interrupts, so that
  semaphores and event flags do nothing.
- UART hardware: RI is raised only with RE set and data waiting, WI only with WE set and room
  in the 64-byte transmit FIFO; RVALID clear implies RAVAIL zero.
- An argument list is a sequence of 32-bit words, and string arguments are found through a
  total function from words to strings shorter than 2^31. In `LogPrintf` a `long` is 32 bits
  wide, so the letter l changes nothing, and `int` arithmetic on widths wraps.
- `limit` in `HeapSpec` is at most 2^31 in the theorems: the address space has 31 bits, and
  the core of this system drives 29 of them (`FireboyAndIcegirl/software/usb_kb_bsp/system.h`,
  line 71). `TestIsRealIff` and `WrapIsGranted` show how the test relies on it.
- Ring memory that has not been written has arbitrary contents in `UartSystem.Fresh`.

## Where the code and its own documentation differ

The model follows the code.

- `alt_fd_lock` is documented to fail when another descriptor for the device is open, but it
  scans `i < alt_max_fd` and so overlooks the slot of the high-water mark
  (`FdSpec.GrantedLock`, `FdSpec.LockGrantedWhileShared`).
- A lock is documented to end with `close`; for descriptors 0 to 2 it does not
  (`FdSpec.CloseUnlocksIff`, `FdSpec.StandardLockSurvivesClose`).
- `settimeofday` promises that an immediate `gettimeofday` returns the value set; its 32-bit
  product makes that depend on how often it wraps (`TimeOfDay.SetThenGetAtOnce`).
- A delay of 2^32-1 ticks is documented like any other, but is taken for "at once"
  (`AlarmTimer.ExactUnlessAliased`).
- `sbrk` is documented to do no bounds checking; it does check the limit. The profiler in
  turn does not look at its answer (`HeapSpec.UncheckedRefill`).
- -EIO is commented "host not connected". A blocking read or write of no bytes returns it
  although the host is there (`UartSystem.EmptyReadFails`, `UartSystem.EmptyWriteFails`). For
  reads these are the only ones as long as the host is not inactive for the timeout
  (`UartSystem.ReadEioWithHost`). A write of data returns it too when the timer has found the
  host inactive once, long before the timeout, even if the host has just made room
  (`UartProgress.WriteGivesUpTooEarly`; the exact condition is `UartSystem.WriteEioIff`).

## Model

| member | source | states |
|---|---|---|
| `UartSystem.StepKeeps` | FireboyAndIcegirl/software/usb_kb_bsp/drivers/src/altera_avalon_jtag_uart_init.c:117-196 | In every state that satisfies the invariant, every step of the writer, the reader, the interrupt routine, the timer and the host keeps it: ring contents against byte histories, both stale snapshots, both interrupt-enable bits |
| `UartSystem.RunKeeps` | FireboyAndIcegirl/software/usb_kb_bsp/drivers/src/altera_avalon_jtag_uart_init.c:117-196 | The invariant, and with it the safety of every array access, holds after every run from any state that satisfies it |
| `UartSystem.TransmitRefinesQueue` | FireboyAndIcegirl/software/usb_kb_bsp/drivers/src/altera_avalon_jtag_uart_write.c:98-215 | After every interleaving, bytes at the host, then the transmit FIFO, then the ring, are exactly the bytes accepted by writes, in order; the ring never holds more than 2047 bytes |
| `UartSystem.ReceiveRefinesQueue` | FireboyAndIcegirl/software/usb_kb_bsp/drivers/src/altera_avalon_jtag_uart_read.c:115-179 | After every interleaving, bytes returned by reads, then the ring, then the receive FIFO, are exactly the bytes the host sent; the ring never holds more than 2047 |
| `UartSystem.HistoriesGrow` | FireboyAndIcegirl/software/usb_kb_bsp/drivers/src/altera_avalon_jtag_uart_init.c:117-196 | What has been accepted, sent, received or returned at any point of a run is a prefix of what it is at the end |
| `UartSystem.WriteReturnsItsCount` | FireboyAndIcegirl/software/usb_kb_bsp/drivers/src/altera_avalon_jtag_uart_write.c:199-214 | A finished write returns the number of bytes it enqueued, these are the first of its data, and it stops short only when non-blocking or after seeing the host inactive, and only when the ring was full when it last looked; zero bytes give the error code |
| `UartSystem.ReadReturnsItsCount` | FireboyAndIcegirl/software/usb_kb_bsp/drivers/src/altera_avalon_jtag_uart_read.c:188-202 | A finished read has put the next bytes of the host's stream into the buffer and returns their number; it gets nothing, and an error code, only when it asked for nothing, must not block, or left its wait because the host counted as gone; it stops short only when it has got all that was in the ring when it last looked |
| `UartSystem.ReadEioIff` | FireboyAndIcegirl/software/usb_kb_bsp/drivers/src/altera_avalon_jtag_uart_read.c:173-202 | A finished read reports -EIO exactly when it is blocking and has got nothing, and then the host counted as gone if and only if the caller had asked for any bytes |
| `UartSystem.WriteEioIff` | FireboyAndIcegirl/software/usb_kb_bsp/drivers/src/altera_avalon_jtag_uart_write.c:183-214 | A finished write reports -EIO exactly when it is blocking, has enqueued nothing, and had no data or found the host inactive for any time at all after its wait; if the host did not count as gone, bytes had been sent during the wait |
| `UartSystem.ReadEioWithHost` | FireboyAndIcegirl/software/usb_kb_bsp/drivers/src/altera_avalon_jtag_uart_read.c:173-202 | In every run in which the host is never inactive for the timeout, -EIO is reported to exactly the blocking reads for no bytes |
| `UartSystem.WriteEioWithHost` | FireboyAndIcegirl/software/usb_kb_bsp/drivers/src/altera_avalon_jtag_uart_write.c:183-214 | In every run in which the timer never finds the host inactive, -EIO is reported to exactly the blocking writes of no bytes |
| `UartProgress.WriteGivesUpTooEarly` | FireboyAndIcegirl/software/usb_kb_bsp/drivers/src/altera_avalon_jtag_uart_write.c:183-188 | Concrete run, for every timeout above one second: the host, inactive for one second only, has taken every byte and the ring is empty, yet a blocking write of one byte that had waited for room reports -EIO |
| `UartSystem.EmptyWriteFails` | FireboyAndIcegirl/software/usb_kb_bsp/drivers/src/altera_avalon_jtag_uart_write.c:199-214 | Concrete run: a blocking write of no bytes reports -EIO although the host is there |
| `UartSystem.EmptyReadFails` | FireboyAndIcegirl/software/usb_kb_bsp/drivers/src/altera_avalon_jtag_uart_read.c:188-202 | Concrete run: a blocking read of no bytes reports -EIO although the host is there |
| `UartSystem.WriteRoomIsFree` | FireboyAndIcegirl/software/usb_kb_bsp/drivers/src/altera_avalon_jtag_uart_write.c:106-117 | The room computed from a snapshot is contiguous, never exceeds the free slots, and is zero exactly when the ring is full |
| `UartSystem.ReadAvailIsThere` | FireboyAndIcegirl/software/usb_kb_bsp/drivers/src/altera_avalon_jtag_uart_read.c:122-131 | The amount computed from a snapshot is contiguous, is really there, and is zero exactly when the ring is empty |
| `UartSystem.WriteFillsFreeSlots` | FireboyAndIcegirl/software/usb_kb_bsp/drivers/src/altera_avalon_jtag_uart_write.c:105-126 | While a write copies with a stale `out`, no slot it fills holds an unsent byte, in any run |
| `UartSystem.ReadSlotsAreUndisturbed` | FireboyAndIcegirl/software/usb_kb_bsp/drivers/src/altera_avalon_jtag_uart_read.c:122-140 | While a read copies, its slots hold the next bytes of the stream and the slot the interrupt routine fills next is none of them |
| `UartSystem.NoLostWakeup` | FireboyAndIcegirl/software/usb_kb_bsp/drivers/src/altera_avalon_jtag_uart_write.c:126-139 | In every reachable state unsent data implies WE set or a write between publish and kick; RE clear implies a full ring or a read that has made room and not yet set RE |
| `UartSystem.NothingIsStranded` | FireboyAndIcegirl/software/usb_kb_bsp/drivers/src/altera_avalon_jtag_uart_init.c:117-196 | When no call is in progress and no interrupt is pending, unsent data waits only for FIFO room and unread host data only for ring room |
| `UartSystem.SpinsSeeProgress` | FireboyAndIcegirl/software/usb_kb_bsp/drivers/src/altera_avalon_jtag_uart_write.c:183-184 | A waiting call compares wrapping indices, yet leaves the wait exactly when bytes have moved since its snapshot |
| `UartSystem.IsrWorkShrinks` | FireboyAndIcegirl/software/usb_kb_bsp/drivers/src/altera_avalon_jtag_uart_init.c:132-184 | Every step of the interrupt routine between two looks at the control register uses up ring room or FIFO room |
| `UartSystem.IsrLoopsEnd` | FireboyAndIcegirl/software/usb_kb_bsp/drivers/src/altera_avalon_jtag_uart_init.c:132-184 | Both inner loops end within a fixed number of steps in every reachable state, whatever the host does meanwhile |
| `UartProgress.DrainStep` | FireboyAndIcegirl/software/usb_kb_bsp/drivers/src/altera_avalon_jtag_uart_init.c:117-196 | With WE set, or the ring empty, each step of the interrupt routine or of a reading host gets closer to a host that has everything: fewer bytes in the ring, or in the FIFO, or fewer steps to the next transmission |
| `UartProgress.EverythingGetsOut` | FireboyAndIcegirl/software/usb_kb_bsp/drivers/src/altera_avalon_jtag_uart_init.c:117-196 | From every reachable state in which WE is set, or no write lies between publish and kick, the interrupt routine and a reading host alone get every accepted byte to the host, and a waiting write sees room |
| `UartProgress.SendStep` | FireboyAndIcegirl/software/usb_kb_bsp/drivers/src/altera_avalon_jtag_uart_write.c:98-197 | With a write in progress, each step of it, of the routine or of a reading host gets closer to its return: less data to publish, fewer bytes in the ring or in the FIFO, or fewer steps to one of these |
| `UartProgress.EveryWriteReturns` | FireboyAndIcegirl/software/usb_kb_bsp/drivers/src/altera_avalon_jtag_uart_write.c:98-214 | From every reachable state a write in progress returns after steps of the write, the routine and a reading host; if it is blocking and the host is not inactive, it returns the length of its data, and has enqueued exactly that |
| `UartProgress.WholeStreamGetsOut` | FireboyAndIcegirl/software/usb_kb_bsp/drivers/src/altera_avalon_jtag_uart_write.c:98-214 | From every reachable state whatever, the write in progress, the routine and a reading host get everything that has been accepted by then to the host |
| `UartSystem.IsrReturns` | FireboyAndIcegirl/software/usb_kb_bsp/drivers/src/altera_avalon_jtag_uart_init.c:117-196 | The whole routine, its outer loop included, ends within a fixed number of steps from every reachable state, whatever the host does meanwhile |
| `UartProgress.TakeStep` | FireboyAndIcegirl/software/usb_kb_bsp/drivers/src/altera_avalon_jtag_uart_read.c:115-195 | Each step of the routine or of a reader gets closer to having delivered everything: fewer undelivered bytes, or one return less that has RE to set, or a pass of the routine less, or fewer steps to one of these |
| `UartProgress.EverythingGetsIn` | FireboyAndIcegirl/software/usb_kb_bsp/drivers/src/altera_avalon_jtag_uart_read.c:115-195 | From every reachable state a reader that keeps calling and the interrupt routine deliver everything the host has sent |
| `JtagUart.Uart.constructor` | FireboyAndIcegirl/software/usb_kb_bsp/drivers/src/altera_avalon_jtag_uart_init.c:66-100 | A new driver is a fresh state of the step system, so that its life is a run of it |
| `JtagUart.Uart.ReceiveAll` | FireboyAndIcegirl/software/usb_kb_bsp/drivers/src/altera_avalon_jtag_uart_init.c:132-154 | The receive loop runs until ring full or FIFO dry, whatever the host sends meanwhile, byte for byte as steps of the system; it ends with data left only over a full ring, and else has used ring room up |
| `JtagUart.Uart.TransmitAll` | FireboyAndIcegirl/software/usb_kb_bsp/drivers/src/altera_avalon_jtag_uart_init.c:174-184 | The transmit loop moves one byte for each unit of space, whatever the host takes meanwhile, and leaves space only with the ring empty |
| `JtagUart.Uart.Irq` | FireboyAndIcegirl/software/usb_kb_bsp/drivers/src/altera_avalon_jtag_uart_init.c:106-197 | The routine returns, whatever the host does during it, with no interrupt left to serve at its last look, and keeps every call in progress as it was |
| `JtagUart.Uart.ServeReceive` | FireboyAndIcegirl/software/usb_kb_bsp/drivers/src/altera_avalon_jtag_uart_init.c:125-167 | The read half of a pass uses up ring room, or turns RE off |
| `JtagUart.Uart.ServeTransmit` | FireboyAndIcegirl/software/usb_kb_bsp/drivers/src/altera_avalon_jtag_uart_init.c:169-195 | The write half of a pass uses up ring data, or turns WE off |
| `JtagUart.Uart.Timeout` | FireboyAndIcegirl/software/usb_kb_bsp/drivers/src/altera_avalon_jtag_uart_init.c:203-225 | A poll seen clears the inactivity count; otherwise it grows up to its cap |
| `JtagUart.Uart.Fill` | FireboyAndIcegirl/software/usb_kb_bsp/drivers/src/altera_avalon_jtag_uart_write.c:103-127 | The copying loop appends exactly the bytes it counts to what is accepted, under arbitrary interference between any two accesses |
| `JtagUart.Uart.Kick` | FireboyAndIcegirl/software/usb_kb_bsp/drivers/src/altera_avalon_jtag_uart_write.c:136-139 | Sets WE and settles the due kick |
| `JtagUart.Uart.AwaitRoom` | FireboyAndIcegirl/software/usb_kb_bsp/drivers/src/altera_avalon_jtag_uart_write.c:183-184 | The wait for room ends only when bytes have been sent or the host counts as gone, and changes nothing else; it is cut off after a number of looks |
| `JtagUart.Uart.Write` | FireboyAndIcegirl/software/usb_kb_bsp/drivers/src/altera_avalon_jtag_uart_write.c:83-215 | The call enqueues a prefix of the data and returns its length or the error code, with the object's state a state of the proved system throughout |
| `JtagUart.Uart.Drain` | FireboyAndIcegirl/software/usb_kb_bsp/drivers/src/altera_avalon_jtag_uart_read.c:120-142 | The inner loop copies contiguous pieces in stream order into the buffer and leaves the rest of the buffer alone |
| `JtagUart.Uart.AwaitData` | FireboyAndIcegirl/software/usb_kb_bsp/drivers/src/altera_avalon_jtag_uart_read.c:173-174 | The wait for data ends only when bytes have arrived or the host counts as gone, and records which; it is cut off after a number of looks |
| `JtagUart.Uart.Finish` | FireboyAndIcegirl/software/usb_kb_bsp/drivers/src/altera_avalon_jtag_uart_read.c:188-202 | Sets RE when the call has made room, and returns the count or the error code |
| `JtagUart.Uart.Read` | FireboyAndIcegirl/software/usb_kb_bsp/drivers/src/altera_avalon_jtag_uart_read.c:100-203 | The call delivers exactly what it puts in the caller's buffer, returns its length or the error code, and leaves the rest of the buffer as it was; it gives up with nothing only when it asked for nothing, must not block, or the host counted as gone |
| `JtagUart.Uart.Close` | FireboyAndIcegirl/software/usb_kb_bsp/drivers/src/altera_avalon_jtag_uart_init.c:241-254 | Success means that every byte ever accepted has been handed to the device, or that the host counts as gone; with an empty ring the call always succeeds, and it fails, or still waits, only over unsent bytes and a host that does not count as gone, and fails only when non-blocking |
| `JtagUart.Uart.DeliveredIsPrefix` | FireboyAndIcegirl/software/usb_kb_bsp/drivers/src/altera_avalon_jtag_uart_read.c:115-179 | What reads have returned to callers of the object is always a prefix of what its host has sent |
| `Palette.Sorted` | PNG To Hex/On-Chip Memory/scripts/conv_to_sv.py:242-242 | The pairs of the dictionary in ascending order: the same pairs, none lost |
| `Palette.OpensGroup` | PNG To Hex/On-Chip Memory/scripts/conv_to_sv.py:243-255 | A value too far from the current key may open a group without breaking the clustering invariant |
| `Palette.JoinsGroup` | PNG To Hex/On-Chip Memory/scripts/conv_to_sv.py:249-255 | A value near the key joins the group, and the key moves to it while it is near the first member, again keeping the invariant |
| `Palette.GroupItems` | PNG To Hex/On-Chip Memory/scripts/conv_to_sv.py:242-259 | The one pass yields groups that partition the values in order, each within the distance of its key, and separated from each other |
| `Palette.CombineChannelsCore` | PNG To Hex/On-Chip Memory/scripts/conv_to_sv.py:233-267 | The returned counts and replacements are those of such a clustering, and no count is lost |
| `Palette.GreedyIsOptimal` | PNG To Hex/On-Chip Memory/scripts/conv_to_sv.py:241-263 | No set of values in use that has every value within the distance of a member is smaller than the key set |
| `Palette.DistinctCentres` | PNG To Hex/On-Chip Memory/scripts/conv_to_sv.py:241-263 | Any covering needs as many different centres as there are groups |
| `Palette.CountPixels` | PNG To Hex/On-Chip Memory/scripts/conv_to_sv.py:270-274 | The dictionary has each value of the list exactly once, with its number of occurrences |
| `Palette.RecolourPixel` | PNG To Hex/On-Chip Memory/scripts/conv_to_sv.py:277-280 | The scan over all replacements, which keeps going after a hit, gives a pixel the key of its one group and touches no other pixel |
| `Palette.CombineChannels` | PNG To Hex/On-Chip Memory/scripts/conv_to_sv.py:269-281 | In place, every pixel takes the key of the group of its old value |
| `Palette.RecolouringLaws` | PNG To Hex/On-Chip Memory/scripts/conv_to_sv.py:269-281 | No pixel moves further than the distance, pixel order is kept, new values are values in use and are equal or further apart than the distance |
| `Palette.RecolouringIsIdempotent` | PNG To Hex/On-Chip Memory/scripts/conv_to_sv.py:269-281 | A second recolouring changes nothing |
| `Palette.RecolouringIsMinimal` | PNG To Hex/On-Chip Memory/scripts/conv_to_sv.py:241-281 | No other recolouring to values in use that moves pixels no further has fewer colours |
| `Palette.CountsAddUp` | PNG To Hex/On-Chip Memory/scripts/conv_to_sv.py:261-275 | The counts reported for a pixel list add up to its length |
| `Chunks.ZeroTables` | PNG To Hex/On-Chip Memory/scripts/conv_to_sv.py:445-458 | There is one table for each chunk, partial edge chunks included, of the chunk's size |
| `Chunks.Store` | PNG To Hex/On-Chip Memory/scripts/conv_to_sv.py:460-462 | The store is in bounds and changes what is read for one pixel only |
| `Chunks.ExtentsAddUp` | PNG To Hex/On-Chip Memory/scripts/conv_to_sv.py:445-458 | Chunks lie side by side: each begins where those before it end and is 1 to n wide, and their extents add up to the image |
| `Chunks.SplitSpriteTable` | PNG To Hex/On-Chip Memory/scripts/conv_to_sv.py:445-462 | Every pixel reads back its value of the flat image from its chunk's table at its coordinates modulo the chunk size |
| `Chunks.GuardSelects` | PNG To Hex/On-Chip Memory/scripts/conv_to_sv.py:384-397 | A generated range holds for a coordinate exactly when the chunk index is its quotient |
| `Chunks.ExactlyOneGuard` | PNG To Hex/On-Chip Memory/scripts/conv_to_sv.py:386-402 | For every pixel exactly one of the generated guards holds, and its table has the pixel in bounds |
| `Chunks.PixelInChunk` | PNG To Hex/On-Chip Memory/scripts/conv_to_sv.py:445-462 | Quotient and remainder of a coordinate are inside the chunk count and the chunk's extent |
| `AlarmTimer.TickInSync` | FireboyAndIcegirl/software/usb_kb_bsp/HAL/src/alt_tick.c:109-115 | One tick keeps the 32-bit time and the flag in step with unbounded time, and the alarm expires exactly at its due tick |
| `AlarmTimer.RearmInSync` | FireboyAndIcegirl/software/usb_kb_bsp/HAL/src/alt_tick.c:127-137 | A non-zero answer k puts the alarm in step with the tick k later |
| `AlarmTimer.FiresExactly` | FireboyAndIcegirl/software/usb_kb_bsp/HAL/src/alt_tick.c:96-139 | Over any number of counter wraps an alarm in step fires at exactly the ticks of an alarm on unbounded time, for all callback answers |
| `AlarmTimer.StartedInSync` | FireboyAndIcegirl/software/usb_kb_bsp/HAL/src/alt_alarm_start.c:80-96 | A delay of at most 2^32-2 starts in step with tick now + nticks + 1 |
| `AlarmTimer.ExactUnlessAliased` | FireboyAndIcegirl/software/usb_kb_bsp/HAL/src/alt_alarm_start.c:82-96 | An alarm fires exactly, for all answers and run lengths, if and only if the delay is not 2^32-1 or the counter is at its last value |
| `Alarms.Insert` | FireboyAndIcegirl/software/usb_kb_bsp/HAL/inc/sys/alt_llist.h:90-98 | Relinking puts an entry first in the circle, which stays well formed in both directions; an entry that is in the circle already short-cuts it |
| `Alarms.ShortCutIsNoRing` | FireboyAndIcegirl/software/usb_kb_bsp/HAL/inc/sys/alt_llist.h:90-98 | After such a short cut the links from the head form no circle |
| `Alarms.Remove` | FireboyAndIcegirl/software/usb_kb_bsp/HAL/inc/sys/alt_llist.h:105-117 | Relinking takes the entry out of its circle and leaves it alone with itself, so removing it again is harmless |
| `Alarms.Clock.AlarmStart` | FireboyAndIcegirl/software/usb_kb_bsp/HAL/src/alt_alarm_start.c:64-112 | Error codes as coded; otherwise time and flag are set, in step with tick now + nticks + 1 unless the delay is 2^32-1, and the alarm is first in a well-formed list if and only if it was not registered already |
| `Alarms.Clock.AlarmStop` | FireboyAndIcegirl/software/usb_kb_bsp/HAL/src/alt_tick.c:66-73 | Exactly this alarm leaves the list; stopping it again changes nothing |
| `Alarms.Clock.Visit` | FireboyAndIcegirl/software/usb_kb_bsp/HAL/src/alt_tick.c:102-140 | An alarm is called exactly when it has expired, and re-armed or removed by the answer |
| `Alarms.Clock.Tick` | FireboyAndIcegirl/software/usb_kb_bsp/HAL/src/alt_tick.c:87-141 | The walk visits every alarm once, in order, while alarms leave the list, and ends with a well-formed circle of all but those that answered 0 |
| `Alarms.RemovedIsOut` | FireboyAndIcegirl/software/usb_kb_bsp/HAL/src/alt_tick.c:119-124 | An alarm that has answered 0 is not met again on the walk |
| `AlarmRuns.RunTicks` | FireboyAndIcegirl/software/usb_kb_bsp/HAL/src/alt_tick.c:87-141 | Over any number of ticks on the list, every registered alarm is called exactly when one on unbounded time is, for all answers of all callbacks, and is still registered if and only if no answer was 0 |
| `ClockRuns.RunEvents` | FireboyAndIcegirl/software/usb_kb_bsp/HAL/src/alt_tick.c:66-141 | Over any sequence of starts, stops and ticks the object shows, state by state, an ideal clock on unbounded time: the same list, and the same calls at the same ticks |
| `AlarmRuns.LiveIsIdeal` | FireboyAndIcegirl/software/usb_kb_bsp/HAL/src/alt_tick.c:96-139 | The schedule of an alarm that waits for its next call, or has answered 0, is that of an alarm on unbounded time |
| `Alarms.TickFiresDue` | FireboyAndIcegirl/software/usb_kb_bsp/HAL/src/alt_tick.c:96-139 | In a tick on the list, an alarm in step is called exactly when it is due and is in step again afterwards |
| `LogPrintf.RepChar` | FireboyAndIcegirl/software/usb_kb_bsp/HAL/src/alt_log_printf.c:106-110 | Emits a character r times, none for a negative r |
| `LogPrintf.CountDigits` | FireboyAndIcegirl/software/usb_kb_bsp/HAL/src/alt_log_printf.c:248-255 | The digit count is the length of the numeral and the place value is base^(digits-1), without 32-bit overflow |
| `LogPrintf.PlaceAtMost` | FireboyAndIcegirl/software/usb_kb_bsp/HAL/src/alt_log_printf.c:251-255 | Every place value reached is at most the number itself |
| `LogPrintf.PrintPlaces` | FireboyAndIcegirl/software/usb_kb_bsp/HAL/src/alt_log_printf.c:282-296 | Dividing by falling place values emits the numeral |
| `LogPrintf.PrintInteger` | FireboyAndIcegirl/software/usb_kb_bsp/HAL/src/alt_log_printf.c:206-297 | One integer conversion emits sign, padding and numeral of the signed value, -2^31 included |
| `LogPrintf.PrintConv` | FireboyAndIcegirl/software/usb_kb_bsp/HAL/src/alt_log_printf.c:202-335 | Every conversion letter emits its field and consumes its argument, unknown letters neither |
| `LogPrintf.PrivatePrintf` | FireboyAndIcegirl/software/usb_kb_bsp/HAL/src/alt_log_printf.c:114-341 | The three-state loop emits exactly the rendering of the parsed format, for every format and all arguments |
| `Formats.FieldLength` | FireboyAndIcegirl/software/usb_kb_bsp/HAL/src/alt_log_printf.c:257-280 | A field is as long as the larger of its width and its digits with sign, if and only if subtracting them from the width does not wrap |
| `FormatParsing.FormatRoundTrip` | FireboyAndIcegirl/software/usb_kb_bsp/HAL/src/alt_log_printf.c:130-200 | The automaton's reading of the written form of any list of literals and conversions, with zero flags, widths, precisions and letters l, and with an unfinished conversion at the end, gives exactly the list back |
| `FormatParsing.NulEnds` | FireboyAndIcegirl/software/usb_kb_bsp/HAL/src/alt_log_printf.c:130-200 | Nothing behind a NUL is read: the pieces are those written before it |
| `FormatLaws.SignedDecimal` | FireboyAndIcegirl/software/usb_kb_bsp/HAL/src/alt_log_printf.c:204-297 | For every word, flag and width, what %d and %i print is read back in base 10 as the word below 2^31 and as the word less 2^32 from there on |
| `FormatLaws.UnsignedField` | FireboyAndIcegirl/software/usb_kb_bsp/HAL/src/alt_log_printf.c:302-317 | What %u, %o, %x and %X print is read back in base 10, 8, 16 and 16 as the word itself |
| `FormatLaws.LetterCase` | FireboyAndIcegirl/software/usb_kb_bsp/HAL/src/alt_log_printf.c:287-291 | %X prints no lower-case letter and %x no upper-case one |
| `FormatLaws.SpacePadded` | FireboyAndIcegirl/software/usb_kb_bsp/HAL/src/alt_log_printf.c:268-279 | A field padded with spaces is spaces followed by the field without a width |
| `FormatLaws.ZeroPadded` | FireboyAndIcegirl/software/usb_kb_bsp/HAL/src/alt_log_printf.c:259-267 | A field padded with zeros has no space, and a sign only as its first character and only for a negative number |
| `FormatLaws.CharField` | FireboyAndIcegirl/software/usb_kb_bsp/HAL/src/alt_log_printf.c:319-322 | %c prints the character of an argument below 256 after spaces up to the width |
| `FormatLaws.StringField` | FireboyAndIcegirl/software/usb_kb_bsp/HAL/src/alt_log_printf.c:324-334 | %s prints the string after spaces up to the width, as long as the subtraction does not wrap |
| `FormatLaws.OtherLetters` | FireboyAndIcegirl/software/usb_kb_bsp/HAL/src/alt_log_printf.c:202-335 | A letter other than d, i, u, o, x, X, c and s prints nothing and takes no argument |
| `FormatLaws.PieceInPlace` | FireboyAndIcegirl/software/usb_kb_bsp/HAL/src/alt_log_printf.c:114-341 | Each piece of a format is printed with the argument that follows those taken by the pieces before it, between what they and the later ones print |
| `FormatLaws.PrintsSigned` | FireboyAndIcegirl/software/usb_kb_bsp/HAL/src/alt_log_printf.c:114-341 | From format to number: what %d alone prints reads back as the signed value of the first argument |
| `Formats.IntFieldRoundTrip` | FireboyAndIcegirl/software/usb_kb_bsp/HAL/src/alt_log_printf.c:206-297 | Reading a printed field back gives the number, for every base, width and padding |
| `Formats.NoRedundantZero` | FireboyAndIcegirl/software/usb_kb_bsp/HAL/src/alt_log_printf.c:257-296 | Without a width there is no redundant zero and no space |
| `Numerals.DigitsRoundTrip` | FireboyAndIcegirl/software/usb_kb_bsp/HAL/src/alt_log_printf.c:282-296 | The value of the numeral of m is m |
| `Numerals.TopDigit` | FireboyAndIcegirl/software/usb_kb_bsp/HAL/src/alt_log_printf.c:286-295 | Quotient and remainder by the place value are the first digit and the value of the rest |
| `HexWord.MaskPicksDigit` | FireboyAndIcegirl/software/usb_kb_bsp/HAL/src/alt_printf.c:99-106 | Masking in place and shifting down gives the k-th hexadecimal digit, and the mask is zero exactly when that digit is |
| `HexWord.HexFromIsNumeral` | FireboyAndIcegirl/software/usb_kb_bsp/HAL/src/alt_printf.c:103-112 | The digits from the highest non-zero one down are the numeral of the word |
| `AltPrintf.PrintHex` | FireboyAndIcegirl/software/usb_kb_bsp/HAL/src/alt_printf.c:84-113 | The search for the first non-zero digit ends at a shift that is not negative, and the digits are the numeral of the word |
| `AltPrintf.Printf` | FireboyAndIcegirl/software/usb_kb_bsp/HAL/src/alt_printf.c:59-128 | The loop emits exactly what the format prescribes; unknown letters print nothing, a trailing percent sign ends the output |
| `AltPrintf.HexPrintersAgree` | FireboyAndIcegirl/software/usb_kb_bsp/HAL/src/alt_printf.c:84-113 | For every word the shift-and-mask printer and the dividing one emit the same characters |
| `AltPrintf.EnginesAgree` | FireboyAndIcegirl/software/usb_kb_bsp/HAL/src/alt_printf.c:59-128 | On formats that use only conversions common to both, the two engines print the same for all arguments |
| `AltPrintf.AltOtherLetters` | FireboyAndIcegirl/software/usb_kb_bsp/HAL/src/alt_printf.c:59-128 | A letter other than %, c, x and s prints nothing and takes no argument; a percent sign at the end ends the output |
| `TimeOfDay.Timeval.Borrow` | FireboyAndIcegirl/software/usb_kb_bsp/HAL/src/alt_gettod.c:95-107 | The borrowing loop keeps the instant and ends with the microseconds not negative, or clamps to zero exactly when the whole time is negative |
| `TimeOfDay.Timeval.Carry` | FireboyAndIcegirl/software/usb_kb_bsp/HAL/src/alt_gettod.c:109-112 | The carrying loop gives quotient and remainder by a million, with the seconds wrapping at 32 bits |
| `TimeOfDay.Clock.SetTimeOfDay` | FireboyAndIcegirl/software/usb_kb_bsp/HAL/src/alt_settod.c:72-96 | Stores the reset time from a 32-bit product, or fails with ENOSYS and stores nothing |
| `TimeOfDay.Clock.GetTimeOfDay` | FireboyAndIcegirl/software/usb_kb_bsp/HAL/src/alt_gettod.c:71-124 | Reports the normalised sum of reset time and running time, and the zone when asked; without a clock it changes nothing |
| `TimeOfDay.UpExact` | FireboyAndIcegirl/software/usb_kb_bsp/HAL/src/alt_gettod.c:91-93 | With a rate that divides a million the running time is the tick count times the microseconds per tick |
| `TimeOfDay.NeverSetExact` | FireboyAndIcegirl/software/usb_kb_bsp/HAL/src/alt_gettod.c:91-112 | A clock that was never set, with a rate that divides a million, reports a normalised time that is, to the microsecond, a second for every `rate` ticks |
| `TimeOfDay.MonotoneIff` | FireboyAndIcegirl/software/usb_kb_bsp/HAL/src/alt_gettod.c:91-93 | The running time never goes back if and only if the rate exceeds a million or divides it |
| `TimeOfDay.WrapsMatter` | FireboyAndIcegirl/software/usb_kb_bsp/HAL/src/alt_settod.c:83-84 | Dropping multiples of 2^32 keeps the remainder by a million if and only if their number is a multiple of 15625 |
| `TimeOfDay.SetThenGet` | FireboyAndIcegirl/software/usb_kb_bsp/HAL/src/alt_settod.c:80-90 | For all times, normalised or not, and all rates and ticks the later report is normalised, and is the expected instant if and only if the 32-bit wraps are harmless, or the clamp is taken and zero was expected |
| `TimeOfDay.SetThenGetFromEpoch` | FireboyAndIcegirl/software/usb_kb_bsp/HAL/src/alt_gettod.c:91-112 | For times from the epoch on and a clock that has not gone back: the clamp is never taken when the wraps are harmless, and the report is right if and only if they are, or zero was set and is still expected |
| `TimeOfDay.SetThenGetElapsed` | FireboyAndIcegirl/software/usb_kb_bsp/HAL/src/alt_gettod.c:91-112 | With a dividing rate and no wrap at set time the report is the time set plus the elapsed ticks in microseconds, normalised, and the clamp is not taken |
| `TimeOfDay.SetThenGetAtOnce` | FireboyAndIcegirl/software/usb_kb_bsp/HAL/src/alt_settod.c:61-63 | Reading back at once gives the time that was set if and only if the wraps were harmless, or zero was set and the error is clamped |
| `TimeOfDay.WrapSpoils` | FireboyAndIcegirl/software/usb_kb_bsp/HAL/src/alt_settod.c:83-84 | A concrete tick count at which the time read back at once is wrong by 967296 microseconds |
| `FdTable.Descriptors.GetFd` | FireboyAndIcegirl/software/usb_kb_bsp/HAL/src/alt_get_fd.c:54-101 | Claims the least free slot and raises the high-water mark, or fails and changes nothing when none is free |
| `FdTable.Descriptors.FileLocked` | FireboyAndIcegirl/software/usb_kb_bsp/HAL/src/alt_open.c:64-92 | Marks the slot as a device's and fails exactly when another slot up to and including the mark holds the device exclusively |
| `FdTable.Descriptors.OpenFile` | FireboyAndIcegirl/software/usb_kb_bsp/HAL/src/alt_open.c:105-171 | The imperative open has exactly the specified effect on table, mark and errno |
| `FdTable.Descriptors.CloseFile` | FireboyAndIcegirl/software/usb_kb_bsp/HAL/src/alt_close.c:64-101 | The imperative close has exactly the specified effect |
| `FdTable.Descriptors.FdLock` | FireboyAndIcegirl/software/usb_kb_bsp/HAL/src/alt_fd_lock.c:54-75 | Grants the lock exactly when no other slot below the mark has the device |
| `FdTable.Descriptors.FdUnlock` | FireboyAndIcegirl/software/usb_kb_bsp/HAL/src/alt_fd_unlock.c:52-56 | Clears the one flag and nothing else |
| `FdTable.Descriptors.IoctlFile` | FireboyAndIcegirl/software/usb_kb_bsp/HAL/src/alt_ioctl.c:106-168 | Lock requests on devices are served by the table, all others by the driver, with errno set on failure |
| `FdTable.Descriptors.ReleaseFd` | FireboyAndIcegirl/software/usb_kb_bsp/HAL/src/alt_release_fd.c:44-51 | Frees a slot except the three standard ones |
| `FdTable.Descriptors.OpenFd` | FireboyAndIcegirl/software/usb_kb_bsp/HAL/src/alt_io_redirect.c:58-72 | One redirection has exactly the specified effect |
| `FdTable.Descriptors.IoRedirect` | FireboyAndIcegirl/software/usb_kb_bsp/HAL/src/alt_io_redirect.c:85-94 | The three redirections in their order |
| `FdSpec.OpenIsTransactional` | FireboyAndIcegirl/software/usb_kb_bsp/HAL/src/alt_open.c:130-170 | An open takes the least free slot and changes no other, or fails and restores device and flags of every slot; the table invariant is kept |
| `FdSpec.OpenSucceedsIff` | FireboyAndIcegirl/software/usb_kb_bsp/HAL/src/alt_open.c:118-151 | An open succeeds if and only if a file was found, a slot is free, no descriptor of a found device is locked, and the driver agrees |
| `FdSpec.ApplyKeeps` | FireboyAndIcegirl/software/usb_kb_bsp/HAL/src/alt_dev.c:118-149 | Every legal call keeps the invariant: used slots from 3 on lie up to the mark, slots 0 to 2 are never free |
| `FdSpec.RunKeeps` | FireboyAndIcegirl/software/usb_kb_bsp/HAL/src/alt_dev.c:118-149 | The invariant holds throughout every run of legal calls |
| `FdSpec.NoNewHolder` | FireboyAndIcegirl/software/usb_kb_bsp/HAL/src/alt_open.c:79-87 | No call adds a descriptor for a device that is held exclusively |
| `FdSpec.ExclusiveOverRuns` | FireboyAndIcegirl/software/usb_kb_bsp/HAL/src/alt_fd_lock.c:54-75 | Over any run during which a device stays locked, its descriptors are among those there were at the start |
| `FdSpec.AtMostOneLock` | FireboyAndIcegirl/software/usb_kb_bsp/HAL/src/alt_fd_lock.c:61-69 | Mutual exclusion: over no run from the initial table do two descriptors hold the lock of one device, although a lock can be granted while the device is shared |
| `FdSpec.GrantedLock` | FireboyAndIcegirl/software/usb_kb_bsp/HAL/src/alt_fd_lock.c:61-69 | A sole holder is always granted the lock; a granted lock has a sole holder if and only if the slot of the high-water mark is not another descriptor of the device |
| `FdSpec.LockGrantedWhileShared` | FireboyAndIcegirl/software/usb_kb_bsp/HAL/src/alt_fd_lock.c:61-68 | Concrete run: a device opened twice, and the lock on the first descriptor is granted |
| `FdSpec.CloseUnlocksIff` | FireboyAndIcegirl/software/usb_kb_bsp/HAL/src/alt_release_fd.c:46-50 | Closing a locked descriptor ends its lock if and only if it is not a standard one |
| `FdSpec.StandardLockSurvivesClose` | FireboyAndIcegirl/software/usb_kb_bsp/HAL/src/alt_release_fd.c:46-50 | Concrete run: a standard descriptor is redirected to a device and locked; closing it succeeds, the lock stays, and the device cannot be opened any more |
| `FdSpec.RedirectLeavesNoSlot` | FireboyAndIcegirl/software/usb_kb_bsp/HAL/src/alt_io_redirect.c:58-72 | A redirection leaves the same slots occupied, and every other slot's device and flags as they were |
| `FdLaws.CloseFrees` | FireboyAndIcegirl/software/usb_kb_bsp/HAL/src/alt_close.c:77-95 | Closing a descriptor from 3 on frees its slot with all its flags whatever the driver answers, changes no other slot nor the mark, and answers 0 if and only if the driver's answer is not negative |
| `FdLaws.CloseKeepsStandard` | FireboyAndIcegirl/software/usb_kb_bsp/HAL/src/alt_release_fd.c:46-50 | Closing a standard descriptor changes no slot |
| `FdLaws.ReopensSlot` | FireboyAndIcegirl/software/usb_kb_bsp/HAL/src/alt_get_fd.c:77-89 | An open, of a file that is not locked and by a driver that agrees, right after the close of a descriptor below which all are in use gives that descriptor again |
| `FdLaws.OpenLeaves` | FireboyAndIcegirl/software/usb_kb_bsp/HAL/src/alt_open.c:130-170 | A successful open fills its slot with file, flags, device mark and private data, changes nothing else but the mark, and leaves the error number |
| `FdLaws.OpenErrors` | FireboyAndIcegirl/software/usb_kb_bsp/HAL/src/alt_open.c:118-168 | A failed open sets error 19, 24, 13 or the driver's, in this order of precedence, each in exactly its case |
| `FdLaws.LockIs` | FireboyAndIcegirl/software/usb_kb_bsp/HAL/src/alt_fd_lock.c:54-75 | A granted lock sets one flag and nothing else; a denied one answers -13 and sets only the error number |
| `FdLaws.UnlockIs` | FireboyAndIcegirl/software/usb_kb_bsp/HAL/src/alt_fd_unlock.c:52-56 | An unlock always succeeds and clears one flag; a lock followed by an unlock restores the whole table |
| `FdLaws.OtherRequests` | FireboyAndIcegirl/software/usb_kb_bsp/HAL/src/alt_ioctl.c:106-168 | All other requests have the driver's answer and leave the slots |
| `FdLaws.UnlockOpens` | FireboyAndIcegirl/software/usb_kb_bsp/HAL/src/alt_fd_unlock.c:52-56 | A locked device cannot be opened; after the holder's unlock it can if and only if a slot is free and the driver agrees |
| `FdLaws.RedirectIs` | FireboyAndIcegirl/software/usb_kb_bsp/HAL/src/alt_io_redirect.c:58-72 | A redirection puts the opened file into the slot, or leaves the slot when the open fails |
| `Heap.Allocator.Sbrk` | FireboyAndIcegirl/software/usb_kb_bsp/HAL/src/alt_sbrk.c:68-136 | Returns the aligned old end and records the block, or fails and only aligns the end |
| `Heap.Allocator.McountAllocate` | FireboyAndIcegirl/software/usb_kb_bsp/HAL/src/alt_gmon.c:133-148 | Hands out the next bytes of the slab, after a refill whose result is not checked when there are too few |
| `Heap.Allocator.McountRecord` | FireboyAndIcegirl/software/usb_kb_bsp/HAL/src/alt_gmon.c:184-206 | Stores one or two records and links them; as long as the allocations are served, a new function comes first in its bucket's list, the arc first in its function's list, and all other lists stay; the new records hold the two program counters, and the arc a count of 1 |
| `Heap.Allocator.Lookup` | FireboyAndIcegirl/software/usb_kb_bsp/HAL/src/alt_mcount.S:66-84 | The two loops over linked records find the function's record and the arc's, if there are any, and end; the second list is never empty |
| `Heap.Allocator.Mcount` | FireboyAndIcegirl/software/usb_kb_bsp/HAL/src/alt_mcount.S:52-123 | A call raises the count of its arc or records a new one; with storage for it the profile stays the exact record of all calls |
| `CallCounts.ProfileIsExact` | FireboyAndIcegirl/software/usb_kb_bsp/HAL/src/alt_mcount.S:52-123 | Over every run of calls for which there was storage, mixed with requests of others: an arc exists for a pair of addresses if and only if that call was made, there is only one, and it holds the number of these calls in 32 bits |
| `CallCounts.EnterKeeps` | FireboyAndIcegirl/software/usb_kb_bsp/HAL/src/alt_mcount.S:66-123 | From any state that is the record of some calls, one more call with enough storage leads to the record of these and that one |
| `CallCounts.RunKeeps` | FireboyAndIcegirl/software/usb_kb_bsp/HAL/src/alt_mcount.S:52-123 | Every state of a run is sound and is the record of the calls so far |
| `CallCounts.NoRepeats` | FireboyAndIcegirl/software/usb_kb_bsp/HAL/src/alt_gmon.c:184-206 | A list of records that ends meets no record twice, so that each arc is listed once |
| `CallCounts.BucketsSpread` | FireboyAndIcegirl/software/usb_kb_bsp/HAL/src/alt_mcount.S:53-63 | Two addresses share a bucket if and only if their 32-byte lines are equal modulo 64 |
| `CallGraph.ArcHolds` | FireboyAndIcegirl/software/usb_kb_bsp/HAL/src/alt_gmon.c:198-204 | A new arc's record holds the caller and a count of 1, and its function's record keeps its own |
| `CallGraph.AddFunctionKeeps` | FireboyAndIcegirl/software/usb_kb_bsp/HAL/src/alt_gmon.c:187-193 | Linking a function into unused memory extends its bucket's list and leaves every other list as it is |
| `CallGraph.AddArcKeeps` | FireboyAndIcegirl/software/usb_kb_bsp/HAL/src/alt_gmon.c:198-204 | Linking an arc into unused memory extends its function's list, and changes nothing but that function's pointer in what was there |
| `CallGraph.RecordIsUnused` | FireboyAndIcegirl/software/usb_kb_bsp/HAL/src/alt_gmon.c:133-148 | A served allocation gives storage that no record of the graph occupies |
| `HeapSpec.FitsIff` | FireboyAndIcegirl/software/usb_kb_bsp/HAL/src/alt_sbrk.c:88-91 | With 31-bit addresses the wrapping test is the real one: a growing request succeeds if and only if the aligned block ends inside the limit |
| `HeapSpec.RunKeeps` | FireboyAndIcegirl/software/usb_kb_bsp/HAL/src/alt_sbrk.c:68-136 | Every run of growing requests keeps the invariant of blocks, slab and objects |
| `HeapSpec.BlocksOverRuns` | FireboyAndIcegirl/software/usb_kb_bsp/HAL/src/alt_sbrk.c:68-136 | Over every run of growing requests blocks are word-aligned, inside the heap and pairwise disjoint |
| `HeapLaws.BlocksAreStacked` | FireboyAndIcegirl/software/usb_kb_bsp/HAL/src/alt_sbrk.c:75-98 | Over every run of growing requests each block starts at the first word boundary after the block before it, and the first one at the first of the heap |
| `HeapLaws.GrantedIff` | FireboyAndIcegirl/software/usb_kb_bsp/HAL/src/alt_sbrk.c:88-95 | After every such run a request is granted if and only if it ends inside the limit when put at the first word boundary after the last block, and then it is put just there; a refusal leaves the blocks |
| `HeapLaws.GivingBack` | FireboyAndIcegirl/software/usb_kb_bsp/HAL/src/alt_sbrk.c:75-98 | Giving back what was just obtained succeeds and restores the end if and only if it was whole words; otherwise the end is up to three bytes too high |
| `HeapLaws.NextObject` | FireboyAndIcegirl/software/usb_kb_bsp/HAL/src/alt_gmon.c:133-148 | After every run whose allocations were served the next object follows the last one when its slab has room, starts a new slab of 1020 bytes at the next word boundary when the heap has room, and is at 2^32-1 otherwise |
| `HeapSpec.ObjectsOverRuns` | FireboyAndIcegirl/software/usb_kb_bsp/HAL/src/alt_gmon.c:133-148 | Over every such run in which every allocation is served, objects lie in slabs and are disjoint from each other and from every block that is not a slab |
| `HeapSpec.AllocateServedIff` | FireboyAndIcegirl/software/usb_kb_bsp/HAL/src/alt_gmon.c:137-147 | An object lies in a slab if and only if the request is at most 1020 bytes and the slab or the heap has room; otherwise the slab is spoilt |
| `HeapSpec.UncheckedRefill` | FireboyAndIcegirl/software/usb_kb_bsp/HAL/src/alt_gmon.c:139-140 | Concrete run: with the heap full a record is placed at address 2^32-1 and wraps around |
| `HeapSpec.ObjectsInSlabsIff` | FireboyAndIcegirl/software/usb_kb_bsp/HAL/src/alt_gmon.c:133-148 | Over every run of growing requests all objects lie in slabs if and only if every allocation found room when it was made and asked for at most 1020 bytes |
| `HeapSpec.TestIsRealIff` | FireboyAndIcegirl/software/usb_kb_bsp/HAL/src/alt_sbrk.c:88-91 | With the heap end inside the limit, anywhere in memory, the test is the real one if and only if the new end does not wrap |
| `HeapSpec.WrapIsGranted` | FireboyAndIcegirl/software/usb_kb_bsp/HAL/src/alt_sbrk.c:88-91 | With a limit beyond 31 bits a request that wraps around is granted |
| `Elevator.Registers.Clock` | FireboyAndIcegirl/ElevatorController.sv:181-239 | One clock tick of position, stable flag, frame counter and switch register |
| `Elevator.RunKeeps` | FireboyAndIcegirl/ElevatorController.sv:215-235 | With start <= end no schedule of resets, frames and switches moves the elevator off [start, end] |
| `Elevator.SafetyIff` | FireboyAndIcegirl/ElevatorController.sv:215-235 | Every schedule keeps it between the two positions if and only if start <= end, or the two are the ends of the 16-bit range |
| `Elevator.SpeedBound` | FireboyAndIcegirl/ElevatorController.sv:218-239 | Over any stretch without a reset, four times the distance moved is at most the frames plus the frame counter |
| `Elevator.AtMostOneInFour` | FireboyAndIcegirl/ElevatorController.sv:218-239 | At most one place in four frames |
| `Elevator.ArrivesExactly` | FireboyAndIcegirl/ElevatorController.sv:220-235 | From any state on the track, with switches held, it is at its goal if and only if an exact number of frames has gone by |
| `Elevator.ArrivesInTime` | FireboyAndIcegirl/ElevatorController.sv:220-235 | With switches held it is at its goal after at most four frames for each place to go and four more, and stays there |
| `Elevator.SettlesExactly` | FireboyAndIcegirl/ElevatorController.sv:220-239 | At its goal, with switches held, it is stable if and only if it was or its next movement step has come, and it stays so |
| `Elevator.LastTick` | FireboyAndIcegirl/ElevatorController.sv:181-196 | After any schedule the direction is the one pressed in the last tick, and after a reset position, flags and counter are the initial ones |

## Left out

- Alarms.Clock.Callback: callbacks only answer with a period; one that starts or stops other alarms during the walk is not modelled, because the walk caches its next entry.
- Alarms.Clock.Tick: a list that was broken by registering an alarm twice is not walked; the walk would not end.
- JtagUart.Uart.Write: the blocking wait is cut off after `polls` looks, after which the call counts as still waiting, so that a wait that never ends is only seen as its finite beginnings; every wait that ends is covered by some `polls`. `UartSystem` has the wait without a bound, and `UartProgress.EveryWriteReturns` says how it ends when the host reads.
- JtagUart.Uart.Read: the blocking wait is cut off in the same way; it ends only if the host sends or counts as gone.
- JtagUart.Uart.Close: the wait is cut off in the same way.
- JtagUart.Uart.AwaitRoom: the wait is cut off after `polls` looks.
- JtagUart.Uart.AwaitData: the wait is cut off after `polls` looks.
- ClockRuns.RunEvents: a start of an alarm that is registered, or with a delay of 2^32-1, is left out of the run; `Alarms.Clock.AlarmStart` and `AlarmTimer.ExactUnlessAliased` say what these do.
- AltPrintf.EnginesAgree: formats with flags, widths or decimal letters are outside, since one of the engines does not know them.
- HeapSpec.RunKeeps: requests that give memory back (negative `incr`) are not in the runs, since blocks then overlap by design; empty profiler objects are not either.
- LogPrintf.PrivatePrintf: the overflow of a field width is undefined in the language; the model takes it to wrap at 32 bits.
- FdTable.Descriptors.FileLocked: the comparison of the unsigned index with a mark of -1 is not modelled; after a claim the mark is never -1.
- TimeOfDay.SetThenGet: times whose microseconds lie within a second of the ends of the 32-bit range are outside, and times beyond the signed 32-bit seconds.
- TimeOfDay.SetThenGetFromEpoch: a counter that wraps between set and get is outside.
- Elevator.RunKeeps: start and end position are constant, as they are in every instance; drawing and collision outputs of the module are not part of this model.
- The driver's ioctl, the small polling driver, the uC/OS-II branches and the option that throws data away on a full FIFO.
- Device and file-system lookup by name, stack-limit checks in `sbrk`, and its variant with a maximum heap size.
- Heap.Allocator.McountRecord: starting the program-counter sampler, and its histogram.
- Heap.Allocator.Mcount: a call that interrupts another one between lookup and record can leave two arcs for a pair; calls are modelled one after the other. Without storage for a record nothing is promised about the lists (`HeapSpec.UncheckedRefill`).
- The replacement of colours by palette indices in place, and the text that the script emits; the script's table dimensions are named the wrong way round when it prints them.
- Player physics, collisions, keyboard and USB handling, audio, sprite addressing and colour mapping: fixed tables, device access or code that is not part of this model.
