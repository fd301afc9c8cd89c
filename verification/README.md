# Software-defined radio: verified core

This project models the parts of the radio that carry state or arithmetic worth a proof, and proves
what they are for.

* **JTAG UART driver** (`Ring`, `JtagDevice`, `JtagUart`, `JtagSessions`). Two single-producer,
  single-consumer ring buffers, of any length from two up, are shared without locks between
  foreground calls and an interrupt handler. `JtagUart.Interfere` stands between every two
  foreground accesses to shared state and does anything that can happen there, any number of times:
  the host sends and collects bytes, the handler runs, the timer callback runs. Inside the handler
  the host acts before every register access. A property of `JtagUart.Valid` therefore holds under
  every interleaving, and `JtagSessions.Session` states stream conservation for any sequence of calls.
* **System tick and alarms** (`AlarmTime`, `AlarmClock`, `AlarmTraps`, `AlarmRuns`, `HostWatch`). 32-bit deadlines with a
  rollover flag refine an unbounded schedule. The intrusive list is walked on the heap while
  callbacks start and stop alarms. A ghost history takes down each callback as it is made, with its tick
  and what it returned, and schedules are stated over that history; that every exact alarm is on schedule is part of
  `AlarmClock.Clock.Valid`, so it holds over any run. `AlarmRuns` states runs of ticks, from reset too,
  `AlarmTraps` the two calls after which a tick does not end, and `HostWatch` puts scheduler and driver
  together.
* **Radio arithmetic** (`SquareRoot`, `AMDemodulator`, `Nco`). The non-restoring square root in
  wrapping registers of any width, the seven-stage envelope detector around it, and the phase
  accumulator with its increment calculator.
* **File descriptors** (`FdTable`, `FdCalls`). The pool as a value with its invariants over any
  sequence of calls, and the calls that change the array in place.
* **Numbers and times as text and words** (`Digits`, `Bits`, `LogPrintf`, `LogPrinter`, `AltPrintf`,
  `PrintDec`, `TimeOfDay`).

The driver keeps, as a ghost, what every timer callback found in the AC bit. That the host "was seen
inactive" during a call always means that this history has, at a moment since the call began, `timeout`
callbacks without a poll at its end.

`Division` and `Powers` hold the few facts about division and powers that the rest needs. Code that changes state is modelled
as classes and methods whose contracts equate the new state with a function of the old one; the
properties are lemmas about those functions, or the class invariant itself.

## Where the code and its documentation, or its evident purpose, part

The model follows the code; each point is a proved condition.

* `alt_fd_lock` scans below the high-water mark and `open` scans up to and including it. A lock is
  therefore granted although the descriptor at the mark shares the device
  (`FdTable.LockBesideMark`); `FdTable.LockIsExclusiveIff` gives the exact condition.
* The comment on `alt_fd_lock` says that `close` releases the lock. It does not for descriptors 0 to 2
  (`FdTable.CloseUnlocksIff`, and from reset `FdTable.CloseKeepsLock`).
* `fcntl` works on closed descriptors, and a failed `open` clears the flags it left there
  (`FdTable.FailedOpenChangesNothingIff`, and from reset `FdTable.FailedOpenChangesPool`).
* `settimeofday` multiplies in 32 bits and `gettimeofday` in 64, so that an immediate get does not
  always return what was set (`TimeOfDay.SetThenGetIff`, `TimeOfDay.ProductsAgreeIff`,
  `TimeOfDay.FirstLoss`).
* An alarm interval of 2^32 - 1 goes off at the next tick (`AlarmTime.LongestInterval`,
  `AlarmTime.NeverEarlyIff`).
* The tick saves the next alarm before it calls back. If the callback stops that alarm, which then links
  to itself, the walk stays there until somebody starts the alarm again (`AlarmTraps.StopNext`,
  `AlarmTraps.StartFrees`); if no callback does so the walk ends (`AlarmClock.Clock.Tick`).
* Nothing keeps a program from starting an alarm that is on the list; the links then never lead back to
  the head (`AlarmTraps.StartAgain`).
* A blocking UART write or read that is asked for no bytes returns `-EIO` without any timeout; the
  contracts of `Write` and `Read` say so by asking for a positive count where they promise a timeout.
* The logging printf reads a precision and ignores it (`LogPrintf.WidthStep`), so it differs there from
  section 7.21.6.1 of ISO/IEC 9899:2011.
* The calculator prints "additional increment for 9 KHz" for a step of 1000 Hz
  (`NCOCalculator/NCOCalculator.py:12-14`).

## Assumptions

* The device sets RI only with RE set and the read FIFO not empty, WI only with WE set and space in
  the write FIFO, and RAVAIL is zero when RVALID is. It may hold either request back unless a method
  takes it to be `prompt`. A write to a full write FIFO is lost.
* Interrupts do not nest: the handler and the timer callback are atomic with respect to the
  foreground, not with respect to the host, which acts between any two of their register accesses. One
  foreground reads and writes, as the semaphores ensure.
* A busy-wait loop need not end, so a blocking call takes the number `spins` of times it may go round; a
  call cut off there is `Spinning`, with everything proved about its partial effect. From look number
  `helpFrom` of a wait on, the host collects and sends and a prompt device interrupts before the look;
  everything else stays arbitrary, and `helpFrom` above `spins` means no help. A call is cut off only
  when help came too late.
* An alarm that is stopped without being registered is linked to itself, as a removed one is. A callback
  neither stops the alarm saved as the walk's successor nor starts one that is still linked, except in
  `AlarmTraps`; it may start alarms that it makes, that were registered before, or that
  `AlarmClock.Clock.Admit` names.
* A driver's open, close and ioctl callbacks return any integer and leave the descriptor's device and
  flags alone. Looking up a name gives a device, a filesystem or nothing, and no object is both.
* `long`, `int` and pointers have 32 bits; strings passed to the printers are shorter than 2^31.

## Model

| member | source | states |
|---|---|---|
| `Ring.WrapIsRemainder` | `SDR_CycloneIII/software/sdr_bsp/drivers/src/altera_avalon_jtag_uart_init.c:150` | advancing an index by the remainder operation is going back to zero at the end of the buffer, for every buffer length |
| `Ring.Slices` | `SDR_CycloneIII/software/sdr_bsp/drivers/inc/altera_avalon_jtag_uart.h:109-114` | the bytes between the two indices are one slice of the buffer, or two that meet at the wrap |
| `Ring.FreeSlot` | `SDR_CycloneIII/software/sdr_bsp/drivers/src/altera_avalon_jtag_uart_write.c:122` | a store within the free run touches no unsent byte |
| `Ring.Publish` | `SDR_CycloneIII/software/sdr_bsp/drivers/src/altera_avalon_jtag_uart_write.c:122-126` | bytes copied after the in-index join the ring, in order and behind everything unsent, when that index moves past them |
| `Ring.Consume` | `SDR_CycloneIII/software/sdr_bsp/drivers/src/altera_avalon_jtag_uart_read.c:136-140` | the slice copied out is the front of the ring, and moving the out-index past it removes exactly that |
| `JtagDevice.Device.ReadControl` | `SDR_CycloneIII/software/sdr_bsp/drivers/src/altera_avalon_jtag_uart_init.c:119-125` | RI only with RE set and something to read, WI only with WE set and space; a prompt device raises both whenever it may |
| `JtagDevice.Device.ReadData` | `SDR_CycloneIII/software/sdr_bsp/drivers/src/altera_avalon_jtag_uart_init.c:144-156` | one byte leaves the read FIFO; no RVALID means no RAVAIL |
| `JtagDevice.Device.WriteData` | `SDR_CycloneIII/software/sdr_bsp/drivers/src/altera_avalon_jtag_uart_init.c:176` | the byte joins the outgoing stream, or is lost when the FIFO is full |
| `JtagUart.JtagUart.constructor` | `SDR_CycloneIII/software/sdr_bsp/drivers/src/altera_avalon_jtag_uart_init.c:66-100` | the driver starts in the invariant with RE on, and with "don't know" as its timeout when the alarm cannot be started |
| `JtagUart.JtagUart.EndToEnd` | `SDR_CycloneIII/software/sdr_bsp/drivers/inc/altera_avalon_jtag_uart.h:90-118` | in every reachable state: host-received bytes, write FIFO and transmit ring are together what writers handed over; delivered bytes, receive ring and read FIFO are together what the host sent |
| `JtagUart.JtagUart.WaitersAreArmed` | `SDR_CycloneIII/software/sdr_bsp/drivers/src/altera_avalon_jtag_uart_write.c:136-139` | no lost wakeup: outside the publish-to-kick and consume-to-reopen windows, an empty receive ring means RE is on in the device and a full transmit ring means WE is on |
| `JtagUart.JtagUart.NotGivenUpIff` | `SDR_CycloneIII/software/sdr_bsp/drivers/src/altera_avalon_jtag_uart_write.c:183-188` | a waiting call goes on waiting exactly while the last `timeout` callbacks were not all silent, or with one of the two largest timeouts |
| `JtagUart.JtagUart.AtRest` | `SDR_CycloneIII/software/sdr_bsp/drivers/src/altera_avalon_jtag_uart_init.c:115-124` | when the handler has come to rest, nothing is left to receive into room or to send into space |
| `JtagUart.JtagUart.SpinTestsAreExact` | `SDR_CycloneIII/software/sdr_bsp/drivers/src/altera_avalon_jtag_uart_read.c:173-178` | the index comparisons of the spin loops say exactly whether the ring is still full, or still empty; an index cannot come round |
| `JtagUart.JtagUart.Receive` | `SDR_CycloneIII/software/sdr_bsp/drivers/src/altera_avalon_jtag_uart_init.c:125-167` | received bytes are appended in order until the FIFO is empty or the ring full, the ring never overflows, and receive interrupts are turned off only when it is full with bytes still waiting |
| `JtagUart.JtagUart.Transmit` | `SDR_CycloneIII/software/sdr_bsp/drivers/src/altera_avalon_jtag_uart_init.c:169-195` | exactly min(space, unsent) of the oldest unsent bytes go to the data register in order; transmit interrupts are turned off exactly when space is left over |
| `JtagUart.JtagUart.Pass` | `SDR_CycloneIII/software/sdr_bsp/drivers/src/altera_avalon_jtag_uart_init.c:117-196` | a pass that handles a request uses up receive space, unsent bytes or an enable bit, against a host that acts at every register access |
| `JtagUart.JtagUart.Irq` | `SDR_CycloneIII/software/sdr_bsp/drivers/src/altera_avalon_jtag_uart_init.c:106-197` | the handler ends against any host, keeps the invariant, and on a prompt device moves data in each direction that can move and ends only when neither can |
| `JtagUart.JtagUart.Timeout` | `SDR_CycloneIII/software/sdr_bsp/drivers/src/altera_avalon_jtag_uart_init.c:203-225` | a poll resets the inactivity counter and is acknowledged, silence counts up to the cap, the enable bits in the device survive, and the host may poll again before the acknowledgement |
| `JtagUart.JtagUart.Interfere` | `SDR_CycloneIII/software/sdr_bsp/drivers/inc/altera_avalon_jtag_uart.h:105-114` | whatever the host, the handler and the timer do between two foreground accesses keeps the invariant, only appends to the receive ring and only sends from the transmit ring |
| `JtagUart.JtagUart.Assist` | `SDR_CycloneIII/software/sdr_bsp/drivers/src/altera_avalon_jtag_uart_init.c:106-197` | a prompt device and a host that collects and sends: one handler run sends at least one unsent byte, and fills an empty receive ring |
| `JtagUart.JtagUart.CopyIn` | `SDR_CycloneIII/software/sdr_bsp/drivers/src/altera_avalon_jtag_uart_write.c:122` | a byte-by-byte copy interrupted anywhere leaves every unsent byte in place and the chunk whole |
| `JtagUart.JtagUart.MeasureFree` | `SDR_CycloneIII/software/sdr_bsp/drivers/src/altera_avalon_jtag_uart_write.c:105-114` | the free run computed from two separate index reads is never too large, and zero only when the ring is full |
| `JtagUart.JtagUart.Fill` | `SDR_CycloneIII/software/sdr_bsp/drivers/src/altera_avalon_jtag_uart_write.c:103-127` | the inner loop takes at least what was free at entry, and what it takes is a prefix of the caller's bytes |
| `JtagUart.JtagUart.AwaitSpace` | `SDR_CycloneIII/software/sdr_bsp/drivers/src/altera_avalon_jtag_uart_write.c:183-188` | the spin loop ends with room in the ring, or with none after the host was silent for `timeout` timer callbacks running; it is cut off only if the host was not inactive at its last look and no help came before any, and finds room at once if help came before the first |
| `JtagUart.JtagUart.Kick` | `SDR_CycloneIII/software/sdr_bsp/drivers/src/altera_avalon_jtag_uart_write.c:136-139` | after the kick WE is on in the shadow word and the device, and the writer's window is closed |
| `JtagSessions.RunHandler` | `SDR_CycloneIII/software/sdr_bsp/drivers/src/altera_avalon_jtag_uart_init.c:106-197` | liveness: on a prompt device whose host keeps collecting, as many handler runs as bytes are unsent send everything accepted |
| `JtagUart.JtagUart.Write` | `SDR_CycloneIII/software/sdr_bsp/drivers/src/altera_avalon_jtag_uart_write.c:83-215` | the reported prefix, and nothing else, joins the accepted stream, at least min(count, free); a blocking call is short or fails only with a full ring after `timeout` silent timer callbacks running, and with the two largest timeouts never; it is left waiting only while the host does not count as silent and no help came, and with help before every look it returns count |
| `JtagUart.JtagUart.MeasureData` | `SDR_CycloneIII/software/sdr_bsp/drivers/src/altera_avalon_jtag_uart_read.c:122-128` | a stale snapshot of the in-index is safe: the run is never longer than what is there |
| `JtagUart.JtagUart.CopyOut` | `SDR_CycloneIII/software/sdr_bsp/drivers/src/altera_avalon_jtag_uart_read.c:136` | bytes being copied stay put whatever the handler adds; the rest of the caller's buffer is untouched |
| `JtagUart.JtagUart.Read` | `SDR_CycloneIII/software/sdr_bsp/drivers/src/altera_avalon_jtag_uart_read.c:100-203` | what is returned is the next stretch of the received stream, at least min(space, what was there at entry); a blocking call with space fails only with an empty ring after `timeout` silent timer callbacks running, and with the two largest timeouts never; it is left waiting only while the host does not count as silent and no help came, and with help before every look it returns data |
| `JtagUart.JtagUart.Reopen` | `SDR_CycloneIII/software/sdr_bsp/drivers/src/altera_avalon_jtag_uart_read.c:191-194` | after bytes were taken, receive interrupts are on in the shadow word and the device |
| `JtagUart.JtagUart.Close` | `SDR_CycloneIII/software/sdr_bsp/drivers/src/altera_avalon_jtag_uart_init.c:241-254` | a close that returns 0 has drained everything accepted, unless the host was silent for `timeout` callbacks running, which the two largest timeouts rule out; it waits, or refuses to, only for a host that does not count as silent; non-blocking never waits, and blocking returns within as many helped looks as bytes were unsent |
| `JtagUart.JtagUart.Ioctl` | `SDR_CycloneIII/software/sdr_bsp/drivers/src/altera_avalon_jtag_uart_ioctl.c:52-84` | the timeout stays in range, INT_MAX is neither replaced nor set, "connected" is counter below timeout, everything else is -ENOTTY |
| `JtagUart.TimeoutAfter` | `SDR_CycloneIII/software/sdr_bsp/drivers/src/altera_avalon_jtag_uart_ioctl.c:62-66` | a requested timeout never becomes, and never replaces, "don't know" |
| `JtagUart.RequestedTimeout` | `SDR_CycloneIII/software/sdr_bsp/drivers/src/altera_avalon_jtag_uart_ioctl.c:62-66` | a value from 2 to INT_MAX - 1 is the timeout that is set, any other sets INT_MAX - 1 |
| `JtagUart.Inactivity` | `SDR_CycloneIII/software/sdr_bsp/drivers/src/altera_avalon_jtag_uart_init.c:210-216` | the counter never passes INT_MAX - 2 |
| `JtagUart.InactiveIffSilent` | `SDR_CycloneIII/software/sdr_bsp/drivers/src/altera_avalon_jtag_uart_init.c:203-222` | for every polling history the counter has reached a timeout exactly when the last `timeout` callbacks saw no poll, and never for the two largest timeouts |
| `JtagUart.SeenMeansSilent` | `SDR_CycloneIII/software/sdr_bsp/drivers/src/altera_avalon_jtag_uart_write.c:183-188` | wherever a call may give up there was a run of `timeout` silent callbacks ending since the call began |
| `JtagSessions.Session` | `SDR_CycloneIII/software/sdr_bsp/drivers/src/altera_avalon_jtag_uart_write.c:100-139` | over any sequence of calls under any interference: bytes sent followed by the transmit ring are the accepted prefixes of all writes in order, bytes popped are the results of all reads followed by the receive ring; every call returns when each wait may look as often as the ring is long after help begins |
| `JtagSessions.SmallWrite` | `SDR_CycloneIII/software/sdr_bsp/drivers/src/altera_avalon_jtag_uart_write.c:63-75` | the polled write sends all bytes in order and never into a full FIFO; as many looks as bytes suffice with a host that collects |
| `JtagSessions.SmallRead` | `SDR_CycloneIII/software/sdr_bsp/drivers/src/altera_avalon_jtag_uart_read.c:64-92` | the polled read returns the next bytes popped, and -EIO only when asked for nothing; a non-blocking one returns within as many looks as bytes were asked for |
| `JtagSessions.WriteAndClose` | `SDR_CycloneIII/software/sdr_bsp/drivers/src/altera_avalon_jtag_uart_write.c:83-215` | a blocking write and the draining close put exactly the count on the far side unless the host was silent for `timeout` callbacks running; with a helping host neither is cut off |
| `JtagSessions.FastRefinesSmall` | `SDR_CycloneIII/software/sdr_bsp/drivers/src/altera_avalon_jtag_uart_write.c:63-200` | fast and polled write leave prefixes of one stream at every end; a blocking fast write with the draining close leaves exactly the polled stream unless the host was silent for `timeout` callbacks running, and always with the two largest timeouts |
| `HostWatch.InactivityCounter` | `SDR_CycloneIII/software/sdr_bsp/drivers/src/altera_avalon_jtag_uart_init.c:86-97` | scheduler and callback together: with no polling the counter after tick N is min(INT_MAX - 2, (N - N0 - 1) / rate), across counter wraps |
| `HostWatch.PollRestarts` | `SDR_CycloneIII/software/sdr_bsp/drivers/src/altera_avalon_jtag_uart_init.c:210-214` | a poll restarts the count at the callback that sees it |
| `HostWatch.CounterFollowsPolls` | `SDR_CycloneIII/software/sdr_bsp/drivers/src/altera_avalon_jtag_uart_init.c:203-225` | for every polling history, across counter wraps, the counter is the driver's count of what its callbacks saw at the ticks when the alarm was due |
| `HostWatch.NotConnectedIffSilent` | `SDR_CycloneIII/software/sdr_bsp/drivers/src/altera_avalon_jtag_uart_ioctl.c:70-76` | for every polling history "not connected" exactly when the last `timeout` callbacks saw no poll |
| `HostWatch.Watch` | `SDR_CycloneIII/software/sdr_bsp/drivers/src/altera_avalon_jtag_uart_init.c:86-97` | scheduler and driver as objects: over n ticks, with the handler and other alarms at work, the driver counts exactly the firings of its alarm's ideal schedule if no callback touches that alarm and its own always return the rate; if the host does not poll meanwhile, its counter grows by that number up to INT_MAX - 2 |
| `HostWatch.SilenceCounts` | `SDR_CycloneIII/software/sdr_bsp/drivers/src/altera_avalon_jtag_uart_init.c:210-216` | silent callbacks add one each to the counter, whatever it was, up to the cap |
| `HostWatch.WatchAndAsk` | `SDR_CycloneIII/software/sdr_bsp/drivers/src/altera_avalon_jtag_uart_ioctl.c:70-76` | after such a run the connected request answers no exactly when the last `timeout` callbacks saw no poll; for a silent host and an alarm just started, exactly when `timeout` whole periods have passed |
| `HostWatch.NotConnectedIff` | `SDR_CycloneIII/software/sdr_bsp/drivers/src/altera_avalon_jtag_uart_ioctl.c:70-76` | "not connected" exactly when the silence has lasted `timeout` whole periods, never for the two largest timeouts |
| `HostWatch.DontKnowIsForever` | `SDR_CycloneIII/software/sdr_bsp/drivers/src/altera_avalon_jtag_uart_ioctl.c:60-68` | no series of timeout requests replaces INT_MAX or reaches it |
| `AlarmTime.StartStands` | `SDR_CycloneIII/software/sdr_bsp/HAL/src/alt_alarm_start.c:80-96` | 32-bit time and flag of a started alarm stand for ideal tick N + nticks + 1, for every interval up to 2^32 - 2 |
| `AlarmTime.TickIsExact` | `SDR_CycloneIII/software/sdr_bsp/HAL/src/alt_tick.c:109-116` | a tick calls back exactly when the ideal deadline is now |
| `AlarmTime.RescheduleStands` | `SDR_CycloneIII/software/sdr_bsp/HAL/src/alt_tick.c:127-137` | a period p > 0 moves the ideal deadline by exactly p, with or without a wrap |
| `AlarmTime.AlarmIsExact` | `SDR_CycloneIII/software/sdr_bsp/HAL/src/alt_tick.c:96-138` | the fields refine the unbounded schedule over any run and any number of wraps: never early, late or twice |
| `AlarmTime.LongestInterval` | `SDR_CycloneIII/software/sdr_bsp/HAL/src/alt_alarm_start.c:82-96` | the one excluded interval, 2^32 - 1, fires at once unless the counter is about to wrap |
| `AlarmTime.NeverEarlyIff` | `SDR_CycloneIII/software/sdr_bsp/HAL/src/alt_alarm_start.c:64-101` | over all 32-bit intervals, on time exactly when the interval is below 2^32 - 1 or the counter is at its last value |
| `AlarmClock.Insert` | `SDR_CycloneIII/software/sdr_bsp/HAL/inc/sys/alt_llist.h:90-98` | the entry becomes the first of a well-formed circular doubly linked list; the rest keeps its order |
| `AlarmClock.Remove` | `SDR_CycloneIII/software/sdr_bsp/HAL/inc/sys/alt_llist.h:105-117` | the rest stays a well-formed ring in order, and removing an entry that is its own ring is harmless |
| `AlarmClock.Clock.Start` | `SDR_CycloneIII/software/sdr_bsp/HAL/src/alt_alarm_start.c:64-112` | any structure that is not on the list (for one that is, see `AlarmTraps.StartAgain`) is registered at its head with an exact deadline, for every interval but 2^32 - 1; without clock or alarm nothing changes |
| `AlarmClock.Clock.Stop` | `SDR_CycloneIII/software/sdr_bsp/HAL/src/alt_tick.c:66-73` | exactly that alarm leaves the list and the part still to be walked; stopping twice is harmless |
| `AlarmClock.Clock.RunCallback` | `SDR_CycloneIII/software/sdr_bsp/HAL/src/alt_tick.c:117` | callbacks may start new or unregistered alarms and stop any but the saved successor, which `AlarmTraps.StopNext` covers: the list and the walk stay intact, and the history of callbacks grows by this one, its tick and what it returned |
| `AlarmClock.Clock.CallBack` | `SDR_CycloneIII/software/sdr_bsp/HAL/src/alt_tick.c:117-137` | a due alarm gets one callback, and what that callback returned moves its deadline, or retires it when it is zero |
| `AlarmClock.Clock.VisitOne` | `SDR_CycloneIII/software/sdr_bsp/HAL/src/alt_tick.c:102-140` | one step of the walk settles one alarm and no other |
| `AlarmClock.Clock.Tick` | `SDR_CycloneIII/software/sdr_bsp/HAL/src/alt_tick.c:87-148` | each alarm registered at the start is reached exactly once or was stopped before, has one tick's effect, and afterwards the list is well formed and on schedule; the callbacks made are one for each alarm that was due, with what each returned, and no other |
| `AlarmClock.Clock.TickOnSchedule` | `SDR_CycloneIII/software/sdr_bsp/HAL/src/alt_tick.c:100-141` | on the heap too, over any run: every exact alarm is called back exactly at its ideal deadline and then stands for the one that the returned period gives, and alarms started by callbacks stand for theirs |
| `AlarmTraps.StopNext` | `SDR_CycloneIII/software/sdr_bsp/HAL/src/alt_tick.c:100-141` | when a callback stops the saved successor, the walk is still at that alarm after any number of rounds, whatever callbacks do except start it again: the tick never ends |
| `AlarmTraps.StartFrees` | `SDR_CycloneIII/software/sdr_bsp/HAL/src/alt_tick.c:100-141` | starting that alarm again is the way out: its links then lead past every registered alarm to the head |
| `AlarmTraps.InsertAgain` | `SDR_CycloneIII/software/sdr_bsp/HAL/inc/sys/alt_llist.h:90-98` | linking in an entry that is on the list closes a chain of links that leaves out the head |
| `AlarmTraps.StartAgain` | `SDR_CycloneIII/software/sdr_bsp/HAL/src/alt_alarm_start.c:64-112` | starting a registered alarm sets its deadline, and no number of links from the head then leads back to the head |
| `AlarmRuns.RunTicks` | `SDR_CycloneIII/software/sdr_bsp/HAL/src/alt_tick.c:87-148` | over any number of ticks on the heap the callbacks of an alarm that no callback starts or stops are made at exactly the ticks of the ideal schedule that their own return values give, whatever callbacks do to other alarms; it is on the list exactly while none of them was zero, due at the first deadline plus all of them |
| `AlarmRuns.FirstCallback` | `SDR_CycloneIII/software/sdr_bsp/HAL/src/alt_alarm_start.c:64-112` | from reset, up to tick interval + 1 an alarm has had one callback, and that at this tick |
| `AlarmRuns.FromReset` | `SDR_CycloneIII/software/sdr_bsp/HAL/src/alt_tick.c:87-148` | a run of any length from reset: start, then n ticks, the callbacks made against the schedule of what they returned |
| `SquareRoot.Trial` | `AMDemod.v:54-61` | one trial keeps q = floor(sqrt(prefix)) and leaves 4 N + d - (2 q + 1)^2, which always fits |
| `SquareRoot.RegisterStep` | `AMDemod.v:53-62` | with a wrapping remainder register two bits wider than the root, one iteration is that exact trial |
| `SquareRoot.OperandStep` | `AMDemod.v:55-56` | taking the two top bits and shifting moves them to the prefix read so far |
| `SquareRoot.Iterate` | `AMDemod.v:53-62` | the loop body on registers keeps the remainder, its register and the root in step |
| `SquareRoot.Sqrt` | `AMDemod.v:37-65` | for every width w and every 2w-bit operand the result is floor(sqrt(num)) and fits w bits |
| `AMDemodulator.ProductFits` | `Multiplier.lpc:34-37` | a product of two signed 12-bit words fits the 24-bit result |
| `AMDemodulator.EdgeInStep` | `AMDemod.v:86-95` | each clock edge moves every sample one register on, without truncation at any of them |
| `AMDemodulator.EnvelopeIsExact` | `AMDemod.v:86-95` | whatever the registers hold at power-up, the sample of edge t is at d_out after edge t + 6 as floor(sqrt(I^2 + Q^2)) |
| `AMDemodulator.Multiplier.Clock` | `Multiplier.lpc:39-41` | one edge moves operands, exact signed product and result one register on |
| `AMDemodulator.ProductAfterThree` | `Multiplier.lpc:39-41` | three register stages: with new operands on every edge, the exact product of those of two edges before is out |
| `AMDemodulator.Demodulator.Clock` | `AMDemod.v:86-95` | the non-blocking assignments and both multipliers make one step of the pipeline |
| `Nco.Oscillator.Clock` | `NCO.v:36-38` | over any sequence of increments the accumulator holds its power-up content plus their sum modulo 2^64 |
| `Nco.Quadrature` | `NCO.v:32-33` | the cosine output is the sine output of the phase advanced by 2^62, at every phase |
| `Nco.RisesIsWrapIff` | `NCO.v:32-38` | rising edges are accumulator wraps at every phase exactly when the increment is at most 2^63 |
| `Nco.EdgeCount` | `NCO.v:36-38` | from any phase, T edges of a constant increment give (start + T inc) / 2^64 rising edges |
| `Nco.Run` | `NCO.v:31-38` | T edges of the oscillator with one increment: the rises seen at the sine output are (phase + T inc) / 2^64 for increments up to 2^63 |
| `Nco.IncrementError` | `NCOCalculator/NCOCalculator.py:11` | the increment is the ideal one rounded down by less than a unit |
| `Nco.IncrementInRangeIff` | `NCOCalculator/NCOCalculator.py:11` | the increment is at most 2^63 exactly for frequencies up to half the clock |
| `Nco.FrequencyIsExact` | `NCOCalculator/NCOCalculator.py:8-12` | over every run, from every phase, rising edges differ from T f / Clock by less than 1 + T / 2^64 |
| `Nco.RunTuned` | `NCO.v:31-38` | the rises seen at the output of an oscillator tuned by the calculator, over any run from any content, are within that bound |
| `FdTable.ResetIsValid` | `SDR_CycloneIII/software/sdr_bsp/HAL/src/alt_dev.c:118-149` | the initial table has the invariant and exclusive access |
| `FdTable.FirstFree` | `SDR_CycloneIII/software/sdr_bsp/HAL/src/alt_get_fd.c:77-89` | the first free slot, or the pool's size when there is none |
| `FdTable.ScanIsComplete` | `SDR_CycloneIII/software/sdr_bsp/HAL/src/alt_open.c:79-87` | every lock is held at or below the high-water mark, so the scan up to and including it misses none |
| `FdTable.FailedOpenChangesNothingIff` | `SDR_CycloneIII/software/sdr_bsp/HAL/src/alt_open.c:159-166` | a failed open changes no device and no flags but the tried slot's: the table is unchanged exactly when it tried none or that slot's flags were clear, the mark exactly when it tried none above it |
| `FdTable.FailedOpenChangesPool` | `SDR_CycloneIII/software/sdr_bsp/HAL/src/alt_open.c:159-166` | a run from reset in which a failed open changes the table |
| `FdTable.FailedOpenIsHarmless` | `SDR_CycloneIII/software/sdr_bsp/HAL/src/alt_close.c:69-100` | a program that goes on with the result of a failed open changes neither table nor mark, however many calls it makes, and errno says so |
| `FdTable.OpenSucceedsIff` | `SDR_CycloneIII/software/sdr_bsp/HAL/src/alt_open.c:105-171` | open succeeds exactly when the name is known, there is a slot, nobody holds the device and the driver agrees; errno names the first that failed |
| `FdTable.OpenTakesLowest` | `SDR_CycloneIII/software/sdr_bsp/HAL/src/alt_open.c:125-171` | a successful open takes the lowest free number, raises the mark to it and changes no other slot |
| `FdTable.ReservedBits` | `SDR_CycloneIII/software/sdr_bsp/HAL/src/alt_open.c:72-139` | the new slot has all of the flags asked for but the two top bits, of which it has the device's on a device |
| `FdTable.CloseFrees` | `SDR_CycloneIII/software/sdr_bsp/HAL/src/alt_close.c:64-101` | close frees the slot of every descriptor above 2, locked or not and whatever the driver answers, and changes nothing else; -1 and errno exactly for a negative number or driver result |
| `FdTable.OpenCloseOpen` | `SDR_CycloneIII/software/sdr_bsp/HAL/src/alt_close.c:64-101` | open, close and open again give the same number, from every table |
| `FdTable.CloseUnlocksIff` | `SDR_CycloneIII/software/sdr_bsp/HAL/src/alt_close.c:64-101` | in any table that calls can lead to, closing the holder lifts the lock exactly when it is not one of the three standard descriptors |
| `FdTable.CloseKeepsLock` | `SDR_CycloneIII/software/sdr_bsp/HAL/src/alt_close.c:64-101` | a run from reset in which a lock outlives the close of its holder |
| `FdTable.LockIsExclusiveIff` | `SDR_CycloneIII/software/sdr_bsp/HAL/src/alt_fd_lock.c:54-75` | a granted lock is exclusive exactly when the descriptor at the high-water mark is the locker or on another device |
| `FdTable.LockBesideMark` | `SDR_CycloneIII/software/sdr_bsp/HAL/src/alt_fd_lock.c:61-69` | a run of three calls from reset that grants a lock beside a second descriptor |
| `FdTable.UnlockUndoesLock` | `SDR_CycloneIII/software/sdr_bsp/HAL/src/alt_fd_unlock.c:52-56` | giving a granted lock back restores the table |
| `FdTable.IoctlKeepsIff` | `SDR_CycloneIII/software/sdr_bsp/HAL/src/alt_ioctl.c:106-168` | every request keeps exclusive access except a lock granted beside a rival at the mark |
| `FdTable.LockMeans` | `SDR_CycloneIII/software/sdr_bsp/HAL/src/alt_fd_lock.c:54-75` | TIOCEXCL on a device is granted exactly when no other descriptor below the mark shares the device, and then sets the lock; a refusal is -EACCES with errno set and nothing else changed |
| `FdTable.UnlockMeans` | `SDR_CycloneIII/software/sdr_bsp/HAL/src/alt_ioctl.c:133-137` | TIOCNXCL on a device clears the lock of that descriptor and answers 0 |
| `FdTable.OtherRequests` | `SDR_CycloneIII/software/sdr_bsp/HAL/src/alt_ioctl.c:138-168` | any other request is the driver's to answer, a negative number is -EBADFD, and errno follows; the table never changes |
| `FdTable.LockBit` | `SDR_CycloneIII/software/sdr_bsp/HAL/src/alt_fd_lock.c:69` | locking and unlocking change the top bit only |
| `FdTable.FcntlKeeps` | `SDR_CycloneIII/software/sdr_bsp/HAL/src/alt_fcntl.c:66-101` | masked flag updates, also on closed descriptors, never touch lock or device bits |
| `FdTable.FcntlRefuses` | `SDR_CycloneIII/software/sdr_bsp/HAL/src/alt_fcntl.c:93-100` | a negative number gives EBADFD, a command other than F_GETFL and F_SETFL EINVAL, both -1 with the table unchanged |
| `FdTable.OpenThenGetFlags` | `SDR_CycloneIII/software/sdr_bsp/HAL/src/alt_fcntl.c:84-85` | F_GETFL returns the flags a file was opened with, but for the two reserved bits |
| `FdTable.SetThenGetFlags` | `SDR_CycloneIII/software/sdr_bsp/HAL/src/alt_fcntl.c:84-92` | F_SETFL replaces O_APPEND and O_NONBLOCK and no other bit, and F_GETFL returns the outcome |
| `FdTable.RedirectMovesOrLeaves` | `SDR_CycloneIII/software/sdr_bsp/HAL/src/alt_io_redirect.c:58-72` | a redirection moves the opened device to the standard descriptor or, failing, leaves it unchanged; no other descriptor changes device |
| `FdTable.StepKeepsIff` | `SDR_CycloneIII/software/sdr_bsp/HAL/src/alt_open.c:64-171` | each of open, close, ioctl, fcntl and redirect keeps the invariant and the order of locked descriptors before their rivals, and exclusive access exactly when it is not such a lock |
| `FdTable.RunIsExclusive` | `SDR_CycloneIII/software/sdr_bsp/HAL/src/alt_open.c:64-171` | over any sequence of calls a device with a locked descriptor has no other |
| `FdTable.RunHasOneHolder` | `SDR_CycloneIII/software/sdr_bsp/HAL/src/alt_fd_lock.c:38-75` | over any sequence of calls at all, safe or not, whoever shares the device of a locked descriptor has a higher number, so no two descriptors ever hold the lock of one device |
| `FdTable.LockOutlivesRun` | `SDR_CycloneIII/software/sdr_bsp/HAL/src/alt_fd_lock.c:38-52` | over any sequence of calls a lock lasts, and every open of the device fails, until the holder gives it up |
| `FdCalls.Calls.constructor` | `SDR_CycloneIII/software/sdr_bsp/HAL/src/alt_dev.c:118-149` | the array starts as the initial table |
| `FdCalls.Calls.GetFd` | `SDR_CycloneIII/software/sdr_bsp/HAL/src/alt_get_fd.c:54-101` | first free slot taken and mark raised, or -EMFILE and nothing changed |
| `FdCalls.Calls.ReleaseFd` | `SDR_CycloneIII/software/sdr_bsp/HAL/src/alt_release_fd.c:44-51` | frees any descriptor but the three standard ones |
| `FdCalls.Calls.FileLocked` | `SDR_CycloneIII/software/sdr_bsp/HAL/src/alt_open.c:64-92` | sets the device bit and answers whether another descriptor up to the mark holds the lock |
| `FdCalls.Calls.Open` | `SDR_CycloneIII/software/sdr_bsp/HAL/src/alt_open.c:105-171` | the table, errno and result of the specified open |
| `FdCalls.Calls.Close` | `SDR_CycloneIII/software/sdr_bsp/HAL/src/alt_close.c:64-101` | the table, errno and result of the specified close; the slot is freed even when the driver fails |
| `FdCalls.Calls.LockFd` | `SDR_CycloneIII/software/sdr_bsp/HAL/src/alt_fd_lock.c:54-75` | granted exactly when no descriptor below the mark shares the device; otherwise nothing changes |
| `FdCalls.Calls.UnlockFd` | `SDR_CycloneIII/software/sdr_bsp/HAL/src/alt_fd_unlock.c:52-56` | clears the lock bit of that descriptor only |
| `FdCalls.Calls.Ioctl` | `SDR_CycloneIII/software/sdr_bsp/HAL/src/alt_ioctl.c:106-168` | the table, errno and result of the specified routing |
| `FdCalls.Calls.Fcntl` | `SDR_CycloneIII/software/sdr_bsp/HAL/src/alt_fcntl.c:66-101` | the table, errno and result of the specified update or query |
| `FdCalls.Calls.OpenFd` | `SDR_CycloneIII/software/sdr_bsp/HAL/src/alt_io_redirect.c:58-72` | the specified redirection, with exclusive access kept |
| `FdCalls.Calls.IoRedirect` | `SDR_CycloneIII/software/sdr_bsp/HAL/src/alt_io_redirect.c:85-94` | output, input and error are redirected in that order, with exclusive access kept |
| `Digits.TextReadsBack` | `SDR_CycloneIII/software/sdr_bsp/HAL/src/alt_log_printf.c:281-296` | the digit string reads back as the number and has no leading zero to spare |
| `Digits.TextIsShortest` | `SDR_CycloneIII/software/sdr_bsp/HAL/src/alt_log_printf.c:247-255` | no digit string of the same value is shorter |
| `Digits.TextIsLow` | `SDR_CycloneIII/software/sdr_bsp/HAL/src/alt_log_printf.c:282-296` | dividing out digits from the largest place value gives the same string as dividing by the base |
| `LogPrintf.IntegerReadsBack` | `SDR_CycloneIII/software/sdr_bsp/HAL/src/alt_log_printf.c:238-296` | for every value, base, width and flag the text has length max(width, sign + shortest digits) and reads back as the value |
| `LogPrintf.PaddingMeans` | `SDR_CycloneIII/software/sdr_bsp/HAL/src/alt_log_printf.c:257-279` | the field is filled with zeros between sign and digits, or with spaces before the sign, and with nothing else |
| `LogPrintf.WidthStep` | `SDR_CycloneIII/software/sdr_bsp/HAL/src/alt_log_printf.c:172-199` | the scanner's running width is the value of the digits before the first point; a precision is read and ignored |
| `LogPrintf.DirectiveMeans` | `SDR_CycloneIII/software/sdr_bsp/HAL/src/alt_log_printf.c:134-336` | a directive made of an optional zero flag, any decimal width and one of the eight known letters prints its field and takes one argument, whatever follows; any other letter prints nothing and takes none |
| `LogPrintf.DirectiveIsRead` | `SDR_CycloneIII/software/sdr_bsp/HAL/src/alt_log_printf.c:134-336` | the same for any digits, points and `l` between flag and letter |
| `LogPrintf.FormatMeans` | `SDR_CycloneIII/software/sdr_bsp/HAL/src/alt_log_printf.c:134-336` | a format with any number of directives and any text between them prints each directive with the argument dealt to it |
| `LogPrintf.DealtInOrder` | `SDR_CycloneIII/software/sdr_bsp/HAL/src/alt_log_printf.c:217-331` | the j-th directive of a format is dealt the j-th argument |
| `LogPrintf.PercentIsRead` | `SDR_CycloneIII/software/sdr_bsp/HAL/src/alt_log_printf.c:158-162` | a doubled percent sign prints one and takes no argument |
| `LogPrintf.UnfinishedPrintsNothing` | `SDR_CycloneIII/software/sdr_bsp/HAL/src/alt_log_printf.c:134-341` | a directive that the format ends in prints nothing |
| `LogPrintf.IntegerLetters` | `SDR_CycloneIII/software/sdr_bsp/HAL/src/alt_log_printf.c:204-317` | each of d, i, u, o, x and X reads back in its base and signedness at any width and flag, with digits of the right case |
| `LogPrintf.SignedWords` | `SDR_CycloneIII/software/sdr_bsp/HAL/src/alt_log_printf.c:217-236` | every 32-bit signed number passed to d or i prints as itself |
| `LogPrintf.TextLetters` | `SDR_CycloneIII/software/sdr_bsp/HAL/src/alt_log_printf.c:319-334` | c and s are padded with spaces on the left to the width and never cut |
| `LogPrinter.Log.RepChar` | `SDR_CycloneIII/software/sdr_bsp/HAL/src/alt_log_printf.c:106-110` | a count below one prints nothing |
| `LogPrinter.Log.CountDigits` | `SDR_CycloneIII/software/sdr_bsp/HAL/src/alt_log_printf.c:247-255` | the count is the length of the shortest digit string and the place value stays within 32 bits |
| `LogPrinter.Log.NumberyParts` | `SDR_CycloneIII/software/sdr_bsp/HAL/src/alt_log_printf.c:281-296` | the loop emits every digit from the largest place down, including inner and trailing zeros |
| `LogPrinter.Log.Integer` | `SDR_CycloneIII/software/sdr_bsp/HAL/src/alt_log_printf.c:208-297` | sign before zeros, after spaces; the text is the one that reads back |
| `LogPrinter.Log.OtherChar` | `SDR_CycloneIII/software/sdr_bsp/HAL/src/alt_log_printf.c:170-338` | one character of a directive keeps the width in step with the modifiers read, or ends the directive |
| `LogPrinter.Log.Next` | `SDR_CycloneIII/software/sdr_bsp/HAL/src/alt_log_printf.c:132-339` | one character keeps what was sent together with what is still to come the same text, in each of the three states |
| `LogPrinter.Log.Printf` | `SDR_CycloneIII/software/sdr_bsp/HAL/src/alt_log_printf.c:114-341` | the character state machine prints what the grammar of formats means, for every format and argument list |
| `AltPrintf.Console.FirstDigit` | `SDR_CycloneIII/software/sdr_bsp/HAL/src/alt_printf.c:96-99` | the masked scan stops at the highest digit that is not zero |
| `Bits.MaskIsDigit` | `SDR_CycloneIII/software/sdr_bsp/HAL/src/alt_printf.c:98-104` | a four-bit mask shifted up and the result shifted down, bit by bit, pick out one hexadecimal digit |
| `AltPrintf.Console.Hex` | `SDR_CycloneIII/software/sdr_bsp/HAL/src/alt_printf.c:82-111` | masks and shifts print the shortest hexadecimal string, the one the division loop prints |
| `AltPrintf.Console.Printf` | `SDR_CycloneIII/software/sdr_bsp/HAL/src/alt_printf.c:48-127` | the loop prints what such a format means; unknown letters print nothing |
| `AltPrintf.SameOutput` | `SDR_CycloneIII/software/sdr_bsp/HAL/src/alt_printf.c:48-127` | on formats whose directives both printers know, they send the same text |
| `AltPrintf.SmallMeans` | `SDR_CycloneIII/software/sdr_bsp/HAL/src/alt_printf.c:48-127` | for every format the small printer sends what the logging printer sends for that format without the directives the small one does not know |
| `PrintDec.GroupedIsInFront` | `SDR_CycloneIII/software/sdr/sdr.c:75-81` | digits and commas produced from the right are the grouping in threes |
| `PrintDec.CommaPlaces` | `SDR_CycloneIII/software/sdr/sdr.c:79-83` | a comma stands at every fourth place from the right, nowhere else and never first |
| `PrintDec.GroupedReadsBack` | `SDR_CycloneIII/software/sdr/sdr.c:73-86` | without its commas the text is the shortest decimal string and reads back as x |
| `PrintDec.Fill` | `SDR_CycloneIII/software/sdr/sdr.c:75-81` | every store stays within the 20-byte buffer for x below 10^15 |
| `PrintDec.PrintDec` | `SDR_CycloneIII/software/sdr/sdr.c:59-87` | zero, the grouped digits, or only the sign for a negative number |
| `TimeOfDay.Calendar.Normalise` | `SDR_CycloneIII/software/sdr_bsp/HAL/src/alt_gettod.c:95-112` | the two loops carry between the fields in one go, or clamp to zero a time before the epoch, for all words |
| `TimeOfDay.Calendar.Get` | `SDR_CycloneIII/software/sdr_bsp/HAL/src/alt_gettod.c:71-124` | the reading, or -ENOTSUP with the caller's structures untouched |
| `TimeOfDay.Calendar.Set` | `SDR_CycloneIII/software/sdr_bsp/HAL/src/alt_settod.c:72-96` | an immediate reading returns a normal time that was set exactly when the two products agree, or at the epoch, and so always below 2^32 microseconds of ticks; ENOSYS and nothing changed without a clock |
| `TimeOfDay.SettledIsNormal` | `SDR_CycloneIII/software/sdr_bsp/HAL/src/alt_gettod.c:95-112` | every reading has its microseconds in range |
| `TimeOfDay.SettledKeepsTotal` | `SDR_CycloneIII/software/sdr_bsp/HAL/src/alt_gettod.c:95-112` | normalising keeps the time unless it clamps or overflows |
| `TimeOfDay.ReadingMeans` | `SDR_CycloneIII/software/sdr_bsp/HAL/src/alt_gettod.c:89-112` | for every reset time, tick count and rate a reading is the reset time plus n / rate seconds and n (10^6 / rate) mod 10^6 microseconds, carried between the fields, or zero before the epoch |
| `TimeOfDay.ExactIff` | `SDR_CycloneIII/software/sdr_bsp/HAL/src/alt_gettod.c:91-93` | ticks are turned into time without error at every count exactly when the rate divides 10^6 |
| `TimeOfDay.ReadingsDifferExactly` | `SDR_CycloneIII/software/sdr_bsp/HAL/src/alt_gettod.c:89-112` | two clean readings differ by exactly (n2 - n1)(10^6 / rate) microseconds |
| `TimeOfDay.SetThenGetIff` | `SDR_CycloneIII/software/sdr_bsp/HAL/src/alt_settod.c:80-89` | a get at the tick of a set of a normal time returns it exactly when the setter's and the getter's products agree, or the epoch was set and the getter's is the smaller |
| `TimeOfDay.TimeRunsOn` | `SDR_CycloneIII/software/sdr_bsp/HAL/src/alt_settod.c:80-89` | after a setting that its own tick reads back, a later clean reading is what was set plus the elapsed ticks |
| `TimeOfDay.ProductsAgreeIff` | `SDR_CycloneIII/software/sdr_bsp/HAL/src/alt_settod.c:83-84` | the products agree exactly when what 32 bits drop is a multiple of 15625 times 2^32, so always below 2^32 microseconds |
| `TimeOfDay.FirstLoss` | `SDR_CycloneIII/software/sdr_bsp/HAL/src/alt_settod.c:83-84` | at 1000 ticks per second the setting is kept at tick 4294967 and lost at the next one |

## Left out

- The µC/OS-II branches of the driver and the branches that discard data when the FIFO is full: other configurations.
- The bit layout of the UART registers: reads and writes of a register are operations on named fields.
- Event flags, semaphores and interrupt registration: they have no effect in the single-threaded build that is modelled.
- The operating system's own clock hook at the end of a tick: empty in this build.
- Callback functions of alarms: any behaviour that the assumptions allow, chosen anew at every call.
- AlarmClock.Clock.RunCallback: the rest of a walk on which a callback stops the saved successor and it is then started again; the links lead home, but alarms may be visited twice.
- AlarmClock.Clock.Start: asks that the alarm is not on the list; the source does not, and `AlarmTraps.StartAgain` says what its code then does to the list.
- AlarmClock.Clock.TickOnSchedule: promises nothing about the deadline of an alarm whose own callback restarts it and then returns a period, because the code adds that period to the new deadline.
- JtagUart.JtagUart.Ioctl: the request's argument pointer is a value and an answer; a request that succeeds always has one.
- LogPrinter.Log.Printf: overflow of a width in the format string is not modelled, the width is an unbounded number; waiting for the log device to take a character is not modelled.
- PrintDec.PrintDec: numbers from 10^15 up are excluded, because the buffer holds 20 characters.
- AMDemodulator.Multiplier.Clock: the vendor's netlist is not part of this model, only the exact product after three stages.
- FdCalls.Calls.Close: the driver's close callback is an integer; a null device pointer is not modelled, so callers name an open descriptor.
- FdCalls.Calls.Open: the names of devices and filesystems and their lists; a lookup's outcome is a parameter.
- `HP_shift.v`, `Mixer.v`, `PLL.v`, the display and keyboard code, `get_phase`, `get_freq` and the menu loop: single expressions, vendor parts or input and output.
- The remaining HAL plumbing: stubs, environment, cache handling and exception entry.
