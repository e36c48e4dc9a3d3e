# Verification model of the ADC data logger firmware and its mbed OS core

The firmware samples an external ADC, sends blocks of samples over a serial line to a program on the
PC, and rests on mbed OS for time, serial I/O, critical sections, power and flash. This project models
the parts in which those services keep their promises by arithmetic, linked structures or concurrency.
`dafny verify dfyconfig.toml` verifies all of it.

| files | what they model |
|---|---|
| `TickerClock.dfy`, `TickerRuns.dfy` | The microsecond clock over a wrapping hardware counter: one reading, one scheduling decision, and whole runs. The counter is an unbounded true tick count seen modulo a power of two. |
| `EventQueue.dfy`, `PeriodicTickers.dfy` | The sorted event queue as a value, with the history of every occurrence; Tickers and Timeouts over it, and the work of the interrupt loop. |
| `TickerDriver.dfy` | The driver as it is: linked event objects, the clock fields, the hardware, and the interrupt handler, proved against the modules above. |
| `RingBuffer.dfy`, `UartProtocol.dfy`, `UartCalls.dfy`, `UartDriver.dfy` | The circular buffer in place; the serial port as a protocol of threads and interrupts, what its calls have done when they return, and that they return; and its methods as code, with interrupts between any two actions. |
| `CriticalSections.dfy`, `Atomics.dfy` | Nested interrupt masking, and exclusive-access loops with their fallback, against one specification. They justify the atomic steps taken elsewhere. |
| `SleepLocks.dfy`, `Stopwatch.dfy` | Deep-sleep accounting over many objects, and `Timer`. |
| `FlashErase.dfy` | Erasing sectors of different sizes. |
| `DataBus.dfy`, `Digits.dfy`, `AdcFrames.dfy` | A sample from the pins of the ADC through the printed frame to the decoded number on the PC. |
| `Prelude.dfy` | Machine words, powers of two, and division. |

Machine widths are written out where the code depends on them: 32-bit tick counts and 64-bit microseconds
wrap, products are taken modulo 2^64, and the Python side is unbounded. An object whose methods change its
fields is a class; each of its methods is proved against a function or a step of a specification about
which the properties are then proved.

What turned out to hold only under a condition, or not to match what the surrounding comments suggest:

* The idle interrupt is scheduled so that timer overflow is tracked (`src/mbed-os/hal/mbed_ticker_api.c:208-220`).
  Below 1 MHz the rounding down in `compute_tick` can program the tick just read, and a lap of the counter is
  then missed, also on hardware that fires on an equal match unless the register is written within that very
  tick. `ExactNextIff` gives the exact condition; `SlowTickerMissesLap` shows that it can fail.
* A null callback given to `Ticker::attach_us` takes, or keeps, the deep-sleep lock, and nothing gives it back:
  the counter exceeds the number of holders by the number of such calls (`LockCountsHolders`,
  `NullCallbackLeaks`).
* `FlashIAP::erase` compares the remaining size with each sector after erasing it. A range that sectors tile
  may be refused; `SucceedsIff` says exactly when it is accepted. A failing call may have erased past its
  range; `OverrunsIff` says exactly when.
* `Ticker::setup` adds without a check, so a period beyond the 64-bit horizon wraps (`AttachNeedsHorizon`).
* A block of no samples is never received, because the parser looks at 6 * 0 lines (`FrameRoundTrip`).

Assumptions about the outside: time never runs backwards; the hardware counter, the peripheral, the flash and
the exclusive monitor are arbitrary within their documented behaviour; interrupts run only when not masked;
an object passed to `ticker_insert_event_us` is not linked already, as its callers ensure.

## Model

| member | source | states |
|---|---|---|
| TickerClock.SyncCounts | src/mbed-os/hal/mbed_ticker_api.c:111-156 | A reading adds exactly the true ticks since the last one, modulo the counter range, to an exact clock: time and remainder together lose nothing, in all three frequency branches. |
| TickerClock.SyncExactIff | src/mbed-os/hal/mbed_ticker_api.c:111-156 | A reading keeps the clock exact if and only if less than one lap of the counter has passed since the previous reading. |
| TickerClock.ExactIsInjective | src/mbed-os/hal/mbed_ticker_api.c:111-156 | Time shown and remainder together determine the true tick count until the 64-bit microseconds wrap. |
| TickerClock.GuardPreventsOverflow | src/mbed-os/hal/mbed_ticker_api.c:50-52 | The limit computed at initialisation separates exactly: below it the 64-bit product and the 32-bit quotient cannot overflow, above it the delta would be clamped anyway. |
| TickerClock.ComputeTickIsClampedDelta | src/mbed-os/hal/mbed_ticker_api.c:161-194 | The guarded three-branch computation equals (last read + min(max_delta, floor(delta * frequency / 1000000))) modulo the range, for every future timestamp, frequency and width. |
| TickerClock.FirstShowingMeaning | src/mbed-os/hal/mbed_ticker_api.c:111-156 | The inequality used for "first tick at which an event is due" is that: the clock shows the timestamp there and not one tick before. |
| TickerClock.ScheduledTickAccuracy | src/mbed-os/hal/mbed_ticker_api.c:161-194 | Unless clamped, the programmed tick is at most one tick before the first tick at which the event is due and less than one microsecond after it; never after it at 1 MHz or below. |
| TickerClock.NextMatchIsFirst | src/mbed-os/hal/mbed_ticker_api.c:199-206 | The tick taken as the next match is the first one after `prev` at which the counter shows the match value. |
| TickerClock.PassedIffCrossed | src/mbed-os/hal/mbed_ticker_api.c:199-206 | The cyclic comparison is true if and only if the counter took the match value after the first reading and no later than the second, for every width. |
| TickerClock.ConvertTimestampUnique | src/mbed-os/hal/mbed_ticker_api.c:96-106 | The converted timestamp is the one and only time within 2^32 microseconds from the reference whose low 32 bits are the given ones. |
| TickerRuns.StartedTracks | src/mbed-os/hal/mbed_ticker_api.c:28-67 | Initialisation leaves an exact clock with the interrupt due within max_delta, at the frequency and width that the hardware reports, if it reports any a ticker can have. |
| TickerRuns.DueTickWithin | src/mbed-os/hal/mbed_ticker_api.c:221-249 | After reprogramming, the interrupt comes within max_delta of the last reading if and only if the head is absent, already due, at least one tick ahead, or the match register is written at the very tick last read on hardware that fires on an equal match. |
| TickerRuns.DueTickOfEvent | src/mbed-os/hal/mbed_ticker_api.c:221-249 | Where exactly the interrupt for a future event comes; less than one tick ahead it comes a whole lap late on hardware that does not fire on an equal match. |
| TickerRuns.NoLapMissed | src/mbed-os/hal/mbed_ticker_api.c:111-249 | Along every run of readings and reprogrammings, with interrupt latency below 9/16 of the range and events at least one tick ahead, the clock stays exact: no wrap is ever missed. |
| TickerRuns.FastTickersReachAll | src/mbed-os/hal/mbed_ticker_api.c:161-194 | At 1 MHz or more every future event is at least one tick ahead, so the condition of the previous row always holds. |
| TickerRuns.UnreachableMissesLap | src/mbed-os/hal/mbed_ticker_api.c:161-249 | The converse of the same condition: for every other head, however the reprogramming went, the interrupt comes a whole lap after the last reading, and the timely reading it makes leaves the clock a lap behind. |
| TickerRuns.ExactNextIff | src/mbed-os/hal/mbed_ticker_api.c:111-249 | So after a reprogramming every timely reading leaves the clock exact if and only if the head was reachable. |
| TickerRuns.SlowTickerMissesLap | src/mbed-os/hal/mbed_ticker_api.c:161-249 | Below 1 MHz, without firing on an equal match, every ticker has such a head: an event one microsecond ahead. |
| TickerRuns.TimelyIsExact | src/mbed-os/hal/mbed_ticker_api.c:111-156 | Until the 64-bit horizon, in a timely run the time shown is floor(1000000 * true ticks / frequency). |
| EventQueue.Rank | src/mbed-os/hal/mbed_ticker_api.c:326-340 | The insertion walk stops behind all entries with earlier or equal timestamps and before the first later one. |
| EventQueue.InsertedSorted | src/mbed-os/hal/mbed_ticker_api.c:315-354 | Insertion keeps the queue in timestamp order, first come first served among equal timestamps. |
| EventQueue.InsertedContents | src/mbed-os/hal/mbed_ticker_api.c:315-354 | Insertion adds exactly the new entry to the contents. |
| EventQueue.RemovedKeepsOrder | src/mbed-os/hal/mbed_ticker_api.c:356-378 | Removing any one entry keeps order and keeps objects distinct. |
| EventQueue.RunsAreSafe | src/mbed-os/hal/mbed_ticker_api.c:260-378 | Over any run of insertions, removals and dispatches, also from inside handlers: order, one link per object, no early dispatch, and inserted = queued + removed + dispatched as multisets. |
| EventQueue.OccurrenceAccounted | src/mbed-os/hal/mbed_ticker_api.c:260-378 | Every occurrence ever inserted is exactly one of queued, removed or dispatched, and once only. |
| EventQueue.InsertAdds | src/mbed-os/hal/mbed_ticker_api.c:315-354 | An insertion adds one occurrence to the history and to the queue, and changes nothing else. |
| EventQueue.RemoveTakes | src/mbed-os/hal/mbed_ticker_api.c:356-378 | A removal takes exactly the occurrence of its object out of the queue, or does nothing if it has none. |
| EventQueue.RemovedNeverFires | src/mbed-os/hal/mbed_ticker_api.c:260-378 | Along any run that does not insert it again, a removed object is never dispatched. |
| EventQueue.DispatchesFireDue | src/mbed-os/hal/mbed_ticker_api.c:260-293 | Dispatching repeatedly at one time fires the due entries from the front, in order, until none is left, and no others. |
| EventQueue.OverdueIsFired | src/mbed-os/hal/mbed_ticker_api.c:260-378 | Once nothing due is queued, every occurrence whose time has come was dispatched unless it was removed. |
| EventQueue.DispatchInOrder | src/mbed-os/hal/mbed_ticker_api.c:260-293 | Within one interrupt the dispatch order is by timestamp and then by insertion, including events that handlers add no earlier than the one they handle. |
| PeriodicTickers.DriftFree | src/mbed-os/drivers/Ticker.cpp:37-50 | After any run of attaching, detaching, passing time and dispatching, with any latency, once nothing is due every Ticker was called exactly floor((now - start) / period) times, for start + period, start + 2 * period, and so on; a Timeout exactly once when its time has come. |
| PeriodicTickers.CalledFromAttach | src/mbed-os/drivers/Ticker.cpp:37-50 | From attaching on, whatever else happens short of attaching or detaching the same object: once nothing is due, a Ticker attached at t0 was called exactly floor((now - t0) / period) times, for t0 + period, t0 + 2 * period and so on, and a Timeout once if its time has come. |
| PeriodicTickers.AttachKeepsInv | src/mbed-os/drivers/Ticker.cpp:37-43 | Attaching, also over an existing attachment, keeps every object on schedule and awaits the first call at start + period. |
| PeriodicTickers.AttachNeedsHorizon | src/mbed-os/drivers/Ticker.cpp:37-43 | Attaching keeps everybody on schedule if and only if now + period stays below 2^64. |
| PeriodicTickers.DetachKeepsInv | src/mbed-os/drivers/Ticker.cpp:25-35 | Detaching leaves all others on schedule. |
| PeriodicTickers.DetachRemoves | src/mbed-os/drivers/Ticker.cpp:25-35 | After detaching, the object is neither queued nor attached, and every other entry and attachment is as it was. |
| PeriodicTickers.StaysGone | src/mbed-os/drivers/Ticker.cpp:25-35 | It stays so along every run that does not attach it again. |
| PeriodicTickers.DetachedIsNotCalled | src/mbed-os/drivers/Ticker.cpp:25-35 | So at no point of such a run is it the event that is dispatched. |
| PeriodicTickers.DispatchKeepsInv | src/mbed-os/drivers/Ticker.cpp:45-50 | One dispatch calls the head for its own timestamp, re-arms a Ticker one period after that timestamp, and leaves the others on schedule. |
| PeriodicTickers.DispatchDoesOneRound | src/mbed-os/hal/mbed_ticker_api.c:267-288 | Each iteration of the interrupt loop lowers the sum of floor((now - timestamp) / period) + 1 over the due events by exactly one. |
| PeriodicTickers.Drained | src/mbed-os/hal/mbed_ticker_api.c:267-288 | With the counter frozen and positive periods the loop ends, after exactly that sum of iterations, with nothing due. |
| PeriodicTickers.FiresDrain | src/mbed-os/hal/mbed_ticker_api.c:267-288 | Dispatching that many times in a row does leave nothing due. |
| PeriodicTickers.FireUsesWork | src/mbed-os/hal/mbed_ticker_api.c:267-288 | The same measure, taken against any fixed later time, also falls by one per dispatch; so the loop ends if the readings it makes stay below some time. |
| PeriodicTickers.ArmedNotFarther | src/mbed-os/hal/mbed_ticker_api.c:260-293 | Attaching from inside the interrupt loop lets time pass or leaves at most the work there was: what is attached with a positive period is not due yet. |
| PeriodicTickers.DetachedNotFarther | src/mbed-os/hal/mbed_ticker_api.c:260-293 | So does detaching. |
| TickerDriver.TickerQueue.constructor | src/mbed-os/hal/mbed_ticker_api.c:28-67 | `initialize` leaves a well-formed empty queue at the frequency and width of the hardware, with the idle interrupt programmed. |
| TickerDriver.TickerQueue.UpdatePresentTime | src/mbed-os/hal/mbed_ticker_api.c:111-156 | Reads the counter once, advances the clock by what passed, never backwards, and touches nothing else. |
| TickerDriver.TickerQueue.AddElapsed | src/mbed-os/hal/mbed_ticker_api.c:123-153 | The three division branches all yield quotient and remainder of the exact division with the carried remainder. |
| TickerDriver.TickerQueue.TimeIsExact | src/mbed-os/hal/mbed_ticker_api.c:111-156 | If the recorded run of the driver was timely, `present_time` is the whole number of microseconds since initialisation at the frequency that the hardware reports. |
| TickerDriver.TickerQueue.ScheduleInterrupt | src/mbed-os/hal/mbed_ticker_api.c:221-249 | A due head raises the interrupt at once; otherwise the match is programmed, and the interrupt raised if and only if the counter had passed the match when read again. |
| TickerDriver.TickerQueue.FindPlace | src/mbed-os/hal/mbed_ticker_api.c:326-340 | The walk over the linked list finds the insertion place of the specification with its two neighbours. |
| TickerDriver.TickerQueue.Relink | src/mbed-os/hal/mbed_ticker_api.c:326-348 | The pointer updates of an insertion turn the list of the old queue into the list of the new one. |
| TickerDriver.TickerQueue.InsertEventUs | src/mbed-os/hal/mbed_ticker_api.c:315-354 | The linked list afterwards is the sorted queue with the event added, and the hardware is armed for its head. |
| TickerDriver.TickerQueue.InsertEvent | src/mbed-os/hal/mbed_ticker_api.c:295-313 | Inserts at the unique 64-bit time within 2^32 microseconds from now that has the given low 32 bits. |
| TickerDriver.TickerQueue.RemoveEvent | src/mbed-os/hal/mbed_ticker_api.c:356-378 | The linked list afterwards is the queue without the event; the hardware is armed anew when the head went and untouched otherwise. |
| TickerDriver.TickerQueue.FindBefore | src/mbed-os/hal/mbed_ticker_api.c:366-373 | The walk finds the predecessor of a linked object, or nothing exactly when the object is not linked. |
| TickerDriver.TickerQueue.ReadUs | src/mbed-os/hal/mbed_ticker_api.c:385-394 | Returns the freshly updated time. |
| TickerDriver.TickerQueue.GetNextTimestamp | src/mbed-os/hal/mbed_ticker_api.c:396-409 | Returns the low 32 bits of the earliest timestamp, or nothing exactly when the queue is empty. |
| TickerDriver.TickerQueue.Attach | src/mbed-os/drivers/Ticker.cpp:37-43 | `setup` on the linked list does what attaching does in the model of periodic calls, counted from a reading taken during the call; the object is on the list with that start and period and no calls yet. |
| TickerDriver.TickerQueue.Detach | src/mbed-os/drivers/Ticker.cpp:25-35 | `detach` on the linked list does what detaching does in that model; the object is off the list and forgotten. |
| TickerDriver.TickerQueue.Handle | src/mbed-os/drivers/Ticker.cpp:45-50 | Up to the call of its function, the handler puts a Ticker back one period after its old timestamp. |
| TickerDriver.TickerQueue.DispatchHead | src/mbed-os/hal/mbed_ticker_api.c:275-283 | Unlinking the head before calling its handler makes one dispatch step of the model, up to the call of the function. |
| TickerDriver.TickerQueue.Call | src/mbed-os/drivers/Ticker.cpp:47-49 | A function that attaches and detaches any Tickers and Timeouts, from inside the interrupt, makes these steps of the model and brings the loop no farther from its end. |
| TickerDriver.TickerQueue.Dispatch | src/mbed-os/hal/mbed_ticker_api.c:275-283 | One iteration on a due event, function included: the dispatch, then what the function does, and either time has passed or there is less work left. |
| TickerDriver.TickerQueue.IrqHandler | src/mbed-os/hal/mbed_ticker_api.c:260-293 | The whole interrupt handler, with functions that attach and detach, terminates as long as its readings stay below a fixed time; it is an allowed run of the model in which each dispatch is followed by what its function does, stops with nothing due and every Ticker called exactly as often as it should be, and leaves the hardware armed, and the interrupt cleared if there was nothing to do. |
| RingBuffer.PushesKeepLast | src/mbed-os/platform/CircularBuffer.h:47-59 | After any number of pushes the buffer holds the last `size` of all elements, in order. |
| RingBuffer.CircularBuffer.Push | src/mbed-os/platform/CircularBuffer.h:47-59 | Appends, and drops the oldest element exactly when full. |
| RingBuffer.CircularBuffer.PushLayout | src/mbed-os/platform/CircularBuffer.h:47-59 | The index arithmetic of a push, through wrap-around, on every layout of the pool. |
| RingBuffer.CircularBuffer.Pop | src/mbed-os/platform/CircularBuffer.h:66-77 | Removes and returns the oldest element; fails exactly when empty. |
| RingBuffer.CircularBuffer.Empty | src/mbed-os/platform/CircularBuffer.h:83-88 | True exactly when the contents are empty. |
| RingBuffer.CircularBuffer.Full | src/mbed-os/platform/CircularBuffer.h:94-99 | True exactly when the contents fill the buffer. |
| RingBuffer.CircularBuffer.Size | src/mbed-os/platform/CircularBuffer.h:113-127 | The number of elements, through index wrap-around and unsigned arithmetic. |
| RingBuffer.CircularBuffer.Reset | src/mbed-os/platform/CircularBuffer.h:104-110 | Empties the buffer. |
| UartProtocol.AllInterleavings | src/mbed-os/drivers/UARTSerial.cpp:136-326 | In every interleaving of threads and interrupts: sent + buffered is what writers were told was accepted, delivered + buffered is what was received, nothing is overwritten, per-thread accounts match, and the interrupt flags match the buffers. |
| UartProtocol.InitialInv | src/mbed-os/drivers/UARTSerial.cpp:31-40 | The state after construction satisfies that invariant. |
| UartProtocol.NextKeepsInv | src/mbed-os/drivers/UARTSerial.cpp:136-326 | Every atomic step keeps that invariant. |
| UartProtocol.TxInterruptKeepsInv | src/mbed-os/drivers/UARTSerial.cpp:305-326 | So does the transmit interrupt, which switches itself off exactly when the buffer has run empty. |
| UartProtocol.RxInterruptKeepsInv | src/mbed-os/drivers/UARTSerial.cpp:282-302 | So does the receive interrupt, which switches itself off exactly when the buffer is full. |
| UartProtocol.PushKeepsInv | src/mbed-os/drivers/UARTSerial.cpp:163-166 | A push by the thread inside `write` finds room and appends one accepted byte. |
| UartProtocol.PopKeepsInv | src/mbed-os/drivers/UARTSerial.cpp:206-209 | A pop by the thread inside `read` finds a byte and delivers the oldest. |
| UartProtocol.KickKeepsInv | src/mbed-os/drivers/UARTSerial.cpp:168-176 | The critical sections that restart transmission or reception close the window in which work waits without an interrupt. |
| UartProtocol.ReturnKeepsInv | src/mbed-os/drivers/UARTSerial.cpp:178-223 | A returning call moves exactly its own bytes to the account of finished calls. |
| UartProtocol.SoleWriterStream | src/mbed-os/drivers/UARTSerial.cpp:136-182 | With one idle writer, sent + buffered is the concatenation of the prefixes its calls reported. |
| UartProtocol.SleepingWriterHasInterrupt | src/mbed-os/drivers/UARTSerial.cpp:150-166 | While a writer sleeps on a full buffer, outside the short window of another writer, the transmit interrupt is enabled; with nobody inside the mutex, one byte of progress lets it go on. |
| UartProtocol.SleepingReaderHasInterrupt | src/mbed-os/drivers/UARTSerial.cpp:196-209 | The same for a reader asleep on an empty buffer. |
| UartProtocol.SyncMeansSent | src/mbed-os/drivers/UARTSerial.cpp:108-122 | `sync` returns if and only if all accepted bytes have gone to the hardware. |
| UartCalls.WriteReturns | src/mbed-os/drivers/UARTSerial.cpp:136-182 | In every run, a `write` is still at it with nothing reported, or has reported a prefix of its buffer: all of it, unless some step found the buffer full when not blocking. |
| UartCalls.BlockingWritesAll | src/mbed-os/drivers/UARTSerial.cpp:147-161 | A blocking `write` returns only with its whole buffer accepted. |
| UartCalls.ReadReturns | src/mbed-os/drivers/UARTSerial.cpp:184-224 | In every run, a `read` is still at it or has returned at most `length` bytes: at least one, unless nothing was asked for or some step found the buffer empty when not blocking. |
| UartCalls.BlockingReadsSome | src/mbed-os/drivers/UARTSerial.cpp:196-204 | A blocking `read` returns only with at least one byte. |
| UartCalls.NonBlockingNeverSleeps | src/mbed-os/drivers/UARTSerial.cpp:152-161 | A thread that never finds the file blocking never sleeps in `write` or `read`. |
| UartCalls.OwnStepAdvances | src/mbed-os/drivers/UARTSerial.cpp:136-224 | Every step of its own brings a thread nearer to the return of its call, unless it has woken up in vain. |
| UartCalls.OtherStepDoesNotDelay | src/mbed-os/drivers/UARTSerial.cpp:136-326 | No step of another thread and no interrupt takes it farther away. |
| UartCalls.CallsReturn | src/mbed-os/drivers/UARTSerial.cpp:108-224 | So in every run each call takes at most as many steps as it needs, and two for each time its thread wakes up in vain. |
| UartDriver.UartSerial.TxIrq | src/mbed-os/drivers/UARTSerial.cpp:305-326 | The loop is the transmit interrupt of the protocol for the number of bytes the peripheral took. |
| UartDriver.UartSerial.RxIrq | src/mbed-os/drivers/UARTSerial.cpp:282-302 | The loop is the receive interrupt of the protocol for the bytes the peripheral handed over. |
| UartDriver.UartSerial.Write | src/mbed-os/drivers/UARTSerial.cpp:136-182 | With interrupts between any two actions: exactly a prefix of the buffer is appended to the stream, all of it when blocking, else until the buffer is full; the result is its length, negative exactly for none; the interrupts are left consistent. A blocking call terminates, and a non-blocking one never sleeps. |
| UartDriver.UartSerial.Read | src/mbed-os/drivers/UARTSerial.cpp:184-224 | Delivers the oldest bytes in order, at least one when blocking and at most `length`; a negative result exactly when not blocking and empty; the interrupts are left consistent. A blocking call terminates, and a non-blocking one never sleeps. |
| UartDriver.InterruptsCompose | src/mbed-os/drivers/UARTSerial.cpp:282-326 | What several interrupts do one after the other is again what interrupts may do. |
| CriticalSections.StepKeepsInv | src/mbed-os/platform/mbed_critical.c:54-102 | Each step keeps the invariant if and only if it does not exceed the depth limit; leaving the outermost section restores the mask found on entry. |
| CriticalSections.CriticalSectionsNest | src/mbed-os/platform/mbed_critical.c:54-102 | Along every run that interrupt masking allows: positive depth means masked, no assertion fails, one context at most is inside, and the saved mask is the real one. |
| CriticalSections.CriticalSectionIsAtomic | src/mbed-os/platform/mbed_critical.c:54-102 | No other context runs between entering and leaving. |
| CriticalSections.CounterIsNesting | src/mbed-os/platform/mbed_critical.c:54-102 | Along every run the counter is the depth to which the enters and exits of the run lead. |
| CriticalSections.InsideIsMasked | src/mbed-os/platform/mbed_critical.c:54-102 | A context that has entered and not yet left is masked and keeps running, whatever else is ready. |
| CriticalSections.SectionRestoresMask | src/mbed-os/platform/mbed_critical.c:54-102 | A whole outermost section, with any nested ones, ends with the mask found before it. |
| CriticalSections.CriticalSection.Enter | src/mbed-os/platform/mbed_critical.c:54-77 | The code masks interrupts and counts one up, is the two steps of the protocol, and says exactly when its assertions hold. |
| CriticalSections.CriticalSection.Exit | src/mbed-os/platform/mbed_critical.c:79-102 | The code counts one down, restores the saved mask at depth zero, is the exit step, and says exactly when its assertion holds. |
| Atomics.Linearizable | src/mbed-os/platform/mbed_critical.c:111-204 | For any number of contexts and any interleaving of exclusive loads and stores, spurious failures included: every call takes effect once, during the call and in the order of its context, and all of them return, and leave in the cell, what they would one after the other. |
| Atomics.EachCallOnce | src/mbed-os/platform/mbed_critical.c:111-204 | In every run, the operations of a context that have taken effect, followed by the one it is in the middle of, are those it has called. |
| Atomics.StepKeepsInv | src/mbed-os/platform/mbed_critical.c:111-204 | Each exclusive load, store and lost reservation keeps the cell and the results in step with the operations that have taken effect. |
| Atomics.NoUpdateLost | src/mbed-os/platform/mbed_critical.c:151-204 | In every interleaving of any number of contexts that increment and decrement, once all calls have returned the cell is the initial value plus all increments called minus all decrements called, modulo its width. |
| Atomics.TotalsReturned | src/mbed-os/platform/mbed_critical.c:151-204 | Each of these calls returns the total up to and including its own change. |
| Atomics.CasMeans | src/mbed-os/platform/mbed_critical.h:113-121 | Among any operations, a compare-and-set succeeds if and only if the cell holds what it expects at its instant, sets it then, and leaves it alone and reports it otherwise. |
| Atomics.CasChain | src/mbed-os/platform/mbed_critical.c:111-149 | In every interleaving of contexts that compare and set, the successful calls form a chain: each expected what the one before had set, and the cell holds what the last one set. |
| Atomics.Cell.CasExclusive | src/mbed-os/platform/mbed_critical.h:113-121 | On success the value at the instant was the expected one and the cell holds the desired one; on failure the current value is reported and differs from the expected one. |
| Atomics.Cell.IncrExclusive | src/mbed-os/platform/mbed_critical.c:151-177 | The loop adds to the value at the instant of its store, whatever came in between. |
| Atomics.Cell.DecrExclusive | src/mbed-os/platform/mbed_critical.c:179-204 | The same for subtraction. |
| Atomics.Cell.CasInCriticalSection | src/mbed-os/platform/mbed_critical.c:208-259 | The fallback succeeds exactly on the expected value, stores the desired one then and nothing otherwise, and reports the value found. |
| Atomics.Cell.IncrInCriticalSection | src/mbed-os/platform/mbed_critical.c:261-290 | The fallback refines the same specification. |
| Atomics.Cell.DecrInCriticalSection | src/mbed-os/platform/mbed_critical.c:292-320 | The fallback refines the same specification. |
| SleepLocks.LockCountsHolders | src/mbed-os/hal/mbed_sleep_manager.c:28-53 | Over any run of calls on any number of Tickers, Timers, serial ports and DeepSleepLocks that does not halt the system, the counter is the number of holders plus the number of null callbacks attached; so it is the number of holders, and deep sleep allowed exactly when there is none, if and only if there was no such call. |
| SleepLocks.RunLeaks | src/mbed-os/hal/mbed_sleep_manager.c:28-53 | From any surplus, each null callback adds one to it and no call ever takes it back. |
| SleepLocks.NullCallbackLeaks | src/mbed-os/drivers/Ticker.h:116-125 | A Ticker given a null callback and detached leaves the lock taken with nobody holding it, for every continuation. |
| SleepLocks.ClaimFollowsCalls | src/mbed-os/drivers/SerialBase.cpp:71-92 | Each object holds the lock as its own calls say, whatever the others do: the last call on a Ticker, Timer or serial interrupt decides, and a DeepSleepLock counts. |
| SleepLocks.HeldIsAwake | src/mbed-os/hal/mbed_sleep_manager.c:28-53 | While the calls on any one object leave it holding the lock, deep sleep is not allowed. |
| SleepLocks.CallKeepsAccount | src/mbed-os/drivers/Ticker.h:116-125 | One call keeps the account if and only if it does not attach a null callback to a locking Ticker; the system halts only on 65535 holders or a misused DeepSleepLock, never by underflow. |
| SleepLocks.ResultFollowsClaim | src/mbed-os/drivers/Ticker.cpp:25-35 | The counter moves with what the called object claims, and by one more exactly when a null callback is attached. |
| SleepLocks.SleepManager.LockDeepSleep | src/mbed-os/hal/mbed_sleep_manager.c:28-37 | Counts up, or halts at the limit. |
| SleepLocks.SleepManager.UnlockDeepSleep | src/mbed-os/hal/mbed_sleep_manager.c:39-48 | Counts down, or halts at zero. |
| SleepLocks.TickerLock.AttachUs | src/mbed-os/drivers/Ticker.h:116-125 | Takes the lock only for the first callback of a locking Ticker. |
| SleepLocks.TickerLock.Detach | src/mbed-os/drivers/Ticker.cpp:25-35 | Gives the lock back only if it was taken. |
| SleepLocks.SerialIrqs.Attach | src/mbed-os/drivers/SerialBase.cpp:71-92 | Locks and unlocks once per interrupt type, also over repeated attachments. |
| SleepLocks.SerialIrqs.Destroy | src/mbed-os/drivers/SerialBase.cpp:136-144 | The destructor gives back every lock still held. |
| SleepLocks.DeepSleepLock.Lock | src/mbed-os/platform/DeepSleepLock.h:65-74 | Takes the global lock on the first nested lock only; halts on overflow. |
| SleepLocks.DeepSleepLock.Unlock | src/mbed-os/platform/DeepSleepLock.h:78-88 | Gives it back on the last one only; halts on underflow. |
| Stopwatch.ReadingIsTimeRunning | src/mbed-os/drivers/Timer.cpp:46-104 | After any sequence of starts, stops and resets, repeated ones included, a reading is the number of microseconds spent running since the last reset, counted one by one. |
| Stopwatch.Timer.Start | src/mbed-os/drivers/Timer.cpp:46-56 | Starts only a stopped Timer, and takes the sleep lock with it. |
| Stopwatch.Timer.Stop | src/mbed-os/drivers/Timer.cpp:58-68 | Adds the slice since the start and gives the sleep lock back once. |
| Stopwatch.Timer.Reset | src/mbed-os/drivers/Timer.cpp:99-104 | Sets the account to zero and counts on if running. |
| Stopwatch.Timer.ReadHighResolutionUs | src/mbed-os/drivers/Timer.cpp:82-87 | Returns the accumulated time with the current slice. |
| FlashErase.SucceedsIff | src/mbed-os/drivers/FlashIAP.cpp:118-144 | `erase` returns 0, having erased the `n` sectors from the one at the address on, if and only if that sector starts there, the range is tiled by these sectors, its end is a multiple of the size of each, and the hardware refuses none; for an empty range, if and only if the address is aligned. |
| FlashErase.ErasedAsRun | src/mbed-os/drivers/FlashIAP.cpp:118-144 | Whatever `erase` returns, it erased a contiguous run of sectors from the one that starts at the address, inside the range except perhaps the last; it returns 0 for a non-empty range if and only if the run is exactly the range. |
| FlashErase.FailsIff | src/mbed-os/drivers/FlashIAP.cpp:118-144 | `erase` fails after exactly `n` sectors if and only if the first check fails and `n` is 0, or the last of them does not divide the end of the range, or all do and the next one is refused or missing: it does not stop early. |
| FlashErase.OverrunsIff | src/mbed-os/drivers/FlashIAP.cpp:118-144 | `erase` erases beyond its range if and only if the range starts at a sector and ends strictly inside a later one, up to which the hardware refuses nothing and the end is a multiple of every sector size. |
| FlashErase.OverrunFails | src/mbed-os/drivers/FlashIAP.cpp:118-144 | When that happens, it returns -1. |
| FlashErase.LoopSucceedsIff | src/mbed-os/drivers/FlashIAP.cpp:128-141 | The same exact condition for the loop from the start of any sector. |
| FlashErase.LoopOverrunsIff | src/mbed-os/drivers/FlashIAP.cpp:128-141 | The exact condition of erasing beyond the range for the loop from the start of any sector. |
| FlashErase.ErasedRun | src/mbed-os/drivers/FlashIAP.cpp:128-141 | The loop from the start of a sector erases a contiguous run and returns 0 if and only if the run tiles the range. |
| FlashErase.TilingMayBeRefused | src/mbed-os/drivers/FlashIAP.cpp:118-144 | Tiling alone is not enough: a concrete tiled range is refused by every such flash. |
| FlashErase.GrowingSectorsSuffice | src/mbed-os/drivers/FlashIAP.cpp:118-144 | When each sector size in the range divides the next one, tiling is enough. |
| FlashErase.FailureMayOverrun | src/mbed-os/drivers/FlashIAP.cpp:118-144 | A concrete call that erases beyond its range. |
| FlashErase.AlignedIsStart | src/mbed-os/drivers/FlashIAP.cpp:107-116 | An address aligned to the size of its sector is the start of that sector. |
| FlashErase.FlashIAP.EraseRange | src/mbed-os/drivers/FlashIAP.cpp:118-144 | The method erases exactly the sectors of the specification, in order, and returns its result. |
| FlashErase.FlashIAP.EraseAll | src/mbed-os/drivers/FlashIAP.cpp:128-141 | The loop terminates, its size never underflows, and it does what the specification does from the first sector on. |
| DataBus.WriteDrivesPins | src/pins.cpp:92-122 | Every data bit is driven on its own pin and no pin outside the bus is driven. |
| DataBus.ReadPacksPins | src/pins.cpp:43-60 | Every pin comes back in its packed place. |
| DataBus.PackedIsDetermined | src/pins.cpp:43-60 | A reading is determined by the word on the pins, so the other pins of the ports do not matter. |
| DataBus.DataBusClass.Write | src/pins.cpp:92-122 | After the sixteen masked shifts the pins carry the word, and all others are zero. |
| DataBus.DataBusClass.Read | src/pins.cpp:43-60 | The masked shifts return every bit of the word on the pins in its packed place, whatever the other pins. |
| AdcFrames.SampledBit | src/adc.cpp:252-275 | Every bit of the 32-bit ADC word stands in the stored word at the place its pin gives it. |
| AdcFrames.Sampler.ReadDataWord | src/adc.cpp:252-275 | Two reads of the bus give the stored word for the word on the pins, whatever the levels of the other pins. |
| AdcFrames.Sampler.CollectSamples | src/adc.cpp:184-201 | Stores one word per interrupt, and on the interrupt after the last place stops sampling and raises the ready flag. |
| AdcFrames.BlockIsReady | src/adc.cpp:184-201 | A block becomes ready exactly at one interrupt more than it has places, holding the words in order, and the next starts afresh. |
| AdcFrames.DataTx | src/communications.cpp:101-112 | Prints start, one hexadecimal line per sample, and stop. |
| AdcFrames.AcquisitionLoop | src/adc_comms.py:85-122 | The two nested loops queue what the two recursive readings of the protocol give, stop requests included. |
| AdcFrames.WhatIsReceived | src/adc_comms.py:85-122 | From any lines, damaged ones included: behind fewer than 6n lines without a start, all numbers in the lines up to the stop, or in 2n lines, are queued, unless a stop is requested at one of the looks on the way. |
| AdcFrames.DamagedAreSkipped | src/adc_comms.py:107-112 | Damaged lines add nothing, and the samples on the others are received in order. |
| AdcFrames.OnlyNumbersCount | src/adc_comms.py:107-112 | A line adds its number, and nothing exactly if it is empty or has a character that is no hexadecimal digit. |
| AdcFrames.FrameRoundTrip | src/adc_comms.py:85-122 | A printed block behind noise comes through unchanged if the noise is shorter than 6n lines and no stop is requested at one of the looks; nothing is queued otherwise, so an empty block is never received. |
| AdcFrames.DecodeLoop | src/adc_comms.py:124-163 | Decodes and scales every sample of the buffer and accumulates the status in order. |
| AdcFrames.UntangledInOrder | src/adc_comms.py:132-147 | The table of string positions puts the bits of a sampled word back in order, highest first. |
| AdcFrames.DecodedIsSigned | src/adc_comms.py:150-157 | The decoded number, before scaling, is the signed 24-bit value of the top bits of the word that was on the pins. |
| AdcFrames.OrderArrives | src/adc_comms.py:124-163 | Any two values that arrive compare as the conversion results on the pins did. |
| AdcFrames.StatusAccumulates | src/adc_comms.py:148-149 | A bit of the accumulated status is set if and only if it is set in the low byte of some word. |
| AdcFrames.StatusText | src/adc_comms.py:148-149 | The text of the status is a prefix and eight binary digits, each telling whether its bit is set in some word. |
| AdcFrames.ScaledIsLinear | src/adc_comms.py:150-157 | Scaling is linear and takes the largest value to the scale factor. |
| AdcFrames.SamplesArrive | src/adc_comms.py:85-163 | From the pins to the scaled numbers: all words in order and the OR of all status bytes, for every block and every admissible noise. |
| Digits.FormatIsExact | src/adc_comms.py:132-133 | Binary text is never cut: it is padded to its width or as long as the number needs, and reads back as the number. |
| Digits.HexValueIff | src/adc_comms.py:107-108 | The digits are those of the two hexadecimal alphabets, each standing for its place. |
| Digits.HexDigitIs | src/communications.cpp:108-108 | Each printed digit is the hexadecimal digit of its place. |
| Digits.HexRoundTrip | src/communications.cpp:108-108 | Parsing the printed hexadecimal digits gives the number back. |
| Digits.BinaryRoundTrip | src/adc_comms.py:132-133 | Parsing the formatted binary digits gives the number back. |

## Left out

- TickerDriver.TickerQueue.IrqHandler: of what a function does besides attaching and detaching, nothing is modelled. A queue without a handler set, which drops due events, is not modelled. Termination rests on a bound on the readings: a period shorter than its own handling hangs the system, as `src/mbed-os/drivers/Ticker.h:111-113` warns.
- TickerDriver.TickerQueue.InsertEventUs: the object inserted is a Ticker or Timeout that has been set up; other clients of the ticker interface, with handlers of their own, are covered by `EventQueue` only.
- TickerDriver.TickerQueue.InsertEvent: the same.
- TickerDriver.TickerQueue.constructor: assumes that the counter is read only until a fixed true tick at which the 64-bit microsecond count has not wrapped; `SyncCounts` covers the wrap itself.
- TickerDriver.TickerQueue.ReadUs: the field read after the critical section is taken as part of it.
- TickerDriver.TickerQueue.Attach: the `ticker_event_t` embedded in a `TimerEvent` and the object itself are one, so the identifier passed to the handler is the object.
- UartDriver.UartSerial.Write: other threads and changes of the blocking mode during the call are left to the protocol, where both are arbitrary; the peripheral is assumed to accept a byte eventually.
- UartDriver.UartSerial.Read: the same, with a peripheral that delivers a byte eventually.
- UartProtocol.AllInterleavings: `sigio`, `wake`, `poll`, carrier detect and the baud and format settings are not modelled; `sync` is.
- SleepLocks.DeepSleepLock.Lock: the atomic count and the call of the sleep manager are one step; another context between the two is not modelled.
- SleepLocks.DeepSleepLock.Unlock: the same.
- Atomics.Cell.CasExclusive: one cell of any width stands for the 8, 16 and 32-bit variants; the pointer variants only call the 32-bit ones.
- FlashErase.FlashIAP.EraseRange: the layout ends below 2^32, and the hardware refuses to erase outside it; reading and programming are left out.
- AdcFrames.AcquisitionLoop: of what Python accepts as a hexadecimal number only digits are parsed; signs, prefixes, underscores and inner white space count as invalid. `readline` is assumed to return lines already stripped.
- AdcFrames.DecodeLoop: the scaling is exact, without the rounding of floating point; the empty input queue and the two deques are left out.
- AdcFrames.Sampler.ReadDataWord: chip select, waits and the shift of the high half are left out; the two halves are joined bit by bit.
- Digits.HexRoundTrip: the characters of a line stand for its bytes; carriage returns and encodings are left out.
- The counter mask is kept as a number of bits, since the hardware reports it as such.
- `DataBusClass::detangle` is not the inverse of `read` for one bit and is not used for samples.
- `CallChain`, `InterruptManager`, asynchronous serial and SPI transfers, `ATCmdParser`, the event queue wrappers and heap statistics.
- Control registers, sampling properties, the control signals from the PC, plots, windows and transforms.
