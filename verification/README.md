# Verified models of the nRF9160 firmware cores

This project models the five parts of the nRF9160 demo firmware that hold real algorithms or
protocols, and proves what they promise over all inputs, all random streams and all
interleavings. `dafny verify dfyconfig.toml` checks everything.

- **Factoring** (`src/math.c`). `Arith.dfy`, `Euclid.dfy`, `ModSquare.dfy`, `Pigeonhole.dfy`,
  `Restart.dfy`, `Rho.dfy`, `SearchLaw.dfy` and `Decompose.dfy` model Euclid's gcd, the double-and-add square with
  wrapping 64-bit additions, Brent's cycle search with its power-of-two anchor, and the loop of
  randomised rounds. `SplitConditions.dfy` says which numbers the loop always splits, can miss, or
  takes out of the range of its shift; `Witnesses.dfy` has numbers on both sides. The three nested loops of `decompose_64bit` are the methods
  `ModSquare.SquarePlus`, `Rho.Search` and `Decompose.Decompose64`.
- **Sleep and notify** (`src/nrf_modem.c`). `SleepNotify.dfy` is a step machine over any number of
  threads, `WaiterRing.dfy` the linked list on the heap, `ModemOs.dfy` the routine on the heap with
  the history of its steps, which is proved to be a run of the machine. `PreemptedShutdown.dfy` takes
  the shutdown walk access by access and says exactly when it goes wrong, `SafeShutdown.dfy` what it
  achieves otherwise, and `ShutdownRuns.dfy` has a run for each way to go wrong. `HandlePool.dfy`
  models the static pools.
- **Interrupt dispatch** (`src/nrfx_ipc.c`). `IpcDispatch.dfy` is a step machine with event
  latches, and the handler loop that executes it while the modem raises events.
- **Display link** (`src/lcd.c`). `LcdLink.dfy` and `Lcd.dfy` model the pin traces, a receiver, and
  the routines.
- **NTP time** (`src/ntp.c`). `NtpTime.dfy`.

## Results worth knowing

- The modular square is exact, and free of wrap-around, for all operands **if and only if**
  `pq <= 2^63` (`ModSquare.ExactBound`). The product of the two answers is `pq` for every 64-bit
  `pq >= 2` all the same, because any gcd with `pq` divides it.
- Round `i` finds a common divisor whenever `pq` has a divisor up to `2^(i+18) - 3`. This is twice
  the range that counting residues gives: `x` and `-x` have the same square, so the orbit modulo
  `d` closes within `d/2 + 2` steps.
- Up to `2^63` the whole search obeys a law that is stated without its code, in the points visited and
  the points compared, and that determines the outcome (`Decompose.RunObeys`,
  `SearchLaw.SearchIsDetermined`).
- If the whole search ends with `g == 1`, `pq` has no divisor up to `2^20 - 3`; below
  `(2^20 - 2)^2` it is prime.
- A number is split on every stream **if and only if** one of the first three rounds ends with a
  proper divisor for every draw of start and constant (`SplitConditions.AlwaysSplit`), which up to
  `2^63` is a statement about orbits alone (`SplitConditions.AlwaysSplitByOrbits`). 770 is such a
  number: every draw splits it, in the first round (`Witnesses.AlwaysSplitExample`).
- A composite can be missed by the C code: some stream leaves a number unsplit within the rounds for
  which the shift is defined **if and only if** none of the first three rounds is sure and some draw
  of round 0 fails after at least 77 steps (`SplitConditions.MissedInRange`).
  `Witnesses.CompositeMissedInRange` gives the stream for 113471 = 233 * 487.
- `1 << (i + 18)` leaves the range of `int` at `i = 13`. The loop stays below it on every stream
  **if and only if** no draw of round 0 ends within 76 steps with `g == pq`
  (`SplitConditions.ShiftAlwaysDefined`), and reaches it on every stream **if and only if** every draw
  does (`SplitConditions.ShiftNeverDefined`). Every prime below 50 is of the second kind, and every
  number up to 32 reaches it on some stream that does not split it either.
- The result of a timed wait is determined exactly by whether a shutdown, or a notification of 0 or
  of the context passed to the call, came between the append and the end of the semaphore wait (`SleepNotify.ResultIsExact`).
- The shutdown walk goes wrong **if and only if** the waiter it is at is removed between the arrival
  at it and a later access to it, or everything that the walk still has before it, late arrivals
  included, is removed between the two reads of a link in `td_first` or `td_next`
  (`PreemptedShutdown.WrongIffPreemptedOrEmptied`). In the first case it touches a dead stack frame, in
  the second it takes the list head for a waiter. Otherwise it posts every waiter that is on the list
  when it ends, once each, and none of those still waiting then returns `-NRF_EAGAIN`
  (`SafeShutdown.SafeWalkPostsAll`, `SafeShutdown.ShutdownReleases`).
- Pool slots are shared exactly when a pool pointer is passed in that was never handed out and lies
  below the final counter (`HandlePool.SharingIsStray`).

## Assumptions

- `rand()` is an arbitrary function from call number to 64-bit value.
- `lim` is the mathematical power of two; C defines the shift only for `i <= 12`.
- `list_init`, `list_append` and `list_remove` belong to the MDEPX kernel and are not part of this
  repository; they are modelled as the usual operations on a circular doubly linked list.
- One walk of `nrf_modem_os_event_notify`, which runs in interrupt context, is one step with respect
  to appends and removals. `SleepNotify.dfy` and `ModemOs.dfy` assume the same of
  `nrf_modem_os_shutdown`; `PreemptedShutdown.dfy` does not: there, each read of a link and each post
  is a step, and other threads may come between any two.
- `mdx_sem_timedwait` returns zero exactly on timeout, and a timeout fires only while the count of
  the semaphore is zero.
- Timeouts are at most 2147483 milliseconds, so that `val * 1000` is an `int`.
- The pools have at most 255 slots, since their counters are `uint8_t`; the actual sizes come from
  a header that is not part of this repository.

## Model

| member | source | states |
|---|---|---|
| `Euclid.CommonDivisors` | src/math.c:47-52 | for all arguments, zero included, the common divisors of a and b are exactly the divisors of gcd(a, b) |
| `Euclid.GcdIsGreatest` | src/math.c:47-52 | gcd divides both arguments, and every common divisor divides it and is at most it |
| `Euclid.SharesDivisor` | src/math.c:92-94 | the test g != 1 succeeds exactly when z and pq share a divisor greater than 1 |
| `Euclid.ExecutionIsCalls` | src/math.c:47-52 | any sequence of argument pairs that follows the recursion from (a, b) to b = 0 ends with the gcd and has as many calls as counted |
| `Euclid.Lame` | src/math.c:47-52 | an execution with n recursive calls on a > b needs a >= fib(n+2) and b >= fib(n+1) |
| `Euclid.LameIsTight` | src/math.c:47-52 | every execution on consecutive Fibonacci numbers makes exactly n recursive calls |
| `Euclid.SearchDepth` | src/math.c:91-92 | every execution of gcd(z, pq) with z < pq <= 2^63 makes at most 91 recursive calls |
| `Euclid.SearchDepthAttained` | src/math.c:91-92 | an execution in that range with 91 recursive calls |
| `Arith.AndPredecessor` | src/math.c:95 | j & (j - 1) is zero exactly on the powers of two |
| `ModSquare.AccumulateIsExact` | src/math.c:76-90 | from any a, c < pq <= 2^63 and any b the loop leaves (c + a*b) mod pq, and no addition exceeds 64 bits |
| `ModSquare.ExactUnlessWrapping` | src/math.c:76-90 | for every modulus up to 2^64: from any loop state whose additions do not exceed 64 bits the loop leaves (c + a*b) mod pq |
| `ModSquare.WideModulusIsWrong` | src/math.c:79-89 | for every pq > 2^63 and every constant q < pq, x = 2^63 is squared wrongly and an addition wraps |
| `ModSquare.ExactBound` | src/math.c:70-90 | exact for all x, q < pq, and never wrapping, if and only if pq <= 2^63; the same over the constants 17 to 32 alone |
| `ModSquare.SquarePlus` | src/math.c:76-90 | the innermost loop: c < pq always, and c == (q + x*x) mod pq for pq <= 2^63 |
| `Rho.IterateIsOrbit` | src/math.c:76-90 | for pq <= 2^63 the values of x in a round are the integer iterates of x -> (x*x + q) mod pq |
| `Rho.AnchorMoves` | src/math.c:95-96 | after step j, y is at the largest power of two not above j: the bit trick maintains the anchor |
| `Rho.TestIsAgreement` | src/math.c:91-94 | g != 1 exactly when x and y agree modulo some divisor of pq greater than 1 |
| `Rho.StopsAtFirstMeeting` | src/math.c:74-97 | a round breaks at step j if and only if j is the first step below lim whose iterate agrees with its anchor modulo a divisor of pq greater than 1 |
| `Rho.OrbitCloses` | src/math.c:74-90 | modulo any divisor d of pq the orbit repeats within d/2 + 2 steps, by pigeonhole on residues up to sign |
| `Rho.RoundIsComplete` | src/math.c:69-97 | a divisor d of pq with 1 < d <= 2^(e+1) - 3 makes every round of limit 2^(e+1) break with g != 1, for every start and constant |
| `Rho.RoundKeeps` | src/math.c:73-97 | a round that breaks is the same under every limit that lets it come so far |
| `Rho.RoundStopsSoon` | src/math.c:74-97 | such a round stops within 3 * (d/2 + 1) steps |
| `Rho.Search` | src/math.c:72-97 | the middle loop: its g and its number of steps are those of the specified round |
| `SearchLaw.TestIsGreatest` | src/math.c:91-92 | the g of a step is divisible by exactly those divisors of pq modulo which x and y agree |
| `SearchLaw.RoundObeys` | src/math.c:71-97 | for pq <= 2^63 a round is: points v[j+1] = (v[j]^2 + q) mod pq from x, compared with w[j], which becomes v[j] after each power of two j; it stops at the first agreement modulo a divisor greater than 1, with the greatest such divisor, or at its limit with 1 |
| `SearchLaw.RoundIsDetermined` | src/math.c:71-97 | two outcomes that obey this law are equal |
| `SearchLaw.SearchIsDetermined` | src/math.c:69-100 | and so are two whole searches over the same random numbers |
| `Restart.RoundsAreRun` | src/math.c:69-100 | the outer loop makes rounds 0, 1, 2, ..., each under the guard, stops at a proper divisor, and otherwise only after three rounds and 1000 steps |
| `Decompose.ConstantIsDrawn` | src/math.c:70 | a random number r gives, modulo pq, the c in 17..32 for which c - 17 is congruent to r modulo 16, and each c is drawn |
| `Decompose.StartIsDrawn` | src/math.c:71 | r gives the start x in 1..pq-1 if and only if x - 1 is congruent to r modulo pq - 1, and each x is drawn |
| `Decompose.RunObeys` | src/math.c:69-100 | for pq <= 2^63 and every stream the rounds made obey the law of the search: numbers 2i and 2i + 1 of the stream, limit 2^(i+18), the guard, the break |
| `Decompose.AnswerIsLast` | src/math.c:98-109 | for every pq from 2 up the answer is the last g of the run and its cofactor, the smaller first |
| `Decompose.RoundAtIsComplete` | src/math.c:69-97 | round i ends with g != 1 on every stream if pq <= 2^63 has a divisor d with 1 < d <= 2^(i+18) - 3 |
| `Decompose.RunBounds` | src/math.c:66-100 | 1 to 1000 rounds; after a full round only rounds with i < 3; while i <= 12, iter and lim stay below 2^31 |
| `Decompose.AnswerIsFactoring` | src/math.c:98-109 | for every stream, p * q0 == pq, p <= q0, and p > 1 exactly when the last g was a proper divisor |
| `Decompose.PrimeIsNotSplit` | src/math.c:92-109 | a prime is answered (1, pq) on every stream; p > 1 proves pq composite |
| `Decompose.OneExcludesSmallDivisors` | src/math.c:69-100 | if the search ends with g == 1, pq <= 2^63 has no divisor from 2 to 2^20 - 3 |
| `Decompose.OneProvesPrime` | src/math.c:69-100 | below (2^20 - 2)^2, ending with g == 1 proves pq prime |
| `SplitConditions.AlwaysSplit` | src/math.c:69-109 | for every pq from 2 up: all streams split pq if and only if, for some i < 3, every draw makes round i end with a proper divisor |
| `SplitConditions.ProperIsMeeting` | src/math.c:74-99 | a round ends with a proper divisor exactly when, at the first meeting below the limit, orbit and anchor differ modulo pq |
| `SplitConditions.AlwaysSplitByOrbits` | src/math.c:69-109 | the condition of AlwaysSplit for pq <= 2^63 in terms of orbits and anchors only |
| `SplitConditions.ShiftAlwaysDefined` | src/math.c:69-73 | for every pq from 2 up: all streams keep to i <= 12 if and only if no draw of round 0 ends with g == pq within 76 steps |
| `SplitConditions.SmallIsNeverSafe` | src/math.c:69-109 | every number up to 32 has a stream that does not split it and reaches i = 13 |
| `SplitConditions.SureRoundSplits` | src/math.c:69-109 | if every draw makes round i < 3 end with a proper divisor, every stream splits pq within i + 1 rounds |
| `SplitConditions.SplitOnStream` | src/math.c:69-109 | for every pq from 2 up: a stream splits pq if and only if one of the rounds it makes ends with a proper divisor |
| `SplitConditions.ShiftNeverDefined` | src/math.c:69-73 | for every pq from 2 up: all streams reach i = 13 if and only if every draw of round 0 ends with g == pq within 76 steps |
| `SplitConditions.MissedInRange` | src/math.c:69-109 | for every pq from 2 up: some stream leaves pq unsplit with i <= 12 throughout if and only if no round i < 3 is sure and some draw of round 0 fails after at least 77 steps |
| `Witnesses.CompositeMissedInRange` | src/math.c:69-112 | the composite 113471 is answered (1, 113471) on the stream 2, 70141, 2, 70141, ... with every shift defined |
| `Witnesses.AlwaysSplitExample` | src/math.c:69-109 | 770 is split on every stream by the first round |
| `Decompose.Decompose64` | src/math.c:54-112 | the three loops compute the specified answer, an ordered factoring of pq, for every pq from 2 to 2^64 - 1 and every stream; for pq <= 2^63 it is the last g, and its cofactor, of the search that the law determines |
| `Decompose.MathTest` | src/math.c:114-135 | math_test returns 0 on every stream, and its product does not wrap |
| `Decompose.TestNumber` | src/math.c:122 | the number of math_test is 1444444447 * 1620847577, in the range where the square is exact |
| `SleepNotify.Microseconds` | src/nrf_modem.c:166-169 | a thousand microseconds for each millisecond, half a second for a negative timeout; positive and an int for a nonzero timeout up to 2147483 |
| `SleepNotify.WalkPostsOnce` | src/nrf_modem.c:96-116 | a walk over distinct live waiters posts once to each that matches, to no other, and touches no dead frame |
| `SleepNotify.StepOnOther` | src/nrf_modem.c:96-116 | a step of anybody else changes a thread only by one post, on the list, with a matching context |
| `SleepNotify.NotifyZeroIsShutdown` | src/nrf_modem.c:101-104 | a notification of 0 does exactly what a shutdown does |
| `SleepNotify.NotifyPosts` | src/nrf_modem.c:101-104 | any other notification adds one to the semaphore of a listed waiter exactly if its context is the event |
| `SleepNotify.ModemState` | src/nrf_modem.c:157-158 | in every run the modem state is the one set last, or the one at the start |
| `SleepNotify.ListIsSafe` | src/nrf_modem.c:69-105 | in every state of every run the list holds exactly the threads between append and remove, once each, no walk ever touched another frame, and a listed thread waits for a positive int of microseconds |
| `SleepNotify.NoLostWakeup` | src/nrf_modem.c:171-201 | a shutdown, or a notification of 0 or of the context passed to the call, on a listed waiter whose timeout has not fired decides that wait: the next return is 0, or -NRF_ESHUTDOWN if the modem is down |
| `SleepNotify.ResultIsExact` | src/nrf_modem.c:141-201 | the result of every completed wait, as a function of the modem state at the return, the timeout and the context passed to the call, and whether a shutdown or a notification of 0 or of that context came between append and the end of the semaphore wait |
| `SleepNotify.EarlyResultIsExact` | src/nrf_modem.c:157-164 | a call that ends before it sleeps was never on the list; it gives -NRF_ESHUTDOWN if the modem is down, and otherwise had timeout 0 and gives -NRF_EAGAIN |
| `SleepNotify.CallsProgress` | src/nrf_modem.c:149-201 | a thread inside a call always has exactly one own step enabled, and each brings it nearer to its return |
| `WaiterRing.Ring.Append` | src/nrf_modem.c:175-177 | the list stays circular and linked both ways, with the waiter at its end |
| `WaiterRing.Ring.Remove` | src/nrf_modem.c:183-185 | without being given the head, exactly this waiter leaves the list and both directions stay linked |
| `WaiterRing.Ring.First` | src/nrf_modem.c:69-81 | the oldest waiter, or null on an empty list |
| `WaiterRing.Ring.Next` | src/nrf_modem.c:83-94 | the waiter appended next, or null at the sentinel |
| `WaiterRing.Ring.EventNotify` | src/nrf_modem.c:96-105 | the walk ends on a list of any length, visits every waiter in append order, adds one to the semaphores whose waiter has the context given, or to all for 0, and to no other, and changes no link |
| `WaiterRing.Ring.Shutdown` | src/nrf_modem.c:107-116 | the same walk adds one to every semaphore |
| `ModemOs.Modem.Call` | src/nrf_modem.c:149-150 | entering the routine stores exactly the context and timeout passed, for this thread alone, and is the call step of the machine; the history stays a run |
| `ModemOs.Modem.Begin` | src/nrf_modem.c:157-173 | computes the early result: -NRF_ESHUTDOWN if the modem is down, -NRF_EAGAIN for a zero timeout; otherwise a fresh frame with count 0; the matching step of the machine is added to the run |
| `ModemOs.Modem.Finish` | src/nrf_modem.c:187-200 | computes the result from the modem state, err and the sign of the timeout, and that result is the one that the history of wakeups and timeouts of this call demands |
| `ModemOs.Modem.SetInitialised` | src/nrf_modem.c:157-158 | a change of the modem state sets exactly that, and is a step of the machine |
| `ModemOs.Modem.InvNow` | src/nrf_modem.c:69-105 | what all runs keep holds of the heap at every point |
| `ModemOs.Modem.Append` | src/nrf_modem.c:175-177 | on the heap, the critical section makes the append step of the machine |
| `ModemOs.Modem.EndWait` | src/nrf_modem.c:181 | the wait ends by taking one post if there is one and by the timeout otherwise, as a step of the machine |
| `ModemOs.Modem.Remove` | src/nrf_modem.c:183-185 | on the heap, the critical section makes the remove step of the machine |
| `ModemOs.Modem.Notify` | src/nrf_modem.c:96-105 | on the heap, exactly the listed semaphores of the context given, or all for 0, go up by one, and this is the notify step of the machine |
| `ModemOs.Modem.Shutdown` | src/nrf_modem.c:107-116 | on the heap, exactly the listed semaphores go up by one, and this is the shutdown step of the machine |
| `PreemptedShutdown.LifeOfFrame` | src/nrf_modem.c:183-185 | a frame leaves the list only by the remove of its own thread and never comes back, under any step |
| `PreemptedShutdown.DeadIffPreempted` | src/nrf_modem.c:69-116 | with the walk access by access and any interleaving, a dead frame has been touched if and only if some access was preempted by the remove of the waiter the walk was at |
| `PreemptedShutdown.TailIsHistory` | src/nrf_modem.c:69-94 | between the two reads of a link, a waiter is before the walk if and only if it was at the first read and has not been removed since, or was appended since and not removed again |
| `PreemptedShutdown.StrayIffEmptied` | src/nrf_modem.c:69-94 | the list head has been taken for a waiter if and only if, at some second read of a link, everything before the walk at the first and everything appended since had been removed |
| `PreemptedShutdown.WrongIffPreemptedOrEmptied` | src/nrf_modem.c:69-116 | in any state of any run the walk has gone wrong if and only if one of the two happened |
| `SafeShutdown.SafeWalkPostsAll` | src/nrf_modem.c:107-116 | a walk that has not gone wrong posts no frame twice, and at its end every frame on the list has been posted, late arrivals included |
| `SafeShutdown.PostDecides` | src/nrf_modem.c:114-115 | a post by the walk on a waiter whose timeout has not fired decides that call: its return is 0, or -NRF_ESHUTDOWN if the modem is down |
| `SafeShutdown.ShutdownReleases` | src/nrf_modem.c:107-116 | once such a walk has ended, every call then listed and not timed out is decided so |
| `ShutdownRuns.DeadFrameHappens` | src/nrf_modem.c:107-116 | a concrete run in which the walk posts a frame that is gone |
| `ShutdownRuns.EmptiedListHappens` | src/nrf_modem.c:69-81 | a concrete run in which td_first yields the list head, and no access was preempted by the remove of its waiter |
| `ShutdownRuns.EmptiedLinkHappens` | src/nrf_modem.c:83-94 | a concrete run in which td_next yields the list head so, while the waiter the walk comes from is alive and posted |
| `HandlePool.Pool.Init` | src/nrf_modem.c:271-294 | a pool pointer is initialised in place; another handle takes the next slot; a full pool stops the system; no other object changes |
| `HandlePool.SharingIsStray` | src/nrf_modem.c:280-288 | over any sequence of calls, first initialisations share a slot if and only if a never returned pool pointer below the final counter was passed in |
| `HandlePool.ProperClients` | src/nrf_modem.c:344-366 | with foreign or returned handles only: first initialisations get distinct slots, repeated ones keep slot and counter, and the system stops exactly when a new handle finds the pool full |
| `HandlePool.StrayPointerIsShared` | src/nrf_modem.c:280-288 | a concrete pair of calls that share a slot |
| `IpcDispatch.PendingBits` | src/nrfx_ipc.c:141-144 | bit i of the pending word is set exactly when event i is latched and enabled |
| `IpcDispatch.StepKeepsInv` | src/nrfx_ipc.c:135-149 | every step keeps the account of raises, latches and client calls of every channel |
| `IpcDispatch.Lossless` | src/nrfx_ipc.c:135-149 | in every state of every run, a raise with no later client call is still latched or between clear and call, and calls never outnumber raises |
| `IpcDispatch.ActivationIsExact` | src/nrfx_ipc.c:141-148 | one activation calls the client for exactly the channels latched and enabled at its start, once each, in ascending order |
| `IpcDispatch.QuietMeansServed` | src/nrfx_ipc.c:135-149 | with the handler idle and nothing pending, every raise on an enabled channel has had a later client call |
| `IpcDispatch.Ipc.IrqHandler` | src/nrfx_ipc.c:135-149 | the loop executes exactly one activation of the machine, with every raise of the modem at its place among the steps |
| `LcdLink.ByteRoundTrip` | src/lcd.c:109-124 | the eight bits shifted out of a byte, most significant first, spell that byte |
| `LcdLink.ValueGrows` | src/lcd.c:114-121 | each further bit doubles the bits before it, so the first one out is the most significant |
| `LcdLink.FrameRoundTrip` | src/lcd.c:109-136 | any bytes written in one chip-select window are read back exactly as one frame; data and chip select move only while the clock is low |
| `LcdLink.CommandsAreReceived` | src/lcd.c:126-196 | any sequence of commands is read back as exactly its frames, in order, with data and chip select stable while the clock is high |
| `LcdLink.VcomParity` | src/lcd.c:85-96 | after any commands vcom is as before exactly if the number of toggles is even |
| `Lcd.CommandFrame` | src/lcd.c:126-196 | the frame read back for each command, byte by byte: the clear, inversion and blink codes, and the address and pattern of each of the 256 lines |
| `Lcd.InitIsReceived` | src/lcd.c:198-244 | the trace of lcd_init decodes to one clear frame, line addresses 1 to 176 once each in order, and one no-update frame |
| `Lcd.InitAlternates` | src/lcd.c:224-241 | lcd_init makes 178 frames, each followed by a toggle |
| `Lcd.PinShowsVcom` | src/lcd.c:85-96 | after any commands EXTCOMIN shows the variable vcom if and only if it did before or one of them is a toggle |
| `Lcd.Display.WriteData` | src/lcd.c:109-124 | the shift loop appends the specified pin writes |
| `Lcd.Display.ClearScreen` | src/lcd.c:126-136 | appends exactly the clear frame |
| `Lcd.Display.InvertDisplay` | src/lcd.c:138-148 | appends exactly the inversion frame |
| `Lcd.Display.SetBlinkMode` | src/lcd.c:150-177 | one frame with the code of the mode; an unknown mode sends no-update |
| `Lcd.Display.SetLine` | src/lcd.c:179-196 | one frame with the update code, line + 1 as a byte, 44 bytes of 0xcc, 44 of 0x33 and two dummies |
| `Lcd.Display.ToggleCom` | src/lcd.c:85-96 | vcom changes, and the pin is set to its new value |
| `Lcd.Display.LcdInit` | src/lcd.c:198-244 | the whole routine appends exactly the set-up writes and the commands, and leaves vcom as it was |
| `NtpTime.SwapReadsNetworkOrder` | src/ntp.c:179-186 | swapping the host's reading of a big-endian word gives the word |
| `NtpTime.ByteOrders` | src/ntp.c:179-186 | what network and host byte order mean for the value of a word |
| `NtpTime.SwapAllTwice` | src/ntp.c:179-186 | the conversion reverses the bytes of each of the eight fields, and a second one restores them all |
| `NtpTime.EpochsMeet` | src/ntp.c:188-191 | second 2208988800 of NTP time is the Unix epoch |
| `NtpTime.ServerTimeIsRead` | src/ntp.c:174-191 | the NTP second of any time, sent big-endian, is read as that time modulo 2^32, on both sides of the 2036 rollover (section 6 of RFC 5905) |
| `NtpTime.NtpMsg.ToUnixTime` | src/ntp.c:174-191 | each of the eight timestamp fields becomes the value that was sent in network byte order, nothing else changes, and a transmit second sent for any time is returned as that time modulo 2^32 |

## Left out

- `src/main.c`, `src/http.c`, `src/gps.c`, `src/dect.c` and the socket half of `src/ntp.c`: AT commands, sockets and prints over closed libraries, with only easy local claims.
- `src/board.c`, `src/ldscript` and `src/wifi/`: fixed addresses, an allocator that is not shown, stubs and tables.
- `nrf_modem_os_mutex_lock` and `nrf_modem_os_sem_take`: they drop results or rest on kernel primitives that are not shown; no mutual exclusion is claimed.
- The `limit` argument of `nrf_modem_os_sem_init`: the code ignores it.
- `nrfx_ipc_config_load`, `nrfx_ipc_uninit`, and enabling or disabling events: register writes; the enable mask is constant during a run. The callback `cb`, which passes a bit mask where the interrupt handler passes an index, is not modelled.
- Decompose.SmallCompositeUnsplit: speaks of the last g of a run and of small numbers; the statement for every number and stream is `SplitConditions.SplitOnStream`.
- Decompose.SmallPrimeOvershifts: covers the primes below 50; the exact condition for every number is `SplitConditions.ShiftNeverDefined`.
- Decompose.FixedPointStream: its rounds after i = 12 use the mathematical limit, where C defines no shift; the statement inside the range is `SplitConditions.MissedInRange`.
- Decompose.CompositeCanBeMissed: the same; the example inside the range is `Witnesses.CompositeMissedInRange`.
- What a shutdown walk does after it has touched a dead frame or taken the list head for a waiter: the model stops that walk there.
- Fairness: `SleepNotify.CallsProgress` shows that a thread inside a call always can go on, not that a scheduler lets it.
- Behaviour at `i >= 13`: C leaves the shift undefined; the model goes on with the mathematical limit.
- Wrap-around of `iter` beyond round 12: the model counts steps without bound.
- Delays, prints and GPIO configuration in `src/lcd.c`, and the formatting of the time in `src/ntp.c`.
