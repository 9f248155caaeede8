# Keyed countdown registry, modelled and verified in Dafny

The repository's only real logic is `CountdownTimer`, a registry that keeps
one countdown per key of the closed enumeration `CountDownKey` (`test1`,
`test2`). Each key maps to a `CountDownInfo`. That record holds an optional
timer handle, an absolute deadline `endTime` and a callback
`(count, finished)`. The registry offers `startTimer`, `stopTimer`,
`continueTimer` and `isFinishedTimer`. It also has a foreground hook that
runs continue again for every key that has a callback. A launched ticker
starts its counter at `round(endTime - now) + 1` and decrements it once per
fire. A fire reports `finished` when the counter is at most 0, and a
finished countdown's entry is torn down.

The repository has two copies of this class, and they disagree. So each copy
is modelled on its own:

- `Countdown` (countdown.dfy) holds the shared vocabulary: `Key`,
  `AllKeys` (`allCases`, in declaration order), `Info`, `Event` (one
  callback invocation) and `CountdownEvents`, the reference sequence of
  reports a ticker makes.
- `SwiftDemoModel` and `RootDemoModel` model the Swift_Demo copy and the
  CountdownTimerDemo copy as state machines over values. A `State` holds the
  `countDowns` map, a table of every ticker ever created (a ticker handle is
  an index into it), the clock `now` in whole seconds, and the log of
  delivered callbacks. Each source function is a Dafny function of the same
  name (`AddCountDown`, `RemoveCountDown`, `HandleCallback`,
  `IsExpired`, `CreateCountDownTimer`, `LaunchTimer`, `StartCountDown`,
  `StartTimer`, `StopTimer`, `ContinueTimer`, `IsFinished`,
  `OnForeground`). `Fire` is one run of a ticker's event handler, and
  `Advance` moves the clock on. `Valid` is the invariant the operations
  keep: an entry's attached timer is a live, uncancelled ticker for that key
  with at least one fire left. In the CountdownTimerDemo copy that ticker
  also delivers to the entry's callback. The lemmas state what each operation
  does and that it keeps the invariant. They also prove the countdown
  behaviour over many fires and the recovery on resume.
- `SwiftDemoTimer.CountdownTimer` and `RootDemoTimer.CountdownTimer` are
  the singleton as a class. Its fields are updated in place. Every method,
  including the private helpers, ensures that the new state is the matching
  model function applied to the old state. The public methods also keep
  `Valid()`. The foreground hook is a `for` loop over `AllKeys`.

The two copies differ as follows. Both are modelled as written:

- Stop. Swift_Demo calls `handleCallback(key, 0, true)`, so the stored
  callback gets `(0, true)`. CountdownTimerDemo cancels silently.
- Continue. Swift_Demo checks the deadline. On a missing key it calls no
  callback, and on an expired entry it removes the entry and the STORED
  callback gets `(0, true)`. CountdownTimerDemo calls the NEW callback on a
  missing key. On an existing entry it checks no deadline: it restarts, and
  if the deadline has passed, the new callback gets `(0, true)` and the
  entry stays with a nil timer.
- Delivery. A Swift_Demo ticker delivers to whatever callback the map holds
  for its key at that moment. A CountdownTimerDemo ticker delivers to the
  callback it captured when it was created.
- The early `return nil` in Swift_Demo's `createCountDownTimer` leaves
  `lock` locked. `NSLock` is not re-entrant, so in the program the next
  `lock.lock()` (the re-add in `launchTimer`, via `addCountDown` at :123)
  would block forever. The model does not block: it records the leak in
  `lockHeld` and carries on, so past that point `LaunchTimer`'s ensures
  describe a re-add the program never reaches. `StartCountDown` proves that
  in this sequential model the branch is never taken from start, because
  `addCountDown` has just written the key.

The doc comments of the API (Swift_Demo :34-65, CountdownTimerDemo
:32-62) describe start, stop and continue as acting on "a countdown" for a
key: one countdown per key, and a stopped countdown is over. Where the code
does otherwise, the model follows the code:

- Start on a key that is already counting down overwrites the entry but does
  not cancel the old ticker, in both copies. The model keeps an overwritten
  ticker alive until it is cancelled (see "Ticker lifetime" under Left out).
  Under that assumption nothing ever cancels such an orphan ticker, because
  stop, continue and a finishing fire cancel only the ticker the entry
  holds. The lemmas `RestartLeavesOldTickerRunning` state what follows:
  - Swift_Demo: the orphan delivers its counts to the new callback. When it
    reaches 0 it tears down the new entry. After a stop it goes on counting
    silently, so it keeps counting past 0. Its next fire is then a negative,
    finished count, which reaches the callback of the key's next start and
    tears that start down within one fire.
  - CountdownTimerDemo: the orphan delivers to the old callback it captured.
    When it finishes it tears down the new entry. A stop does not end its
    callbacks: the old callback goes on being called after the key reads as
    finished.
- A start whose deadline has already been reached leaves an entry with a nil
  timer, because `launchTimer` writes the entry again after
  `createCountDownTimer` returns. The key still reads as finished.
- The foreground hook does deliver callbacks: an expired entry gets
  `(0, true)`. This is a repeat when the entry had already finished. It is
  the first delivery when the deadline passed while the app was suspended
  and the entry's ticker was still live. When no entry has expired, the hook
  calls no callback (`OnForegroundQuietWhenLive`).

## Model

| member | source | states |
|---|---|---|
| Countdown.CountdownEvents | Countdown_Swift/Swift_Demo/CountdownTimerDemo/CountdownTimer/CountdownTimer.swift:146-151 | the i-th of n reports of a ticker whose first report is d is (d - i, finished iff d - i <= 0) |
| SwiftDemoModel.StartCountDownEffect | Countdown_Swift/Swift_Demo/CountdownTimerDemo/CountdownTimer/CountdownTimer.swift:72-76 | start writes the entry and, with the deadline ahead, appends one ticker with counter endTime - now + 1 and attaches it; with the deadline reached, it delivers (0, true) to the new callback and keeps the entry with a nil timer |
| SwiftDemoModel.StartTimerStores | Countdown_Swift/Swift_Demo/CountdownTimerDemo/CountdownTimer/CountdownTimer.swift:40-43 | after start the key's entry has endTime = now + count and the given callback, and every other key is unchanged |
| SwiftDemoModel.StartTimerExpired | Countdown_Swift/Swift_Demo/CountdownTimerDemo/CountdownTimer/CountdownTimer.swift:141-144 | count <= 0: the callback gets (0, true) exactly once, no ticker is created, the entry stays with a nil timer, the clock is unchanged, and the key reads as finished |
| SwiftDemoModel.StartTimerLive | Countdown_Swift/Swift_Demo/CountdownTimerDemo/CountdownTimer/CountdownTimer.swift:145-148 | count > 0: one ticker starting at count + 1, nothing delivered, the entry holds it, the clock is unchanged, and the key reads as running |
| SwiftDemoModel.HandleCallbackEffect | Countdown_Swift/Swift_Demo/CountdownTimerDemo/CountdownTimer/CountdownTimer.swift:159-167 | no entry: nothing changes; unfinished: the stored callback is called and the map is unchanged; finished: called, then the ticker is cancelled and the entry removed, with the clock unchanged |
| SwiftDemoModel.StopTimerEffect | Countdown_Swift/Swift_Demo/CountdownTimerDemo/CountdownTimer/CountdownTimer.swift:49-51 | stop on an active key delivers (0, true) to the stored callback, cancels the entry's ticker and removes the entry; on a missing key it changes nothing; afterwards the key reads as finished, under the invariant the entry's ticker fires no more, and no ticker of the key reaches a callback |
| SwiftDemoModel.ContinueMissing | Countdown_Swift/Swift_Demo/CountdownTimerDemo/CountdownTimer/CountdownTimer.swift:80-86 | continue on a key without an entry changes nothing and calls no callback |
| SwiftDemoModel.ContinueExpired | Countdown_Swift/Swift_Demo/CountdownTimerDemo/CountdownTimer/CountdownTimer.swift:82-86 | continue on an expired entry starts no ticker, delivers (0, true) to the stored callback, cancels the entry's ticker and removes the entry, with the clock unchanged |
| SwiftDemoModel.ContinueLive | Countdown_Swift/Swift_Demo/CountdownTimerDemo/CountdownTimer/CountdownTimer.swift:87-88 | continue on a live entry keeps endTime, installs the new callback, cancels the old ticker and appends one in step with the clock |
| SwiftDemoModel.IsFinishedIff | Countdown_Swift/Swift_Demo/CountdownTimerDemo/CountdownTimer/CountdownTimer.swift:91-96 | under the invariant, a key reads as finished iff it has no entry or its entry has no timer |
| SwiftDemoModel.FireEffect | Countdown_Swift/Swift_Demo/CountdownTimerDemo/CountdownTimer/CountdownTimer.swift:149-155 | a live ticker's fire decrements its counter and delivers the new count to the callback the map holds at that moment (nothing if none); the map changes only when the count reaches 0, and then the key's entry goes and the ticker the entry held is cancelled; no other ticker changes |
| SwiftDemoModel.StartCountDownPreservesValid | Countdown_Swift/Swift_Demo/CountdownTimerDemo/CountdownTimer/CountdownTimer.swift:72-76 | startCountDown keeps the registry invariant |
| SwiftDemoModel.RemoveCountDownPreservesValid | Countdown_Swift/Swift_Demo/CountdownTimerDemo/CountdownTimer/CountdownTimer.swift:128-133 | removeCountDown keeps the registry invariant |
| SwiftDemoModel.HandleCallbackPreservesValid | Countdown_Swift/Swift_Demo/CountdownTimerDemo/CountdownTimer/CountdownTimer.swift:159-167 | handleCallback keeps the registry invariant |
| SwiftDemoModel.StartTimerPreservesValid | Countdown_Swift/Swift_Demo/CountdownTimerDemo/CountdownTimer/CountdownTimer.swift:40-43 | startTimer keeps the registry invariant |
| SwiftDemoModel.StopTimerPreservesValid | Countdown_Swift/Swift_Demo/CountdownTimerDemo/CountdownTimer/CountdownTimer.swift:49-51 | stopTimer keeps the registry invariant |
| SwiftDemoModel.ContinueTimerPreservesValid | Countdown_Swift/Swift_Demo/CountdownTimerDemo/CountdownTimer/CountdownTimer.swift:78-89 | continueTimer keeps the registry invariant |
| SwiftDemoModel.FirePreservesValid | Countdown_Swift/Swift_Demo/CountdownTimerDemo/CountdownTimer/CountdownTimer.swift:149-155 | a fire keeps the registry invariant |
| SwiftDemoModel.AdvancePreservesValid | Countdown_Swift/Swift_Demo/CountdownTimerDemo/CountdownTimer/CountdownTimer.swift:119 | the clock moving on keeps the registry invariant |
| SwiftDemoModel.ForegroundFromPreservesValid | Countdown_Swift/Swift_Demo/CountdownTimerDemo/CountdownTimer/CountdownTimer.swift:100-105 | any run of the foreground loop over a list of keys keeps the registry invariant |
| SwiftDemoModel.OnForegroundPreservesValid | Countdown_Swift/Swift_Demo/CountdownTimerDemo/CountdownTimer/CountdownTimer.swift:98-106 | the foreground hook keeps the registry invariant |
| SwiftDemoModel.TicksReportRemaining | Countdown_Swift/Swift_Demo/CountdownTimerDemo/CountdownTimer/CountdownTimer.swift:146-155 | a ticker in step with the clock, fired once per second, reports the seconds left down to 0 with finished only on 0; after the last report the entry is gone and the ticker is cancelled, so a further fire changes nothing |
| SwiftDemoModel.StartThenCountdown | Countdown_Swift/Swift_Demo/CountdownTimerDemo/CountdownTimer/CountdownTimer.swift:145-155 | a start of d >= 1 seconds, fired once per second, delivers d, d-1, ..., 0 to its callback; the key reads as finished exactly after the d + 1st fire, and a later fire changes nothing |
| SwiftDemoModel.ContinueExtendsLog | Countdown_Swift/Swift_Demo/CountdownTimerDemo/CountdownTimer/CountdownTimer.swift:78-89 | continue only appends to the callback log |
| SwiftDemoModel.ContinueKeepsCancelled | Countdown_Swift/Swift_Demo/CountdownTimerDemo/CountdownTimer/CountdownTimer.swift:78-89 | continue only appends to the ticker table, and a cancelled ticker stays cancelled |
| SwiftDemoModel.ContinueLeavesOtherKeys | Countdown_Swift/Swift_Demo/CountdownTimerDemo/CountdownTimer/CountdownTimer.swift:78-89 | continue on one key leaves every other key's entry and ticker as they were |
| SwiftDemoModel.OnForegroundVisitsInOrder | Countdown_Swift/Swift_Demo/CountdownTimerDemo/CountdownTimer/CountdownTimer.swift:100-105 | the foreground hook is continue-with-the-stored-callback on test1 then test2, skipping keys without an entry, and the identity when neither has one |
| SwiftDemoModel.OnForegroundLeavesAbsentKeys | Countdown_Swift/Swift_Demo/CountdownTimerDemo/CountdownTimer/CountdownTimer.swift:101-103 | a key without an entry still has none after the foreground hook |
| SwiftDemoModel.OnForegroundResumes | Countdown_Swift/Swift_Demo/CountdownTimerDemo/CountdownTimer/CountdownTimer.swift:98-106 | after the foreground hook a live key keeps its deadline and callback and has a ticker with a fresh handle, in step with the clock; the ticker it held before is cancelled, and a fire of it changes nothing |
| SwiftDemoModel.OnForegroundQuietWhenLive | Countdown_Swift/Swift_Demo/CountdownTimerDemo/CountdownTimer/CountdownTimer.swift:98-106 | when no entry has expired, the foreground hook calls no callback |
| SwiftDemoModel.OnForegroundDropsExpired | Countdown_Swift/Swift_Demo/CountdownTimerDemo/CountdownTimer/CountdownTimer.swift:98-106 | after the foreground hook an expired key has no entry, and the hook has delivered (0, true) to its stored callback |
| SwiftDemoModel.ExpiredForegroundDelivers | Countdown_Swift/Swift_Demo/CountdownTimerDemo/CountdownTimer/CountdownTimer.swift:98-106 | across the two foreground steps the log only grows, and an expired key's stored callback gets (0, true) among the new entries |
| SwiftDemoModel.ResumeAfterSuspension | Countdown_Swift/Swift_Demo/CountdownTimerDemo/CountdownTimer/CountdownTimer.swift:78-89 | a d-second start, n < d seconds of suspension, then the foreground hook: the countdown reports d - n, ..., 0 |
| SwiftDemoModel.RestartLeavesOldTickerRunning | Countdown_Swift/Swift_Demo/CountdownTimerDemo/CountdownTimer/CountdownTimer.swift:72-75 | start on a counting key leaves the old ticker uncancelled; its next fire delivers its count to the new callback, and its finishing fire removes the new entry; a later stop leaves it uncancelled too, and it goes on counting down silently |
| SwiftDemoTimer.CountdownTimer.constructor | Countdown_Swift/Swift_Demo/CountdownTimerDemo/CountdownTimer/CountdownTimer.swift:27-32 | an empty registry at the given clock, lock free |
| SwiftDemoTimer.CountdownTimer.AddCountDown | Countdown_Swift/Swift_Demo/CountdownTimerDemo/CountdownTimer/CountdownTimer.swift:122-126 | the state after addCountDown |
| SwiftDemoTimer.CountdownTimer.RemoveCountDown | Countdown_Swift/Swift_Demo/CountdownTimerDemo/CountdownTimer/CountdownTimer.swift:128-133 | the state after removeCountDown |
| SwiftDemoTimer.CountdownTimer.HandleCallback | Countdown_Swift/Swift_Demo/CountdownTimerDemo/CountdownTimer/CountdownTimer.swift:159-167 | the state after handleCallback |
| SwiftDemoTimer.CountdownTimer.CreateCountDownTimer | Countdown_Swift/Swift_Demo/CountdownTimerDemo/CountdownTimer/CountdownTimer.swift:135-157 | the state and handle after createCountDownTimer; the lock stays held exactly when the key had no entry |
| SwiftDemoTimer.CountdownTimer.LaunchTimer | Countdown_Swift/Swift_Demo/CountdownTimerDemo/CountdownTimer/CountdownTimer.swift:110-116 | the state after launchTimer, including the re-add of the entry with the returned handle |
| SwiftDemoTimer.CountdownTimer.StartCountDown | Countdown_Swift/Swift_Demo/CountdownTimerDemo/CountdownTimer/CountdownTimer.swift:72-76 | the state after startCountDown; the lock is never left held (the early return at line 138 is unreachable) |
| SwiftDemoTimer.CountdownTimer.StartTimer | Countdown_Swift/Swift_Demo/CountdownTimerDemo/CountdownTimer/CountdownTimer.swift:40-44 | the state after startTimer with endTime = count + now; keeps the invariant |
| SwiftDemoTimer.CountdownTimer.StopTimer | Countdown_Swift/Swift_Demo/CountdownTimerDemo/CountdownTimer/CountdownTimer.swift:49-51 | the state after stopTimer; keeps the invariant |
| SwiftDemoTimer.CountdownTimer.ContinueTimer | Countdown_Swift/Swift_Demo/CountdownTimerDemo/CountdownTimer/CountdownTimer.swift:78-89 | the state after continueTimer; keeps the invariant |
| SwiftDemoTimer.CountdownTimer.IsFinishedTimer | Countdown_Swift/Swift_Demo/CountdownTimerDemo/CountdownTimer/CountdownTimer.swift:91-96 | returns isFinished without changing state; true iff no entry or no timer |
| SwiftDemoTimer.CountdownTimer.WillEnterForeground | Countdown_Swift/Swift_Demo/CountdownTimerDemo/CountdownTimer/CountdownTimer.swift:98-106 | a loop over allCases whose final state is the foreground hook's; keeps the invariant |
| SwiftDemoTimer.CountdownTimer.Fire | Countdown_Swift/Swift_Demo/CountdownTimerDemo/CountdownTimer/CountdownTimer.swift:149-155 | the state after one fire of ticker t; keeps the invariant |
| SwiftDemoTimer.CountdownTimer.Advance | Countdown_Swift/Swift_Demo/CountdownTimerDemo/CountdownTimer/CountdownTimer.swift:119 | the clock moves on; keeps the invariant |
| RootDemoModel.StartCountDownEffect | CountdownTimerDemo/CountdownTimerDemo/CountdownTimer/CountdownTimer.swift:73-77 | start writes the entry and, with the deadline ahead, appends one ticker with counter endTime - now + 1 that captures the callback; with the deadline reached, it delivers (0, true) directly and keeps the entry with a nil timer |
| RootDemoModel.StartTimerStores | CountdownTimerDemo/CountdownTimerDemo/CountdownTimer/CountdownTimer.swift:38-41 | after start the key's entry has endTime = now + count and the given callback, and every other key is unchanged |
| RootDemoModel.StartTimerExpired | CountdownTimerDemo/CountdownTimerDemo/CountdownTimer/CountdownTimer.swift:139-143 | count <= 0: the callback gets (0, true), no ticker is created, the entry stays with a nil timer, the clock is unchanged, and the key reads as finished |
| RootDemoModel.StartTimerLive | CountdownTimerDemo/CountdownTimerDemo/CountdownTimer/CountdownTimer.swift:144-146 | count > 0: one ticker starting at count + 1 that captures the callback, nothing delivered, the clock unchanged, and the key reads as running |
| RootDemoModel.StopTimerEffect | CountdownTimerDemo/CountdownTimerDemo/CountdownTimer/CountdownTimer.swift:46-48 | stop cancels the ticker and removes the entry without calling any callback; on a missing key it changes nothing; afterwards the key reads as finished and, under the invariant, the entry's ticker fires no more |
| RootDemoModel.ContinueMissing | CountdownTimerDemo/CountdownTimerDemo/CountdownTimer/CountdownTimer.swift:80-83 | continue on a key without an entry delivers (0, true) to the new callback and changes nothing else |
| RootDemoModel.ContinueExpired | CountdownTimerDemo/CountdownTimerDemo/CountdownTimer/CountdownTimer.swift:84-85 | continue on an expired entry checks no deadline first: the old ticker is cancelled, the new callback gets (0, true), and the entry stays with the old endTime, the new callback and a nil timer, with the clock unchanged |
| RootDemoModel.ContinueLive | CountdownTimerDemo/CountdownTimerDemo/CountdownTimer/CountdownTimer.swift:84-85 | continue on a live entry keeps endTime, installs the new callback, cancels the old ticker and appends one in step with the clock |
| RootDemoModel.IsFinishedIff | CountdownTimerDemo/CountdownTimerDemo/CountdownTimer/CountdownTimer.swift:88-93 | under the invariant, a key reads as finished iff it has no entry or its entry has no timer |
| RootDemoModel.FireEffect | CountdownTimerDemo/CountdownTimerDemo/CountdownTimer/CountdownTimer.swift:147-156 | a live ticker's fire decrements its counter and always delivers to its captured callback; an unfinished fire leaves the map and the other tickers alone, and a finished one removes its key's entry and cancels the ticker that entry held (which may be a newer ticker than the one firing) |
| RootDemoModel.StartCountDownPreservesValid | CountdownTimerDemo/CountdownTimerDemo/CountdownTimer/CountdownTimer.swift:73-77 | startCountDown keeps the registry invariant |
| RootDemoModel.RemoveCountDownPreservesValid | CountdownTimerDemo/CountdownTimerDemo/CountdownTimer/CountdownTimer.swift:124-129 | removeCountDown keeps the registry invariant |
| RootDemoModel.StartTimerPreservesValid | CountdownTimerDemo/CountdownTimerDemo/CountdownTimer/CountdownTimer.swift:38-41 | startTimer keeps the registry invariant |
| RootDemoModel.StopTimerPreservesValid | CountdownTimerDemo/CountdownTimerDemo/CountdownTimer/CountdownTimer.swift:46-48 | stopTimer keeps the registry invariant |
| RootDemoModel.ContinueTimerPreservesValid | CountdownTimerDemo/CountdownTimerDemo/CountdownTimer/CountdownTimer.swift:79-86 | continueTimer keeps the registry invariant |
| RootDemoModel.FirePreservesValid | CountdownTimerDemo/CountdownTimerDemo/CountdownTimer/CountdownTimer.swift:147-156 | a fire keeps the registry invariant |
| RootDemoModel.AdvancePreservesValid | CountdownTimerDemo/CountdownTimerDemo/CountdownTimer/CountdownTimer.swift:139 | the clock moving on keeps the registry invariant |
| RootDemoModel.ForegroundFromPreservesValid | CountdownTimerDemo/CountdownTimerDemo/CountdownTimer/CountdownTimer.swift:97-102 | any run of the foreground loop over a list of keys keeps the registry invariant |
| RootDemoModel.OnForegroundPreservesValid | CountdownTimerDemo/CountdownTimerDemo/CountdownTimer/CountdownTimer.swift:95-103 | the foreground hook keeps the registry invariant |
| RootDemoModel.TicksReportRemaining | CountdownTimerDemo/CountdownTimerDemo/CountdownTimer/CountdownTimer.swift:146-156 | a ticker in step with the clock, fired once per second, reports the seconds left down to 0 with finished only on 0; after the last report the entry is gone and the ticker is cancelled, so a further fire changes nothing |
| RootDemoModel.StartThenCountdown | CountdownTimerDemo/CountdownTimerDemo/CountdownTimer/CountdownTimer.swift:144-156 | a start of d >= 1 seconds, fired once per second, delivers d, d-1, ..., 0 to its callback; the key reads as finished exactly after the d + 1st fire, and a later fire changes nothing |
| RootDemoModel.ContinueExtendsLog | CountdownTimerDemo/CountdownTimerDemo/CountdownTimer/CountdownTimer.swift:79-86 | continue only appends to the callback log |
| RootDemoModel.ContinueKeepsCancelled | CountdownTimerDemo/CountdownTimerDemo/CountdownTimer/CountdownTimer.swift:79-86 | continue only appends to the ticker table, and a cancelled ticker stays cancelled |
| RootDemoModel.ContinueLeavesOtherKeys | CountdownTimerDemo/CountdownTimerDemo/CountdownTimer/CountdownTimer.swift:79-86 | continue on one key leaves every other key's entry and ticker as they were |
| RootDemoModel.OnForegroundVisitsInOrder | CountdownTimerDemo/CountdownTimerDemo/CountdownTimer/CountdownTimer.swift:97-102 | the foreground hook is continue-with-the-stored-callback on test1 then test2, skipping keys without an entry, and the identity when neither has one |
| RootDemoModel.OnForegroundLeavesAbsentKeys | CountdownTimerDemo/CountdownTimerDemo/CountdownTimer/CountdownTimer.swift:98-100 | a key without an entry still has none after the foreground hook |
| RootDemoModel.OnForegroundResumes | CountdownTimerDemo/CountdownTimerDemo/CountdownTimer/CountdownTimer.swift:95-103 | after the foreground hook a live key keeps its deadline and callback and has a ticker with a fresh handle, in step with the clock; the ticker it held before is cancelled, and a fire of it changes nothing |
| RootDemoModel.OnForegroundQuietWhenLive | CountdownTimerDemo/CountdownTimerDemo/CountdownTimer/CountdownTimer.swift:95-103 | when no entry has expired, the foreground hook calls no callback |
| RootDemoModel.OnForegroundKeepsExpired | CountdownTimerDemo/CountdownTimerDemo/CountdownTimer/CountdownTimer.swift:95-103 | after the foreground hook an expired key keeps its entry with a nil timer and reads as finished, and the hook has delivered (0, true) to its stored callback |
| RootDemoModel.ExpiredForegroundDelivers | CountdownTimerDemo/CountdownTimerDemo/CountdownTimer/CountdownTimer.swift:95-103 | across the two foreground steps the log only grows, and an expired key's stored callback gets (0, true) among the new entries |
| RootDemoModel.ResumeAfterSuspension | CountdownTimerDemo/CountdownTimerDemo/CountdownTimer/CountdownTimer.swift:79-86 | a d-second start, n < d seconds of suspension, then the foreground hook: the countdown reports d - n, ..., 0 |
| RootDemoModel.RestartLeavesOldTickerRunning | CountdownTimerDemo/CountdownTimerDemo/CountdownTimer/CountdownTimer.swift:73-76 | start on a counting key leaves the old ticker uncancelled; its next fire delivers to the OLD callback, and its finishing fire removes the new entry; a later stop leaves it uncancelled, and it goes on calling the old callback |
| RootDemoTimer.CountdownTimer.constructor | CountdownTimerDemo/CountdownTimerDemo/CountdownTimer/CountdownTimer.swift:21-25 | an empty registry at the given clock |
| RootDemoTimer.CountdownTimer.AddCountDown | CountdownTimerDemo/CountdownTimerDemo/CountdownTimer/CountdownTimer.swift:118-122 | the state after addCountDown |
| RootDemoTimer.CountdownTimer.RemoveCountDown | CountdownTimerDemo/CountdownTimerDemo/CountdownTimer/CountdownTimer.swift:124-129 | the state after removeCountDown |
| RootDemoTimer.CountdownTimer.CreateCountDownTimer | CountdownTimerDemo/CountdownTimerDemo/CountdownTimer/CountdownTimer.swift:131-158 | the state and handle after createCountDownTimer |
| RootDemoTimer.CountdownTimer.LaunchTimer | CountdownTimerDemo/CountdownTimerDemo/CountdownTimer/CountdownTimer.swift:110-116 | the state after launchTimer, including the re-add of the entry with the returned handle |
| RootDemoTimer.CountdownTimer.StartCountDown | CountdownTimerDemo/CountdownTimerDemo/CountdownTimer/CountdownTimer.swift:73-77 | the state after startCountDown |
| RootDemoTimer.CountdownTimer.StartTimer | CountdownTimerDemo/CountdownTimerDemo/CountdownTimer/CountdownTimer.swift:38-41 | the state after startTimer with endTime = count + now; keeps the invariant |
| RootDemoTimer.CountdownTimer.StopTimer | CountdownTimerDemo/CountdownTimerDemo/CountdownTimer/CountdownTimer.swift:46-48 | the state after stopTimer; keeps the invariant |
| RootDemoTimer.CountdownTimer.ContinueTimer | CountdownTimerDemo/CountdownTimerDemo/CountdownTimer/CountdownTimer.swift:79-86 | the state after continueTimer; keeps the invariant |
| RootDemoTimer.CountdownTimer.IsFinishedTimer | CountdownTimerDemo/CountdownTimerDemo/CountdownTimer/CountdownTimer.swift:88-93 | returns isFinished without changing state; true iff no entry or no timer |
| RootDemoTimer.CountdownTimer.WillEnterForeground | CountdownTimerDemo/CountdownTimerDemo/CountdownTimer/CountdownTimer.swift:95-103 | a loop over allCases whose final state is the foreground hook's; keeps the invariant |
| RootDemoTimer.CountdownTimer.Fire | CountdownTimerDemo/CountdownTimerDemo/CountdownTimer/CountdownTimer.swift:147-156 | the state after one fire of ticker t; keeps the invariant |
| RootDemoTimer.CountdownTimer.Advance | CountdownTimerDemo/CountdownTimerDemo/CountdownTimer/CountdownTimer.swift:139 | the clock moves on; keeps the invariant |

## Left out

- Grand Central Dispatch is not modelled. `makeTimerSource`,
  `schedule(wallDeadline:repeating:)` and `resume` are replaced by an
  explicit `Fire(t)` step, and the passage of time by an explicit
  `Advance(dt)`. Nothing forces fires to follow the clock. The ticking
  lemmas state what happens when they do (one fire per second).
- `DispatchQueue.main.async` delivery is made synchronous inside `Fire`.
  The model therefore does not capture a delivery being deferred. In both
  copies, the deferred block reads the captured `var countDown` only when
  it runs, so it can see a later value. The model also does not capture
  deliveries being reordered against other operations.
- `NSLock` and the reads of `countDowns` made without it (the foreground
  loops; continue in CountdownTimerDemo; Swift_Demo's `handleCallback`
  lookup, which stop and every fire reach) are not modelled, because the
  model is sequential. The only lock behaviour kept is Swift_Demo's early return
  that leaves the lock held.
- Ticker lifetime: an overwritten ticker is kept alive until it is
  cancelled. Whether Grand Central Dispatch keeps running a
  `DispatchSourceTimer` once its last strong reference is gone is not
  modelled.
- The clock is one integer `now` that only `Advance` moves, and only
  forward. Within one operation every read of `Date()` sees the same
  value, and wall-clock time never goes back.
- `Date().timeIntervalSince1970` and `TimeInterval` doubles become integer
  seconds, so `round(endTime - now)` is the exact difference. Floating-point
  rounding and the conversion `TimeInterval(count)` are not modelled.
- Swift `Int` is 64 bits wide. The model uses unbounded integers, so an
  overflowing `count` or counter is not modelled.
- The `timer` handle is an index into the ticker table. `Cancel` and
  `IsFinished` guard against an index outside the table. The invariant
  rules that case out.
- `CountDownInfo.endTime` and `callBack` are optionals in the source, but
  every entry is built with both set, so the model stores them as plain
  values.
- Registering with `NotificationCenter` and
  `UIApplication.willEnterForegroundNotification` in `init` is not
  modelled. Only the handler is, as `WillEnterForeground` /
  `OnForeground`.
- Callback bodies are opaque ids. An invocation is an `Event` appended to
  the log, so a callback that re-enters the registry is not modelled.
- The static `shared` singleton is one class instance. The static wrappers
  `continueTimer` and `isFinishedTimer` only forward to
  `continueCountDown` and `isFinished`, so each pair is one method.
- Countdown_OC/CountdownTimer.h is not part of this model: it holds
  declarations only.
- The two ViewController.swift files are not part of this model: they are
  UIKit labels and buttons that only call the API.
