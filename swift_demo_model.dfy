/** The countdown registry of the Swift_Demo copy, as a state machine over
    values: one function per source operation, the invariant the operations
    keep, and what they promise, as lemmas.

    In this copy a ticker carries no callback of its own: every delivery goes
    through `HandleCallback`, which looks up the callback stored in the map at
    delivery time. Stopping a timer delivers `(0, true)`. */
module SwiftDemoModel {
  import opened Countdown

  /** A launched ticker: the key it counts for, its closure-captured counter
      `countDown`, and whether it has been cancelled. */
  datatype Ticker = Ticker(key: Key, count: int, cancelled: bool)

  /** The registry: the `countDowns` dictionary, every ticker ever created
      (indexed by handle), the clock in whole seconds, and the callbacks
      delivered so far. */
  datatype State = State(entries: map<Key, Info>, tickers: seq<Ticker>, now: int, log: seq<Event>)

  /** `t` is a running ticker for `key` with at least one fire left before it finishes. */
  predicate LiveTicker(s: State, key: Key, t: TickerId)
  {
    t < |s.tickers| && s.tickers[t].key == key && !s.tickers[t].cancelled && s.tickers[t].count >= 1
  }

  /** The registry invariant: an entry's timer, once attached, is a live ticker counting for that key. */
  predicate Valid(s: State)
  {
    forall k :: k in s.entries && s.entries[k].timer.Some? ==> LiveTicker(s, k, s.entries[k].timer.value)
  }

  /** `timer?.cancel()` */
  function Cancel(tickers: seq<Ticker>, timer: Option<TickerId>): seq<Ticker>
  {
    if timer.Some? && timer.value < |tickers| then
      tickers[timer.value := tickers[timer.value].(cancelled := true)]
    else tickers
  }

  /** `addCountDown`: store (or overwrite) the entry for `key`. */
  function AddCountDown(s: State, key: Key, info: Info): State
  {
    s.(entries := s.entries[key := info])
  }

  /** `removeCountDown`: cancel the entry's ticker and drop the entry. */
  function RemoveCountDown(s: State, key: Key): State
  {
    if key in s.entries then
      s.(tickers := Cancel(s.tickers, s.entries[key].timer), entries := s.entries - {key})
    else s
  }

  /** `handleCallback`: deliver to the callback stored for `key`, if any, and tear the entry down when finished. */
  function HandleCallback(s: State, key: Key, count: int, finished: bool): State
  {
    if key !in s.entries then s
    else
      var delivered := s.(log := s.log + [Event(s.entries[key].callback, count, finished)]);
      if finished then RemoveCountDown(delivered, key) else delivered
  }

  /** `isExpired` */
  predicate IsExpired(s: State, endTime: int)
  {
    s.now >= endTime
  }

  /** `createCountDownTimer`: the state afterwards and the handle it returns. */
  function CreateCountDownTimer(s: State, key: Key): (State, Option<TickerId>)
  {
    if key !in s.entries then (s, None)
    else if IsExpired(s, s.entries[key].endTime) then (HandleCallback(s, key, 0, true), None)
    else
      var count := s.entries[key].endTime - s.now + 1;
      (s.(tickers := s.tickers + [Ticker(key, count, false)]), Some(|s.tickers|))
  }

  /** `launchTimer`: create the ticker, then write the entry again with the handle attached. */
  function LaunchTimer(s: State, key: Key, info: Info): State
  {
    var created := CreateCountDownTimer(s, key);
    AddCountDown(created.0, key, info.(timer := created.1))
  }

  /** `startCountDown` */
  function StartCountDown(s: State, key: Key, endTime: int, callback: CallbackId): State
  {
    var info := Info(None, endTime, callback);
    LaunchTimer(AddCountDown(s, key, info), key, info)
  }

  /** `startTimer` */
  function StartTimer(s: State, key: Key, count: int, callback: CallbackId): State
  {
    StartCountDown(s, key, s.now + count, callback)
  }

  /** `stopTimer` */
  function StopTimer(s: State, key: Key): State
  {
    HandleCallback(s, key, 0, true)
  }

  /** `continueTimer` / `continueCountDown` */
  function ContinueTimer(s: State, key: Key, callback: CallbackId): State
  {
    if key !in s.entries || IsExpired(s, s.entries[key].endTime) then HandleCallback(s, key, 0, true)
    else StartCountDown(RemoveCountDown(s, key), key, s.entries[key].endTime, callback)
  }

  /** `isFinishedTimer` / `isFinished`: `countDowns[key]?.timer?.isCancelled ?? true` */
  predicate IsFinished(s: State, key: Key)
  {
    key !in s.entries ||
    match s.entries[key].timer
    case None => true
    case Some(t) => t < |s.tickers| ==> s.tickers[t].cancelled
  }

  /** One fire of ticker `t`: decrement its counter and hand the count to `HandleCallback`.
      A cancelled ticker does not fire. */
  function Fire(s: State, t: TickerId): State
  {
    if t >= |s.tickers| || s.tickers[t].cancelled then s
    else
      var ticker := s.tickers[t];
      var count := ticker.count - 1;
      HandleCallback(s.(tickers := s.tickers[t := ticker.(count := count)]), ticker.key, count, count <= 0)
  }

  /** The clock moves on by `dt` seconds. */
  function Advance(s: State, dt: nat): State
  {
    s.(now := s.now + dt)
  }

  /** One iteration of `willEnterForegroundNotification`. */
  function ForegroundStep(s: State, key: Key): State
  {
    if key in s.entries then ContinueTimer(s, key, s.entries[key].callback) else s
  }

  function ForegroundFrom(s: State, keys: seq<Key>): State
    decreases |keys|
  {
    if keys == [] then s else ForegroundFrom(ForegroundStep(s, keys[0]), keys[1..])
  }

  /** `willEnterForegroundNotification` */
  function OnForeground(s: State): State
  {
    ForegroundFrom(s, AllKeys)
  }

  /** `n` rounds of: ticker `t` fires, then one second passes. */
  function Ticks(s: State, t: TickerId, n: nat): State
    decreases n
  {
    if n == 0 then s else Ticks(Advance(Fire(s, t), 1), t, n - 1)
  }

  /** The entry for `key` runs ticker `t`, whose counter is in step with the
      clock: its next fire reports the seconds left to the deadline. */
  predicate InStep(s: State, key: Key, t: TickerId)
  {
    key in s.entries && s.entries[key].timer == Some(t) && t < |s.tickers| &&
    s.tickers[t] == Ticker(key, s.entries[key].endTime - s.now + 1, false)
  }

  // ---------------------------------------------------------------------
  // What each operation does

  /** `startCountDown` stores the entry and, when the deadline is still ahead,
      a fresh ticker whose first fire reports the seconds left; when it has
      been reached, the new callback gets `(0, true)` once, no ticker is made,
      and the entry stays with a nil timer (the re-add in `launchTimer`). */
  lemma StartCountDownEffect(s: State, key: Key, endTime: int, callback: CallbackId)
    ensures var r := StartCountDown(s, key, endTime, callback);
      if s.now >= endTime then
        r == s.(entries := s.entries[key := Info(None, endTime, callback)],
                log := s.log + [Event(callback, 0, true)])
      else
        r == s.(entries := s.entries[key := Info(Some(|s.tickers|), endTime, callback)],
                tickers := s.tickers + [Ticker(key, endTime - s.now + 1, false)])
  {
  }

  /** Start stores `endTime = now + count` and the callback for `key`,
      overwriting any previous entry, and touches no other key. */
  lemma StartTimerStores(s: State, key: Key, count: int, callback: CallbackId)
    ensures var r := StartTimer(s, key, count, callback);
      key in r.entries && r.entries[key].endTime == s.now + count && r.entries[key].callback == callback &&
      r.now == s.now &&
      forall k :: k != key ==> (k in r.entries <==> k in s.entries) && (k in s.entries ==> r.entries[k] == s.entries[k])
  {
  }

  /** Start with a deadline already reached: the callback gets `(0, true)`
      once, no ticker is created, and the key reads as finished. */
  lemma StartTimerExpired(s: State, key: Key, count: int, callback: CallbackId)
    requires count <= 0
    ensures var r := StartTimer(s, key, count, callback);
      r.log == s.log + [Event(callback, 0, true)] && r.tickers == s.tickers && r.now == s.now &&
      r.entries == s.entries[key := Info(None, s.now + count, callback)] && IsFinished(r, key)
  {
  }

  /** Start with a deadline ahead: one new ticker whose counter starts at
      `count + 1`, nothing delivered, and the key reads as running. */
  lemma StartTimerLive(s: State, key: Key, count: int, callback: CallbackId)
    requires count > 0
    ensures var r := StartTimer(s, key, count, callback);
      r.log == s.log && r.tickers == s.tickers + [Ticker(key, count + 1, false)] && r.now == s.now &&
      r.entries == s.entries[key := Info(Some(|s.tickers|), s.now + count, callback)] &&
      !IsFinished(r, key) && InStep(r, key, |s.tickers|)
  {
  }

  /** `handleCallback` does nothing for a key without an entry; otherwise it
      calls the stored callback, and only a finished call cancels the ticker and drops the entry. */
  lemma HandleCallbackEffect(s: State, key: Key, count: int, finished: bool)
    ensures var r := HandleCallback(s, key, count, finished);
      (key !in s.entries ==> r == s) &&
      (key in s.entries && !finished ==>
        r == s.(log := s.log + [Event(s.entries[key].callback, count, false)])) &&
      (key in s.entries && finished ==>
        r.log == s.log + [Event(s.entries[key].callback, count, true)] &&
        r.entries == s.entries - {key} && r.tickers == Cancel(s.tickers, s.entries[key].timer) &&
        r.now == s.now && IsFinished(r, key))
  {
  }

  /** Stop on an active key delivers `(0, true)` to the stored callback,
      cancels the entry's ticker and leaves no entry; on a key without an
      entry it changes nothing. Afterwards the entry's ticker fires no more,
      and no ticker of the key reaches a callback, since there is none to look up. */
  lemma StopTimerEffect(s: State, key: Key)
    ensures var r := StopTimer(s, key);
      IsFinished(r, key) && r.now == s.now &&
      (key !in s.entries ==> r == s) &&
      (key in s.entries ==>
        r.log == s.log + [Event(s.entries[key].callback, 0, true)] && r.entries == s.entries - {key} &&
        r.tickers == Cancel(s.tickers, s.entries[key].timer)) &&
      (Valid(s) && key in s.entries && s.entries[key].timer.Some? ==>
        Fire(r, s.entries[key].timer.value) == r) &&
      (forall t: TickerId :: t < |r.tickers| && r.tickers[t].key == key ==> Fire(r, t).log == r.log)
  {
  }

  /** Continue on a key without an entry changes nothing: no callback is called, neither the new one nor any other. */
  lemma ContinueMissing(s: State, key: Key, callback: CallbackId)
    requires key !in s.entries
    ensures ContinueTimer(s, key, callback) == s
  {
  }

  /** Continue on an expired entry starts no ticker: the STORED callback gets
      `(0, true)`, the entry's ticker is cancelled and the entry is removed. */
  lemma ContinueExpired(s: State, key: Key, callback: CallbackId)
    requires key in s.entries && s.now >= s.entries[key].endTime
    ensures var r := ContinueTimer(s, key, callback);
      r.log == s.log + [Event(s.entries[key].callback, 0, true)] && r.entries == s.entries - {key} &&
      |r.tickers| == |s.tickers| && r.tickers == Cancel(s.tickers, s.entries[key].timer) &&
      r.now == s.now && IsFinished(r, key)
  {
  }

  /** Continue on a live entry keeps its deadline, installs the new callback,
      cancels the old ticker and launches a new one in step with the clock. */
  lemma ContinueLive(s: State, key: Key, callback: CallbackId)
    requires key in s.entries && s.now < s.entries[key].endTime
    ensures var r := ContinueTimer(s, key, callback);
      var endTime := s.entries[key].endTime;
      r.log == s.log && r.now == s.now &&
      r.entries == s.entries[key := Info(Some(|s.tickers|), endTime, callback)] &&
      r.tickers == Cancel(s.tickers, s.entries[key].timer) + [Ticker(key, endTime - s.now + 1, false)] &&
      InStep(r, key, |s.tickers|)
  {
  }

  /** Under the invariant, a key reads as finished exactly when it has no entry or its entry has no ticker. */
  lemma IsFinishedIff(s: State, key: Key)
    requires Valid(s)
    ensures IsFinished(s, key) <==> key !in s.entries || s.entries[key].timer.None?
  {
  }

  /** A fire of a live ticker decrements its counter and delivers the count to
      whatever callback the map stores for the ticker's key at that moment;
      when the counter reaches zero, the entry for that key is torn down. */
  lemma FireEffect(s: State, t: TickerId)
    requires t < |s.tickers| && !s.tickers[t].cancelled
    ensures var r := Fire(s, t);
      var key := s.tickers[t].key;
      var count := s.tickers[t].count - 1;
      var counted := s.tickers[t := s.tickers[t].(count := count)];
      r.now == s.now && r.tickers[t].count == count &&
      r.tickers == (if count <= 0 && key in s.entries then Cancel(counted, s.entries[key].timer) else counted) &&
      (key !in s.entries ==> r.log == s.log && r.entries == s.entries) &&
      (key in s.entries ==> r.log == s.log + [Event(s.entries[key].callback, count, count <= 0)]) &&
      (count > 0 ==> r.entries == s.entries) &&
      (count <= 0 ==> r.entries == s.entries - {key})
  {
  }

  // ---------------------------------------------------------------------
  // The invariant is kept

  lemma StartCountDownPreservesValid(s: State, key: Key, endTime: int, callback: CallbackId)
    requires Valid(s)
    ensures Valid(StartCountDown(s, key, endTime, callback))
  {
  }

  lemma RemoveCountDownPreservesValid(s: State, key: Key)
    requires Valid(s)
    ensures Valid(RemoveCountDown(s, key))
  {
  }

  lemma HandleCallbackPreservesValid(s: State, key: Key, count: int, finished: bool)
    requires Valid(s)
    ensures Valid(HandleCallback(s, key, count, finished))
  {
  }

  lemma StartTimerPreservesValid(s: State, key: Key, count: int, callback: CallbackId)
    requires Valid(s)
    ensures Valid(StartTimer(s, key, count, callback))
  {
  }

  lemma StopTimerPreservesValid(s: State, key: Key)
    requires Valid(s)
    ensures Valid(StopTimer(s, key))
  {
  }

  lemma ContinueTimerPreservesValid(s: State, key: Key, callback: CallbackId)
    requires Valid(s)
    ensures Valid(ContinueTimer(s, key, callback))
  {
  }

  /** A fire keeps the invariant: a ticker that reaches zero is its key's
      ticker only if that key's entry is then torn down. */
  lemma FirePreservesValid(s: State, t: TickerId)
    requires Valid(s)
    ensures Valid(Fire(s, t))
  {
  }

  lemma AdvancePreservesValid(s: State, dt: nat)
    requires Valid(s)
    ensures Valid(Advance(s, dt))
  {
  }

  lemma ForegroundFromPreservesValid(s: State, keys: seq<Key>)
    requires Valid(s)
    ensures Valid(ForegroundFrom(s, keys))
    decreases |keys|
  {
    if keys != [] {
      if keys[0] in s.entries {
        ContinueTimerPreservesValid(s, keys[0], s.entries[keys[0]].callback);
      }
      ForegroundFromPreservesValid(ForegroundStep(s, keys[0]), keys[1..]);
    }
  }

  lemma OnForegroundPreservesValid(s: State)
    requires Valid(s)
    ensures Valid(OnForeground(s))
  {
    ForegroundFromPreservesValid(s, AllKeys);
  }

  // ---------------------------------------------------------------------
  // Ticking

  /** A ticker in step with the clock, fired once per second, reports the
      seconds left to the deadline, down to 0, and only the last report is
      finished; after that last report the entry is gone and the ticker is
      cancelled, so it reports nothing more. */
  lemma {:induction false} TicksReportRemaining(s: State, key: Key, t: TickerId, n: nat)
    requires InStep(s, key, t) && s.now <= s.entries[key].endTime
    requires n <= s.entries[key].endTime - s.now + 1
    ensures var r := Ticks(s, t, n);
      r.log == s.log + CountdownEvents(s.entries[key].callback, s.entries[key].endTime - s.now, n) &&
      (n == s.entries[key].endTime - s.now + 1 ==>
        key !in r.entries && IsFinished(r, key) && t < |r.tickers| && r.tickers[t].cancelled && Fire(r, t) == r) &&
      (n < s.entries[key].endTime - s.now + 1 ==> InStep(r, key, t) && r.entries[key] == s.entries[key])
    decreases n
  {
    if n > 0 {
      var info := s.entries[key];
      var left := info.endTime - s.now;
      var s1 := Fire(s, t);
      FireEffect(s, t);
      assert s1.log == s.log + [Event(info.callback, left, left <= 0)];
      var s2 := Advance(s1, 1);
      if left <= 0 {
        assert n == 1;
        assert Ticks(s, t, n) == Ticks(s2, t, 0) == s2;
      } else {
        assert s2.entries == s.entries;
        assert s2.tickers[t] == Ticker(key, left, false);
        assert InStep(s2, key, t);
        TicksReportRemaining(s2, key, t, n - 1);
        assert Ticks(s, t, n) == Ticks(s2, t, n - 1);
        assert CountdownEvents(info.callback, left, n)
            == [Event(info.callback, left, left <= 0)] + CountdownEvents(info.callback, left - 1, n - 1);
      }
    }
  }

  /** A countdown of `d >= 1` seconds, fired once per second, calls its
      callback with d, d-1, ..., 0 (finished only on 0), then reads as finished
      and its ticker fires no more; before its last fire it reads as running. */
  lemma StartThenCountdown(s: State, key: Key, d: int, callback: CallbackId, n: nat)
    requires d >= 1 && n <= d + 1
    ensures var started := StartTimer(s, key, d, callback);
      var r := Ticks(started, |s.tickers|, n);
      r.log == s.log + CountdownEvents(callback, d, n) &&
      (n == d + 1 <==> IsFinished(r, key)) &&
      (n == d + 1 ==> Fire(r, |s.tickers|) == r)
  {
    var started := StartTimer(s, key, d, callback);
    StartTimerLive(s, key, d, callback);
    TicksReportRemaining(started, key, |s.tickers|, n);
  }

  // ---------------------------------------------------------------------
  // The foreground hook

  /** Everything one slot can tell: presence, the entry, and the state of the entry's ticker. */
  predicate SlotUnchanged(s: State, r: State, key: Key)
  {
    (key in r.entries <==> key in s.entries) &&
    (key in s.entries ==>
      r.entries[key] == s.entries[key] &&
      (s.entries[key].timer.Some? && s.entries[key].timer.value < |s.tickers| ==>
        s.entries[key].timer.value < |r.tickers| &&
        r.tickers[s.entries[key].timer.value] == s.tickers[s.entries[key].timer.value]))
  }

  /** `r`'s log is `s`'s log with callbacks appended. */
  predicate LogExtends(s: State, r: State)
  {
    |s.log| <= |r.log| && r.log[..|s.log|] == s.log
  }

  /** Continue only ever appends to the log. */
  lemma ContinueExtendsLog(s: State, key: Key, callback: CallbackId)
    ensures LogExtends(s, ContinueTimer(s, key, callback))
  {
  }

  /** Continue only appends to the ticker table and never revives a cancelled ticker. */
  lemma ContinueKeepsCancelled(s: State, key: Key, callback: CallbackId)
    ensures var r := ContinueTimer(s, key, callback);
      |s.tickers| <= |r.tickers| &&
      forall t :: 0 <= t < |s.tickers| && s.tickers[t].cancelled ==> r.tickers[t].cancelled
  {
  }

  /** Continue on one key leaves every other key's slot as it was. */
  lemma ContinueLeavesOtherKeys(s: State, k: Key, key: Key, callback: CallbackId)
    requires Valid(s) && k != key
    ensures var r := ContinueTimer(s, k, callback);
      SlotUnchanged(s, r, key) && r.now == s.now
  {
  }

  /** The foreground hook visits both keys in declaration order and applies
      continue, with the stored callback, to exactly the keys that have an entry. */
  lemma OnForegroundVisitsInOrder(s: State)
    ensures OnForeground(s) == ForegroundStep(ForegroundStep(s, Test1), Test2)
    ensures Test1 !in s.entries && Test2 !in s.entries ==> OnForeground(s) == s
  {
  }

  /** A key without an entry keeps having none across the foreground hook. */
  lemma OnForegroundLeavesAbsentKeys(s: State, key: Key)
    requires Valid(s) && key !in s.entries
    ensures key !in OnForeground(s).entries
  {
  }

  /** The foreground hook re-derives a live key's ticker from its stored
      deadline: same deadline, same callback, and a fresh ticker in step with
      the clock; the key's previous ticker is cancelled and fires no more. */
  lemma OnForegroundResumes(s: State, key: Key)
    requires Valid(s) && key in s.entries && s.now < s.entries[key].endTime
    ensures var r := OnForeground(s);
      key in r.entries && r.entries[key].endTime == s.entries[key].endTime &&
      r.entries[key].callback == s.entries[key].callback && r.now == s.now &&
      r.entries[key].timer.Some? && InStep(r, key, r.entries[key].timer.value) &&
      r.entries[key].timer.value >= |s.tickers| &&
      (s.entries[key].timer.Some? ==>
        var prev := s.entries[key].timer.value;
        prev < |r.tickers| && r.tickers[prev].cancelled && Fire(r, prev) == r)
  {
    OnForegroundVisitsInOrder(s);
    var s1 := ForegroundStep(s, Test1);
    if key == Test1 {
      ContinueLive(s, key, s.entries[key].callback);
      ContinueTimerPreservesValid(s, key, s.entries[key].callback);
      if Test2 in s1.entries {
        ContinueLeavesOtherKeys(s1, Test2, key, s1.entries[Test2].callback);
        ContinueKeepsCancelled(s1, Test2, s1.entries[Test2].callback);
      }
    } else {
      if Test1 in s.entries {
        ContinueLeavesOtherKeys(s, Test1, key, s.entries[Test1].callback);
        ContinueTimerPreservesValid(s, Test1, s.entries[Test1].callback);
        ContinueKeepsCancelled(s, Test1, s.entries[Test1].callback);
      }
      ContinueLive(s1, key, s1.entries[key].callback);
    }
  }

  /** When no entry has expired, the foreground hook re-derives every ticker
      without calling any callback. */
  lemma OnForegroundQuietWhenLive(s: State)
    requires Valid(s) && forall k :: k in s.entries ==> s.now < s.entries[k].endTime
    ensures OnForeground(s).log == s.log
  {
    OnForegroundVisitsInOrder(s);
    var s1 := ForegroundStep(s, Test1);
    if Test1 in s.entries {
      ContinueLive(s, Test1, s.entries[Test1].callback);
      if Test2 in s.entries {
        ContinueLeavesOtherKeys(s, Test1, Test2, s.entries[Test1].callback);
      }
    }
    if Test2 in s1.entries {
      ContinueLive(s1, Test2, s1.entries[Test2].callback);
    }
  }

  /** Across both foreground steps, an expired key's continue delivers `(0, true)` to its stored callback. */
  lemma ExpiredForegroundDelivers(s: State, key: Key)
    requires Valid(s) && key in s.entries && s.now >= s.entries[key].endTime
    ensures var r := ForegroundStep(ForegroundStep(s, Test1), Test2);
      LogExtends(s, r) && Event(s.entries[key].callback, 0, true) in r.log[|s.log|..]
  {
    var event := Event(s.entries[key].callback, 0, true);
    var s1 := ForegroundStep(s, Test1);
    var r := ForegroundStep(s1, Test2);
    if Test1 in s.entries { ContinueExtendsLog(s, Test1, s.entries[Test1].callback); }
    if Test2 in s1.entries { ContinueExtendsLog(s1, Test2, s1.entries[Test2].callback); }
    if key == Test1 {
      ContinueExpired(s, key, s.entries[key].callback);
      assert r.log[..|s1.log|] == s1.log;
      assert r.log[|s.log|..][0] == event;
    } else {
      if Test1 in s.entries {
        ContinueLeavesOtherKeys(s, Test1, key, s.entries[Test1].callback);
      }
      ContinueExpired(s1, key, s1.entries[key].callback);
      assert r.log[..|s.log|] == s1.log[..|s.log|];
      assert r.log[|s.log|..] == s1.log[|s.log|..] + [event];
    }
  }

  /** The foreground hook drops an expired key, and its stored callback gets `(0, true)`. */
  lemma OnForegroundDropsExpired(s: State, key: Key)
    requires Valid(s) && key in s.entries && s.now >= s.entries[key].endTime
    ensures var r := OnForeground(s);
      key !in r.entries &&
      |s.log| <= |r.log| && Event(s.entries[key].callback, 0, true) in r.log[|s.log|..]
  {
    OnForegroundVisitsInOrder(s);
    ExpiredForegroundDelivers(s, key);
  }

  /** Resuming after `n` seconds of suspension restarts from the absolute
      deadline: a `d`-second countdown then reports d - n, d - n - 1, ..., 0. */
  lemma ResumeAfterSuspension(s: State, key: Key, d: int, callback: CallbackId, n: nat)
    requires Valid(s) && n < d
    ensures var r := OnForeground(Advance(StartTimer(s, key, d, callback), n));
      key in r.entries && r.entries[key].timer.Some? &&
      Ticks(r, r.entries[key].timer.value, d - n + 1).log == r.log + CountdownEvents(callback, d - n, d - n + 1)
  {
    var started := StartTimer(s, key, d, callback);
    StartTimerLive(s, key, d, callback);
    StartTimerPreservesValid(s, key, d, callback);
    var later := Advance(started, n);
    OnForegroundResumes(later, key);
    var r := OnForeground(later);
    TicksReportRemaining(r, key, r.entries[key].timer.value, d - n + 1);
  }

  /** Start on a key that is already counting down does not cancel the old
      ticker: it keeps firing, delivers its own count to the NEW callback, and
      when it finishes it tears down the new entry. A later stop does not
      cancel it either: it goes on counting, silently while the key has no
      entry, and its count reaches whatever callback the key holds next. */
  lemma RestartLeavesOldTickerRunning(s: State, key: Key, count: int, callback: CallbackId)
    requires Valid(s) && key in s.entries && s.entries[key].timer.Some? && count > 0
    ensures var oldTicker := s.entries[key].timer.value;
      var r := StartTimer(s, key, count, callback);
      var left := s.tickers[oldTicker].count - 1;
      oldTicker < |r.tickers| && !r.tickers[oldTicker].cancelled &&
      Fire(r, oldTicker).log == r.log + [Event(callback, left, left <= 0)] &&
      (left <= 0 ==> key !in Fire(r, oldTicker).entries) &&
      var stopped := StopTimer(r, key);
      oldTicker < |stopped.tickers| && !stopped.tickers[oldTicker].cancelled &&
      Fire(stopped, oldTicker).log == stopped.log &&
      Fire(stopped, oldTicker).tickers[oldTicker].count == left
  {
  }
}
