/** The Swift_Demo copy's `CountdownTimer` singleton as a class whose methods
    update its fields in place, each proved against the matching function of
    `SwiftDemoModel`. */
module SwiftDemoTimer {
  import opened Countdown
  import Model = SwiftDemoModel

  class CountdownTimer {
    /** `countDowns` */
    var entries: map<Key, Info>
    /** Every ticker created so far, indexed by handle. */
    var tickers: seq<Model.Ticker>
    /** The wall clock, in whole seconds. */
    var now: int
    /** The callback invocations delivered so far. */
    var log: seq<Event>
    /** Set when a path leaves `lock` locked. */
    var lockHeld: bool

    function St(): Model.State
      reads this
    {
      Model.State(entries, tickers, now, log)
    }

    /** The registry invariant, and the lock is free between operations. */
    predicate Valid()
      reads this
    {
      Model.Valid(St()) && !lockHeld
    }

    /** `init`, starting the clock at `clock` (the foreground observer is not modelled). */
    constructor (clock: int)
      ensures Valid() && St() == Model.State(map[], [], clock, [])
    {
      entries, tickers, now, log, lockHeld := map[], [], clock, [], false;
    }

    // -------------------------------------------------------------------
    // Helpers

    method AddCountDown(key: Key, info: Info)
      modifies this
      ensures St() == Model.AddCountDown(old(St()), key, info) && lockHeld == old(lockHeld)
    {
      entries := entries[key := info];
    }

    method RemoveCountDown(key: Key)
      modifies this
      ensures St() == Model.RemoveCountDown(old(St()), key) && lockHeld == old(lockHeld)
    {
      if key in entries {
        var timer := entries[key].timer;
        if timer.Some? && timer.value < |tickers| {
          tickers := tickers[timer.value := tickers[timer.value].(cancelled := true)];
        }
        entries := entries - {key};
      }
    }

    method HandleCallback(key: Key, count: int, finished: bool)
      modifies this
      ensures St() == Model.HandleCallback(old(St()), key, count, finished) && lockHeld == old(lockHeld)
    {
      if key !in entries {
        return;
      }
      log := log + [Event(entries[key].callback, count, finished)];
      if finished {
        RemoveCountDown(key);
      }
    }

    /** The early return for a missing entry leaves the lock held. `NSLock` is
        not re-entrant, so the program's next `lock()` would block there; the
        model records the leak in `lockHeld` and goes on. */
    method CreateCountDownTimer(key: Key) returns (timer: Option<TickerId>)
      modifies this
      ensures (St(), timer) == Model.CreateCountDownTimer(old(St()), key)
      ensures lockHeld == (old(lockHeld) || key !in old(entries))
    {
      if key !in entries {
        lockHeld := true;
        return None;
      }
      var endTime := entries[key].endTime;
      if now >= endTime {
        HandleCallback(key, 0, true);
        return None;
      }
      timer := Some(|tickers|);
      tickers := tickers + [Model.Ticker(key, endTime - now + 1, false)];
    }

    method LaunchTimer(key: Key, info: Info)
      modifies this
      ensures St() == Model.LaunchTimer(old(St()), key, info)
      ensures lockHeld == (old(lockHeld) || key !in old(entries))
    {
      var timer := CreateCountDownTimer(key);
      AddCountDown(key, info.(timer := timer));
    }

    /** The entry is written before the ticker is created, so the lock is never left held. */
    method StartCountDown(key: Key, endTime: int, callback: CallbackId)
      modifies this
      ensures St() == Model.StartCountDown(old(St()), key, endTime, callback)
      ensures lockHeld == old(lockHeld)
    {
      var info := Info(None, endTime, callback);
      AddCountDown(key, info);
      LaunchTimer(key, info);
    }

    // -------------------------------------------------------------------
    // Public operations

    method StartTimer(key: Key, count: int, callback: CallbackId)
      requires Valid()
      modifies this
      ensures Valid() && St() == Model.StartTimer(old(St()), key, count, callback)
    {
      Model.StartTimerPreservesValid(St(), key, count, callback);
      StartCountDown(key, count + now, callback);
    }

    method StopTimer(key: Key)
      requires Valid()
      modifies this
      ensures Valid() && St() == Model.StopTimer(old(St()), key)
    {
      Model.StopTimerPreservesValid(St(), key);
      HandleCallback(key, 0, true);
    }

    method ContinueTimer(key: Key, callback: CallbackId)
      requires Valid()
      modifies this
      ensures Valid() && St() == Model.ContinueTimer(old(St()), key, callback)
    {
      Model.ContinueTimerPreservesValid(St(), key, callback);
      var countEndTime := if key in entries then Some(entries[key].endTime) else None;
      if countEndTime.None? || now >= countEndTime.value {
        HandleCallback(key, 0, true);
        return;
      }
      RemoveCountDown(key);
      StartCountDown(key, countEndTime.value, callback);
    }

    method IsFinishedTimer(key: Key) returns (finished: bool)
      requires Valid()
      ensures finished == Model.IsFinished(St(), key)
      ensures finished <==> key !in entries || entries[key].timer.None?
    {
      Model.IsFinishedIff(St(), key);
      finished := true;
      if key in entries {
        match entries[key].timer
        case None =>
        case Some(t) => finished := tickers[t].cancelled;
      }
    }

    method WillEnterForeground()
      requires Valid()
      modifies this
      ensures Valid() && St() == Model.OnForeground(old(St()))
    {
      for i := 0 to |AllKeys|
        invariant Valid()
        invariant Model.ForegroundFrom(St(), AllKeys[i..]) == Model.OnForeground(old(St()))
      {
        var key := AllKeys[i];
        assert AllKeys[i..][1..] == AllKeys[i + 1..];
        if key in entries {
          ContinueTimer(key, entries[key].callback);
        }
      }
    }

    /** One fire of ticker `t`'s event handler, with the main-queue delivery made at once. */
    method Fire(t: TickerId)
      requires Valid()
      modifies this
      ensures Valid() && St() == Model.Fire(old(St()), t)
    {
      Model.FirePreservesValid(St(), t);
      if t >= |tickers| || tickers[t].cancelled {
        return;
      }
      var ticker := tickers[t];
      var count := ticker.count - 1;
      tickers := tickers[t := ticker.(count := count)];
      HandleCallback(ticker.key, count, count <= 0);
    }

    method Advance(dt: nat)
      requires Valid()
      modifies this
      ensures Valid() && St() == Model.Advance(old(St()), dt)
    {
      now := now + dt;
    }
  }
}
