/** The CountdownTimerDemo copy's `CountdownTimer` singleton as a class whose methods
    update its fields in place, each proved against the matching function of
    `RootDemoModel`. */
module RootDemoTimer {
  import opened Countdown
  import Model = RootDemoModel

  class CountdownTimer {
    /** `countDowns` */
    var entries: map<Key, Info>
    /** Every ticker created so far, indexed by handle. */
    var tickers: seq<Model.Ticker>
    /** The wall clock, in whole seconds. */
    var now: int
    /** The callback invocations delivered so far. */
    var log: seq<Event>

    function St(): Model.State
      reads this
    {
      Model.State(entries, tickers, now, log)
    }

    /** The registry invariant. */
    predicate Valid()
      reads this
    {
      Model.Valid(St())
    }

    /** `init`, starting the clock at `clock` (the foreground observer is not modelled). */
    constructor (clock: int)
      ensures Valid() && St() == Model.State(map[], [], clock, [])
    {
      entries, tickers, now, log := map[], [], clock, [];
    }

    // -------------------------------------------------------------------
    // Helpers

    method AddCountDown(key: Key, info: Info)
      modifies this
      ensures St() == Model.AddCountDown(old(St()), key, info)
    {
      entries := entries[key := info];
    }

    method RemoveCountDown(key: Key)
      modifies this
      ensures St() == Model.RemoveCountDown(old(St()), key)
    {
      if key in entries {
        var timer := entries[key].timer;
        if timer.Some? && timer.value < |tickers| {
          tickers := tickers[timer.value := tickers[timer.value].(cancelled := true)];
        }
        entries := entries - {key};
      }
    }

    method CreateCountDownTimer(key: Key) returns (timer: Option<TickerId>)
      modifies this
      ensures (St(), timer) == Model.CreateCountDownTimer(old(St()), key)
    {
      if key !in entries {
        return None;
      }
      var callback := entries[key].callback;
      var endTime := entries[key].endTime;
      if now >= endTime {
        log := log + [Event(callback, 0, true)];
        return None;
      }
      timer := Some(|tickers|);
      tickers := tickers + [Model.Ticker(key, endTime - now + 1, false, callback)];
    }

    method LaunchTimer(key: Key, info: Info)
      modifies this
      ensures St() == Model.LaunchTimer(old(St()), key, info)
    {
      var timer := CreateCountDownTimer(key);
      AddCountDown(key, info.(timer := timer));
    }

    method StartCountDown(key: Key, endTime: int, callback: CallbackId)
      modifies this
      ensures St() == Model.StartCountDown(old(St()), key, endTime, callback)
    {
      var info := Info(None, endTime, callback);
      AddCountDown(key, info);
      LaunchTimer(key, info);
    }

    // -------------------------------------------------------------------
    // Public operations

    method StartTimer(key: Key, count: int, callback: CallbackId)
      requires Valid()
      modifies this
      ensures Valid() && St() == Model.StartTimer(old(St()), key, count, callback)
    {
      Model.StartTimerPreservesValid(St(), key, count, callback);
      StartCountDown(key, count + now, callback);
    }

    method StopTimer(key: Key)
      requires Valid()
      modifies this
      ensures Valid() && St() == Model.StopTimer(old(St()), key)
    {
      Model.StopTimerPreservesValid(St(), key);
      RemoveCountDown(key);
    }

    method ContinueTimer(key: Key, callback: CallbackId)
      requires Valid()
      modifies this
      ensures Valid() && St() == Model.ContinueTimer(old(St()), key, callback)
    {
      Model.ContinueTimerPreservesValid(St(), key, callback);
      if key !in entries {
        log := log + [Event(callback, 0, true)];
        return;
      }
      var endTime := entries[key].endTime;
      RemoveCountDown(key);
      StartCountDown(key, endTime, callback);
    }

    method IsFinishedTimer(key: Key) returns (finished: bool)
      requires Valid()
      ensures finished == Model.IsFinished(St(), key)
      ensures finished <==> key !in entries || entries[key].timer.None?
    {
      Model.IsFinishedIff(St(), key);
      finished := true;
      if key in entries {
        match entries[key].timer
        case None =>
        case Some(t) => finished := tickers[t].cancelled;
      }
    }

    method WillEnterForeground()
      requires Valid()
      modifies this
      ensures Valid() && St() == Model.OnForeground(old(St()))
    {
      for i := 0 to |AllKeys|
        invariant Valid()
        invariant Model.ForegroundFrom(St(), AllKeys[i..]) == Model.OnForeground(old(St()))
      {
        var key := AllKeys[i];
        assert AllKeys[i..][1..] == AllKeys[i + 1..];
        if key in entries {
          ContinueTimer(key, entries[key].callback);
        }
      }
    }

    /** One fire of ticker `t`'s event handler, with the main-queue delivery made at once. */
    method Fire(t: TickerId)
      requires Valid()
      modifies this
      ensures Valid() && St() == Model.Fire(old(St()), t)
    {
      Model.FirePreservesValid(St(), t);
      if t >= |tickers| || tickers[t].cancelled {
        return;
      }
      var ticker := tickers[t];
      var count := ticker.count - 1;
      tickers := tickers[t := ticker.(count := count)];
      log := log + [Event(ticker.callback, count, count <= 0)];
      if count <= 0 {
        RemoveCountDown(ticker.key);
      }
    }

    method Advance(dt: nat)
      requires Valid()
      modifies this
      ensures Valid() && St() == Model.Advance(old(St()), dt)
    {
      now := now + dt;
    }
  }
}
