/**
 * The blocking sliding-window rate limiter of the client: at most `limit`
 * admissions per window of one time unit. The clock is a parameter: each
 * method receives the instant `now` that `System.nanoTime()` would return.
 */
module RateLimiting {
  import opened Wrappers
  import opened Ledger

  /** The units a limiter can be built with; the window is one of them. */
  datatype TimeUnit = Nanoseconds | Microseconds | Milliseconds | Seconds | Minutes | Hours | Days

  /** `unit.toNanos(1)`: the length of one unit in nanoseconds. */
  function NanosIn(unit: TimeUnit): (n: int)
    ensures n >= 1
  {
    match unit
    case Nanoseconds => 1
    case Microseconds => 1_000
    case Milliseconds => 1_000_000
    case Seconds => 1_000_000_000
    case Minutes => 60 * 1_000_000_000
    case Hours => 3_600 * 1_000_000_000
    case Days => 86_400 * 1_000_000_000
  }

  /** Why construction is refused (the two `IllegalArgumentException`s). */
  datatype ConfigError = LimitNotPositive | UnitMissing

  /** The outcome of one pass of the admission loop. */
  datatype Attempt =
    | Admitted                // a slot was free: `now` was recorded
    | Wait(nanos: int)        // the ledger is full: park for at most `nanos`
    | Retry                   // the computed wait was not positive: evaluate again at once

  class RateLimiter {
    const limit: int
    const windowNanos: int
    /** The deque of admission instants, oldest first. */
    var timestamps: seq<int>
    /** Every instant ever admitted, oldest first. */
    ghost var admitted: seq<int>

    ghost predicate Valid()
      reads this
    {
      && limit > 0 && windowNanos > 0
      && |timestamps| <= limit
      && IsTail(timestamps, admitted)
    }

    /** The ledger and the history are consistent with a clock that reads `now`. */
    ghost predicate SoundAt(now: int)
      reads this
    {
      Sound(admitted, timestamps, limit, windowNanos, now)
    }

    constructor (limit: int, windowNanos: int)
      requires limit > 0 && windowNanos > 0
      ensures Valid()
      ensures this.limit == limit && this.windowNanos == windowNanos
      ensures timestamps == [] && admitted == []
    {
      this.limit := limit;
      this.windowNanos := windowNanos;
      timestamps := [];
      admitted := [];
    }

    /**
     * `new RateLimiter(limit, unit)`: refuses a non-positive limit first and a
     * missing unit second; otherwise an empty limiter whose window is one unit.
     */
    static method Create(limit: int, unit: Option<TimeUnit>) returns (r: Result<RateLimiter, ConfigError>)
      ensures limit <= 0 ==> r == Failure(LimitNotPositive)
      ensures limit > 0 && unit.None? ==> r == Failure(UnitMissing)
      ensures limit > 0 && unit.Some? ==> r.Success?
      ensures r.Success? ==> var l := r.value;
        && fresh(l) && l.Valid()
        && l.limit == limit && l.windowNanos == NanosIn(unit.value)
        && l.timestamps == [] && l.admitted == []
        && forall t :: l.SoundAt(t)
    {
      if limit <= 0 {
        return Failure(LimitNotPositive);
      }
      if unit.None? {
        return Failure(UnitMissing);
      }
      var l := new RateLimiter(limit, NanosIn(unit.value));
      return Success(l);
    }

    /**
     * `trim(now)`: drops expired entries from the head only and reports whether
     * it dropped any (the cue to wake the parked callers).
     */
    method Trim(now: int) returns (signalled: bool)
      requires Valid()
      modifies this`timestamps
      ensures Valid()
      ensures timestamps == Trimmed(old(timestamps), now, windowNanos)
      ensures signalled <==> |timestamps| < |old(timestamps)|
      ensures old(SoundAt(now)) ==> SoundAt(now)
    {
      ghost var start := timestamps;
      ghost var sound := SoundAt(now);
      var removed := 0;
      while timestamps != []
        invariant 0 <= removed <= |start|
        invariant timestamps == start[removed..]
        invariant Valid()
        invariant Trimmed(timestamps, now, windowNanos) == Trimmed(start, now, windowNanos)
      {
        var ts := timestamps[0];
        if now - ts >= windowNanos {
          timestamps := timestamps[1..];
          removed := removed + 1;
          TailOfTail(admitted, start, timestamps);
        } else {
          break;
        }
      }
      signalled := removed > 0;
      if sound {
        SoundAfterTrim(admitted, start, limit, windowNanos, now);
      }
    }

    /**
     * One pass of the loop in `acquire()` at instant `now`: trim, then admit
     * when fewer than `limit` entries remain, otherwise compute the wait from
     * the oldest remaining entry.
     */
    method TryAcquire(now: int) returns (r: Attempt)
      requires Valid()
      modifies this
      ensures Valid()
      ensures r.Admitted? <==> |Trimmed(old(timestamps), now, windowNanos)| < limit
      ensures r.Admitted? ==> timestamps == Trimmed(old(timestamps), now, windowNanos) + [now] && admitted == old(admitted) + [now]
      ensures !r.Admitted? ==> timestamps == Trimmed(old(timestamps), now, windowNanos) && admitted == old(admitted)
      ensures r.Wait? ==> r.nanos == windowNanos - (now - timestamps[0]) > 0
      ensures r.Retry? ==> timestamps != [] && windowNanos - (now - timestamps[0]) <= 0
      ensures old(SoundAt(now)) ==>
        && SoundAt(now)
        && !r.Retry?
        && (r.Wait? ==> r.nanos <= windowNanos)
        && forall start :: CountWithin(admitted, start, windowNanos) <= limit
    {
      ghost var sound := SoundAt(now);
      var signalled := Trim(now);
      if |timestamps| < limit {
        if sound {
          SoundAfterAdmit(admitted, timestamps, limit, windowNanos, now);
        }
        timestamps := timestamps + [now];
        admitted := admitted + [now];
        r := Admitted;
      } else {
        var oldest := timestamps[0];
        var waitNanos := windowNanos - (now - oldest);
        if sound {
          WaitWithinWindow(timestamps, now, windowNanos);
          assert Trimmed(timestamps, now, windowNanos) == timestamps;
        }
        if waitNanos <= 0 {
          r := Retry;
        } else {
          r := Wait(waitNanos);
        }
      }
      if sound {
        SoundBoundsWindows(admitted, timestamps, limit, windowNanos, now);
      }
    }

    /**
     * One pass of the `for (;;)` body of `acquire()` at reading `now`, on a
     * ledger that is `base` trimmed at an earlier reading `prev`: the ledger
     * ends up as `base` trimmed at `now`, plus `now` exactly when that left
     * fewer than `limit` entries, which is when the caller is granted.
     */
    method Pass(now: int, ghost base: seq<int>, ghost prev: int) returns (granted: bool)
      requires Valid() && prev <= now && timestamps == Trimmed(base, prev, windowNanos)
      modifies this
      ensures Valid()
      ensures granted <==> |Trimmed(base, now, windowNanos)| < limit
      ensures granted ==> timestamps == Trimmed(base, now, windowNanos) + [now] && admitted == old(admitted) + [now]
      ensures !granted ==> timestamps == Trimmed(base, now, windowNanos) && admitted == old(admitted)
      ensures Trimmed(old(timestamps), now, windowNanos) == Trimmed(base, now, windowNanos)
    {
      TrimmedTwice(base, prev, now, windowNanos);
      var r := TryAcquire(now);
      granted := r.Admitted?;
    }

    /**
     * `acquire()`: repeats the pass of `tryAcquire` until a slot is granted.
     * `readings` are the successive values a monotonic clock gives the loop,
     * one per pass (after each park or immediate retry), and the ledger is
     * consistent with the first of them. The result is the instant of the
     * grant: the first reading at which the ledger, trimmed at that reading,
     * held fewer than `limit` entries. It is None when the readings run out
     * first (the caller is still parked, or was interrupted): then nothing was
     * recorded, the ledger is trimmed at the last reading, and all readings
     * lay within one window of the first. Either way no window of the history
     * holds more than `limit` admissions.
     */
    method Acquire(readings: seq<int>) returns (grantedAt: Option<int>)
      requires Valid()
      requires Sorted(readings) && (readings != [] ==> SoundAt(readings[0]))
      modifies this
      ensures Valid()
      ensures readings != [] ==> SoundAt(readings[|readings| - 1])
      ensures grantedAt.None? ==> admitted == old(admitted) && IsTail(timestamps, old(timestamps))
      ensures grantedAt.Some? ==> admitted == old(admitted) + [grantedAt.value]
      ensures var k := FirstRoom(old(timestamps), readings, 0, limit, windowNanos);
        && (grantedAt.Some? <==> k < |readings|)
        && (grantedAt.Some? ==> grantedAt.value == readings[k] && timestamps == Trimmed(old(timestamps), readings[k], windowNanos) + [readings[k]])
        && (grantedAt.None? && readings != [] ==> timestamps == Trimmed(old(timestamps), readings[|readings| - 1], windowNanos))
      ensures readings == [] ==> grantedAt.None? && timestamps == old(timestamps)
      ensures (exists k :: 0 <= k < |readings| && readings[k] - readings[0] >= windowNanos) ==> grantedAt.Some?
      ensures readings != [] ==> forall start :: CountWithin(admitted, start, windowNanos) <= limit
    {
      ghost var base, history := timestamps, admitted;
      if readings == [] {
        return None;
      }
      ghost var prev := Untouched(base, readings[0], windowNanos);
      var i := 0;
      while i < |readings|
        invariant 0 <= i <= |readings|
        invariant Valid()
        invariant admitted == history
        invariant timestamps == Trimmed(base, prev, windowNanos)
        invariant i < |readings| ==> prev <= readings[i]
        invariant i > 0 ==> prev == readings[i - 1]
        invariant FirstRoom(base, readings, i, limit, windowNanos) == FirstRoom(base, readings, 0, limit, windowNanos)
      {
        var now := readings[i];
        var granted := Pass(now, base, prev);
        if granted {
          assert SoundAt(readings[|readings| - 1]) && forall start :: CountWithin(admitted, start, windowNanos) <= limit by {
            SoundAfterGrant(history, base, limit, windowNanos, readings[0], now, readings[|readings| - 1]);
            SoundBoundsWindows(admitted, timestamps, limit, windowNanos, readings[|readings| - 1]);
          }
          return Some(now);
        }
        prev := now;
        i := i + 1;
      }
      assert SoundAt(readings[|readings| - 1]) && forall start :: CountWithin(admitted, start, windowNanos) <= limit by {
        SoundAfterLaterTrim(history, base, limit, windowNanos, readings[0], prev);
        SoundBoundsWindows(admitted, timestamps, limit, windowNanos, readings[|readings| - 1]);
      }
      assert forall k :: 0 <= k < |readings| ==> readings[k] - readings[0] < windowNanos by {
        NotAfterTail(base, history, readings[0]);
        NoRoomWithinWindow(base, readings, limit, windowNanos);
      }
      assert IsTail(timestamps, base) by {
        TrimmedIsTail(base, prev, windowNanos);
      }
      return None;
    }
  }
}
