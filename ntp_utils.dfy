/**
 * The clock-offset synchroniser of ntp_utils.py.
 *
 * The NTP request is not modelled: each method that may contact the time
 * server takes the reply it would get as an `Option<real>` (`None` when the
 * request raises, `Some(offset)` with the offset the server reports).  The
 * local clock (`time.time()`) is a parameter, and a sleep is returned as the
 * duration the method would sleep for (`None` when it does not sleep).
 */
module NtpUtils {
  import opened Wrappers

  /** The server a synchroniser uses unless told otherwise. */
  const DefaultServer: string := "pool.ntp.org"

  /**
   * The sleep that waiting from `now` until `target` takes: the positive
   * difference, or no sleep at all when `target` is not in the future.
   */
  function SleepFor(target: real, now: real): (d: Option<real>)
    ensures d.Some? <==> now < target
    ensures d.Some? ==> d.value > 0.0 && now + d.value == target
  {
    var delta := target - now;
    if delta > 0.0 then Some(delta) else None
  }

  class TimeSynchronizer {
    const server: string
    var offset: real
    var synced: bool
    /** Every NTP request made so far, by the reply it got, oldest first. */
    ghost var replies: seq<Option<real>>

    /** An unsynchronised clock applies no correction. */
    ghost predicate Valid()
      reads this
    {
      !synced ==> offset == 0.0
    }

    constructor (server: string := DefaultServer)
      ensures Valid()
      ensures this.server == server && offset == 0.0 && !synced
      ensures replies == []
    {
      this.server := server;
      offset := 0.0;
      synced := false;
      replies := [];
    }

    /**
     * One request to the time server: a reply stores its offset and marks
     * the clock synchronised; a failed request resets to no correction.
     */
    method Sync(reply: Option<real>)
      modifies this
      ensures Valid()
      ensures synced <==> reply.Some?
      ensures offset == reply.GetOr(0.0)
      ensures replies == old(replies) + [reply]
    {
      replies := replies + [reply];
      match reply
      case Some(o) =>
        offset := o;
        synced := true;
      case None =>
        offset := 0.0;
        synced := false;
    }

    /**
     * The corrected time.  A synchronised clock is read without contacting
     * the server; an unsynchronised one makes exactly one request first,
     * whatever its outcome, and then uses whatever offset that left.
     */
    method GetTime(reply: Option<real>, localNow: real) returns (now: real)
      modifies this
      ensures Valid()
      ensures now == localNow + offset
      ensures old(synced) ==> unchanged(this)
      ensures !old(synced) ==> synced == reply.Some? && offset == reply.GetOr(0.0)
      ensures !old(synced) ==> replies == old(replies) + [reply]
    {
      if !synced {
        Sync(reply);
      }
      now := localNow + offset;
    }

    /**
     * Sleeps until the corrected clock reaches `target`: the sleep lasts
     * exactly the remaining time when that is positive, and there is none
     * otherwise.  Reading the corrected clock may synchronise first.
     */
    method SleepUntil(target: real, reply: Option<real>, localNow: real) returns (slept: Option<real>)
      modifies this
      ensures Valid()
      ensures slept == SleepFor(target, localNow + offset)
      ensures slept.Some? ==> localNow + offset + slept.value == target
      ensures old(synced) ==> unchanged(this)
      ensures !old(synced) ==> synced == reply.Some? && offset == reply.GetOr(0.0)
      ensures !old(synced) ==> replies == old(replies) + [reply]
    {
      var current := GetTime(reply, localNow);
      slept := SleepFor(target, current);
    }
  }

  /**
   * The clock degrades to the local clock when the server cannot be reached:
   * a fresh synchroniser whose first request fails reads the local clock
   * unchanged and is still unsynchronised.
   */
  method UnreachableServerFallsBackToLocalClock(localNow: real) returns (now: real)
    ensures now == localNow
  {
    var clock := new TimeSynchronizer();
    now := clock.GetTime(None, localNow);
    assert !clock.synced && clock.offset == 0.0;
  }

  /**
   * Once a request has succeeded, later readings reuse its offset: the
   * second reading ignores the reply it is offered and is shifted from the
   * local clock by the same amount as the first.
   */
  method SyncedClockKeepsItsOffset(reply: real, localFirst: real, later: Option<real>, localSecond: real)
    returns (first: real, second: real)
    ensures first - localFirst == reply && second - localSecond == reply
    ensures localFirst <= localSecond ==> first <= second
  {
    var clock := new TimeSynchronizer();
    first := clock.GetTime(Some(reply), localFirst);
    second := clock.GetTime(later, localSecond);
    assert clock.replies == [Some(reply)];
  }
}
