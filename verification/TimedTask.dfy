/** `TimedTask::isDue`: a periodic task against a 32-bit clock that rolls over. */
module TimedTasks {
  import opened Words

  const CLOCK_RANGE := 0x1_0000_0000

  /** The decision on 32-bit values. */
  predicate Due(previous: u32, interval: u32, now: u32) { Wrap32(now - previous) >= interval }

  class TimedTask {
    var active: bool
    var previous: u32
    var interval: u32

    constructor (interval: u32)
      ensures active && previous == 0 && this.interval == interval
    {
      active, previous, this.interval := true, 0, interval;
    }

    constructor Configured(previous: u32, interval: u32, enable: bool)
      ensures active == enable && this.previous == previous && this.interval == interval
    {
      active, this.previous, this.interval := enable, previous, interval;
    }

    method Reset(now: u32)
      modifies this`previous
      ensures previous == now
    {
      previous := now;
    }

    /** Due exactly when the 32-bit elapsed time reaches the interval; the rollover branch adds nothing. */
    method IsDue(now: u32) returns (due: bool)
      modifies this`previous
      ensures due == (active && Due(old(previous), interval, now))
      ensures previous == if due then now else old(previous)
    {
      if !active {
        return false;
      }
      due := Wrap32(now - previous) >= interval;
      if !due && now < previous {
        var elapsed := Wrap32(0xFFFF_FFFF - previous + now + 1);
        RolloverElapsed(previous, now);
        if elapsed >= interval {
          due := true;
        }
      }
      if due {
        previous := now;
      }
    }

    /** Polling at the given true times; the clock shows each of them modulo 2^32. */
    method Poll(times: seq<nat>) returns (fires: seq<bool>)
      requires active
      modifies this`previous
      ensures fires == Fires(old(previous), interval, times)
      ensures previous == Previous(old(previous), interval, times)
    {
      fires := [];
      for i := 0 to |times|
        invariant fires == Fires(old(previous), interval, times[..i])
        invariant previous == Previous(old(previous), interval, times[..i])
      {
        assert times[..i + 1][..i] == times[..i];
        var due := IsDue(Wrap32(times[i]));
        fires := fires + [due];
      }
      assert times[..|times|] == times;
    }
  }

  /** The rollover branch recomputes the value just tested, so it never fires. */
  lemma RolloverElapsed(previous: u32, now: u32)
    requires now < previous
    ensures Wrap32(0xFFFF_FFFF - previous + now + 1) == Wrap32(now - previous)
  {
  }

  // ---------- What the code does over a run of polls ----------

  function Previous(p: u32, interval: u32, times: seq<nat>): u32 {
    if times == [] then p
    else
      var q, now := Previous(p, interval, times[..|times| - 1]), Wrap32(times[|times| - 1]);
      if Due(q, interval, now) then now else q
  }

  function Fires(p: u32, interval: u32, times: seq<nat>): seq<bool> {
    if times == [] then []
    else
      var before := times[..|times| - 1];
      Fires(p, interval, before) + [Due(Previous(p, interval, before), interval, Wrap32(times[|times| - 1]))]
  }

  // ---------- What a clock that never rolls over would do ----------

  /** The true time of the last firing; `start` if there was none. */
  function LastFiring(start: nat, interval: u32, times: seq<nat>): int {
    if times == [] then start
    else
      var last, now := LastFiring(start, interval, times[..|times| - 1]), times[|times| - 1];
      if now - last >= interval then now else last
  }

  function TrueFires(start: nat, interval: u32, times: seq<nat>): seq<bool> {
    if times == [] then []
    else
      var before := times[..|times| - 1];
      TrueFires(start, interval, before) + [times[|times| - 1] - LastFiring(start, interval, before) >= interval]
  }

  /** The time of the poll before the last one, or the start. */
  function LastPoll(start: nat, times: seq<nat>): nat {
    if times == [] then start else times[|times| - 1]
  }

  /** Polls go forward in time and each gap leaves room for the interval below 2^32. */
  predicate Punctual(start: nat, interval: u32, times: seq<nat>) {
    times == [] ||
    (Punctual(start, interval, times[..|times| - 1])
     && 0 <= times[|times| - 1] - LastPoll(start, times[..|times| - 1]) <= CLOCK_RANGE - interval)
  }

  lemma WrapDifference(now: int, last: int)
    requires 0 <= now - last < CLOCK_RANGE
    ensures Wrap32(Wrap32(now) - Wrap32(last)) == now - last
  {
    QuotientIs(Wrap32(now) - Wrap32(last), CLOCK_RANGE, last / CLOCK_RANGE - now / CLOCK_RANGE, now - last);
  }

  /** Between firings less than the interval has passed at every poll. */
  lemma {:induction false} LastFiringBound(start: nat, interval: u32, times: seq<nat>)
    requires Punctual(start, interval, times)
    ensures var last, poll := LastFiring(start, interval, times), LastPoll(start, times);
      last <= poll && (last == poll || poll - last < interval)
  {
    if times != [] { LastFiringBound(start, interval, times[..|times| - 1]); }
  }

  /** Rollover is invisible: a punctually polled task fires exactly when the true time since its last firing reaches
      the interval, for ever. */
  lemma {:induction false} RolloverCorrect(start: nat, interval: u32, times: seq<nat>)
    requires Punctual(start, interval, times)
    ensures Fires(Wrap32(start), interval, times) == TrueFires(start, interval, times)
    ensures Previous(Wrap32(start), interval, times) == Wrap32(LastFiring(start, interval, times))
  {
    if times != [] {
      var before, now := times[..|times| - 1], times[|times| - 1];
      RolloverCorrect(start, interval, before);
      LastFiringBound(start, interval, before);
      var last := LastFiring(start, interval, before);
      if interval > 0 {
        WrapDifference(now, last);
      }
    }
  }

  // ---------- Exactly when rollover is invisible ----------

  /** Polls go forward in time. */
  predicate Ordered(start: nat, times: seq<nat>) {
    times == [] ||
    (Ordered(start, times[..|times| - 1]) && LastPoll(start, times[..|times| - 1]) <= times[|times| - 1])
  }

  /** At no poll has so much time passed since the last firing that the clock shows less than the interval again. */
  predicate NeverAliased(start: nat, interval: u32, times: seq<nat>) {
    times == [] ||
    (NeverAliased(start, interval, times[..|times| - 1])
     && !Aliased(times[|times| - 1] - LastFiring(start, interval, times[..|times| - 1]), interval))
  }

  predicate Aliased(elapsed: int, interval: u32) {
    elapsed >= CLOCK_RANGE && elapsed % CLOCK_RANGE < interval
  }

  lemma {:induction false} LastFiringPast(start: nat, interval: u32, times: seq<nat>)
    requires Ordered(start, times)
    ensures LastFiring(start, interval, times) <= LastPoll(start, times)
  {
    if times != [] { LastFiringPast(start, interval, times[..|times| - 1]); }
  }

  lemma WrapElapsed(now: int, last: int)
    ensures Wrap32(Wrap32(now) - Wrap32(last)) == Wrap32(now - last)
  {
    var q := now / CLOCK_RANGE - last / CLOCK_RANGE;
    QuotientIs(Wrap32(now) - Wrap32(last), CLOCK_RANGE, (now - last) / CLOCK_RANGE - q, Wrap32(now - last));
  }

  lemma {:induction false} FiresLength(p: u32, start: nat, interval: u32, times: seq<nat>)
    ensures |Fires(p, interval, times)| == |TrueFires(start, interval, times)| == |times|
  {
    if times != [] { FiresLength(p, start, interval, times[..|times| - 1]); }
  }

  /** However late the polls, a task fires exactly when it should all along a run iff no poll is aliased. */
  lemma {:induction false} RolloverCorrectIff(start: nat, interval: u32, times: seq<nat>)
    requires Ordered(start, times)
    ensures Fires(Wrap32(start), interval, times) == TrueFires(start, interval, times)
       <==> NeverAliased(start, interval, times)
    ensures NeverAliased(start, interval, times)
        ==> Previous(Wrap32(start), interval, times) == Wrap32(LastFiring(start, interval, times))
  {
    if times != [] {
      var before, now := times[..|times| - 1], times[|times| - 1];
      var last, p := LastFiring(start, interval, before), Wrap32(start);
      RolloverCorrectIff(start, interval, before);
      LastFiringPast(start, interval, before);
      FiresLength(p, start, interval, before);
      WrapElapsed(now, last);
      var due := Due(Previous(p, interval, before), interval, Wrap32(now));
      var fires, fired := Fires(p, interval, before), TrueFires(start, interval, before);
      assert Fires(p, interval, times) == fires + [due];
      assert TrueFires(start, interval, times) == fired + [now - last >= interval];
      SnocEqual(fires, fired, due, now - last >= interval);
      if NeverAliased(start, interval, before) {
        DueIff(now - last, interval);
      }
    }
  }

  lemma SnocEqual(a: seq<bool>, b: seq<bool>, x: bool, y: bool)
    requires |a| == |b|
    ensures a + [x] == b + [y] <==> a == b && x == y
  {
    if a + [x] == b + [y] {
      assert (a + [x])[..|a|] == a && (b + [y])[..|b|] == b;
      assert (a + [x])[|a|] == x && (b + [y])[|b|] == y;
    }
  }

  lemma DueIff(elapsed: nat, interval: u32)
    ensures (Wrap32(elapsed) >= interval <==> elapsed >= interval) <==> !Aliased(elapsed, interval)
  {
  }

  lemma {:induction false} FiresAt(start: nat, interval: u32, times: seq<nat>, k: nat)
    requires k < |times|
    ensures |TrueFires(start, interval, times)| == |times|
    ensures TrueFires(start, interval, times)[k] == (times[k] - LastFiring(start, interval, times[..k]) >= interval)
  {
    var before := times[..|times| - 1];
    if before != [] { FiresAt(start, interval, before, if k < |before| then k else 0); }
    if k < |before| { assert before[..k] == times[..k]; }
  }

  lemma {:induction false} LastFiringAfter(start: nat, interval: u32, times: seq<nat>, i: nat, j: nat)
    requires i < j <= |times| && times[i] - LastFiring(start, interval, times[..i]) >= interval
    ensures LastFiring(start, interval, times[..j]) >= times[i]
    decreases j
  {
    assert times[..j][..j - 1] == times[..j - 1];
    if i < j - 1 { LastFiringAfter(start, interval, times, i, j - 1); }
  }

  /** Under punctual polling two firings are never closer than the interval in true time. */
  lemma FiringsApart(start: nat, interval: u32, times: seq<nat>, i: nat, j: nat)
    requires Punctual(start, interval, times) && i < j < |times| == |Fires(Wrap32(start), interval, times)|
    requires Fires(Wrap32(start), interval, times)[i] && Fires(Wrap32(start), interval, times)[j]
    ensures times[j] - times[i] >= interval
  {
    RolloverCorrect(start, interval, times);
    FiresAt(start, interval, times, i);
    FiresAt(start, interval, times, j);
    LastFiringAfter(start, interval, times, i, j);
  }

  /** The bound on gaps is tight: one tick more and a due firing is missed, for every interval. */
  lemma GapBoundIsTight(interval: u32)
    requires interval >= 1
    ensures Fires(0, interval, [interval - 1, CLOCK_RANGE]) == [false, false]
    ensures TrueFires(0, interval, [interval - 1, CLOCK_RANGE]) == [false, true]
    ensures CLOCK_RANGE - (interval - 1) == CLOCK_RANGE - interval + 1
  {
    var times: seq<nat> := [interval - 1, CLOCK_RANGE];
    assert times[..|times| - 1] == [interval - 1];
    OnePoll(0, interval, interval - 1);
  }

  lemma OnePoll(start: u32, interval: u32, time: nat)
    ensures Fires(start, interval, [time]) == [Due(start, interval, Wrap32(time))]
    ensures Previous(start, interval, [time]) == if Due(start, interval, Wrap32(time)) then Wrap32(time) else start
    ensures TrueFires(start, interval, [time]) == [time - start >= interval]
    ensures LastFiring(start, interval, [time]) == if time - start >= interval then time else start
  {
    assert [time][..0] == [];
  }
}
