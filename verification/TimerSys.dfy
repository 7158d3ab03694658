/** Timer1 and `SystemTimer`: ticks, the compare interrupt and the register reads of `getMicros`, interleaved. */
module TimerSys {
  import opened Words

  const OCR1A := 999
  const PERIOD := OCR1A + 1

  /** The hardware and the interrupt's counter. `ticks` is the true time since the timer started; `lost` counts
      compare matches that found the previous one still pending. */
  datatype Timer = Timer(ticks: nat, tcnt: nat, flag: bool, counter: u32, enabled: bool, lost: nat)

  const START := Timer(0, 0, false, 0, true, 0)

  /** One timer tick: the count clears after OCR1A, and clearing raises the compare flag. */
  function Tick(t: Timer): Timer {
    if t.tcnt == OCR1A
    then t.(ticks := t.ticks + 1, tcnt := 0, flag := true, lost := if t.flag then t.lost + 1 else t.lost)
    else t.(ticks := t.ticks + 1, tcnt := t.tcnt + 1)
  }

  /** The interrupt is taken when it is pending and interrupts are enabled. */
  function Interrupt(t: Timer): Timer {
    if t.enabled && t.flag then t.(flag := false, counter := Wrap32(t.counter + 1000)) else t
  }

  function Ticks(t: Timer, n: nat): Timer {
    if n == 0 then t else Tick(Ticks(t, n - 1))
  }

  datatype Event = TimerTick | Service | Disable | Enable

  function Step(t: Timer, e: Event): Timer {
    match e
    case TimerTick => Tick(t)
    case Service => Interrupt(t)
    case Disable => t.(enabled := false)
    case Enable => t.(enabled := true)
  }

  function Run(t: Timer, es: seq<Event>): Timer {
    if es == [] then t else Step(Run(t, es[..|es| - 1]), es[|es| - 1])
  }

  /** The periods not yet in the counter: the pending one and the lost ones. */
  function Uncounted(t: Timer): nat { t.lost + if t.flag then 1 else 0 }

  ghost predicate Consistent(t: Timer) {
    && t.tcnt == t.ticks % PERIOD
    && Uncounted(t) <= t.ticks / PERIOD
    && t.counter == Wrap32((t.ticks / PERIOD - Uncounted(t)) * PERIOD)
  }

  lemma NextTick(n: nat)
    ensures n % PERIOD == OCR1A ==> (n + 1) % PERIOD == 0 && (n + 1) / PERIOD == n / PERIOD + 1
    ensures n % PERIOD != OCR1A ==> (n + 1) % PERIOD == n % PERIOD + 1 && (n + 1) / PERIOD == n / PERIOD
  {
  }

  lemma StepConsistent(t: Timer, e: Event)
    requires Consistent(t)
    ensures Consistent(Step(t, e))
  {
    if e.TimerTick? {
      TickConsistent(t);
    } else if e.Service? {
      WrapAdd((t.ticks / PERIOD - Uncounted(t)) * PERIOD, 1000);
    }
  }

  lemma TickConsistent(t: Timer)
    requires Consistent(t)
    ensures Consistent(Tick(t))
  {
    NextTick(t.ticks);
    hide Wrap32;
  }

  lemma WrapAdd(a: int, b: int)
    ensures Wrap32(Wrap32(a) + b) == Wrap32(a + b)
  {
    var q := a / 0x1_0000_0000;
    QuotientIs(Wrap32(a) + b, 0x1_0000_0000, (a + b) / 0x1_0000_0000 - q, Wrap32(a + b));
  }

  /** In every run the counter lags the true time by exactly the pending and the lost periods. */
  lemma {:induction false} RunConsistent(t: Timer, es: seq<Event>)
    requires Consistent(t)
    ensures Consistent(Run(t, es))
  {
    if es != [] {
      RunConsistent(t, es[..|es| - 1]);
      StepConsistent(Run(t, es[..|es| - 1]), es[|es| - 1]);
    }
  }

  lemma {:induction false} TicksConsistent(t: Timer, n: nat)
    requires Consistent(t)
    ensures Consistent(Ticks(t, n))
    ensures Ticks(t, n).ticks == t.ticks + n && Ticks(t, n).counter == t.counter && Ticks(t, n).enabled == t.enabled
    decreases n
  {
    if n > 0 {
      TicksConsistent(t, n - 1);
      StepConsistent(Ticks(t, n - 1), TimerTick);
    }
  }

  lemma {:induction false} TicksAdd(t: Timer, m: nat, n: nat)
    ensures Ticks(Ticks(t, m), n) == Ticks(t, m + n)
    decreases n
  {
    if n > 0 {
      TicksAdd(t, m, n - 1);
      assert Ticks(t, m + n) == Tick(Ticks(t, m + n - 1));
    }
  }

  /** Without an interrupt the flag ends up set iff it was, or the count ran over on the way. */
  lemma {:induction false} FlagAfter(t: Timer, n: nat)
    requires t.tcnt < PERIOD
    ensures Ticks(t, n).flag <==> t.flag || t.tcnt + n >= PERIOD
    ensures t.tcnt + n < PERIOD ==> Ticks(t, n).tcnt == t.tcnt + n
    decreases n
  {
    if n > 0 { FlagAfter(t, n - 1); }
  }

  function TickCount(es: seq<Event>): nat {
    if es == [] then 0 else TickCount(es[..|es| - 1]) + if es[|es| - 1].TimerTick? then 1 else 0
  }

  lemma {:induction false} RunTicks(t: Timer, es: seq<Event>)
    ensures Run(t, es).ticks == t.ticks + TickCount(es)
  {
    if es != [] { RunTicks(t, es[..|es| - 1]); }
  }

  // ---------- The interrupt ----------

  /** An enabled interrupt that is pending counts its period and clears the flag, so that only lost periods remain
      uncounted; a masked or idle one changes nothing. */
  lemma ServiceCounts(t: Timer)
    ensures var r := Step(t, Service);
      && r.ticks == t.ticks && r.tcnt == t.tcnt && r.lost == t.lost && r.enabled == t.enabled
      && (t.enabled ==> !r.flag && Uncounted(r) == r.lost)
      && (t.enabled && t.flag ==> r.counter == Wrap32(t.counter + PERIOD))
      && (!t.enabled || !t.flag ==> r == t)
  {
  }

  /** Whether interrupts are enabled after the events, by the last change of the mask. */
  predicate Unmasked(es: seq<Event>) {
    if es == [] then true
    else
      match es[|es| - 1]
      case Enable => true
      case Disable => false
      case _ => Unmasked(es[..|es| - 1])
  }

  /** The compare matches since the interrupt could last be taken. */
  function Unserved(es: seq<Event>): nat {
    if es == [] then 0
    else
      var before := es[..|es| - 1];
      match es[|es| - 1]
      case TimerTick => Unserved(before) + if TickCount(es) % PERIOD == 0 then 1 else 0
      case Service => if Unmasked(before) then 0 else Unserved(before)
      case _ => Unserved(before)
  }

  /** Between any two compare matches the interrupt can be taken. */
  predicate Prompt(es: seq<Event>) {
    es == [] || (Prompt(es[..|es| - 1]) && Unserved(es) <= 1)
  }

  /** The flag shows that a match is unserved, and none is lost iff the interrupt is always taken in time. */
  lemma {:induction false} NothingLostIff(es: seq<Event>)
    ensures var t := Run(START, es);
      && t.enabled == Unmasked(es) && t.flag == (Unserved(es) >= 1)
      && (t.lost == 0 <==> Prompt(es))
  {
    if es != [] {
      var before := es[..|es| - 1];
      NothingLostIff(before);
      RunConsistent(START, before);
      RunTicks(START, before);
      NextTick(TickCount(before));
    }
  }

  // ---------- getMicros ----------

  /** What `getMicros` computes when it reads the counter and TCNT1 in state t and the flag d ticks later. */
  function Reading(t: Timer, d: nat): u32 {
    var correction := if Ticks(t, d).flag && t.tcnt < OCR1A / 2 then PERIOD else 0;
    Wrap32(Wrap32(t.counter + correction) + t.tcnt)
  }

  /** The pending match, if any, is under 499 ticks old; if none is pending and TCNT1 reads below 499, none happens
      before the flag is read. */
  predicate ReadInTime(t: Timer, d: nat) {
    if t.flag then t.tcnt < OCR1A / 2 else t.tcnt < OCR1A / 2 ==> t.tcnt + d < PERIOD
  }

  /** A reading without lost interrupts is the true tick count at the TCNT1 read iff it is made in time. */
  lemma ReadingExactIff(t: Timer, d: nat)
    requires Consistent(t) && t.lost == 0
    ensures Reading(t, d) == Wrap32(t.ticks) <==> ReadInTime(t, d)
  {
    FlagAfter(t, d);
    var pending := if t.flag then PERIOD else 0;
    var correction := if Ticks(t, d).flag && t.tcnt < OCR1A / 2 then PERIOD else 0;
    ReadingIs(t, pending, correction);
    hide Ticks, Consistent;
    WrapApart(t.ticks, correction - pending);
  }

  lemma ReadingIs(t: Timer, pending: nat, correction: nat)
    requires Consistent(t) && t.lost == 0 && pending == if t.flag then PERIOD else 0
    ensures Wrap32(Wrap32(t.counter + correction) + t.tcnt) == Wrap32(t.ticks + (correction - pending))
  {
    var whole := t.ticks / PERIOD * PERIOD;
    assert t.counter == Wrap32(whole - pending);
    WrapAdd(whole - pending, correction);
    WrapAdd(whole - pending + correction, t.tcnt);
    assert whole + t.tcnt == t.ticks;
  }

  lemma WrapApart(a: int, d: int)
    requires d == 0 || d == PERIOD || d == -PERIOD
    ensures Wrap32(a + d) == Wrap32(a) <==> d == 0
  {
  }

  /** The reading put together from its parts, and when it is exact. */
  lemma ReadingOf(t: Timer, d: nat)
    requires Consistent(t)
    ensures Reading(t, d) ==
      Wrap32((if Ticks(t, d).flag && t.tcnt < OCR1A / 2 then Wrap32(t.counter + OCR1A + 1) else t.counter) + t.tcnt)
    ensures t.lost == 0 ==> (Reading(t, d) == Wrap32(t.ticks) <==> ReadInTime(t, d))
  {
    if t.lost == 0 { ReadingExactIff(t, d); }
    hide Ticks, Consistent;
  }

  /** In particular: a pending match under 499 ticks old and under 502 ticks between the two reads are enough. */
  lemma ReadingExact(t: Timer, d: nat)
    requires Consistent(t) && t.lost == 0 && d < 502
    requires t.flag ==> t.tcnt < OCR1A / 2
    ensures Reading(t, d) == Wrap32(t.ticks)
  {
    ReadingExactIff(t, d);
  }

  /** After any interleaving of ticks, interrupts and masking that lost no interrupt, a reading tells the number of
      ticks so far modulo 2^32 iff it is made in time. */
  lemma MicrosOverRuns(es: seq<Event>, d: nat)
    requires Run(START, es).lost == 0
    ensures Reading(Run(START, es), d) == Wrap32(TickCount(es)) <==> ReadInTime(Run(START, es), d)
  {
    RunConsistent(START, es);
    RunTicks(START, es);
    ReadingExactIff(Run(START, es), d);
  }

  /** Without any hypothesis on what was lost: if the interrupt could be taken between any two matches. */
  lemma MicrosWhenPrompt(es: seq<Event>, d: nat)
    requires Prompt(es)
    ensures Reading(Run(START, es), d) == Wrap32(TickCount(es)) <==> ReadInTime(Run(START, es), d)
  {
    NothingLostIff(es);
    MicrosOverRuns(es, d);
  }

  lemma {:induction false} OnlyTicks(n: nat) returns (es: seq<Event>)
    ensures Run(START, es) == Ticks(START, n) && TickCount(es) == n
    decreases n
  {
    if n == 0 {
      es := [];
    } else {
      var before := OnlyTicks(n - 1);
      es := before + [TimerTick];
      assert es[..|es| - 1] == before;
    }
  }

  /** The bound is tight: in the run of 498 ticks from the start, 502 ticks between the reads give a time one period
      ahead. */
  lemma SlowReadFails()
    ensures exists es ::
      Run(START, es).lost == 0 && !Run(START, es).flag && Reading(Run(START, es), 502) != Wrap32(TickCount(es))
  {
    hide Ticks, Reading;
    var n, d: nat := 498, 502;
    var es := OnlyTicks(n);
    TicksLoseNothing(START, n);
    FlagAfter(START, n);
    MicrosOverRuns(es, d);
    assert !ReadInTime(Run(START, es), d);
  }

  /** No match is lost before a first one is pending. */
  lemma {:induction false} TicksLoseNothing(t: Timer, n: nat)
    requires t.tcnt + n < PERIOD
    ensures Ticks(t, n).lost == t.lost
    decreases n
  {
    if n > 0 {
      FlagAfter(t, n - 1);
      TicksLoseNothing(t, n - 1);
    }
  }

  class SystemTimer {
    var microsCounter: u32
    var tcnt1: nat
    var ocf1a: bool
    var interruptsEnabled: bool
    ghost var ticks: nat
    ghost var lost: nat

    ghost function State(): Timer
      reads this
    {
      Timer(ticks, tcnt1, ocf1a, microsCounter, interruptsEnabled, lost)
    }

    constructor ()
      ensures State() == START && Consistent(State())
    {
      microsCounter, tcnt1, ocf1a, interruptsEnabled, ticks, lost := 0, 0, false, true, 0, 0;
    }

    /** The timer counts on by itself. */
    method Elapse(n: nat)
      modifies this
      ensures State() == Ticks(old(State()), n)
    {
      for i := 0 to n
        invariant State() == Ticks(old(State()), i)
      {
        ticks := ticks + 1;
        if tcnt1 == OCR1A {
          if ocf1a {
            lost := lost + 1;
          }
          tcnt1, ocf1a := 0, true;
        } else {
          tcnt1 := tcnt1 + 1;
        }
      }
    }

    /** The compare interrupt, if it can be taken. */
    method CompareInterrupt()
      modifies this
      ensures State() == Interrupt(old(State()))
      ensures old(interruptsEnabled && ocf1a) ==> !ocf1a && microsCounter == Wrap32(old(microsCounter) + PERIOD)
      ensures !old(interruptsEnabled && ocf1a) ==> State() == old(State())
    {
      if interruptsEnabled && ocf1a {
        ocf1a := false;
        microsCounter := Wrap32(microsCounter + 1000);
      }
    }

    /** `getMicros`, with any number of ticks between its steps; the interrupt cannot run in between.
        The time returned is that of the TCNT1 read, exactly under the stated condition. */
    method GetMicros(beforeBase: nat, beforeCount: nat, beforeFlag: nat, beforeEnd: nat) returns (micros: u32)
      requires Consistent(State())
      modifies this
      ensures Consistent(State())
      ensures State() == Ticks(old(State()), beforeBase + beforeCount + beforeFlag + beforeEnd)
      ensures micros == Reading(Ticks(old(State()), beforeBase + beforeCount), beforeFlag)
      ensures var read := Ticks(old(State()), beforeBase + beforeCount);
        read.ticks == old(ticks) + beforeBase + beforeCount
        && (read.lost == 0 ==>
              (micros == Wrap32(read.ticks) <==> ReadInTime(read, beforeFlag)))
    {
      hide Consistent, Ticks, Reading;
      ghost var start := State();
      GetMicrosTrace(start, beforeBase, beforeCount, beforeFlag, beforeEnd);
      ReadingOf(Ticks(start, beforeBase + beforeCount), beforeFlag);
      var oldEnabled := interruptsEnabled;
      interruptsEnabled := false;
      Elapse(beforeBase);
      var base := microsCounter;
      Elapse(beforeCount);
      var tcnt := tcnt1;
      Elapse(beforeFlag);
      if ocf1a && tcnt < OCR1A / 2 {
        base := Wrap32(base + OCR1A + 1);
      }
      Elapse(beforeEnd);
      interruptsEnabled := oldEnabled;
      micros := Wrap32(base + tcnt);
    }
  }

  /** The states `getMicros` passes through with interrupts masked, and where it ends. */
  lemma GetMicrosTrace(start: Timer, b: nat, c: nat, f: nat, e: nat)
    requires Consistent(start)
    ensures var masked := start.(enabled := false);
      && Ticks(Ticks(masked, b), c) == Ticks(start, b + c).(enabled := false)
      && Ticks(Ticks(Ticks(masked, b), c), f) == Ticks(Ticks(start, b + c), f).(enabled := false)
      && Ticks(Ticks(Ticks(Ticks(masked, b), c), f), e).(enabled := start.enabled) == Ticks(start, b + c + f + e)
      && Ticks(masked, b).counter == Ticks(start, b + c).counter
    ensures Consistent(Ticks(start, b + c + f + e)) && Consistent(Ticks(start, b + c))
    ensures Ticks(start, b + c).ticks == start.ticks + b + c
  {
    hide Consistent, Ticks;
    var masked := start.(enabled := false);
    TicksAdd(masked, b, c);
    TicksAdd(masked, b + c, f);
    TicksAdd(masked, b + c + f, e);
    TicksAdd(start, b + c, f);
    TicksMasked(start, b + c);
    TicksMasked(start, b + c + f);
    TicksMasked(start, b + c + f + e);
    TicksConsistent(start, b + c);
    TicksConsistent(start, b + c + f + e);
    TicksCounter(masked, b);
  }

  lemma {:induction false} TicksCounter(t: Timer, n: nat)
    ensures Ticks(t, n).counter == t.counter && Ticks(t, n).enabled == t.enabled
    decreases n
  {
    if n > 0 { TicksCounter(t, n - 1); }
  }

  /** Ticking does not depend on whether interrupts are enabled. */
  lemma {:induction false} TicksMasked(t: Timer, n: nat)
    ensures Ticks(t.(enabled := false), n) == Ticks(t, n).(enabled := false)
    decreases n
  {
    if n > 0 { TicksMasked(t, n - 1); }
  }
}
