/**
 Where prvInsertTimerInActiveList sends a timer, decided with 32-bit comparisons only.
 */
module TimerRoute {
  import opened Arithmetic
  import opened Ticks

  datatype Route = Expired | CurrentList | OverflowList

  function RouteOf(period: nat, nextExpiry: Tick, timeNow: Tick, commandTime: Tick): Route {
    if nextExpiry <= timeNow then
      if Minus(timeNow, commandTime) >= period then Expired else OverflowList
    else
      if timeNow < commandTime && nextExpiry >= commandTime then Expired else CurrentList
  }

  /** The start of the epoch of a time: the last time the tick count was zero. */
  function Epoch(time: nat): nat {
    time - time % WRAP
  }

  /** For a command less than a wrap old the 32-bit decision is the unbounded one. */
  lemma RouteExact(command: nat, now: nat, period: nat)
    requires command <= now < command + WRAP && 1 <= period < WRAP
    ensures RouteOf(period, Low(command + period), Low(now), Low(command)) ==
            if command + period <= now then Expired
            else if command + period < Epoch(now) + WRAP then CurrentList
            else OverflowList
    ensures command + period < Epoch(now) + 2 * WRAP
  {
    var c, e, t := command % WRAP, (command + period) % WRAP, now % WRAP;
    assert command - c == Epoch(now) || command - c == Epoch(now) - WRAP;
    assert Minus(t, c) == now - command by {
      assert (t - c) % WRAP == (now - command) % WRAP;
    }
  }

  /** The same with the lists of the epoch at `base`: the 32-bit expiry time is the item value there. */
  lemma RouteOnLists(base: nat, command: nat, now: nat, period: nat)
    requires base % WRAP == 0 && base <= now < base + WRAP
    requires command <= now < command + WRAP && 1 <= period < WRAP
    ensures RouteOf(period, Low(command + period), Low(now), Low(command)).Expired? <==> command + period <= now
    ensures RouteOf(period, Low(command + period), Low(now), Low(command)).CurrentList? ==>
              base + Low(command + period) == command + period < base + WRAP
    ensures RouteOf(period, Low(command + period), Low(now), Low(command)).OverflowList? ==>
              base + WRAP + Low(command + period) == command + period
  {
    RouteExact(command, now, period);
    assert Epoch(now) == base;
  }

  /**
   At any age of the command the decision is "expired" exactly when the age, cut to 32 bits, has reached the
   period; so it is right if and only if that is so whenever the expiry time has really passed.
   */
  lemma RouteAtAnyAge(command: nat, now: nat, period: nat)
    requires command <= now && 1 <= period < WRAP
    ensures RouteOf(period, Low(command + period), Low(now), Low(command)).Expired?
            <==> (now - command) % WRAP >= period
    ensures (RouteOf(period, Low(command + period), Low(now), Low(command)).Expired? <==> command + period <= now)
            <==> (now < command + WRAP || (now - command) % WRAP >= period)
  {
    var wraps := (now - command) / WRAP;
    var young := command + wraps * WRAP;
    WholeTurns(command, wraps, WRAP);
    WholeTurns(command + period, wraps, WRAP);
    WholeTurns(now - young, wraps, WRAP);
    assert young <= now < young + WRAP;
    RouteExact(young, now, period);
    RouteYoung(young, now, period);
  }

  /** A command that is exactly one wrap old: its period of one tick is over, and the decision is that it is not. */
  lemma RouteAWrapLate()
    ensures !RouteOf(1, Low(1), Low(WRAP), Low(0)).Expired? && 0 + 1 <= WRAP
  {
    RouteAtAnyAge(0, WRAP, 1);
  }

  lemma RouteYoung(command: nat, now: nat, period: nat)
    requires command <= now < command + WRAP
    ensures (now - command) % WRAP == now - command
  {
  }
}
