/** The process-wide logical clock (src/Clock.cs). */
module Clocks {
  import opened Wrappers
  import opened Text

  /** The tick counter; the C# `int` never overflows in any script the simulator runs. */
  datatype Clock = Clock(time: nat)

  /** A new clock reads 0. */
  function New(): (c: Clock)
    ensures c.time == 0
  {
    Clock(0)
  }

  /** One tick advances the time by exactly one. */
  function Tick(c: Clock): (r: Clock)
    ensures r.time == c.time + 1
  {
    Clock(c.time + 1)
  }

  /** The clock after `n` ticks from construction. */
  function Ticks(n: nat): Clock
  {
    if n == 0 then New() else Tick(Ticks(n - 1))
  }

  /** After `n` ticks from construction the time is `n`, so it never goes back. */
  lemma {:induction false} TicksFromStart(n: nat)
    ensures Ticks(n).time == n
  {
    if n > 0 {
      TicksFromStart(n - 1);
    }
  }

  lemma TimeNeverDecreases(m: nat, n: nat)
    requires m <= n
    ensures Ticks(m).time <= Ticks(n).time
  {
    TicksFromStart(m);
    TicksFromStart(n);
  }

  /** "Time {n}:" */
  function ToString(c: Clock): string
  {
    "Time " + IntToString(c.time) + ":"
  }

  /** The rendered clock starts with "Time ", ends with ':' and carries the time in between. */
  lemma ToStringShowsTime(c: Clock)
    ensures var s := ToString(c);
      |s| >= 7 && s[..5] == "Time " && s[|s| - 1] == ':' && ParseInt(s[5..|s| - 1]) == Some(c.time as int)
  {
    var s := ToString(c);
    assert s[5..|s| - 1] == IntToString(c.time);
    IntRoundTrip(c.time);
  }
}
