/** Waiting for a run directory to appear (`resolve_log_path_blocking`). */
module Poll {
  import opened Wrappers

  /** The milliseconds slept after poll `i`: doubling from 5 up to 1000. */
  function Wait(i: nat): (w: nat)
    ensures 5 <= w <= 1000
  {
    if i == 0 then 5 else if 2 * Wait(i - 1) < 1000 then 2 * Wait(i - 1) else 1000
  }

  /** The time slept before poll `i` if every sleep lasts exactly as long as asked. */
  function Slept(i: nat): nat {
    if i == 0 then 0 else Slept(i - 1) + Wait(i - 1)
  }

  /** The waits one by one. */
  lemma {:induction false} WaitsAre(i: nat)
    ensures Wait(i) == if i < 8 then [5, 10, 20, 40, 80, 160, 320, 640][i] else 1000
    decreases i
  {
    if i > 0 { WaitsAre(i - 1); }
  }

  const DEADLINE := 10_000

  /** Polls answer in turn, and the clock read after poll `i` shows `now(i)`. */
  ghost predicate SleepsInFull(start: nat, now: nat -> nat) {
    now(0) >= start && forall i: nat :: now(i + 1) >= now(i) + Wait(i)
  }

  lemma {:induction false} ClockAdvances(start: nat, now: nat -> nat, i: nat)
    requires SleepsInFull(start, now)
    ensures now(i) >= start + Slept(i)
    decreases i
  {
    if i > 0 {
      ClockAdvances(start, now, i - 1);
      assert now((i - 1) + 1) >= now(i - 1) + Wait(i - 1);
    }
  }

  /** Seventeen sleeps reach the deadline and sixteen do not. */
  lemma SeventeenSleeps()
    ensures Slept(16) < DEADLINE <= Slept(17)
  {
    assert Wait(7) == 640 by {
      assert Wait(3) == 40;
      assert Wait(5) == 160;
    }
    assert Slept(4) == 75;
    assert Wait(4) == 80;
    assert Wait(5) == 160;
    assert Wait(6) == 320;
    assert Slept(8) == 1275;
    assert Wait(8) == Wait(9) == Wait(10) == Wait(11) == 1000;
    assert Slept(12) == 5275;
    assert Wait(12) == Wait(13) == Wait(14) == Wait(15) == Wait(16) == 1000;
    assert Slept(16) == 9275;
  }

  lemma {:induction false} SleptGrows(i: nat, j: nat)
    requires i <= j
    ensures Slept(i) <= Slept(j)
    decreases j - i
  {
    if i < j { SleptGrows(i + 1, j); }
  }

  /** A poll that finds the deadline still ahead is one of the first seventeen. */
  lemma EarlyPoll(start: nat, now: nat -> nat, i: nat)
    requires SleepsInFull(start, now) && now(i) < start + DEADLINE
    ensures i <= 16
  {
    ClockAdvances(start, now, i);
    SeventeenSleeps();
    if i > 16 { SleptGrows(17, i); }
  }

  lemma FirstWait()
    ensures Wait(0) == 5
  {
  }

  lemma NextWait(i: nat)
    ensures Wait(i + 1) == if Wait(i) * 2 < 1000 then Wait(i) * 2 else 1000
  {
  }

  ghost predicate NothingBefore<Id, E>(poll: nat -> Result<Option<Id>, E>, n: nat) {
    forall i: nat :: i < n ==> poll(i) == Ok(None)
  }

  method AwaitRun<Id(==), E>(start: nat, poll: nat -> Result<Option<Id>, E>, now: nat -> nat)
    returns (r: Result<Option<Id>, E>, polls: nat)
    requires SleepsInFull(start, now)
    ensures 1 <= polls <= 18
    ensures NothingBefore(poll, polls - 1) && r == poll(polls - 1)
    ensures forall i: nat :: i < polls - 1 ==> now(i) < start + 10_000
    ensures r == Ok(None) ==> now(polls - 1) >= start + 10_000
  {
    hide SleepsInFull, Wait, Slept;
    FirstWait();
    var wait := 5;
    polls := 0;
    while true
      invariant wait == Wait(polls)
      invariant polls <= 17
      invariant NothingBefore(poll, polls)
      invariant forall i: nat :: i < polls ==> now(i) < start + DEADLINE
      decreases 18 - polls
    {
      polls := polls + 1;
      var found := poll(polls - 1);
      if found.Err? || found.value.Some? {
        return found, polls;
      }
      if now(polls - 1) >= start + DEADLINE {
        return Ok(None), polls;
      }
      EarlyPoll(start, now, polls - 1);
      NextWait(polls - 1);
      wait := if wait * 2 < 1000 then wait * 2 else 1000;
    }
  }

  /** The bound is reached: with exact sleeps and no directory there are eighteen polls. */
  lemma EighteenPolls(now: nat -> nat, start: nat, polls: nat)
    requires forall i: nat :: now(i) == start + Slept(i)
    requires 1 <= polls <= 18
    requires forall i: nat :: i < polls - 1 ==> now(i) < start + DEADLINE
    requires now(polls - 1) >= start + DEADLINE
    ensures polls == 18
  {
    SeventeenSleeps();
    if polls < 18 { SleptGrows(polls - 1, 16); }
  }
}
