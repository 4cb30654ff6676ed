/** Config, pause, deadlines and the recurring schedule over runs. They hold with and without
    outside transfers, and none needs ledger time to be monotone. */
module EscrowTiming {
  import opened Ledger
  import opened EscrowSpec
  import opened EscrowMoney
  import opened EscrowSettlement

  // ---------------------------------------------------------------------------------------------
  // Config and pause

  lemma {:induction false} ConfigStep(w: World, s: Step)
    requires w.config.Some?
    ensures var c, n := w.config.value, Next(w, s).config;
      && n.Some?
      && n.value == c.(paused := n.value.paused)
      && (n.value.paused != c.paused ==> c.admin in s.env.signers)
      && (c.paused && !n.value.paused ==> s.call.CallUnpause?)
  {
  }

  /** Once set, the config never changes but for the pause flag. */
  lemma {:induction false} ConfigIsFixed(w: World, run: seq<Step>)
    requires w.config.Some?
    ensures var z := Run(w, run);
      z.config.Some? && z.config.value == w.config.value.(paused := z.config.value.paused)
  {
    if run != [] {
      var n := |run| - 1;
      ConfigIsFixed(w, run[..n]);
      ConfigStep(Run(w, run[..n]), run[n]);
    }
  }

  /** Step `i` of the run is the successful `init`, signed by its admin, that set the config. */
  predicate SetAt(start: World, run: seq<Step>, c: ProtocolConfig, i: nat)
    requires i < |run|
  {
    && run[i].call == CallInit(c.admin, c.feeBps, c.feeCollector) && c.admin in run[i].env.signers
    && Run(start, run[..i]).config.None? && Apply(Run(start, run[..i]), run[i]).outcome.Ok?
  }

  /** A config comes from one successful call of `init`, made under the admin's own signature. */
  lemma {:induction false} ConfigCameFromInit(start: World, run: seq<Step>)
    requires start.config.None? && Run(start, run).config.Some?
    ensures var c := Run(start, run).config.value;
      exists i | 0 <= i < |run| :: SetAt(start, run, c, i)
  {
    var n := |run| - 1;
    if Run(start, run[..n]).config.Some? {
      ConfigCameFromInit(start, run[..n]);
      ConfigStep(Run(start, run[..n]), run[n]);
      var c := Run(start, run[..n]).config.value;
      var i :| 0 <= i < n && SetAt(start, run[..n], c, i);
      assert run[i] == run[..n][i] && run[..n][..i] == run[..i];
      assert SetAt(start, run, Run(start, run).config.value, i);
    } else {
      var c := Run(start, run).config.value;
      assert SetAt(start, run, c, n);
    }
  }

  /** A step that is not an unpause signed by the admin. */
  predicate KeepsPause(admin: Address, s: Step) { !(s.call.CallUnpause? && admin in s.env.signers) }

  lemma {:induction false} PausedStep(w: World, s: Step)
    requires IsPaused(w) && KeepsPause(w.config.value.admin, s)
    ensures Next(w, s) == w.(bank := Next(w, s).bank)
    ensures forall m <- Moves(w, s) :: m.memo == Outside
    ensures !s.call.CallOutside? ==> Next(w, s) == w
    ensures Touches(s.call) || s.call.CallTransferFreelancer? ||
            s.call.CallTransferPayer? || s.call.CallExtendDeadline? ==>
              Apply(w, s).outcome == Err(Paused)
  {
  }

  /** Pause freezes the escrow: until the admin unpauses, the record and the config stay as they are
      and the contract moves no token; if nobody else moves any either, nothing changes at all. */
  lemma {:induction false} PauseFreezes(w: World, run: seq<Step>)
    requires IsPaused(w) && (forall s <- run :: KeepsPause(w.config.value.admin, s))
    ensures var z := Run(w, run);
      && z == w.(bank := z.bank)
      && w.bank.log <= z.bank.log
      && (forall m <- z.bank.log[|w.bank.log|..] :: m.memo == Outside)
      && ((forall s <- run :: !s.call.CallOutside?) ==> z == w)
  {
    if run != [] {
      var n := |run| - 1;
      PauseFreezes(w, run[..n]);
      assert run[n] in run;
      PausedStep(Run(w, run[..n]), run[n]);
      LogGrowsByMoves(Run(w, run[..n]), run[n], w.self, w.self);
      assert forall s <- run[..n] :: s in run;
    }
  }

  // ---------------------------------------------------------------------------------------------
  // Deadlines

  predicate NotLater(a: Option<U64>, b: Option<U64>) {
    a.Some? == b.Some? && (a.Some? ==> a.value <= b.value)
  }

  /** A deadline changes only by a payer-signed extension to a strictly later time. */
  lemma {:induction false} DeadlineStep(w: World, s: Step)
    requires w.escrow.Some?
    ensures var n := Next(w, s).escrow; var before := w.escrow.value.deadline;
      && n.Some?
      && NotLater(before, n.value.deadline)
      && (n.value.deadline != before ==>
            && s.call.CallExtendDeadline? && w.escrow.value.payer in s.env.signers
            && before.value < n.value.deadline.value == s.call.newDeadline)
  {
  }

  lemma {:induction false} DeadlinesOnlyGrow(w: World, run: seq<Step>, i: nat)
    requires w.escrow.Some? && i <= |run|
    ensures var a, z := Run(w, run[..i]).escrow, Run(w, run).escrow;
      a.Some? && z.Some? && NotLater(a.value.deadline, z.value.deadline)
    decreases |run|
  {
    if i == |run| {
      assert run[..i] == run;
      if run != [] {
        var n := |run| - 1;
        DeadlinesOnlyGrow(w, run[..n], n);
        assert run[..n][..n] == run[..n];
        DeadlineStep(Run(w, run[..n]), run[n]);
      }
    } else {
      var n := |run| - 1;
      assert run[..n][..i] == run[..i];
      DeadlinesOnlyGrow(w, run[..n], i);
      DeadlineStep(Run(w, run[..n]), run[n]);
    }
  }

  /** An expiry that goes through is later than every deadline the escrow ever had; an escrow that
      has none can never be expired. */
  lemma {:induction false} ExpiryIsPastEveryDeadline(w: World, run: seq<Step>, env: Env)
    requires w.escrow.Some?
    ensures Expire(Run(w, run), env).outcome.Ok? ==>
      forall i | 0 <= i <= |run| ::
        var a := Run(w, run[..i]).escrow;
        a.Some? && a.value.deadline.Some? && a.value.deadline.value < env.now
  {
    forall i | 0 <= i <= |run|
      ensures var a := Run(w, run[..i]).escrow;
        a.Some? && (Expire(Run(w, run), env).outcome.Ok? ==> a.value.deadline.Some? && a.value.deadline.value < env.now)
    {
      DeadlinesOnlyGrow(w, run, i);
    }
  }

  // ---------------------------------------------------------------------------------------------
  // The recurring schedule

  /** The ledger times of the successful releases of a run, in order. */
  function ReleaseTimes(w: World, run: seq<Step>): seq<U64> {
    if run == [] then []
    else
      var n := |run| - 1;
      var before := ReleaseTimes(w, run[..n]);
      var s := run[n];
      if s.call.CallReleaseRecurring? && Apply(Run(w, run[..n]), s).outcome.Ok? then before + [s.env.now] else before
  }

  lemma {:induction false} ReleaseStep(w: World, s: Step)
    requires w.escrow.Some?
    ensures var d, n := w.escrow.value, Next(w, s).escrow;
      && n.Some? && n.value.interval == d.interval && n.value.recurrenceCount == d.recurrenceCount
      && (if s.call.CallReleaseRecurring? && Apply(w, s).outcome.Ok? then
            && n.value.releasesMade == d.releasesMade + 1 <= d.recurrenceCount
            && n.value.lastReleaseTime == s.env.now >= d.lastReleaseTime + d.interval
          else
            n.value.releasesMade == d.releasesMade && n.value.lastReleaseTime == d.lastReleaseTime)
  {
  }

  /** The first time is at least one interval after `base`, and any two are at least as many
      intervals apart as lie between them. */
  ghost predicate Spaced(base: int, interval: int, times: seq<U64>) {
    && (forall i | 0 <= i < |times| :: times[i] >= base + (i + 1) * interval)
    && (forall i, j | 0 <= i < j < |times| :: times[j] - times[i] >= (j - i) * interval)
  }

  lemma {:induction false} SpacedSnoc(base: int, interval: int, times: seq<U64>, t: U64)
    requires Spaced(base, interval, times)
    requires t >= (if times == [] then base else times[|times| - 1]) + interval
    ensures Spaced(base, interval, times + [t])
  {
    var k := |times|;
    if k > 0 {
      assert t >= base + (k + 1) * interval by {
        assert times[k - 1] >= base + k * interval;
      }
      forall i | 0 <= i < k ensures t - times[i] >= (k - i) * interval {
        if i < k - 1 { assert times[k - 1] - times[i] >= (k - 1 - i) * interval; }
      }
    }
  }

  /** The schedule. Releases number what the record says and never more than agreed; they are spaced
      by the interval, counting from the record's last release time (its creation, if there was
      none). */
  lemma {:induction false} Schedule(w: World, run: seq<Step>)
    requires w.escrow.Some? && w.escrow.value.releasesMade <= w.escrow.value.recurrenceCount
    ensures Run(w, run).escrow.Some?
    ensures var d, e, times := w.escrow.value, Run(w, run).escrow.value, ReleaseTimes(w, run);
      && e.interval == d.interval && e.recurrenceCount == d.recurrenceCount
      && d.releasesMade + |times| == e.releasesMade <= d.recurrenceCount
      && e.lastReleaseTime == (if times == [] then d.lastReleaseTime else times[|times| - 1])
      && Spaced(d.lastReleaseTime, d.interval, times)
  {
    if run != [] {
      var n := |run| - 1;
      Schedule(w, run[..n]);
      ReleaseStep(Run(w, run[..n]), run[n]);
      if ReleaseTimes(w, run) != ReleaseTimes(w, run[..n]) {
        SpacedSnoc(w.escrow.value.lastReleaseTime, w.escrow.value.interval, ReleaseTimes(w, run[..n]), run[n].env.now);
      }
    }
  }

  /** From creation at time t0: after k releases the record's clock is at least t0 + k * interval. */
  lemma {:induction false} ScheduleFromCreation(w: World, s: Step, run: seq<Step>)
    requires w.escrow.None? && s.call.CallCreate? && Apply(w, s).outcome.Ok?
    ensures Run(Next(w, s), run).escrow.Some?
    ensures var e := Run(Next(w, s), run).escrow.value;
      && e.releasesMade == |ReleaseTimes(Next(w, s), run)| <= s.call.recurrenceCount
      && e.lastReleaseTime >= s.env.now + e.releasesMade * s.call.interval
  {
    Schedule(Next(w, s), run);
  }

  ghost predicate OpenRecurring(w: World) {
    w.escrow.Some? && w.escrow.value.recurrenceCount > 0 && w.escrow.value.status == Active ==>
      w.escrow.value.releasesMade < w.escrow.value.recurrenceCount
  }

  lemma {:induction false} OpenRecurringStep(w: World, s: Step)
    requires OpenRecurring(w)
    ensures OpenRecurring(Next(w, s))
  {
  }

  lemma {:induction false} OpenRecurringAlways(start: World, run: seq<Step>)
    requires OpenRecurring(start)
    ensures OpenRecurring(Run(start, run))
  {
    if run != [] {
      var n := |run| - 1;
      OpenRecurringAlways(start, run[..n]);
      OpenRecurringStep(Run(start, run[..n]), run[n]);
    }
  }

  lemma {:induction false} OpenRecurringReleases(w: World, env: Env)
    requires OpenRecurring(w)
    ensures ReleaseRecurring(w, env).outcome != Err(RecurrenceComplete)
  {
  }

  /** `release_recurring` has a branch for an active escrow that has made all its releases. No run
      of the contract reaches it. */
  lemma {:induction false} RecurrenceCompleteIsUnreachable(start: World, run: seq<Step>, env: Env)
    requires Deployed(start)
    ensures ReleaseRecurring(Run(start, run), env).outcome != Err(RecurrenceComplete)
  {
    OpenRecurringAlways(start, run);
    OpenRecurringReleases(Run(start, run), env);
  }
}
