/** What a press of the button is promised, over every interleaving. */
module Guarantees {
  import opened Handshake
  import opened Logs

  /** The output is written 1 strictly between positions i and e of the log. */
  ghost predicate Served(log: seq<Event>, i: int, e: int) {
    exists k :: i < k < e && 0 <= k < |log| && log[k].Drive? && log[k].on
  }

  /** After any set, the output is written 1 before the end of any tick that
      starts after the set; in particular of the first one. */
  ghost predicate NoPressLost(log: seq<Event>) {
    forall i, b, e, no :: 0 <= i < b < e < |log| && log[i].Set? && log[b] == Begin(Tick(no)) && log[e] == End(Tick(no))
      ==> Served(log, i, e)
  }

  ghost predicate Pending(s: State) {
    && (s.tick.TClear? ==> s.flag)
    && NoPressLost(s.log)
    && (forall i :: 0 <= i < |s.log| && s.log[i].Set? ==>
          s.flag || s.tick == TDrive(true) || Served(s.log, i, |s.log|))
    && (forall i, b :: s.tick == TDrive(false) || s.tick == TEnd ==>
          0 <= i < b < |s.log| && s.log[i].Set? && s.log[b] == Begin(Tick(s.ticks)) ==> Served(s.log, i, |s.log|))
  }

  lemma ServedSnoc(log: seq<Event>, ev: Event, i: int, e: int)
    requires e <= |log|
    ensures Served(log, i, e) ==> Served(log + [ev], i, e) && Served(log + [ev], i, |log + [ev]|)
    ensures ev.Drive? && ev.on && i < |log| ==> Served(log + [ev], i, |log + [ev]|)
  {
    if Served(log, i, e) {
      var k :| i < k < e && 0 <= k < |log| && log[k].Drive? && log[k].on;
      assert (log + [ev])[k].Drive?;
    }
    if ev.Drive? && ev.on && i < |log| {
      assert (log + [ev])[|log|].Drive?;
    }
  }

  lemma PendingStep(s: State, step: Step)
    requires Pending(s)
    ensures Pending(Next(s, step))
  {
    var ev := EventOf(s, step);
    var s' := Next(s, step);
    NextAppends(s, step);
    forall i | 0 <= i < |s'.log| && s'.log[i].Set?
      ensures s'.flag || s'.tick == TDrive(true) || Served(s'.log, i, |s'.log|)
    {
      ServedSnoc(s.log, ev, i, |s.log|);
    }
    forall i, b | 0 <= i < b < |s'.log| && s'.log[i].Set? && s'.log[b] == Begin(Tick(s'.ticks))
                  && (s'.tick == TDrive(false) || s'.tick == TEnd)
      ensures Served(s'.log, i, |s'.log|)
    {
      ServedSnoc(s.log, ev, i, |s.log|);
    }
    forall i, b, e, no | 0 <= i < b < e < |s'.log| && s'.log[i].Set?
                         && s'.log[b] == Begin(Tick(no)) && s'.log[e] == End(Tick(no))
      ensures Served(s'.log, i, e)
    {
      ServedSnoc(s.log, ev, i, e);
    }
  }

  lemma {:induction false} PendingRun(flag: bool, schedule: seq<Step>)
    ensures Pending(Run(Init(flag), schedule))
  {
    if |schedule| > 0 {
      PendingRun(flag, schedule[..|schedule| - 1]);
      PendingStep(Run(Init(flag), schedule[..|schedule| - 1]), schedule[|schedule| - 1]);
    }
  }

  // ---------------------------------------------------------------------

  predicate IsOn(e: Event) {
    e.Drive? && e.on
  }

  predicate IsSet(e: Event) {
    e.Set?
  }

  /** Ones written, the flag still standing and the one about to be written are
      all paid for by distinct sets. */
  lemma {:induction false} OnesArePaidFor(flag: bool, schedule: seq<Step>)
    ensures var s := Run(Init(flag), schedule);
            && Count(s.log, IsOn) + (if s.flag then 1 else 0) + (if s.tick == TDrive(true) then 1 else 0)
               <= Count(s.log, IsSet) + (if flag then 1 else 0)
            && (s.tick.TClear? ==> s.flag)
  {
    if |schedule| > 0 {
      OnesArePaidFor(flag, schedule[..|schedule| - 1]);
      var s := Run(Init(flag), schedule[..|schedule| - 1]);
      var step := schedule[|schedule| - 1];
      NextAppends(s, step);
      CountSnoc(s.log, EventOf(s, step), IsOn);
      CountSnoc(s.log, EventOf(s, step), IsSet);
    }
  }

  ghost predicate SetBetween(log: seq<Event>, c: int, t: int) {
    exists k :: c < k < t && 0 <= k < |log| && log[k].Set?
  }

  /** Between a clear and any later test that sees true there is a set; and if
      the flag began false, there is one before the first such test too. */
  ghost predicate NoPhantom(flag: bool, log: seq<Event>) {
    && (forall c, t, no :: 0 <= c < t < |log| && log[c].Clear? && log[t] == Look(Tick(no), true) ==>
          SetBetween(log, c, t))
    && (forall t, no :: 0 <= t < |log| && log[t] == Look(Tick(no), true) && !flag ==> SetBetween(log, -1, t))
  }

  ghost predicate FlagHasCause(flag: bool, s: State) {
    && NoPhantom(flag, s.log)
    && (s.flag ==> forall c :: 0 <= c < |s.log| && s.log[c].Clear? ==> SetBetween(s.log, c, |s.log|))
    && (s.flag && !flag ==> SetBetween(s.log, -1, |s.log|))
  }

  lemma SetBetweenSnoc(log: seq<Event>, e: Event, c: int, t: int)
    requires t <= |log|
    ensures SetBetween(log, c, t) ==> SetBetween(log + [e], c, t) && SetBetween(log + [e], c, |log + [e]|)
    ensures e.Set? && c < |log| ==> SetBetween(log + [e], c, |log + [e]|)
  {
    if SetBetween(log, c, t) {
      var k :| c < k < t && 0 <= k < |log| && log[k].Set?;
      assert (log + [e])[k].Set?;
    }
    if e.Set? && c < |log| {
      assert (log + [e])[|log|].Set?;
    }
  }

  lemma FlagHasCauseStep(flag: bool, s: State, step: Step)
    requires FlagHasCause(flag, s)
    ensures FlagHasCause(flag, Next(s, step))
  {
    var e := EventOf(s, step);
    var s' := Next(s, step);
    NextAppends(s, step);
    SetBetweenSnoc(s.log, e, -1, |s.log|);
    forall c, t, no | 0 <= c < t < |s'.log| && s'.log[c].Clear? && s'.log[t] == Look(Tick(no), true)
      ensures SetBetween(s'.log, c, t)
    {
      SetBetweenSnoc(s.log, e, c, t);
    }
    forall t, no | 0 <= t < |s'.log| && s'.log[t] == Look(Tick(no), true) && !flag
      ensures SetBetween(s'.log, -1, t)
    {
      SetBetweenSnoc(s.log, e, -1, t);
    }
    if s'.flag {
      forall c | 0 <= c < |s'.log| && s'.log[c].Clear?
        ensures SetBetween(s'.log, c, |s'.log|)
      {
        SetBetweenSnoc(s.log, e, c, |s.log|);
      }
    }
  }

  lemma {:induction false} FlagHasCauseRun(flag: bool, schedule: seq<Step>)
    ensures FlagHasCause(flag, Run(Init(flag), schedule))
  {
    if |schedule| > 0 {
      FlagHasCauseRun(flag, schedule[..|schedule| - 1]);
      FlagHasCauseStep(flag, Run(Init(flag), schedule[..|schedule| - 1]), schedule[|schedule| - 1]);
    }
  }

  /** The three guarantees of the handshake, as a property of its log alone. */
  ghost predicate Guaranteed(flag: bool, log: seq<Event>) {
    && NoPressLost(log)
    && NoPhantom(flag, log)
    && Count(log, IsOn) <= Count(log, IsSet) + (if flag then 1 else 0)
  }

  lemma {:induction false} EveryRunIsGuaranteed(flag: bool, schedule: seq<Step>)
    ensures Guaranteed(flag, Run(Init(flag), schedule).log)
  {
    PendingRun(flag, schedule);
    FlagHasCauseRun(flag, schedule);
    OnesArePaidFor(flag, schedule);
  }
}
