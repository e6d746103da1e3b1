/** Time-based one-time codes: which step a code may stand for, and the claim that makes each
    step usable once. */
module OneTimeCodes {
  import opened Options

  const STEP_SECONDS := 30

  /** What is stored for a user: nothing, a value that no longer decrypts, or a secret. */
  datatype Secret = NoSecret | Unreadable | Readable(text: string)

  /** The code of a secret at a step. */
  type Codes = (string, int) -> string

  function StepOf(seconds: nat): nat {
    seconds / STEP_SECONDS
  }

  /** A step that is no replay: later than the last one accepted. */
  predicate Newer(last: Option<int>, step: int) {
    last.None? || last.value < step
  }

  predicate Usable(codes: Codes, secret: string, last: Option<int>, code: string, step: int) {
    codes(secret, step) == code && Newer(last, step)
  }

  /** The steps one either side of `now`. */
  predicate InWindow(now: int, step: int) {
    now - 1 <= step <= now + 1
  }

  /** The earliest step of the window this code can still be used for. */
  function Candidate(codes: Codes, secret: string, last: Option<int>, code: string, now: int): (r: Option<int>)
    ensures r.Some? ==> InWindow(now, r.value) && Usable(codes, secret, last, code, r.value)
    ensures forall step :: InWindow(now, step) && Usable(codes, secret, last, code, step) ==> r.Some? && r.value <= step
  {
    if Usable(codes, secret, last, code, now - 1) then Some(now - 1)
    else if Usable(codes, secret, last, code, now) then Some(now)
    else if Usable(codes, secret, last, code, now + 1) then Some(now + 1)
    else None
  }

  lemma WindowInSeconds(seconds: nat, step: int)
    ensures InWindow(StepOf(seconds), step) <==> 30 * (step - 1) <= seconds < 30 * (step + 2)
  {
  }

  /** The window in seconds: the thirty of the step itself and the thirty on either side. */
  lemma UsableInSeconds(codes: Codes, secret: string, last: Option<int>, code: string, seconds: nat)
    ensures (exists step :: InWindow(StepOf(seconds), step) && Usable(codes, secret, last, code, step)) <==>
            exists step :: codes(secret, step) == code && 30 * (step - 1) <= seconds < 30 * (step + 2)
                           && (last == None || last.value < step)
  {
    hide InWindow, StepOf;
    forall step
      ensures InWindow(StepOf(seconds), step) <==> 30 * (step - 1) <= seconds < 30 * (step + 2)
    {
      WindowInSeconds(seconds, step);
    }
    if step :| codes(secret, step) == code && 30 * (step - 1) <= seconds < 30 * (step + 2)
               && (last == None || last.value < step) {
      assert Usable(codes, secret, last, code, step);
    }
  }

  class User {
    var secret: Secret
    var lastTotpStep: Option<int>

    constructor (secret: Secret)
      ensures this.secret == secret && lastTotpStep == None
    {
      this.secret, lastTotpStep := secret, None;
    }

    /** The conditional update: it matches the row only if the step is newer. */
    method Claim(step: int) returns (claimed: bool)
      modifies this`lastTotpStep
      ensures claimed == Newer(old(lastTotpStep), step)
      ensures lastTotpStep == if claimed then Some(step) else old(lastTotpStep)
    {
      claimed := lastTotpStep.None? || lastTotpStep.value < step;
      if claimed {
        lastTotpStep := Some(step);
      }
    }

    /** Accepts a code exactly when it is the code of a step in the window that is newer than
        the last one accepted, and then uses up the earliest such step and no more. */
    method VerifyTotp(codes: Codes, code: string, seconds: nat) returns (ok: bool)
      modifies this`lastTotpStep
      ensures ok <==> code != "" && secret.Readable? && secret.text != "" &&
                      exists step :: InWindow(StepOf(seconds), step) && Usable(codes, secret.text, old(lastTotpStep), code, step)
      ensures ok <==> code != "" && secret.Readable? && secret.text != "" &&
                      exists step :: codes(secret.text, step) == code && 30 * (step - 1) <= seconds < 30 * (step + 2)
                                     && (old(lastTotpStep) == None || old(lastTotpStep).value < step)
      ensures ok ==> lastTotpStep.Some? && (old(lastTotpStep) == None || old(lastTotpStep).value < lastTotpStep.value)
      ensures !ok ==> lastTotpStep == old(lastTotpStep)
      ensures ok ==> lastTotpStep.Some? && InWindow(StepOf(seconds), lastTotpStep.value)
                     && Usable(codes, secret.text, old(lastTotpStep), code, lastTotpStep.value)
                     && forall step :: InWindow(StepOf(seconds), step) && step < lastTotpStep.value ==>
                          !Usable(codes, secret.text, old(lastTotpStep), code, step)
    {
      if !secret.Readable? || secret.text == "" || code == "" {
        return false;
      }
      UsableInSeconds(codes, secret.text, lastTotpStep, code, seconds);
      var now := StepOf(seconds);
      var step := now - 1;
      while step <= now + 1
        invariant now - 1 <= step <= now + 2
        invariant lastTotpStep == old(lastTotpStep)
        invariant forall s :: now - 1 <= s < step ==> !Usable(codes, secret.text, lastTotpStep, code, s)
      {
        if codes(secret.text, step) == code && !(lastTotpStep.Some? && step <= lastTotpStep.value) {
          assert InWindow(now, step) && Usable(codes, secret.text, lastTotpStep, code, step);
          var claimed := Claim(step);
          return claimed;
        }
        step := step + 1;
      }
      return false;
    }
  }

  /** The same code, sent again at any later moment with nothing reset in between, is refused
      unless it is also the code of a step after the one it used up. */
  lemma ReplayNeedsANewStep(codes: Codes, secret: string, last: Option<int>, code: string, now: int, later: int)
    requires Candidate(codes, secret, last, code, now).Some?
    ensures var used := Candidate(codes, secret, last, code, now);
      var again := Candidate(codes, secret, used, code, later);
      again.Some? ==> used.value < again.value <= later + 1 && codes(secret, again.value) == code
  {
  }

  // ---- Calls that overlap ----

  /** The row, and how often its secret has been replaced. */
  datatype Row = Row(generation: nat, last: Option<int>)

  datatype Call = Claiming(generation: nat, step: int, now: int, code: string) | Finished(ok: bool)

  /** A step accepted. `current` says the secret the call read was still the user's. */
  datatype Acceptance = Acceptance(generation: nat, step: int, now: int, code: string, current: bool)

  datatype System = System(row: Row, calls: map<nat, Call>, accepted: seq<Acceptance>)

  datatype Event =
    | Read(call: nat, code: string, now: int)
    | Claim(call: nat)
    | Reset

  /** The secret of each generation. */
  type Secrets = nat -> string

  predicate Enabled(s: System, e: Event) {
    match e
    case Read(call, _, _) => call !in s.calls
    case Claim(call) => call in s.calls && s.calls[call].Claiming?
    case Reset => true
  }

  function Next(codes: Codes, secrets: Secrets, s: System, e: Event): System
    requires Enabled(s, e)
  {
    match e
    case Read(call, code, now) =>
      var c := Candidate(codes, secrets(s.row.generation), s.row.last, code, now);
      s.(calls := s.calls[call := if c.Some? then Claiming(s.row.generation, c.value, now, code) else Finished(false)])
    case Claim(call) =>
      var c := s.calls[call];
      if Newer(s.row.last, c.step)
      then System(s.row.(last := Some(c.step)), s.calls[call := Finished(true)],
                  s.accepted + [Acceptance(c.generation, c.step, c.now, c.code, c.generation == s.row.generation)])
      else s.(calls := s.calls[call := Finished(false)])
    case Reset => s.(row := Row(s.row.generation + 1, None))
  }

  /** Claims in progress and acceptances were read from a secret the user has or had, and stand
      for a step in the caller's window whose code was the one sent. */
  predicate Sound(codes: Codes, secrets: Secrets, s: System, generation: nat, step: int, now: int, code: string) {
    generation <= s.row.generation && InWindow(now, step) && codes(secrets(generation), step) == code
  }

  ghost predicate Invariant(codes: Codes, secrets: Secrets, s: System) {
    && (forall c :: c in s.calls && s.calls[c].Claiming? ==>
          Sound(codes, secrets, s, s.calls[c].generation, s.calls[c].step, s.calls[c].now, s.calls[c].code))
    && (forall i :: 0 <= i < |s.accepted| ==>
          Sound(codes, secrets, s, s.accepted[i].generation, s.accepted[i].step, s.accepted[i].now, s.accepted[i].code))
    && (forall i :: 0 <= i < |s.accepted| && s.accepted[i].generation == s.row.generation ==>
          s.row.last.Some? && s.accepted[i].step <= s.row.last.value)
    && StrictlyIncreasing(s.accepted)
  }

  /** Every acceptance under the user's own secret is later than all before it of that secret. */
  ghost predicate StrictlyIncreasing(accepted: seq<Acceptance>) {
    forall i, j :: 0 <= i < j < |accepted| && accepted[j].current && accepted[i].generation == accepted[j].generation ==>
      accepted[i].step < accepted[j].step
  }

  lemma StepKeepsInvariant(codes: Codes, secrets: Secrets, s: System, e: Event)
    requires Invariant(codes, secrets, s) && Enabled(s, e)
    ensures Invariant(codes, secrets, Next(codes, secrets, s, e))
  {
  }

  ghost predicate IsRun(codes: Codes, secrets: Secrets, s: System, events: seq<Event>)
    decreases |events|
  {
    events == [] || (Enabled(s, events[0]) && IsRun(codes, secrets, Next(codes, secrets, s, events[0]), events[1..]))
  }

  ghost function Final(codes: Codes, secrets: Secrets, s: System, events: seq<Event>): System
    requires IsRun(codes, secrets, s, events)
    decreases |events|
  {
    if events == [] then s else Final(codes, secrets, Next(codes, secrets, s, events[0]), events[1..])
  }

  const FRESH: System := System(Row(0, None), map[], [])

  lemma {:induction false} RunKeepsInvariant(codes: Codes, secrets: Secrets, s: System, events: seq<Event>)
    requires Invariant(codes, secrets, s) && IsRun(codes, secrets, s, events)
    ensures Invariant(codes, secrets, Final(codes, secrets, s, events))
    decreases |events|
  {
    hide Invariant, Next, Enabled;
    if events != [] {
      StepKeepsInvariant(codes, secrets, s, events[0]);
      RunKeepsInvariant(codes, secrets, Next(codes, secrets, s, events[0]), events[1..]);
    }
  }

  /** In every interleaving an accepted step is within one of the caller's own and its code is
      the one sent; the steps accepted for a secret while it is the user's strictly increase. */
  lemma AcceptedStepsIncrease(codes: Codes, secrets: Secrets, events: seq<Event>, i: nat, j: nat)
    requires IsRun(codes, secrets, FRESH, events)
    requires i < j < |Final(codes, secrets, FRESH, events).accepted|
    ensures var a := Final(codes, secrets, FRESH, events).accepted;
      && InWindow(a[j].now, a[j].step) && codes(secrets(a[j].generation), a[j].step) == a[j].code
      && (a[j].current && a[i].generation == a[j].generation ==> a[i].step < a[j].step)
  {
    hide IsRun, Final, Next, Enabled, InWindow;
    RunKeepsInvariant(codes, secrets, FRESH, events);
  }

  /** A step of a secret is accepted again only by a call that read the secret, and then had it
      replaced under it before claiming. */
  lemma EachStepOnce(codes: Codes, secrets: Secrets, events: seq<Event>, i: nat, j: nat)
    requires IsRun(codes, secrets, FRESH, events)
    requires i < j < |Final(codes, secrets, FRESH, events).accepted|
    ensures var a := Final(codes, secrets, FRESH, events).accepted;
      a[i].generation == a[j].generation && a[i].step == a[j].step ==> !a[j].current
  {
    hide IsRun, Final, Next, Enabled;
    AcceptedStepsIncrease(codes, secrets, events, i, j);
  }

  /** The step a call is about to claim was accepted before. */
  predicate Used(s: System, call: nat)
    requires Enabled(s, Claim(call))
  {
    exists i :: 0 <= i < |s.accepted| && SameStep(s.accepted[i], s.calls[call].generation, s.calls[call].step)
  }

  predicate SameStep(a: Acceptance, generation: nat, step: int) {
    a.generation == generation && a.step == step
  }

  /** The call's secret was replaced since it read it, and its step is newer than what the new
      secret has accepted: the two things the conditional update could look at together. */
  predicate Slips(s: System, call: nat)
    requires Enabled(s, Claim(call))
  {
    s.calls[call].generation != s.row.generation && Newer(s.row.last, s.calls[call].step)
  }

  lemma UsedIsAcceptedIff(codes: Codes, secrets: Secrets, s: System, call: nat)
    requires Invariant(codes, secrets, s) && Enabled(s, Claim(call)) && Used(s, call)
    ensures Next(codes, secrets, s, Claim(call)).calls[call] == Finished(true) <==> Slips(s, call)
  {
    var i :| 0 <= i < |s.accepted| && SameStep(s.accepted[i], s.calls[call].generation, s.calls[call].step);
  }

  /** In every reachable state a claim of a step already accepted for its secret is accepted
      again exactly when the secret was replaced since the call read it and the new one has
      accepted no step as late. */
  lemma ReusedIff(codes: Codes, secrets: Secrets, events: seq<Event>, call: nat)
    requires IsRun(codes, secrets, FRESH, events)
    requires Enabled(Final(codes, secrets, FRESH, events), Claim(call)) && Used(Final(codes, secrets, FRESH, events), call)
    ensures var s := Final(codes, secrets, FRESH, events);
      Next(codes, secrets, s, Claim(call)).calls[call] == Finished(true) <==>
        s.calls[call].generation != s.row.generation && Newer(s.row.last, s.calls[call].step)
  {
    RunKeepsInvariant(codes, secrets, FRESH, events);
    hide IsRun, Final, Next, Invariant;
    UsedIsAcceptedIff(codes, secrets, Final(codes, secrets, FRESH, events), call);
  }

  ghost predicate AllDifferent(accepted: seq<Acceptance>) {
    forall i, j :: 0 <= i < j < |accepted| ==> !SameStep(accepted[i], accepted[j].generation, accepted[j].step)
  }

  /** Some claim of the run meets a used step and slips through. */
  ghost predicate SlipsDuring(codes: Codes, secrets: Secrets, s: System, events: seq<Event>)
    requires IsRun(codes, secrets, s, events)
    decreases |events|
  {
    events != [] &&
    ((events[0].Claim? && Used(s, events[0].call) && Slips(s, events[0].call))
     || SlipsDuring(codes, secrets, Next(codes, secrets, s, events[0]), events[1..]))
  }

  lemma StepDifferentIff(codes: Codes, secrets: Secrets, s: System, e: Event)
    requires Invariant(codes, secrets, s) && Enabled(s, e) && AllDifferent(s.accepted)
    ensures AllDifferent(Next(codes, secrets, s, e).accepted) <==> !(e.Claim? && Used(s, e.call) && Slips(s, e.call))
  {
    var t := Next(codes, secrets, s, e);
    if e.Claim? {
      var c := s.calls[e.call];
      if Used(s, e.call) {
        UsedIsAcceptedIff(codes, secrets, s, e.call);
        var i :| 0 <= i < |s.accepted| && SameStep(s.accepted[i], c.generation, c.step);
        if Slips(s, e.call) {
          assert t.accepted[i] == s.accepted[i] && SameStep(t.accepted[|s.accepted|], c.generation, c.step);
        }
      }
    }
    hide Invariant, Candidate;
  }

  lemma AcceptedOnlyGrows(codes: Codes, secrets: Secrets, s: System, e: Event)
    requires Enabled(s, e) && AllDifferent(Next(codes, secrets, s, e).accepted)
    ensures AllDifferent(s.accepted)
  {
    hide Candidate, SameStep;
    var t := Next(codes, secrets, s, e);
    assert forall i :: 0 <= i < |s.accepted| ==> t.accepted[i] == s.accepted[i];
  }

  lemma {:induction false} StayedDifferent(codes: Codes, secrets: Secrets, s: System, events: seq<Event>)
    requires IsRun(codes, secrets, s, events) && AllDifferent(Final(codes, secrets, s, events).accepted)
    ensures AllDifferent(s.accepted)
    decreases |events|
  {
    hide AllDifferent, Next, Enabled;
    if events != [] {
      StayedDifferent(codes, secrets, Next(codes, secrets, s, events[0]), events[1..]);
      AcceptedOnlyGrows(codes, secrets, s, events[0]);
    }
  }

  lemma {:induction false} RunDifferentIff(codes: Codes, secrets: Secrets, s: System, events: seq<Event>)
    requires Invariant(codes, secrets, s) && AllDifferent(s.accepted) && IsRun(codes, secrets, s, events)
    ensures AllDifferent(Final(codes, secrets, s, events).accepted) <==> !SlipsDuring(codes, secrets, s, events)
    decreases |events|
  {
    hide AllDifferent, Invariant, Next, Used, Slips;
    if events != [] {
      var t := Next(codes, secrets, s, events[0]);
      StepKeepsInvariant(codes, secrets, s, events[0]);
      StepDifferentIff(codes, secrets, s, events[0]);
      if AllDifferent(t.accepted) {
        RunDifferentIff(codes, secrets, t, events[1..]);
      } else if AllDifferent(Final(codes, secrets, t, events[1..]).accepted) {
        StayedDifferent(codes, secrets, t, events[1..]);
      }
    }
  }

  /** Over a whole run each step of each secret is accepted at most once exactly when no claim
      of a used step slips through a replaced secret. */
  lemma EachStepOnceIff(codes: Codes, secrets: Secrets, events: seq<Event>)
    requires IsRun(codes, secrets, FRESH, events)
    ensures (forall i, j :: 0 <= i < j < |Final(codes, secrets, FRESH, events).accepted| ==>
               var a := Final(codes, secrets, FRESH, events).accepted;
               !SameStep(a[i], a[j].generation, a[j].step))
       <==> !SlipsDuring(codes, secrets, FRESH, events)
  {
    hide IsRun, Final, SlipsDuring, Next, Enabled;
    RunDifferentIff(codes, secrets, FRESH, events);
  }

  /** Nothing was read from a secret other than the user's present one. */
  ghost predicate OneSecret(s: System) {
    && (forall c :: c in s.calls && s.calls[c].Claiming? ==> s.calls[c].generation == s.row.generation)
    && (forall i :: 0 <= i < |s.accepted| ==> s.accepted[i].generation == s.row.generation && s.accepted[i].current)
  }

  lemma {:induction false} WithoutResetOneSecret(codes: Codes, secrets: Secrets, s: System, events: seq<Event>)
    requires OneSecret(s) && IsRun(codes, secrets, s, events) && Reset !in events
    ensures OneSecret(Final(codes, secrets, s, events))
    decreases |events|
  {
    hide Candidate;
    if events != [] {
      assert events[0] in events && forall e :: e in events[1..] ==> e in events;
      WithoutResetOneSecret(codes, secrets, Next(codes, secrets, s, events[0]), events[1..]);
    }
  }

  /** While the secret is not replaced, accepted steps strictly increase over the whole run, so
      each is accepted at most once. */
  lemma WithoutResetStepsIncrease(codes: Codes, secrets: Secrets, events: seq<Event>, i: nat, j: nat)
    requires IsRun(codes, secrets, FRESH, events) && Reset !in events
    requires i < j < |Final(codes, secrets, FRESH, events).accepted|
    ensures var a := Final(codes, secrets, FRESH, events).accepted;
      a[i].step < a[j].step
  {
    hide IsRun, Final, Next, Enabled;
    WithoutResetOneSecret(codes, secrets, FRESH, events);
    AcceptedStepsIncrease(codes, secrets, events, i, j);
  }

  /** Of two overlapping calls with the same unused code, whichever claims first wins and the
      other is refused. */
  lemma RaceHasOneWinner(codes: Codes, secrets: Secrets, s: System, a: nat, b: nat)
    requires a != b && Enabled(s, Claim(a)) && Enabled(s, Claim(b))
    requires s.calls[a].step == s.calls[b].step && Newer(s.row.last, s.calls[a].step)
    ensures var t := Next(codes, secrets, s, Claim(a));
      Enabled(t, Claim(b)) && t.calls[a] == Finished(true)
      && Next(codes, secrets, t, Claim(b)).calls[b] == Finished(false)
      && Next(codes, secrets, t, Claim(b)).accepted == t.accepted
  {
  }

  /** The claim does not look at the secret, so a reset between a call's read and its claim does
      let a step already used be accepted a second time. */
  lemma ResetBetweenReadAndClaim(codes: Codes, secrets: Secrets, now: int) returns (events: seq<Event>)
    ensures IsRun(codes, secrets, FRESH, events)
    ensures var a := Final(codes, secrets, FRESH, events).accepted;
      |a| == 2 && a[0].generation == a[1].generation && a[0].step == a[1].step && !a[1].current
  {
    var code := codes(secrets(0), now);
    events := [Read(0, code, now), Read(1, code, now), Claim(0), Reset, Claim(1)];
    var c := Candidate(codes, secrets(0), None, code, now);
    var s1 := Next(codes, secrets, FRESH, events[0]);
    var s2 := Next(codes, secrets, s1, events[1]);
    var s3 := Next(codes, secrets, s2, events[2]);
    var s4 := Next(codes, secrets, s3, events[3]);
    FirstThen(codes, secrets, s4, events[4], []);
    FirstThen(codes, secrets, s3, events[3], [events[4]]);
    FirstThen(codes, secrets, s2, events[2], [events[3], events[4]]);
    FirstThen(codes, secrets, s1, events[1], [events[2], events[3], events[4]]);
    FirstThen(codes, secrets, FRESH, events[0], [events[1], events[2], events[3], events[4]]);
    assert events == [events[0]] + [events[1], events[2], events[3], events[4]];
  }

  lemma FirstThen(codes: Codes, secrets: Secrets, s: System, first: Event, rest: seq<Event>)
    requires Enabled(s, first) && IsRun(codes, secrets, Next(codes, secrets, s, first), rest)
    ensures IsRun(codes, secrets, s, [first] + rest)
    ensures Final(codes, secrets, s, [first] + rest) == Final(codes, secrets, Next(codes, secrets, s, first), rest)
  {
    hide Enabled, Next;
    var events := [first] + rest;
    assert events[0] == first && events[1..] == rest;
  }
}
