/** What a round trip ends in, told from the request's outcome and the size of the buffer alone, and when
    it may be given up. */
module BridgeAnswers {
  import opened Text
  import opened Protocol
  import opened SharedBridge
  import opened BridgeSafety
  import opened BridgeDelivery
  import opened BridgeProgress
  import BridgeStale

  /** The bridge has something to say for request `t` that fits the buffer: the answer's head, or the error
      that it does not fit, or the transport's own error. */
  predicate CanBeSaid(c: Config, t: nat) {
    match c.outcome(t)
    case Answer(head, _) => |c.stringify(head)| <= c.cap || |"offset is out of bounds"| <= c.cap
    case Failure(message) => |message| <= c.cap
  }

  /** What the caller is told of request `t`, if anything can be said. */
  predicate Told(c: Config, t: nat, r: Result) {
    match c.outcome(t)
    case Answer(head, body) =>
      if |c.stringify(head)| <= c.cap then r == Returned(head, body)
      else r == Threw(BridgeSaid("offset is out of bounds"))
    case Failure(message) => r == Threw(BridgeSaid(if message == "" then "bridge error" else message))
  }

  lemma SaidInFrames(c: Config, t: nat)
    requires Lawful(c)
    ensures Frames(c, t) != [] <==> CanBeSaid(c, t)
    ensures Expected(c, t).Some? <==> CanBeSaid(c, t)
    ensures CanBeSaid(c, t) ==> Told(c, t, Expected(c, t).value)
  {
    hide BodyFrames;
  }

  /** From any moment at which the bridge owes nothing, up to the first round trip abandoned with its answer
      still to come: a round trip that is not ended by its deadline ends in its own answer, head and body;
      or in the transport's own words, "bridge error" standing for none; or, for a head larger than the
      buffer, in the words of the range error. One with nothing that fits ends at its deadline. */
  lemma AnswersOrErrors(c: Config, clock: nat, before: seq<Action>, quiet: State, acts: seq<Action>, s: State, i: nat)
    requires AfterQuiet(c, clock, before, quiet, acts, s)
    requires |quiet.log| <= i < |s.log|
    requires forall j | |quiet.log| <= j < i && s.log[j] == Threw(NoAnswer) :: !CanBeSaid(c, j)
    ensures s.log[i] == Threw(NoAnswer) || (CanBeSaid(c, i) && Told(c, i, s.log[i]))
  {
    hide Frames, Expected, CanBeSaid, Told, Run, OwesNothing;
    QuietIsGood(c, clock, before, quiet, acts, s);
    forall j: nat ensures Frames(c, j) != [] <==> CanBeSaid(c, j) {
      SaidInFrames(c, j);
    }
    SaidInFrames(c, i);
    assert !Spoiled(c, s.log, |quiet.log|, i);
    assert AsOwed(c, i, s.log[i]);
  }

  lemma AnswersFromTheStart(c: Config, clock: nat, acts: seq<Action>, s: State, i: nat)
    requires Lawful(c) && Run(c, Init(c, clock), acts) == Some(s) && i < |s.log|
    requires forall j | 0 <= j < i && s.log[j] == Threw(NoAnswer) :: !CanBeSaid(c, j)
    ensures s.log[i] == Threw(NoAnswer) || (CanBeSaid(c, i) && Told(c, i, s.log[i]))
  {
    StartIsQuiet(c, clock);
    hide CanBeSaid, Told, OwesNothing;
    AnswersOrErrors(c, clock, [], Init(c, clock), acts, s, i);
  }

  /** And it can come to that: whatever can be said, some run says it. */
  lemma SomeRunTells(c: Config) returns (acts: seq<Action>, s: State)
    requires Lawful(c) && c.starts && CanBeSaid(c, 0)
    ensures Run(c, Init(c, 0), acts) == Some(s)
    ensures |s.log| == 1 && Told(c, 0, s.log[0])
  {
    hide Frames, Expected, CanBeSaid, Told, Run;
    SaidInFrames(c, 0);
    acts, s := BridgeStale.SomeRunDelivers(c);
  }

  // --- giving up -----------------------------------------------------------

  /** The round trip under way will not be given up before `limit`. */
  predicate HoldsOut(c: Config, s: State, limit: nat) {
    InTrip(s.shim) && if s.shim.SetDeadline? then s.now + c.budget + 5000 >= limit else s.deadline >= limit
  }

  lemma ShimHoldsOut(c: Config, s: State, s': State, limit: nat)
    requires HoldsOut(c, s, limit) && ShimApply(c, s) == Some(s')
    ensures s'.now == s.now
    ensures (s'.log == s.log && HoldsOut(c, s', limit)) ||
            (|s'.log| == |s.log| + 1 && s.log <= s'.log && (s'.log[|s.log|] == Threw(NoAnswer) ==> s.now >= limit))
  {
    hide Concat, HasMeta, HasMore, ErrorText, Min;
    match s.shim
    case Act(_, _, _) =>
    case Assemble =>
    case Check =>
    case SetDeadline =>
    case _ =>
  }

  lemma StepHoldsOut(c: Config, s: State, a: Action, s': State, limit: nat)
    requires HoldsOut(c, s, limit) && Apply(c, s, a) == Some(s')
    ensures s.now <= s'.now && s.log <= s'.log
    ensures (s'.log == s.log && HoldsOut(c, s', limit)) ||
            (|s'.log| == |s.log| + 1 && (s'.log[|s.log|] == Threw(NoAnswer) ==> s.now >= limit))
  {
    hide ShimApply, BridgeApply;
    match a
    case ShimStep => ShimHoldsOut(c, s, s', limit);
    case BridgeStep => BridgeEffect(c, s, s');
    case _ =>
  }

  lemma {:induction false} ClockGoesOn(c: Config, s: State, acts: seq<Action>, s': State)
    requires Run(c, s, acts) == Some(s')
    ensures s.now <= s'.now
    decreases |acts|
  {
    hide ShimApply, BridgeApply;
    if |acts| == 0 {
    } else {
      var s1 := Apply(c, s, acts[0]).value;
      if acts[0].BridgeStep? { BridgeEffect(c, s, s1); }
      if acts[0].ShimStep? { ShimKeepsClock(c, s, s1); }
      ClockGoesOn(c, s1, acts[1..], s');
    }
  }

  lemma ShimKeepsClock(c: Config, s: State, s': State)
    requires ShimApply(c, s) == Some(s')
    ensures s'.now == s.now
  {
    hide Concat, HasMeta, HasMore, ErrorText, Min;
    match s.shim
    case Act(_, _, _) =>
    case Assemble =>
    case _ =>
  }

  lemma {:induction false} RunHoldsOut(c: Config, s: State, acts: seq<Action>, s': State, limit: nat)
    requires HoldsOut(c, s, limit) && Run(c, s, acts) == Some(s')
    ensures |s'.log| > |s.log| && s'.log[|s.log|] == Threw(NoAnswer) ==> s'.now >= limit
    decreases |acts|
  {
    hide HoldsOut, Apply;
    if |acts| == 0 {
    } else {
      var s1 := Apply(c, s, acts[0]).value;
      StepHoldsOut(c, s, acts[0], s1, limit);
      LogOnlyGrows(c, s1, acts[1..], s');
      ClockGoesOn(c, s1, acts[1..], s');
      if s1.log == s.log { RunHoldsOut(c, s1, acts[1..], s', limit); }
    }
  }

  /** No round trip is given up early: only when the request's own budget has passed since it was posted, and
      five seconds more, so that the bridge's error can come first. */
  lemma NeverGivenUpEarly(c: Config, s: State, acts: seq<Action>, s': State)
    requires s.shim.SetDeadline? && Run(c, s, acts) == Some(s')
    requires |s'.log| > |s.log| && s'.log[|s.log|] == Threw(NoAnswer)
    ensures s'.now >= s.now + c.budget + 5000
  {
    RunHoldsOut(c, s, acts, s', s.now + c.budget + 5000);
  }
}
