/** The mock engine as a state machine: expectations, their actions, and what a call does to them. */
module MockRuns {
  import opened Options
  import opened Matchers

  datatype Action = Action(func: int, expired: bool)

  /** What a matching call ran: a one-time action, the fallback, or the empty function. */
  datatype Ran = OneTime(func: int) | Fallback(func: int) | Empty

  /** `ran` records what each matching call ran; nothing reads it. */
  datatype Expectation = Expectation(
    matchers: seq<Matcher>,
    expectedNumMatches: Option<int>,
    actions: seq<Action>,
    fallback: Option<int>,
    numMatches: nat,
    ran: seq<Ran>)

  function NewExpectation(matchers: seq<Matcher>): Expectation {
    Expectation(matchers, None, [], None, 0, [])
  }

  // ----- Matching arguments

  /** Arguments beyond the end are missing. */
  function ArgumentAt(args: seq<Candidate>, i: nat): Candidate {
    if i < |args| then args[i] else Sentinel
  }

  /** A missing argument is shown only to a matcher that understands it.  A sentinel that really was passed goes to
      isMissingArgSentinel without being judged. */
  predicate ArgumentAccepted(m: Matcher, args: seq<Candidate>, i: nat) {
    var x := ArgumentAt(args, i);
    (i < |args| && x.Sentinel? && m.isSentinelMatcher)
    || ((x.Sentinel? ==> m.understandsMissingArgs) && !m.judge(x).False? && !m.judge(x).Message?)
  }

  predicate ArgumentsMatch(args: seq<Candidate>, matchers: seq<Matcher>) {
    |args| <= |matchers| && forall i :: 0 <= i < |matchers| ==> ArgumentAccepted(matchers[i], args, i)
  }

  /** What an argument in its place, a missing one and a sentinel that was passed take to be accepted. */
  lemma ArgumentAcceptedIff(m: Matcher, args: seq<Candidate>, i: nat)
    ensures i < |args| && args[i] != Sentinel ==> (ArgumentAccepted(m, args, i) <==> m.judge(args[i]) == True)
    ensures i < |args| && args[i] == Sentinel ==>
      (ArgumentAccepted(m, args, i) <==> m.isSentinelMatcher || (m.understandsMissingArgs && m.judge(Sentinel) == True))
    ensures |args| <= i ==> (ArgumentAccepted(m, args, i) <==> m.understandsMissingArgs && m.judge(Sentinel) == True)
  {
  }

  /** Accepts an argument in its place exactly if it equals some value; neither a missing one nor the sentinel. */
  ghost predicate AcceptsOnlyEqual(m: Matcher, equality: Candidate -> Outcome) {
    forall args: seq<Candidate>, i: nat :: ArgumentAccepted(m, args, i) <==>
      i < |args| && args[i] != Sentinel && equality(args[i]) == True
  }

  /** What a plain value stands for. */
  lemma PlainArgument(equality: Candidate -> Outcome)
    ensures AcceptsOnlyEqual(ToMatcher(Plain(equality)), equality)
  {
    forall args: seq<Candidate>, i: nat
      ensures ArgumentAccepted(ToMatcher(Plain(equality)), args, i) <==>
        i < |args| && args[i] != Sentinel && equality(args[i]) == True
    {
      ArgumentAcceptedIff(ToMatcher(Plain(equality)), args, i);
    }
  }

  ghost predicate StandsFor(m: Matcher, item: Item) {
    match item
    case Given(given) => m == given
    case Plain(equality) => AcceptsOnlyEqual(m, equality)
  }

  ghost predicate AllStandFor(ms: seq<Matcher>, items: seq<Item>) {
    |ms| == |items| && forall i :: 0 <= i < |ms| ==> StandsFor(ms[i], items[i])
  }

  lemma MatchersStandFor(items: seq<Item>)
    ensures AllStandFor(ToMatchers(items), items)
  {
    forall i | 0 <= i < |items| ensures StandsFor(ToMatchers(items)[i], items[i]) {
      if items[i].Plain? {
        PlainArgument(items[i].equality);
      }
    }
  }

  // ----- Arguments given as expressions over matchers

  /** The expression is isMissingArgSentinel itself, for combinators return a single part as it is. */
  predicate IsSentinelMatcher(e: Expr) {
    match e
    case Base(m) => m.isSentinelMatcher
    case All(parts) => |parts| == 1 && IsSentinelMatcher(parts[0])
    case Any(parts) => |parts| == 1 && IsSentinelMatcher(parts[0])
    case Negate(_) => false
  }

  lemma {:induction false} CompiledIsSentinelMatcher(e: Expr)
    ensures Compile(e).isSentinelMatcher <==> IsSentinelMatcher(e)
    decreases e
  {
    match e
    case Base(_) =>
    case All(parts) => if |parts| == 1 { CompiledIsSentinelMatcher(parts[0]); }
    case Any(parts) => if |parts| == 1 { CompiledIsSentinelMatcher(parts[0]); }
    case Negate(_) =>
  }

  /** The expression means the i-th argument. */
  predicate MeansArgument(e: Expr, args: seq<Candidate>, i: nat) {
    if |args| <= i then MeansMissing(e)
    else if args[i] == Sentinel then IsSentinelMatcher(e) || MeansMissing(e)
    else if args[i] == Text("(missing)") then MeansAtMissingText(e)
    else Means(e, args[i])
  }

  lemma ArgumentAcceptedIffMeant(e: Expr, args: seq<Candidate>, i: nat)
    requires HonestBases(e, ArgumentAt(args, i))
    ensures ArgumentAccepted(Compile(e), args, i) <==> MeansArgument(e, args, i)
  {
    ArgumentAcceptedIff(Compile(e), args, i);
    CompiledIsSentinelMatcher(e);
    var x := ArgumentAt(args, i);
    if x == Sentinel {
      CompiledMeansMissing(e);
    } else if x == Text("(missing)") {
      CompiledMeansAtMissingText(e);
    } else {
      CompiledMeans(e, x);
    }
  }

  /** A call matches exactly if it has not too many arguments, and every argument, present or missing, is meant. */
  lemma ArgumentsMatchIffMeant(es: seq<Expr>, args: seq<Candidate>)
    requires forall i :: 0 <= i < |es| ==> HonestBases(es[i], ArgumentAt(args, i))
    ensures ArgumentsMatch(args, CompileEach(es)) <==>
      |args| <= |es| && forall i :: 0 <= i < |es| ==> MeansArgument(es[i], args, i)
  {
    forall i | 0 <= i < |es|
      ensures ArgumentAccepted(CompileEach(es)[i], args, i) <==> MeansArgument(es[i], args, i)
    {
      ArgumentAcceptedIffMeant(es[i], args, i);
    }
  }

  // ----- Consuming an action

  /** The first unexpired one-time action; the length if there is none. */
  function NextAction(actions: seq<Action>): (k: nat)
    ensures k <= |actions| && (forall i :: 0 <= i < k ==> actions[i].expired) && (k < |actions| ==> !actions[k].expired)
  {
    if actions == [] || !actions[0].expired then 0 else 1 + NextAction(actions[1..])
  }

  function Consumed(e: Expectation): Ran {
    var k := NextAction(e.actions);
    if k < |e.actions| then OneTime(e.actions[k].func)
    else if e.fallback.Some? then Fallback(e.fallback.value)
    else Empty
  }

  function ExpireNext(actions: seq<Action>): seq<Action> {
    var k := NextAction(actions);
    if k < |actions| then actions[k := actions[k].(expired := true)] else actions
  }

  function AfterMatch(e: Expectation): Expectation {
    e.(numMatches := e.numMatches + 1, actions := ExpireNext(e.actions), ran := e.ran + [Consumed(e)])
  }

  // ----- Steps and runs

  /** One mock function; `calls` counts completed dispatches. */
  datatype Mock = Mock(expectations: seq<Expectation>, calls: nat, failures: nat)

  const Unused: Mock := Mock([], 0, 0)

  /** k names an expectation by its place in the list. */
  datatype Step =
    | ExpectCall(matchers: seq<Matcher>)
    | Times(k: nat, n: int)
    | WillOnce(k: nat, func: int)
    | WillRepeatedly(k: nat, func: int)
    | Call(args: seq<Candidate>)

  /** The newest of the first n expectations that accepts the arguments; n if none does. */
  function Newest(es: seq<Expectation>, args: seq<Candidate>, n: nat): (j: nat)
    requires n <= |es|
    ensures j <= n
    ensures j < n ==> ArgumentsMatch(args, es[j].matchers) && forall i :: j < i < n ==> !ArgumentsMatch(args, es[i].matchers)
    ensures j == n ==> forall i :: 0 <= i < n ==> !ArgumentsMatch(args, es[i].matchers)
  {
    if n == 0 then 0
    else if ArgumentsMatch(args, es[n - 1].matchers) then n - 1
    else
      var j := Newest(es, args, n - 1);
      if j == n - 1 then n else j
  }

  lemma NewestIs(es: seq<Expectation>, args: seq<Candidate>, n: nat, j: nat)
    requires j < n <= |es| && ArgumentsMatch(args, es[j].matchers)
    requires forall i :: j < i < n ==> !ArgumentsMatch(args, es[i].matchers)
    ensures Newest(es, args, n) == j
  {
  }

  /** Setup calls in the wrong order throw and change nothing. */
  predicate Throws(m: Mock, step: Step) {
    match step
    case Times(k, _) =>
      k >= |m.expectations| || m.expectations[k].expectedNumMatches.Some?
      || m.expectations[k].actions != [] || m.expectations[k].fallback.Some?
    case WillOnce(k, _) => k >= |m.expectations| || m.expectations[k].fallback.Some?
    case WillRepeatedly(k, _) => k >= |m.expectations| || m.expectations[k].fallback.Some?
    case _ => false
  }

  function Apply(m: Mock, step: Step): Mock {
    if Throws(m, step) then m
    else
      var es := m.expectations;
      match step
      case ExpectCall(matchers) => m.(expectations := es + [NewExpectation(matchers)])
      case Times(k, n) => m.(expectations := es[k := es[k].(expectedNumMatches := Some(n))])
      case WillOnce(k, func) => m.(expectations := es[k := es[k].(actions := es[k].actions + [Action(func, false)])])
      case WillRepeatedly(k, func) => m.(expectations := es[k := es[k].(fallback := Some(func))])
      case Call(args) => AfterCall(m, args)
  }

  function AfterCall(m: Mock, args: seq<Candidate>): Mock {
    AfterDispatch(m, Newest(m.expectations, args, |m.expectations|))
  }

  /** Expectation j takes the call; if there is no such expectation, it is a failure. */
  function AfterDispatch(m: Mock, j: nat): Mock
    requires j <= |m.expectations|
  {
    if j == |m.expectations| then m.(calls := m.calls + 1, failures := m.failures + 1)
    else m.(calls := m.calls + 1, expectations := m.expectations[j := AfterMatch(m.expectations[j])])
  }

  function RanBy(m: Mock, j: nat): Option<Ran>
    requires j <= |m.expectations|
  {
    if j == |m.expectations| then None else Some(Consumed(m.expectations[j]))
  }

  /** The caller gets what the expectation that takes the call has just recorded, or nothing. */
  lemma DispatchReturnsRan(m: Mock, j: nat)
    requires j <= |m.expectations|
    ensures j == |m.expectations| ==> RanBy(m, j) == None && AfterDispatch(m, j).failures == m.failures + 1
    ensures j < |m.expectations| ==>
      AfterDispatch(m, j).failures == m.failures && RanBy(m, j).Some?
      && AfterDispatch(m, j).expectations[j].ran == m.expectations[j].ran + [RanBy(m, j).value]
  {
  }

  function Run(m: Mock, steps: seq<Step>): Mock {
    if steps == [] then m else Apply(Run(m, steps[..|steps| - 1]), steps[|steps| - 1])
  }

  // ----- The verdict at the end of a test

  predicate Satisfied(e: Expectation) {
    if e.expectedNumMatches.Some? then e.numMatches == e.expectedNumMatches.value
    else if e.actions != [] then
      e.numMatches == |e.actions| || (e.fallback.Some? && e.numMatches > |e.actions|)
    else if e.fallback.Some? then true
    else e.numMatches == 1
  }

  // ----- What every run keeps

  function OneTimeFuncs(ran: seq<Ran>): seq<int> {
    if ran == [] then []
    else OneTimeFuncs(ran[..|ran| - 1]) + (if ran[|ran| - 1].OneTime? then [ran[|ran| - 1].func] else [])
  }

  function Funcs(actions: seq<Action>): seq<int> {
    seq(|actions|, i requires 0 <= i < |actions| => actions[i].func)
  }

  /** The expired actions are the first ones; they ran in order, once each; the fallback ran only after all. */
  ghost predicate ExpectationInv(e: Expectation) {
    var k := NextAction(e.actions);
    && (forall i :: k <= i < |e.actions| ==> !e.actions[i].expired)
    && |e.ran| == e.numMatches
    && OneTimeFuncs(e.ran) == Funcs(e.actions[..k])
    && (forall i :: 0 <= i < |e.ran| && e.ran[i].Fallback? ==>
          k == |e.actions| && e.fallback == Some(e.ran[i].func))
  }

  ghost predicate MockInv(m: Mock) {
    forall i :: 0 <= i < |m.expectations| ==> ExpectationInv(m.expectations[i])
  }

  lemma NextActionIs(actions: seq<Action>, k: nat)
    requires k <= |actions| && (forall i :: 0 <= i < k ==> actions[i].expired) && (k < |actions| ==> !actions[k].expired)
    ensures NextAction(actions) == k
  {
  }

  lemma MatchKeepsInv(e: Expectation)
    requires ExpectationInv(e)
    ensures ExpectationInv(AfterMatch(e))
  {
    var k, e' := NextAction(e.actions), AfterMatch(e);
    assert e'.ran[..|e.ran|] == e.ran;
    if k < |e.actions| {
      NextActionIs(e'.actions, k + 1);
      assert Funcs(e'.actions[..k + 1]) == Funcs(e.actions[..k]) + [e.actions[k].func];
    }
  }

  lemma WillOnceKeepsInv(e: Expectation, func: int)
    requires ExpectationInv(e) && e.fallback.None?
    ensures ExpectationInv(e.(actions := e.actions + [Action(func, false)]))
  {
    var k, actions := NextAction(e.actions), e.actions + [Action(func, false)];
    NextActionIs(actions, k);
    assert actions[..k] == e.actions[..k];
  }

  lemma StepKeepsInv(m: Mock, step: Step)
    requires MockInv(m)
    ensures MockInv(Apply(m, step))
  {
    if !Throws(m, step) {
      match step
      case WillOnce(k, func) => WillOnceKeepsInv(m.expectations[k], func);
      case Call(args) =>
        var j := Newest(m.expectations, args, |m.expectations|);
        if j < |m.expectations| {
          MatchKeepsInv(m.expectations[j]);
        }
      case _ =>
    }
  }

  /** Over every interleaving of setup and calls. */
  lemma {:induction false} RunKeepsInv(steps: seq<Step>)
    ensures MockInv(Run(Unused, steps))
  {
    if steps != [] {
      RunKeepsInv(steps[..|steps| - 1]);
      StepKeepsInv(Run(Unused, steps[..|steps| - 1]), steps[|steps| - 1]);
    }
  }

  // ----- Conservation of calls

  function TotalMatches(es: seq<Expectation>): nat {
    if es == [] then 0 else TotalMatches(es[..|es| - 1]) + es[|es| - 1].numMatches
  }

  lemma {:induction false} TotalAfterUpdate(es: seq<Expectation>, j: nat, e: Expectation)
    requires j < |es|
    ensures TotalMatches(es[j := e]) == TotalMatches(es) - es[j].numMatches + e.numMatches
  {
    var n := |es| - 1;
    if j == n {
      assert es[j := e][..n] == es[..n];
    } else {
      assert es[j := e][..n] == es[..n][j := e];
      TotalAfterUpdate(es[..n], j, e);
    }
  }

  lemma StepConservesCalls(m: Mock, step: Step)
    requires m.calls == TotalMatches(m.expectations) + m.failures
    ensures Apply(m, step).calls == TotalMatches(Apply(m, step).expectations) + Apply(m, step).failures
  {
    if !Throws(m, step) {
      var es := m.expectations;
      match step
      case ExpectCall(matchers) =>
        assert (es + [NewExpectation(matchers)])[..|es|] == es;
      case Call(args) =>
        var j := Newest(es, args, |es|);
        if j < |es| {
          TotalAfterUpdate(es, j, AfterMatch(es[j]));
        }
      case Times(k, n) => TotalAfterUpdate(es, k, Apply(m, step).expectations[k]);
      case WillOnce(k, func) => TotalAfterUpdate(es, k, Apply(m, step).expectations[k]);
      case WillRepeatedly(k, func) => TotalAfterUpdate(es, k, Apply(m, step).expectations[k]);
    }
  }

  /** Every dispatch is counted by exactly one expectation or reported as a failure. */
  lemma {:induction false} CallsAreConserved(steps: seq<Step>)
    ensures var m := Run(Unused, steps); m.calls == TotalMatches(m.expectations) + m.failures
  {
    if steps != [] {
      CallsAreConserved(steps[..|steps| - 1]);
      StepConservesCalls(Run(Unused, steps[..|steps| - 1]), steps[|steps| - 1]);
    }
  }

  // ----- Calls after setup

  /** The step does not set up expectation k any further. */
  predicate LeavesSetup(step: Step, k: nat) {
    match step
    case Times(i, _) => i != k
    case WillOnce(i, _) => i != k
    case WillRepeatedly(i, _) => i != k
    case _ => true
  }

  /** What the i-th matching call runs: the one-time actions in order, then the fallback or nothing. */
  function RunsAt(e: Expectation, i: nat): Ran {
    if i < |e.actions| then OneTime(e.actions[i].func)
    else if e.fallback.Some? then Fallback(e.fallback.value)
    else Empty
  }

  ghost predicate NotYetCalled(e: Expectation) {
    e.numMatches == 0 && e.ran == [] && forall i :: 0 <= i < |e.actions| ==> !e.actions[i].expired
  }

  /** e is what a set-up expectation becomes after some matching calls. */
  ghost predicate CalledAfterSetup(setup: Expectation, e: Expectation) {
    && e.expectedNumMatches == setup.expectedNumMatches && e.fallback == setup.fallback
    && |e.actions| == |setup.actions| && |e.ran| == e.numMatches
    && NextAction(e.actions) == (if e.numMatches < |e.actions| then e.numMatches else |e.actions|)
    && (forall i :: 0 <= i < |e.actions| ==> e.actions[i].func == setup.actions[i].func)
    && (forall i :: e.numMatches <= i < |e.actions| ==> !e.actions[i].expired)
    && (forall i :: 0 <= i < |e.ran| ==> e.ran[i] == RunsAt(setup, i))
  }

  lemma MatchAfterSetup(setup: Expectation, e: Expectation)
    requires CalledAfterSetup(setup, e)
    ensures CalledAfterSetup(setup, AfterMatch(e))
  {
    var k := NextAction(e.actions);
    if k < |e.actions| {
      NextActionIs(AfterMatch(e).actions, k + 1);
    }
  }

  lemma {:induction false} RunAfterSetup(m: Mock, k: nat, steps: seq<Step>)
    requires k < |m.expectations| && NotYetCalled(m.expectations[k])
    requires forall s <- steps :: LeavesSetup(s, k)
    ensures k < |Run(m, steps).expectations|
    ensures CalledAfterSetup(m.expectations[k], Run(m, steps).expectations[k])
  {
    if steps == [] {
      NextActionIs(m.expectations[k].actions, 0);
    } else {
      var front, last := steps[..|steps| - 1], steps[|steps| - 1];
      assert last in steps;
      assert forall s <- front :: s in steps;
      RunAfterSetup(m, k, front);
      MatchAfterSetup(m.expectations[k], Run(m, front).expectations[k]);
    }
  }

  /** With one-time actions and no times(), the verdict accepts exactly the expectations whose actions were all
      used and that never fell back to the empty function. */
  lemma VerdictAfterSetup(m: Mock, k: nat, steps: seq<Step>)
    requires k < |m.expectations| && NotYetCalled(m.expectations[k])
    requires m.expectations[k].actions != [] && m.expectations[k].expectedNumMatches.None?
    requires forall s <- steps :: LeavesSetup(s, k)
    ensures k < |Run(m, steps).expectations|
    ensures var e := Run(m, steps).expectations[k];
      Satisfied(e) <==> NextAction(e.actions) == |e.actions| && Empty !in e.ran
  {
    RunAfterSetup(m, k, steps);
    var setup, e := m.expectations[k], Run(m, steps).expectations[k];
    if e.numMatches > |e.actions| {
      assert e.ran[|e.actions|] == RunsAt(setup, |e.actions|);
      assert e.ran[|e.actions|] in e.ran;
    }
  }

  /** Under arbitrary interleaving this fails: a call before willOnce() makes up for the action never used. */
  lemma LateActionIsNotNoticed(m: Matcher) returns (steps: seq<Step>)
    requires ArgumentAccepted(m, [Ordinary(0)], 0)
    ensures var es := Run(Unused, steps).expectations;
      |es| == 1 && Satisfied(es[0]) && es[0].actions == [Action(7, false)] && es[0].ran == [Empty]
  {
    var s0, s1, s2 := ExpectCall([m]), Call([Ordinary(0)]), WillOnce(0, 7);
    steps := [s0, s1, s2];
    assert steps[..2] == [s0, s1] && steps[..2][..1] == [s0] && steps[..2][..1][..0] == [];
    var e := NewExpectation([m]);
    assert Run(Unused, [s0]) == Unused.(expectations := [e]);
    assert ArgumentAt([Ordinary(0)], 0) == Ordinary(0);
    assert ArgumentsMatch([Ordinary(0)], [m]);
    assert Newest([e], [Ordinary(0)], 1) == 0;
    assert Run(Unused, [s0, s1]).expectations == [AfterMatch(e)];
  }

  // ----- Every interleaving

  lemma {:induction false} RanCounts(ran: seq<Ran>)
    ensures |OneTimeFuncs(ran)| <= |ran|
    ensures |OneTimeFuncs(ran)| == |ran| <==> forall i :: 0 <= i < |ran| ==> ran[i].OneTime?
  {
    if ran != [] {
      var front := ran[..|ran| - 1];
      RanCounts(front);
      assert forall i :: 0 <= i < |front| ==> front[i] == ran[i];
      assert ran[|ran| - 1].OneTime? <==> |OneTimeFuncs(ran)| == |OneTimeFuncs(front)| + 1;
    }
  }

  // What the steps alone say about expectation k.

  /** The matchers of the expectations registered, oldest first. */
  function Registered(steps: seq<Step>): seq<seq<Matcher>> {
    if steps == [] then []
    else
      var n := |steps| - 1;
      Registered(steps[..n]) + if steps[n].ExpectCall? then [steps[n].matchers] else []
  }

  /** The next step is a call that k takes: it is the newest expectation whose matchers accept the arguments. */
  predicate Takes(before: seq<Step>, next: Step, k: nat) {
    var ms := Registered(before);
    next.Call? && k < |ms| && ArgumentsMatch(next.args, ms[k])
    && forall j :: k < j < |ms| ==> !ArgumentsMatch(next.args, ms[j])
  }

  /** The function of the willRepeatedly call that was accepted, which is the first. */
  function FallbackOf(steps: seq<Step>, k: nat): Option<int> {
    if steps == [] then None
    else
      var n := |steps| - 1;
      var before := FallbackOf(steps[..n], k);
      if before.None? && steps[n].WillRepeatedly? && steps[n].k == k && k < |Registered(steps[..n])|
      then Some(steps[n].func) else before
  }

  /** The functions of the willOnce calls that were accepted. */
  function AddedOf(steps: seq<Step>, k: nat): seq<int> {
    if steps == [] then []
    else
      var n := |steps| - 1;
      var accepted := steps[n].WillOnce? && steps[n].k == k && k < |Registered(steps[..n])|
                      && FallbackOf(steps[..n], k).None?;
      AddedOf(steps[..n], k) + if accepted then [steps[n].func] else []
  }

  /** The number given to the times call that was accepted, which is the first before any action. */
  function TimesOf(steps: seq<Step>, k: nat): Option<int> {
    if steps == [] then None
    else
      var n := |steps| - 1;
      var before := TimesOf(steps[..n], k);
      if before.None? && steps[n].Times? && steps[n].k == k && k < |Registered(steps[..n])|
         && AddedOf(steps[..n], k) == [] && FallbackOf(steps[..n], k).None?
      then Some(steps[n].n) else before
  }

  predicate Repeated(steps: seq<Step>, k: nat) {
    FallbackOf(steps, k).Some?
  }

  function Added(steps: seq<Step>, k: nat): nat {
    |AddedOf(steps, k)|
  }

  function Taken(steps: seq<Step>, k: nat): nat {
    if steps == [] then 0
    else
      var n := |steps| - 1;
      Taken(steps[..n], k) + if Takes(steps[..n], steps[n], k) then 1 else 0
  }

  /** How many of the actions added were there when a call came for them. */
  function Used(steps: seq<Step>, k: nat): nat {
    if steps == [] then 0
    else
      var n := |steps| - 1;
      var front := steps[..n];
      Used(front, k) + if Takes(front, steps[n], k) && Used(front, k) < Added(front, k) then 1 else 0
  }

  /** Some call came when no unused action and no fallback was there. */
  predicate Starved(steps: seq<Step>, k: nat) {
    steps != [] &&
    var n := |steps| - 1;
    var front := steps[..n];
    Starved(front, k)
    || (Takes(front, steps[n], k) && Used(front, k) == Added(front, k) && !Repeated(front, k))
  }

  /** What a call runs now: the next action added, else the fallback, else the empty function. */
  function NextRun(steps: seq<Step>, k: nat): Ran {
    if Used(steps, k) < Added(steps, k) then OneTime(AddedOf(steps, k)[Used(steps, k)])
    else if FallbackOf(steps, k).Some? then Fallback(FallbackOf(steps, k).value)
    else Empty
  }

  /** What the calls that k took ran. */
  function RanOf(steps: seq<Step>, k: nat): seq<Ran> {
    if steps == [] then []
    else
      var n := |steps| - 1;
      RanOf(steps[..n], k) + if Takes(steps[..n], steps[n], k) then [NextRun(steps[..n], k)] else []
  }

  /** The calls are as many as the actions, or more if there is a fallback for them. */
  predicate Balanced(steps: seq<Step>, k: nat) {
    Taken(steps, k) == Added(steps, k) || (Repeated(steps, k) && Taken(steps, k) > Added(steps, k))
  }

  ghost predicate Reflects(e: Expectation, steps: seq<Step>, k: nat) {
    && e.numMatches == Taken(steps, k) && Funcs(e.actions) == AddedOf(steps, k) && NextAction(e.actions) == Used(steps, k)
    && e.fallback == FallbackOf(steps, k) && e.expectedNumMatches == TimesOf(steps, k)
    && e.ran == RanOf(steps, k) && (Empty in e.ran <==> Starved(steps, k))
  }

  ghost predicate SameMatchers(es: seq<Expectation>, ms: seq<seq<Matcher>>) {
    |es| == |ms| && forall j :: 0 <= j < |es| ==> es[j].matchers == ms[j]
  }

  lemma {:induction false} NothingBeforeRegistration(steps: seq<Step>, k: nat)
    requires |Registered(steps)| <= k
    ensures Taken(steps, k) == Used(steps, k) == 0 && AddedOf(steps, k) == [] && RanOf(steps, k) == []
    ensures FallbackOf(steps, k).None? && TimesOf(steps, k).None? && !Starved(steps, k)
  {
    if steps != [] {
      NothingBeforeRegistration(steps[..|steps| - 1], k);
    }
  }

  lemma {:induction false} RunRegisters(steps: seq<Step>)
    ensures SameMatchers(Run(Unused, steps).expectations, Registered(steps))
  {
    if steps != [] {
      RunRegisters(steps[..|steps| - 1]);
    }
  }

  lemma TakerIsNewest(es: seq<Expectation>, before: seq<Step>, args: seq<Candidate>, k: nat)
    requires SameMatchers(es, Registered(before)) && k < |es|
    ensures Takes(before, Call(args), k) <==> Newest(es, args, |es|) == k
  {
    if Takes(before, Call(args), k) {
      NewestIs(es, args, |es|, k);
    }
  }

  lemma MatchReflects(e: Expectation)
    requires ExpectationInv(e)
    ensures NextAction(AfterMatch(e).actions) == NextAction(e.actions) + if NextAction(e.actions) < |e.actions| then 1 else 0
    ensures Funcs(AfterMatch(e).actions) == Funcs(e.actions)
    ensures Empty in AfterMatch(e).ran <==>
      Empty in e.ran || (NextAction(e.actions) == |e.actions| && e.fallback.None?)
  {
    var k := NextAction(e.actions);
    if k < |e.actions| {
      NextActionIs(AfterMatch(e).actions, k + 1);
    }
  }

  lemma WillOnceReflects(e: Expectation, func: int)
    requires ExpectationInv(e)
    ensures NextAction(e.actions + [Action(func, false)]) == NextAction(e.actions)
    ensures Funcs(e.actions + [Action(func, false)]) == Funcs(e.actions) + [func]
  {
    NextActionIs(e.actions + [Action(func, false)], NextAction(e.actions));
  }

  lemma OneMoreCall(front: seq<Step>, args: seq<Candidate>, k: nat)
    requires k < |Registered(front)|
    ensures var steps, takes := front + [Call(args)], Takes(front, Call(args), k);
      && Taken(steps, k) == Taken(front, k) + (if takes then 1 else 0)
      && Used(steps, k) == Used(front, k) + (if takes && Used(front, k) < Added(front, k) then 1 else 0)
      && (Starved(steps, k) <==>
           (Starved(front, k) || (takes && Used(front, k) == Added(front, k) && !Repeated(front, k))))
      && RanOf(steps, k) == RanOf(front, k) + (if takes then [NextRun(front, k)] else [])
      && AddedOf(steps, k) == AddedOf(front, k) && FallbackOf(steps, k) == FallbackOf(front, k)
      && TimesOf(steps, k) == TimesOf(front, k)
  {
    assert (front + [Call(args)])[..|front|] == front;
  }

  lemma OneMoreSetup(front: seq<Step>, last: Step, k: nat)
    requires k < |Registered(front)| && !last.Call?
    ensures var steps := front + [last];
      && Taken(steps, k) == Taken(front, k) && Used(steps, k) == Used(front, k)
      && (Starved(steps, k) <==> Starved(front, k)) && RanOf(steps, k) == RanOf(front, k)
      && AddedOf(steps, k) ==
           AddedOf(front, k) + (if last.WillOnce? && last.k == k && !Repeated(front, k) then [last.func] else [])
      && FallbackOf(steps, k) ==
           (if !Repeated(front, k) && last.WillRepeatedly? && last.k == k then Some(last.func) else FallbackOf(front, k))
      && TimesOf(steps, k) ==
           (if TimesOf(front, k).None? && last.Times? && last.k == k && AddedOf(front, k) == [] && !Repeated(front, k)
            then Some(last.n) else TimesOf(front, k))
  {
    assert (front + [last])[..|front|] == front;
  }

  lemma CallReflects(m: Mock, front: seq<Step>, args: seq<Candidate>, k: nat)
    requires k < |m.expectations| && SameMatchers(m.expectations, Registered(front))
    requires ExpectationInv(m.expectations[k]) && Reflects(m.expectations[k], front, k)
    ensures k < |AfterCall(m, args).expectations|
    ensures Reflects(AfterCall(m, args).expectations[k], front + [Call(args)], k)
  {
    var e := m.expectations[k];
    OneMoreCall(front, args, k);
    TakerIsNewest(m.expectations, front, args, k);
    MatchReflects(e);
    assert Consumed(e) == NextRun(front, k) by {
      assert |Funcs(e.actions)| == |e.actions|;
    }
  }

  /** What a setup step makes of expectation k. */
  function SetUp(e: Expectation, step: Step, k: nat): Expectation {
    match step
    case Times(i, n) =>
      if i == k && e.expectedNumMatches.None? && e.actions == [] && e.fallback.None?
      then e.(expectedNumMatches := Some(n)) else e
    case WillOnce(i, func) =>
      if i == k && e.fallback.None? then e.(actions := e.actions + [Action(func, false)]) else e
    case WillRepeatedly(i, func) => if i == k && e.fallback.None? then e.(fallback := Some(func)) else e
    case _ => e
  }

  lemma ApplySetsUp(m: Mock, step: Step, k: nat)
    requires !step.Call? && k < |m.expectations|
    ensures k < |Apply(m, step).expectations| && Apply(m, step).expectations[k] == SetUp(m.expectations[k], step, k)
  {
  }

  lemma SetupReflects(e: Expectation, front: seq<Step>, step: Step, k: nat)
    requires !step.Call? && k < |Registered(front)| && ExpectationInv(e) && Reflects(e, front, k)
    ensures Reflects(SetUp(e, step, k), front + [step], k)
  {
    OneMoreSetup(front, step, k);
    assert e.actions == [] <==> AddedOf(front, k) == [] by {
      assert |Funcs(e.actions)| == |e.actions|;
    }
    if step.WillOnce? {
      WillOnceReflects(e, step.func);
    }
  }

  /** A new expectation, and steps that are about others. */
  lemma RegistrationReflects(front: seq<Step>, ms: seq<Matcher>)
    ensures Reflects(NewExpectation(ms), front + [Step.ExpectCall(ms)], |Registered(front)|)
  {
    NothingBeforeRegistration(front, |Registered(front)|);
    assert (front + [Step.ExpectCall(ms)])[..|front|] == front;
    assert Funcs([]) == [];
  }

  lemma StepReflects(m: Mock, front: seq<Step>, last: Step, k: nat)
    requires k < |m.expectations| && SameMatchers(m.expectations, Registered(front))
    requires ExpectationInv(m.expectations[k]) && Reflects(m.expectations[k], front, k)
    ensures k < |Apply(m, last).expectations| && Reflects(Apply(m, last).expectations[k], front + [last], k)
  {
    if last.Call? {
      CallReflects(m, front, last.args, k);
    } else {
      ApplySetsUp(m, last, k);
      SetupReflects(m.expectations[k], front, last, k);
    }
  }

  /** The state of an expectation is what the steps say. */
  lemma {:induction false} RunReflectsSteps(steps: seq<Step>, k: nat)
    requires k < |Registered(steps)|
    ensures k < |Run(Unused, steps).expectations| && Reflects(Run(Unused, steps).expectations[k], steps, k)
  {
    var n := |steps| - 1;
    var front, last, m := steps[..n], steps[n], Run(Unused, steps[..n]);
    assert front + [last] == steps;
    RunRegisters(front);
    if k == |Registered(front)| {
      RegistrationReflects(front, last.matchers);
    } else {
      RunReflectsSteps(front, k);
      RunKeepsInv(front);
      StepReflects(m, front, last, k);
    }
  }

  /** In any run at all: after times(n) exactly n calls satisfy; without it and without actions, exactly one or, with
      a fallback, any number; with actions as many as these, or more if there is a fallback. */
  lemma VerdictFromSteps(steps: seq<Step>, k: nat)
    requires k < |Registered(steps)|
    ensures k < |Run(Unused, steps).expectations|
    ensures Satisfied(Run(Unused, steps).expectations[k]) <==>
      match TimesOf(steps, k)
      case Some(n) => Taken(steps, k) == n
      case None => if AddedOf(steps, k) == [] then Repeated(steps, k) || Taken(steps, k) == 1 else Balanced(steps, k)
  {
    RunReflectsSteps(steps, k);
    var e := Run(Unused, steps).expectations[k];
    assert |Funcs(e.actions)| == |e.actions|;
  }

  /** A setup call throws exactly if the calls before it leave no room for it. */
  lemma ThrowsFromSteps(steps: seq<Step>, k: nat, n: int, func: int)
    requires k < |Registered(steps)|
    ensures var m := Run(Unused, steps);
      && (Throws(m, Times(k, n)) <==> TimesOf(steps, k).Some? || AddedOf(steps, k) != [] || FallbackOf(steps, k).Some?)
      && (Throws(m, WillOnce(k, func)) <==> FallbackOf(steps, k).Some?)
      && (Throws(m, WillRepeatedly(k, func)) <==> FallbackOf(steps, k).Some?)
  {
    RunReflectsSteps(steps, k);
    var e := Run(Unused, steps).expectations[k];
    assert |Funcs(e.actions)| == |e.actions|;
  }

  lemma VerdictByCounts(e: Expectation)
    requires ExpectationInv(e) && e.actions != [] && e.expectedNumMatches.None?
    ensures (Satisfied(e) <==> NextAction(e.actions) == |e.actions| && Empty !in e.ran)
      <==>
      (Empty !in e.ran || e.numMatches < |e.actions| || (e.fallback.None? && e.numMatches > |e.actions|))
  {
    RanCounts(e.ran);
    if Empty !in e.ran && e.numMatches != NextAction(e.actions) {
      var i :| 0 <= i < |e.ran| && !e.ran[i].OneTime?;
      assert e.ran[i] in e.ran;
      assert e.ran[i].Fallback?;
    }
  }

  /** In any run at all, the verdict on an expectation with one-time actions and no times() is right if and only if
      no call starves, or the numbers of calls and actions by themselves are enough to reject. */
  lemma VerdictIsRightIff(steps: seq<Step>, k: nat)
    requires k < |Registered(steps)| && 0 < Added(steps, k) && TimesOf(steps, k).None?
    ensures k < |Run(Unused, steps).expectations|
    ensures var e := Run(Unused, steps).expectations[k];
      (Satisfied(e) <==> NextAction(e.actions) == |e.actions| && Empty !in e.ran)
      <==>
      (!Starved(steps, k) || !Balanced(steps, k))
  {
    RunReflectsSteps(steps, k);
    RunKeepsInv(steps);
    assert |Funcs(Run(Unused, steps).expectations[k].actions)| == Added(steps, k);
    VerdictByCounts(Run(Unused, steps).expectations[k]);
  }

  // ----- Re-entrant calls

  /** A setup call, or a call of the mock together with what the chosen action does meanwhile.  The mock has
      updated its state before it runs the action and does nothing afterwards. */
  datatype Activity = Setup(step: Step) | Calling(args: seq<Candidate>, during: seq<Activity>)

  function Perform(m: Mock, activities: seq<Activity>): Mock
    decreases activities
  {
    if activities == [] then m
    else
      var n := |activities| - 1;
      var before := Perform(m, activities[..n]);
      match activities[n]
      case Setup(step) => Apply(before, step)
      case Calling(args, during) => Perform(Apply(before, Call(args)), during)
  }

  function Flatten(activities: seq<Activity>): seq<Step>
    decreases activities
  {
    if activities == [] then []
    else
      var n := |activities| - 1;
      Flatten(activities[..n]) +
      match activities[n]
      case Setup(step) => [step]
      case Calling(args, during) => [Call(args)] + Flatten(during)
  }

  lemma {:induction false} RunAppend(m: Mock, a: seq<Step>, b: seq<Step>)
    ensures Run(m, a + b) == Run(Run(m, a), b)
    decreases |b|
  {
    if b == [] {
      assert a + b == a;
    } else {
      assert (a + b)[..|a + b| - 1] == a + b[..|b| - 1];
      RunAppend(m, a, b[..|b| - 1]);
    }
  }

  /** However calls nest, the effect is that of their dispatches in the order they begin. */
  lemma {:induction false} NestingIsInterleaving(m: Mock, activities: seq<Activity>)
    ensures Perform(m, activities) == Run(m, Flatten(activities))
    decreases activities
  {
    if activities != [] {
      var n := |activities| - 1;
      var front := Flatten(activities[..n]);
      NestingIsInterleaving(m, activities[..n]);
      match activities[n]
      case Setup(step) =>
        assert (front + [step])[..|front|] == front;
      case Calling(args, during) =>
        NestingIsInterleaving(Apply(Run(m, front), Call(args)), during);
        RunAppend(m, front, [Call(args)] + Flatten(during));
        RunAppend(Run(m, front), [Call(args)], Flatten(during));
        assert [Call(args)][..0] == [];
        assert Run(Run(m, front), [Call(args)]) == Apply(Run(m, front), Call(args));
    }
  }

  /** The invariant, and the conservation of calls, when actions call the mock or set it up again. */
  lemma ReentrantRunsAreSound(activities: seq<Activity>)
    ensures var m := Perform(Unused, activities);
      MockInv(m) && m.calls == TotalMatches(m.expectations) + m.failures
  {
    NestingIsInterleaving(Unused, activities);
    RunKeepsInv(Flatten(activities));
    CallsAreConserved(Flatten(activities));
  }
}
