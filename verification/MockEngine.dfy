/** The mock engine's objects. */
module MockEngine {
  import opened Options
  import opened Matchers
  import opened MockRuns

  class MockAction {
    const actionFunction: int
    ghost const owner: object
    var expired: bool

    constructor (func: int, ghost owner: object)
      ensures actionFunction == func && this.owner == owner && !expired
    {
      actionFunction := func;
      this.owner := owner;
      expired := false;
    }
  }

  ghost function ActionsView(actions: seq<MockAction>): (view: seq<Action>)
    reads actions
    ensures |view| == |actions|
    ensures forall i :: 0 <= i < |actions| ==> view[i] == Action(actions[i].actionFunction, actions[i].expired)
  {
    seq(|actions|, i requires 0 <= i < |actions| reads actions => Action(actions[i].actionFunction, actions[i].expired))
  }

  ghost predicate Distinct<T>(s: seq<T>) {
    forall i, j :: 0 <= i < j < |s| ==> s[i] != s[j]
  }

  class CallExpectation {
    const argMatchers: seq<Matcher>
    var expectedNumMatches: Option<int>
    var oneTimeActions: seq<MockAction>
    var fallbackAction: MockAction?
    var numMatches: nat
    ghost var ran: seq<Ran>

    /** No action is in the list twice, or in the list of another expectation. */
    ghost predicate Valid()
      reads this
    {
      Distinct(oneTimeActions) && forall a <- oneTimeActions :: a.owner == this
    }

    ghost function View(): Expectation
      reads this, oneTimeActions
    {
      Expectation(argMatchers, expectedNumMatches, ActionsView(oneTimeActions),
                  if fallbackAction == null then None else Some(fallbackAction.actionFunction), numMatches, ran)
    }

    constructor (argMatchers: seq<Matcher>)
      ensures View() == NewExpectation(argMatchers) && oneTimeActions == [] && this.argMatchers == argMatchers
    {
      this.argMatchers := argMatchers;
      expectedNumMatches, oneTimeActions, fallbackAction, numMatches := None, [], null, 0;
      ran := [];
    }

    // ----- The wrapper's methods; a setup call out of order throws and changes nothing

    method Times(n: int) returns (threw: bool)
      modifies this`expectedNumMatches
      ensures threw <==>
        old(View()).expectedNumMatches.Some? || old(View()).actions != [] || old(View()).fallback.Some?
      ensures View() == if threw then old(View()) else old(View()).(expectedNumMatches := Some(n))
    {
      if expectedNumMatches.Some? || |oneTimeActions| != 0 || fallbackAction != null {
        return true;
      }
      expectedNumMatches := Some(n);
      threw := false;
    }

    method WillRepeatedly(func: int) returns (threw: bool)
      modifies this`fallbackAction
      ensures threw <==> old(View()).fallback.Some?
      ensures View() == if threw then old(View()) else old(View()).(fallback := Some(func))
    {
      if fallbackAction != null {
        return true;
      }
      fallbackAction := new MockAction(func, this);
      threw := false;
    }

    method WillOnce(func: int) returns (threw: bool, ghost added: seq<MockAction>)
      requires Valid()
      modifies this`oneTimeActions
      ensures threw <==> old(View()).fallback.Some?
      ensures View() == if threw then old(View())
                        else old(View()).(actions := old(View()).actions + [Action(func, false)])
      ensures Valid() && oneTimeActions == old(oneTimeActions) + added
      ensures |added| == (if threw then 0 else 1) && fresh(added)
    {
      added := [];
      if fallbackAction != null {
        assert oneTimeActions == old(oneTimeActions) + added;
        return true, added;
      }
      var action := new MockAction(func, this);
      added := [action];
      oneTimeActions := oneTimeActions + [action];
      threw := false;
      assert ActionsView(oneTimeActions) == old(ActionsView(oneTimeActions)) + [Action(func, false)];
    }

    /** Finds the next active action and marks it expired if it is a one-time action. */
    method ConsumeAction() returns (action: Ran)
      requires Valid()
      modifies oneTimeActions
      ensures action == Consumed(old(View()))
      ensures ActionsView(oneTimeActions) == ExpireNext(old(ActionsView(oneTimeActions)))
    {
      var i := 0;
      while i < |oneTimeActions|
        invariant 0 <= i <= |oneTimeActions|
        invariant forall k :: 0 <= k < i ==> oneTimeActions[k].expired
        invariant View() == old(View())
      {
        if !oneTimeActions[i].expired {
          NextActionIs(ActionsView(oneTimeActions), i);
          oneTimeActions[i].expired := true;
          return OneTime(oneTimeActions[i].actionFunction);
        }
        i := i + 1;
      }
      NextActionIs(ActionsView(oneTimeActions), i);
      if fallbackAction != null {
        return Fallback(fallbackAction.actionFunction);
      }
      return Empty;
    }

    /** What the dispatch loop does with the expectation it has chosen. */
    method Match() returns (action: Ran)
      requires Valid()
      modifies this`numMatches, this`ran, oneTimeActions
      ensures action == Consumed(old(View())) && View() == AfterMatch(old(View()))
    {
      ghost var before := View();
      numMatches := numMatches + 1;
      ghost var counted := before.(numMatches := before.numMatches + 1);
      assert View() == counted;
      action := ConsumeAction();
      assert Consumed(counted) == Consumed(before);
      assert View() == counted.(actions := ExpireNext(before.actions));
      ran := ran + [action];
    }

    /** checkExpectationSatisfied: true where the code returns null. */
    method CheckSatisfied() returns (ok: bool)
      ensures ok <==> Satisfied(View())
    {
      if expectedNumMatches.Some? {
        return numMatches == expectedNumMatches.value;
      }
      var oneTimeCount := |oneTimeActions|;
      if oneTimeCount != 0 {
        return numMatches == oneTimeCount || (fallbackAction != null && numMatches > oneTimeCount);
      }
      if fallbackAction != null {
        return true;
      }
      return numMatches == 1;
    }
  }

  /** checkArgsAgainstExpectation: no failure exactly when the arguments match; otherwise the first bad position,
      or None if there are too many arguments. */
  datatype ArgumentCheck = Match | TooMany | BadArgument(index: nat)

  method CheckArgs(args: seq<Candidate>, matchers: seq<Matcher>) returns (check: ArgumentCheck)
    ensures check.Match? <==> ArgumentsMatch(args, matchers)
    ensures check.TooMany? <==> |args| > |matchers|
    ensures check.BadArgument? ==>
      check.index < |matchers| && !ArgumentAccepted(matchers[check.index], args, check.index)
      && forall i :: 0 <= i < check.index ==> ArgumentAccepted(matchers[i], args, i)
  {
    if |args| > |matchers| {
      return TooMany;
    }
    var i := 0;
    while i < |matchers|
      invariant 0 <= i <= |matchers|
      invariant forall k :: 0 <= k < i ==> ArgumentAccepted(matchers[k], args, k)
    {
      if i < |args| && args[i].Sentinel? && matchers[i].isSentinelMatcher {
        i := i + 1;
        continue;
      }
      var arg := if i < |args| then args[i] else Sentinel;
      if arg.Sentinel? && !matchers[i].understandsMissingArgs {
        return BadArgument(i);
      }
      var outcome := matchers[i].judge(arg);
      if outcome.False? || outcome.Message? {
        return BadArgument(i);
      }
      i := i + 1;
    }
    return Match;
  }

  /** The list of all expectations of a test, for the verdict at its end. */
  class Registry {
    var registered: seq<CallExpectation>

    constructor ()
      ensures registered == []
    {
      registered := [];
    }
  }

  twostate lemma ViewFramed(e: CallExpectation)
    requires unchanged(e) && forall a <- old(e.oneTimeActions) :: old(allocated(a)) && unchanged(a)
    ensures e.View() == old(e.View())
  {
    forall i | 0 <= i < |e.oneTimeActions| ensures ActionsView(e.oneTimeActions)[i] == old(ActionsView(e.oneTimeActions))[i] {
      assert e.oneTimeActions[i] in old(e.oneTimeActions);
    }
    assert ActionsView(e.oneTimeActions) == old(ActionsView(e.oneTimeActions));
  }

  ghost function ViewsOf(es: seq<CallExpectation>, owned: set<MockAction>): (views: seq<Expectation>)
    requires forall e <- es, a <- e.oneTimeActions :: a in owned
    reads es, owned
    ensures |views| == |es| && forall i :: 0 <= i < |es| ==> views[i] == es[i].View()
  {
    if es == [] then [] else ViewsOf(es[..|es| - 1], owned) + [es[|es| - 1].View()]
  }

  lemma AfterWillOnce(m: Mock, k: nat, func: int, e: Expectation)
    requires k < |m.expectations|
    requires e == if m.expectations[k].fallback.Some? then m.expectations[k]
                  else m.expectations[k].(actions := m.expectations[k].actions + [Action(func, false)])
    ensures Apply(m, Step.WillOnce(k, func)) == m.(expectations := m.expectations[k := e])
  {
  }

  class MockFunction {
    var callExpectations: seq<CallExpectation>
    var failures: nat
    ghost var calls: nat
    ghost var owned: set<MockAction>

    ghost predicate Valid()
      reads this, callExpectations
    {
      && (forall e <- callExpectations :: e.Valid())
      && (forall e <- callExpectations, a <- e.oneTimeActions :: a in owned)
      && Distinct(callExpectations)
    }

    ghost function View(): Mock
      requires Valid()
      reads this, callExpectations, owned
    {
      Mock(ViewsOf(callExpectations, owned), calls, failures)
    }

    constructor ()
      ensures Valid() && View() == Unused
    {
      callExpectations, failures, calls, owned := [], 0, 0, {};
    }

    /** If no other expectation's view has changed, only one entry of the mock's view has. */
    twostate lemma OneViewChanged(k: nat)
      requires old(Valid()) && Valid() && callExpectations == old(callExpectations) && k < |callExpectations|
      requires calls == old(calls) && failures == old(failures)
      requires forall j :: 0 <= j < |callExpectations| && j != k ==>
        callExpectations[j].View() == old(callExpectations[j].View())
      ensures View() == old(View()).(expectations := old(View()).expectations[k := callExpectations[k].View()])
    {
      assert View().expectations == old(View()).expectations[k := callExpectations[k].View()];
    }

    method MatchAt(i: nat) returns (ran: Ran)
      requires Valid() && i < |callExpectations|
      modifies callExpectations, owned
      ensures callExpectations == old(callExpectations) && Valid()
      ensures ran == Consumed(old(View()).expectations[i])
      ensures View() == old(View()).(expectations := old(View()).expectations[i := AfterMatch(old(View()).expectations[i])])
    {
      var e := callExpectations[i];
      ran := e.Match();
      forall j | 0 <= j < |callExpectations| && j != i
        ensures callExpectations[j].View() == old(callExpectations[j].View())
      {
        var f := callExpectations[j];
        assert f in callExpectations && f != e && unchanged(f);
        assert forall a <- f.oneTimeActions :: a.owner == f && a !in old(e.oneTimeActions);
        ViewFramed(f);
      }
    }

    /** The dispatch loop, newest expectation first. */
    method FindMatching(args: seq<Candidate>) returns (i: nat)
      requires Valid()
      ensures i == Newest(View().expectations, args, |View().expectations|)
      ensures |View().expectations| == |callExpectations|
    {
      ghost var es := View().expectations;
      i := |callExpectations|;
      while 0 < i
        invariant 0 <= i <= |es| == |callExpectations|
        invariant forall j :: i <= j < |es| ==> !ArgumentsMatch(args, es[j].matchers)
      {
        i := i - 1;
        var check := CheckArgs(args, callExpectations[i].argMatchers);
        if check.Match? {
          NewestIs(es, args, |es|, i);
          return;
        }
      }
      i := |callExpectations|;
    }

    /** The mock called with some arguments: the newest matching expectation takes the call, or it is a failure.
        The result is what the caller goes on to run. */
    method Dispatch(args: seq<Candidate>) returns (action: Option<Ran>)
      requires Valid()
      modifies this`failures, this`calls, callExpectations, owned
      ensures callExpectations == old(callExpectations) && Valid()
      ensures View() == AfterCall(old(View()), args)
      ensures action == RanBy(old(View()), Newest(old(View()).expectations, args, |old(View()).expectations|))
    {
      ghost var before := View();
      var i := FindMatching(args);
      assert AfterCall(before, args) == AfterDispatch(before, i);
      action := Take(i);
    }

    method Take(i: nat) returns (action: Option<Ran>)
      requires Valid() && i <= |callExpectations|
      modifies this`failures, this`calls, callExpectations, owned
      ensures callExpectations == old(callExpectations) && Valid()
      ensures View() == AfterDispatch(old(View()), i) && action == RanBy(old(View()), i)
    {
      CountCall();
      if i < |callExpectations| {
        var ran := MatchAt(i);
        return Some(ran);
      }
      ReportFailure();
      action := None;
    }

    ghost method CountCall()
      requires Valid()
      modifies this`calls
      ensures Valid() && View() == old(View()).(calls := old(View()).calls + 1)
    {
      calls := calls + 1;
    }

    method ReportFailure()
      requires Valid()
      modifies this`failures
      ensures Valid() && View() == old(View()).(failures := old(View()).failures + 1)
    {
      failures := failures + 1;
    }

    method Append(e: CallExpectation)
      requires Valid() && e !in callExpectations && e.oneTimeActions == []
      modifies this`callExpectations
      ensures callExpectations == old(callExpectations) + [e] && Valid()
      ensures View() == old(View()).(expectations := old(View()).expectations + [e.View()])
    {
      ghost var before := callExpectations;
      callExpectations := callExpectations + [e];
      assert callExpectations[..|callExpectations| - 1] == before;
    }

    /** Turns plain arguments into matchers and registers an expectation with the mock and with the test. */
    method ExpectCall(arguments: seq<Item>, registry: Registry) returns (expectation: CallExpectation)
      requires Valid()
      modifies this`callExpectations, registry
      ensures callExpectations == old(callExpectations) + [expectation] && Valid()
      ensures View() == Apply(old(View()), Step.ExpectCall(ToMatchers(arguments)))
      ensures registry.registered == old(registry.registered) + [expectation]
      ensures AllStandFor(expectation.argMatchers, arguments)
    {
      var matchers := Convert(arguments);
      MatchersStandFor(arguments);
      expectation := new CallExpectation(matchers);
      registry.registered := registry.registered + [expectation];
      Append(expectation);
    }

    // ----- Setup calls through the wrapper of expectation k

    method Times(k: nat, n: int) returns (threw: bool)
      requires Valid() && k < |callExpectations|
      modifies callExpectations
      ensures callExpectations == old(callExpectations) && Valid()
      ensures threw == Throws(old(View()), Step.Times(k, n)) && View() == Apply(old(View()), Step.Times(k, n))
    {
      threw := callExpectations[k].Times(n);
      OthersKept(k);
    }

    method WillRepeatedly(k: nat, func: int) returns (threw: bool)
      requires Valid() && k < |callExpectations|
      modifies callExpectations
      ensures callExpectations == old(callExpectations) && Valid()
      ensures threw == Throws(old(View()), Step.WillRepeatedly(k, func))
      ensures View() == Apply(old(View()), Step.WillRepeatedly(k, func))
    {
      threw := callExpectations[k].WillRepeatedly(func);
      OthersKept(k);
    }

    /** A setup call touches one expectation object and no action that existed before. */
    twostate lemma OthersKept(k: nat)
      requires old(Valid()) && unchanged(this) && k < |callExpectations|
      requires forall e <- callExpectations :: e != callExpectations[k] ==> unchanged(e)
      requires forall e <- callExpectations, a <- old(e.oneTimeActions) :: old(allocated(a)) && unchanged(a)
      ensures forall j :: 0 <= j < |callExpectations| && j != k ==>
        callExpectations[j].View() == old(callExpectations[j].View())
    {
      forall j | 0 <= j < |callExpectations| && j != k
        ensures callExpectations[j].View() == old(callExpectations[j].View())
      {
        var f := callExpectations[j];
        assert f in callExpectations && f != callExpectations[k];
        ViewFramed(f);
      }
    }

    method WillOnce(k: nat, func: int) returns (threw: bool)
      requires Valid() && k < |callExpectations|
      modifies callExpectations, this`owned
      ensures callExpectations == old(callExpectations) && Valid()
      ensures threw == Throws(old(View()), Step.WillOnce(k, func))
      ensures View() == Apply(old(View()), Step.WillOnce(k, func))
    {
      ghost var added;
      threw, added := callExpectations[k].WillOnce(func);
      OthersKept(k);
      owned := owned + set a | a in added;
      StillOwned(k, added);
      OneViewChanged(k);
      AfterWillOnce(old(View()), k, func, callExpectations[k].View());
    }

    twostate lemma StillOwned(k: nat, new added: seq<MockAction>)
      requires old(Valid()) && k < |callExpectations| && callExpectations == old(callExpectations)
      requires old(owned) <= owned && forall a <- added :: a in owned
      requires forall e <- callExpectations :: e != callExpectations[k] ==> e.oneTimeActions == old(e.oneTimeActions)
      requires callExpectations[k].oneTimeActions == old(callExpectations[k].oneTimeActions) + added
      requires callExpectations[k].Valid()
      ensures Valid()
    {
      forall e <- callExpectations ensures e.Valid() {
        assert e != callExpectations[k] ==> old(e.Valid());
      }
      forall e <- callExpectations, a <- e.oneTimeActions ensures a in owned {
        assert a in old(e.oneTimeActions) || a in added;
      }
    }
  }
}
