/** Matchers and the combinators allOf, anyOf and not. */
module Matchers {
  import opened NumericText

  /** A predicate returns true, false, or a message saying why not. */
  datatype Outcome = True | False | Message(text: string)

  /** What a matcher is asked about: the sentinel object that stands for a missing argument, a string, or any
      other value. */
  datatype Candidate = Sentinel | Text(text: string) | Ordinary(id: int)

  /** One matcher object, isMissingArgSentinel, is known to the mock engine by its identity. */
  datatype Matcher = Matcher(judge: Candidate -> Outcome, understandsMissingArgs: bool, isSentinelMatcher: bool)

  /** An element of the array given to a combinator; a plain value stands for the matcher equals(value). */
  datatype Item = Given(matcher: Matcher) | Plain(equality: Candidate -> Outcome)

  function ToMatcher(item: Item): Matcher {
    match item
    case Given(m) => m
    case Plain(equality) => Matcher(equality, false, false)
  }

  /** equals(x) for a string or a number. */
  function Equals(x: Candidate): Matcher {
    Matcher(y => if y == x then True else False, false, false)
  }

  predicate Accepts(m: Matcher, x: Candidate) {
    m.judge(x).True?
  }

  /** Acceptance of a missing argument: a matcher that does not understand those is not consulted. */
  predicate AcceptsMissing(m: Matcher) {
    m.understandsMissingArgs && Accepts(m, Sentinel)
  }

  /** `outcome == true` in the loose comparison, which reads a message as a number. */
  predicate LooselyTrue(o: Outcome) {
    o.True? || (o.Message? && EqualsTrue(o.text))
  }

  /** What the sentinel's toString returns. */
  const MISSING_TEXT: string := "(missing)"

  /** `x == missingArgSentinel` in the loose comparison, which turns the sentinel into its text when x is a string. */
  predicate LooselyMissing(x: Candidate) {
    x.Sentinel? || x == Text(MISSING_TEXT)
  }

  /** anyOf skips a part that does not understand missing arguments when the candidate looks like one. */
  predicate Shown(m: Matcher, x: Candidate) {
    LooselyMissing(x) ==> m.understandsMissingArgs
  }

  /** A plain value accepts exactly what it equals, and no missing argument. */
  lemma PlainAccepts(equality: Candidate -> Outcome, x: Candidate)
    ensures var m := ToMatcher(Plain(equality));
      && (Accepts(m, x) <==> equality(x) == True) && !AcceptsMissing(m) && !m.isSentinelMatcher
      && (Honest(m, x) <==> LooselyMissing(x) || (equality(x).Message? ==> !EqualsTrue(equality(x).text)))
  {
  }

  // ----- The combinators

  /** The matcher `_`: any object, but no missing argument. */
  function Anything(): Matcher {
    Matcher(x => True, false, false)
  }

  /** The first outcome that is not true, or true. */
  function AllOutcome(ms: seq<Matcher>, x: Candidate): Outcome {
    if ms == [] then True
    else if ms[0].judge(x).True? then AllOutcome(ms[1..], x)
    else ms[0].judge(x)
  }

  /** True if some part that is shown the candidate is loosely true. */
  function AnyOutcome(ms: seq<Matcher>, x: Candidate): Outcome {
    if ms == [] then False
    else if Shown(ms[0], x) && LooselyTrue(ms[0].judge(x)) then True
    else AnyOutcome(ms[1..], x)
  }

  predicate AllUnderstand(ms: seq<Matcher>) {
    forall i :: 0 <= i < |ms| ==> ms[i].understandsMissingArgs
  }

  function AllOf(ms: seq<Matcher>): Matcher {
    if ms == [] then Anything()
    else if |ms| == 1 then ms[0]
    else Matcher(x => AllOutcome(ms, x), AllUnderstand(ms), false)
  }

  function AnyOf(ms: seq<Matcher>): Matcher {
    if ms == [] then Not(Anything())
    else if |ms| == 1 then ms[0]
    else Matcher(x => AnyOutcome(ms, x), true, false)
  }

  function Not(m: Matcher): Matcher {
    Matcher(x => if m.judge(x).True? then False else True, false, false)
  }

  // ----- The loops that evaluate and build them

  method EvaluateAll(ms: seq<Matcher>, x: Candidate) returns (o: Outcome)
    ensures o == AllOutcome(ms, x)
  {
    var i := 0;
    while i < |ms|
      invariant 0 <= i <= |ms|
      invariant AllOutcome(ms[i..], x) == AllOutcome(ms, x)
    {
      o := ms[i].judge(x);
      assert ms[i..][1..] == ms[i + 1..];
      if o.False? || o.Message? {
        return;
      }
      i := i + 1;
    }
    o := True;
  }

  method EvaluateAny(ms: seq<Matcher>, x: Candidate) returns (o: Outcome)
    ensures o == AnyOutcome(ms, x)
  {
    var i := 0;
    while i < |ms|
      invariant 0 <= i <= |ms|
      invariant AnyOutcome(ms[i..], x) == AnyOutcome(ms, x)
    {
      assert ms[i..][1..] == ms[i + 1..];
      if !(LooselyMissing(x) && !ms[i].understandsMissingArgs) {
        o := ms[i].judge(x);
        if LooselyTrue(o) {
          return True;
        }
      }
      i := i + 1;
    }
    o := False;
  }

  function ToMatchers(items: seq<Item>): (ms: seq<Matcher>)
    ensures |ms| == |items| && forall i :: 0 <= i < |items| ==> ms[i] == ToMatcher(items[i])
  {
    seq(|items|, i requires 0 <= i < |items| => ToMatcher(items[i]))
  }

  method Convert(items: seq<Item>) returns (ms: seq<Matcher>)
    ensures ms == ToMatchers(items)
  {
    ms := [];
    var i := 0;
    while i < |items|
      invariant 0 <= i <= |items| && ms == ToMatchers(items)[..i]
    {
      ms := ms + [ToMatcher(items[i])];
      i := i + 1;
    }
  }

  /** allOf: behaves like the specification on every candidate. */
  method BuildAllOf(items: seq<Item>) returns (m: Matcher)
    ensures forall x :: m.judge(x) == AllOf(ToMatchers(items)).judge(x)
    ensures m.understandsMissingArgs == AllOf(ToMatchers(items)).understandsMissingArgs
    ensures m.isSentinelMatcher == AllOf(ToMatchers(items)).isSentinelMatcher
  {
    var matchers := Convert(items);
    if matchers == [] {
      return Anything();
    }
    if |matchers| == 1 {
      return matchers[0];
    }
    var understandsMissingArgs := true;
    var i := 0;
    while i < |matchers|
      invariant 0 <= i <= |matchers|
      invariant understandsMissingArgs <==> forall k :: 0 <= k < i ==> matchers[k].understandsMissingArgs
    {
      understandsMissingArgs := understandsMissingArgs && matchers[i].understandsMissingArgs;
      i := i + 1;
    }
    m := Matcher(x => AllOutcome(matchers, x), understandsMissingArgs, false);
  }

  /** anyOf: it always claims to understand missing arguments, and asks its parts selectively. */
  method BuildAnyOf(items: seq<Item>) returns (m: Matcher)
    ensures forall x :: m.judge(x) == AnyOf(ToMatchers(items)).judge(x)
    ensures m.understandsMissingArgs == AnyOf(ToMatchers(items)).understandsMissingArgs
    ensures m.isSentinelMatcher == AnyOf(ToMatchers(items)).isSentinelMatcher
  {
    var matchers := Convert(items);
    if matchers == [] {
      return Not(Anything());
    }
    if |matchers| == 1 {
      return matchers[0];
    }
    m := Matcher(x => AnyOutcome(matchers, x), true, false);
  }

  // ----- What a conjunction and a disjunction accept

  /** No message that anyOf might look at is numerically one. */
  predicate Honest(m: Matcher, x: Candidate) {
    Shown(m, x) && m.judge(x).Message? ==> !EqualsTrue(m.judge(x).text)
  }

  ghost predicate AllHonest(ms: seq<Matcher>, x: Candidate) {
    forall i :: 0 <= i < |ms| ==> Honest(ms[i], x)
  }

  ghost predicate AllAccept(ms: seq<Matcher>, x: Candidate) {
    forall i :: 0 <= i < |ms| ==> Accepts(ms[i], x)
  }

  ghost predicate SomeAccepts(ms: seq<Matcher>, x: Candidate) {
    exists i :: 0 <= i < |ms| && Accepts(ms[i], x)
  }

  ghost predicate SomeShownAccepts(ms: seq<Matcher>, x: Candidate) {
    exists i :: 0 <= i < |ms| && Shown(ms[i], x) && Accepts(ms[i], x)
  }

  ghost predicate SomeSkippedAccepts(ms: seq<Matcher>, x: Candidate) {
    exists i :: 0 <= i < |ms| && !Shown(ms[i], x) && Accepts(ms[i], x)
  }

  ghost predicate SomeShownIsLooselyTrue(ms: seq<Matcher>, x: Candidate) {
    exists i :: 0 <= i < |ms| && Shown(ms[i], x) && LooselyTrue(ms[i].judge(x))
  }

  lemma {:induction false} AllOutcomeIsForall(ms: seq<Matcher>, x: Candidate)
    ensures AllOutcome(ms, x).True? <==> AllAccept(ms, x)
    ensures AllHonest(ms, x) && (LooselyMissing(x) ==> AllUnderstand(ms)) && AllOutcome(ms, x).Message?
            ==> !EqualsTrue(AllOutcome(ms, x).text)
  {
    if ms != [] {
      AllOutcomeIsForall(ms[1..], x);
      assert forall i :: 0 <= i < |ms[1..]| ==> ms[1..][i] == ms[i + 1];
    }
  }

  /** allOf returns what its first part that does not say true returns, the message included. */
  lemma {:induction false} AllOutcomeIsFirst(ms: seq<Matcher>, x: Candidate, i: nat)
    requires i < |ms| && ms[i].judge(x) != True && forall j :: 0 <= j < i ==> ms[j].judge(x) == True
    ensures AllOutcome(ms, x) == ms[i].judge(x)
  {
    if i > 0 {
      AllOutcomeIsFirst(ms[1..], x, i - 1);
    }
  }

  lemma {:induction false} AnyOutcomeIsExists(ms: seq<Matcher>, x: Candidate)
    ensures AnyOutcome(ms, x).True? <==> SomeShownIsLooselyTrue(ms, x)
    ensures !AnyOutcome(ms, x).Message?
  {
    if ms != [] {
      assert forall i :: 0 <= i < |ms[1..]| ==> ms[1..][i] == ms[i + 1];
      AnyOutcomeIsExists(ms[1..], x);
      if SomeShownIsLooselyTrue(ms, x) {
        var j :| 0 <= j < |ms| && Shown(ms[j], x) && LooselyTrue(ms[j].judge(x));
        assert j > 0 ==> LooselyTrue(ms[1..][j - 1].judge(x));
      }
    }
  }

  /** anyOf of two or more parts is disjunction exactly when a part that is shown the candidate accepts it, or the
      two ways of going wrong, a message read as true and an accepting part skipped, are both absent or cancel. */
  lemma AnyOfIsDisjunctionIff(ms: seq<Matcher>, x: Candidate)
    requires 2 <= |ms|
    ensures (Accepts(AnyOf(ms), x) <==> SomeAccepts(ms, x)) <==>
      (SomeShownAccepts(ms, x) || (AllHonest(ms, x) <==> !SomeSkippedAccepts(ms, x)))
  {
    AnyOutcomeIsExists(ms, x);
    if SomeShownAccepts(ms, x) {
      var i :| 0 <= i < |ms| && Shown(ms[i], x) && Accepts(ms[i], x);
      assert LooselyTrue(ms[i].judge(x));
    } else {
      assert SomeAccepts(ms, x) <==> SomeSkippedAccepts(ms, x) by {
        if SomeAccepts(ms, x) {
          var i :| 0 <= i < |ms| && Accepts(ms[i], x);
          assert !Shown(ms[i], x);
        }
      }
      assert SomeShownIsLooselyTrue(ms, x) <==> !AllHonest(ms, x) by {
        if !AllHonest(ms, x) {
          var i :| 0 <= i < |ms| && !Honest(ms[i], x);
          assert LooselyTrue(ms[i].judge(x));
        }
      }
    }
  }

  /** Two parts that reject, one with the message '1'. */
  lemma CoercedMessageIsAccepted(x: Candidate) returns (ms: seq<Matcher>)
    ensures |ms| == 2 && !SomeAccepts(ms, x) && Accepts(AnyOf(ms), x)
    ensures ms[1].judge(x) == Message("1")
  {
    var one := OneIsTrue();
    ms := [Matcher(y => False, true, false), Matcher(y => Message(one), true, false)];
    AnyOutcomeIsExists(ms, x);
    assert Shown(ms[1], x) && LooselyTrue(ms[1].judge(x));
  }

  /** The string '(missing)': a part accepts it and no part returns a message, but anyOf rejects it. */
  lemma MissingTextIsSkipped()
    ensures var ms, x := [Equals(Text(MISSING_TEXT)), Equals(Text("a"))], Text(MISSING_TEXT);
      SomeAccepts(ms, x) && AllHonest(ms, x) && !Accepts(AnyOf(ms), x)
  {
    var ms, x := [Equals(Text(MISSING_TEXT)), Equals(Text("a"))], Text(MISSING_TEXT);
    AnyOutcomeIsExists(ms, x);
    assert Accepts(ms[0], x);
  }

  // ----- Nested expressions

  datatype Expr = Base(m: Matcher) | All(parts: seq<Expr>) | Any(parts: seq<Expr>) | Negate(part: Expr)

  function Compile(e: Expr): Matcher {
    match e
    case Base(m) => m
    case All(parts) => AllOf(CompileEach(parts))
    case Any(parts) => AnyOf(CompileEach(parts))
    case Negate(part) => Not(Compile(part))
  }

  function CompileEach(parts: seq<Expr>): (ms: seq<Matcher>)
    ensures |ms| == |parts| && forall i :: 0 <= i < |parts| ==> ms[i] == Compile(parts[i])
  {
    seq(|parts|, i requires 0 <= i < |parts| => Compile(parts[i]))
  }

  /** Whether the expression claims to understand missing arguments. */
  predicate Understands(e: Expr) {
    match e
    case Base(m) => m.understandsMissingArgs
    case All(parts) => parts != [] && forall i :: 0 <= i < |parts| ==> Understands(parts[i])
    case Any(parts) => 2 <= |parts| || (|parts| == 1 && Understands(parts[0]))
    case Negate(_) => false
  }

  /** The boolean meaning for a candidate that does not look missing. */
  predicate Means(e: Expr, x: Candidate) {
    match e
    case Base(m) => Accepts(m, x)
    case All(parts) => forall i :: 0 <= i < |parts| ==> Means(parts[i], x)
    case Any(parts) => exists i :: 0 <= i < |parts| && Means(parts[i], x)
    case Negate(part) => !Means(part, x)
  }

  /** The meaning for the string '(missing)': of two or more alternatives only those count that understand missing
      arguments. */
  predicate MeansAtMissingText(e: Expr) {
    match e
    case Base(m) => Accepts(m, Text(MISSING_TEXT))
    case All(parts) => forall i :: 0 <= i < |parts| ==> MeansAtMissingText(parts[i])
    case Any(parts) => exists i :: 0 <= i < |parts| && (|parts| == 1 || Understands(parts[i])) && MeansAtMissingText(parts[i])
    case Negate(part) => !MeansAtMissingText(part)
  }

  /** The meaning for a missing argument: no negation accepts one, nor does an empty conjunction. */
  predicate MeansMissing(e: Expr) {
    match e
    case Base(m) => AcceptsMissing(m)
    case All(parts) => parts != [] && forall i :: 0 <= i < |parts| ==> MeansMissing(parts[i])
    case Any(parts) => exists i :: 0 <= i < |parts| && MeansMissing(parts[i])
    case Negate(_) => false
  }

  ghost predicate HonestBases(e: Expr, x: Candidate) {
    match e
    case Base(m) => Honest(m, x)
    case All(parts) => forall i :: 0 <= i < |parts| ==> HonestBases(parts[i], x)
    case Any(parts) => forall i :: 0 <= i < |parts| ==> HonestBases(parts[i], x)
    case Negate(part) => HonestBases(part, x)
  }

  /** What allOf does with its parts. */
  lemma AllOfAccepts(ms: seq<Matcher>, x: Candidate)
    ensures Accepts(AllOf(ms), x) <==> AllAccept(ms, x)
    ensures AcceptsMissing(AllOf(ms)) <==> ms != [] && forall i :: 0 <= i < |ms| ==> AcceptsMissing(ms[i])
    ensures AllOf(ms).understandsMissingArgs <==> ms != [] && AllUnderstand(ms)
  {
    if 2 <= |ms| {
      AllOutcomeIsForall(ms, x);
      AllOutcomeIsForall(ms, Sentinel);
    } else if |ms| == 1 {
      assert AllOf(ms) == ms[0];
    }
  }

  lemma AllOfIsHonest(ms: seq<Matcher>, x: Candidate)
    requires AllHonest(ms, x)
    ensures Honest(AllOf(ms), x)
  {
    if 2 <= |ms| {
      AllOutcomeIsForall(ms, x);
    } else if |ms| == 1 {
      assert AllOf(ms) == ms[0];
    }
  }

  /** What anyOf does with its parts: two or more are asked only if they are shown the candidate. */
  lemma AnyOfAccepts(ms: seq<Matcher>, x: Candidate)
    requires AllHonest(ms, x)
    ensures Honest(AnyOf(ms), x)
    ensures |ms| != 1 ==> (Accepts(AnyOf(ms), x) <==> SomeShownAccepts(ms, x))
    ensures |ms| == 1 ==> AnyOf(ms) == ms[0]
    ensures AnyOf(ms).understandsMissingArgs <==> 2 <= |ms| || (|ms| == 1 && ms[0].understandsMissingArgs)
  {
    AnyOutcomeIsExists(ms, x);
    if SomeShownIsLooselyTrue(ms, x) {
      var i :| 0 <= i < |ms| && Shown(ms[i], x) && LooselyTrue(ms[i].judge(x));
      assert Honest(ms[i], x) && Accepts(ms[i], x);
    }
    if SomeShownAccepts(ms, x) {
      var i :| 0 <= i < |ms| && Shown(ms[i], x) && Accepts(ms[i], x);
      assert LooselyTrue(ms[i].judge(x));
    }
  }

  lemma {:induction false} CompiledUnderstands(e: Expr)
    ensures Compile(e).understandsMissingArgs <==> Understands(e)
    decreases e
  {
    match e
    case Base(_) =>
    case All(parts) =>
      forall i | 0 <= i < |parts| ensures Compile(parts[i]).understandsMissingArgs <==> Understands(parts[i]) {
        CompiledUnderstands(parts[i]);
      }
    case Any(parts) =>
      if |parts| == 1 {
        CompiledUnderstands(parts[0]);
      }
    case Negate(_) =>
  }

  lemma {:induction false} CompiledIsHonest(e: Expr, x: Candidate)
    requires HonestBases(e, x)
    ensures Honest(Compile(e), x)
    decreases e
  {
    match e
    case Base(_) =>
    case All(parts) =>
      EachIsHonest(parts, x);
      AllOfIsHonest(CompileEach(parts), x);
    case Any(parts) =>
      EachIsHonest(parts, x);
      AnyOfAccepts(CompileEach(parts), x);
    case Negate(_) =>
  }

  lemma EachIsHonest(parts: seq<Expr>, x: Candidate)
    requires forall i :: 0 <= i < |parts| ==> HonestBases(parts[i], x)
    ensures AllHonest(CompileEach(parts), x)
    decreases parts
  {
    forall i | 0 <= i < |parts| ensures Honest(CompileEach(parts)[i], x) {
      CompiledIsHonest(parts[i], x);
    }
  }

  /** Acceptance is the boolean meaning of the expression, for every argument that is not loosely the sentinel. */
  lemma {:induction false} CompiledMeans(e: Expr, x: Candidate)
    requires !LooselyMissing(x) && HonestBases(e, x)
    ensures Accepts(Compile(e), x) <==> Means(e, x)
    decreases e
  {
    match e
    case Base(_) =>
    case All(parts) =>
      forall i | 0 <= i < |parts| ensures Accepts(CompileEach(parts)[i], x) <==> Means(parts[i], x) {
        CompiledMeans(parts[i], x);
      }
      AllOfAccepts(CompileEach(parts), x);
    case Any(parts) =>
      forall i | 0 <= i < |parts| ensures Accepts(CompileEach(parts)[i], x) <==> Means(parts[i], x) {
        CompiledMeans(parts[i], x);
      }
      EachIsHonest(parts, x);
      AnyOfAccepts(CompileEach(parts), x);
    case Negate(part) => CompiledMeans(part, x);
  }

  /** Acceptance of the one present argument that is. */
  lemma {:induction false} CompiledMeansAtMissingText(e: Expr)
    requires HonestBases(e, Text(MISSING_TEXT))
    ensures Accepts(Compile(e), Text(MISSING_TEXT)) <==> MeansAtMissingText(e)
    decreases e
  {
    var x := Text(MISSING_TEXT);
    match e
    case Base(_) =>
    case All(parts) =>
      forall i | 0 <= i < |parts| ensures Accepts(CompileEach(parts)[i], x) <==> MeansAtMissingText(parts[i]) {
        CompiledMeansAtMissingText(parts[i]);
      }
      AllOfAccepts(CompileEach(parts), x);
    case Any(parts) =>
      forall i | 0 <= i < |parts|
        ensures Accepts(CompileEach(parts)[i], x) <==> MeansAtMissingText(parts[i])
        ensures Shown(CompileEach(parts)[i], x) <==> Understands(parts[i])
      {
        CompiledMeansAtMissingText(parts[i]);
        CompiledUnderstands(parts[i]);
      }
      EachIsHonest(parts, x);
      AnyOfAccepts(CompileEach(parts), x);
    case Negate(part) => CompiledMeansAtMissingText(part);
  }

  /** Acceptance of a missing argument distributes over anyOf, and over allOf unless it is empty. */
  lemma {:induction false} CompiledMeansMissing(e: Expr)
    requires HonestBases(e, Sentinel)
    ensures AcceptsMissing(Compile(e)) <==> MeansMissing(e)
    decreases e
  {
    match e
    case Base(_) =>
    case All(parts) =>
      forall i | 0 <= i < |parts| ensures AcceptsMissing(CompileEach(parts)[i]) <==> MeansMissing(parts[i]) {
        CompiledMeansMissing(parts[i]);
      }
      AllOfAccepts(CompileEach(parts), Sentinel);
    case Any(parts) =>
      forall i | 0 <= i < |parts| ensures AcceptsMissing(CompileEach(parts)[i]) <==> MeansMissing(parts[i]) {
        CompiledMeansMissing(parts[i]);
      }
      EachIsHonest(parts, Sentinel);
      AnyOfAccepts(CompileEach(parts), Sentinel);
    case Negate(_) =>
  }

  // ----- When that holds of all expressions

  ghost predicate Over(bases: seq<Matcher>, e: Expr) {
    match e
    case Base(m) => m in bases
    case All(parts) => forall i :: 0 <= i < |parts| ==> Over(bases, parts[i])
    case Any(parts) => forall i :: 0 <= i < |parts| ==> Over(bases, parts[i])
    case Negate(part) => Over(bases, part)
  }

  /** The compiled expression accepts the candidate exactly if the expression means that it should. */
  ghost predicate AcceptsAsMeant(e: Expr, x: Candidate) {
    if x.Sentinel? then AcceptsMissing(Compile(e)) <==> MeansMissing(e)
    else if LooselyMissing(x) then Accepts(Compile(e), x) <==> MeansAtMissingText(e)
    else Accepts(Compile(e), x) <==> Means(e, x)
  }

  lemma {:induction false} HonestOver(bases: seq<Matcher>, e: Expr, x: Candidate)
    requires AllHonest(bases, x) && Over(bases, e)
    ensures HonestBases(e, x)
    decreases e
  {
    match e
    case Base(m) =>
    case All(parts) =>
      forall i | 0 <= i < |parts| ensures HonestBases(parts[i], x) { HonestOver(bases, parts[i], x); }
    case Any(parts) =>
      forall i | 0 <= i < |parts| ensures HonestBases(parts[i], x) { HonestOver(bases, parts[i], x); }
    case Negate(part) => HonestOver(bases, part, x);
  }

  lemma TwiceMeans(m: Matcher, x: Candidate)
    ensures Means(Any([Base(m), Base(m)]), x) ==> Accepts(m, x)
    ensures MeansAtMissingText(Any([Base(m), Base(m)])) ==> Accepts(m, Text(MISSING_TEXT))
    ensures MeansMissing(Any([Base(m), Base(m)])) ==> Accepts(m, Sentinel)
  {
    var parts := [Base(m), Base(m)];
    assert forall i :: 0 <= i < |parts| ==> parts[i] == Base(m);
    if Means(Any(parts), x) {
      var i :| 0 <= i < |parts| && Means(parts[i], x);
    }
    if MeansAtMissingText(Any(parts)) {
      var i :| 0 <= i < |parts| && MeansAtMissingText(parts[i]);
    }
    if MeansMissing(Any(parts)) {
      var i :| 0 <= i < |parts| && MeansMissing(parts[i]);
    }
  }

  /** A message read as true is no acceptance, but anyOf accepts it. */
  lemma DishonestMisleads(m: Matcher, x: Candidate)
    requires !Honest(m, x)
    ensures !AcceptsAsMeant(Any([Base(m), Base(m)]), x)
  {
    var ms := CompileEach([Base(m), Base(m)]);
    AnyOutcomeIsExists(ms, x);
    assert ms[0] == m && Shown(ms[0], x) && LooselyTrue(ms[0].judge(x));
    assert AnyOf(ms).understandsMissingArgs && Accepts(AnyOf(ms), x) && !Accepts(m, x);
    TwiceMeans(m, x);
  }

  /** Over given matchers, all expressions accept what they mean if and only if no matcher that is shown the candidate
      returns a message that is numerically one. */
  lemma AcceptsAsMeantIffHonest(bases: seq<Matcher>, x: Candidate)
    ensures (forall e :: Over(bases, e) ==> AcceptsAsMeant(e, x)) <==> AllHonest(bases, x)
  {
    if AllHonest(bases, x) {
      forall e | Over(bases, e) ensures AcceptsAsMeant(e, x) {
        HonestOver(bases, e, x);
        if x.Sentinel? {
          CompiledMeansMissing(e);
        } else if LooselyMissing(x) {
          CompiledMeansAtMissingText(e);
        } else {
          CompiledMeans(e, x);
        }
      }
    } else {
      var i :| 0 <= i < |bases| && !Honest(bases[i], x);
      DishonestMisleads(bases[i], x);
      assert Over(bases, Any([Base(bases[i]), Base(bases[i])]));
    }
  }

  // ----- De Morgan's laws

  function NegateEach(parts: seq<Expr>): (negated: seq<Expr>)
    ensures |negated| == |parts| && forall i :: 0 <= i < |parts| ==> negated[i] == Negate(parts[i])
  {
    seq(|parts|, i requires 0 <= i < |parts| => Negate(parts[i]))
  }

  ghost predicate NotAllIsAnyNot(parts: seq<Expr>, x: Candidate) {
    Accepts(Compile(Negate(All(parts))), x) <==> Accepts(Compile(Any(NegateEach(parts))), x)
  }

  ghost predicate NotAnyIsAllNot(parts: seq<Expr>, x: Candidate) {
    Accepts(Compile(Negate(Any(parts))), x) <==> Accepts(Compile(All(NegateEach(parts))), x)
  }

  function NotEach(ms: seq<Matcher>): (negated: seq<Matcher>)
    ensures |negated| == |ms| && forall i :: 0 <= i < |ms| ==> negated[i] == Not(ms[i])
  {
    seq(|ms|, i requires 0 <= i < |ms| => Not(ms[i]))
  }

  lemma CompileNegated(parts: seq<Expr>)
    ensures CompileEach(NegateEach(parts)) == NotEach(CompileEach(parts))
  {
    var negated, ms := CompileEach(NegateEach(parts)), CompileEach(parts);
    forall i | 0 <= i < |parts| ensures negated[i] == NotEach(ms)[i] {
      assert NegateEach(parts)[i] == Negate(parts[i]);
    }
  }

  /** A negation returns no message and is never shown what looks like a missing argument. */
  lemma NotOne(m: Matcher, x: Candidate)
    ensures Honest(Not(m), x) && (Accepts(Not(m), x) <==> !Accepts(m, x)) && (Shown(Not(m), x) <==> !LooselyMissing(x))
  {
  }

  lemma NotEachAccepts(ms: seq<Matcher>, x: Candidate)
    ensures AllHonest(NotEach(ms), x) && (AllAccept(NotEach(ms), x) <==> !SomeAccepts(ms, x))
    ensures SomeShownAccepts(NotEach(ms), x) <==> !LooselyMissing(x) && !AllAccept(ms, x)
  {
    var negated := NotEach(ms);
    forall i | 0 <= i < |ms|
      ensures Honest(negated[i], x) && (Accepts(negated[i], x) <==> !Accepts(ms[i], x))
      ensures Shown(negated[i], x) <==> !LooselyMissing(x)
    {
      NotOne(ms[i], x);
    }
    if !LooselyMissing(x) && !AllAccept(ms, x) {
      var i :| 0 <= i < |ms| && !Accepts(ms[i], x);
      assert Shown(negated[i], x) && Accepts(negated[i], x);
    }
  }

  lemma AnyOfNegated(ms: seq<Matcher>, x: Candidate)
    ensures Accepts(AnyOf(NotEach(ms)), x) <==> (|ms| == 1 || !LooselyMissing(x)) && !AllAccept(ms, x)
  {
    NotEachAccepts(ms, x);
    AnyOfAccepts(NotEach(ms), x);
    if |ms| == 1 {
      assert AnyOf(NotEach(ms)) == Not(ms[0]);
      NotOne(ms[0], x);
    }
  }

  lemma NegatedAll(parts: seq<Expr>, x: Candidate)
    ensures Accepts(Compile(Negate(All(parts))), x) <==> !AllAccept(CompileEach(parts), x)
  {
    AllOfAccepts(CompileEach(parts), x);
  }

  lemma AnyNegated(parts: seq<Expr>, x: Candidate)
    ensures Accepts(Compile(Any(NegateEach(parts))), x) <==>
      (|parts| == 1 || !LooselyMissing(x)) && !AllAccept(CompileEach(parts), x)
  {
    CompileNegated(parts);
    AnyOfNegated(CompileEach(parts), x);
  }

  lemma AllNegated(parts: seq<Expr>, x: Candidate)
    ensures Accepts(Compile(All(NegateEach(parts))), x) <==> !SomeAccepts(CompileEach(parts), x)
  {
    CompileNegated(parts);
    NotEachAccepts(CompileEach(parts), x);
    AllOfAccepts(NotEach(CompileEach(parts)), x);
  }

  /** The first law holds exactly for fewer than two parts, for candidates that do not look missing, and for those
      that all parts accept; whatever the messages are. */
  lemma NotAllIsAnyNotIff(parts: seq<Expr>, x: Candidate)
    ensures NotAllIsAnyNot(parts, x) <==>
      |parts| < 2 || !LooselyMissing(x) || AllAccept(CompileEach(parts), x)
  {
    NegatedAll(parts, x);
    AnyNegated(parts, x);
  }

  lemma NegatedAny(parts: seq<Expr>, x: Candidate)
    ensures Accepts(Compile(Negate(Any(parts))), x) <==> !Accepts(AnyOf(CompileEach(parts)), x)
    ensures |parts| < 2 ==> (Accepts(AnyOf(CompileEach(parts)), x) <==> SomeAccepts(CompileEach(parts), x))
  {
    var ms := CompileEach(parts);
    if |parts| == 1 {
      assert AnyOf(ms) == ms[0] && (SomeAccepts(ms, x) <==> Accepts(ms[0], x));
    }
  }

  /** The second holds exactly for fewer than two parts and where anyOf is disjunction. */
  lemma NotAnyIsAllNotIff(parts: seq<Expr>, x: Candidate)
    ensures var ms := CompileEach(parts);
      NotAnyIsAllNot(parts, x) <==>
        |parts| < 2 || SomeShownAccepts(ms, x) || (AllHonest(ms, x) <==> !SomeSkippedAccepts(ms, x))
  {
    NegatedAny(parts, x);
    AllNegated(parts, x);
    if 2 <= |parts| {
      AnyOfIsDisjunctionIff(CompileEach(parts), x);
    }
  }

  /** De Morgan's laws for every argument that does not look missing: the first always, the second exactly if there
      are fewer than two parts, some part accepts the argument, or no message is numerically one. */
  lemma DeMorgan(parts: seq<Expr>, x: Candidate)
    requires !LooselyMissing(x)
    ensures NotAllIsAnyNot(parts, x)
    ensures NotAnyIsAllNot(parts, x) <==>
      |parts| < 2 || SomeAccepts(CompileEach(parts), x) || AllHonest(CompileEach(parts), x)
  {
    NotAllIsAnyNotIff(parts, x);
    NotAnyIsAllNotIff(parts, x);
    assert SomeAccepts(CompileEach(parts), x) <==> SomeShownAccepts(CompileEach(parts), x);
  }

  /** At the string '(missing)' both hold for fewer than two parts.  Otherwise the first holds exactly if all parts
      accept it, and the second exactly if a part that understands missing arguments accepts it or none at all does. */
  lemma DeMorganAtMissingText(parts: seq<Expr>)
    requires HonestBases(All(parts), Text(MISSING_TEXT))
    ensures NotAllIsAnyNot(parts, Text(MISSING_TEXT)) <==> |parts| < 2 || MeansAtMissingText(All(parts))
    ensures NotAnyIsAllNot(parts, Text(MISSING_TEXT)) <==>
      |parts| < 2 || MeansAtMissingText(Any(parts)) || forall i :: 0 <= i < |parts| ==> !MeansAtMissingText(parts[i])
  {
    var negated := NegateEach(parts);
    CompiledMeansAtMissingText(Negate(All(parts)));
    CompiledMeansAtMissingText(Negate(Any(parts)));
    CompiledMeansAtMissingText(Any(negated));
    CompiledMeansAtMissingText(All(negated));
    assert forall i :: 0 <= i < |parts| ==> (MeansAtMissingText(negated[i]) <==> !MeansAtMissingText(parts[i]));
    assert forall i :: 0 <= i < |parts| ==> !Understands(negated[i]);
  }

  /** not(allOf(['x', 'y'])) accepts the string '(missing)', anyOf([not('x'), not('y')]) rejects it. */
  lemma DeMorganFails()
    ensures !NotAllIsAnyNot([Base(Equals(Text("x"))), Base(Equals(Text("y")))], Text(MISSING_TEXT))
  {
    var parts := [Base(Equals(Text("x"))), Base(Equals(Text("y")))];
    DeMorganAtMissingText(parts);
    assert !MeansAtMissingText(parts[0]);
  }
}
