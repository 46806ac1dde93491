# A verified model of gjstest's stateful core

gjstest is a JavaScript unit-test library with a C++ runner.  This project models the five parts of it that
keep real state or carry a real inverse, and proves what each is for:

* **The XML writer** (`webutil/xml/xml_writer.cc`).  Calls name namespaces by URI; the writer decides which
  prefix each gets and when to declare it.  `RoundTripsIffProper` proves that a reader which enforces XML 1.0's
  rules on document structure and characters and the constraints of Namespaces in XML 1.0 gets back exactly the URIs,
  names, values and texts of the calls if and only if an element was written and every call was proper, for every
  sequence of calls that the writer lets through: names are names, URIs may be declared, characters are allowed,
  there is one root and all text is in it, no element is given two attributes of one name.
  `UsableIffAlwaysRoundTrips` gives the exact condition on the client's bindings, and `WriteDocument` carries both
  down to the mutable object.
* **Graph walks that mark the heap** (`equality_matchers.js`, `stringify.js`).  The cycle search is exact and
  removes every mark it sets; recursive comparison terminates against any value, cyclic or not, and decides
  agreement of the two unfoldings; `stringify` threads a linked list through the objects it visits, takes it out
  again, and returns what a walk with an explicit visited set returns, from which the shape of the object and the part
  of each of its slots can be read back.
* **String codecs and number printers** (`strings/strutil.cc`).  Unescaping undoes escaping for every byte string
  and every mode, and what each mode writes and each escape means is said byte by byte; unescaping in place equals unescaping into another buffer; the printers write the canonical
  numeral for every 32- and 64-bit number, in arithmetic modulo 2^32 and 2^64; splitting undoes joining exactly
  when it should.
* **The mock engine** (`mock_function.js`, `call_expectation.js`, `mocking.js`), as objects that refine a state
  machine, with invariants over every interleaving of setup and calls, re-entrant calls included.
* **Matcher combinators** (`combining_matchers.js`): over given matchers, all nested expressions accept what they
  mean if and only if no matcher's message is numerically one (`AcceptsAsMeantIffHonest`).  The meaning is the boolean
  one except for missing arguments and the string `'(missing)'`, where it is stated apart, and each of De Morgan's
  laws has its exact condition.

Code that updates objects, buffers or arrays is modelled by classes and methods on arrays; each method's contract
gives the new state as a function of the old one, and the theorems are about those functions.

## Files

| file | content |
|---|---|
| `PrefixNumeral.dfy` | the counter's prefixes: bijective base 26, shortlex order, the next unreserved one |
| `PrefixMapper.dfy` | the URI-to-prefix table: stack, scope map, permanent map, reserved set, counter |
| `NamespaceReader.dfy` | the namespace-aware reader |
| `XmlWriter.dfy` | the writer's calls as a state machine and as an object |
| `PrefixInvariants.dfy` | who owns which prefix, and which URIs are in scope |
| `NamespaceRoundTrip.dfy` | one call at a time: writer, reader and intent stay in step |
| `XmlDocuments.dfy` | whole documents: the round trip, constancy of prefixes, the order of generated ones |
| `ImproperCalls.dfy` | exactly which documents read back: every improper call spoils its document for good |
| `DocumentWriting.dfy` | the writer object driven through a whole document |
| `BindingCondition.dfy` | exactly which bindings are safe |
| `PrefixScopes.dfy` | balanced use of the stack restores the table |
| `ObjectGraph.dfy` | JavaScript objects, reachability, cycles |
| `ContainsCycle.dfy` | the cycle search |
| `RecursiveEquality.dfy` | recursive comparison and the laws of agreement |
| `DescriptionText.dfy` | a reader of descriptions, from the text alone |
| `Stringify.dfy` | description of possibly cyclic graphs |
| `Descriptions.dfy` | what a description says about the object |
| `CEscape.dfy` | the escaper's three modes and the unescaper |
| `EscapeMeanings.dfy` | what every form of escape means |
| `DecimalPrinters.dfy` | left- and right-aligned decimal printers |
| `SplitJoin.dfy` | split and join |
| `NumericText.dfy` | when JavaScript reads a string as the number one |
| `Matchers.dfy` | the combinators |
| `MockRuns.dfy` | the mock engine as a state machine |
| `MockEngine.dfy` | the mock engine's objects |
| `Options.dfy` | the Option datatype |

## Where code and documentation differ

The code is followed in each case.

* `equality_matchers.js:137-140` asks for tree-like arguments; the code rejects cycles only, and accepts shared
  objects.
* `strings/strutil.h:202-212` promises `\u` and `\U` escapes and calls hex values above 8 bits erroneous; the code
  treats the former as unknown escapes and truncates the latter.
* `xml_writer.cc:655-660` describes the prefixes of all counters; from 2^31 on the counter is negative as an `int`
  (`PrefixesRepeatBeyondInt32`).
* `xml_writer.h` states no condition on names, URIs and characters, or on giving an attribute twice, and says only
  that data goes to the open element; the writer checks none of it, nor that there is one root (`SecondRootFails`,
  `NoRootFails`).  `RoundTripsIffProper` says which calls keep the document well-formed and meaning what they say.
* `xml_writer.cc:331-333` checks after a binding only that the URI is not in scope, so a binding after the first
  element can give a generated prefix to a second URI (`LateBindingFails`).  `LateBindKeepsTableIff` says which later
  bindings are safe.
* `strings/strutil.cc:427-429` promises -1 for insufficient space; the terminator that `sprintf` adds to a numeric
  escape is written one byte past a destination that ends right after that escape (`FourBytesAreTooFew`,
  `StaysInsideIff`).  The three wrappers never meet this case.
* The verdict of `checkExpectationSatisfied` counts matches, not used actions.  `LateActionIsNotNoticed` is a run
  in which the two differ, and `VerdictIsRightIff` says for which sequences of steps they agree.
* `anyOf` compares a part's result with `== true`, so a rejection whose message is numerically one is an
  acceptance (`CoercedMessageIsAccepted`, `AnyOfIsDisjunctionIff`).
* `compareRecursively_` compares what a matcher inside the expected value returns with `== true` as well, so such a
  message makes the values agree (`CoercedPropertyAgrees`, `StrictIffNotCoerced`).
* `anyOf` compares the candidate with the missing-argument sentinel by `==`, which turns the sentinel into its text:
  the ordinary string `'(missing)'` is not shown to parts that do not understand missing arguments
  (`MissingTextIsSkipped`, `DeMorganFails`).  What expressions accept at that string is `CompiledMeansAtMissingText`.

## Model

| member | source | states |
|---|---|---|
| ImproperCalls.RoundTripsIffProper | webutil/xml/xml_writer.cc:239-442 | with usable bindings, a document that the writer lets through is well-formed, namespaces included, and reads back as exactly the URIs, names, values and texts passed in, if and only if it has an element and every call was proper |
| XmlDocuments.NamespacesRoundTrip | webutil/xml/xml_writer.cc:239-442 | one direction of it: proper calls that write an element read back as intended, whatever their nesting |
| XmlDocuments.NoElementNoDocument | webutil/xml/xml_writer.cc:196-228 | proper calls that write no element make no document |
| XmlDocuments.MeantIffStarted | webutil/xml/xml_writer.cc:239-442 | in runs of proper calls nothing is meant, no element is open and no attribute is let through before the first start of an element |
| ImproperCalls.ImproperRunIsDoomed | webutil/xml/xml_writer.cc:239-442 | the other: after an improper call no continuation of the document can be good |
| ImproperCalls.StepDooms | webutil/xml/xml_writer.cc:239-442 | each way of being improper, call by call: a name that is none, a URI that may not be declared, a forbidden character, an attribute given twice, a second root, text outside the root, a comment with two hyphens in a row or a last one |
| ImproperCalls.SecondRootFails | webutil/xml/xml_writer.cc:239-295 | start, end, start: the writer lets two roots through |
| ImproperCalls.NoRootFails | webutil/xml/xml_writer.cc:403-442 | it lets text through where no element is open, and a document without an element |
| ImproperCalls.ReadSettles | webutil/xml/xml_writer.cc:239-442 | whatever is read later, the reader reports what it has read, under the local names pending, with all attribute names of a tag different |
| ImproperCalls.StepAppends | webutil/xml/xml_writer.cc:239-442 | a call appends events, and no more items than it has meanings |
| BindingCondition.UsableIffAlwaysRoundTrips | webutil/xml/xml_writer.cc:323-334 | the bindings the writer accepts, of URIs that may be declared, are safe for all proper calls that write an element if and only if different URIs have different prefixes, each a name without a colon and neither "xml" nor "xmlns" |
| DocumentWriting.WriteDocument | webutil/xml/xml_writer.h:364-371 | the object, driven through usable bindings and then calls, writes a document exactly when no binding is for the XML URI and the calls are such as are let through, and what it writes is well-formed and reads back as intended exactly if the calls were proper and an element was written |
| XmlDocuments.RunIffLetThrough | webutil/xml/xml_writer.cc:239-442 | from the calls alone: a sequence is let through if and only if no element is ended that was not started, and attributes, declarations and text with a URI come within a start tag |
| XmlDocuments.RunKeepsComments | webutil/xml/xml_writer.cc:470-489 | the comments written are those passed in, in order |
| XmlDocuments.PrefixesNeverChange | webutil/xml/xml_writer.cc:617-638 | over any continuation of a run a URI keeps its prefix, also while it is out of scope, and no two URIs of a document share one |
| XmlDocuments.GeneratedInOrder | webutil/xml/xml_writer.cc:654-696 | the k-th URI without a bound prefix gets the k-th numeral that is not reserved |
| XmlDocuments.RankIsInjective | webutil/xml/xml_writer.cc:654-696 | there is only one k-th unreserved numeral |
| XmlDocuments.RunCounts | webutil/xml/xml_writer.cc:654-696 | after n calls the counter has passed one unreserved numeral for each URI with a generated prefix, and is at most n plus the number of reserved prefixes |
| DocumentWriting.RunHasRoom | webutil/xml/xml_writer.cc:654-696 | the counter stays below 2^31 in documents with fewer bindings and calls than that |
| XmlDocuments.RunKeepsInv | webutil/xml/xml_writer.cc:239-442 | writer, reader and intent stay in step over every run of proper calls |
| XmlDocuments.RunKeepsTable | webutil/xml/xml_writer.cc:617-754 | over every run, proper or not, prefixes stay injective names and the mapped URIs are the XML one and those on the stack, none twice |
| XmlDocuments.BindRecords | webutil/xml/xml_writer.cc:640-652 | bindings fill the permanent map, the last one for a URI winning, and map no URI yet |
| XmlDocuments.BindReserves | webutil/xml/xml_writer.cc:640-652 | every bound prefix is reserved |
| NamespaceRoundTrip.StepKeepsInv | webutil/xml/xml_writer.cc:239-489 | every allowed and proper call keeps the invariant that ties the written events, the reader's scopes and the caller's intent together |
| NamespaceRoundTrip.StartUnmapped | webutil/xml/xml_writer.cc:239-267 | an element in a namespace that is not in scope is written with a declaration and reads back in that namespace |
| NamespaceRoundTrip.StartMapped | webutil/xml/xml_writer.cc:239-267 | an element without a namespace, or in one in scope, reads back correctly without a declaration |
| NamespaceRoundTrip.StartDefaultStep | webutil/xml/xml_writer.cc:271-286 | an element with a default namespace, and unprefixed elements in it, read back in that namespace |
| NamespaceRoundTrip.EndStep | webutil/xml/xml_writer.cc:288-295 | closing an element takes the same URIs out of the writer's table and out of the reader's scopes |
| NamespaceRoundTrip.DeclareStep | webutil/xml/xml_writer.cc:297-321 | declaring a URI in an open start tag changes no earlier meaning and leaves the URI mapped |
| NamespaceRoundTrip.AttributeStep | webutil/xml/xml_writer.cc:336-376 | an attribute reads back with its URI, name and value; without a URI it is in no namespace |
| NamespaceRoundTrip.QualifiedDataStep | webutil/xml/xml_writer.cc:403-442 | text written with a URI reads back as a qualified name with that URI |
| NamespaceRoundTrip.WriteText | webutil/xml/xml_writer.cc:403-442 | text in an open element completes the start tag and is read in the scopes of its element |
| NamespaceRoundTrip.CommentStep | webutil/xml/xml_writer.cc:470-489 | a comment completes the start tag and means nothing |
| NamespaceRoundTrip.CloseConveys | webutil/xml/xml_writer.cc:239-267 | a completed start tag resolves, its attributes have different expanded names, and it conveys its element and all its attributes |
| PrefixInvariants.InScopeResolves | webutil/xml/xml_writer.cc:617-638 | the reader resolves the prefix of every URI in scope to that URI |
| PrefixInvariants.DeclarationIsLegal | webutil/xml/xml_writer.cc:617-638 | a declaration the writer decides on is one XML allows, is new in its tag, and keeps all invariants |
| PrefixInvariants.NewPrefixIsFree | webutil/xml/xml_writer.cc:654-708 | a prefix given to a new URI belongs to no other URI, although generated prefixes are never put into the reserved set |
| PrefixInvariants.GetPrefixKeepsFixed | webutil/xml/xml_writer.cc:617-638 | looking a URI up keeps prefixes injective and usable |
| PrefixInvariants.GetPrefixKeepsStack | webutil/xml/xml_writer.cc:617-638 | looking a URI up keeps the mapped URIs equal to the XML one and those on the stack, none twice |
| PrefixInvariants.PopKeepsStack | webutil/xml/xml_writer.cc:739-754 | popping keeps the same |
| PrefixScopes.BalancedUseRestores | webutil/xml/xml_writer.cc:735-754 | push, any balanced uses, pop: stack and table in scope are exactly as before |
| PrefixScopes.InsideStaysOneDeeper | webutil/xml/xml_writer.cc:735-754 | in between, the table has just the URIs of one more level |
| XmlDocuments.LateBindKeepsTableIff | webutil/xml/xml_writer.cc:323-334 | a binding at any later time keeps prefixes injective and usable, and the URIs in scope as they are, if and only if the prefix is usable and no other URI has it, bound or generated |
| XmlDocuments.LateBindKeepsInv | webutil/xml/xml_writer.cc:323-334 | such a binding keeps writer, reader and intent in step |
| BindingCondition.LateBindingFails | webutil/xml/xml_writer.cc:323-334 | a later binding takes the generated prefix of an open element, and an element in it is read in the wrong namespace |
| BindingCondition.SharedPrefixFails | webutil/xml/xml_writer.cc:323-334 | two URIs bound to one prefix: a document of three nested elements is misread |
| BindingCondition.EmptyPrefixFails | webutil/xml/xml_writer.cc:323-334 | an empty bound prefix: an attribute loses its URI |
| BindingCondition.NotANameFails | webutil/xml/xml_writer.cc:323-334 | a bound prefix that is no name, because of a colon for example: the document is not well-formed |
| BindingCondition.ReservedPrefixFails | webutil/xml/xml_writer.cc:323-334 | a bound "xml" or "xmlns": the document is not well-formed |
| PrefixMapping.PrefixMapper.constructor | webutil/xml/xml_writer.cc:587-593 | a new table is empty, with the maps not allocated |
| PrefixMapping.PrefixMapper.Reset | webutil/xml/xml_writer.cc:719-733 | the table is as new |
| PrefixMapping.PrefixMapper.AllocateMapsIfNull | webutil/xml/xml_writer.cc:599-615 | both maps exist, with the XML prefix mapped if they are new |
| PrefixMapping.PrefixMapper.GetPrefix | webutil/xml/xml_writer.cc:617-638 | for every 32-bit counter: the prefix in scope, else the permanent one, else the next unreserved one; the whole new state |
| PrefixMapping.ObtainWithRoom | webutil/xml/xml_writer.cc:617-638 | while the counter stays below 2^31, this is what an unbounded counter gives |
| PrefixMapping.PrefixMapper.AssociatePrefix | webutil/xml/xml_writer.cc:640-652 | the permanent map and the reserved set get the binding; the whole new state |
| PrefixMapping.PrefixMapper.IsReservedPrefix | webutil/xml/xml_writer.cc:698-708 | true exactly for "xml", "xmlns" and bound prefixes |
| PrefixMapping.PrefixMapper.NextCandidate | webutil/xml/xml_writer.cc:663-693 | one pass of the do-while loop gives the prefix of the counter and steps the counter, which wraps around |
| PrefixMapping.PrefixMapper.GenerateNextPrefix | webutil/xml/xml_writer.cc:654-696 | if any counter has an unreserved prefix, the loop ends with the first one it comes to |
| PrefixNumeral.PassesIsNextFree | webutil/xml/xml_writer.cc:654-696 | below 2^31 that is the numeral of the least unreserved counter |
| PrefixMapping.PrefixMapper.Push | webutil/xml/xml_writer.cc:735-737 | one more, empty, level |
| PrefixMapping.PrefixMapper.Pop | webutil/xml/xml_writer.cc:739-754 | exactly the URIs of the top level leave the table |
| PrefixNumeral.FillPrefix | webutil/xml/xml_writer.cc:663-684 | the length loop and the fill loop agree and produce the counter's numeral, for every 32-bit counter |
| PrefixNumeral.ValueOfNumeral | webutil/xml/xml_writer.cc:654-696 | numerals are injective: their value is the counter |
| PrefixNumeral.NumeralOfValue | webutil/xml/xml_writer.cc:654-696 | numerals are surjective: every nonempty lowercase string is the numeral of its value |
| PrefixNumeral.NumeralIsLowercase | webutil/xml/xml_writer.cc:654-696 | every numeral is a nonempty lowercase string |
| PrefixNumeral.NumeralsIncrease | webutil/xml/xml_writer.cc:655-660 | numerals increase strictly in shortlex order |
| PrefixNumeral.PrefixesRepeatBeyondInt32 | webutil/xml/xml_writer.cc:666-684 | the bijection holds exactly below 2^31; beyond, prefixes are single characters and some repeat the first one |
| PrefixNumeral.NextFreeExists | webutil/xml/xml_writer.cc:686-693 | some counter is unreserved, within as many steps as there are reserved prefixes ahead |
| PrefixNumeral.Limits | webutil/xml/xml_writer.cc:663-684 | the counter has 32 bits and is read as a signed number |
| NamespaceReader.FixedNames | webutil/xml/xml_writer.cc:599-615 | the names that are never generated and the URI that is always mapped are those the standard fixes |
| XmlWriting.XmlWriter.StartDocument | webutil/xml/xml_writer.cc:196-220 | everything from the last document is gone |
| XmlWriting.XmlWriter.BindNamespaceUriToPrefix | webutil/xml/xml_writer.cc:323-334 | the binding is recorded; the call aborts exactly if the URI is in scope |
| XmlWriting.MachineAgrees | webutil/xml/xml_writer.cc:239-442 | while the counter stays below 2^31 each call does what the unbounded state machine does |
| XmlWriting.XmlWriter.StartElement | webutil/xml/xml_writer.cc:239-267 | for every 32-bit counter: the tag and, for a URI not in scope, its declaration are written; the final check never fails |
| XmlWriting.XmlWriter.StartElementDefaultNamespace | webutil/xml/xml_writer.cc:271-286 | the tag and its default declaration are written |
| XmlWriting.XmlWriter.EndElement | webutil/xml/xml_writer.cc:288-295 | the end tag is written and a level popped |
| XmlWriting.XmlWriter.DeclareNamespaceURI | webutil/xml/xml_writer.cc:297-321 | aborts exactly outside a start tag; otherwise, for every 32-bit counter, declares the URI unless it is in scope, and leaves it mapped |
| XmlWriting.XmlWriter.AddAttribute | webutil/xml/xml_writer.cc:336-376 | aborts exactly outside a start tag; otherwise declares the URI if needed and writes the attribute |
| XmlWriting.XmlWriter.Data | webutil/xml/xml_writer.cc:403-442 | with a URI, aborts exactly outside a start tag; writes the text with the URI's prefix |
| XmlWriting.XmlWriter.WriteComment | webutil/xml/xml_writer.cc:470-489 | writes the comment and closes the start tag |
| CycleDetection.ContainsCycle | gjstest/public/matchers/equality_matchers.js:201-230 | terminates on every finite graph, is true if and only if a cycle of plain objects and arrays can be reached, and leaves every mark as it was on both return paths |
| CycleDetection.BackEdgeIsCycle | gjstest/public/matchers/equality_matchers.js:212-213 | a marked child closes a cycle |
| ObjectGraph.CycleInSomeChild | gjstest/public/matchers/equality_matchers.js:201-230 | a cycle reachable from a node is reachable from one of its children, so the root need not be marked |
| ObjectGraph.CycleBelow | gjstest/public/matchers/equality_matchers.js:218-224 | a cycle reachable from a child is reachable from its parent |
| ObjectGraph.CycleIffLoop | gjstest/public/matchers/equality_matchers.js:201-230 | a cycle is a walk along properties, through plain objects and arrays only, that comes back to where it has been |
| ObjectGraph.SelfReferenceIsCycle | gjstest/public/matchers/equality_matchers.js:206-216 | a plain object or an array that holds itself is cyclic |
| ObjectGraph.CycleThroughInstanceIsNone | gjstest/public/matchers/equality_matchers.js:206-210 | an object that is held only by an instance of a class is not: instances are leaves |
| RecursiveEquality.CompareRecursively | gjstest/public/matchers/equality_matchers.js:243-314 | terminates for an acyclic left side and any right side; reports no difference if and only if the unfoldings agree below the roots; a reported path is a real difference |
| RecursiveEquality.CompareProperty | gjstest/public/matchers/equality_matchers.js:245-300 | the same for one key: missing key, matcher, whose outcome is compared loosely with true, leaf, kind, then recursion |
| RecursiveEquality.StrictIffNotCoerced | gjstest/public/matchers/equality_matchers.js:259-264 | the comparison agrees with the strict one exactly as long as no matcher met on the way rejects with a message that is numerically one |
| RecursiveEquality.CoercedPropertyAgrees | gjstest/public/matchers/equality_matchers.js:259-264 | a property whose matcher rejects with the message '1' agrees |
| RecursiveEquality.RecursivelyEquals | gjstest/public/matchers/equality_matchers.js:144-187 | rejects exactly non-containers and cyclic expectations, never loops, accepts exactly values whose unfolding agrees, and leaves no mark |
| RecursiveEquality.SameTreeUnfolds | gjstest/public/matchers/equality_matchers.js:243-314 | agreement at every path is agreement here together with agreement of the children |
| RecursiveEquality.AgreementIsPairwise | gjstest/public/matchers/equality_matchers.js:243-314 | agreement, pair by pair along the paths compared: a matcher returns true or a message that is numerically one, containers are of one kind with the same keys, and any other value is identical or, within one class, equal by its own method |
| RecursiveEquality.PlainDataAgreeIff | gjstest/public/matchers/equality_matchers.js:265-300 | without matchers and gjstestEquals: agreement if and only if at every path there is the same leaf, or a container of the same kind with the same keys |
| RecursiveEquality.ComparedIffLeads | gjstest/public/matchers/equality_matchers.js:245-256 | the paths compared are those along property names, through containers that are no matchers |
| RecursiveEquality.PrimitivesDiffer | gjstest/public/matchers/equality_matchers.js:266-289 | { a: x } and { a: y } agree if and only if x and y are one value |
| RecursiveEquality.DifferenceIsReal | gjstest/public/matchers/equality_matchers.js:250-314 | a path that is reported leads to a value on one side only, or to a pair that does not agree |
| RecursiveEquality.BelowShrinks | gjstest/public/matchers/equality_matchers.js:297-300 | the descent ends: what lies below a child of an acyclic node is strictly less |
| RecursiveEquality.AgreementShowsAcyclic | gjstest/public/matchers/equality_matchers.js:144-187 | a value that agrees with an acyclic, matcher-free one is acyclic too |
| RecursiveEquality.SameTreeIsEquivalence | gjstest/public/matchers/equality_matchers.js:243-314 | on matcher-free values agreement is an equivalence relation whenever agreement of leaves is |
| Stringification.Stringify | gjstest/public/stringify.js:36-38 | on any graph, cyclic or shared, the description is that of the walk with an explicit visited set, at depth 5, and on return no object is marked |
| Stringification.StringifyToDepth | gjstest/public/stringify.js:46-104 | the same at any depth inside a description, where the list of visited objects stays one chain from the root to the sentinel |
| Stringification.AddSlots | gjstest/public/stringify.js:52-73 | the loop over elements or keys follows the walk and keeps the chain |
| Stringification.InsertAfter | gjstest/public/stringify.js:193-199 | a new child enters the list right after its parent, wherever that is; the list stays one chain without repetition, with one more member |
| Stringification.Unthread | gjstest/public/stringify.js:228-235 | following the list deletes every mark, the sentinel's included |
| Stringification.MarkedIffInChain | gjstest/public/stringify.js:108-117 | an object is marked if and only if it is in the list |
| Stringification.ObjectDescriptionBuilder.constructor | gjstest/public/stringify.js:123-131 | the builder is the root's exactly if its object was unmarked, and then marks it with a fresh sentinel |
| Stringification.ObjectDescriptionBuilder.AddKeyWithPrefix | gjstest/public/stringify.js:163-204 | one property: depth limit, truncation at 25, repeated child at depth 0, new child one level down |
| Stringification.ObjectDescriptionBuilder.DescribeChild | gjstest/public/stringify.js:182-203 | a visited child is described at depth 0, any other joins the list first |
| Stringification.ObjectDescriptionBuilder.AddRawText | gjstest/public/stringify.js:213-216 | one more part |
| Stringification.ObjectDescriptionBuilder.Finish | gjstest/public/stringify.js:226-245 | the assembled text, from which a reader of the text alone gets back the kind of object and the parts, or learns that there are none, or none to be shown; the root removes every mark, any other builder none |
| Stringification.StringifyExpandsOnce | gjstest/public/stringify.js:182-189 | in one call every object is described with positive depth at most once, at its first reference |
| Stringification.PartsAreBounded | gjstest/public/stringify.js:52-76 | properties contribute at most 26 parts, one at depth 0; every array hole adds one more without limit |
| Stringification.AssembledShows | gjstest/public/stringify.js:238-244 | what the assembled text shows: "[]" or "{}" without parts, "[...]" or "{...}" at depth 0, else the parts, which can be read back if none contains the separator |
| Descriptions.TextReadsBack | gjstest/public/stringify.js:46-76 | the description of an object that is expanded gives back its kind and the part of each of its slots |
| Descriptions.PartIs | gjstest/public/stringify.js:163-204 | the part of each of the first 25 slots: blank for a missing element; else, behind the key for a property, the child's description, at depth 0 if it was visited before and one level down if not |
| Descriptions.LongObjects | gjstest/public/stringify.js:176-182 | of more than 25 properties the first 25 are shown and then dots |
| Descriptions.EmptyText | gjstest/public/stringify.js:238-240 | an empty object at any depth |
| Descriptions.FlatText | gjstest/public/stringify.js:170-174 | any other object at depth 0 |
| Descriptions.LeafText | gjstest/public/stringify.js:46-104 | primitive values are rendered, and what has a text of its own is described by it |
| Descriptions.FlatReadsBack | gjstest/public/stringify.js:36-38 | for up to 25 properties with primitive values, stringify's text gives back each of them in order |
| Descriptions.FlatTextsTell | gjstest/public/stringify.js:36-38 | two such objects with the same text are of one kind and have the same values and keys in the same order, if values are rendered differently and keys have no colon |
| Descriptions.FiveLevels | gjstest/public/stringify.js:36-38 | of nested objects five levels are expanded |
| Descriptions.SelfReferenceIsFlat | gjstest/public/stringify.js:182-189 | an object that holds itself is expanded once |
| CEscaping.UnescapeEscape | strings/strutil.cc:269-519 | for every byte string and every mode, unescaping what was escaped gives it back |
| CEscaping.EscapeHasNoNul | strings/strutil.cc:433-476 | the escaped text contains no NUL, so reading it as a C string does not cut it short |
| CEscaping.OctalEscapesAreOctal | strings/strutil.cc:433-476 | what CEscape writes, by byte values: printable ASCII, in which a backslash comes only before n, r, t, a quote, a backslash or exactly three octal digits, and these only for bytes that have no other form |
| CEscaping.HexEscapesAreHex | strings/strutil.cc:433-476 | what CHexEscape writes: the same with x and exactly two lower-case hex digits, which no hex digit follows |
| CEscaping.EscapedTextIsPrintable | strings/strutil.cc:433-476 | all of both is printable |
| CEscaping.Utf8SafeKeepsHighBytes | strings/strutil.cc:455-463 | Utf8SafeCEscape keeps the bytes above 0x7F, in order, and adds none |
| CEscaping.HarmlessIsUnchanged | strings/strutil.cc:433-476 | printable bytes other than quotes and backslash are left alone in every mode, and bytes above 0x7F by Utf8SafeCEscape |
| CEscaping.Utf8SafeIsOctalOnAscii | strings/strutil.cc:455-463 | on ASCII it is CEscape |
| CEscaping.FitsIff | strings/strutil.cc:433-476 | the tests for room succeed exactly if the text and its terminator fit |
| CEscaping.CEscapeInternal | strings/strutil.cc:433-476 | -1 exactly if the tests for room fail; otherwise the escaped text, its length and the terminator; memory behind the destination is touched exactly if StaysInside fails, and then its first byte becomes NUL |
| CEscaping.StaysInsideIff | strings/strutil.cc:455-463 | all writes stay inside the destination if and only if it does not end right after a numeric escape of some prefix of the source |
| CEscaping.FourBytesAreTooFew | strings/strutil.cc:458-463 | one unprintable byte and four bytes of destination: the write goes past the end, and -1 is returned |
| CEscaping.FittingStaysInside | strings/strutil.cc:433-476 | that only happens on the way to -1 |
| CEscaping.EscapeOne | strings/strutil.cc:440-468 | the escape of one byte, or -1 exactly if there is no room for it; the terminator after a numeric escape lands behind the destination exactly if four bytes were left |
| CEscaping.FourTimesFits | strings/strutil.cc:492-519 | four bytes for each byte and one more always suffice, so with FittingStaysInside the wrappers write inside their buffers |
| CEscaping.CEscape | strings/strutil.cc:492-499 | the octal escape, of that form, which unescapes to the source; -1 never occurs |
| CEscaping.Utf8SafeCEscape | strings/strutil.cc:503-510 | a text that unescapes to the source, with the same bytes above 0x7F in the same order; the source itself if the rest of it is harmless |
| CEscaping.CHexEscape | strings/strutil.cc:512-519 | the hex escape, of its form, which unescapes to the source |
| CEscaping.UnescapeCEscapeSequences | strings/strutil.cc:269-386 | for one buffer or two, the bytes and the length are those of the meaning of the source, never longer than it |
| CEscaping.UnescapeOne | strings/strutil.cc:281-383 | one step of the loop keeps the unread part intact and the write position at or before the read position |
| CEscaping.ReadOctal | strings/strutil.cc:301-310 | one to three octal digits, truncated to eight bits |
| CEscaping.ReadHex | strings/strutil.cc:321-324 | arbitrarily many hex digits, accumulated in 32 unsigned bits |
| CEscaping.ReadEscape | strings/strutil.cc:285-381 | what every escape produces and how many bytes it takes up, the unknown ones included |
| EscapeMeanings.TwoByteEscapes | strings/strutil.cc:290-300 | by byte values: a, b, t, n, v, f, r, the quotes, the question mark and the backslash |
| EscapeMeanings.EscapesWithoutMeaning | strings/strutil.cc:285-289 | unknown escapes, an x without a digit and a backslash at the end produce nothing |
| EscapeMeanings.PlainBytes | strings/strutil.cc:281-283 | any byte but a backslash means itself |
| EscapeMeanings.ShortOctalEscapes | strings/strutil.cc:301-310 | one octal digit or two |
| EscapeMeanings.LongOctalEscapes | strings/strutil.cc:301-310 | three, modulo 256 |
| EscapeMeanings.HexEscapes | strings/strutil.cc:311-329 | x or X and any number of hex digits: the value of the last two |
| DecimalPrinting.FastUInt32ToBufferLeft | strings/strutil.cc:738-818 | for every 32-bit number, the canonical numeral, its end and the terminator, and nothing else |
| DecimalPrinting.FastInt32ToBufferLeft | strings/strutil.cc:820-827 | the same for every 32-bit integer, the minimum included |
| DecimalPrinting.FastUInt64ToBufferLeft | strings/strutil.cc:829-869 | the same for every 64-bit number, by recursion on all but the low nine digits |
| DecimalPrinting.FastInt64ToBufferLeft | strings/strutil.cc:871-878 | the same for every 64-bit integer, the minimum included |
| DecimalPrinting.FastIntToBuffer | strings/strutil.cc:578-659 | the right-aligned printers of both widths write the same numeral, ending at the fixed offset, within the buffer, and nothing else |
| DecimalPrinting.LargeNegative | strings/strutil.cc:599-613 | the detour that avoids negating the minimum writes its numeral |
| DecimalPrinting.DigitsDown | strings/strutil.cc:584-589 | the downward loop writes the numeral of n just below the position given, and nothing else |
| DecimalPrinting.MinimumFillsBuffer | strings/strutil.cc:616-628 | the 32-bit minimum needs the 12 bytes to the last one |
| DecimalPrinting.LongestNumerals | strings/strutil.cc:576-628 | no magnitude needs more than 10 or 19 digits |
| DecimalPrinting.ParseDecimal | strings/strutil.cc:738-869 | the numeral parses back to the number and has no superfluous zero |
| DecimalPrinting.SignedDecimalReads | strings/strutil.cc:820-878 | a hyphen for negative numbers and for these alone, and then digits that parse to the magnitude |
| DecimalPrinting.Widths | strings/strutil.cc:576-659 | the widths of the integers and of the fixed buffers |
| DecimalPrinting.DecimalSplit | strings/strutil.cc:833-869 | a numeral is the numeral of its leading part followed by the zero-padded rest |
| DecimalPrinting.SubtractIsExact | strings/strutil.cc:753-754 | `u -= digits * unit` is exact, although the signed product wraps |
| DecimalPrinting.NegationIsExact | strings/strutil.cc:820-827 | the unsigned value of a wrapped negation is the magnitude, also of the minimum |
| DecimalPrinting.LowNine | strings/strutil.cc:836-838 | the difference truncated to 32 bits is the low nine digits |
| DecimalPrinting.WritePair | strings/strutil.cc:747-773 | one rung of the ladder: a two-digit table row, with an index below 100, and what remains |
| DecimalPrinting.NineDigits | strings/strutil.cc:840-868 | the low nine digits are zero-padded |
| SplitJoin.SplitStringUsing | strings/strutil.cc:154-194 | both paths append the maximal delimiter-free runs, in order |
| SplitJoin.SplitByCharacter | strings/strutil.cc:159-174 | the single-character path |
| SplitJoin.SplitByCharacters | strings/strutil.cc:176-186 | the general path, for any set of delimiters |
| SplitJoin.JoinStrings | strings/strutil.cc:202-234 | the components with the delimiter between them |
| SplitJoin.SplitIff | strings/strutil.cc:154-194 | for any set of delimiters: the result is the one list of nonempty, delimiter-free pieces that make up the string with delimiters around them and at least one between any two |
| SplitJoin.JoinHolds | strings/strutil.cc:222-233 | every component is in its place in the result |
| SplitJoin.JoinSeparates | strings/strutil.cc:222-233 | every component but the last is followed by the delimiter |
| SplitJoin.JoinLength | strings/strutil.cc:213-220 | the length is that of the components and of one delimiter for each gap, and zero for no components |
| SplitJoin.SplitJoinRoundTrip | strings/strutil.cc:154-234 | splitting undoes joining if and only if all components are nonempty and free of the delimiter |
| Matchers.AcceptsAsMeantIffHonest | gjstest/public/matchers/combining_matchers.js:35-215 | for every argument, the missing one included: all expressions over given matchers accept it as they mean, if and only if no given matcher that is shown it returns a message that is numerically one |
| Matchers.CompiledMeans | gjstest/public/matchers/combining_matchers.js:35-215 | one direction, for arguments that are not loosely the sentinel: acceptance by a nested expression is its boolean meaning |
| Matchers.CompiledMeansAtMissingText | gjstest/public/matchers/combining_matchers.js:163-168 | acceptance of the string '(missing)': of two or more alternatives only those count that understand missing arguments |
| Matchers.CompiledMeansMissing | gjstest/public/matchers/combining_matchers.js:35-215 | acceptance of a missing argument distributes over anyOf, and over allOf unless it is empty; not never accepts one |
| Matchers.DeMorgan | gjstest/public/matchers/combining_matchers.js:35-215 | De Morgan's laws, for any number of parts, for every argument that is not loosely the sentinel: the first always, the second if and only if there are fewer than two parts, some part accepts, or no message is numerically one |
| Matchers.NotAllIsAnyNotIff | gjstest/public/matchers/combining_matchers.js:35-215 | exactly when the first law holds, for all arguments and messages |
| Matchers.NotAnyIsAllNotIff | gjstest/public/matchers/combining_matchers.js:35-215 | exactly when the second does |
| Matchers.DeMorganAtMissingText | gjstest/public/matchers/combining_matchers.js:163-168 | at the string '(missing)', exactly when each law holds |
| Matchers.DeMorganFails | gjstest/public/matchers/combining_matchers.js:163-168 | two parts for which the first law fails there |
| Matchers.MissingTextIsSkipped | gjstest/public/matchers/combining_matchers.js:163-168 | a part accepts the string '(missing)', no message is involved, and anyOf rejects it |
| Matchers.AnyOfIsDisjunctionIff | gjstest/public/matchers/combining_matchers.js:161-177 | over all candidates, anyOf is disjunction if and only if a part that is shown the candidate accepts it, or messages read as true and accepting parts that are skipped are both absent or both present |
| Matchers.AnyOutcomeIsExists | gjstest/public/matchers/combining_matchers.js:161-177 | anyOf accepts if and only if some part that is not skipped is loosely true |
| Matchers.CoercedMessageIsAccepted | gjstest/public/matchers/combining_matchers.js:170-173 | two parts that reject, one with the message '1', and anyOf accepts |
| NumericText.ClauseIsNotTrue | gjstest/public/matchers/combining_matchers.js:170-173 | a message that begins with 'which' is never read as true |
| Matchers.AllOfAccepts | gjstest/public/matchers/combining_matchers.js:55-95 | allOf is conjunction, with its empty and single-element cases |
| Matchers.AllOutcomeIsFirst | gjstest/public/matchers/combining_matchers.js:82-91 | allOf returns what its first part that does not say true returns, the message included |
| Matchers.PlainAccepts | gjstest/public/matchers/combining_matchers.js:41-53 | a plain value accepts exactly what it equals, and no missing argument |
| NumericText.DigitsEqualTrueIff | gjstest/public/matchers/combining_matchers.js:170-173 | a message of decimal digits is read as true exactly if its value is one |
| NumericText.PlusEqualsTrueIff | gjstest/public/matchers/combining_matchers.js:170-173 | so is one with a plus sign |
| Matchers.AnyOfAccepts | gjstest/public/matchers/combining_matchers.js:138-181 | with honest messages, anyOf of two or more parts accepts what some part that is shown it accepts; its empty and single-element cases |
| Matchers.EvaluateAll | gjstest/public/matchers/combining_matchers.js:82-91 | the first outcome that is not true, or true |
| Matchers.EvaluateAny | gjstest/public/matchers/combining_matchers.js:161-177 | true if a part that is not skipped, by the loose comparison with the sentinel, is loosely true |
| Matchers.BuildAllOf | gjstest/public/matchers/combining_matchers.js:41-95 | the matcher built behaves like the specification and understands missing arguments exactly if all parts do |
| Matchers.BuildAnyOf | gjstest/public/matchers/combining_matchers.js:124-181 | the matcher built behaves like the specification |
| MockRuns.RunKeepsInv | gjstest/internal/js/mock_function.js:51-143 | over every interleaving of setup and calls the expired actions are a prefix of the list, ran once each in order, and the fallback ran only after all |
| MockRuns.CallsAreConserved | gjstest/internal/js/mock_function.js:119-190 | over every run the number of dispatches is the sum of all match counts plus the number of failures |
| MockRuns.RunAfterSetup | gjstest/internal/js/mock_function.js:51-68 | once an expectation is set up, its calls run the actions in order, then the fallback or the empty function, and min(matches, n) of n actions are expired |
| MockRuns.VerdictAfterSetup | gjstest/internal/js/call_expectation.js:118-155 | with actions and no times(), the verdict accepts if and only if all actions were used and the empty function never ran |
| MockRuns.VerdictIsRightIff | gjstest/internal/js/call_expectation.js:118-155 | for any sequence of steps, that verdict is right if and only if no call the expectation takes finds neither an unused action nor a fallback, or the numbers of calls taken and actions added do not balance; all of it said of the steps |
| MockRuns.VerdictFromSteps | gjstest/internal/js/call_expectation.js:118-155 | the verdict on every expectation of every run, from the steps alone: after times(n) exactly n calls; without it and without actions one, or any number with a fallback; with actions as many, or more with a fallback |
| MockRuns.ThrowsFromSteps | gjstest/public/mocking.js:115-156 | a setup call throws exactly if the accepted calls before it leave no room for it |
| MockRuns.DispatchReturnsRan | gjstest/internal/js/mock_function.js:119-190 | the caller gets what the expectation that takes the call has just recorded; without one there is a failure and nothing to run |
| MockRuns.RunReflectsSteps | gjstest/internal/js/mock_function.js:51-143 | match count, the number given to times, actions, fallback, used actions and what each call ran are functions of the steps alone |
| MockRuns.LateActionIsNotNoticed | gjstest/internal/js/call_expectation.js:144-147 | a run in which an action set up too late is never used and the verdict accepts |
| MockRuns.NestingIsInterleaving | gjstest/internal/js/mock_function.js:134-140 | however calls nest, their effect is that of their dispatches in the order they begin |
| MockRuns.ReentrantRunsAreSound | gjstest/internal/js/mock_function.js:119-190 | the invariant and the conservation of calls when actions call the mock or set it up again |
| MockRuns.Newest | gjstest/internal/js/mock_function.js:128-143 | the expectation that takes a call is the newest one whose matchers accept the arguments |
| MockEngine.CallExpectation.constructor | gjstest/internal/js/call_expectation.js:28-35 | a new expectation |
| MockEngine.MockAction.constructor | gjstest/internal/js/call_expectation.js:90-93 | a new action, not expired |
| MockEngine.CallExpectation.ConsumeAction | gjstest/internal/js/mock_function.js:51-68 | the first unexpired action runs and expires; else the fallback; else the empty function |
| MockEngine.CallExpectation.Match | gjstest/internal/js/mock_function.js:135-139 | the whole new state of the expectation that takes a call |
| MockEngine.CallExpectation.CheckSatisfied | gjstest/internal/js/call_expectation.js:118-155 | the verdict as a function of the expectation's state, which VerdictFromSteps reads off the steps |
| MockEngine.CheckArgs | gjstest/internal/js/call_expectation.js:165-204 | no failure if and only if the arguments match, the sentinel passed to isMissingArgSentinel included; otherwise too many arguments or the first bad position |
| MockRuns.ArgumentAcceptedIff | gjstest/internal/js/call_expectation.js:173-199 | an argument in its place is accepted exactly if the matcher returns true, a missing one exactly if besides the matcher understands missing arguments, and a sentinel that was passed in that case or by isMissingArgSentinel |
| MockRuns.ArgumentsMatchIffMeant | gjstest/internal/js/call_expectation.js:165-204 | with matchers built from expressions and honest messages, a call matches if and only if it has not too many arguments and each, present or missing, is meant |
| MockRuns.MatchersStandFor | gjstest/public/mocking.js:171-197 | plain arguments of expectCall accept exactly equal arguments in their place, and matchers stay as they are |
| MockEngine.MockFunction.Dispatch | gjstest/internal/js/mock_function.js:119-190 | the newest matching expectation alone takes the call, or the call is reported as a failure; the whole new state |
| MockEngine.MockFunction.FindMatching | gjstest/internal/js/mock_function.js:128-143 | the loop finds the newest matching expectation |
| MockEngine.MockFunction.ExpectCall | gjstest/public/mocking.js:171-197 | plain arguments become matchers that accept equal values only, and a new expectation goes to the end of the mock's list and of the test's |
| MockEngine.CallExpectation.Times | gjstest/public/mocking.js:115-134 | throws exactly after times, willOnce or willRepeatedly, and then changes nothing |
| MockEngine.CallExpectation.WillRepeatedly | gjstest/public/mocking.js:136-145 | throws exactly after willRepeatedly |
| MockEngine.CallExpectation.WillOnce | gjstest/public/mocking.js:147-156 | throws exactly after willRepeatedly; otherwise appends a fresh action |
| MockEngine.MockFunction.Times | gjstest/public/mocking.js:115-134 | a setup call changes the expectation it is for and no other |
| MockEngine.MockFunction.WillRepeatedly | gjstest/public/mocking.js:136-145 | the same for the fallback |
| MockEngine.MockFunction.WillOnce | gjstest/public/mocking.js:147-156 | the same for one-time actions, which no two expectations share |

## Left out

Weaker than the code or its documentation in a known way:

- XmlDocuments.NamespacesRoundTrip: all bindings come before the first call; `LateBindKeepsInv` covers later ones one at a time.
- XmlDocuments.NamespacesRoundTrip: counts without a bound; the 32-bit object agrees with it while the counter is below 2^31 (`RunHasRoom`), and `PrefixesRepeatBeyondInt32` says what happens beyond.
- BindingCondition.UsableIffAlwaysRoundTrips: for bindings of URIs that may be declared; a binding of the empty name or of the one of "xmlns" is never used by a proper call.
- DocumentWriting.WriteDocument: bindings and calls together number fewer than 2^31 - 2.
- XmlWriting.XmlWriter.EndElement: without an open element the code pops an empty stack, which is undefined; such runs are not documents here.
- PrefixMapping.PrefixMapper.GetPrefix: for a new URI, some 32-bit counter has a prefix that is not reserved; otherwise the search never ends.
- XmlWriting.XmlWriter.AddAttribute: string values only; the integer and boolean overloads format their value first.
- CEscaping.CEscape: like the other two wrappers, strings up to a quarter of the 32-bit range, since the buffer size is an `int`.
- CEscaping.UnescapeCEscapeSequences: one buffer or two separate ones; buffers that overlap in part are not covered.
- CEscaping.UnescapeCEscapeSequences: error messages are not recorded; what a malformed escape produces is.
- DecimalPrinting.FastIntToBuffer: one method stands for the two identical bodies, with the width as a parameter.
- Stringification.StringifyToDepth: properties that an array has besides its elements, and getters, are not in the object model.
- RecursiveEquality.CompareRecursively: keys are own properties; key paths are lists of keys, not dotted strings.
- MockEngine.CheckArgs: predicates return; isMissingArgSentinel's throws when it is asked about anything else.
- Matchers.CompiledMeans: predicates return true, false or a message; other JavaScript values are not in the model.

Not modelled:

- libxml2, encodings, buffers, GetContent and pretty-printing: the text writer is the list of events it received, and an attribute with an empty name is not written.
- EndDocument, which closes the elements still open, as the reader does here, and appends a newline; WriteCData, DataElement, Newline and the other one-line combinations of the writer's calls.
- JavaScript beyond plain object graphs: prototype chains, frozen objects, NaN, functions' own text, throwing or impure toString. What user code decides (matchers inside values, gjstestEquals, rendering of primitives) is a parameter.
- The two mark properties as enumerable keys: the walks skip or pass over them, so they are fields of their own.
- Error messages, stack frames and matcher descriptions.
- The functions that actions run: a step records which one ran; nested calls are activities of a run.
- The loop that asks each registered expectation for its verdict at the end of a test.
- The length that join computes in advance to reserve memory; locale effects on the printable-character test.
- Hex and floating-point printers, the remaining matchers, V8 glue, file utilities, flags and the browser runner.
