/**
 * `Factree::Decision`: a branch node of a decision tree. It records the
 * names of the facts it needs and a routing block that, given the facts,
 * picks the next node. Once built, a Decision never changes, so it is a
 * datatype value here; the routing block is caller-authored code, kept as
 * an uninterpreted function value.
 *
 * Type parameters: `FactName` stands for the fact-name symbols, `Facts` for
 * the fact collection handed to `decide`, `Node` for whatever the routing
 * block returns (another Decision or a Conclusion).
 */
module Factree {
  import opened RubyArray

  /**
   * A frozen Decision: `required_facts` is duplicate-free by its type, and
   * `route` is the block captured by the constructor.
   */
  datatype Decision<FactName(==), !Facts, Node> =
    Decision(requiredFacts: UniqueSeq<FactName>, route: Facts -> Node)

  /**
   * `Decision.new(required_facts = []) { |facts| ... }`: the list of fact
   * names is reduced with `uniq`, the block is stored as given, and an
   * omitted list stands for the empty one.
   */
  function MakeDecision<FactName(==), Facts, Node>(
    required: seq<FactName> := [],
    route: Facts -> Node
  ): (d: Decision<FactName, Facts, Node>)
    ensures d.route == route
    ensures forall i :: 0 <= i < |d.requiredFacts| ==> d.requiredFacts[i] in required
    ensures forall i :: 0 <= i < |required| ==> required[i] in d.requiredFacts
    ensures |d.requiredFacts| <= |required|
  {
    Decision(Uniq(required), route)
  }

  /**
   * `decision.decide(facts)`: whatever the routing block yields for `facts`,
   * not wrapped, not checked.
   */
  function Decide<FactName(==), Facts, Node>(d: Decision<FactName, Facts, Node>, facts: Facts): (next: Node)
  {
    d.route(facts)
  }

  /**
   * The `required_facts=[...]` part of `to_s`: the names, each rendered by
   * `show` (the symbol's own `to_s`), joined by ", " inside brackets.
   */
  function FactListText<FactName(==), Facts, Node>(
    d: Decision<FactName, Facts, Node>,
    show: FactName -> string
  ): (text: string)
    ensures |text| >= 2 && text[0] == '[' && text[|text| - 1] == ']'
    ensures d.requiredFacts == [] ==> text == "[]"
  {
    "[" + Join(MapShow(d.requiredFacts, show), ", ") + "]"
  }

  /**
   * `to_s`. The rendering of the routing block (Ruby's `Proc#to_s`) is an
   * object address that the model cannot know, so it comes in as `routeText`.
   */
  function Describe<FactName(==), Facts, Node>(
    d: Decision<FactName, Facts, Node>,
    show: FactName -> string,
    routeText: string
  ): (text: string)
    ensures "<Factree::Decision decide=" + routeText + " required_facts=" <= text
    ensures var tail := FactListText(d, show) + ">";
      |tail| <= |text| && text[|text| - |tail|..] == tail
  {
    "<Factree::Decision decide=" + routeText + " required_facts=" + FactListText(d, show) + ">"
  }

  // ---------------------------------------------------------------------
  // Construction
  // ---------------------------------------------------------------------

  /** No name appears twice in `required_facts` after construction. */
  lemma ConstructedHasNoDuplicates<FactName, Facts, Node>(required: seq<FactName>, route: Facts -> Node)
    ensures NoDuplicates(MakeDecision(required, route).requiredFacts)
  {
  }

  /**
   * Construction loses no name and adds none: a name is required exactly
   * when it was in the argument list.
   */
  lemma ConstructedSameNames<FactName, Facts, Node>(required: seq<FactName>, route: Facts -> Node, name: FactName)
    ensures name in MakeDecision(required, route).requiredFacts <==> name in required
  {
  }

  /**
   * Construction keeps the argument's order of first occurrences, deleting
   * only repeats: `required_facts` is a subsequence of the argument.
   */
  lemma ConstructedKeepsFirstOccurrenceOrder<FactName, Facts, Node>(required: seq<FactName>, route: Facts -> Node)
    ensures InFirstOccurrenceOrder(MakeDecision(required, route).requiredFacts, required)
    ensures IsSubsequence(MakeDecision(required, route).requiredFacts, required)
  {
    UniqInFirstOccurrenceOrder(required);
    UniqIsSubsequence(required);
  }

  /**
   * `required_facts` is the one list with no repeats, the argument's names,
   * and their first-occurrence order.
   */
  lemma ConstructedFactsCharacterised<FactName, Facts, Node>(
    required: seq<FactName>, route: Facts -> Node, names: seq<FactName>)
    ensures MakeDecision(required, route).requiredFacts == names <==>
      (NoDuplicates(names) && (forall x :: x in names <==> x in required)
       && InFirstOccurrenceOrder(names, required))
  {
    UniqCharacterised(required, names);
  }

  /** Building from an already duplicate-free list keeps it as it is. */
  lemma ConstructedFromDistinct<FactName, Facts, Node>(required: seq<FactName>, route: Facts -> Node)
    requires NoDuplicates(required)
    ensures MakeDecision(required, route).requiredFacts == required
  {
    UniqOfDistinct(required);
  }

  /**
   * Rebuilding a Decision from its own `required_facts` and block gives back
   * the same Decision.
   */
  lemma RebuildIsIdentity<FactName, Facts, Node>(d: Decision<FactName, Facts, Node>)
    ensures MakeDecision(d.requiredFacts, d.route) == d
  {
    UniqOfDistinct(d.requiredFacts);
  }

  /** `[:a, :a, :b]` becomes `[:a, :b]`, of size 2. */
  lemma RepeatedNameCollapses<FactName, Facts, Node>(a: FactName, b: FactName, route: Facts -> Node)
    requires a != b
    ensures MakeDecision([a, a, b], route).requiredFacts == [a, b]
    ensures |MakeDecision([a, a, b], route).requiredFacts| == 2
  {
    assert [a, a, b][..2] == [a, a];
    assert [a, a][..1] == [a];
    assert [a][..0] == [];
    assert Uniq([a]) == [a];
    assert Uniq([a, a]) == [a];
  }

  /** Leaving out the list gives a Decision that requires nothing. */
  lemma DefaultRequiresNothing<FactName, Facts, Node>(route: Facts -> Node)
    ensures MakeDecision<FactName, Facts, Node>(route := route).requiredFacts == []
  {
  }

  // ---------------------------------------------------------------------
  // Routing
  // ---------------------------------------------------------------------

  /**
   * `decide` hands back exactly what the block given at construction yields
   * for the same facts, whatever list of names was declared.
   */
  lemma DecidePassesThrough<FactName, Facts, Node>(required: seq<FactName>, route: Facts -> Node, facts: Facts)
    ensures Decide(MakeDecision(required, route), facts) == route(facts)
  {
  }

  // ---------------------------------------------------------------------
  // Rendering
  // ---------------------------------------------------------------------

  /**
   * The fact list shown for a Decision is the bracketed, ", "-separated
   * rendering of the de-duplicated names: repeats in the argument never
   * show twice, and building from the de-duplicated list renders the same.
   */
  lemma FactListIgnoresRepeats<FactName, Facts, Node>(
    required: seq<FactName>, route: Facts -> Node, show: FactName -> string)
    ensures FactListText(MakeDecision(required, route), show)
         == FactListText(MakeDecision(Uniq(required), route), show)
  {
    UniqIdempotent(required);
  }

  /** `[:a, :a, :b]` renders as `[a, b]`. */
  lemma RepeatedNameRendersOnce<FactName, Facts, Node>(
    a: FactName, b: FactName, route: Facts -> Node, show: FactName -> string)
    requires a != b
    ensures FactListText(MakeDecision([a, a, b], route), show) == "[" + show(a) + ", " + show(b) + "]"
  {
    RepeatedNameCollapses(a, b, route);
    var parts := MapShow([a, b], show);
    assert parts == [show(a), show(b)];
    assert parts[..1] == [show(a)];
  }

  /**
   * Adding a new name at the end of the argument list appends ", " and its
   * rendering before the closing bracket.
   */
  lemma FactListAppendNew<FactName, Facts, Node>(
    required: seq<FactName>, name: FactName, route: Facts -> Node, show: FactName -> string)
    requires required != [] && name !in required
    ensures FactListText(MakeDecision(required + [name], route), show)
         == FactListText(MakeDecision(required, route), show)[..|FactListText(MakeDecision(required, route), show)| - 1]
            + ", " + show(name) + "]"
  {
    var kept := Uniq(required);
    assert (required + [name])[..|required|] == required;
    assert name !in kept;
    assert kept != [] by { assert required[0] in kept; }
    var parts := MapShow(kept, show);
    assert MapShow(kept + [name], show) == parts + [show(name)];
    JoinAppend(parts, [show(name)], ", ");
  }
}
