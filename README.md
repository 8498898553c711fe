# Factree Decision, modelled in Dafny

Factree evaluates decision trees. A `Factree::Decision` is a branch node.
It holds the names of the facts it needs (`required_facts`) and a routing
block. Given a collection of facts, the block picks the next node: another
Decision or a Conclusion. A Decision is frozen once built.

The model has two modules:

- `RubyArray` (`ruby_array.dfy`) gives the two pieces of Ruby's `Array` that the
  node relies on. `Uniq` is `Array#uniq` without a block. `Join` is
  `Array#join` over elements already turned into strings, and `MapShow`
  turns each element into a string. It also holds the reference notions used
  to specify `uniq`: `NoDuplicates`, `FirstIndex`, `InFirstOccurrenceOrder`
  and `IsSubsequence`.
- `Factree` (`decision.dfy`) models the node. `Decision` is a datatype value,
  because nothing about it changes after construction. Its `requiredFacts`
  field has the duplicate-free type `UniqueSeq`, and its `route` field is the
  routing block, kept as an uninterpreted total function `Facts -> Node`.
  `MakeDecision` is `Decision.new`, `Decide` is `decide`, the
  `requiredFacts` field is the `required_facts` reader, and `Describe` /
  `FactListText` are `to_s` and its fact-list part.

`FactName`, `Facts` and `Node` are type parameters. Fact names need only
equality. The facts and the node returned by the block are opaque.

Two points of the code shape the model:

- `required_facts` is an `Array` reduced by `uniq`, so it keeps the
  first-occurrence order of the names, and the model proves that order.
- `decide` neither checks nor wraps the block's result, and `Decide` does the
  same.

## Model

| member | source | states |
|---|---|---|
| `RubyArray.Uniq` | lib/factree/decision.rb:13 | The result of `uniq` has no repeated element. Every element of the result occurs in the input, every element of the input occurs in the result, and the result is never longer than the input. |
| `RubyArray.UniqInFirstOccurrenceOrder` | lib/factree/decision.rb:13 | `uniq` lists the kept elements in the order in which each first occurs in the input. |
| `RubyArray.UniqIsSubsequence` | lib/factree/decision.rb:13 | `uniq` only deletes elements: its result is a subsequence of the input. |
| `RubyArray.UniqOfDistinct` | lib/factree/decision.rb:13 | On a list that has no repeats, `uniq` returns the list unchanged. |
| `RubyArray.UniqIdempotent` | lib/factree/decision.rb:13 | Applying `uniq` twice gives the same list as applying it once. |
| `RubyArray.UniqCharacterised` | lib/factree/decision.rb:13 | A list equals `uniq` of the input exactly when it has no repeats, holds the same elements as the input, and lists them in first-occurrence order. Both directions are proved. |
| `RubyArray.Join` | lib/factree/decision.rb:24 | `Array#join`: joining no parts gives the empty string and joining one part gives that part; the lemmas `JoinEnds`, `JoinAppend` and `JoinLength` state the general case. |
| `RubyArray.MapShow` | lib/factree/decision.rb:24 | `join` renders each element with its own `to_s`: the result has one string per element, each the rendering of the element at the same position. |
| `RubyArray.JoinEnds` | lib/factree/decision.rb:24 | A join of two or more parts starts with the first part followed by the separator, and ends with the separator followed by the last part. |
| `RubyArray.JoinAppend` | lib/factree/decision.rb:24 | Joining `a + b` (both non-empty) gives the join of `a`, one separator, then the join of `b`. |
| `RubyArray.JoinLength` | lib/factree/decision.rb:24 | A join's length is the total length of the parts plus one separator between each pair of neighbours. |
| `Factree.MakeDecision` | lib/factree/decision.rb:11-15 | Construction stores the block unchanged. The stored names are duplicate-free by type, are all from the argument, include every name of the argument, and are never more numerous than the argument. |
| `Factree.ConstructedHasNoDuplicates` | lib/factree/decision.rb:13 | After construction, no fact name appears twice in `required_facts`. |
| `Factree.ConstructedSameNames` | lib/factree/decision.rb:13 | A name is in `required_facts` exactly when it is in the argument: nothing is lost and nothing is added. |
| `Factree.ConstructedKeepsFirstOccurrenceOrder` | lib/factree/decision.rb:13 | `required_facts` keeps the argument's first-occurrence order and is a subsequence of the argument. |
| `Factree.ConstructedFactsCharacterised` | lib/factree/decision.rb:13 | `required_facts` is the unique list that has no repeats, holds the argument's names, and keeps their first-occurrence order. |
| `Factree.ConstructedFromDistinct` | lib/factree/decision.rb:13 | Building from a list that has no repeats keeps that list as it is. |
| `Factree.RebuildIsIdentity` | lib/factree/decision.rb:7-15 | Building a Decision from another Decision's own `required_facts` and block gives a Decision with the same `required_facts` and the same block. |
| `Factree.RepeatedNameCollapses` | lib/factree/decision.rb:13 | For distinct names `a` and `b`, `[a, a, b]` becomes `[a, b]`, of size 2. |
| `Factree.DefaultRequiresNothing` | lib/factree/decision.rb:11 | When no list is given, `required_facts` is empty. |
| `Factree.Decide` | lib/factree/decision.rb:19-21 | `decide(facts)` calls the stored block on `facts` and returns its result unchanged; `DecidePassesThrough` ties it to the block given at construction. |
| `Factree.DecidePassesThrough` | lib/factree/decision.rb:19-21 | `decide(facts)` returns exactly what the block given at construction returns for `facts`, whatever names were declared. |
| `Factree.FactListText` | lib/factree/decision.rb:24 | The fact-list text is enclosed in `[` and `]`, and it is `[]` when no names are required. |
| `Factree.Describe` | lib/factree/decision.rb:23-25 | `to_s` starts with `<Factree::Decision decide=`, then the block's rendering, then ` required_facts=`, and it ends with the rendered fact list followed by `>`. |
| `Factree.FactListIgnoresRepeats` | lib/factree/decision.rb:24 | The rendered fact list shows the names after `uniq`: a repeated argument renders exactly like its de-duplicated form. |
| `Factree.RepeatedNameRendersOnce` | lib/factree/decision.rb:24 | For distinct names `a` and `b`, `[a, a, b]` renders as `[` + a + `, ` + b + `]`. |
| `Factree.FactListAppendNew` | lib/factree/decision.rb:24 | Appending a new name to a non-empty argument list inserts `, ` and the new name's rendering just before the closing `]`. |

## Left out

- `Factree::Node` is not part of this model. `factree/node` is required at lib/factree/decision.rb:1 and defined in another file of the library; `Node` is therefore a type parameter.
- `Factree::Conclusion` and any evaluator that walks a tree are not part of this model. This includes missing-fact checks and errors for a missing next node; they belong to other files of the library, not to lib/factree/decision.rb.
- The body of the routing block is caller-authored code, so it is an uninterpreted total function. The model does not cover its side effects, or exceptions that it raises and that `decide` passes on.
- `Factree.Describe`: the routing block's rendering (`Proc#to_s`, an object identity and address) is a parameter `routeText`, and the model states nothing about its content.
- `RubyArray.MapShow`: a fact name's `to_s` (`Symbol#to_s`) is a parameter `show`. Fact names are an abstract type with equality, and nothing specific to symbols is modelled.
- `Factree.MakeDecision`: the argument is a sequence. A Ruby caller could pass a non-array such as `nil`, which would raise `NoMethodError` on `uniq`. That case is not modelled.
- `Factree.MakeDecision`: a Decision built without a block is not modelled, because `route` is a required total function. In Ruby `&decide` is then `nil`: construction succeeds, `to_s` prints nothing after `decide=`, and `decide` raises `NoMethodError` on `nil.call`.
- `RubyArray.Join`: only the flat case is modelled, where each element renders as one string. The recursive flattening of nested arrays is not modelled.
- `freeze` as a runtime mechanism, and the thread safety that follows from it, are not modelled. Immutability comes from `Decision` being a datatype value. `Decide` and the rendering functions are functions of that value, so they cannot change it.
