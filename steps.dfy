/**
 * Middleware steps and `flattenArray` from route.js: the step arguments of a
 * registration may nest arrays to any depth, and are flattened into one
 * ordered chain.
 */
module Steps {

  /**
   * A middleware step, abstracted to an identity and whether it calls its
   * `next` continuation when invoked.
   */
  datatype Step = Step(id: nat, callsNext: bool)

  /** An argument to `flattenArray`: a single step, or a (nested) array. */
  datatype StepArg = Single(step: Step) | List(items: seq<StepArg>)

  /** Leaves of an argument, left to right, depth first. */
  function Flatten(a: StepArg): seq<Step>
    decreases a, 1
  {
    match a
    case Single(s) => [s]
    case List(items) => FlattenAll(items)
  }

  /** Concatenation of the flattenings of `items`, in order. */
  function FlattenAll(items: seq<StepArg>): seq<Step>
    decreases items, 0
  {
    if items == [] then [] else Flatten(items[0]) + FlattenAll(items[1..])
  }

  /** Number of steps (leaves) in an argument. */
  function LeafCount(a: StepArg): nat
    decreases a, 1
  {
    match a
    case Single(_) => 1
    case List(items) => LeafCountAll(items)
  }

  function LeafCountAll(items: seq<StepArg>): nat
    decreases items, 0
  {
    if items == [] then 0 else LeafCount(items[0]) + LeafCountAll(items[1..])
  }

  /**
   * `flattenArray`: a non-array argument becomes a one-step chain; an array
   * is walked left to right, nested arrays flattened recursively and
   * appended in place.
   */
  method FlattenArray(a: StepArg) returns (result: seq<Step>)
    ensures result == Flatten(a)
    decreases a
  {
    if a.Single? {
      return [a.step];
    }
    var items := a.items;
    result := [];
    for i := 0 to |items|
      invariant result == FlattenAll(items[..i])
    {
      FlattenAllAppend(items[..i], [items[i]]);
      assert items[..i + 1] == items[..i] + [items[i]];
      if items[i].List? {
        var inner := FlattenArray(items[i]);
        result := result + inner;
      } else {
        result := result + [items[i].step];
      }
    }
    assert items[..|items|] == items;
  }

  /** Flattening distributes over concatenation of step lists. */
  lemma {:induction false} FlattenAllAppend(xs: seq<StepArg>, ys: seq<StepArg>)
    ensures FlattenAll(xs + ys) == FlattenAll(xs) + FlattenAll(ys)
  {
    if xs == [] {
      assert xs + ys == ys;
    } else {
      assert (xs + ys)[0] == xs[0];
      assert (xs + ys)[1..] == xs[1..] + ys;
      FlattenAllAppend(xs[1..], ys);
    }
  }

  /**
   * Nesting is invisible in the result: an inner array contributes its
   * steps exactly where it stands.
   */
  lemma FlattenInline(xs: seq<StepArg>, ys: seq<StepArg>, zs: seq<StepArg>)
    ensures Flatten(List(xs + [List(ys)] + zs)) == Flatten(List(xs + ys + zs))
  {
    FlattenAllAppend(xs + [List(ys)], zs);
    FlattenAllAppend(xs, [List(ys)]);
    FlattenAllAppend(xs + ys, zs);
    FlattenAllAppend(xs, ys);
  }

  /** An array of plain steps flattens to exactly those steps, in order. */
  lemma {:induction false} FlattenSingles(steps: seq<Step>)
    ensures Flatten(List(seq(|steps|, i requires 0 <= i < |steps| => Single(steps[i])))) == steps
  {
    if steps != [] {
      var items := seq(|steps|, i requires 0 <= i < |steps| => Single(steps[i]));
      assert items[1..] == seq(|steps[1..]|, i requires 0 <= i < |steps[1..]| => Single(steps[1..][i]));
      FlattenSingles(steps[1..]);
      assert Flatten(List(items)) == Flatten(items[0]) + Flatten(List(items[1..]));
      assert steps == [steps[0]] + steps[1..];
    }
  }

  /** Every leaf shows up once: the chain is as long as the argument has steps. */
  lemma {:induction false} FlattenLength(a: StepArg)
    ensures |Flatten(a)| == LeafCount(a)
    decreases a, 1
  {
    if a.List? {
      FlattenAllLength(a.items);
    }
  }

  lemma {:induction false} FlattenAllLength(items: seq<StepArg>)
    ensures |FlattenAll(items)| == LeafCountAll(items)
    decreases items, 0
  {
    if items != [] {
      FlattenLength(items[0]);
      FlattenAllLength(items[1..]);
    }
  }
}
