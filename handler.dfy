/**
 * `Handler` from route.js: one registered route (method, path pattern,
 * parameter names, middleware chain), its binding to captured arguments,
 * and the continuation-passing execution of its chain.
 */
module Handlers {
  import opened Wrappers
  import opened Steps

  /**
   * The array of steps one registration creates. It is a shared, mutable
   * object: every handler bound from the same registration refers to it,
   * and execution removes steps from its front.
   */
  class Chain {
    var steps: seq<Step>

    constructor (steps: seq<Step>)
      ensures this.steps == steps
    {
      this.steps := steps;
    }

    /** `chain.shift()`: remove and return the front step, if any. */
    method Shift() returns (front: Option<Step>)
      modifies this
      ensures old(steps) == [] ==> front == None && steps == []
      ensures old(steps) != [] ==> front == Some(old(steps)[0]) && steps == old(steps)[1..]
    {
      if steps == [] {
        front := None;
      } else {
        front := Some(steps[0]);
        steps := steps[1..];
      }
    }
  }

  /** A handler for one HTTP method (`verb`); `args` is absent until the handler is bound to a match. */
  datatype Handler = Handler(
    verb: string,
    path: string,
    chain: Chain,
    params: seq<string>,
    args: Option<seq<string>>)

  /** Query values parsed from the request URL; opaque to the router. */
  type Query = map<string, string>

  /** The state object handed to every step. */
  datatype State = State(params: map<string, string>, query: Query)

  /**
   * `bind`: a new handler with the same method, path and parameter names,
   * the SAME chain object (shared, not copied), and the given arguments.
   */
  function Bind(h: Handler, args: seq<string>): (r: Handler)
    ensures r.chain == h.chain
    ensures r.verb == h.verb && r.path == h.path && r.params == h.params
    ensures r.args == Some(args)
  {
    Handler(h.verb, h.path, h.chain, h.params, Some(args))
  }

  /**
   * The parameter dictionary of `execute`: each name is set to the argument
   * at its position, in order, so a repeated name keeps its last value.
   */
  function BuildParams(names: seq<string>, args: seq<string>): (r: map<string, string>)
    requires |names| <= |args|
    ensures forall k :: k in r <==> k in names
  {
    if names == [] then map[]
    else
      var n := |names| - 1;
      BuildParams(names[..n], args)[names[n] := args[n]]
  }

  /**
   * Each name is bound to the argument at its last occurrence: when a name
   * repeats, the later value wins.
   */
  lemma {:induction false} ParamsLastWins(names: seq<string>, args: seq<string>, i: nat)
    requires |names| <= |args| && i < |names|
    requires forall j :: i < j < |names| ==> names[j] != names[i]
    ensures BuildParams(names, args)[names[i]] == args[i]
  {
    var n := |names| - 1;
    if i < n {
      ParamsLastWins(names[..n], args, i);
    }
  }

  /**
   * The steps one run of a chain invokes: steps run in order, and the run
   * stops after the first step that does not call `next`, or when the
   * chain is exhausted.
   */
  function Invoked(chain: seq<Step>): seq<Step>
  {
    if chain == [] then []
    else if chain[0].callsNext then [chain[0]] + Invoked(chain[1..])
    else [chain[0]]
  }

  /**
   * What a run invokes, stated without the recursion: the shortest
   * non-empty prefix of the chain that ends in a step not calling `next`,
   * or the whole chain if every step calls it.
   */
  lemma {:induction false} InvokedIsFirstStopPrefix(chain: seq<Step>)
    ensures |Invoked(chain)| <= |chain| && Invoked(chain) == chain[..|Invoked(chain)|]
    ensures chain != [] ==> Invoked(chain) != []
    ensures forall i :: 0 <= i < |Invoked(chain)| - 1 ==> Invoked(chain)[i].callsNext
    ensures |Invoked(chain)| < |chain| ==> !Invoked(chain)[|Invoked(chain)| - 1].callsNext
  {
    if chain != [] && chain[0].callsNext {
      InvokedIsFirstStopPrefix(chain[1..]);
      assert chain == [chain[0]] + chain[1..];
    }
  }

  /** The loop of `execute` that fills the parameter dictionary. */
  method FillParams(names: seq<string>, args: seq<string>) returns (params: map<string, string>)
    requires |names| <= |args|
    ensures params == BuildParams(names, args)
  {
    params := map[];
    for i := 0 to |names|
      invariant params == BuildParams(names[..i], args)
    {
      assert names[..i + 1][..i] == names[..i];
      params := params[names[i] := args[i]];
    }
    assert names[..|names|] == names;
  }

  /**
   * `execute` as written: fills the parameter dictionary, then drives the
   * chain through `next`, which shifts the front step off the SHARED chain
   * before invoking it. Afterwards the chain holds only the steps not run.
   * `query` is the request's parsed query, absent when the request has none.
   */
  method Execute(h: Handler, query: Option<Query>) returns (state: State, ran: seq<Step>)
    requires h.args.Some? && |h.params| <= |h.args.value|
    modifies h.chain
    ensures state == State(BuildParams(h.params, h.args.value), if query.Some? then query.value else map[])
    ensures ran == Invoked(old(h.chain.steps))
    ensures |ran| <= |old(h.chain.steps)|
    ensures h.chain.steps == old(h.chain.steps)[|ran|..]
  {
    var params := FillParams(h.params, h.args.value);
    state := State(params, if query.Some? then query.value else map[]);
    ran := Drain(h.chain);
  }

  /**
   * The `next` continuation of `execute`: shift a step off the chain; if
   * there was one, invoke it, and go on only if it calls `next`.
   */
  method Drain(chain: Chain) returns (ran: seq<Step>)
    modifies chain
    ensures ran == Invoked(old(chain.steps))
    ensures |ran| <= |old(chain.steps)|
    ensures chain.steps == old(chain.steps)[|ran|..]
  {
    ghost var original := chain.steps;
    ran := [];
    while true
      invariant |ran| <= |original| && ran == original[..|ran|]
      invariant chain.steps == original[|ran|..]
      invariant Invoked(original) == ran + Invoked(chain.steps)
      decreases |chain.steps|
    {
      ghost var before := chain.steps;
      var fn := chain.Shift();
      if fn.None? {
        return;
      }
      assert original[..|ran| + 1] == ran + [fn.value];
      ran := ran + [fn.value];
      if !fn.value.callsNext {
        return;
      }
      assert Invoked(before) == [fn.value] + Invoked(chain.steps);
    }
  }

  /**
   * Execution with a private cursor: the same parameters and the same
   * steps as `Execute` on a fresh chain, without consuming the shared one,
   * so every execution of a route runs the same steps.
   */
  method ExecuteWithCursor(h: Handler, query: Option<Query>) returns (state: State, ran: seq<Step>)
    requires h.args.Some? && |h.params| <= |h.args.value|
    ensures state == State(BuildParams(h.params, h.args.value), if query.Some? then query.value else map[])
    ensures ran == Invoked(h.chain.steps)
  {
    var params := FillParams(h.params, h.args.value);
    state := State(params, if query.Some? then query.value else map[]);
    ran := RunWithCursor(h.chain.steps);
  }

  /** The steps one run invokes, found with a cursor instead of by consuming the chain. */
  method RunWithCursor(steps: seq<Step>) returns (ran: seq<Step>)
    ensures ran == Invoked(steps)
  {
    var cursor := 0;
    var going := true;
    ran := [];
    while going
      invariant cursor <= |steps| && ran == steps[..cursor]
      invariant going ==> Invoked(steps) == ran + Invoked(steps[cursor..])
      invariant !going ==> Invoked(steps) == ran
      decreases |steps| - cursor, going
    {
      if cursor == |steps| {
        going := false;
      } else {
        var fn := steps[cursor];
        assert steps[cursor..][1..] == steps[cursor + 1..];
        assert steps[..cursor + 1] == steps[..cursor] + [fn];
        cursor := cursor + 1;
        ran := ran + [fn];
        if !fn.callsNext {
          going := false;
        }
      }
    }
  }

  /**
   * A chain whose every step calls `next` runs completely, and then the
   * shared chain is empty: a second execution of the same route invokes
   * none of the steps the first one ran.
   */
  lemma RerunFindsChainConsumed(chain: seq<Step>)
    requires forall i :: 0 <= i < |chain| ==> chain[i].callsNext
    ensures Invoked(chain) == chain
    ensures Invoked(chain[|Invoked(chain)|..]) == []
  {
    InvokedIsFirstStopPrefix(chain);
    var r := Invoked(chain);
    if |r| < |chain| {
      assert false;
    }
    assert chain[|chain|..] == [];
  }
}
