/**
 * `Router` from route.js: owns the trie root and registers and looks up
 * routes. Registration flattens the step arguments into a new chain and
 * inserts it under the current prefix followed by the path's segments.
 */
module Routing {
  import opened Wrappers
  import opened Paths
  import opened Steps
  import opened Handlers
  import opened Trie

  class Router {
    var root: Node
    /** The saved prefixes of enclosing prefix scopes. */
    var prefixes: seq<seq<string>>
    /** The segments `add` puts in front of every registered path. */
    var prefix: seq<string>

    /**
     * The trie keeps parameter names in step with variable depth, and the
     * prefix is empty: the constructor's `prefix` field shadows the only
     * method that would change it.
     */
    ghost predicate Valid()
      reads this
    {
      WellFormed(root, 0) && prefix == []
    }

    constructor ()
      ensures Valid()
      ensures root == Empty && prefixes == [] && prefix == []
    {
      root := Empty;
      prefixes := [];
      prefix := [];
    }

    /**
     * `add`: register `verb` on the prefix plus the segments of `path`, with
     * a new chain holding the flattened steps, and report success (always).
     */
    method Add(verb: string, path: string, steps: seq<StepArg>) returns (ok: bool, ghost chain: Chain)
      requires Valid()
      modifies this
      ensures Valid()
      ensures ok
      ensures fresh(chain) && chain.steps == Flatten(List(steps))
      ensures root == Register(old(root), verb, path, old(prefix) + SplitPath(path), chain, [])
      ensures prefix == old(prefix) && prefixes == old(prefixes)
    {
      var flat := FlattenArray(List(steps));
      var c := new Chain(flat);
      RegisterWellFormed(root, 0, verb, path, prefix + SplitPath(path), c, []);
      root := Register(root, verb, path, prefix + SplitPath(path), c, []);
      ok, chain := true, c;
    }

    /**
     * The method sugar: `add` with the method fixed and all the step
     * arguments passed on as one array, which flattens to the same chain.
     */
    method AddFor(verb: string, path: string, steps: seq<StepArg>) returns (ghost chain: Chain)
      requires Valid()
      modifies this
      ensures Valid()
      ensures fresh(chain) && chain.steps == Flatten(List(steps))
      ensures root == Register(old(root), verb, path, old(prefix) + SplitPath(path), chain, [])
      ensures prefix == old(prefix) && prefixes == old(prefixes)
    {
      var _, c := Add(verb, path, [List(steps)]);
      var wrapped := [List(steps)];
      assert wrapped[1..] == [];
      assert Flatten(List(wrapped)) == Flatten(List(steps)) + FlattenAll(wrapped[1..]);
      chain := c;
    }

    /** `get`. */
    method Get(path: string, steps: seq<StepArg>) returns (ghost chain: Chain)
      requires Valid()
      modifies this
      ensures Valid()
      ensures fresh(chain) && chain.steps == Flatten(List(steps))
      ensures root == Register(old(root), "GET", path, old(prefix) + SplitPath(path), chain, [])
      ensures prefix == old(prefix) && prefixes == old(prefixes)
    {
      chain := AddFor("GET", path, steps);
    }

    /** `put`. */
    method Put(path: string, steps: seq<StepArg>) returns (ghost chain: Chain)
      requires Valid()
      modifies this
      ensures Valid()
      ensures fresh(chain) && chain.steps == Flatten(List(steps))
      ensures root == Register(old(root), "PUT", path, old(prefix) + SplitPath(path), chain, [])
      ensures prefix == old(prefix) && prefixes == old(prefixes)
    {
      chain := AddFor("PUT", path, steps);
    }

    /** `post`. */
    method Post(path: string, steps: seq<StepArg>) returns (ghost chain: Chain)
      requires Valid()
      modifies this
      ensures Valid()
      ensures fresh(chain) && chain.steps == Flatten(List(steps))
      ensures root == Register(old(root), "POST", path, old(prefix) + SplitPath(path), chain, [])
      ensures prefix == old(prefix) && prefixes == old(prefixes)
    {
      chain := AddFor("POST", path, steps);
    }

    /** `delete`. */
    method Delete(path: string, steps: seq<StepArg>) returns (ghost chain: Chain)
      requires Valid()
      modifies this
      ensures Valid()
      ensures fresh(chain) && chain.steps == Flatten(List(steps))
      ensures root == Register(old(root), "DELETE", path, old(prefix) + SplitPath(path), chain, [])
      ensures prefix == old(prefix) && prefixes == old(prefixes)
    {
      chain := AddFor("DELETE", path, steps);
    }

    /**
     * `route`: match the segments of `path` from the root. Every handler it
     * returns is bound to exactly as many arguments as it has names, so it
     * can be executed.
     */
    function Route(verb: string, path: string): (r: Option<Handler>)
      reads this
      requires Valid()
      ensures r.Some? ==> r.value.args.Some? && |r.value.args.value| == |r.value.params|
    {
      var r := Match(root, verb, SplitPath(path), []);
      if r.Some? then MatchArgsAgree(root, verb, SplitPath(path), []); r
      else r
    }
  }

  /**
   * Round trip: once a path whose segments are all literal is registered
   * on a router (prefix empty), routing the same method and path returns
   * a handler for that path and chain, with no names and no arguments.
   */
  lemma RouteFindsLiteralRoute(root: Node, verb: string, path: string, chain: Chain)
    requires forall i :: 0 <= i < |SplitPath(path)| ==> !IsVariable(SplitPath(path)[i])
    ensures Match(Register(root, verb, path, [] + SplitPath(path), chain, []), verb, SplitPath(path), [])
         == Some(Handler(verb, path, chain, [], Some([])))
  {
    assert [] + SplitPath(path) == SplitPath(path);
    RegisterThenMatchLiteral(root, verb, path, SplitPath(path), chain, [], []);
  }

  /**
   * The round trip survives a later registration: an all-literal route
   * stays found after another route is added, unless that one is for the
   * same method on a path of the same shape and so overwrites it.
   * `Trie.LiteralMatchSurvives` carries this over any number of additions.
   */
  lemma LiteralRouteSurvives(root: Node, verb: string, path: string, chain: Chain,
                             verb2: string, path2: string, chain2: Chain)
    requires forall i :: 0 <= i < |SplitPath(path)| ==> !IsVariable(SplitPath(path)[i])
    requires verb2 != verb || Edges(SplitPath(path2)) != Edges(SplitPath(path))
    ensures Match(Register(Register(root, verb, path, [] + SplitPath(path), chain, []), verb2, path2, [] + SplitPath(path2), chain2, []), verb, SplitPath(path), [])
         == Some(Handler(verb, path, chain, [], Some([])))
  {
    var parts := SplitPath(path);
    assert [] + parts == parts && [] + SplitPath(path2) == SplitPath(path2);
    RegisterTarget(root, verb, path, parts, chain, []);
    LiteralNamesNothing(parts);
    assert [] + Names(parts) == [];
    var t := Register(root, verb, path, parts, chain, []);
    LiteralMatchSurvives(t, verb, parts, [], verb2, path2, SplitPath(path2), chain2, []);
  }
}
