/**
 * The routing outcomes the repository's test driver (test/route.js) prints,
 * and worked examples of the routing rules, derived from the model.
 */
module Scenarios {
  import opened Wrappers
  import opened Paths
  import opened Steps
  import opened Handlers
  import opened Trie
  import opened Routing

  /** The trie the test driver builds (one chain per registration). */
  function DriverTrie(root: Chain, test: Chain, two: Chain, echo: Chain, chain: Chain, early: Chain): Node
  {
    var t1 := Register(Empty, "GET", "/", [], root, []);
    var t2 := Register(t1, "GET", "/test", ["test"], test, []);
    var t3 := Register(t2, "GET", "/test/two", ["test", "two"], two, []);
    var t4 := Register(t3, "GET", "/test/:var/echo", ["test", ":var", "echo"], echo, []);
    var t5 := Register(t4, "GET", "/chain", ["chain"], chain, []);
    Register(t5, "GET", "/early", ["early"], early, [])
  }

  /**
   * What the driver's lookups find: the root, `/test`, `/test/two`,
   * `/chain` and `/early` are found; `/nothing` is not; `/test/yep/echo`
   * reaches the variable route with `yep` captured, while `/test/yep` ends
   * at a node without a handler and is not found.
   */
  lemma DriverOutcomes(root: Chain, test: Chain, two: Chain, echo: Chain, chain: Chain, early: Chain)
    ensures var t := DriverTrie(root, test, two, echo, chain, early);
      && Match(t, "GET", [], []) == Some(Handler("GET", "/", root, [], Some([])))
      && Match(t, "GET", ["test"], []) == Some(Handler("GET", "/test", test, [], Some([])))
      && Match(t, "GET", ["nothing"], []) == None
      && Match(t, "GET", ["test", "two"], []) == Some(Handler("GET", "/test/two", two, [], Some([])))
      && Match(t, "GET", ["test", "yep", "echo"], []) == Some(Handler("GET", "/test/:var/echo", echo, ["var"], Some(["yep"])))
      && Match(t, "GET", ["test", "yep"], []) == None
      && Match(t, "GET", ["chain"], []) == Some(Handler("GET", "/chain", chain, [], Some([])))
      && Match(t, "GET", ["early"], []) == Some(Handler("GET", "/early", early, [], Some([])))
  {
    DriverVariableOutcomes(root, test, two, echo, chain, early);
  }

  /** The two lookups of the driver that go through the variable child of `/test`. */
  lemma DriverVariableOutcomes(root: Chain, test: Chain, two: Chain, echo: Chain, chain: Chain, early: Chain)
    ensures var t := DriverTrie(root, test, two, echo, chain, early);
      && Match(t, "GET", ["test", "yep", "echo"], []) == Some(Handler("GET", "/test/:var/echo", echo, ["var"], Some(["yep"])))
      && Match(t, "GET", ["test", "yep"], []) == None
  {
    var t := DriverTrie(root, test, two, echo, chain, early);
    assert IsVariable(":var") && ":var"[1..] == "var";
    var n := t.values["test"];
    assert "yep" !in n.values && n.variable.Some?;
    var v := n.variable.value;
    assert v.values["echo"].methods["GET"] == Handler("GET", "/test/:var/echo", echo, ["var"], None);
    var parts: seq<string> := ["test", "yep", "echo"];
    assert parts[1..] == ["yep", "echo"] && parts[1..][1..] == ["echo"];
    assert Match(t, "GET", parts, []) == Match(n, "GET", ["yep", "echo"], []);
    assert [] + ["yep"] == ["yep"];
    assert Match(n, "GET", ["yep", "echo"], []) == Match(v, "GET", ["echo"], ["yep"]);
  }

  // How the driver's paths split into the segments used above.

  lemma SplitTest()
    ensures SplitPath("/test") == ["test"]
  {
    assert Join(["test"]) == "test";
    PathRoundTrip(["test"]);
  }

  lemma SplitNothing()
    ensures SplitPath("/nothing") == ["nothing"]
  {
    assert Join(["nothing"]) == "nothing";
    PathRoundTrip(["nothing"]);
  }

  lemma SplitChain()
    ensures SplitPath("/chain") == ["chain"]
  {
    assert Join(["chain"]) == "chain";
    PathRoundTrip(["chain"]);
  }

  lemma SplitEarly()
    ensures SplitPath("/early") == ["early"]
  {
    assert Join(["early"]) == "early";
    PathRoundTrip(["early"]);
  }

  lemma SplitTestTwo()
    ensures SplitPath("/test/two") == ["test", "two"]
  {
    var segs := ["test", "two"];
    assert Join(segs) == "test/two" by { assert segs[1..] == ["two"]; }
    PathRoundTrip(segs);
  }

  lemma SplitTestYep()
    ensures SplitPath("/test/yep") == ["test", "yep"]
  {
    var segs := ["test", "yep"];
    assert Join(segs) == "test/yep" by { assert segs[1..] == ["yep"]; }
    PathRoundTrip(segs);
  }

  lemma SplitEchoPattern()
    ensures SplitPath("/test/:var/echo") == ["test", ":var", "echo"]
  {
    var segs := ["test", ":var", "echo"];
    assert Join(segs) == "test/:var/echo" by {
      assert Join(segs[1..]) == ":var/echo" by { assert segs[1..][1..] == ["echo"]; }
    }
    PathRoundTrip(segs);
  }

  lemma SplitEcho()
    ensures SplitPath("/test/yep/echo") == ["test", "yep", "echo"]
  {
    var segs := ["test", "yep", "echo"];
    assert Join(segs) == "test/yep/echo" by {
      assert Join(segs[1..]) == "yep/echo" by { assert segs[1..][1..] == ["echo"]; }
    }
    PathRoundTrip(segs);
  }

  // ----- worked examples of the routing rules -----

  /**
   * No backtracking: with `GET /a/:x/c` alone, `GET /a/b/c` matches; once
   * `GET /a/b/d` adds a literal child `b`, the walk takes it, fails at `c`,
   * and does not retry through `:x`.
   */
  lemma NoBacktracking(xc: Chain, bd: Chain)
    ensures var alone := Register(Empty, "GET", "/a/:x/c", ["a", ":x", "c"], xc, []);
      var both := Register(alone, "GET", "/a/b/d", ["a", "b", "d"], bd, []);
      && Match(alone, "GET", ["a", "b", "c"], []) == Some(Handler("GET", "/a/:x/c", xc, ["x"], Some(["b"])))
      && Match(both, "GET", ["a", "b", "c"], []) == None
  {
    var alone := Register(Empty, "GET", "/a/:x/c", ["a", ":x", "c"], xc, []);
    var both := Register(alone, "GET", "/a/b/d", ["a", "b", "d"], bd, []);
    var parts: seq<string> := ["a", "b", "c"];
    assert parts[1..] == ["b", "c"] && parts[1..][1..] == ["c"];
    assert IsVariable(":x") && ":x"[1..] == "x";
    assert [] + ["x"] == ["x"] && [] + ["b"] == ["b"];
    var a := alone.values["a"];
    assert "b" !in a.values && a.variable.Some?;
    assert Match(alone, "GET", parts, []) == Match(a.variable.value, "GET", ["c"], ["b"]);
    var b := both.values["a"].values["b"];
    assert "c" !in b.values && b.variable.None?;
  }

  /**
   * Literal precedence: with `/users/admin` and `/users/:id` registered,
   * `/users/admin` reaches the literal route and `/users/42` the variable
   * one, capturing `42`.
   */
  lemma LiteralPrecedence(admin: Chain, user: Chain)
    ensures var t := Register(Register(Empty, "GET", "/users/admin", ["users", "admin"], admin, []),
                              "GET", "/users/:id", ["users", ":id"], user, []);
      && Match(t, "GET", ["users", "admin"], []) == Some(Handler("GET", "/users/admin", admin, [], Some([])))
      && Match(t, "GET", ["users", "42"], []) == Some(Handler("GET", "/users/:id", user, ["id"], Some(["42"])))
  {
    var t := Register(Register(Empty, "GET", "/users/admin", ["users", "admin"], admin, []),
                      "GET", "/users/:id", ["users", ":id"], user, []);
    assert IsVariable(":id") && ":id"[1..] == "id";
    assert [] + ["id"] == ["id"] && [] + ["42"] == ["42"];
    var u := t.values["users"];
    assert "42" !in u.values && u.variable.Some?;
    var parts: seq<string> := ["users", "42"];
    assert parts[1..] == ["42"];
    assert Match(t, "GET", parts, []) == Match(u.variable.value, "GET", [], ["42"]);
  }

  /**
   * Parameters in declaration order: `/users/:id/posts/:postId` matched by
   * `/users/42/posts/7` binds `id` to `42` and `postId` to `7`.
   */
  lemma ParamsInDeclarationOrder(posts: Chain)
    ensures var t := Register(Empty, "GET", "/users/:id/posts/:postId", ["users", ":id", "posts", ":postId"], posts, []);
      var h := Match(t, "GET", ["users", "42", "posts", "7"], []);
      && h == Some(Handler("GET", "/users/:id/posts/:postId", posts, ["id", "postId"], Some(["42", "7"])))
      && BuildParams(h.value.params, h.value.args.value) == map["id" := "42", "postId" := "7"]
  {
    PostsPatternMatched(posts);
    var names: seq<string> := ["id", "postId"];
    assert names[..1] == ["id"] && names[..1][..0] == [];
  }

  /** The match half of `ParamsInDeclarationOrder`: the walk and the names it collects. */
  lemma PostsPatternMatched(posts: Chain)
    ensures var t := Register(Empty, "GET", "/users/:id/posts/:postId", ["users", ":id", "posts", ":postId"], posts, []);
      Match(t, "GET", ["users", "42", "posts", "7"], [])
        == Some(Handler("GET", "/users/:id/posts/:postId", posts, ["id", "postId"], Some(["42", "7"])))
  {
    var pattern: seq<string> := ["users", ":id", "posts", ":postId"];
    assert IsVariable(":id") && ":id"[1..] == "id";
    assert IsVariable(":postId") && ":postId"[1..] == "postId";
    assert pattern[1..] == [":id", "posts", ":postId"] && pattern[1..][1..] == ["posts", ":postId"];
    assert pattern[1..][1..][1..] == [":postId"];
    assert [] + ["id"] == ["id"] && ["id"] + ["postId"] == ["id", "postId"];
    var t := Register(Empty, "GET", "/users/:id/posts/:postId", pattern, posts, []);
    var parts: seq<string> := ["users", "42", "posts", "7"];
    assert parts[1..] == ["42", "posts", "7"] && parts[1..][1..] == ["posts", "7"] && parts[1..][1..][1..] == ["7"];
    assert [] + ["42"] == ["42"] && ["42"] + ["7"] == ["42", "7"];
    var v := t.values["users"].variable.value;
    assert Match(t, "GET", parts, []) == Match(v, "GET", ["posts", "7"], ["42"]);
    var w := v.values["posts"].variable.value;
    assert Match(v, "GET", ["posts", "7"], ["42"]) == Match(w, "GET", [], ["42", "7"]);
  }

  /** A name repeated in one pattern keeps the later argument. */
  lemma RepeatedNameLaterWins()
    ensures BuildParams(["x", "x"], ["1", "2"]) == map["x" := "2"]
  {
    var names: seq<string> := ["x", "x"];
    assert names[..1] == ["x"] && names[..1][..0] == [];
  }

  /**
   * The driver's `/chain` registration: steps 1 and 2, an array of steps 3
   * and 4, then step 5 make the chain 1 to 5 in that order.
   */
  lemma DriverChainFlattens(s1: Step, s2: Step, s3: Step, s4: Step, s5: Step)
    ensures Flatten(List([Single(s1), Single(s2), List([Single(s3), Single(s4)]), Single(s5)])) == [s1, s2, s3, s4, s5]
  {
    FlattenInline([Single(s1), Single(s2)], [Single(s3), Single(s4)], [Single(s5)]);
    var flat := [Single(s1), Single(s2), Single(s3), Single(s4), Single(s5)];
    assert [Single(s1), Single(s2)] + [List([Single(s3), Single(s4)])] + [Single(s5)]
        == [Single(s1), Single(s2), List([Single(s3), Single(s4)]), Single(s5)];
    assert [Single(s1), Single(s2)] + [Single(s3), Single(s4)] + [Single(s5)] == flat;
    FlattenSingles([s1, s2, s3, s4, s5]);
    assert seq(5, i requires 0 <= i < 5 => Single([s1, s2, s3, s4, s5][i])) == flat;
  }

  /**
   * Short circuit: in `[s1, s2, s3]` where `s2` does not call `next`, only
   * `s1` and `s2` run; in the driver's `/early` chain, whose first step
   * does not call `next`, only that step runs.
   */
  lemma ShortCircuit()
    ensures Invoked([Step(1, true), Step(2, false), Step(3, true)]) == [Step(1, true), Step(2, false)]
    ensures Invoked([Step(1, false), Step(2, false)]) == [Step(1, false)]
  {
    var chain := [Step(1, true), Step(2, false), Step(3, true)];
    assert chain[1..] == [Step(2, false), Step(3, true)];
  }

  /**
   * The driver's `/chain` route on a router, executed twice: the binding
   * `route` returns shares the registered chain, so the first execution
   * runs steps 1 to 5 and consumes them, and the second runs nothing.
   */
  method ChainRouteRunsOnce() returns (first: seq<Step>, second: seq<Step>)
    ensures first == [Step(1, true), Step(2, true), Step(3, true), Step(4, true), Step(5, true)]
    ensures second == []
  {
    var s1, s2, s3, s4, s5 := Step(1, true), Step(2, true), Step(3, true), Step(4, true), Step(5, true);
    var router := new Router();
    ghost var chain := router.Get("/chain", [Single(s1), Single(s2), List([Single(s3), Single(s4)]), Single(s5)]);
    DriverChainFlattens(s1, s2, s3, s4, s5);
    SplitChain();
    RouteFindsLiteralRoute(Empty, "GET", "/chain", chain);
    var h := router.Route("GET", "/chain");
    assert h == Some(Handler("GET", "/chain", chain, [], Some([])));
    ghost var steps := [s1, s2, s3, s4, s5];
    assert chain.steps == steps;
    RerunFindsChainConsumed(steps);
    var _, ran1 := Execute(h.value, None);
    assert ran1 == steps && chain.steps == [];
    var h2 := router.Route("GET", "/chain");
    assert h2 == h;
    var _, ran2 := Execute(h2.value, None);
    first, second := ran1, ran2;
  }

  /**
   * The same route executed twice with a private cursor: both executions
   * run steps 1 to 5, and the registered chain is left as it was.
   */
  method ChainRouteRunsEveryTime() returns (first: seq<Step>, second: seq<Step>)
    ensures first == [Step(1, true), Step(2, true), Step(3, true), Step(4, true), Step(5, true)]
    ensures second == first
  {
    var s1, s2, s3, s4, s5 := Step(1, true), Step(2, true), Step(3, true), Step(4, true), Step(5, true);
    var router := new Router();
    ghost var chain := router.Get("/chain", [Single(s1), Single(s2), List([Single(s3), Single(s4)]), Single(s5)]);
    DriverChainFlattens(s1, s2, s3, s4, s5);
    SplitChain();
    RouteFindsLiteralRoute(Empty, "GET", "/chain", chain);
    var h := router.Route("GET", "/chain");
    assert h == Some(Handler("GET", "/chain", chain, [], Some([])));
    ghost var steps := [s1, s2, s3, s4, s5];
    assert chain.steps == steps;
    RerunFindsChainConsumed(steps);
    var _, ran1 := ExecuteWithCursor(h.value, None);
    var h2 := router.Route("GET", "/chain");
    assert h2 == h;
    var _, ran2 := ExecuteWithCursor(h2.value, None);
    first, second := ran1, ran2;
  }
}
