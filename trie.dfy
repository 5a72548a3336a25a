/**
 * `Node` from route.js: the routing trie over path segments. A node has
 * literal children keyed by the exact segment, at most one variable child
 * shared by every `:name` segment at that depth, and the handlers
 * registered at exactly this node, keyed by HTTP method.
 */
module Trie {
  import opened Wrappers
  import opened Handlers

  datatype Node = Node(
    values: map<string, Node>,
    variable: Option<Node>,
    methods: map<string, Handler>)

  /** `new Node()`. */
  const Empty := Node(map[], None, map[])

  /** `part.startsWith(":")`: the segment declares a parameter. */
  predicate IsVariable(part: string)
  {
    |part| > 0 && part[0] == ':'
  }

  /** A step from a node to one of its children. */
  datatype Edge = Literal(segment: string) | Variable

  /** The edge a registered segment is stored under. */
  function EdgeOf(part: string): Edge
  {
    if IsVariable(part) then Variable else Literal(part)
  }

  function Edges(parts: seq<string>): (r: seq<Edge>)
    ensures |r| == |parts|
  {
    if parts == [] then [] else [EdgeOf(parts[0])] + Edges(parts[1..])
  }

  /** The parameter names a pattern declares, colon dropped, root to leaf. */
  function Names(parts: seq<string>): seq<string>
  {
    if parts == [] then []
    else if IsVariable(parts[0]) then [parts[0][1..]] + Names(parts[1..])
    else Names(parts[1..])
  }

  /** The raw segments at the positions where a walk took the variable child. */
  function Captured(parts: seq<string>, edges: seq<Edge>): seq<string>
    requires |edges| == |parts|
  {
    if parts == [] then []
    else if edges[0] == Variable then [parts[0]] + Captured(parts[1..], edges[1..])
    else Captured(parts[1..], edges[1..])
  }

  function Child(n: Node, e: Edge): Option<Node>
  {
    match e
    case Literal(s) => if s in n.values then Some(n.values[s]) else None
    case Variable => n.variable
  }

  /** The node reached from `n` along `edges`, if it exists. */
  function At(n: Node, edges: seq<Edge>): Option<Node>
  {
    if edges == [] then Some(n)
    else match Child(n, edges[0])
      case None => None
      case Some(c) => At(c, edges[1..])
  }

  /** The handlers stored at the node reached along `edges` (none if it does not exist). */
  function MethodsAt(n: Node, edges: seq<Edge>): map<string, Handler>
  {
    match At(n, edges)
    case None => map[]
    case Some(m) => m.methods
  }

  /**
   * `register`: walk (and create) the path for `parts`, collecting the
   * names of `:` segments, and store a new handler for `verb` at its end,
   * replacing any earlier one. The source also returns `true` from every
   * call; that constant is the result of `Routing.Router.Add`.
   */
  function Register(n: Node, verb: string, path: string, parts: seq<string>, chain: Chain, params: seq<string>): Node
    decreases |parts|
  {
    if parts == [] then
      n.(methods := n.methods[verb := Handler(verb, path, chain, params, None)])
    else
      var part := parts[0];
      if IsVariable(part) then
        var child := if n.variable.Some? then n.variable.value else Empty;
        n.(variable := Some(Register(child, verb, path, parts[1..], chain, params + [part[1..]])))
      else
        var child := if part in n.values then n.values[part] else Empty;
        n.(values := n.values[part := Register(child, verb, path, parts[1..], chain, params)])
  }

  /**
   * `match`: at each segment take the literal child if there is one,
   * otherwise the variable child (capturing the raw segment), otherwise
   * fail; at the end bind the handler for `verb`, if any. A literal branch
   * that fails deeper is not retried through the variable child.
   */
  function Match(n: Node, verb: string, parts: seq<string>, args: seq<string>): (r: Option<Handler>)
    ensures r.Some? ==> r.value.args.Some? && |args| <= |r.value.args.value| <= |args| + |parts|
    ensures r.Some? ==> r.value.args.value[..|args|] == args
    decreases |parts|
  {
    if parts == [] then
      if verb in n.methods then Some(Bind(n.methods[verb], args)) else None
    else
      var part := parts[0];
      if part in n.values then Match(n.values[part], verb, parts[1..], args)
      else if n.variable.Some? then Match(n.variable.value, verb, parts[1..], args + [part])
      else None
  }

  // ----- registration -----

  lemma EmptyHoldsNothing(edges: seq<Edge>)
    ensures MethodsAt(Empty, edges) == map[]
  {
  }

  /**
   * After `register`, the node reached along the segments' edges exists and
   * holds a fresh handler for `verb` with the given path and chain, whose
   * parameter names are those of the `:` segments in root-to-leaf order;
   * the other methods at that node keep their handlers.
   */
  lemma {:induction false} RegisterTarget(n: Node, verb: string, path: string, parts: seq<string>, chain: Chain, params: seq<string>)
    ensures At(Register(n, verb, path, parts, chain, params), Edges(parts)).Some?
    ensures MethodsAt(Register(n, verb, path, parts, chain, params), Edges(parts))
         == MethodsAt(n, Edges(parts))[verb := Handler(verb, path, chain, params + Names(parts), None)]
    decreases |parts|
  {
    if parts == [] {
      assert params + [] == params;
    } else {
      var part, rest := parts[0], parts[1..];
      var e := EdgeOf(part);
      assert Edges(parts) == [e] + Edges(rest);
      var child := if Child(n, e).Some? then Child(n, e).value else Empty;
      var params' := if IsVariable(part) then params + [part[1..]] else params;
      RegisterTarget(child, verb, path, rest, chain, params');
      var r := Register(n, verb, path, parts, chain, params);
      assert Child(r, e) == Some(Register(child, verb, path, rest, chain, params'));
      if Child(n, e).None? {
        EmptyHoldsNothing(Edges(rest));
      }
      assert params' + Names(rest) == params + Names(parts);
    }
  }

  /**
   * `register` changes no handler anywhere but at the node of the
   * registered path: every other route keeps exactly its handlers.
   */
  lemma {:induction false} RegisterFrame(n: Node, verb: string, path: string, parts: seq<string>, chain: Chain, params: seq<string>, edges: seq<Edge>)
    requires edges != Edges(parts)
    ensures MethodsAt(Register(n, verb, path, parts, chain, params), edges) == MethodsAt(n, edges)
    decreases |parts|
  {
    var r := Register(n, verb, path, parts, chain, params);
    if parts == [] {
      assert Child(r, edges[0]) == Child(n, edges[0]);
    } else if edges != [] {
      var part, rest := parts[0], parts[1..];
      var e := EdgeOf(part);
      assert Edges(parts) == [e] + Edges(rest);
      var child := if Child(n, e).Some? then Child(n, e).value else Empty;
      var params' := if IsVariable(part) then params + [part[1..]] else params;
      if edges[0] == e {
        assert Child(r, e) == Some(Register(child, verb, path, rest, chain, params'));
        RegisterFrame(child, verb, path, rest, chain, params', edges[1..]);
        if Child(n, e).None? {
          EmptyHoldsNothing(edges[1..]);
        }
      } else {
        assert Child(r, edges[0]) == Child(n, edges[0]);
      }
    }
  }

  /**
   * `register` only adds nodes, and only those on the registered path: a
   * node exists afterwards exactly when it existed before or lies on the
   * path.
   */
  lemma {:induction false} RegisterAddsOnlyPath(n: Node, verb: string, path: string, parts: seq<string>, chain: Chain, params: seq<string>, edges: seq<Edge>)
    ensures At(Register(n, verb, path, parts, chain, params), edges).Some?
        <==> At(n, edges).Some? || edges <= Edges(parts)
    decreases |parts|
  {
    var r := Register(n, verb, path, parts, chain, params);
    if edges == [] {
    } else if parts == [] {
      assert Child(r, edges[0]) == Child(n, edges[0]);
    } else {
      var part, rest := parts[0], parts[1..];
      var e := EdgeOf(part);
      assert Edges(parts) == [e] + Edges(rest);
      var child := if Child(n, e).Some? then Child(n, e).value else Empty;
      var params' := if IsVariable(part) then params + [part[1..]] else params;
      if edges[0] == e {
        assert Child(r, e) == Some(Register(child, verb, path, rest, chain, params'));
        RegisterAddsOnlyPath(child, verb, path, rest, chain, params', edges[1..]);
        assert edges <= Edges(parts) <==> edges[1..] <= Edges(rest);
        if Child(n, e).None? {
          EmptyReachesOnlyItself(edges[1..]);
        }
      } else {
        assert Child(r, edges[0]) == Child(n, edges[0]);
        assert !(edges <= Edges(parts));
      }
    }
  }

  lemma EmptyReachesOnlyItself(edges: seq<Edge>)
    ensures At(Empty, edges).Some? <==> edges == []
  {
  }

  /**
   * Re-registering a method on a path of the same shape (the same literal
   * segments, variables at the same depths, whatever their names) replaces
   * the handler: the last registration wins.
   */
  lemma ReregistrationReplaces(n: Node, verb: string, path1: string, parts1: seq<string>, chain1: Chain,
                               path2: string, parts2: seq<string>, chain2: Chain)
    requires Edges(parts1) == Edges(parts2)
    ensures MethodsAt(Register(Register(n, verb, path1, parts1, chain1, []), verb, path2, parts2, chain2, []), Edges(parts1))
         == MethodsAt(n, Edges(parts1))[verb := Handler(verb, path2, chain2, Names(parts2), None)]
  {
    var r1 := Register(n, verb, path1, parts1, chain1, []);
    RegisterTarget(n, verb, path1, parts1, chain1, []);
    RegisterTarget(r1, verb, path2, parts2, chain2, []);
    assert [] + Names(parts2) == Names(parts2);
  }

  // ----- matching -----

  /**
   * The literal-first rule at one node: the literal child named by the
   * segment if it exists, otherwise the variable child if that exists.
   */
  predicate Prefers(m: Option<Node>, part: string, e: Edge)
  {
    m.Some? &&
    if part in m.value.values then e == Literal(part)
    else m.value.variable.Some? && e == Variable
  }

  /**
   * `edges` is the walk the literal-first rule dictates for `parts`: every
   * step is chosen at the node reached by the steps before it.
   */
  ghost predicate Chosen(n: Node, parts: seq<string>, edges: seq<Edge>)
  {
    |edges| == |parts| &&
    forall i :: 0 <= i < |parts| ==> Prefers(At(n, edges[..i]), parts[i], edges[i])
  }

  lemma AtPrefixOfCons(n: Node, edges: seq<Edge>, i: nat)
    requires 0 < i <= |edges| && Child(n, edges[0]).Some?
    ensures At(n, edges[..i]) == At(Child(n, edges[0]).value, edges[1..][..i - 1])
  {
    assert edges[..i][0] == edges[0];
    assert edges[..i][1..] == edges[1..][..i - 1];
  }

  lemma ChosenStep(n: Node, parts: seq<string>, edges: seq<Edge>)
    requires parts != [] && |edges| == |parts|
    ensures Chosen(n, parts, edges) <==>
      Prefers(Some(n), parts[0], edges[0]) &&
      Chosen(Child(n, edges[0]).value, parts[1..], edges[1..])
  {
    assert edges[..0] == [];
    if Prefers(Some(n), parts[0], edges[0]) {
      var c := Child(n, edges[0]).value;
      forall i | 1 <= i < |parts|
        ensures At(n, edges[..i]) == At(c, edges[1..][..i - 1])
      {
        AtPrefixOfCons(n, edges, i);
      }
      if Chosen(c, parts[1..], edges[1..]) {
        forall i | 0 <= i < |parts|
          ensures Prefers(At(n, edges[..i]), parts[i], edges[i])
        {
          if i > 0 {
            assert parts[1..][i - 1] == parts[i] && edges[1..][i - 1] == edges[i];
          }
        }
      }
      if Chosen(n, parts, edges) {
        forall i | 0 <= i < |parts| - 1
          ensures Prefers(At(c, edges[1..][..i]), parts[1..][i], edges[1..][i])
        {
          assert Prefers(At(n, edges[..i + 1]), parts[i + 1], edges[i + 1]);
        }
      }
    }
  }

  /**
   * Along the walk the literal-first rule dictates, `match` ends where the
   * walk ends and returns the handler stored there for `verb`, bound to the
   * arguments plus the raw segments taken through variable children; with
   * no handler for `verb` there, it returns nothing.
   */
  lemma {:induction false} MatchFollowsChosen(n: Node, verb: string, parts: seq<string>, args: seq<string>, edges: seq<Edge>)
    requires Chosen(n, parts, edges)
    ensures At(n, edges).Some?
    ensures Match(n, verb, parts, args) ==
      if verb in At(n, edges).value.methods
      then Some(Bind(At(n, edges).value.methods[verb], args + Captured(parts, edges)))
      else None
    decreases |parts|
  {
    if parts == [] {
      assert args + [] == args;
    } else {
      ChosenStep(n, parts, edges);
      var c := Child(n, edges[0]).value;
      var args' := if edges[0] == Variable then args + [parts[0]] else args;
      MatchFollowsChosen(c, verb, parts[1..], args', edges[1..]);
      assert args' + Captured(parts[1..], edges[1..]) == args + Captured(parts, edges);
    }
  }

  /** `match` succeeds only along a walk the literal-first rule dictates. */
  lemma {:induction false} MatchNeedsChosen(n: Node, verb: string, parts: seq<string>, args: seq<string>)
    requires Match(n, verb, parts, args).Some?
    ensures exists edges :: Chosen(n, parts, edges)
    decreases |parts|
  {
    if parts == [] {
      assert Chosen(n, parts, []);
    } else {
      var part := parts[0];
      var e := if part in n.values then Literal(part) else Variable;
      var c := Child(n, e).value;
      var args' := if e == Variable then args + [part] else args;
      MatchNeedsChosen(c, verb, parts[1..], args');
      var tail :| Chosen(c, parts[1..], tail);
      ChosenStep(n, parts, [e] + tail);
      assert ([e] + tail)[1..] == tail;
      assert Chosen(n, parts, [e] + tail);
    }
  }

  /** The literal-first rule leaves no choice: there is at most one such walk. */
  lemma {:induction false} ChosenUnique(n: Node, parts: seq<string>, edges1: seq<Edge>, edges2: seq<Edge>)
    requires Chosen(n, parts, edges1) && Chosen(n, parts, edges2)
    ensures edges1 == edges2
    decreases |parts|
  {
    if parts != [] {
      ChosenStep(n, parts, edges1);
      ChosenStep(n, parts, edges2);
      ChosenUnique(Child(n, edges1[0]).value, parts[1..], edges1[1..], edges2[1..]);
      assert edges1 == [edges1[0]] + edges1[1..];
      assert edges2 == [edges2[0]] + edges2[1..];
    }
  }

  // ----- parameter names against captured arguments -----

  /**
   * Every handler stored `depth` variable edges below the root was
   * registered with exactly `depth` parameter names.
   */
  ghost predicate WellFormed(n: Node, depth: nat)
  {
    (forall v :: v in n.methods ==> |n.methods[v].params| == depth) &&
    (forall k :: k in n.values ==> WellFormed(n.values[k], depth)) &&
    (n.variable.Some? ==> WellFormed(n.variable.value, depth + 1))
  }

  lemma EmptyWellFormed(depth: nat)
    ensures WellFormed(Empty, depth)
  {
  }

  /** `register` keeps the invariant: each `:` segment adds one name and one level. */
  lemma {:induction false} RegisterWellFormed(n: Node, depth: nat, verb: string, path: string, parts: seq<string>, chain: Chain, params: seq<string>)
    requires WellFormed(n, depth) && |params| == depth
    ensures WellFormed(Register(n, verb, path, parts, chain, params), depth)
    decreases |parts|
  {
    if parts != [] {
      var part := parts[0];
      if IsVariable(part) {
        var child := if n.variable.Some? then n.variable.value else Empty;
        EmptyWellFormed(depth + 1);
        RegisterWellFormed(child, depth + 1, verb, path, parts[1..], chain, params + [part[1..]]);
      } else {
        var child := if part in n.values then n.values[part] else Empty;
        EmptyWellFormed(depth);
        RegisterWellFormed(child, depth, verb, path, parts[1..], chain, params);
      }
    }
  }

  /**
   * On a well-formed trie every successful match captures exactly as many
   * arguments as the returned handler has parameter names.
   */
  lemma {:induction false} MatchArgsAgree(n: Node, verb: string, parts: seq<string>, args: seq<string>)
    requires WellFormed(n, |args|)
    requires Match(n, verb, parts, args).Some?
    ensures Match(n, verb, parts, args).value.args.Some?
    ensures |Match(n, verb, parts, args).value.args.value| == |Match(n, verb, parts, args).value.params|
    decreases |parts|
  {
    if parts != [] {
      var part := parts[0];
      if part in n.values {
        MatchArgsAgree(n.values[part], verb, parts[1..], args);
      } else {
        MatchArgsAgree(n.variable.value, verb, parts[1..], args + [part]);
      }
    }
  }

  // ----- round trip -----

  /**
   * A path made only of literal segments is found again after it is
   * registered: `match` returns the handler just stored, bound to the
   * arguments it started with.
   */
  lemma {:induction false} RegisterThenMatchLiteral(n: Node, verb: string, path: string, parts: seq<string>, chain: Chain, params: seq<string>, args: seq<string>)
    requires forall i :: 0 <= i < |parts| ==> !IsVariable(parts[i])
    ensures Match(Register(n, verb, path, parts, chain, params), verb, parts, args)
         == Some(Handler(verb, path, chain, params, Some(args)))
    decreases |parts|
  {
    if parts != [] {
      var part := parts[0];
      var child := if part in n.values then n.values[part] else Empty;
      RegisterThenMatchLiteral(child, verb, path, parts[1..], chain, params, args);
    }
  }

  // ----- literal routes over later registrations -----

  lemma {:induction false} LiteralEdges(parts: seq<string>)
    requires forall i :: 0 <= i < |parts| ==> !IsVariable(parts[i])
    ensures forall i :: 0 <= i < |parts| ==> Edges(parts)[i] == Literal(parts[i])
  {
    if parts != [] {
      LiteralEdges(parts[1..]);
      forall i | 0 < i < |parts|
        ensures Edges(parts)[i] == Literal(parts[i])
      {
        assert Edges(parts)[i] == Edges(parts[1..])[i - 1];
        assert parts[1..][i - 1] == parts[i];
      }
    }
  }

  lemma {:induction false} LiteralCapturesNothing(parts: seq<string>)
    requires forall i :: 0 <= i < |parts| ==> !IsVariable(parts[i])
    ensures Captured(parts, Edges(parts)) == []
  {
    if parts != [] {
      assert !IsVariable(parts[0]);
      LiteralCapturesNothing(parts[1..]);
    }
  }

  lemma {:induction false} LiteralNamesNothing(parts: seq<string>)
    requires forall i :: 0 <= i < |parts| ==> !IsVariable(parts[i])
    ensures Names(parts) == []
  {
    if parts != [] {
      assert !IsVariable(parts[0]);
      LiteralNamesNothing(parts[1..]);
    }
  }

  /** Every prefix of a walk that exists exists too. */
  lemma {:induction false} AtPrefix(n: Node, edges: seq<Edge>, i: nat)
    requires i <= |edges| && At(n, edges).Some?
    ensures At(n, edges[..i]).Some?
  {
    if i > 0 {
      assert edges[..i][1..] == edges[1..][..i - 1];
      AtPrefix(Child(n, edges[0]).value, edges[1..], i - 1);
    }
  }

  /** One more edge: the node reached is the child of the node reached before. */
  lemma {:induction false} AtStep(n: Node, edges: seq<Edge>, i: nat)
    requires i < |edges| && At(n, edges[..i]).Some?
    ensures At(n, edges[..i + 1]) == Child(At(n, edges[..i]).value, edges[i])
  {
    if i == 0 {
      assert edges[..1][1..] == [];
    } else {
      assert edges[..i][0] == edges[0] && edges[..i + 1][0] == edges[0];
      assert edges[..i][1..] == edges[1..][..i - 1];
      assert edges[..i + 1][1..] == edges[1..][..i];
      AtStep(Child(n, edges[0]).value, edges[1..], i - 1);
    }
  }

  /** Where the node of an all-literal path exists, the literal-first walk is that path. */
  lemma LiteralWalkChosen(n: Node, parts: seq<string>)
    requires forall i :: 0 <= i < |parts| ==> !IsVariable(parts[i])
    requires At(n, Edges(parts)).Some?
    ensures Chosen(n, parts, Edges(parts))
  {
    LiteralEdges(parts);
    var e := Edges(parts);
    forall i | 0 <= i < |parts|
      ensures Prefers(At(n, e[..i]), parts[i], e[i])
    {
      AtPrefix(n, e, i);
      AtPrefix(n, e, i + 1);
      AtStep(n, e, i);
    }
  }

  /**
   * On any trie, an all-literal path whose node holds a handler for `verb`
   * is matched to that handler: the variable child is never taken.
   */
  lemma LiteralMatchFindsStored(n: Node, verb: string, parts: seq<string>, args: seq<string>)
    requires forall i :: 0 <= i < |parts| ==> !IsVariable(parts[i])
    requires verb in MethodsAt(n, Edges(parts))
    ensures Match(n, verb, parts, args) == Some(Bind(MethodsAt(n, Edges(parts))[verb], args))
  {
    LiteralWalkChosen(n, parts);
    MatchFollowsChosen(n, verb, parts, args, Edges(parts));
    LiteralCapturesNothing(parts);
    assert args + [] == args;
  }

  /**
   * A later registration that is not for the same method on the same edge
   * shape leaves an all-literal route in place and still matched to it, so
   * the route survives any sequence of such registrations.
   */
  lemma LiteralMatchSurvives(n: Node, verb: string, parts: seq<string>, args: seq<string>,
                             verb2: string, path2: string, parts2: seq<string>, chain2: Chain, params2: seq<string>)
    requires forall i :: 0 <= i < |parts| ==> !IsVariable(parts[i])
    requires verb in MethodsAt(n, Edges(parts))
    requires verb2 != verb || Edges(parts2) != Edges(parts)
    ensures var t := Register(n, verb2, path2, parts2, chain2, params2);
      && verb in MethodsAt(t, Edges(parts))
      && MethodsAt(t, Edges(parts))[verb] == MethodsAt(n, Edges(parts))[verb]
      && Match(t, verb, parts, args) == Some(Bind(MethodsAt(n, Edges(parts))[verb], args))
  {
    var t := Register(n, verb2, path2, parts2, chain2, params2);
    if Edges(parts2) != Edges(parts) {
      RegisterFrame(n, verb2, path2, parts2, chain2, params2, Edges(parts));
    } else {
      RegisterTarget(n, verb2, path2, parts2, chain2, params2);
    }
    LiteralMatchFindsStored(t, verb, parts, args);
  }
}
