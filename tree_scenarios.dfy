/**
 * Filter trees the constructor builds from two lines, replayed step by
 * step. The `servers` branch of the filter-tree case in
 * tests/test_005_templates.py: registering `s.*` and then `s.x` leaves the
 * wildcard child last, and `get_tuple_tree` shows
 * `(s, ((x, ...), ('*', ...)))`. And the tree of the lines `a.b` and `*.c`,
 * on which `find_match` shows that it does not backtrack. Both are stated
 * for every choice of dot-free segments that meets the stated conditions.
 */
module TreeScenarios {
  import opened Wrappers
  import opened Strings
  import opened Templates
  import opened FilterTree
  import opened NameParsers
  import opened NameParserProperties

  /** Split at the first dot of `a.b` when `a` has none. */
  lemma HeadRest(a: string, b: string)
    requires '.' !in a
    ensures Head(a + "." + b) == a && Rest(a + "." + b) == b
  {
    SplitOnceAt(a, b, '.');
  }

  /** A dot-free value is one segment. */
  lemma OneSegment(a: string)
    requires '.' !in a
    ensures Head(a) == a && Rest(a) == ""
  {
  }

  /** Registering `s.x` in the empty root builds the chain `s` then `x`. */
  lemma FirstLine(s: string, x: string, t: Template)
    requires '.' !in s && '.' !in x && x != ""
    ensures AddChild(Root, s + "." + x, t) == Node("ROOT", None, [Node(s, None, [Node(x, Some(t), [])])])
  {
    HeadRest(s, x);
    OneSegment(x);
    var chain := Node(s, None, [Node(x, Some(t), [])]);
    assert NewNode(x, t) == Node(x, Some(t), []);
    assert NewNode(s + "." + x, t) == chain;
    assert ChildIndex([], s).None?;
    assert Insort([], chain) == [chain];
  }

  /** Registering the one-segment `x` below a node whose only child is `*` puts `x` before it. */
  lemma BesideWildcard(s: string, x: string, t: Template, u: Template)
    requires '.' !in x && x != "*"
    ensures AddChild(Node(s, None, [Node("*", Some(t), [])]), x, u)
            == Node(s, None, [Node(x, Some(u), []), Node("*", Some(t), [])])
  {
    OneSegment(x);
    var star, leaf := Node("*", Some(t), []), Node(x, Some(u), []);
    assert NewNode(x, u) == leaf;
    WildcardIsGreatest(x);
    CompareAntisymmetric(x, "*");
    assert LeftPoint([star], x) == 0;
    assert ChildIndex([star], x).None?;
    assert RightPoint([star], x) == 0;
    assert Insort([star], leaf) == [leaf, star];
  }

  /** Registering `s.x` below the root built by `FirstLine` descends into `s`. */
  lemma SecondLine(s: string, x: string, t: Template, u: Template)
    requires '.' !in s && '.' !in x && x != "" && x != "*"
    ensures AddChild(Node("ROOT", None, [Node(s, None, [Node("*", Some(t), [])])]), s + "." + x, u)
            == Node("ROOT", None, [Node(s, None, [Node(x, Some(u), []), Node("*", Some(t), [])])])
  {
    HeadRest(s, x);
    var branch := Node(s, None, [Node("*", Some(t), [])]);
    assert LeftPoint([branch], s) == 0;
    assert ChildIndex([branch], s) == Some(0);
    BesideWildcard(s, x, t, u);
  }

  /** Registering two templates adds the first one's pattern, then the second's. */
  lemma RegisterTwo(t: Template, u: Template)
    ensures Register(Root, [t, u]) == AddChild(AddChild(Root, t.matchPattern, t), u.matchPattern, u)
  {
    RegisterAppend(Root, [], t);
    assert [] + [t] == [t];
    RegisterAppend(Root, [t], u);
    assert [t] + [u] == [t, u];
  }

  /** `get_tuple_tree` of the two-level tree: a branch of two leaves under the root. */
  lemma BranchShape(s: string, x: string, t: Template, u: Template)
    ensures TupleTree(Node("ROOT", None, [Node(s, None, [Node(x, Some(u), []), Node("*", Some(t), [])])]))
            == Some(Branch("ROOT", [Branch(s, [Leaf(x, u.template), Leaf("*", t.template)])]))
  {
    var leaf, star := Node(x, Some(u), []), Node("*", Some(t), []);
    var leaves := [leaf, star];
    var shapes := [Leaf(x, u.template), Leaf("*", t.template)];
    assert TupleTree(leaf) == Some(shapes[0]);
    assert TupleTree(star) == Some(shapes[1]);
    assert TupleTrees([]) == Some([]);
    assert [star][1..] == [] && leaves[1..] == [star];
    assert [star][0] == star && [shapes[1]] + [] == [shapes[1]];
    assert TupleTrees([star]) == Some([shapes[1]]);
    assert leaves[0] == leaf && [shapes[0]] + [shapes[1]] == shapes;
    assert TupleTrees(leaves) == Some(shapes);
    var branch := Node(s, None, leaves);
    assert TupleTree(branch) == Some(Branch(s, shapes));
    assert [branch][0] == branch && [branch][1..] == [];
    assert [Branch(s, shapes)] + [] == [Branch(s, shapes)];
    assert TupleTrees([branch]) == Some([Branch(s, shapes)]);
  }

  /**
   * The lines `s.* ...` and `s.x ...`, in that order, give the root one
   * child `s` whose children are `x` and then `*`, each carrying its own
   * template; `get_tuple_tree` shows that shape.
   */
  lemma ServersBranch(s: string, x: string, t: Template, u: Template)
    requires '.' !in s && '.' !in x && x != "" && x != "*"
    requires t.matchPattern == s + ".*" && u.matchPattern == s + "." + x
    ensures Register(Root, [t, u])
            == Node("ROOT", None, [Node(s, None, [Node(x, Some(u), []), Node("*", Some(t), [])])])
    ensures TupleTree(Register(Root, [t, u]))
            == Some(Branch("ROOT", [Branch(s, [Leaf(x, u.template), Leaf("*", t.template)])]))
  {
    var first := Node("ROOT", None, [Node(s, None, [Node("*", Some(t), [])])]);
    assert AddChild(Root, t.matchPattern, t) == first by {
      assert s + ".*" == s + "." + "*";
      FirstLine(s, "*", t);
    }
    RegisterTwo(t, u);
    SecondLine(s, x, t, u);
    BranchShape(s, x, t, u);
  }

  // ---------------------------------------------------------------------------
  // The lines `a.b` and `*.c`: find_match does not backtrack
  // ---------------------------------------------------------------------------

  /** Registering `*.c` below a root whose only child is not `*` puts the chain `*` then `c` after that child. */
  lemma WildcardLine(branch: Node, c: string, u: Template)
    requires branch.value != "*"
    requires '.' !in c && c != ""
    ensures AddChild(Node("ROOT", None, [branch]), "*." + c, u)
            == Node("ROOT", None, [branch, Node("*", None, [Node(c, Some(u), [])])])
  {
    assert "*." + c == "*" + "." + c;
    HeadRest("*", c);
    OneSegment(c);
    var chain := Node("*", None, [Node(c, Some(u), [])]);
    assert NewNode(c, u) == Node(c, Some(u), []);
    assert NewNode("*." + c, u) == chain;
    WildcardIsGreatest(branch.value);
    assert LeftPoint([branch], "*") == 1;
    assert ChildIndex([branch], "*").None?;
    assert RightPoint([branch], "*") == 1;
    assert Insort([branch], chain) == [branch, chain];
  }

  /** Adding the catch-all where the last child is a `*` without a template gives that child the catch-all. */
  lemma CatchAllBinds(branch: Node, star: Node)
    requires branch.value != "*" && star.value == "*" && star.template.None?
    ensures AddChild(Node("ROOT", None, [branch, star]), "*", CatchAll)
            == Node("ROOT", None, [branch, star.(template := Some(CatchAll))])
  {
    OneSegment("*");
    WildcardIsGreatest(branch.value);
    assert [branch, star][1..] == [star];
    assert LeftPoint([branch, star], "*") == 1;
    assert ChildIndex([branch, star], "*") == Some(1);
  }

  /** A root with a branch `a` whose only child is `b`, beside a branch `*`, holding `w`, whose only child is `c`. */
  function TwoBranches(a: string, b: string, c: string, t: Template, u: Template, w: Option<Template>): Node {
    Node("ROOT", None, [Node(a, None, [Node(b, Some(t), [])]), Node("*", w, [Node(c, Some(u), [])])])
  }

  /**
   * The constructor's tree for the lines `a.b ...` and `*.c ...`: the two
   * chains in `__cmp__` order, with the catch-all bound at the `*` node the
   * second line created.
   */
  lemma TwoLinesBuild(a: string, b: string, c: string, t: Template, u: Template)
    requires '.' !in a && a != "*"
    requires '.' !in b && b != ""
    requires '.' !in c && c != ""
    requires t.matchPattern == a + "." + b && u.matchPattern == "*." + c
    ensures BuildTree([t, u]) == TwoBranches(a, b, c, t, u, Some(CatchAll))
  {
    RegisterTwo(t, u);
    FirstLine(a, b, t);
    var branch := Node(a, None, [Node(b, Some(t), [])]);
    WildcardLine(branch, c, u);
    CatchAllBinds(branch, Node("*", None, [Node(c, Some(u), [])]));
  }

  lemma TwoBranchesOrdered(a: string, b: string, c: string, t: Template, u: Template, w: Option<Template>)
    requires a != "*"
    ensures Ordered(TwoBranches(a, b, c, t, u, w))
    ensures TemplateAt(TwoBranches(a, b, c, t, u, w), ["*", c]) == Some(u)
  {
    var tree := TwoBranches(a, b, c, t, u, w);
    var star, leafC := tree.children[1], Node(c, Some(u), []);
    WildcardIsGreatest(a);
    assert Ordered(tree.children[0]) && Ordered(star);
    assert Lookup(tree.children, "*") == Some(star);
    assert ["*", c][1..] == [c] && [c][1..] == [];
    assert Lookup(star.children, c) == Some(leafC);
    assert TemplateAt(leafC, []) == Some(u);
    assert TemplateAt(star, [c]) == Some(u);
  }

  /** The name `a` stops on the template-less node `a`. */
  lemma StopsOnBranch(a: string, b: string, c: string, t: Template, u: Template, w: Option<Template>)
    requires '.' !in a && a != "*"
    ensures Route(TwoBranches(a, b, c, t, u, w), a) == Err(TemplateMissing)
  {
    var tree := TwoBranches(a, b, c, t, u, w);
    TwoBranchesOrdered(a, b, c, t, u, w);
    RouteByValue(tree, a);
    assert Head(a) == a && Rest(a) == "";
    assert Lookup(tree.children, a) == Some(tree.children[0]);
    assert Matching(tree, a) == Some(tree.children[0]);
  }

  /** The name `a.c` enters `a`, where neither `c` nor `*` is found, and is not tried under `*`. */
  lemma DeadEnd(a: string, b: string, c: string, t: Template, u: Template, w: Option<Template>)
    requires a != "" && '.' !in a && a != "*"
    requires '.' !in b && b != "*" && b != c
    requires c != "" && '.' !in c
    ensures Route(TwoBranches(a, b, c, t, u, w), a + "." + c) == Ok((a + "." + c, map[]))
  {
    var tree := TwoBranches(a, b, c, t, u, w);
    var branchA := tree.children[0];
    var name := a + "." + c;
    TwoBranchesOrdered(a, b, c, t, u, w);
    SplitOnceAt(a, c, '.');
    assert Head(name) == a && Rest(name) == c;
    RouteByValue(tree, name);
    assert Lookup(tree.children, a) == Some(branchA);
    assert Head(c) == c && Rest(c) == "";
    assert Matching(branchA, c) == None;
    assert Matching(tree, name) == None;
  }

  /**
   * `find_match` does not backtrack. For the lines `a.b ...` and `*.c ...`
   * the constructor's tree has the template of `*.c` at the path `*.c`, yet
   * the name `a` stops on the template-less node `a`, so `process` fails,
   * and the name `a.c` enters `a`, finds neither `c` nor `*` there and comes
   * back unchanged with no tags.
   */
  lemma NoBacktracking(a: string, b: string, c: string, t: Template, u: Template)
    requires a != "" && '.' !in a && a != "*"
    requires b != "" && '.' !in b && b != "*" && b != c
    requires c != "" && '.' !in c
    requires t.matchPattern == a + "." + b && u.matchPattern == "*." + c
    ensures var tree := BuildTree([t, u]);
            && Ordered(tree)
            && TemplateAt(tree, ["*", c]) == Some(u)
            && Route(tree, a) == Err(TemplateMissing)
            && Route(tree, a + "." + c) == Ok((a + "." + c, map[]))
  {
    TwoLinesBuild(a, b, c, t, u);
    TwoBranchesOrdered(a, b, c, t, u, Some(CatchAll));
    StopsOnBranch(a, b, c, t, u, Some(CatchAll));
    DeadEnd(a, b, c, t, u, Some(CatchAll));
  }
}
