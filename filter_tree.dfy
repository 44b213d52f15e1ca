/**
 * The sorted filter tree of bucky/templates.py: `Node`, its `__cmp__`
 * order, `find_child`, `add_child`, `find_match`, `check_tree` and
 * `get_tuple_tree`, with the `bisect` calls they rely on.
 *
 * A node is a value here: `add_child` returns the updated tree instead of
 * changing nodes in place. Every node of the source has exactly one parent,
 * so nothing is shared and the two readings agree.
 */
module FilterTree {
  import opened Wrappers
  import opened Strings
  import opened Templates

  /** A tree node. `template` is `None` where the source stores `''`. */
  datatype Node = Node(value: string, template: Option<Template>, children: seq<Node>)

  // ---------------------------------------------------------------------------
  // value.split('.', 1)
  // ---------------------------------------------------------------------------

  /** `value.split('.', 1)[0]`: the first segment. */
  function Head(value: string): (h: string)
    ensures '.' !in h
  {
    SplitOnce(value, '.')[0]
  }

  /** The text after the first dot, or `""` when there is none (`subvalue` in the source). */
  function Rest(value: string): (r: string)
    ensures '.' !in value ==> Head(value) == value && r == ""
    ensures '.' in value ==> value == Head(value) + "." + r
    ensures |r| < |value| || r == ""
  {
    var parts := SplitOnce(value, '.');
    if |parts| == 2 then parts[1] else ""
  }

  /**
   * The segments `add_child`, `Node(value, template)` and `find_match` walk
   * for `value`, one `split('.', 1)` at a time: a walk stops as soon as the
   * remainder is empty, so one trailing dot is ignored.
   */
  function Path(value: string): (p: seq<string>)
    ensures |p| >= 1 && p[0] == Head(value)
    decreases |value|
  {
    if Rest(value) == "" then [Head(value)] else [Head(value)] + Path(Rest(value))
  }

  // ---------------------------------------------------------------------------
  // Node.__cmp__
  // ---------------------------------------------------------------------------

  /** Python 2 `cmp` on two strings: lexicographic on character codes. */
  function StrCmp(a: string, b: string): (r: int)
    ensures -1 <= r <= 1
    ensures r == 0 <==> a == b
  {
    if a == [] && b == [] then 0
    else if a == [] then -1
    else if b == [] then 1
    else if a[0] < b[0] then -1
    else if a[0] > b[0] then 1
    else
      var r := StrCmp(a[1..], b[1..]);
      assert r == 0 ==> a == [a[0]] + a[1..] == [b[0]] + b[1..] == b;
      r
  }

  /** `Node.__cmp__` on the nodes' values: `*` sorts after every other value. */
  function Compare(a: string, b: string): (r: int)
    ensures -1 <= r <= 1
    ensures r == 0 <==> a == b
  {
    if a == "*" && b != "*" then 1
    else if a != "*" && b == "*" then -1
    else StrCmp(a, b)
  }

  /** `a` sorts strictly before `b`. */
  predicate Below(a: string, b: string) {
    Compare(a, b) < 0
  }

  /** `a` does not sort after `b`. */
  predicate AtMost(a: string, b: string) {
    Compare(a, b) <= 0
  }

  lemma {:induction false} StrCmpAntisymmetric(a: string, b: string)
    ensures StrCmp(a, b) == -StrCmp(b, a)
  {
    if a != [] && b != [] && a[0] == b[0] {
      StrCmpAntisymmetric(a[1..], b[1..]);
    }
  }

  lemma {:induction false} StrCmpTransitive(a: string, b: string, c: string)
    requires StrCmp(a, b) < 0 && StrCmp(b, c) < 0
    ensures StrCmp(a, c) < 0
  {
    if a != [] && b != [] && c != [] && a[0] == b[0] && b[0] == c[0] {
      StrCmpTransitive(a[1..], b[1..], c[1..]);
    }
  }

  /** Swapping the operands of `__cmp__` negates the result. */
  lemma CompareAntisymmetric(a: string, b: string)
    ensures Compare(a, b) == -Compare(b, a)
  {
    StrCmpAntisymmetric(a, b);
  }

  /** `__cmp__` is transitive, so it is a strict total order on values. */
  lemma CompareTransitive(a: string, b: string, c: string)
    requires Below(a, b) && Below(b, c)
    ensures Below(a, c)
  {
    if a != "*" && b != "*" && c != "*" {
      StrCmpTransitive(a, b, c);
    }
  }

  /** `*` sorts after every other value. */
  lemma WildcardIsGreatest(a: string)
    requires a != "*"
    ensures Below(a, "*")
  {
  }

  lemma AtMostNotBelow(a: string, b: string)
    ensures AtMost(a, b) <==> !Below(b, a)
  {
    CompareAntisymmetric(a, b);
  }

  lemma AtMostTransitive(a: string, b: string, c: string)
    requires AtMost(a, b) && AtMost(b, c)
    ensures AtMost(a, c)
  {
    if a != b && b != c {
      CompareTransitive(a, b, c);
    }
  }

  lemma BelowAtMost(a: string, b: string, c: string)
    requires Below(a, b) && AtMost(b, c)
    ensures Below(a, c)
  {
    if b != c {
      CompareTransitive(a, b, c);
    }
  }

  lemma AtMostBelow(a: string, b: string, c: string)
    requires AtMost(a, b) && Below(b, c)
    ensures Below(a, c)
  {
    if a != b {
      CompareTransitive(a, b, c);
    }
  }

  // ---------------------------------------------------------------------------
  // Sorted children, bisect and find_child
  // ---------------------------------------------------------------------------

  /** Children in non-decreasing `__cmp__` order: what `bisect` requires. */
  predicate Sorted(cs: seq<Node>) {
    forall i, j :: 0 <= i < j < |cs| ==> AtMost(cs[i].value, cs[j].value)
  }

  /** Children in strictly increasing `__cmp__` order. */
  predicate Increasing(cs: seq<Node>) {
    forall i, j :: 0 <= i < j < |cs| ==> Below(cs[i].value, cs[j].value)
  }

  /** No two children share a value. */
  predicate DistinctValues(cs: seq<Node>) {
    forall i, j :: 0 <= i < j < |cs| ==> cs[i].value != cs[j].value
  }

  /** Strictly increasing is the same as sorted with distinct values. */
  lemma IncreasingIsSortedDistinct(cs: seq<Node>)
    ensures Increasing(cs) <==> Sorted(cs) && DistinctValues(cs)
  {
  }

  /** The length of the longest prefix of `cs` that sorts before `v`. */
  function LeftPoint(cs: seq<Node>, v: string): (k: nat)
    ensures k <= |cs|
    ensures forall i :: 0 <= i < k ==> Below(cs[i].value, v)
    ensures k < |cs| ==> !Below(cs[k].value, v)
  {
    if cs == [] || !Below(cs[0].value, v) then 0 else 1 + LeftPoint(cs[1..], v)
  }

  /** The length of the longest prefix of `cs` that does not sort after `v`. */
  function RightPoint(cs: seq<Node>, v: string): (k: nat)
    ensures k <= |cs|
    ensures forall i :: 0 <= i < k ==> AtMost(cs[i].value, v)
    ensures k < |cs| ==> !AtMost(cs[k].value, v)
  {
    if cs == [] || !AtMost(cs[0].value, v) then 0 else 1 + RightPoint(cs[1..], v)
  }

  /** In a sorted list, everything from `LeftPoint` on does not sort before `v`. */
  lemma LeftPointPartitions(cs: seq<Node>, v: string)
    requires Sorted(cs)
    ensures forall i :: LeftPoint(cs, v) <= i < |cs| ==> !Below(cs[i].value, v)
  {
    var k := LeftPoint(cs, v);
    forall i | k <= i < |cs|
      ensures !Below(cs[i].value, v)
    {
      if i > k && Below(cs[i].value, v) {
        AtMostBelow(cs[k].value, cs[i].value, v);
      }
    }
  }

  /** In a sorted list, everything from `RightPoint` on sorts after `v`. */
  lemma RightPointPartitions(cs: seq<Node>, v: string)
    requires Sorted(cs)
    ensures forall i :: RightPoint(cs, v) <= i < |cs| ==> !AtMost(cs[i].value, v)
  {
    var k := RightPoint(cs, v);
    forall i | k <= i < |cs|
      ensures !AtMost(cs[i].value, v)
    {
      if i > k && AtMost(cs[i].value, v) {
        AtMostTransitive(cs[k].value, cs[i].value, v);
      }
    }
  }

  lemma {:induction false} LeftPointIs(cs: seq<Node>, v: string, k: nat)
    requires k <= |cs|
    requires forall i :: 0 <= i < k ==> Below(cs[i].value, v)
    requires k < |cs| ==> !Below(cs[k].value, v)
    ensures LeftPoint(cs, v) == k
  {
    if k > 0 {
      LeftPointIs(cs[1..], v, k - 1);
    }
  }

  lemma {:induction false} RightPointIs(cs: seq<Node>, v: string, k: nat)
    requires k <= |cs|
    requires forall i :: 0 <= i < k ==> AtMost(cs[i].value, v)
    requires k < |cs| ==> !AtMost(cs[k].value, v)
    ensures RightPoint(cs, v) == k
  {
    if k > 0 {
      RightPointIs(cs[1..], v, k - 1);
    }
  }

  /**
   * `bisect.bisect_left(cs, Node(v, ''))`, the binary search `find_child`
   * runs: the first position whose child does not sort before `v`.
   */
  method BisectLeft(cs: seq<Node>, v: string) returns (lo: nat)
    requires Sorted(cs)
    ensures lo == LeftPoint(cs, v)
  {
    lo := 0;
    var hi := |cs|;
    while lo < hi
      invariant lo <= hi <= |cs|
      invariant forall i :: 0 <= i < lo ==> Below(cs[i].value, v)
      invariant forall i :: hi <= i < |cs| ==> !Below(cs[i].value, v)
    {
      var mid := (lo + hi) / 2;
      if Below(cs[mid].value, v) {
        forall i | lo <= i < mid
          ensures Below(cs[i].value, v)
        {
          AtMostBelow(cs[i].value, cs[mid].value, v);
        }
        lo := mid + 1;
      } else {
        forall i | mid < i < hi
          ensures !Below(cs[i].value, v)
        {
          if Below(cs[i].value, v) {
            AtMostBelow(cs[mid].value, cs[i].value, v);
          }
        }
        hi := mid;
      }
    }
    LeftPointIs(cs, v, lo);
  }

  /**
   * `bisect.bisect_right(cs, x)` for a node `x` with value `v`, the search
   * `bisect.insort` runs: the first position whose child sorts after `v`.
   */
  method BisectRight(cs: seq<Node>, v: string) returns (lo: nat)
    requires Sorted(cs)
    ensures lo == RightPoint(cs, v)
  {
    lo := 0;
    var hi := |cs|;
    while lo < hi
      invariant lo <= hi <= |cs|
      invariant forall i :: 0 <= i < lo ==> AtMost(cs[i].value, v)
      invariant forall i :: hi <= i < |cs| ==> !AtMost(cs[i].value, v)
    {
      var mid := (lo + hi) / 2;
      if Below(v, cs[mid].value) {
        forall i | mid <= i < hi
          ensures !AtMost(cs[i].value, v)
        {
          if i > mid {
            BelowAtMost(v, cs[mid].value, cs[i].value);
          }
          AtMostNotBelow(cs[i].value, v);
        }
        hi := mid;
      } else {
        AtMostNotBelow(cs[mid].value, v);
        forall i | lo <= i < mid
          ensures AtMost(cs[i].value, v)
        {
          AtMostTransitive(cs[i].value, cs[mid].value, v);
        }
        lo := mid + 1;
      }
    }
    RightPointIs(cs, v, lo);
  }

  /** The first child whose value is `v`, found by a plain linear search. */
  function Lookup(cs: seq<Node>, v: string): (r: Option<Node>)
    ensures r.None? <==> forall i :: 0 <= i < |cs| ==> cs[i].value != v
    ensures r.Some? ==> r.value in cs && r.value.value == v
  {
    if cs == [] then None
    else if cs[0].value == v then Some(cs[0])
    else Lookup(cs[1..], v)
  }

  /** With distinct values, the search finds each child under its own value. */
  lemma {:induction false} LookupDistinct(cs: seq<Node>, i: nat)
    requires DistinctValues(cs) && i < |cs|
    ensures Lookup(cs, cs[i].value) == Some(cs[i])
  {
    if i > 0 {
      LookupDistinct(cs[1..], i - 1);
    }
  }

  /** The position of the child `find_child` returns, if any. */
  function ChildIndex(cs: seq<Node>, v: string): (r: Option<nat>)
    ensures r.Some? ==> r.value < |cs| && cs[r.value].value == v
  {
    var k := LeftPoint(cs, v);
    if k < |cs| && cs[k].value == v then Some(k) else None
  }

  /** On sorted children the binary search finds what the linear search finds. */
  lemma ChildIndexAgrees(cs: seq<Node>, v: string)
    requires Sorted(cs)
    ensures Lookup(cs, v) == (if ChildIndex(cs, v).Some? then Some(cs[ChildIndex(cs, v).value]) else None)
  {
    var k := LeftPoint(cs, v);
    LeftPointPartitions(cs, v);
    if k < |cs| && cs[k].value == v {
      LookupFirst(cs, v, k);
    } else if k < |cs| {
      forall i | k < i < |cs|
        ensures cs[i].value != v
      {
        AtMostNotBelow(v, cs[k].value);
        if cs[i].value == v {
          BelowAtMost(v, cs[k].value, cs[i].value);
        }
      }
    }
  }

  lemma {:induction false} LookupFirst(cs: seq<Node>, v: string, k: nat)
    requires k < |cs| && cs[k].value == v
    requires forall i :: 0 <= i < k ==> cs[i].value != v
    ensures Lookup(cs, v) == Some(cs[k])
  {
    if k > 0 {
      LookupFirst(cs[1..], v, k - 1);
    }
  }

  /** `Node.find_child(v)`: the child whose value is `v`, by binary search. */
  method FindChild(cs: seq<Node>, v: string) returns (r: Option<Node>)
    requires Sorted(cs)
    ensures r == Lookup(cs, v)
  {
    var index := BisectLeft(cs, v);
    ChildIndexAgrees(cs, v);
    if index != |cs| && cs[index].value == v {
      r := Some(cs[index]);
    } else {
      r := None;
    }
  }

  /** `bisect.insort(cs, x)`: `x` inserted after every child that does not sort after it. */
  function Insort(cs: seq<Node>, x: Node): (r: seq<Node>)
    ensures multiset(r) == multiset(cs) + multiset{x}
  {
    var k := RightPoint(cs, x.value);
    assert cs == cs[..k] + cs[k..];
    cs[..k] + [x] + cs[k..]
  }

  /** `bisect.insort(cs, x)`, with the search done by `bisect_right`. */
  method InsortInto(cs: seq<Node>, x: Node) returns (r: seq<Node>)
    requires Sorted(cs)
    ensures r == Insort(cs, x)
  {
    var k := BisectRight(cs, x.value);
    r := cs[..k] + [x] + cs[k..];
  }

  /** Inserting a node whose value is new keeps the children strictly increasing. */
  lemma InsortIncreasing(cs: seq<Node>, x: Node)
    requires Increasing(cs)
    requires forall i :: 0 <= i < |cs| ==> cs[i].value != x.value
    ensures Increasing(Insort(cs, x))
  {
    var k := RightPoint(cs, x.value);
    RightPointPartitions(cs, x.value);
    var r := Insort(cs, x);
    assert |r| == |cs| + 1;
    assert forall i :: 0 <= i < k ==> r[i] == cs[i];
    assert r[k] == x;
    assert forall i :: k < i < |r| ==> r[i] == cs[i - 1];
    forall i | k <= i < |cs|
      ensures Below(x.value, cs[i].value)
    {
      AtMostNotBelow(cs[i].value, x.value);
    }
    forall i, j | 0 <= i < j < |r|
      ensures Below(r[i].value, r[j].value)
    {
      if j < k || i > k {
      } else if j == k {
      } else if i == k {
      } else {
        CompareTransitive(r[i].value, x.value, r[j].value);
      }
    }
  }

  /** The search after an insertion of a new value: it finds the new node under its value, and the rest as before. */
  lemma InsortLookup(cs: seq<Node>, x: Node, v: string)
    requires Increasing(cs)
    requires forall i :: 0 <= i < |cs| ==> cs[i].value != x.value
    ensures Lookup(Insort(cs, x), v) == if v == x.value then Some(x) else Lookup(cs, v)
  {
    var r := Insort(cs, x);
    InsortIncreasing(cs, x);
    if v == x.value {
      InsortHas(cs, x, x);
      var i :| 0 <= i < |r| && r[i] == x;
      LookupDistinct(r, i);
    } else if Lookup(cs, v).Some? {
      InsortHas(cs, x, Lookup(cs, v).value);
      var i :| 0 <= i < |r| && r[i] == Lookup(cs, v).value;
      LookupDistinct(r, i);
    } else {
      forall i | 0 <= i < |r|
        ensures r[i].value != v
      {
        InsortHas(cs, x, r[i]);
      }
    }
  }

  lemma InsortHas(cs: seq<Node>, x: Node, c: Node)
    ensures c in Insort(cs, x) <==> c in cs || c == x
  {
    assert c in Insort(cs, x) <==> c in multiset(Insort(cs, x));
    assert c in cs <==> c in multiset(cs);
  }

  /** The search after a child is replaced by one with the same value. */
  lemma ReplaceLookup(cs: seq<Node>, k: nat, c: Node, v: string)
    requires DistinctValues(cs) && k < |cs| && cs[k].value == c.value
    ensures Lookup(cs[k := c], v) == if v == c.value then Some(c) else Lookup(cs, v)
  {
    var r := cs[k := c];
    if v == c.value {
      LookupDistinct(r, k);
    } else if Lookup(cs, v).Some? {
      var i :| 0 <= i < |cs| && cs[i] == Lookup(cs, v).value;
      LookupDistinct(cs, i);
      LookupDistinct(r, i);
    }
  }

  // ---------------------------------------------------------------------------
  // Node(value, template) and add_child
  // ---------------------------------------------------------------------------

  /** `Node(value, template)`: a node for the first segment of `value` and a chain of nodes for the rest. */
  function NewNode(value: string, t: Template): (r: Node)
    ensures r.value == Head(value)
    decreases |value|
  {
    if Rest(value) == "" then Node(Head(value), Some(t), [])
    else Node(Head(value), None, [NewNode(Rest(value), t)])
  }

  /** `node.add_child(value, template)`: the tree with `template` registered under the path of `value`. */
  function AddChild(n: Node, value: string, t: Template): (r: Node)
    ensures r.value == n.value && r.template == n.template
    decreases |value|
  {
    var head := Head(value);
    var rest := Rest(value);
    match ChildIndex(n.children, head)
    case Some(k) =>
      var child := n.children[k];
      if rest != "" then n.(children := n.children[k := AddChild(child, rest, t)])
      else if child.template.None? then n.(children := n.children[k := child.(template := Some(t))])
      else n
    case None =>
      n.(children := Insort(n.children, NewNode(value, t)))
  }

  /** The constructor's chain is what `add_child` builds below an empty node of the first segment. */
  lemma NewNodeIsAddChild(value: string, t: Template)
    requires Rest(value) != ""
    ensures NewNode(value, t) == AddChild(Node(Head(value), None, []), Rest(value), t)
  {
    var chain := NewNode(Rest(value), t);
    assert ChildIndex([], Head(Rest(value))).None?;
    assert Insort([], chain) == [chain];
  }

  /** The template at the end of `path` below `n`, following children by value. */
  function TemplateAt(n: Node, path: seq<string>): Option<Template>
    decreases |path|
  {
    if path == [] then n.template
    else
      match Lookup(n.children, path[0])
      case None => None
      case Some(c) => TemplateAt(c, path[1..])
  }

  /** Every node's children are strictly increasing in `__cmp__` order. */
  predicate Ordered(n: Node)
    decreases n
  {
    Increasing(n.children) && forall c :: c in n.children ==> Ordered(c)
  }

  /** Every node has a template or children. */
  predicate Populated(n: Node)
    decreases n
  {
    (n.template.Some? || n.children != []) && forall c :: c in n.children ==> Populated(c)
  }

  /** Every node has a non-empty value. */
  predicate Named(n: Node)
    decreases n
  {
    n.value != "" && forall c :: c in n.children ==> Named(c)
  }

  /** No segment of `path` is empty. */
  predicate NoEmptySegment(path: seq<string>) {
    forall i :: 0 <= i < |path| ==> path[i] != ""
  }

  lemma {:induction false} NewNodeOrdered(value: string, t: Template)
    ensures Ordered(NewNode(value, t))
    decreases |value|
  {
    if Rest(value) != "" {
      NewNodeOrdered(Rest(value), t);
    }
  }

  lemma {:induction false} NewNodePopulated(value: string, t: Template)
    ensures Populated(NewNode(value, t))
    decreases |value|
  {
    if Rest(value) != "" {
      NewNodePopulated(Rest(value), t);
    }
  }

  lemma {:induction false} NewNodeNamed(value: string, t: Template)
    ensures Named(NewNode(value, t)) <==> NoEmptySegment(Path(value))
    decreases |value|
  {
    if Rest(value) != "" {
      NewNodeNamed(Rest(value), t);
      assert Path(value)[1..] == Path(Rest(value));
    }
  }

  /** The chain the constructor builds carries `t` exactly at the end of the path of `value`. */
  lemma {:induction false} NewNodeTemplateAt(value: string, t: Template, path: seq<string>)
    ensures TemplateAt(NewNode(value, t), path) == if path == Path(value)[1..] then Some(t) else None
    decreases |value|
  {
    if Rest(value) == "" {
      NewNodeLeafTemplateAt(value, t, path);
    } else if path != [] {
      var node, rest := NewNode(value, t), Rest(value);
      var c := NewNode(rest, t);
      assert node.children == [c] && Path(value)[1..] == Path(rest);
      SameSegments(path, Path(rest));
      if path[0] == c.value {
        LookupFirst([c], c.value, 0);
        TemplateAtStep(node, path, c);
        NewNodeTemplateAt(rest, t, path[1..]);
      } else {
        TemplateAtMissing(node, path);
      }
    }
  }

  /** A one-segment value's node carries `t` itself and has nothing below it. */
  lemma NewNodeLeafTemplateAt(value: string, t: Template, path: seq<string>)
    requires Rest(value) == ""
    ensures TemplateAt(NewNode(value, t), path) == if path == Path(value)[1..] then Some(t) else None
  {
    assert Path(value)[1..] == [];
    if path != [] {
      TemplateAtMissing(NewNode(value, t), path);
    }
  }

  /** Two non-empty paths are equal exactly when their first segments and their remainders are. */
  lemma SameSegments(a: seq<string>, b: seq<string>)
    requires a != [] && b != []
    ensures a == b <==> a[0] == b[0] && a[1..] == b[1..]
  {
    if a[0] == b[0] && a[1..] == b[1..] {
      assert a == [a[0]] + a[1..] && b == [b[0]] + b[1..];
    }
  }

  /** `add_child` keeps every node's children strictly increasing. */
  lemma {:induction false} AddChildOrdered(n: Node, value: string, t: Template)
    requires Ordered(n)
    ensures Ordered(AddChild(n, value, t))
    decreases |value|
  {
    var cs := n.children;
    var r := AddChild(n, value, t);
    match ChildIndex(cs, Head(value))
    case Some(k) =>
      if Rest(value) != "" {
        AddChildOrdered(cs[k], Rest(value), t);
      }
      ReplaceHas(cs, k, r.children[k]);
    case None =>
      ChildIndexAgrees(cs, Head(value));
      InsortIncreasing(cs, NewNode(value, t));
      NewNodeOrdered(value, t);
      forall c | c in r.children
        ensures Ordered(c)
      {
        InsortHas(cs, NewNode(value, t), c);
      }
  }

  lemma ReplaceHas(cs: seq<Node>, k: nat, c: Node)
    requires k < |cs|
    ensures forall d :: d in cs[k := c] ==> d == c || d in cs
  {
    forall d | d in cs[k := c]
      ensures d == c || d in cs
    {
      var i :| 0 <= i < |cs| && cs[k := c][i] == d;
    }
  }

  /** Below a node whose children have a template or children, `add_child` leaves every node with one or the other. */
  lemma {:induction false} AddChildPopulated(n: Node, value: string, t: Template)
    requires forall c :: c in n.children ==> Populated(c)
    ensures Populated(AddChild(n, value, t))
    decreases |value|
  {
    var cs := n.children;
    var r := AddChild(n, value, t);
    match ChildIndex(cs, Head(value))
    case Some(k) =>
      assert cs[k] in cs;
      if Rest(value) != "" {
        AddChildPopulated(cs[k], Rest(value), t);
      }
      assert Populated(r.children[k]);
      ReplaceHas(cs, k, r.children[k]);
    case None =>
      NewNodePopulated(value, t);
      InsortHas(cs, NewNode(value, t), NewNode(value, t));
      forall c | c in r.children
        ensures Populated(c)
      {
        InsortHas(cs, NewNode(value, t), c);
      }
  }

  lemma NoEmptySegmentCons(head: string, rest: seq<string>)
    ensures NoEmptySegment([head] + rest) <==> head != "" && NoEmptySegment(rest)
  {
    var p := [head] + rest;
    assert p[0] == head;
    assert forall i :: 1 <= i < |p| ==> p[i] == rest[i - 1];
    if head != "" && NoEmptySegment(rest) {
      forall i | 0 <= i < |p|
        ensures p[i] != ""
      {
        if i > 0 {
          assert p[i] == rest[i - 1];
        }
      }
    }
    if NoEmptySegment(p) {
      forall i | 0 <= i < |rest|
        ensures rest[i] != ""
      {
        assert rest[i] == p[i + 1];
      }
    }
  }

  /**
   * `add_child` keeps every value non-empty exactly when no segment of the
   * path it walks is empty: `"a..b"` or `".a"` create a node whose value is `''`.
   */
  lemma {:induction false} AddChildNamed(n: Node, value: string, t: Template)
    requires Named(n) && Ordered(n)
    ensures Named(AddChild(n, value, t)) <==> NoEmptySegment(Path(value))
    decreases |value|
  {
    var cs := n.children;
    var r := AddChild(n, value, t);
    match ChildIndex(cs, Head(value))
    case Some(k) =>
      assert cs[k] in cs;
      var c := r.children[k];
      ReplaceHas(cs, k, c);
      assert c in r.children;
      if Rest(value) != "" {
        AddChildNamed(cs[k], Rest(value), t);
        NoEmptySegmentCons(Head(value), Path(Rest(value)));
        assert Named(r) <==> Named(c);
      } else {
        assert Path(value) == [Head(value)];
        assert Named(c);
      }
    case None =>
      NewNodeNamed(value, t);
      InsortHas(cs, NewNode(value, t), NewNode(value, t));
      forall c | c in r.children
        ensures c in cs || c == NewNode(value, t)
      {
        InsortHas(cs, NewNode(value, t), c);
      }
  }

  /** `add_child` never removes a node, so it cannot mend a tree that has an empty value. */
  lemma {:induction false} AddChildNamedBefore(n: Node, value: string, t: Template)
    requires Named(AddChild(n, value, t))
    ensures Named(n)
    decreases |value|
  {
    var cs := n.children;
    var r := AddChild(n, value, t);
    match ChildIndex(cs, Head(value))
    case Some(k) =>
      assert r.children[k] in r.children;
      if Rest(value) != "" {
        AddChildNamedBefore(cs[k], Rest(value), t);
      }
      forall c | c in cs
        ensures Named(c)
      {
        var i :| 0 <= i < |cs| && cs[i] == c;
        if i != k {
          assert r.children[i] == c;
        }
      }
    case None =>
      forall c | c in cs
        ensures Named(c)
      {
        InsortHas(cs, NewNode(value, t), c);
      }
  }

  /** `add_child` keeps every value non-empty exactly when the tree had only non-empty values and the path has no empty segment. */
  lemma AddChildNamedIff(n: Node, value: string, t: Template)
    requires Ordered(n)
    ensures Named(AddChild(n, value, t)) <==> Named(n) && NoEmptySegment(Path(value))
  {
    if Named(n) {
      AddChildNamed(n, value, t);
    } else if Named(AddChild(n, value, t)) {
      AddChildNamedBefore(n, value, t);
    }
  }

  /** The template below a child replaced by one with the same value and children is looked up in the old one. */
  lemma TemplateAtRetagged(c: Node, x: Option<Template>, path: seq<string>)
    requires path != []
    ensures TemplateAt(c.(template := x), path) == TemplateAt(c, path)
  {
  }

  lemma TemplateAtStep(n: Node, path: seq<string>, c: Node)
    requires path != [] && Lookup(n.children, path[0]) == Some(c)
    ensures TemplateAt(n, path) == TemplateAt(c, path[1..])
  {
  }

  lemma TemplateAtMissing(n: Node, path: seq<string>)
    requires path != [] && Lookup(n.children, path[0]).None?
    ensures TemplateAt(n, path).None?
  {
  }

  lemma TemplateAtSameLookup(n: Node, m: Node, path: seq<string>)
    requires path != [] && Lookup(n.children, path[0]) == Lookup(m.children, path[0])
    ensures TemplateAt(n, path) == TemplateAt(m, path)
  {
  }

  lemma {:induction false} AddChildBindsExisting(n: Node, value: string, t: Template, path: seq<string>, k: nat)
    requires Ordered(n) && path != []
    requires ChildIndex(n.children, Head(value)) == Some(k)
    requires Rest(value) != "" ==>
               TemplateAt(AddChild(n.children[k], Rest(value), t), path[1..])
               == if path[1..] == Path(Rest(value)) && TemplateAt(n.children[k], path[1..]).None? then Some(t)
                  else TemplateAt(n.children[k], path[1..])
    ensures TemplateAt(AddChild(n, value, t), path)
            == if path == Path(value) && TemplateAt(n, path).None? then Some(t) else TemplateAt(n, path)
  {
    var cs := n.children;
    var child := cs[k];
    var head := Head(value);
    var r := AddChild(n, value, t);
    var c := r.children[k];
    assert r.children == cs[k := c];
    ChildIndexAgrees(cs, head);
    assert Lookup(cs, head) == Some(child);
    ReplaceLookup(cs, k, c, path[0]);
    SameSegments(path, Path(value));
    if path[0] != head {
      TemplateAtSameLookup(r, n, path);
    } else {
      TemplateAtStep(r, path, c);
      TemplateAtStep(n, path, child);
      if Rest(value) != "" {
        assert Path(value)[1..] == Path(Rest(value));
      } else {
        assert Path(value)[1..] == [];
        assert c == if child.template.None? then child.(template := Some(t)) else child;
        BindHere(child, t, path[1..]);
      }
    }
  }

  /** Binding `t` at a node that may already have a template: only the node itself can change, and only if it had none. */
  lemma BindHere(child: Node, t: Template, path: seq<string>)
    ensures var c := if child.template.None? then child.(template := Some(t)) else child;
            TemplateAt(c, path) == if path == [] && TemplateAt(child, path).None? then Some(t) else TemplateAt(child, path)
  {
    if path != [] {
      TemplateAtRetagged(child, Some(t), path);
    }
  }

  lemma AddChildBindsNew(n: Node, value: string, t: Template, path: seq<string>)
    requires Ordered(n) && path != []
    requires ChildIndex(n.children, Head(value)).None?
    ensures TemplateAt(AddChild(n, value, t), path)
            == if path == Path(value) && TemplateAt(n, path).None? then Some(t) else TemplateAt(n, path)
  {
    var cs, head := n.children, Head(value);
    var x := NewNode(value, t);
    var r := AddChild(n, value, t);
    assert r.children == Insort(cs, x);
    ChildIndexAgrees(cs, head);
    InsortLookup(cs, x, path[0]);
    SameSegments(path, Path(value));
    if path[0] == head {
      TemplateAtStep(r, path, x);
      NewNodeTemplateAt(value, t, path[1..]);
      TemplateAtMissing(n, path);
    } else {
      TemplateAtSameLookup(r, n, path);
    }
  }

  /**
   * First registration wins: after `add_child`, the end of the path of
   * `value` carries `t` if it carried no template before, and every other
   * path keeps the template it had.
   */
  lemma {:induction false} AddChildBinds(n: Node, value: string, t: Template, path: seq<string>)
    requires Ordered(n)
    ensures TemplateAt(AddChild(n, value, t), path)
            == if path == Path(value) && TemplateAt(n, path).None? then Some(t) else TemplateAt(n, path)
    decreases |value|
  {
    if path != [] {
      match ChildIndex(n.children, Head(value))
      case Some(k) =>
        assert n.children[k] in n.children;
        if Rest(value) != "" {
          AddChildBinds(n.children[k], Rest(value), t, path[1..]);
        }
        AddChildBindsExisting(n, value, t, path, k);
      case None =>
        AddChildBindsNew(n, value, t, path);
    }
  }

  // ---------------------------------------------------------------------------
  // check_tree and get_tuple_tree
  // ---------------------------------------------------------------------------

  /**
   * `node.check_tree()` passes: a non-empty value, a template or children,
   * `children == sorted(children)` (which, with `__cmp__` as equality, says
   * the children are non-decreasing), distinct and non-empty child values,
   * and the same for every child.
   */
  predicate CheckTree(n: Node)
    decreases n
  {
    && n.value != ""
    && (n.template.Some? || n.children != [])
    && Sorted(n.children)
    && DistinctValues(n.children)
    && (forall i :: 0 <= i < |n.children| ==> n.children[i].value != "")
    && forall c :: c in n.children ==> CheckTree(c)
  }

  /** The check passes exactly on trees that are ordered, populated and named. */
  lemma {:induction false} CheckTreeMeaning(n: Node)
    ensures CheckTree(n) <==> Ordered(n) && Populated(n) && Named(n)
    decreases n
  {
    IncreasingIsSortedDistinct(n.children);
    forall c | c in n.children
      ensures CheckTree(c) <==> Ordered(c) && Populated(c) && Named(c)
    {
      CheckTreeMeaning(c);
    }
    if Named(n) {
      forall i | 0 <= i < |n.children|
        ensures n.children[i].value != ""
      {
        assert n.children[i] in n.children;
        assert Named(n.children[i]);
      }
    }
  }

  /** The nested tuples `get_tuple_tree` returns: `(value, template string)` for a leaf, `(value, children)` otherwise. */
  datatype Shape = Leaf(value: string, pattern: string) | Branch(value: string, children: seq<Shape>)

  /** `node.get_tuple_tree()`, or `None` where it raises because a leaf has no template. */
  function TupleTree(n: Node): (r: Option<Shape>)
    ensures r.Some? ==> r.value.value == n.value
    ensures r.Some? ==> (r.value.Leaf? <==> n.children == [])
    decreases n, 1
  {
    if n.children != [] then
      match TupleTrees(n.children)
      case None => None
      case Some(shapes) => Some(Branch(n.value, shapes))
    else if n.template.Some? then Some(Leaf(n.value, n.template.value.template))
    else None
  }

  /** `get_tuple_tree` of each node of `cs`, in order, or `None` if one of them raises. */
  function TupleTrees(cs: seq<Node>): (r: Option<seq<Shape>>)
    ensures r.Some? ==> |r.value| == |cs|
    decreases cs, 0
  {
    if cs == [] then Some([])
    else
      match TupleTree(cs[0])
      case None => None
      case Some(s) =>
        match TupleTrees(cs[1..])
        case None => None
        case Some(rest) => Some([s] + rest)
  }

  /** `get_tuple_tree` succeeds exactly on trees in which every node has a template or children. */
  lemma {:induction false} TupleTreeDefined(n: Node)
    ensures TupleTree(n).Some? <==> Populated(n)
    decreases n, 1
  {
    TupleTreesDefined(n.children);
  }

  lemma {:induction false} TupleTreesDefined(cs: seq<Node>)
    ensures TupleTrees(cs).Some? <==> forall c :: c in cs ==> Populated(c)
    decreases cs, 0
  {
    if cs != [] {
      TupleTreeDefined(cs[0]);
      TupleTreesDefined(cs[1..]);
      assert forall c :: c in cs <==> c == cs[0] || c in cs[1..];
    }
  }

  // ---------------------------------------------------------------------------
  // find_match
  // ---------------------------------------------------------------------------

  /**
   * `node.find_match(name)`: follow the exact child of the first segment,
   * else the last child if it is `*`, and return the node reached when the
   * name runs out; failing both, the node itself if it has a template, else
   * `None`. A descent that fails is not retried another way.
   */
  function FindMatch(n: Node, name: string): (r: Option<Node>)
    decreases |name|
  {
    var head := Head(name);
    var rest := Rest(name);
    match ChildIndex(n.children, head)
    case Some(k) =>
      if rest != "" then FindMatch(n.children[k], rest) else Some(n.children[k])
    case None =>
      if n.children != [] && n.children[|n.children| - 1].value == "*" then
        var wildcard := n.children[|n.children| - 1];
        if rest != "" then FindMatch(wildcard, rest) else Some(wildcard)
      else if n.template.Some? then Some(n)
      else None
  }

  /**
   * The same walk stated with plain searches by value: the child named by
   * the first segment if there is one, else the child named `*`, else the
   * node itself if it has a template.
   */
  function Matching(n: Node, name: string): Option<Node>
    decreases |name|
  {
    var exact := Lookup(n.children, Head(name));
    var next := if exact.Some? then exact else Lookup(n.children, "*");
    match next
    case Some(c) => if Rest(name) != "" then Matching(c, Rest(name)) else Some(c)
    case None => if n.template.Some? then Some(n) else None
  }

  /** In strictly increasing children a child named `*` can only be the last one. */
  lemma WildcardLast(cs: seq<Node>)
    requires Increasing(cs)
    ensures Lookup(cs, "*") == if cs != [] && cs[|cs| - 1].value == "*" then Some(cs[|cs| - 1]) else None
  {
    if cs != [] && cs[|cs| - 1].value == "*" {
      LookupDistinct(cs, |cs| - 1);
    }
  }

  /** On an ordered tree the binary-search walk and the walk by value agree. */
  lemma {:induction false} FindMatchIsMatching(n: Node, name: string)
    requires Ordered(n)
    ensures FindMatch(n, name) == Matching(n, name)
    decreases |name|
  {
    var cs := n.children;
    ChildIndexAgrees(cs, Head(name));
    WildcardLast(cs);
    if Rest(name) != "" {
      match Lookup(cs, Head(name))
      case Some(c) =>
        FindMatchIsMatching(c, Rest(name));
      case None =>
        if Lookup(cs, "*").Some? {
          FindMatchIsMatching(Lookup(cs, "*").value, Rest(name));
        }
    }
  }
}
