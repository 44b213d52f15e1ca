/**
 * `NameParser` of bucky/templates.py: compiles the configured template
 * lines, registers them in a filter tree under their match patterns,
 * always adds the catch-all rule `* measurement*`, checks the tree, and
 * routes metric names through it.
 */
module NameParsers {
  import opened Wrappers
  import opened Strings
  import opened Templates
  import opened FilterTree

  /** Why constructing a `NameParser` fails: a line raises `ProtocolError`, or `check_tree` raises `AssertionError`. */
  datatype ParserError = Protocol(error: ProtocolError) | TreeCheckFailed

  /** Why routing a name fails: the node found has no template, and `''.process` raises `AttributeError`. */
  datatype RouteError = TemplateMissing

  /** `Template('* measurement*')`: the default separator and no global tags. */
  const CatchAll: Template := Template("*", ".", map[], "measurement*")

  /** `Node('ROOT', '')`. */
  const Root: Node := Node("ROOT", None, [])

  /** What the comprehension keeps of one line: nothing for `''`, the stripped line otherwise. */
  function PrepareLine(line: string): seq<string> {
    if line == "" then [] else [Strip(line)]
  }

  /** `[line.strip() for line in lines if line]`: only the empty string is dropped. */
  function Prepare(lines: seq<string>): seq<string>
  {
    if lines == [] then []
    else Prepare(lines[..|lines| - 1]) + PrepareLine(lines[|lines| - 1])
  }

  /** The outcome of `Template(line, separator, tags)` for each line. */
  function Outcomes(lines: seq<string>, separator: string, tags: Tags): (r: seq<Result<Template, ProtocolError>>)
    ensures |r| == |lines|
    ensures forall i :: 0 <= i < |lines| ==> r[i] == ParseTemplate(lines[i], separator, tags)
  {
    seq(|lines|, i requires 0 <= i < |lines| => ParseTemplate(lines[i], separator, tags))
  }

  /** The templates of a list of outcomes in order, or the error of the first outcome that is one. */
  function FirstError(rs: seq<Result<Template, ProtocolError>>): Result<seq<Template>, ProtocolError>
  {
    if rs == [] then Ok([])
    else
      match FirstError(rs[..|rs| - 1])
      case Err(e) => Err(e)
      case Ok(ts) =>
        match rs[|rs| - 1]
        case Err(e) => Err(e)
        case Ok(t) => Ok(ts + [t])
  }

  /** Compiling the lines one after the other: the templates, or the error of the first line that raises. */
  function CompileAll(lines: seq<string>, separator: string, tags: Tags): Result<seq<Template>, ProtocolError>
  {
    FirstError(Outcomes(lines, separator, tags))
  }

  /** `add_child(template.match, template)` for each compiled template in turn. */
  function Register(n: Node, ts: seq<Template>): Node
  {
    if ts == [] then n
    else
      var last := ts[|ts| - 1];
      AddChild(Register(n, ts[..|ts| - 1]), last.matchPattern, last)
  }

  /** The filter tree for the compiled templates, with the catch-all rule added last. */
  function BuildTree(ts: seq<Template>): Node {
    AddChild(Register(Root, ts), "*", CatchAll)
  }

  /** What `NameParser(lines, separator, tags)` builds, or the error it raises. */
  function Configure(lines: seq<string>, separator: string, tags: Tags): Result<NameParser, ParserError>
  {
    match CompileAll(Prepare(lines), separator, tags)
    case Err(e) => Err(Protocol(e))
    case Ok(ts) =>
      if CheckTree(BuildTree(ts)) then Ok(NameParser(BuildTree(ts))) else Err(TreeCheckFailed)
  }

  /**
   * `NameParser.process(name)`: `(name, {})` when `find_match` finds no
   * node, the error when the node found has no template, and otherwise the
   * node's template applied to the name.
   */
  function Route(tree: Node, name: string): Result<(string, Tags), RouteError>
  {
    match FindMatch(tree, name)
    case None => Ok((name, map[]))
    case Some(node) =>
      if node.template.None? then Err(TemplateMissing) else Ok(Apply(node.template.value, name))
  }

  /** A constructed name parser: the filter tree it routes names through. */
  datatype NameParser = NameParser(filterTree: Node)
  {
    /** `NameParser.process(name)` (also `NameParser.__call__`). */
    method Process(name: string) returns (r: Result<(string, Tags), RouteError>)
      ensures r == Route(filterTree, name)
    {
      var node := FindMatch(filterTree, name);
      if node.None? {
        return Ok((name, map[]));
      }
      if node.value.template.None? {
        return Err(TemplateMissing);
      }
      var measurement, tags := node.value.template.value.Process(name);
      r := Ok((measurement, tags));
    }
  }

  /** `NameParser.__init__`: compiles and registers the lines one at a time, then adds the catch-all and checks the tree. */
  method New(lines: seq<string>, separator: string, tags: Tags) returns (r: Result<NameParser, ParserError>)
    ensures r == Configure(lines, separator, tags)
  {
    var prepared := Prepare(lines);
    var registered := RegisterLines(prepared, separator, tags);
    if registered.Err? {
      ConfigureFails(lines, separator, tags);
      return Err(Protocol(registered.error));
    }
    ghost var ts := CompileAll(prepared, separator, tags).value;
    var tree := AddChild(registered.value, "*", CatchAll);
    ConfigureBuilds(lines, separator, tags, ts);
    if !CheckTree(tree) {
      return Err(TreeCheckFailed);
    }
    r := Ok(NameParser(tree));
  }

  /** The loop of `NameParser.__init__`: each line compiled and its template registered, until a line raises. */
  method RegisterLines(prepared: seq<string>, separator: string, tags: Tags) returns (r: Result<Node, ProtocolError>)
    ensures CompileAll(prepared, separator, tags).Err? ==> r == Err(CompileAll(prepared, separator, tags).error)
    ensures CompileAll(prepared, separator, tags).Ok? ==> r == Ok(Register(Root, CompileAll(prepared, separator, tags).value))
  {
    var tree := Root;
    ghost var ts: seq<Template> := [];
    var i := 0;
    while i < |prepared|
      invariant 0 <= i <= |prepared|
      invariant FirstError(Outcomes(prepared, separator, tags)[..i]) == Ok(ts)
      invariant tree == Register(Root, ts)
    {
      var template := Compile(prepared[i], separator, tags);
      CompileStep(prepared, separator, tags, i, ts, template);
      if template.Err? {
        return Err(template.error);
      }
      RegisterAppend(Root, ts, template.value);
      tree := AddChild(tree, template.value.matchPattern, template.value);
      ts := ts + [template.value];
      i := i + 1;
    }
    assert Outcomes(prepared, separator, tags)[..i] == Outcomes(prepared, separator, tags);
    r := Ok(tree);
  }

  lemma CompileStep(prepared: seq<string>, separator: string, tags: Tags, i: nat, ts: seq<Template>,
                    r: Result<Template, ProtocolError>)
    requires i < |prepared|
    requires FirstError(Outcomes(prepared, separator, tags)[..i]) == Ok(ts)
    requires r == ParseTemplate(prepared[i], separator, tags)
    ensures r.Err? ==> CompileAll(prepared, separator, tags) == Err(r.error)
    ensures r.Ok? ==> FirstError(Outcomes(prepared, separator, tags)[..i + 1]) == Ok(ts + [r.value])
  {
    var outcomes := Outcomes(prepared, separator, tags);
    assert outcomes[..i + 1][..i] == outcomes[..i];
    assert outcomes[i] == r;
    if r.Err? {
      FirstErrorSticks(outcomes, i + 1);
    }
  }

  lemma RegisterAppend(n: Node, ts: seq<Template>, t: Template)
    ensures Register(n, ts + [t]) == AddChild(Register(n, ts), t.matchPattern, t)
  {
    assert (ts + [t])[..|ts|] == ts;
  }

  lemma ConfigureFails(lines: seq<string>, separator: string, tags: Tags)
    requires CompileAll(Prepare(lines), separator, tags).Err?
    ensures Configure(lines, separator, tags) == Err(Protocol(CompileAll(Prepare(lines), separator, tags).error))
  {
  }

  lemma ConfigureBuilds(lines: seq<string>, separator: string, tags: Tags, ts: seq<Template>)
    requires CompileAll(Prepare(lines), separator, tags) == Ok(ts)
    ensures Configure(lines, separator, tags)
            == if CheckTree(BuildTree(ts)) then Ok(NameParser(BuildTree(ts))) else Err(TreeCheckFailed)
  {
  }

  /** Once a prefix of the outcomes has an error, the whole list has the same first error. */
  lemma {:induction false} FirstErrorSticks(rs: seq<Result<Template, ProtocolError>>, i: nat)
    requires i <= |rs|
    requires FirstError(rs[..i]).Err?
    ensures FirstError(rs) == FirstError(rs[..i])
    decreases |rs| - i
  {
    if i < |rs| {
      var longer := rs[..i + 1];
      assert longer[..|longer| - 1] == rs[..i];
      FirstErrorSticks(rs, i + 1);
    } else {
      assert rs[..i] == rs;
    }
  }
}

/** What constructing a name parser and routing names through it promise. */
module NameParserProperties {
  import opened Wrappers
  import opened Strings
  import opened Templates
  import opened TemplateProperties
  import opened FilterTree
  import opened NameParsers

  // ---------------------------------------------------------------------------
  // Preparing and compiling the lines
  // ---------------------------------------------------------------------------

  /**
   * Preparing works line by line: the prepared lines are the non-empty
   * lines stripped, in order. A line of whitespace only is kept (and then
   * fails to compile); only `''` is dropped.
   */
  lemma {:induction false} PrepareConcat(a: seq<string>, b: seq<string>)
    ensures Prepare(a + b) == Prepare(a) + Prepare(b)
    decreases |b|
  {
    if b == [] {
      assert a + b == a;
    } else {
      var init, line := b[..|b| - 1], b[|b| - 1];
      var ab := a + b;
      LastOfConcat(a, b);
      assert Prepare(ab) == Prepare(a + init) + PrepareLine(line);
      PrepareConcat(a, init);
      assert Prepare(b) == Prepare(init) + PrepareLine(line);
      Associative(Prepare(a), Prepare(init), PrepareLine(line));
    }
  }

  /** Dropping the last element of `a + b`, for non-empty `b`, drops the last element of `b`. */
  lemma LastOfConcat<T>(a: seq<T>, b: seq<T>)
    requires b != []
    ensures (a + b)[..|a + b| - 1] == a + b[..|b| - 1] && (a + b)[|a + b| - 1] == b[|b| - 1]
  {
  }

  lemma Associative<T>(x: seq<T>, y: seq<T>, z: seq<T>)
    ensures (x + y) + z == x + (y + z)
  {
  }

  lemma PrepareSnoc(lines: seq<string>, line: string)
    ensures Prepare(lines + [line]) == Prepare(lines) + PrepareLine(line)
  {
    assert (lines + [line])[..|lines|] == lines;
  }

  lemma PrepareOne(line: string)
    ensures Prepare([line]) == if line == "" then [] else [Strip(line)]
  {
    assert [line][..0] == [];
  }

  /** A line that fails to compile. */
  predicate Fails(line: string, separator: string, tags: Tags) {
    ParseTemplate(line, separator, tags).Err?
  }

  /**
   * The outcomes succeed together exactly when each one does, giving their
   * templates in order; otherwise the error is that of the first failing one.
   */
  lemma {:induction false} FirstErrorMeaning(rs: seq<Result<Template, ProtocolError>>)
    ensures FirstError(rs).Ok? <==> forall i :: 0 <= i < |rs| ==> rs[i].Ok?
    ensures FirstError(rs).Ok? ==>
              |FirstError(rs).value| == |rs| && forall i :: 0 <= i < |rs| ==> rs[i] == Ok(FirstError(rs).value[i])
    ensures FirstError(rs).Err? ==>
              exists i :: 0 <= i < |rs| && rs[i].Err? && (forall j :: 0 <= j < i ==> rs[j].Ok?) &&
                          FirstError(rs).error == rs[i].error
  {
    if rs != [] {
      var n := |rs|;
      var prefix := rs[..n - 1];
      FirstErrorMeaning(prefix);
      assert forall i :: 0 <= i < n - 1 ==> prefix[i] == rs[i];
      match FirstError(prefix)
      case Err(e) =>
        var i :| 0 <= i < |prefix| && prefix[i].Err? && (forall j :: 0 <= j < i ==> prefix[j].Ok?) &&
                 FirstError(prefix).error == prefix[i].error;
        assert rs[i].Err?;
      case Ok(ts) =>
    }
  }

  /**
   * Compiling the lines succeeds exactly when every line compiles, giving
   * one template per line in order; otherwise the error is that of the
   * first line that fails.
   */
  lemma CompileAllMeaning(lines: seq<string>, separator: string, tags: Tags)
    ensures CompileAll(lines, separator, tags).Ok? <==> forall i :: 0 <= i < |lines| ==> !Fails(lines[i], separator, tags)
    ensures CompileAll(lines, separator, tags).Ok? ==>
              |CompileAll(lines, separator, tags).value| == |lines| &&
              forall i :: 0 <= i < |lines| ==> ParseTemplate(lines[i], separator, tags) == Ok(CompileAll(lines, separator, tags).value[i])
    ensures CompileAll(lines, separator, tags).Err? ==>
              exists i :: 0 <= i < |lines| && Fails(lines[i], separator, tags) &&
                          (forall j :: 0 <= j < i ==> !Fails(lines[j], separator, tags)) &&
                          CompileAll(lines, separator, tags).error == ParseTemplate(lines[i], separator, tags).error
  {
    FirstErrorMeaning(Outcomes(lines, separator, tags));
  }

  /** A line that is not empty but holds only whitespace makes the construction fail, when every line before it compiles. */
  lemma BlankLineFails(lines: seq<string>, line: string, separator: string, tags: Tags)
    requires CompileAll(Prepare(lines), separator, tags).Ok?
    requires line != "" && Fields(line) == []
    ensures Configure(lines + [line], separator, tags) == Err(Protocol(InvalidTemplateLine(Strip(line))))
  {
    PrepareSnoc(lines, line);
    assert Prepare(lines + [line]) == Prepare(lines) + [Strip(line)];
    StripKeepsFields(line);
    FieldCount(Strip(line), separator, tags);
    CompileSnocFails(Prepare(lines), Strip(line), separator, tags);
  }

  /** A failing line after lines that all compile makes compiling fail with its error. */
  lemma CompileSnocFails(prepared: seq<string>, line: string, separator: string, tags: Tags)
    requires CompileAll(prepared, separator, tags).Ok?
    requires ParseTemplate(line, separator, tags).Err?
    ensures CompileAll(prepared + [line], separator, tags) == Err(ParseTemplate(line, separator, tags).error)
  {
    var rs := Outcomes(prepared + [line], separator, tags);
    assert rs[..|rs| - 1] == Outcomes(prepared, separator, tags);
  }

  // ---------------------------------------------------------------------------
  // The filter tree
  // ---------------------------------------------------------------------------

  /** The first of `ts` whose match pattern walks exactly `path`, if any. */
  function FirstFor(ts: seq<Template>, path: seq<string>): Option<Template>
  {
    if ts == [] then None
    else if Path(ts[0].matchPattern) == path then Some(ts[0])
    else FirstFor(ts[1..], path)
  }

  lemma {:induction false} FirstForAppend(ts: seq<Template>, t: Template, path: seq<string>)
    ensures FirstFor(ts + [t], path)
            == if FirstFor(ts, path).None? && Path(t.matchPattern) == path then Some(t) else FirstFor(ts, path)
  {
    if ts != [] {
      assert (ts + [t])[1..] == ts[1..] + [t];
      FirstForAppend(ts[1..], t, path);
    }
  }

  lemma {:induction false} RegisterOrdered(n: Node, ts: seq<Template>)
    requires Ordered(n)
    ensures Ordered(Register(n, ts))
  {
    if ts != [] {
      RegisterOrdered(n, ts[..|ts| - 1]);
      AddChildOrdered(Register(n, ts[..|ts| - 1]), ts[|ts| - 1].matchPattern, ts[|ts| - 1]);
    }
  }

  /**
   * First registration wins: below the root, the template at each path is
   * the first registered template whose match pattern walks that path.
   */
  lemma {:induction false} FirstRegistered(ts: seq<Template>, path: seq<string>)
    requires path != []
    ensures TemplateAt(Register(Root, ts), path) == FirstFor(ts, path)
  {
    if ts != [] {
      var prefix := ts[..|ts| - 1];
      var last := ts[|ts| - 1];
      var before := Register(Root, prefix);
      assert Register(Root, ts) == AddChild(before, last.matchPattern, last);
      FirstRegistered(prefix, path);
      RegisterOrdered(Root, prefix);
      AddChildBinds(before, last.matchPattern, last, path);
      FirstForSnoc(ts, path);
    }
  }

  /** `FirstForAppend` read from the far end of a non-empty list. */
  lemma FirstForSnoc(ts: seq<Template>, path: seq<string>)
    requires ts != []
    ensures var prefix, last := ts[..|ts| - 1], ts[|ts| - 1];
            FirstFor(ts, path) == if FirstFor(prefix, path).None? && Path(last.matchPattern) == path then Some(last) else FirstFor(prefix, path)
  {
    var prefix, last := ts[..|ts| - 1], ts[|ts| - 1];
    FirstForAppend(prefix, last, path);
    assert prefix + [last] == ts;
  }

  lemma {:induction false} RegisterPopulated(ts: seq<Template>)
    ensures forall c :: c in Register(Root, ts).children ==> Populated(c)
  {
    if ts != [] {
      var prefix := ts[..|ts| - 1];
      RegisterPopulated(prefix);
      AddChildPopulated(Register(Root, prefix), ts[|ts| - 1].matchPattern, ts[|ts| - 1]);
    }
  }

  /** Every match pattern walks only non-empty segments. */
  predicate PatternsNamed(ts: seq<Template>) {
    forall i :: 0 <= i < |ts| ==> NoEmptySegment(Path(ts[i].matchPattern))
  }

  lemma PatternsNamedStep(ts: seq<Template>)
    requires ts != []
    ensures PatternsNamed(ts) <==> PatternsNamed(ts[..|ts| - 1]) && NoEmptySegment(Path(ts[|ts| - 1].matchPattern))
  {
    var prefix := ts[..|ts| - 1];
    assert forall i :: 0 <= i < |prefix| ==> prefix[i] == ts[i];
  }

  lemma {:induction false} RegisterNamed(ts: seq<Template>)
    ensures Named(Register(Root, ts)) <==> PatternsNamed(ts)
  {
    if ts != [] {
      var prefix := ts[..|ts| - 1];
      var last := ts[|ts| - 1];
      assert Register(Root, ts) == AddChild(Register(Root, prefix), last.matchPattern, last);
      RegisterNamed(prefix);
      RegisterOrdered(Root, prefix);
      PatternsNamedStep(ts);
      AddChildNamedIff(Register(Root, prefix), last.matchPattern, last);
    }
  }

  lemma CatchAllPath()
    ensures Path("*") == ["*"]
  {
    assert '.' !in "*";
  }

  /** A line of two words compiles to the first as match pattern and the second as template. */
  lemma TwoWordLine(m: string, w: string, separator: string, tags: Tags)
    requires IsWord(m) && IsWord(w)
    ensures ParseTemplate(m + " " + w, separator, tags) == Ok(Template(m, separator, tags, w))
  {
    FieldsJoin([m, w]);
    assert Join([m, w], " ") == m + " " + w by {
      assert [m, w][1..] == [w];
    }
    MatchAndTemplate(m + " " + w, separator, tags);
  }

  /** The catch-all is what `Template('* measurement*')` compiles to: match `*`, separator `.`, no tags. */
  lemma CatchAllCompiled()
    ensures ParseTemplate("* measurement*", ".", map[]) == Ok(CatchAll)
  {
    assert IsWord("*") && IsWord("measurement*") by {
      assert forall i :: 0 <= i < |"measurement*"| ==> !IsSpace("measurement*"[i]);
    }
    assert "* measurement*" == "*" + " " + "measurement*";
    TwoWordLine("*", "measurement*", ".", map[]);
  }

  /**
   * The tree of compiled templates, with the catch-all added, is ordered
   * and populated; it is named exactly when no match pattern walks an empty
   * segment.
   */
  lemma BuiltTree(ts: seq<Template>)
    ensures Ordered(BuildTree(ts)) && Populated(BuildTree(ts))
    ensures Named(BuildTree(ts)) <==> PatternsNamed(ts)
  {
    RegisterOrdered(Root, ts);
    AddChildOrdered(Register(Root, ts), "*", CatchAll);
    RegisterPopulated(ts);
    AddChildPopulated(Register(Root, ts), "*", CatchAll);
    RegisterNamed(ts);
    CatchAllPath();
    AddChildNamedIff(Register(Root, ts), "*", CatchAll);
  }

  /**
   * Once every line compiles, construction succeeds exactly when no match
   * pattern walks an empty segment (`"a..b"`, `".a"` and `"."` do, and make
   * `check_tree` fail).
   */
  lemma ConfigureSucceeds(lines: seq<string>, separator: string, tags: Tags)
    requires CompileAll(Prepare(lines), separator, tags).Ok?
    ensures Configure(lines, separator, tags).Ok? <==> PatternsNamed(CompileAll(Prepare(lines), separator, tags).value)
  {
    var ts := CompileAll(Prepare(lines), separator, tags).value;
    BuiltTree(ts);
    CheckTreeMeaning(BuildTree(ts));
  }

  /**
   * A constructed parser's tree passes `check_tree`, and it registers the
   * first configured template for each path; at `*` that is the catch-all
   * when no configured line has the match pattern `*`.
   */
  lemma ConfiguredTree(lines: seq<string>, separator: string, tags: Tags, path: seq<string>)
    requires Configure(lines, separator, tags).Ok?
    requires path != []
    ensures CompileAll(Prepare(lines), separator, tags).Ok?
    ensures var tree := Configure(lines, separator, tags).value.filterTree;
            var ts := CompileAll(Prepare(lines), separator, tags).value;
            && CheckTree(tree) && Ordered(tree)
            && TemplateAt(tree, path) == FirstFor(ts + [CatchAll], path)
  {
    var ts := CompileAll(Prepare(lines), separator, tags).value;
    BuiltTree(ts);
    CheckTreeMeaning(BuildTree(ts));
    FirstRegistered(ts, path);
    RegisterOrdered(Root, ts);
    AddChildBinds(Register(Root, ts), "*", CatchAll, path);
    FirstForAppend(ts, CatchAll, path);
    CatchAllPath();
  }

  // ---------------------------------------------------------------------------
  // Routing
  // ---------------------------------------------------------------------------

  /** The catch-all rule hands a name back unchanged, with no tags: the same answer as when no node is found. */
  lemma CatchAllKeepsName(name: string)
    ensures Apply(CatchAll, name) == (name, map[])
  {
    var fields := Segments(name);
    assert Tokens(CatchAll) == ["measurement*"] by {
      SplitWithout("measurement*", '.');
    }
    assert Walked(CatchAll, name) == 1;
    assert MeasurementParts(Tokens(CatchAll), fields, 1) == fields[0..] == fields;
    JoinSplit(name, '.');
  }

  /**
   * Routing on an ordered tree, stated with plain searches by value: the
   * node the walk of `Matching` reaches decides, as in `Route`.
   */
  lemma RouteByValue(tree: Node, name: string)
    requires Ordered(tree)
    ensures Route(tree, name) == match Matching(tree, name)
                                 case None => Ok((name, map[]))
                                 case Some(node) =>
                                   if node.template.None? then Err(TemplateMissing) else Ok(Apply(node.template.value, name))
  {
    FindMatchIsMatching(tree, name);
  }
}
