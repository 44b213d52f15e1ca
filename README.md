# Metric-name templates of bucky

This project models the templating engine that bucky uses to turn a dotted
metric name into an InfluxDB `(measurement, tags)` pair. The engine is in
`bucky/templates.py` and has four parts.

- **`Template`** compiles one configuration line `[match] template [key=value,...]`.
  - It takes one to three whitespace-separated fields.
  - A missing match pattern defaults to `*`.
  - The tag fragments are laid over a copy of the global tags.
  - `process(name)` walks the template's dot-separated tokens and the
    name's dot-separated segments side by side. `measurement` and
    `measurement*` tokens collect measurement parts, and every other
    non-empty token binds a tag.
- **`Node`** is a sorted prefix tree over the segments of match patterns.
  - The children of a node are kept in `__cmp__` order with `*` last.
  - `find_child` binary-searches them.
  - `add_child` either builds a new chain of nodes or binds a template at an
    existing node; the first template registered for a path wins.
  - `find_match` descends the tree, preferring the exact child, then the
    wildcard child, then the node's own template.
  - `check_tree` asserts the tree's structural invariants.
  - `get_tuple_tree` renders the tree as nested tuples.
- **`NameParser`** strips and compiles the configured lines and registers
  each template under its match pattern. It always adds the catch-all rule
  `* measurement*`, checks the tree, and routes names through it.
- **`ProtocolError`** is raised for a malformed line or tag fragment.

Modules:

- `Wrappers`: `Option` and `Result`.
- `Strings`: the Python 2 string operations the engine uses:
  - `split(c)` and `split(c, 1)`;
  - `join`;
  - `split()` and `strip()` on ASCII whitespace.
- `Templates`: compiling and applying one template, as functions plus the
  loop-carrying methods `Compile` and `Template.Process`, which are proved
  equal to those functions.
- `TemplateProperties`: what compiling and applying promise.
- `FilterTree`:
  - the `Node` datatype;
  - the `__cmp__` order;
  - `bisect_left` and `bisect_right` as loops proved against their
    specifications;
  - `find_child`, `add_child` and `find_match`;
  - `check_tree` and `get_tuple_tree`;
  - the invariants `add_child` keeps.
- `NameParsers`: construction and routing, with the methods `New`,
  `RegisterLines` and `NameParser.Process` proved against the functions
  `Configure` and `Route`.
- `NameParserProperties`: what a constructed parser promises, including the
  tree invariants after the catch-all is added, and that the catch-all is
  what `Template('* measurement*')` compiles to.
- `TemplateScenarios` and `TreeScenarios`: the expected outputs of
  `tests/test_005_templates.py`.
  - The eight template-application cases are each proved twice: once for
    every template and name of the right shape, and once on the test's own
    strings.
  - For the filter tree, the shape of the `servers` branch is proved for
    every pair of segment names.
  - The tree of the lines `a.b ...` and `*.c ...` is built step by step
    and shows that `find_match` does not backtrack.

Errors are values:

- `ParseTemplate` returns `Err(InvalidTemplateLine(line))` or
  `Err(InvalidTagPart(fragment))` where the source raises `ProtocolError`.
- `Configure` returns `Err(Protocol(..))` for a line that raises, and
  `Err(TreeCheckFailed)` where `check_tree`'s `assert` fails.
- `Route` returns `Err(TemplateMissing)` where `NameParser.process` would
  call `.process` on the empty template `''` of a node.

A node without a template (the source's `''`) is `None`.

### Routing can fail

The catch-all `*` is always registered, but `find_match` never backtracks.

- A name can stop on an intermediate node that has no template; `process`
  then fails.
- A name can enter a branch that leads nowhere. `find_match` then returns
  `None`, and the name comes back unchanged with no tags, even if a
  wildcard path higher up would have matched.

`TreeScenarios.NoBacktracking` proves both outcomes on the tree the
constructor builds from the lines `a.b ...` and `*.c ...`.

## Model

| member | source | states |
|---|---|---|
| Strings.IsSpace | bucky/templates.py:114 | the definition: the six ASCII whitespace characters Python 2's `split()` and `strip()` use on byte strings |
| Strings.Split | bucky/templates.py:134 | `s.split(c)` has at least one piece and no piece contains `c` |
| Strings.SplitOnce | bucky/templates.py:17 | `s.split(c, 1)` is `[s]` exactly when `c` does not occur; otherwise it is the text before the first `c` (free of `c`) and the text after it, which put back together with `c` give `s` |
| Strings.SplitOnceAt | bucky/templates.py:17 | splitting once at the first occurrence of `c` gives the text before it and the text after it |
| Strings.Join | bucky/templates.py:146-148 | the definition of `sep.join(parts)`: the empty string for no parts, the one part alone, otherwise the parts with `sep` between them; `JoinSplit` and `SplitJoin` make it the inverse of `Split` |
| Strings.JoinSplit | bucky/templates.py:134 | joining the pieces of `s.split(c)` with `c` gives back `s` |
| Strings.SplitWithout | bucky/templates.py:134 | a string without `c` splits into itself alone |
| Strings.SplitAfterPiece | bucky/templates.py:134 | splitting `a + c + b`, where `a` has no `c`, gives `a` followed by the pieces of `b` |
| Strings.SplitJoin | bucky/templates.py:137 | splitting a join of `c`-free pieces on `c` gives back the pieces |
| Strings.WordEnd | bucky/templates.py:114 | the length of the leading run of non-whitespace, followed by whitespace or the end |
| Strings.Fields | bucky/templates.py:114 | every field of `s.split()` is a non-empty run of non-whitespace |
| Strings.WordEndAfterWord | bucky/templates.py:114 | a word followed by whitespace or the end ends where the word does |
| Strings.FieldsAfterWord | bucky/templates.py:114 | a word followed by whitespace or the end is the first field |
| Strings.FieldsJoin | bucky/templates.py:114 | `split()` undoes joining words with single spaces |
| Strings.LeadingSpaces | bucky/templates.py:114 | the count of leading whitespace characters, stopping at the first non-whitespace one |
| Strings.TrailingSpaces | bucky/templates.py:114 | the count of trailing whitespace characters, stopping at the last non-whitespace one |
| Strings.Strip | bucky/templates.py:114 | `strip()` leaves a string that is empty or starts and ends with non-whitespace |
| Strings.StripRemovesSpaces | bucky/templates.py:170 | `strip()` removes only whitespace, and only from the two ends |
| Strings.FieldsDropsLeadingSpaces | bucky/templates.py:114 | leading whitespace does not change the fields |
| Strings.WordEndBeforeSpaces | bucky/templates.py:114 | trailing whitespace does not move the end of the first word |
| Strings.FieldsDropsTrailingSpaces | bucky/templates.py:114 | trailing whitespace does not change the fields |
| Strings.DropLeadingKeepsFields | bucky/templates.py:114 | cutting off the leading whitespace keeps the fields |
| Strings.DropTrailingKeepsFields | bucky/templates.py:114 | cutting off the trailing whitespace keeps the fields |
| Strings.StripKeepsFields | bucky/templates.py:114 | `strip().split()` has the same fields as `split()` |
| Templates.TagPairs | bucky/templates.py:126-130 | the definition of the fragment loop: the pairs in order, or the error of the first fragment that does not split into exactly two on `=`; characterised by `TagPairsMeaning` |
| Templates.Override | bucky/templates.py:119-130 | the definition of assigning the pairs in order over the copied global tags; characterised key by key by `OverrideLookup` |
| Templates.ParseTemplate | bucky/templates.py:112-130 | the definition of `Template(line, separator, global_tags)`; `Templates.Compile` is proved equal to it, and `FieldCount`, `MatchAndTemplate`, `ThreeFields` and `TagField` characterise it |
| Templates.Apply | bucky/templates.py:132-148 | the definition of `template.process(name)`; `Templates.Template.Process` is proved equal to it, and `Measurement`, `TagsOfName` and `TrailingTokensIgnored` characterise it |
| Templates.Template.Process | bucky/templates.py:132-148 | the loop over the template tokens returns exactly `Apply(this, name)`: measurement parts and tags position by position, the walk cut off at the shorter of the two, and the whole name when no part was collected |
| Templates.WalkStep | bucky/templates.py:137-145 | one more position adds that token's contribution to the parts, and binds the aligned segment when the token is a tag key |
| Templates.Compile | bucky/templates.py:112-130 | the constructor with its loop over the tag fragments yields exactly `ParseTemplate(line, separator, globalTags)`: the template, or the `ProtocolError` the source raises |
| Templates.TagPairsErrorSticks | bucky/templates.py:126-129 | once a fragment has raised, later fragments do not change the outcome |
| TemplateProperties.TagPairsMeaning | bucky/templates.py:126-130 | the tag fragments succeed exactly when each splits on `=` into exactly two pieces. The pairs are then those two pieces of each fragment, in order. Otherwise the error names the first bad fragment |
| TemplateProperties.TagPairsStep | bucky/templates.py:126-130 | the meaning of the fragment loop survives one more fragment |
| TemplateProperties.TagPairsErrStep | bucky/templates.py:126-129 | an error among the earlier fragments stays the first error |
| TemplateProperties.TagPairsGoodStep | bucky/templates.py:126-130 | a well-formed fragment after well-formed ones adds its own key and value as the next pair |
| TemplateProperties.TagPairsBadStep | bucky/templates.py:126-129 | a malformed fragment after well-formed ones is the first error |
| TemplateProperties.OverrideLookup | bucky/templates.py:119-130 | after the fragments are laid over the global tags, a key is present exactly when it was global or assigned; an assigned key holds its last assignment; an unassigned global keeps its value |
| TemplateProperties.AssignsSnoc | bucky/templates.py:126-130 | a key is assigned by a list of pairs exactly when it is assigned by all but the last or is the last pair's key |
| TemplateProperties.FieldCount | bucky/templates.py:114-116 | a line is refused with `InvalidTemplateLine(line)` exactly when its count of non-empty whitespace fields is not between 1 and 3 |
| TemplateProperties.MatchAndTemplate | bucky/templates.py:117-124 | one field gives match `*` and that field as template; two or three fields give match `parts[0]` and template `parts[1]`; the separator is kept, and without a tag field the tags are the global tags |
| TemplateProperties.ThreeFields | bucky/templates.py:125-130 | with three fields the line compiles or fails exactly as its tag field does, with the global tags overridden by the pairs |
| TemplateProperties.TagField | bucky/templates.py:119-130 | with three fields, compilation succeeds exactly when every fragment is `key=value`; otherwise the error is `InvalidTagPart` of the first bad fragment; on success the tags are the global tags overridden in order |
| TemplateProperties.ExtractTagsLookup | bucky/templates.py:136-145 | after `n` positions, a key is tagged exactly when it was a fixed tag or a walked tag token names it; the last such position gives its segment; an unnamed fixed tag keeps its value |
| TemplateProperties.NoMeasurementParts | bucky/templates.py:140-143 | no part is collected exactly when no walked token is `measurement` or `measurement*` |
| TemplateProperties.ContributionEmpty | bucky/templates.py:140-143 | a token contributes no part exactly when it is neither `measurement` nor `measurement*`; `measurement*` always contributes at least one segment |
| TemplateProperties.HasMeasurementTokenStep | bucky/templates.py:140-143 | a measurement token occurs among the first `n` tokens exactly when it occurs among the first `n - 1` or is token `n - 1` |
| TemplateProperties.Measurement | bucky/templates.py:146-148 | the measurement is the whole name's segments joined by the separator when no measurement token was walked, and otherwise the collected (non-empty) parts joined by the separator |
| TemplateProperties.FallbackIsName | bucky/templates.py:146-148 | with the default separator, a template without any measurement token gives back the name itself as measurement |
| TemplateProperties.TagsOfName | bucky/templates.py:136-145 | `process` tags a key exactly when it is a fixed tag or a walked tag token names it; the last such position wins, even after `measurement*`; an unnamed fixed tag keeps its value |
| TemplateProperties.PartsUseOnlyPrefix | bucky/templates.py:137-139 | the parts and tags of the first `m` positions depend only on the first `m` tokens |
| TemplateProperties.TrailingTokensIgnored | bucky/templates.py:137-139 | template tokens past the name's last segment are never read: cutting them off gives the same measurement and tags |
| FilterTree.Head | bucky/templates.py:17-18 | the first segment of a value contains no dot |
| FilterTree.Rest | bucky/templates.py:17-19 | the remainder is empty when there is no dot; otherwise the value is first segment, dot, remainder; the remainder is shorter than the value |
| FilterTree.Path | bucky/templates.py:17-23 | the segments walked for a value start with its first segment |
| FilterTree.StrCmp | bucky/templates.py:73 | Python 2 `cmp` on strings is -1, 0 or 1, and 0 exactly on equal strings |
| FilterTree.Compare | bucky/templates.py:67-73 | `__cmp__` is -1, 0 or 1, and 0 exactly on equal values |
| FilterTree.StrCmpAntisymmetric | bucky/templates.py:73 | swapping the arguments of `cmp` negates the result |
| FilterTree.StrCmpTransitive | bucky/templates.py:73 | `cmp` order on strings is transitive |
| FilterTree.CompareAntisymmetric | bucky/templates.py:67-73 | swapping the arguments of `__cmp__` negates the result |
| FilterTree.CompareTransitive | bucky/templates.py:67-73 | `__cmp__` is a transitive strict order |
| FilterTree.WildcardIsGreatest | bucky/templates.py:69-72 | every value other than `*` sorts before `*` |
| FilterTree.AtMostNotBelow | bucky/templates.py:67-73 | at-most is exactly not-greater |
| FilterTree.AtMostTransitive | bucky/templates.py:67-73 | the non-strict order is transitive |
| FilterTree.BelowAtMost | bucky/templates.py:67-73 | below then at-most is below |
| FilterTree.AtMostBelow | bucky/templates.py:67-73 | at-most then below is below |
| FilterTree.IncreasingIsSortedDistinct | bucky/templates.py:96-97 | strictly increasing children are exactly sorted children with distinct values |
| FilterTree.LeftPoint | bucky/templates.py:43 | the `bisect_left` point: everything before it is below the value, and the child at it is not |
| FilterTree.RightPoint | bucky/templates.py:38 | the `bisect_right` point: everything before it is at most the value, and the child at it is above |
| FilterTree.LeftPointPartitions | bucky/templates.py:43 | in sorted children, nothing from the `bisect_left` point on is below the value |
| FilterTree.RightPointPartitions | bucky/templates.py:38 | in sorted children, everything from the `bisect_right` point on is above the value |
| FilterTree.LeftPointIs | bucky/templates.py:43 | an index with the `bisect_left` property is the `bisect_left` point |
| FilterTree.RightPointIs | bucky/templates.py:38 | an index with the `bisect_right` property is the `bisect_right` point |
| FilterTree.BisectLeft | bucky/templates.py:43 | the binary search loop on sorted children returns the `bisect_left` point |
| FilterTree.BisectRight | bucky/templates.py:38 | the binary search loop on sorted children returns the `bisect_right` point |
| FilterTree.Lookup | bucky/templates.py:41-47 | the search by value finds nothing exactly when no child has the value, and otherwise a child with that value |
| FilterTree.LookupDistinct | bucky/templates.py:41-47 | with distinct values, searching a child's value finds that child |
| FilterTree.ChildIndex | bucky/templates.py:41-47 | `find_child`'s index, when present, holds a child with the value |
| FilterTree.ChildIndexAgrees | bucky/templates.py:41-47 | on sorted children, the binary search of `find_child` finds the same child as a linear search by value |
| FilterTree.LookupFirst | bucky/templates.py:41-47 | the first child with the value is the one found |
| FilterTree.FindChild | bucky/templates.py:41-47 | `find_child` with a `bisect_left` loop returns the child with that value, or none |
| FilterTree.Insort | bucky/templates.py:38 | `insort` adds exactly the new child to the children |
| FilterTree.InsortInto | bucky/templates.py:38 | `insort` with a `bisect_right` loop inserts at the `bisect_right` point |
| FilterTree.InsortIncreasing | bucky/templates.py:38 | inserting a child with a new value keeps the children strictly increasing |
| FilterTree.InsortLookup | bucky/templates.py:38 | after insertion the new value finds the new child and every other value finds what it found before |
| FilterTree.InsortHas | bucky/templates.py:38 | the children after insertion are the old children and the new one |
| FilterTree.ReplaceLookup | bucky/templates.py:32-34 | replacing a child by one of the same value changes only what that value finds |
| FilterTree.NewNode | bucky/templates.py:15-18 | `Node(value, template)` is named by the first segment of `value` |
| FilterTree.AddChild | bucky/templates.py:25-39 | `add_child` keeps the node's own value and template |
| FilterTree.NewNodeIsAddChild | bucky/templates.py:20-23 | the constructor's chain is what `add_child` of the remainder builds below a fresh node of the first segment |
| FilterTree.NewNodeOrdered | bucky/templates.py:15-23 | a freshly built chain is ordered |
| FilterTree.NewNodePopulated | bucky/templates.py:15-23 | every node of a fresh chain has a template or a child |
| FilterTree.NewNodeNamed | bucky/templates.py:15-23 | a fresh chain has only non-empty values exactly when its value walks no empty segment |
| FilterTree.NewNodeTemplateAt | bucky/templates.py:15-23 | a fresh chain carries its template at the end of the path of its value, and nowhere else |
| FilterTree.NewNodeLeafTemplateAt | bucky/templates.py:19-20 | a one-segment node carries the template itself and nothing below it |
| FilterTree.AddChildOrdered | bucky/templates.py:25-39 | `add_child` keeps every node's children strictly increasing |
| FilterTree.ReplaceHas | bucky/templates.py:32-34 | after replacing a child, every child is the replacement or an old child |
| FilterTree.AddChildPopulated | bucky/templates.py:25-39 | `add_child` keeps every node with a template or children |
| FilterTree.NoEmptySegmentCons | bucky/templates.py:17-19 | a path has no empty segment exactly when its first segment is non-empty and the rest has none |
| FilterTree.AddChildNamed | bucky/templates.py:25-39 | on a named tree, `add_child` keeps every value non-empty exactly when the added path has no empty segment |
| FilterTree.AddChildNamedBefore | bucky/templates.py:25-39 | a tree that is named after `add_child` was named before |
| FilterTree.AddChildNamedIff | bucky/templates.py:25-39 | after `add_child` the tree is named exactly when it was named and the added path has no empty segment |
| FilterTree.TemplateAtRetagged | bucky/templates.py:33-34 | rebinding a node's own template does not change any path below it |
| FilterTree.TemplateAtStep | bucky/templates.py:29-32 | the template at a path is the template at the rest of the path below the child of its first segment |
| FilterTree.TemplateAtMissing | bucky/templates.py:29-36 | a path whose first segment has no child carries no template |
| FilterTree.TemplateAtSameLookup | bucky/templates.py:29-32 | two nodes whose children agree on a path's first segment agree on the path |
| FilterTree.TemplateAt | bucky/templates.py:27-38 | the reference lookup: the template at the end of a path, following children by value; `AddChildBinds` and `FirstRegistered` state what `add_child` leaves there |
| FilterTree.AddChildBindsExisting | bucky/templates.py:29-34 | at an existing child, `add_child` binds the template at the end of the added path only if that node had none, and changes no other path |
| FilterTree.BindHere | bucky/templates.py:33-34 | binding at an existing node changes only that node's own template, and only when it had none |
| FilterTree.AddChildBindsNew | bucky/templates.py:35-38 | at a new child, `add_child` binds the template at the end of the added path and changes no other path |
| FilterTree.AddChildBinds | bucky/templates.py:25-39 | first registration wins: after `add_child` the added path carries the template if it carried none before, and every other path keeps its template |
| FilterTree.CheckTree | bucky/templates.py:91-100 | the definition of the five asserts of `check_tree`, applied at every node; `CheckTreeMeaning` proves it means ordered, populated and named |
| FilterTree.CheckTreeMeaning | bucky/templates.py:91-100 | `check_tree` passes exactly on trees that are ordered (children strictly increasing), populated (template or children) and named (non-empty values) |
| FilterTree.TupleTree | bucky/templates.py:102-106 | `get_tuple_tree` keeps the node's value and is a leaf exactly when the node has no children |
| FilterTree.TupleTrees | bucky/templates.py:104-105 | the tuple of children has one entry per child |
| FilterTree.TupleTreeDefined | bucky/templates.py:102-106 | `get_tuple_tree` succeeds exactly when every node has a template or children |
| FilterTree.TupleTreesDefined | bucky/templates.py:104-105 | the children's tuples succeed exactly when every child is populated |
| FilterTree.WildcardLast | bucky/templates.py:59-60 | in strictly increasing children, a child `*` can only be the last, so testing the last child finds it |
| FilterTree.FindMatch | bucky/templates.py:49-65 | the definition of `find_match`: the child `find_child` returns, else the last child if it is `*`, else the node if it has a template; no second try after a failed descent |
| FilterTree.Matching | bucky/templates.py:49-65 | the reference walk by value that `FindMatchIsMatching` proves equal to `FindMatch` on ordered trees |
| FilterTree.FindMatchIsMatching | bucky/templates.py:49-65 | on an ordered tree, `find_match` equals the walk by value: exact child, else `*` child, else the node itself if it has a template |
| NameParsers.Root | bucky/templates.py:171 | `Node('ROOT', '')`: the value `ROOT`, no template, no children |
| NameParsers.CatchAll | bucky/templates.py:176 | the catch-all rule; `CatchAllCompiled` proves it is what `Template('* measurement*')` compiles to |
| NameParsers.PrepareLine | bucky/templates.py:170 | the definition: nothing for `''`, the stripped line otherwise; `PrepareOne` states it |
| NameParsers.Prepare | bucky/templates.py:170 | the definition of the comprehension, line by line; `PrepareConcat` proves it is a map and filter over the lines |
| NameParsers.Outcomes | bucky/templates.py:172-174 | one compilation outcome per prepared line, each that line's `ParseTemplate` |
| NameParsers.NameParser.Process | bucky/templates.py:179-185 | `process` returns exactly `Route(filterTree, name)`: `(name, {})` with no node, `TemplateMissing` for a node without template, else that template applied |
| NameParsers.FirstError | bucky/templates.py:172-174 | the definition of stopping at the first raise; characterised by `FirstErrorMeaning` |
| NameParsers.CompileAll | bucky/templates.py:172-174 | the definition of compiling every prepared line in order; `CompileAllMeaning` states when it succeeds and which error it reports |
| NameParsers.Register | bucky/templates.py:172-175 | the definition of one `add_child(template.match, template)` per template in order; `RegisterOrdered`, `RegisterPopulated`, `RegisterNamed` and `FirstRegistered` state what it builds |
| NameParsers.BuildTree | bucky/templates.py:171-176 | the definition: the registered tree with the catch-all added under `*`; `BuiltTree` states its invariants |
| NameParsers.Configure | bucky/templates.py:160-177 | the definition of the constructor's outcome; `NameParsers.New` is proved equal to it, and `ConfigureSucceeds` and `ConfiguredTree` characterise it |
| NameParsers.Route | bucky/templates.py:179-185 | the definition of `NameParser.process`; `NameParser.Process` is proved equal to it, and `RouteByValue` restates it by value on ordered trees |
| NameParsers.New | bucky/templates.py:160-177 | the constructor returns exactly `Configure(lines, separator, tags)` |
| NameParsers.RegisterLines | bucky/templates.py:172-175 | the loop fails with the first line's error if one raises, and otherwise returns the root with every template registered in order |
| NameParsers.CompileStep | bucky/templates.py:172-175 | one more line either fixes the result as its error or appends its template |
| NameParsers.RegisterAppend | bucky/templates.py:175 | registering one more template is one more `add_child` |
| NameParsers.ConfigureFails | bucky/templates.py:172-174 | an unfolding of `Configure`: when compilation fails, construction fails with that `ProtocolError`; what makes compilation fail is stated by `CompileAllMeaning` |
| NameParsers.ConfigureBuilds | bucky/templates.py:171-177 | an unfolding of `Configure`: when every line compiles, construction succeeds exactly when `check_tree` passes on the tree with the catch-all added; when that holds is stated by `ConfigureSucceeds` and `BuiltTree` |
| NameParsers.FirstErrorSticks | bucky/templates.py:172-174 | once a line has raised, later lines do not change the outcome |
| NameParserProperties.PrepareConcat | bucky/templates.py:170 | preparing lines is done line by line |
| NameParserProperties.PrepareSnoc | bucky/templates.py:170 | preparing one more line appends its prepared form |
| NameParserProperties.PrepareOne | bucky/templates.py:170 | only the empty string is dropped; every other line is kept stripped |
| NameParserProperties.FirstErrorMeaning | bucky/templates.py:172-174 | compiling succeeds exactly when every outcome is a template. On success it gives the templates in order; otherwise it gives the first error |
| NameParserProperties.CompileAllMeaning | bucky/templates.py:172-174 | construction gets past compiling exactly when no line fails; otherwise it reports the first failing line's error |
| NameParserProperties.BlankLineFails | bucky/templates.py:170-174 | a whitespace-only line is kept, so it makes construction fail with `InvalidTemplateLine` of the stripped line |
| NameParserProperties.CompileSnocFails | bucky/templates.py:172-174 | a failing line after lines that all compile makes construction fail with that line's error |
| NameParserProperties.FirstForAppend | bucky/templates.py:29-34 | the first template for a path in a longer list is the earlier one, if any |
| NameParserProperties.FirstForSnoc | bucky/templates.py:29-34 | the first template for a path is the first among all but the last, else the last if its pattern walks that path |
| NameParserProperties.RegisterOrdered | bucky/templates.py:172-175 | registering templates keeps the tree ordered |
| NameParserProperties.FirstRegistered | bucky/templates.py:172-175 | below the root, each path carries the first registered template whose match pattern walks it |
| NameParserProperties.RegisterPopulated | bucky/templates.py:172-175 | after registration, every node below the root has a template or children |
| NameParserProperties.PatternsNamedStep | bucky/templates.py:172-175 | the patterns of a longer list walk no empty segment exactly when those of the shorter list and the last pattern do not |
| NameParserProperties.RegisterNamed | bucky/templates.py:172-175 | the registered tree has only non-empty values exactly when no match pattern walks an empty segment |
| NameParserProperties.CatchAllPath | bucky/templates.py:176 | the catch-all's match pattern walks the single segment `*` |
| NameParserProperties.BuiltTree | bucky/templates.py:176-177 | with the catch-all added, the tree is ordered and populated, and named exactly when no pattern walks an empty segment |
| NameParserProperties.ConfigureSucceeds | bucky/templates.py:176-177 | once every line compiles, construction succeeds exactly when no match pattern walks an empty segment |
| NameParserProperties.ConfiguredTree | bucky/templates.py:160-177 | a constructed parser's tree is ordered and binds each path to the first configured template for it, with the catch-all last (that it passes `check_tree` is an unfolding of `Configure`) |
| NameParserProperties.TwoWordLine | bucky/templates.py:114-124 | a line of two words compiles to the rule with the first as match pattern, the second as template, and the given separator and tags |
| NameParserProperties.CatchAllCompiled | bucky/templates.py:176 | `Template('* measurement*')` compiles to the catch-all: match `*`, template `measurement*`, separator `.`, no tags |
| NameParserProperties.CatchAllKeepsName | bucky/templates.py:176 | the catch-all rule returns the name unchanged and no tags |
| NameParserProperties.RouteByValue | bucky/templates.py:179-185 | on an ordered tree, routing follows the walk by value |
| TemplateScenarios.PlainIsCompiled | tests/test_005_templates.py:112 | `Template(pattern)` with one whitespace-free field is the rule with match `*`, separator `.`, no tags and that pattern |
| TemplateScenarios.JoinHasNoSpace | bucky/templates.py:114 | joining whitespace-free pieces with a whitespace-free separator gives a whitespace-free string |
| TemplateScenarios.DottedIsCompiled | tests/test_005_templates.py:112 | a non-empty dot-join of whitespace-free pieces, passed to `Template` alone, compiles to `Plain` of it |
| TemplateScenarios.Dotted | bucky/templates.py:134-137 | a string built by joining dot-free pieces with dots splits back into those pieces |
| TemplateScenarios.FirstSegmentOnly | tests/test_005_templates.py:76-81 | template `measurement` gives the first segment as measurement and the fixed tags |
| TemplateScenarios.SingleSeries | tests/test_005_templates.py:63-68 | template `measurement.hostname` on two segments gives the first as measurement and the second as `hostname` |
| TemplateScenarios.MultipleSeries | tests/test_005_templates.py:69-75 | template `measurement.region.hostname` on three segments gives the first as measurement and tags `region` and `hostname` |
| TemplateScenarios.ShorterName | tests/test_005_templates.py:82-87 | template `measurement.A.B.C` on a one-segment name gives the name and no added tags |
| TemplateScenarios.WildcardAtEnd | tests/test_005_templates.py:88-94 | template `env.zone.host.measurement*` gives the segments from the fourth on as measurement and three tags |
| TemplateScenarios.SkipFields | tests/test_005_templates.py:95-101 | template `.zone..measurement*` skips the empty tokens and binds only `zone` |
| TemplateScenarios.NoMeasurement | tests/test_005_templates.py:102-108 | template `host.metric` gives the whole name as measurement and two tags |
| TemplateScenarios.MetricOnlyCompiled | tests/test_005_templates.py:59 | `Template('measurement')` compiles to `Plain` of that pattern |
| TemplateScenarios.MetricOnlyPattern | tests/test_005_templates.py:59 | the template `measurement` has the one token `measurement` |
| TemplateScenarios.MetricOnlyName | tests/test_005_templates.py:58 | the name `cpu` has the one segment `cpu` |
| TemplateScenarios.MetricOnlyCase | tests/test_005_templates.py:57-61 | `Template('measurement').process('cpu')` is `cpu` and no tags |
| TemplateScenarios.SingleSeriesCompiled | tests/test_005_templates.py:65 | `Template('measurement.hostname')` compiles to `Plain` of that pattern |
| TemplateScenarios.SingleSeriesPattern | tests/test_005_templates.py:65 | the tokens of `measurement.hostname` |
| TemplateScenarios.SingleSeriesName | tests/test_005_templates.py:64 | the segments of `cpu.server01` |
| TemplateScenarios.SingleSeriesCase | tests/test_005_templates.py:63-68 | `Template(pattern).process(name)` is `cpu` with tag `hostname` = `server01` |
| TemplateScenarios.MultipleSeriesCompiled | tests/test_005_templates.py:72 | `Template('measurement.region.hostname')` compiles to `Plain` of that pattern |
| TemplateScenarios.MultipleSeriesPattern | tests/test_005_templates.py:72 | the tokens of `measurement.region.hostname` |
| TemplateScenarios.MultipleSeriesName | tests/test_005_templates.py:71 | the segments of `cpu.us-west.server01` |
| TemplateScenarios.MultipleSeriesCase | tests/test_005_templates.py:69-75 | `Template(pattern).process(name)` is `cpu` with tags `region` = `us-west` and `hostname` = `server01` |
| TemplateScenarios.IgnoreUnnamedName | tests/test_005_templates.py:78 | the segments of `foo.cpu` |
| TemplateScenarios.IgnoreUnnamedCase | tests/test_005_templates.py:76-81 | `Template('measurement').process('foo.cpu')` is `foo` and no tags |
| TemplateScenarios.ShorterNameCompiled | tests/test_005_templates.py:85 | `Template('measurement.A.B.C')` compiles to `Plain` of that pattern |
| TemplateScenarios.ShorterNamePattern | tests/test_005_templates.py:85 | the tokens of `measurement.A.B.C` |
| TemplateScenarios.ShorterNameName | tests/test_005_templates.py:84 | the name `foo` is one segment |
| TemplateScenarios.ShorterNameCase | tests/test_005_templates.py:82-87 | `Template(pattern).process(name)` is `foo` and no tags |
| TemplateScenarios.WildcardAtEndCompiled | tests/test_005_templates.py:91 | `Template('env.zone.host.measurement*')` compiles to `Plain` of that pattern |
| TemplateScenarios.WildcardAtEndPattern | tests/test_005_templates.py:91 | the tokens of `env.zone.host.measurement*` |
| TemplateScenarios.WildcardAtEndName | tests/test_005_templates.py:90 | the segments of `prod.us-west.server01.cpu.load` |
| TemplateScenarios.WildcardAtEndCase | tests/test_005_templates.py:88-94 | `Template(pattern).process(name)` is `cpu.load` with tags `env`, `zone` and `host` |
| TemplateScenarios.SkipFieldsCompiled | tests/test_005_templates.py:98 | `Template('.zone..measurement*')` compiles to `Plain` of that pattern |
| TemplateScenarios.SkipFieldsPattern | tests/test_005_templates.py:98 | the tokens of `.zone..measurement*`, two of them empty |
| TemplateScenarios.SkipFieldsName | tests/test_005_templates.py:97 | the segments of `ignore.us-west.ignore-this-too.cpu.load` |
| TemplateScenarios.SkipFieldsCase | tests/test_005_templates.py:95-101 | `Template(pattern).process(name)` is `cpu.load` with the single tag `zone` = `us-west` |
| TemplateScenarios.NoMeasurementCompiled | tests/test_005_templates.py:105 | `Template('host.metric')` compiles to `Plain` of that pattern |
| TemplateScenarios.NoMeasurementPattern | tests/test_005_templates.py:105 | the tokens of `host.metric` |
| TemplateScenarios.NoMeasurementName | tests/test_005_templates.py:104 | the segments of `localhost.cpu` |
| TemplateScenarios.NoMeasurementCase | tests/test_005_templates.py:102-108 | `Template(pattern).process(name)` is `localhost.cpu` with tags `host` = `localhost` and `metric` = `cpu` |
| TreeScenarios.HeadRest | bucky/templates.py:17-19 | `a.b` with dot-free `a` splits into `a` and `b` |
| TreeScenarios.OneSegment | bucky/templates.py:17-19 | a dot-free value is its own first segment with nothing after it |
| TreeScenarios.FirstLine | bucky/templates.py:15-38 | registering `s.x`, with `x` not empty, in the empty root builds the chain `s` then `x`, with the template at `x` |
| TreeScenarios.BesideWildcard | tests/test_005_templates.py:40-41 | registering `x` beside an existing `*` puts `x` first |
| TreeScenarios.SecondLine | tests/test_005_templates.py:39-42 | registering `s.x` after `s.*` descends into `s` and adds `x` before `*` |
| TreeScenarios.RegisterTwo | bucky/templates.py:172-175 | registering two templates is two `add_child` calls in order |
| TreeScenarios.BranchShape | tests/test_005_templates.py:39-42 | the tuple tree of the two-level tree is the branch `(s, ((x, ..), ('*', ..)))` |
| TreeScenarios.ServersBranch | tests/test_005_templates.py:9-42 | the lines `s.*` and `s.x` build the root with one child `s`, whose children are `x` and then `*`, and `get_tuple_tree` shows that shape |
| TreeScenarios.WildcardLine | bucky/templates.py:27-38 | registering `*.c` below a root whose only child is not `*` adds the chain `*` then `c` after that child |
| TreeScenarios.CatchAllBinds | bucky/templates.py:27-34 | adding the catch-all where the last child is a `*` without a template gives that node the catch-all and changes nothing else |
| TreeScenarios.TwoLinesBuild | bucky/templates.py:171-176 | the constructor's tree for the lines `a.b` and `*.c` (with `b` and `c` not empty) is exactly `TwoBranches`, with the catch-all at the `*` node |
| TreeScenarios.TwoBranchesOrdered | bucky/templates.py:67-73 | that tree is ordered, and its path `*.c` carries the template of `*.c` |
| TreeScenarios.StopsOnBranch | bucky/templates.py:54-58 | in that tree, the name `a` stops on the node `a`, which has no template, so processing fails |
| TreeScenarios.DeadEnd | bucky/templates.py:54-65 | in that tree, the name `a.c` enters `a`, finds neither `c` nor `*`, and comes back unchanged with no tags |
| TreeScenarios.NoBacktracking | bucky/templates.py:49-65 | for the lines `a.b` and `*.c`, the constructor's tree is ordered and has the template of `*.c` at `*.c`, yet the name `a` reaches a node without a template, so processing fails, and `a.c` comes back unchanged with no tags |

## Left out

- Logging (bucky/templates.py:173, 184) is output only and is not modelled.
- The command-line block (bucky/templates.py:192-206) is not modelled. It reads a file and prints.
- `__str__`, `__repr__` and `rec_str` are presentation only and are not modelled.
- `NameParser.__call__` is `process` under another name; `NameParser.Process` covers both.
- A single string passed as `lines` is split by `splitlines()` (bucky/templates.py:168-169). The model takes the sequence of lines, the other accepted form.
- `add_child` returns the child it reached; the only caller discards it, so the model returns the updated tree instead.
- FilterTree.AddChild: nodes are values, and `add_child` returns a new tree instead of changing nodes and calling `insort` on their child lists in place. Every node in the source has exactly one parent, so there is no aliasing to lose. The global-tag copy of `Template.__init__` and the tag copy of `process` are likewise implicit in value semantics.
- Strings are sequences of characters. Whitespace is Python 2's ASCII set, as for byte strings; Unicode whitespace is not modelled.
- A `check_tree` failure is the error `TreeCheckFailed`; the message of the `AssertionError` is not modelled.
- The full eight-line filter tree of tests/test_005_templates.py:9-49 is not replayed literal by literal. Only its `servers` branch is proved, for every pair of segment names. Unfolding binary searches over literal strings is beyond the verifier's budget.
- The test names of tests/test_005_templates.py:55-108 are built with `Dot` (a join with `"."`) rather than written as literal dotted strings. This keeps the verifier from comparing long literals character by character; the strings meant are the same.
