/**
 * `Template` of bucky/templates.py: one configuration line
 * `[match] template [key=value,...]` compiled into a match pattern, a
 * template pattern and a fixed tag map, and the positional application of
 * the template pattern to a dot-separated metric name.
 */
module Templates {
  import opened Wrappers
  import opened Strings

  /** A tag map: tag key to tag value. */
  type Tags = map<string, string>

  /** `ProtocolError`, raised while compiling a configuration line. */
  datatype ProtocolError =
    | InvalidTemplateLine(line: string)   // the line does not have 1 to 3 fields
    | InvalidTagPart(tagPart: string)     // a fragment of the tag field is not `key=value`

  /**
   * A compiled template line. `matchPattern` is the source's `match`
   * attribute (`match` is a Dafny keyword); `template` is the template
   * pattern; `tags` is the rule's own copy of its fixed tags.
   */
  datatype Template = Template(matchPattern: string, separator: string, tags: Tags, template: string)
  {
    /**
     * `Template.process(name)`: walks the template tokens and the name's
     * segments in lockstep.
     */
    method Process(name: string) returns (measurement: string, tags': Tags)
      ensures (measurement, tags') == Apply(this, name)
    {
      var fields := Split(name, '.');
      var parts: seq<string> := [];
      tags' := tags;
      var tokens := Split(template, '.');
      assert fields == Segments(name) && tokens == Tokens(this);
      var i := 0;
      while i < |tokens|
        invariant i <= |tokens| && i <= |fields|
        invariant parts == MeasurementParts(tokens, fields, i)
        invariant tags' == ExtractTags(tags, tokens, fields, i)
      {
        if i >= |fields| {
          break;
        }
        var tag := tokens[i];
        WalkStep(tags, tokens, fields, i);
        if tag == "measurement" {
          parts := parts + [fields[i]];
        } else if tag == "measurement*" {
          parts := parts + fields[i..];
        } else if tag != "" {
          tags' := tags'[tag := fields[i]];
        }
        i := i + 1;
      }
      assert i == Walked(this, name);
      if parts == [] {
        parts := fields;
      }
      measurement := Join(parts, separator);
    }
  }

  /** One position of the walk: what it adds to the parts and to the tags. */
  lemma WalkStep(base: Tags, tokens: seq<string>, fields: seq<string>, i: nat)
    requires i < |tokens| && i < |fields|
    ensures MeasurementParts(tokens, fields, i + 1)
            == MeasurementParts(tokens, fields, i) + Contribution(tokens[i], fields, i)
    ensures ExtractTags(base, tokens, fields, i + 1)
            == if IsTagKey(tokens[i]) then ExtractTags(base, tokens, fields, i)[tokens[i] := fields[i]]
               else ExtractTags(base, tokens, fields, i)
  {
  }

  // ---------------------------------------------------------------------------
  // Template.__init__
  // ---------------------------------------------------------------------------

  /** A fragment of the tag field that splits into exactly two pieces on `=`. */
  predicate IsTagPair(fragment: string) {
    |Split(fragment, '=')| == 2
  }

  /** The key and value of a well-formed tag fragment. */
  function TagPair(fragment: string): (string, string)
    requires IsTagPair(fragment)
  {
    var kv := Split(fragment, '=');
    (kv[0], kv[1])
  }

  /** The pairs of the tag fragments in order, or the error for the first fragment that is not `key=value`. */
  function TagPairs(fragments: seq<string>): Result<seq<(string, string)>, ProtocolError>
  {
    if fragments == [] then Ok([])
    else
      var last := fragments[|fragments| - 1];
      match TagPairs(fragments[..|fragments| - 1])
      case Err(e) => Err(e)
      case Ok(pairs) =>
        if IsTagPair(last) then Ok(pairs + [TagPair(last)]) else Err(InvalidTagPart(last))
  }

  /** `base` with each pair assigned in turn, so that a later pair wins over an earlier one and over `base`. */
  function Override(base: Tags, pairs: seq<(string, string)>): Tags
  {
    if pairs == [] then base
    else
      var last := pairs[|pairs| - 1];
      Override(base, pairs[..|pairs| - 1])[last.0 := last.1]
  }

  /** What `Template(line, separator, global_tags)` builds, or the `ProtocolError` it raises. */
  function ParseTemplate(line: string, separator: string, globalTags: Tags): Result<Template, ProtocolError>
  {
    var parts := Fields(Strip(line));
    if !(1 <= |parts| <= 3) then Err(InvalidTemplateLine(line))
    else if |parts| == 1 then Ok(Template("*", separator, globalTags, parts[0]))
    else if |parts| == 2 then Ok(Template(parts[0], separator, globalTags, parts[1]))
    else
      match TagPairs(Split(parts[2], ','))
      case Err(e) => Err(e)
      case Ok(pairs) => Ok(Template(parts[0], separator, Override(globalTags, pairs), parts[1]))
  }

  /** `Template.__init__`: compiles one line, filling the tag map fragment by fragment. */
  method Compile(line: string, separator: string, globalTags: Tags) returns (r: Result<Template, ProtocolError>)
    ensures r == ParseTemplate(line, separator, globalTags)
  {
    var parts := Fields(Strip(line));
    if !(1 <= |parts| <= 3) {
      return Err(InvalidTemplateLine(line));
    }
    var matchPattern := "*";
    var tags := globalTags;
    var template;
    if |parts| == 1 {
      template := parts[0];
    } else {
      matchPattern := parts[0];
      template := parts[1];
      if |parts| == 3 {
        var fragments := Split(parts[2], ',');
        ghost var pairs: seq<(string, string)> := [];
        var i := 0;
        while i < |fragments|
          invariant 0 <= i <= |fragments|
          invariant TagPairs(fragments[..i]) == Ok(pairs)
          invariant tags == Override(globalTags, pairs)
        {
          var kv := Split(fragments[i], '=');
          assert fragments[..i + 1][..i] == fragments[..i];
          if |kv| != 2 {
            TagPairsErrorSticks(fragments, i + 1);
            return Err(InvalidTagPart(fragments[i]));
          }
          ghost var before := pairs;
          tags := tags[kv[0] := kv[1]];
          pairs := pairs + [(kv[0], kv[1])];
          assert pairs[..|pairs| - 1] == before;
          i := i + 1;
        }
        assert fragments[..i] == fragments;
      }
    }
    r := Ok(Template(matchPattern, separator, tags, template));
  }

  /** Once a prefix of the fragments fails, the whole list fails with the same error. */
  lemma {:induction false} TagPairsErrorSticks(fragments: seq<string>, i: nat)
    requires i <= |fragments|
    requires TagPairs(fragments[..i]).Err?
    ensures TagPairs(fragments) == TagPairs(fragments[..i])
    decreases |fragments| - i
  {
    if i < |fragments| {
      var longer := fragments[..i + 1];
      assert longer[..|longer| - 1] == fragments[..i];
      TagPairsErrorSticks(fragments, i + 1);
    } else {
      assert fragments[..i] == fragments;
    }
  }

  // ---------------------------------------------------------------------------
  // Template.process
  // ---------------------------------------------------------------------------

  /** The two tokens that put name segments into the measurement. */
  predicate IsMeasurementToken(token: string) {
    token == "measurement" || token == "measurement*"
  }

  /** A token that names a tag: any non-empty token other than the measurement tokens. */
  predicate IsTagKey(token: string) {
    token != "" && !IsMeasurementToken(token)
  }

  /** What the token at position `i` adds to the measurement parts. */
  function Contribution(token: string, fields: seq<string>, i: nat): seq<string>
    requires i < |fields|
  {
    if token == "measurement" then [fields[i]]
    else if token == "measurement*" then fields[i..]
    else []
  }

  /** The measurement parts collected by the first `n` positions. */
  function MeasurementParts(tokens: seq<string>, fields: seq<string>, n: nat): seq<string>
    requires n <= |tokens| && n <= |fields|
  {
    if n == 0 then []
    else MeasurementParts(tokens, fields, n - 1) + Contribution(tokens[n - 1], fields, n - 1)
  }

  /** `base` with the tags bound by the first `n` positions. */
  function ExtractTags(base: Tags, tokens: seq<string>, fields: seq<string>, n: nat): Tags
    requires n <= |tokens| && n <= |fields|
  {
    if n == 0 then base
    else
      var t := ExtractTags(base, tokens, fields, n - 1);
      if IsTagKey(tokens[n - 1]) then t[tokens[n - 1] := fields[n - 1]] else t
  }

  function Min(a: nat, b: nat): nat {
    if a < b then a else b
  }

  /** The dot-separated segments of a metric name: `name.split('.')`. */
  function Segments(name: string): seq<string> {
    Split(name, '.')
  }

  /** The tokens of a template pattern: `template.split('.')`. */
  function Tokens(t: Template): seq<string> {
    Split(t.template, '.')
  }

  /** How many positions `process` walks: it stops at the end of the shorter of the two. */
  function Walked(t: Template, name: string): nat {
    Min(|Tokens(t)|, |Segments(name)|)
  }

  /** The `(measurement, tags)` pair `t.process(name)` returns. */
  function Apply(t: Template, name: string): (string, Tags)
  {
    var fields := Segments(name);
    var n := Walked(t, name);
    var parts := MeasurementParts(Tokens(t), fields, n);
    (Join(if parts == [] then fields else parts, t.separator), ExtractTags(t.tags, Tokens(t), fields, n))
  }
}

/** What compiling and applying a template line promise. */
module TemplateProperties {
  import opened Wrappers
  import opened Strings
  import opened Templates

  // ---------------------------------------------------------------------------
  // Compilation
  // ---------------------------------------------------------------------------

  /**
   * The tag field is accepted exactly when every fragment is `key=value`;
   * then the pairs are the fragments' in order, and otherwise the error
   * names the first fragment that is not.
   */
  lemma {:induction false} TagPairsMeaning(fragments: seq<string>)
    ensures TagPairs(fragments).Ok? <==> forall i :: 0 <= i < |fragments| ==> IsTagPair(fragments[i])
    ensures TagPairs(fragments).Ok? ==>
              |TagPairs(fragments).value| == |fragments| &&
              forall i :: 0 <= i < |fragments| ==> IsTagPair(fragments[i]) && TagPairs(fragments).value[i] == TagPair(fragments[i])
    ensures TagPairs(fragments).Err? ==>
              exists i :: 0 <= i < |fragments| && !IsTagPair(fragments[i]) &&
                          (forall j :: 0 <= j < i ==> IsTagPair(fragments[j])) &&
                          TagPairs(fragments).error == InvalidTagPart(fragments[i])
  {
    if fragments != [] {
      TagPairsMeaning(fragments[..|fragments| - 1]);
      TagPairsStep(fragments);
    }
    assert TagPairsSound(fragments);
  }

  /** The three ensures of `TagPairsMeaning`, as one predicate. */
  predicate TagPairsSound(fragments: seq<string>) {
    && (TagPairs(fragments).Ok? <==> forall i :: 0 <= i < |fragments| ==> IsTagPair(fragments[i]))
    && (TagPairs(fragments).Ok? ==>
          |TagPairs(fragments).value| == |fragments| &&
          forall i :: 0 <= i < |fragments| ==> IsTagPair(fragments[i]) && TagPairs(fragments).value[i] == TagPair(fragments[i]))
    && (TagPairs(fragments).Err? ==>
          exists i :: 0 <= i < |fragments| && !IsTagPair(fragments[i]) &&
                      (forall j :: 0 <= j < i ==> IsTagPair(fragments[j])) &&
                      TagPairs(fragments).error == InvalidTagPart(fragments[i]))
  }

  /** One more fragment keeps `TagPairsSound`. */
  lemma TagPairsStep(fragments: seq<string>)
    requires fragments != []
    requires TagPairsSound(fragments[..|fragments| - 1])
    ensures TagPairsSound(fragments)
  {
    var prefix, last := fragments[..|fragments| - 1], fragments[|fragments| - 1];
    if TagPairs(prefix).Err? {
      TagPairsErrStep(fragments);
    } else if IsTagPair(last) {
      TagPairsGoodStep(fragments);
    } else {
      TagPairsBadStep(fragments);
    }
  }

  /** An error among the earlier fragments stays the error. */
  lemma TagPairsErrStep(fragments: seq<string>)
    requires fragments != []
    requires TagPairsSound(fragments[..|fragments| - 1])
    requires TagPairs(fragments[..|fragments| - 1]).Err?
    ensures TagPairsSound(fragments)
  {
    var prefix := fragments[..|fragments| - 1];
    var e := TagPairs(prefix).error;
    assert TagPairs(fragments) == Err(e);
    var i :| 0 <= i < |prefix| && !IsTagPair(prefix[i]) &&
             (forall j :: 0 <= j < i ==> IsTagPair(prefix[j])) && e == InvalidTagPart(prefix[i]);
    assert forall j :: 0 <= j <= i ==> prefix[j] == fragments[j];
  }

  /** A well-formed fragment after well-formed ones adds its pair. */
  lemma TagPairsGoodStep(fragments: seq<string>)
    requires fragments != []
    requires TagPairsSound(fragments[..|fragments| - 1])
    requires TagPairs(fragments[..|fragments| - 1]).Ok? && IsTagPair(fragments[|fragments| - 1])
    ensures TagPairsSound(fragments)
  {
    var n := |fragments|;
    var prefix, last := fragments[..n - 1], fragments[n - 1];
    var pairs := TagPairs(prefix).value;
    var all := pairs + [TagPair(last)];
    assert TagPairs(fragments) == Ok(all);
    assert forall i :: 0 <= i < n - 1 ==> prefix[i] == fragments[i] && all[i] == pairs[i];
  }

  /** A malformed fragment after well-formed ones is the error. */
  lemma TagPairsBadStep(fragments: seq<string>)
    requires fragments != []
    requires TagPairsSound(fragments[..|fragments| - 1])
    requires TagPairs(fragments[..|fragments| - 1]).Ok? && !IsTagPair(fragments[|fragments| - 1])
    ensures TagPairsSound(fragments)
  {
    var n := |fragments|;
    var prefix := fragments[..n - 1];
    assert TagPairs(fragments) == Err(InvalidTagPart(fragments[n - 1]));
    assert forall j :: 0 <= j < n - 1 ==> prefix[j] == fragments[j];
  }

  /** Some pair assigns `k`. */
  predicate Assigns(pairs: seq<(string, string)>, k: string) {
    exists i :: 0 <= i < |pairs| && pairs[i].0 == k
  }

  /** Pair `i` is the last pair that assigns `k`. */
  predicate LastAssignment(pairs: seq<(string, string)>, k: string, i: nat) {
    i < |pairs| && pairs[i].0 == k && forall j :: i < j < |pairs| ==> pairs[j].0 != k
  }

  /**
   * A key is in `Override(base, pairs)` exactly when it is in `base` or
   * some pair assigns it; the last pair that assigns it gives its value,
   * and a key that no pair assigns keeps its value from `base`.
   */
  lemma {:induction false} OverrideLookup(base: Tags, pairs: seq<(string, string)>, k: string)
    ensures k in Override(base, pairs) <==> k in base || Assigns(pairs, k)
    ensures forall i: nat :: LastAssignment(pairs, k, i) ==> Override(base, pairs)[k] == pairs[i].1
    ensures !Assigns(pairs, k) && k in base ==> Override(base, pairs)[k] == base[k]
  {
    if pairs != [] {
      var n := |pairs|;
      var prefix, last := pairs[..n - 1], pairs[n - 1];
      assert Override(base, pairs) == Override(base, prefix)[last.0 := last.1];
      OverrideLookup(base, prefix, k);
      AssignsSnoc(pairs, k);
      if last.0 != k {
        forall i: nat | LastAssignment(pairs, k, i)
          ensures LastAssignment(prefix, k, i)
        {
          assert prefix[i] == pairs[i];
          forall j | i < j < |prefix|
            ensures prefix[j].0 != k
          {
            assert prefix[j] == pairs[j];
          }
        }
      }
    }
  }

  lemma AssignsSnoc(pairs: seq<(string, string)>, k: string)
    requires pairs != []
    ensures Assigns(pairs, k) <==> Assigns(pairs[..|pairs| - 1], k) || pairs[|pairs| - 1].0 == k
  {
    var prefix := pairs[..|pairs| - 1];
    if Assigns(pairs, k) && pairs[|pairs| - 1].0 != k {
      var i :| 0 <= i < |pairs| && pairs[i].0 == k;
      assert prefix[i].0 == k;
    }
    if Assigns(prefix, k) {
      var i :| 0 <= i < |prefix| && prefix[i].0 == k;
      assert pairs[i].0 == k;
    }
  }

  /** A line is refused as a whole exactly when it does not have one to three whitespace-separated fields. */
  lemma FieldCount(line: string, separator: string, globalTags: Tags)
    ensures ParseTemplate(line, separator, globalTags) == Err(InvalidTemplateLine(line))
            <==> !(1 <= |Fields(line)| <= 3)
  {
    StripKeepsFields(line);
    var parts := Fields(line);
    if |parts| == 3 {
      TagPairsMeaning(Split(parts[2], ','));
    }
  }

  /**
   * One field: the match pattern is `*` and the field is the template.
   * Two or three fields: the first is the match pattern, the second the
   * template. The separator is kept; without a tag field the tags are the
   * global tags.
   */
  lemma MatchAndTemplate(line: string, separator: string, globalTags: Tags)
    ensures var parts := Fields(line);
            var r := ParseTemplate(line, separator, globalTags);
            (|parts| == 1 ==> r == Ok(Template("*", separator, globalTags, parts[0]))) &&
            (|parts| == 2 ==> r == Ok(Template(parts[0], separator, globalTags, parts[1]))) &&
            (|parts| == 3 && r.Ok? ==> r.value.matchPattern == parts[0] && r.value.template == parts[1]
                                       && r.value.separator == separator)
  {
    StripKeepsFields(line);
  }

  /** With three fields, compilation succeeds or fails as the tag field does. */
  lemma ThreeFields(line: string, separator: string, globalTags: Tags)
    requires |Fields(line)| == 3
    ensures var parts := Fields(line);
            var pairs := TagPairs(Split(parts[2], ','));
            ParseTemplate(line, separator, globalTags) ==
              if pairs.Err? then Err(pairs.error)
              else Ok(Template(parts[0], separator, Override(globalTags, pairs.value), parts[1]))
  {
    StripKeepsFields(line);
  }

  /**
   * Three fields: the line compiles exactly when every comma-separated
   * fragment of the third field splits into two pieces on `=`, and the
   * error otherwise names the first fragment that does not. The tags are
   * then the global tags overridden by the fragments' pairs in order (see
   * TagPairsMeaning and OverrideLookup for what that means key by key).
   */
  lemma TagField(line: string, separator: string, globalTags: Tags)
    requires |Fields(line)| == 3
    ensures var fragments := Split(Fields(line)[2], ',');
            var r := ParseTemplate(line, separator, globalTags);
            && (r.Ok? <==> forall i :: 0 <= i < |fragments| ==> IsTagPair(fragments[i]))
            && (r.Err? ==> exists i :: 0 <= i < |fragments| && !IsTagPair(fragments[i]) &&
                                       (forall j :: 0 <= j < i ==> IsTagPair(fragments[j])) &&
                                       r.error == InvalidTagPart(fragments[i]))
            && (r.Ok? ==> TagPairs(fragments).Ok? && r.value.tags == Override(globalTags, TagPairs(fragments).value))
  {
    ThreeFields(line, separator, globalTags);
    TagPairsMeaning(Split(Fields(line)[2], ','));
  }

  // ---------------------------------------------------------------------------
  // Application
  // ---------------------------------------------------------------------------

  /** Some position below `n` holds a measurement token. */
  predicate HasMeasurementToken(tokens: seq<string>, n: nat)
    requires n <= |tokens|
  {
    exists i :: 0 <= i < n && IsMeasurementToken(tokens[i])
  }

  /** Some position below `n` holds `k` as a tag key. */
  predicate Binds(tokens: seq<string>, n: nat, k: string)
    requires n <= |tokens|
  {
    exists i :: 0 <= i < n && IsTagKey(tokens[i]) && tokens[i] == k
  }

  /** Position `i` is the last position below `n` that holds `k` as a tag key. */
  predicate LastBinding(tokens: seq<string>, n: nat, k: string, i: nat)
    requires n <= |tokens|
  {
    i < n && IsTagKey(tokens[i]) && tokens[i] == k && forall j :: i < j < n ==> tokens[j] != k
  }

  /**
   * A key is bound after the first `n` positions exactly when it is a fixed
   * tag or some position below `n` holds it as a tag key; the last such
   * position gives it the aligned segment, and a fixed tag that no position
   * names keeps its value. Empty and measurement tokens bind nothing.
   */
  lemma {:induction false} ExtractTagsLookup(base: Tags, tokens: seq<string>, fields: seq<string>, n: nat, k: string)
    requires n <= |tokens| && n <= |fields|
    ensures k in ExtractTags(base, tokens, fields, n) <==> k in base || Binds(tokens, n, k)
    ensures forall i: nat :: LastBinding(tokens, n, k, i) ==> ExtractTags(base, tokens, fields, n)[k] == fields[i]
    ensures !Binds(tokens, n, k) && k in base ==> ExtractTags(base, tokens, fields, n)[k] == base[k]
  {
    if n > 0 {
      ExtractTagsLookup(base, tokens, fields, n - 1, k);
      if !(IsTagKey(tokens[n - 1]) && tokens[n - 1] == k) {
        forall i: nat | LastBinding(tokens, n, k, i)
          ensures LastBinding(tokens, n - 1, k, i)
        {
        }
      }
    }
  }

  /** No measurement part is collected exactly when no position below `n` holds a measurement token. */
  lemma {:induction false} NoMeasurementParts(tokens: seq<string>, fields: seq<string>, n: nat)
    requires n <= |tokens| && n <= |fields|
    ensures MeasurementParts(tokens, fields, n) == [] <==> !HasMeasurementToken(tokens, n)
  {
    if n > 0 {
      var before, added := MeasurementParts(tokens, fields, n - 1), Contribution(tokens[n - 1], fields, n - 1);
      assert before == [] <==> !HasMeasurementToken(tokens, n - 1) by {
        NoMeasurementParts(tokens, fields, n - 1);
      }
      assert added == [] <==> !IsMeasurementToken(tokens[n - 1]) by {
        ContributionEmpty(tokens[n - 1], fields, n - 1);
      }
      assert HasMeasurementToken(tokens, n) <==> HasMeasurementToken(tokens, n - 1) || IsMeasurementToken(tokens[n - 1]) by {
        HasMeasurementTokenStep(tokens, n);
      }
      assert MeasurementParts(tokens, fields, n) == before + added;
      if IsMeasurementToken(tokens[n - 1]) {
        assert |before + added| > 0;
      } else {
        assert before + added == before;
      }
    }
  }

  /** Only the measurement tokens contribute parts, and they always contribute some. */
  lemma ContributionEmpty(token: string, fields: seq<string>, i: nat)
    requires i < |fields|
    ensures Contribution(token, fields, i) == [] <==> !IsMeasurementToken(token)
  {
    if token == "measurement*" {
      assert |fields[i..]| > 0;
    }
  }

  lemma HasMeasurementTokenStep(tokens: seq<string>, n: nat)
    requires 0 < n <= |tokens|
    ensures HasMeasurementToken(tokens, n) <==> HasMeasurementToken(tokens, n - 1) || IsMeasurementToken(tokens[n - 1])
  {
    if HasMeasurementToken(tokens, n) && !IsMeasurementToken(tokens[n - 1]) {
      var i :| 0 <= i < n && IsMeasurementToken(tokens[i]);
      assert i < n - 1;
    }
  }

  /**
   * The measurement is the whole name's segments joined by the separator
   * when no measurement token falls within the walked positions, and the
   * (then non-empty) collected parts joined by the separator otherwise.
   */
  lemma Measurement(t: Template, name: string)
    ensures !HasMeasurementToken(Tokens(t), Walked(t, name)) ==>
              Apply(t, name).0 == Join(Segments(name), t.separator)
    ensures HasMeasurementToken(Tokens(t), Walked(t, name)) ==>
              MeasurementParts(Tokens(t), Segments(name), Walked(t, name)) != [] &&
              Apply(t, name).0 == Join(MeasurementParts(Tokens(t), Segments(name), Walked(t, name)), t.separator)
  {
    NoMeasurementParts(Tokens(t), Segments(name), Walked(t, name));
  }

  /** With the default separator, a template without any measurement token gives back the name itself. */
  lemma FallbackIsName(t: Template, name: string)
    requires t.separator == "."
    requires !HasMeasurementToken(Tokens(t), |Tokens(t)|)
    ensures Apply(t, name).0 == name
  {
    Measurement(t, name);
    JoinSplit(name, '.');
  }

  /**
   * A tag key at a walked position binds that key to the aligned name
   * segment over the rule's fixed tags, the last such position winning
   * whatever token precedes it (`measurement*` included); a fixed tag that
   * no walked position names keeps its value.
   */
  lemma TagsOfName(t: Template, name: string, k: string)
    ensures k in Apply(t, name).1 <==> k in t.tags || Binds(Tokens(t), Walked(t, name), k)
    ensures forall i: nat :: LastBinding(Tokens(t), Walked(t, name), k, i) ==> Apply(t, name).1[k] == Segments(name)[i]
    ensures !Binds(Tokens(t), Walked(t, name), k) && k in t.tags ==> Apply(t, name).1[k] == t.tags[k]
  {
    ExtractTagsLookup(t.tags, Tokens(t), Segments(name), Walked(t, name), k);
  }

  lemma {:induction false} PartsUseOnlyPrefix(tokens: seq<string>, tokens': seq<string>, fields: seq<string>, m: nat)
    requires m <= |tokens| && m <= |tokens'| && m <= |fields|
    requires tokens[..m] == tokens'[..m]
    ensures MeasurementParts(tokens, fields, m) == MeasurementParts(tokens', fields, m)
    ensures forall base :: ExtractTags(base, tokens, fields, m) == ExtractTags(base, tokens', fields, m)
  {
    if m > 0 {
      assert tokens[..m - 1] == tokens[..m][..m - 1] && tokens'[..m - 1] == tokens'[..m][..m - 1];
      assert tokens[m - 1] == tokens[..m][m - 1] && tokens'[m - 1] == tokens'[..m][m - 1];
      PartsUseOnlyPrefix(tokens, tokens', fields, m - 1);
    }
  }

  /**
   * Template tokens beyond the name's last segment are never read: cutting
   * the template down to its first `Walked(t, name)` tokens gives the same
   * measurement and tags.
   */
  lemma TrailingTokensIgnored(t: Template, name: string)
    ensures Apply(t.(template := Join(Tokens(t)[..Walked(t, name)], ".")), name) == Apply(t, name)
  {
    var n := Walked(t, name);
    var cut := Tokens(t)[..n];
    var t' := t.(template := Join(cut, "."));
    SplitJoin(cut, '.');
    assert Tokens(t') == cut && Walked(t', name) == n;
    assert cut[..n] == Tokens(t)[..n];
    PartsUseOnlyPrefix(Tokens(t), cut, Segments(name), n);
  }
}
