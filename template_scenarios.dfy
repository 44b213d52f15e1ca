/**
 * The template-application cases of tests/test_005_templates.py. Each case
 * is first stated for every template whose pattern has the case's tokens
 * (whatever its separator and fixed tags) and every name with the segment
 * count the case depends on, and then instantiated at the one-field line
 * and the name the test uses.
 */
module TemplateScenarios {
  import opened Strings
  import opened Wrappers
  import opened Templates
  import opened TemplateProperties

  /** The template a one-field line `pattern` compiles to with the default arguments. */
  function Plain(pattern: string): Template {
    Template("*", ".", map[], pattern)
  }

  /** A one-field line compiles, with the default separator and no global tags, to `Plain` of that field. */
  lemma PlainIsCompiled(pattern: string)
    requires IsWord(pattern)
    ensures ParseTemplate(pattern, ".", map[]) == Ok(Plain(pattern))
  {
    FieldsAfterWord(pattern, "");
    assert pattern + "" == pattern;
    MatchAndTemplate(pattern, ".", map[]);
  }

  /** `s` holds no whitespace character. */
  predicate NoSpace(s: string) {
    forall j :: 0 <= j < |s| ==> !IsSpace(s[j])
  }

  /** Joining pieces without whitespace with a separator without whitespace gives a string without whitespace. */
  lemma {:induction false} JoinHasNoSpace(pieces: seq<string>, sep: string)
    requires forall i :: 0 <= i < |pieces| ==> NoSpace(pieces[i])
    requires NoSpace(sep)
    ensures NoSpace(Join(pieces, sep))
  {
    if |pieces| > 1 {
      JoinHasNoSpace(pieces[1..], sep);
      var rest := Join(pieces[1..], sep);
      assert Join(pieces, sep) == pieces[0] + sep + rest;
      forall j | 0 <= j < |Join(pieces, sep)|
        ensures !IsSpace(Join(pieces, sep)[j])
      {
        if j < |pieces[0]| {
          assert Join(pieces, sep)[j] == pieces[0][j];
        } else if j < |pieces[0]| + |sep| {
          assert Join(pieces, sep)[j] == sep[j - |pieces[0]|];
        } else {
          assert Join(pieces, sep)[j] == rest[j - |pieces[0]| - |sep|];
        }
      }
    } else if |pieces| == 1 {
      assert Join(pieces, sep) == pieces[0];
    }
  }

  /**
   * A test pattern, the dot-join of pieces without whitespace that is not
   * empty, is a one-field line; `Template(pattern)` compiles it to `Plain`.
   */
  lemma DottedIsCompiled(pieces: seq<string>)
    requires forall i :: 0 <= i < |pieces| ==> NoSpace(pieces[i])
    requires |pieces| > 1 || (|pieces| == 1 && pieces[0] != "")
    ensures ParseTemplate(Join(pieces, "."), ".", map[]) == Ok(Plain(Join(pieces, ".")))
  {
    assert NoSpace(".");
    JoinHasNoSpace(pieces, ".");
    if |pieces| > 1 {
      assert Join(pieces, ".") == pieces[0] + "." + Join(pieces[1..], ".");
    }
    PlainIsCompiled(Join(pieces, "."));
  }

  /** The segments of a string built by joining dot-free pieces with dots. */
  lemma Dotted(s: string, parts: seq<string>)
    requires |parts| >= 1 && forall i :: 0 <= i < |parts| ==> '.' !in parts[i]
    requires s == Join(parts, ".")
    ensures Split(s, '.') == parts
  {
    SplitJoin(parts, '.');
  }

  // ---------------------------------------------------------------------------
  // The cases, for every template with the case's tokens and every name of
  // the right shape
  // ---------------------------------------------------------------------------

  /** "metric only" and "ignore unnamed": `measurement` keeps the first segment and binds no tag. */
  lemma FirstSegmentOnly(t: Template, name: string)
    requires Tokens(t) == ["measurement"]
    ensures Apply(t, name) == (Segments(name)[0], t.tags)
  {
    var tokens, fields := Tokens(t), Segments(name);
    assert Walked(t, name) == 1;
    assert MeasurementParts(tokens, fields, 1) == [fields[0]];
    assert ExtractTags(t.tags, tokens, fields, 1) == t.tags;
  }

  /** "metric with single series": the first segment is the measurement, the second the `hostname` tag. */
  lemma SingleSeries(t: Template, name: string)
    requires Tokens(t) == ["measurement", "hostname"]
    requires |Segments(name)| == 2
    ensures var f := Segments(name);
            Apply(t, name) == (f[0], t.tags["hostname" := f[1]])
  {
    var tokens, fields := Tokens(t), Segments(name);
    assert Walked(t, name) == 2;
    assert MeasurementParts(tokens, fields, 2) == [fields[0]] by {
      assert MeasurementParts(tokens, fields, 1) == [fields[0]];
    }
    assert IsTagKey(tokens[1]) && !IsTagKey(tokens[0]);
    assert ExtractTags(t.tags, tokens, fields, 2) == t.tags["hostname" := fields[1]] by {
      assert ExtractTags(t.tags, tokens, fields, 1) == t.tags;
    }
  }

  /** "metric with multiple series": one measurement segment, then the `region` and `hostname` tags. */
  lemma MultipleSeries(t: Template, name: string)
    requires Tokens(t) == ["measurement", "region", "hostname"]
    requires |Segments(name)| == 3
    ensures var f := Segments(name);
            Apply(t, name) == (f[0], t.tags["region" := f[1]]["hostname" := f[2]])
  {
    var tokens, fields := Tokens(t), Segments(name);
    assert Walked(t, name) == 3;
    assert MeasurementParts(tokens, fields, 3) == [fields[0]] by {
      assert MeasurementParts(tokens, fields, 1) == [fields[0]];
      assert MeasurementParts(tokens, fields, 2) == [fields[0]];
    }
    assert !IsTagKey(tokens[0]) && IsTagKey(tokens[1]) && IsTagKey(tokens[2]);
    assert ExtractTags(t.tags, tokens, fields, 3) == t.tags["region" := fields[1]]["hostname" := fields[2]] by {
      assert ExtractTags(t.tags, tokens, fields, 2) == t.tags["region" := fields[1]] by {
        assert ExtractTags(t.tags, tokens, fields, 1) == t.tags;
      }
    }
  }

  /** "name shorter than template": the walk stops after the name's only segment. */
  lemma ShorterName(t: Template, name: string)
    requires Tokens(t) == ["measurement", "A", "B", "C"]
    requires |Segments(name)| == 1
    ensures Apply(t, name) == (name, t.tags)
  {
    var tokens, fields := Tokens(t), Segments(name);
    assert Walked(t, name) == 1;
    assert MeasurementParts(tokens, fields, 1) == [fields[0]];
    assert ExtractTags(t.tags, tokens, fields, 1) == t.tags;
    JoinSplit(name, '.');
    assert Join(Segments(name), [('.')]) == fields[0];
  }

  /** "wildcard measurement at end": three tags, then every remaining segment joined with the separator. */
  lemma WildcardAtEnd(t: Template, name: string)
    requires Tokens(t) == ["env", "zone", "host", "measurement*"]
    requires |Segments(name)| >= 4
    ensures var f := Segments(name);
            Apply(t, name) == (Join(f[3..], t.separator), t.tags["env" := f[0]]["zone" := f[1]]["host" := f[2]])
  {
    var tokens, fields := Tokens(t), Segments(name);
    assert Walked(t, name) == 4;
    assert MeasurementParts(tokens, fields, 4) == fields[3..] by {
      assert MeasurementParts(tokens, fields, 3) == [] by {
        assert MeasurementParts(tokens, fields, 1) == [];
        assert MeasurementParts(tokens, fields, 2) == [];
      }
    }
    assert IsTagKey(tokens[0]) && IsTagKey(tokens[1]) && IsTagKey(tokens[2]) && !IsTagKey(tokens[3]);
    var tags := t.tags["env" := fields[0]]["zone" := fields[1]]["host" := fields[2]];
    assert ExtractTags(t.tags, tokens, fields, 4) == tags by {
      assert ExtractTags(t.tags, tokens, fields, 3) == tags by {
        assert ExtractTags(t.tags, tokens, fields, 2) == t.tags["env" := fields[0]]["zone" := fields[1]] by {
          assert ExtractTags(t.tags, tokens, fields, 1) == t.tags["env" := fields[0]];
        }
      }
    }
  }

  /** "skip fields": empty tokens bind nothing. */
  lemma SkipFields(t: Template, name: string)
    requires Tokens(t) == ["", "zone", "", "measurement*"]
    requires |Segments(name)| >= 4
    ensures var f := Segments(name);
            Apply(t, name) == (Join(f[3..], t.separator), t.tags["zone" := f[1]])
  {
    var tokens, fields := Tokens(t), Segments(name);
    assert Walked(t, name) == 4;
    assert MeasurementParts(tokens, fields, 4) == fields[3..] by {
      assert MeasurementParts(tokens, fields, 3) == [] by {
        assert MeasurementParts(tokens, fields, 1) == [];
        assert MeasurementParts(tokens, fields, 2) == [];
      }
    }
    assert !IsTagKey(tokens[0]) && IsTagKey(tokens[1]) && !IsTagKey(tokens[2]) && !IsTagKey(tokens[3]);
    assert ExtractTags(t.tags, tokens, fields, 4) == t.tags["zone" := fields[1]] by {
      assert ExtractTags(t.tags, tokens, fields, 2) == t.tags["zone" := fields[1]] by {
        assert ExtractTags(t.tags, tokens, fields, 1) == t.tags;
      }
    }
  }

  /**
   * "no measurement specified in template": every segment binds a tag and
   * the measurement is all the segments joined with the separator.
   */
  lemma NoMeasurement(t: Template, name: string)
    requires Tokens(t) == ["host", "metric"]
    requires |Segments(name)| == 2
    ensures var f := Segments(name);
            Apply(t, name) == (Join(f, t.separator), t.tags["host" := f[0]]["metric" := f[1]])
  {
    var tokens, fields := Tokens(t), Segments(name);
    assert Walked(t, name) == 2;
    assert MeasurementParts(tokens, fields, 2) == [] by {
      assert MeasurementParts(tokens, fields, 1) == [];
    }
    assert IsTagKey(tokens[0]) && IsTagKey(tokens[1]);
    assert ExtractTags(t.tags, tokens, fields, 2) == t.tags["host" := fields[0]]["metric" := fields[1]] by {
      assert ExtractTags(t.tags, tokens, fields, 1) == t.tags["host" := fields[0]];
    }
  }

  // ---------------------------------------------------------------------------
  // The cases at the test's own values. Patterns, names and measurements are
  // written as the dot-joins of their segments: `Dot(["cpu", "server01"])`
  // is the string "cpu.server01".
  // ---------------------------------------------------------------------------

  /** The pieces joined with dots. */
  function Dot(pieces: seq<string>): string {
    Join(pieces, ".")
  }

  lemma MetricOnlyCompiled()
    ensures ParseTemplate(Dot(["measurement"]), ".", map[]) == Ok(Plain(Dot(["measurement"])))
  {
    assert NoSpace("measurement");
    DottedIsCompiled(["measurement"]);
  }

  lemma MetricOnlyPattern()
    ensures Tokens(Plain(Dot(["measurement"]))) == ["measurement"]
  {
    Dotted(Dot(["measurement"]), ["measurement"]);
  }

  lemma MetricOnlyName()
    ensures Segments(Dot(["cpu"])) == ["cpu"]
  {
    Dotted(Dot(["cpu"]), ["cpu"]);
  }

  /** The test case at its own pattern and name: `Template(pattern).process(name)`. */
  lemma MetricOnlyCase()
    ensures ParseTemplate(Dot(["measurement"]), ".", map[]).Ok?
    ensures Apply(ParseTemplate(Dot(["measurement"]), ".", map[]).value, Dot(["cpu"]))
            == ("cpu", map[])
  {
    MetricOnlyPattern();
    MetricOnlyCompiled();
    MetricOnlyName();
    FirstSegmentOnly(Plain(Dot(["measurement"])), Dot(["cpu"]));
  }

  lemma SingleSeriesCompiled()
    ensures ParseTemplate(Dot(["measurement", "hostname"]), ".", map[]) == Ok(Plain(Dot(["measurement", "hostname"])))
  {
    assert NoSpace("hostname") && NoSpace("measurement");
    DottedIsCompiled(["measurement", "hostname"]);
  }

  lemma SingleSeriesPattern()
    ensures Tokens(Plain(Dot(["measurement", "hostname"]))) == ["measurement", "hostname"]
  {
    Dotted(Dot(["measurement", "hostname"]), ["measurement", "hostname"]);
  }

  lemma SingleSeriesName()
    ensures Segments(Dot(["cpu", "server01"])) == ["cpu", "server01"]
  {
    Dotted(Dot(["cpu", "server01"]), ["cpu", "server01"]);
  }

  /** The test case at its own pattern and name: `Template(pattern).process(name)`. */
  lemma SingleSeriesCase()
    ensures ParseTemplate(Dot(["measurement", "hostname"]), ".", map[]).Ok?
    ensures Apply(ParseTemplate(Dot(["measurement", "hostname"]), ".", map[]).value, Dot(["cpu", "server01"]))
            == ("cpu", map["hostname" := "server01"])
  {
    SingleSeriesPattern();
    SingleSeriesCompiled();
    SingleSeriesName();
    SingleSeries(Plain(Dot(["measurement", "hostname"])), Dot(["cpu", "server01"]));
  }

  lemma MultipleSeriesCompiled()
    ensures ParseTemplate(Dot(["measurement", "region", "hostname"]), ".", map[]) == Ok(Plain(Dot(["measurement", "region", "hostname"])))
  {
    assert NoSpace("hostname") && NoSpace("measurement") && NoSpace("region");
    DottedIsCompiled(["measurement", "region", "hostname"]);
  }

  lemma MultipleSeriesPattern()
    ensures Tokens(Plain(Dot(["measurement", "region", "hostname"]))) == ["measurement", "region", "hostname"]
  {
    Dotted(Dot(["measurement", "region", "hostname"]), ["measurement", "region", "hostname"]);
  }

  lemma MultipleSeriesName()
    ensures Segments(Dot(["cpu", "us-west", "server01"])) == ["cpu", "us-west", "server01"]
  {
    Dotted(Dot(["cpu", "us-west", "server01"]), ["cpu", "us-west", "server01"]);
  }

  /** The test case at its own pattern and name: `Template(pattern).process(name)`. */
  lemma MultipleSeriesCase()
    ensures ParseTemplate(Dot(["measurement", "region", "hostname"]), ".", map[]).Ok?
    ensures Apply(ParseTemplate(Dot(["measurement", "region", "hostname"]), ".", map[]).value, Dot(["cpu", "us-west", "server01"]))
            == ("cpu", map["region" := "us-west", "hostname" := "server01"])
  {
    MultipleSeriesPattern();
    MultipleSeriesCompiled();
    MultipleSeriesName();
    MultipleSeries(Plain(Dot(["measurement", "region", "hostname"])), Dot(["cpu", "us-west", "server01"]));
  }

  lemma IgnoreUnnamedName()
    ensures Segments(Dot(["foo", "cpu"])) == ["foo", "cpu"]
  {
    Dotted(Dot(["foo", "cpu"]), ["foo", "cpu"]);
  }

  /** The test case at its own pattern and name: `Template(pattern).process(name)`. */
  lemma IgnoreUnnamedCase()
    ensures ParseTemplate(Dot(["measurement"]), ".", map[]).Ok?
    ensures Apply(ParseTemplate(Dot(["measurement"]), ".", map[]).value, Dot(["foo", "cpu"]))
            == ("foo", map[])
  {
    MetricOnlyPattern();
    MetricOnlyCompiled();
    IgnoreUnnamedName();
    FirstSegmentOnly(Plain(Dot(["measurement"])), Dot(["foo", "cpu"]));
  }

  lemma ShorterNameCompiled()
    ensures ParseTemplate(Dot(["measurement", "A", "B", "C"]), ".", map[]) == Ok(Plain(Dot(["measurement", "A", "B", "C"])))
  {
    assert NoSpace("A") && NoSpace("B") && NoSpace("C") && NoSpace("measurement");
    DottedIsCompiled(["measurement", "A", "B", "C"]);
  }

  lemma ShorterNamePattern()
    ensures Tokens(Plain(Dot(["measurement", "A", "B", "C"]))) == ["measurement", "A", "B", "C"]
  {
    Dotted(Dot(["measurement", "A", "B", "C"]), ["measurement", "A", "B", "C"]);
  }

  lemma ShorterNameName()
    ensures Segments(Dot(["foo"])) == ["foo"]
  {
    Dotted(Dot(["foo"]), ["foo"]);
  }

  /** The test case at its own pattern and name: `Template(pattern).process(name)`. */
  lemma ShorterNameCase()
    ensures ParseTemplate(Dot(["measurement", "A", "B", "C"]), ".", map[]).Ok?
    ensures Apply(ParseTemplate(Dot(["measurement", "A", "B", "C"]), ".", map[]).value, Dot(["foo"]))
            == ("foo", map[])
  {
    ShorterNamePattern();
    ShorterNameCompiled();
    ShorterNameName();
    ShorterName(Plain(Dot(["measurement", "A", "B", "C"])), Dot(["foo"]));
  }

  lemma WildcardAtEndCompiled()
    ensures ParseTemplate(Dot(["env", "zone", "host", "measurement*"]), ".", map[]) == Ok(Plain(Dot(["env", "zone", "host", "measurement*"])))
  {
    assert NoSpace("env") && NoSpace("host") && NoSpace("measurement*") && NoSpace("zone");
    DottedIsCompiled(["env", "zone", "host", "measurement*"]);
  }

  lemma WildcardAtEndPattern()
    ensures Tokens(Plain(Dot(["env", "zone", "host", "measurement*"]))) == ["env", "zone", "host", "measurement*"]
  {
    Dotted(Dot(["env", "zone", "host", "measurement*"]), ["env", "zone", "host", "measurement*"]);
  }

  lemma WildcardAtEndName()
    ensures Segments(Dot(["prod", "us-west", "server01", "cpu", "load"])) == ["prod", "us-west", "server01", "cpu", "load"]
  {
    Dotted(Dot(["prod", "us-west", "server01", "cpu", "load"]), ["prod", "us-west", "server01", "cpu", "load"]);
  }

  /** The test case at its own pattern and name: `Template(pattern).process(name)`. */
  lemma WildcardAtEndCase()
    ensures ParseTemplate(Dot(["env", "zone", "host", "measurement*"]), ".", map[]).Ok?
    ensures Apply(ParseTemplate(Dot(["env", "zone", "host", "measurement*"]), ".", map[]).value, Dot(["prod", "us-west", "server01", "cpu", "load"]))
            == (Dot(["cpu", "load"]), map["env" := "prod", "zone" := "us-west", "host" := "server01"])
  {
    WildcardAtEndPattern();
    WildcardAtEndCompiled();
    WildcardAtEndName();
    WildcardAtEnd(Plain(Dot(["env", "zone", "host", "measurement*"])), Dot(["prod", "us-west", "server01", "cpu", "load"]));
    assert ["prod", "us-west", "server01", "cpu", "load"][3..] == ["cpu", "load"];
  }

  lemma SkipFieldsCompiled()
    ensures ParseTemplate(Dot(["", "zone", "", "measurement*"]), ".", map[]) == Ok(Plain(Dot(["", "zone", "", "measurement*"])))
  {
    assert NoSpace("") && NoSpace("measurement*") && NoSpace("zone");
    DottedIsCompiled(["", "zone", "", "measurement*"]);
  }

  lemma SkipFieldsPattern()
    ensures Tokens(Plain(Dot(["", "zone", "", "measurement*"]))) == ["", "zone", "", "measurement*"]
  {
    Dotted(Dot(["", "zone", "", "measurement*"]), ["", "zone", "", "measurement*"]);
  }

  lemma SkipFieldsName()
    ensures Segments(Dot(["ignore", "us-west", "ignore-this-too", "cpu", "load"])) == ["ignore", "us-west", "ignore-this-too", "cpu", "load"]
  {
    Dotted(Dot(["ignore", "us-west", "ignore-this-too", "cpu", "load"]), ["ignore", "us-west", "ignore-this-too", "cpu", "load"]);
  }

  /** The test case at its own pattern and name: `Template(pattern).process(name)`. */
  lemma SkipFieldsCase()
    ensures ParseTemplate(Dot(["", "zone", "", "measurement*"]), ".", map[]).Ok?
    ensures Apply(ParseTemplate(Dot(["", "zone", "", "measurement*"]), ".", map[]).value, Dot(["ignore", "us-west", "ignore-this-too", "cpu", "load"]))
            == (Dot(["cpu", "load"]), map["zone" := "us-west"])
  {
    SkipFieldsPattern();
    SkipFieldsCompiled();
    SkipFieldsName();
    SkipFields(Plain(Dot(["", "zone", "", "measurement*"])), Dot(["ignore", "us-west", "ignore-this-too", "cpu", "load"]));
    assert ["ignore", "us-west", "ignore-this-too", "cpu", "load"][3..] == ["cpu", "load"];
  }

  lemma NoMeasurementCompiled()
    ensures ParseTemplate(Dot(["host", "metric"]), ".", map[]) == Ok(Plain(Dot(["host", "metric"])))
  {
    assert NoSpace("host") && NoSpace("metric");
    DottedIsCompiled(["host", "metric"]);
  }

  lemma NoMeasurementPattern()
    ensures Tokens(Plain(Dot(["host", "metric"]))) == ["host", "metric"]
  {
    Dotted(Dot(["host", "metric"]), ["host", "metric"]);
  }

  lemma NoMeasurementName()
    ensures Segments(Dot(["localhost", "cpu"])) == ["localhost", "cpu"]
  {
    Dotted(Dot(["localhost", "cpu"]), ["localhost", "cpu"]);
  }

  /** The test case at its own pattern and name: `Template(pattern).process(name)`. */
  lemma NoMeasurementCase()
    ensures ParseTemplate(Dot(["host", "metric"]), ".", map[]).Ok?
    ensures Apply(ParseTemplate(Dot(["host", "metric"]), ".", map[]).value, Dot(["localhost", "cpu"]))
            == (Dot(["localhost", "cpu"]), map["host" := "localhost", "metric" := "cpu"])
  {
    NoMeasurementPattern();
    NoMeasurementCompiled();
    NoMeasurementName();
    NoMeasurement(Plain(Dot(["host", "metric"])), Dot(["localhost", "cpu"]));
  }
}
