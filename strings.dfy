/**
 * The handful of Python 2 `str` operations the templating engine is built on:
 * `split(c)`, `split(c, 1)`, `sep.join(parts)`, `split()` and `strip()` (the
 * last two on ASCII whitespace, as for byte strings).
 */
module Strings {

  /** The characters Python 2's `str.split()` and `str.strip()` treat as whitespace. */
  predicate IsSpace(c: char) {
    c == ' ' || c == '\t' || c == '\n' || c == '\r' || c as int == 0x0B || c as int == 0x0C
  }

  /** A non-empty run of non-whitespace characters. */
  predicate IsWord(w: string) {
    w != [] && forall i :: 0 <= i < |w| ==> !IsSpace(w[i])
  }

  // ---------------------------------------------------------------------------
  // s.split(c), s.split(c, 1) and sep.join(parts)
  // ---------------------------------------------------------------------------

  /** `s.split(c)`: the pieces between the occurrences of `c`, at least one. */
  function Split(s: string, c: char): (r: seq<string>)
    ensures |r| >= 1
    ensures forall i :: 0 <= i < |r| ==> c !in r[i]
  {
    if s == [] then [""]
    else
      var rest := Split(s[1..], c);
      if s[0] == c then [""] + rest
      else [[s[0]] + rest[0]] + rest[1..]
  }

  /** `s.split(c, 1)`: `[s]` when `c` does not occur, else the text before and after its first occurrence. */
  function SplitOnce(s: string, c: char): (r: seq<string>)
    ensures |r| == 1 || |r| == 2
    ensures c !in r[0]
    ensures |r| == 1 <==> c !in s
    ensures |r| == 1 ==> r[0] == s
    ensures |r| == 2 ==> s == r[0] + [c] + r[1]
  {
    if s == [] then [""]
    else if s[0] == c then ["", s[1..]]
    else
      var r := SplitOnce(s[1..], c);
      [[s[0]] + r[0]] + r[1..]
  }

  /** Split once at a first occurrence of `c`: the text before it and the text after it. */
  lemma {:induction false} SplitOnceAt(a: string, b: string, c: char)
    requires c !in a
    ensures SplitOnce(a + [c] + b, c) == [a, b]
  {
    var s := a + [c] + b;
    if a == [] {
      assert s[0] == c && s[1..] == b;
    } else {
      assert s[0] == a[0] && s[1..] == a[1..] + [c] + b;
      SplitOnceAt(a[1..], b, c);
      assert [a[0]] + a[1..] == a;
    }
  }

  /** `sep.join(parts)`. */
  function Join(parts: seq<string>, sep: string): string
  {
    if |parts| == 0 then ""
    else if |parts| == 1 then parts[0]
    else parts[0] + sep + Join(parts[1..], sep)
  }

  /** Joining the pieces of a split with the character split on gives back the string. */
  lemma {:induction false} JoinSplit(s: string, c: char)
    ensures Join(Split(s, c), [c]) == s
  {
    if s != [] {
      var rest := Split(s[1..], c);
      JoinSplit(s[1..], c);
      if s[0] == c {
        assert ([""] + rest)[1..] == rest;
      } else {
        var r := [[s[0]] + rest[0]] + rest[1..];
        assert r[1..] == rest[1..];
        if |rest| == 1 {
          assert Join(r, [c]) == [s[0]] + rest[0];
        } else {
          assert Join(rest, [c]) == rest[0] + [c] + Join(rest[1..], [c]);
        }
        assert s == [s[0]] + s[1..];
      }
    }
  }

  lemma {:induction false} SplitWithout(a: string, c: char)
    requires c !in a
    ensures Split(a, c) == [a]
  {
    if a != [] {
      SplitWithout(a[1..], c);
      assert [a[0]] + a[1..] == a;
    }
  }

  lemma {:induction false} SplitAfterPiece(a: string, b: string, c: char)
    requires c !in a
    ensures Split(a + [c] + b, c) == [a] + Split(b, c)
  {
    var s := a + [c] + b;
    if a == [] {
      assert s[0] == c && s[1..] == b;
    } else {
      assert s[0] == a[0] && s[1..] == a[1..] + [c] + b;
      SplitAfterPiece(a[1..], b, c);
      assert [a[0]] + a[1..] == a;
    }
  }

  /** Splitting a join of pieces free of the separator character gives back the pieces. */
  lemma {:induction false} SplitJoin(parts: seq<string>, c: char)
    requires |parts| >= 1
    requires forall i :: 0 <= i < |parts| ==> c !in parts[i]
    ensures Split(Join(parts, [c]), c) == parts
  {
    if |parts| == 1 {
      SplitWithout(parts[0], c);
    } else {
      SplitJoin(parts[1..], c);
      SplitAfterPiece(parts[0], Join(parts[1..], [c]), c);
      assert [parts[0]] + parts[1..] == parts;
    }
  }

  // ---------------------------------------------------------------------------
  // s.split() and s.strip()
  // ---------------------------------------------------------------------------

  /** The length of the run of non-whitespace characters `s` starts with. */
  function WordEnd(s: string): (k: nat)
    ensures k <= |s|
    ensures forall i :: 0 <= i < k ==> !IsSpace(s[i])
    ensures k < |s| ==> IsSpace(s[k])
  {
    if s == [] || IsSpace(s[0]) then 0 else 1 + WordEnd(s[1..])
  }

  /** `s.split()`: the maximal runs of non-whitespace characters, in order. */
  function Fields(s: string): (r: seq<string>)
    ensures forall i :: 0 <= i < |r| ==> IsWord(r[i])
    decreases |s|
  {
    if s == [] then []
    else if IsSpace(s[0]) then Fields(s[1..])
    else
      var k := WordEnd(s);
      [s[..k]] + Fields(s[k..])
  }

  lemma {:induction false} WordEndAfterWord(w: string, x: string)
    requires forall i :: 0 <= i < |w| ==> !IsSpace(w[i])
    requires x == [] || IsSpace(x[0])
    ensures WordEnd(w + x) == |w|
  {
    if w != [] {
      assert (w + x)[1..] == w[1..] + x;
      WordEndAfterWord(w[1..], x);
    }
  }

  lemma FieldsAfterWord(w: string, x: string)
    requires IsWord(w)
    requires x == [] || IsSpace(x[0])
    ensures Fields(w + x) == [w] + Fields(x)
  {
    WordEndAfterWord(w, x);
    assert (w + x)[..|w|] == w && (w + x)[|w|..] == x;
  }

  /** `s.split()` undoes joining words with single spaces. */
  lemma {:induction false} FieldsJoin(ws: seq<string>)
    requires forall i :: 0 <= i < |ws| ==> IsWord(ws[i])
    ensures Fields(Join(ws, " ")) == ws
  {
    if |ws| == 1 {
      FieldsAfterWord(ws[0], "");
      assert ws[0] + "" == ws[0];
    } else if |ws| > 1 {
      var rest := Join(ws[1..], " ");
      FieldsJoin(ws[1..]);
      FieldsAfterWord(ws[0], " " + rest);
      assert ws[0] + " " + rest == ws[0] + (" " + rest);
      assert (" " + rest)[1..] == rest;
      assert [ws[0]] + ws[1..] == ws;
    }
  }

  /** The number of whitespace characters `s` starts with. */
  function LeadingSpaces(s: string): (k: nat)
    ensures k <= |s|
    ensures forall i :: 0 <= i < k ==> IsSpace(s[i])
    ensures k < |s| ==> !IsSpace(s[k])
  {
    if s == [] || !IsSpace(s[0]) then 0 else 1 + LeadingSpaces(s[1..])
  }

  /** The number of whitespace characters `s` ends with. */
  function TrailingSpaces(s: string): (k: nat)
    ensures k <= |s|
    ensures forall i :: |s| - k <= i < |s| ==> IsSpace(s[i])
    ensures k < |s| ==> !IsSpace(s[|s| - k - 1])
  {
    if s == [] || !IsSpace(s[|s| - 1]) then 0 else 1 + TrailingSpaces(s[..|s| - 1])
  }

  /** `s.strip()`: `s` without its leading and trailing whitespace. */
  function Strip(s: string): (r: string)
    ensures r == [] || (!IsSpace(r[0]) && !IsSpace(r[|r| - 1]))
  {
    var i := LeadingSpaces(s);
    var j := |s| - TrailingSpaces(s[i..]);
    s[i..j]
  }

  /** What `Strip` removes is whitespace, from the two ends only. */
  lemma StripRemovesSpaces(s: string)
    ensures exists i, j :: 0 <= i <= j <= |s| && Strip(s) == s[i..j]
                           && (forall k :: 0 <= k < i ==> IsSpace(s[k]))
                           && (forall k :: j <= k < |s| ==> IsSpace(s[k]))
  {
    var i := LeadingSpaces(s);
    var j := |s| - TrailingSpaces(s[i..]);
    assert forall k :: j <= k < |s| ==> s[k] == s[i..][k - i];
    assert Strip(s) == s[i..j];
  }

  lemma {:induction false} FieldsDropsLeadingSpaces(sp: string, x: string)
    requires forall i :: 0 <= i < |sp| ==> IsSpace(sp[i])
    ensures Fields(sp + x) == Fields(x)
  {
    if sp != [] {
      assert (sp + x)[0] == sp[0] && IsSpace(sp[0]);
      assert (sp + x)[1..] == sp[1..] + x;
      FieldsDropsLeadingSpaces(sp[1..], x);
      assert Fields(sp + x) == Fields((sp + x)[1..]);
    } else {
      assert sp + x == x;
    }
  }

  lemma {:induction false} WordEndBeforeSpaces(x: string, sp: string)
    requires forall i :: 0 <= i < |sp| ==> IsSpace(sp[i])
    ensures WordEnd(x + sp) == WordEnd(x)
  {
    if x == [] {
      assert x + sp == sp;
    } else if !IsSpace(x[0]) {
      assert (x + sp)[1..] == x[1..] + sp;
      WordEndBeforeSpaces(x[1..], sp);
    }
  }

  lemma {:induction false} FieldsDropsTrailingSpaces(x: string, sp: string)
    requires forall i :: 0 <= i < |sp| ==> IsSpace(sp[i])
    ensures Fields(x + sp) == Fields(x)
    decreases |x|
  {
    if x == [] {
      assert x + sp == sp + [];
      FieldsDropsLeadingSpaces(sp, []);
    } else if IsSpace(x[0]) {
      assert (x + sp)[1..] == x[1..] + sp;
      FieldsDropsTrailingSpaces(x[1..], sp);
    } else {
      var k := WordEnd(x);
      WordEndBeforeSpaces(x, sp);
      assert (x + sp)[..k] == x[..k];
      assert (x + sp)[k..] == x[k..] + sp;
      FieldsDropsTrailingSpaces(x[k..], sp);
    }
  }

  /** A string is its text before position `m` followed by its text from `m` on. */
  lemma Halves(s: string, m: nat)
    requires m <= |s|
    ensures s[..m] + s[m..] == s
  {
  }

  lemma DropLeadingKeepsFields(s: string)
    ensures Fields(s[LeadingSpaces(s)..]) == Fields(s)
  {
    var i := LeadingSpaces(s);
    Halves(s, i);
    FieldsDropsLeadingSpaces(s[..i], s[i..]);
  }

  lemma DropTrailingKeepsFields(t: string)
    ensures Fields(t[..|t| - TrailingSpaces(t)]) == Fields(t)
  {
    var m := |t| - TrailingSpaces(t);
    var sp := t[m..];
    Halves(t, m);
    assert forall i :: 0 <= i < |sp| ==> IsSpace(sp[i]) by {
      forall i | 0 <= i < |sp| ensures IsSpace(sp[i]) {
        assert sp[i] == t[m + i];
      }
    }
    FieldsDropsTrailingSpaces(t[..m], sp);
  }

  /** Stripping a line first does not change its whitespace-separated fields. */
  lemma StripKeepsFields(s: string)
    ensures Fields(Strip(s)) == Fields(s)
  {
    var t := s[LeadingSpaces(s)..];
    assert Strip(s) == t[..|t| - TrailingSpaces(t)];
    DropLeadingKeepsFields(s);
    DropTrailingKeepsFields(t);
  }
}
