/**
 * The text handling shared by both extract handlers: a file's contents are cut
 * into lines on "\r\n" and every line into fields on ",", the way JavaScript's
 * `String.prototype.split` does with a non-empty separator; line 0 is the header
 * row and the remaining lines are the data rows.
 */
module Csv {

  const LineBreak: string := "\r\n"
  const Comma: string := ","

  /** `sep` occurs in `s` starting at position `i`. */
  predicate MatchAt(s: string, i: nat, sep: string) {
    i + |sep| <= |s| && s[i..i + |sep|] == sep
  }

  /** `sep` occurs somewhere in `s`. */
  predicate Contains(s: string, sep: string) {
    exists i: nat | i <= |s| :: MatchAt(s, i, sep)
  }

  /** No proper prefix of `sep` is also a suffix of it, so two occurrences never overlap. */
  predicate BorderFree(sep: string) {
    forall k | 0 < k < |sep| :: sep[..k] != sep[|sep| - k..]
  }

  /**
   * JavaScript `s.split(sep)` for a non-empty `sep`: scanning left to right, every
   * occurrence of `sep` ends the current part and is dropped; the text after the
   * last occurrence is the last part. The empty string gives `[""]`.
   */
  function Split(s: string, sep: string): (parts: seq<string>)
    requires |sep| > 0
    ensures |parts| >= 1
    decreases |s|
  {
    if |s| < |sep| then [s]
    else if s[..|sep|] == sep then [""] + Split(s[|sep|..], sep)
    else
      var rest := Split(s[1..], sep);
      [[s[0]] + rest[0]] + rest[1..]
  }

  /** JavaScript `parts.join(sep)`. */
  function Join(parts: seq<string>, sep: string): string
  {
    if |parts| == 0 then ""
    else if |parts| == 1 then parts[0]
    else parts[0] + sep + Join(parts[1..], sep)
  }

  lemma JoinCons(p: string, ps: seq<string>, sep: string)
    ensures Join([p] + ps, sep) == if ps == [] then p else p + sep + Join(ps, sep)
  {
    assert ([p] + ps)[1..] == ps;
  }

  lemma {:induction false} JoinSnoc(ps: seq<string>, p: string, sep: string)
    requires |ps| >= 1
    ensures Join(ps + [p], sep) == Join(ps, sep) + sep + p
    decreases |ps|
  {
    if |ps| == 1 {
      assert ps + [p] == [ps[0]] + [p];
      JoinCons(ps[0], [p], sep);
    } else {
      assert ps + [p] == [ps[0]] + (ps[1..] + [p]);
      JoinCons(ps[0], ps[1..] + [p], sep);
      JoinSnoc(ps[1..], p, sep);
      JoinCons(ps[0], ps[1..], sep);
    }
  }

  /** Joining the parts of a split with the same separator gives back the input. */
  lemma {:induction false} JoinSplit(s: string, sep: string)
    requires |sep| > 0
    ensures Join(Split(s, sep), sep) == s
    decreases |s|
  {
    if |s| < |sep| {
    } else if s[..|sep|] == sep {
      JoinSplit(s[|sep|..], sep);
      JoinSplitAtSeparator(s, sep);
    } else {
      JoinSplit(s[1..], sep);
      JoinSplitOther(s, sep);
    }
  }

  /** The step of `JoinSplit` where the input starts with the separator. */
  lemma JoinSplitAtSeparator(s: string, sep: string)
    requires 0 < |sep| <= |s| && s[..|sep|] == sep
    requires Join(Split(s[|sep|..], sep), sep) == s[|sep|..]
    ensures Join(Split(s, sep), sep) == s
  {
    var tail := s[|sep|..];
    assert Split(s, sep) == [""] + Split(tail, sep);
    JoinAfterSeparator(Split(tail, sep), sep, tail);
    Halves(s, |sep|);
  }

  /** Joining an empty first part in front of parts that join to `tail`. */
  lemma JoinAfterSeparator(rest: seq<string>, sep: string, tail: string)
    requires |rest| >= 1 && Join(rest, sep) == tail
    ensures Join([""] + rest, sep) == sep + tail
  {
    JoinCons("", rest, sep);
  }

  /** The step of `JoinSplit` where the input starts with any other character. */
  lemma JoinSplitOther(s: string, sep: string)
    requires 0 < |sep| <= |s| && s[..|sep|] != sep
    requires Join(Split(s[1..], sep), sep) == s[1..]
    ensures Join(Split(s, sep), sep) == s
  {
    var rest := Split(s[1..], sep);
    assert Split(s, sep) == [[s[0]] + rest[0]] + rest[1..];
    JoinSplitStep(s[0], rest, sep);
    Halves(s, 1);
  }

  lemma Halves(s: string, k: nat)
    requires k <= |s|
    ensures s == s[..k] + s[k..]
    ensures k == 1 ==> s == [s[0]] + s[1..]
  {
  }

  /** Prepending a character to the first part prepends it to the join. */
  lemma JoinSplitStep(c: char, rest: seq<string>, sep: string)
    requires |rest| >= 1
    ensures Join([[c] + rest[0]] + rest[1..], sep) == [c] + Join(rest, sep)
  {
    JoinCons(rest[0], rest[1..], sep);
    assert rest == [rest[0]] + rest[1..];
    JoinCons([c] + rest[0], rest[1..], sep);
  }

  /** The first part of a split is a prefix of the input. */
  lemma {:induction false} SplitHeadIsPrefix(s: string, sep: string)
    requires |sep| > 0
    ensures Split(s, sep)[0] <= s
    decreases |s|
  {
    if |s| < |sep| {
    } else if s[..|sep|] == sep {
    } else {
      SplitHeadIsPrefix(s[1..], sep);
      assert s == [s[0]] + s[1..];
    }
  }

  lemma MatchAtCons(c: char, t: string, i: nat, sep: string)
    ensures MatchAt([c] + t, i + 1, sep) == MatchAt(t, i, sep)
  {
    if i + 1 + |sep| <= |[c] + t| {
      assert ([c] + t)[i + 1..i + 1 + |sep|] == t[i..i + |sep|];
    }
  }

  /** No part of a split contains the separator. */
  lemma {:induction false} SplitPartsFree(s: string, sep: string)
    requires |sep| > 0
    ensures forall k | 0 <= k < |Split(s, sep)| :: !Contains(Split(s, sep)[k], sep)
    decreases |s|
  {
    var parts := Split(s, sep);
    if |s| < |sep| {
      assert parts == [s];
      forall i: nat ensures !MatchAt(s, i, sep) { }
    } else if s[..|sep|] == sep {
      SplitPartsFree(s[|sep|..], sep);
      assert parts == [""] + Split(s[|sep|..], sep);
      forall i: nat ensures !MatchAt("", i, sep) { }
    } else {
      var rest := Split(s[1..], sep);
      SplitPartsFree(s[1..], sep);
      SplitHeadIsPrefix(s[1..], sep);
      var head := [s[0]] + rest[0];
      assert parts == [head] + rest[1..];
      forall i: nat ensures !MatchAt(head, i, sep) {
        if i == 0 {
          if |sep| <= |head| {
            assert head[..|sep|] == s[..|sep|];
          }
        } else {
          MatchAtCons(s[0], rest[0], i - 1, sep);
          assert !MatchAt(rest[0], i - 1, sep);
        }
      }
      forall k | 0 <= k < |parts| ensures !Contains(parts[k], sep) {
        if k > 0 {
          assert parts[k] == rest[k];
        }
      }
    }
  }

  /** A string without the separator is not cut at all. */
  lemma {:induction false} SplitFree(s: string, sep: string)
    requires |sep| > 0
    requires !Contains(s, sep)
    ensures Split(s, sep) == [s]
    decreases |s|
  {
    if |s| < |sep| {
    } else {
      assert !MatchAt(s, 0, sep);
      assert s[..|sep|] != sep;
      forall i: nat ensures !MatchAt(s[1..], i, sep) {
        assert s == [s[0]] + s[1..];
        MatchAtCons(s[0], s[1..], i, sep);
        assert !MatchAt(s, i + 1, sep);
      }
      SplitFree(s[1..], sep);
      assert s == [s[0]] + s[1..];
    }
  }

  /** A part free of a border-free separator cannot hide an occurrence that starts inside it. */
  lemma NoEarlyMatch(p: string, sep: string, u: string, i: nat)
    requires |sep| > 0 && BorderFree(sep)
    requires !Contains(p, sep)
    requires i < |p|
    ensures !MatchAt(p + sep + u, i, sep)
  {
    var s := p + sep + u;
    if i + |sep| <= |p| {
      assert s[i..i + |sep|] == p[i..i + |sep|];
      assert !MatchAt(p, i, sep);
    } else {
      var k := i + |sep| - |p|;
      var w := s[i..i + |sep|];
      assert w == p[i..] + sep[..k];
      assert w[|sep| - k..] == sep[..k];
      assert sep[..k] != sep[|sep| - k..];
    }
  }

  /** Splitting a part, the separator and more text cuts exactly after that part. */
  lemma {:induction false} SplitCons(p: string, sep: string, u: string)
    requires |sep| > 0
    requires forall i: nat | i < |p| :: !MatchAt(p + sep + u, i, sep)
    ensures Split(p + sep + u, sep) == [p] + Split(u, sep)
    decreases |p|
  {
    var s := p + sep + u;
    if |p| == 0 {
      assert s == sep + u;
      assert s[..|sep|] == sep && s[|sep|..] == u;
    } else {
      assert !MatchAt(s, 0, sep);
      assert s[1..] == p[1..] + sep + u;
      forall i: nat | i < |p[1..]| ensures !MatchAt(p[1..] + sep + u, i, sep) {
        assert s == [s[0]] + s[1..];
        MatchAtCons(s[0], s[1..], i, sep);
        assert !MatchAt(s, i + 1, sep);
      }
      SplitCons(p[1..], sep, u);
      assert [s[0]] + p[1..] == p;
    }
  }

  /**
   * For a border-free separator (both "\r\n" and "," are), splitting a join of
   * separator-free parts gives the parts back: `Split` is one-to-one.
   */
  lemma {:induction false} SplitJoin(parts: seq<string>, sep: string)
    requires |sep| > 0 && BorderFree(sep)
    requires |parts| >= 1
    requires forall k | 0 <= k < |parts| :: !Contains(parts[k], sep)
    ensures Split(Join(parts, sep), sep) == parts
    decreases |parts|
  {
    if |parts| == 1 {
      SplitFree(parts[0], sep);
    } else {
      var j := Join(parts[1..], sep);
      JoinCons(parts[0], parts[1..], sep);
      assert parts == [parts[0]] + parts[1..];
      forall i: nat | i < |parts[0]| ensures !MatchAt(parts[0] + sep + j, i, sep) {
        NoEarlyMatch(parts[0], sep, j, i);
      }
      SplitCons(parts[0], sep, j);
      SplitJoin(parts[1..], sep);
    }
  }

  lemma SeparatorsBorderFree()
    ensures BorderFree(LineBreak) && BorderFree(Comma)
  {
    assert LineBreak[..1] == "\r" && LineBreak[1..] == "\n";
  }

  /** Cuts every line into its fields on ",". */
  function SplitLines(lines: seq<string>): seq<seq<string>>
  {
    seq(|lines|, k requires 0 <= k < |lines| => Split(lines[k], Comma))
  }

  /** Joins the fields of every line with ",". */
  function JoinLines(rows: seq<seq<string>>): seq<string>
  {
    seq(|rows|, k requires 0 <= k < |rows| => Join(rows[k], Comma))
  }

  /** The contents cut into lines on "\r\n", and every line into fields on ",". */
  function Lines(contents: string): seq<seq<string>>
  {
    SplitLines(Split(contents, LineBreak))
  }

  /** The header row and the data rows of one file. */
  datatype Table = Table(headers: seq<string>, rows: seq<seq<string>>)

  /** Line 0 becomes the header row, every later line a data row. */
  function Parse(contents: string): Table
  {
    var lines := Lines(contents);
    Table(lines[0], lines[1..])
  }

  /** The inverse of `Parse`: fields joined with ",", lines joined with "\r\n". */
  function Unparse(t: Table): string
  {
    Join(JoinLines([t.headers] + t.rows), LineBreak)
  }

  /** A line as `Parse` produces it: one field at least, no "," in a field, no "\r\n" in the line. */
  predicate WellFormedLine(fields: seq<string>)
  {
    && |fields| >= 1
    && (forall k | 0 <= k < |fields| :: !Contains(fields[k], Comma))
    && !Contains(Join(fields, Comma), LineBreak)
  }

  predicate WellFormed(t: Table)
  {
    WellFormedLine(t.headers) && forall k | 0 <= k < |t.rows| :: WellFormedLine(t.rows[k])
  }

  /** The header row is line 0 and the data rows are lines 1 to the end, so there is one row fewer than lines. */
  lemma ParsePartition(contents: string)
    ensures [Parse(contents).headers] + Parse(contents).rows == Lines(contents)
    ensures |Parse(contents).rows| == |Split(contents, LineBreak)| - 1
    ensures Parse(contents).headers == Split(Split(contents, LineBreak)[0], Comma)
  {
    var lines := Lines(contents);
    assert lines == [lines[0]] + lines[1..];
  }

  /** Re-joining the fields with "," and the lines with "\r\n" reconstructs the contents exactly. */
  lemma UnparseParse(contents: string)
    ensures Unparse(Parse(contents)) == contents
  {
    var ls := Split(contents, LineBreak);
    ParsePartition(contents);
    var joined := JoinLines(Lines(contents));
    forall k | 0 <= k < |ls| ensures joined[k] == ls[k] {
      JoinSplit(ls[k], Comma);
    }
    assert joined == ls;
    JoinSplit(contents, LineBreak);
  }

  /** Every line `Parse` yields has a field, and no separator survives inside a field or a line. */
  lemma ParseWellFormed(contents: string)
    ensures WellFormed(Parse(contents))
  {
    var ls := Split(contents, LineBreak);
    var lines := Lines(contents);
    SplitPartsFree(contents, LineBreak);
    assert forall k | 0 <= k < |lines| :: WellFormedLine(lines[k]) by {
      forall k | 0 <= k < |lines| ensures WellFormedLine(lines[k]) {
        SplitPartsFree(ls[k], Comma);
        JoinSplit(ls[k], Comma);
      }
    }
    ParsePartition(contents);
    var t := Parse(contents);
    assert t.headers == lines[0];
    assert forall k | 0 <= k < |t.rows| :: t.rows[k] == lines[k + 1];
  }

  /** On well-formed tables `Parse` undoes `Unparse`, so the two are inverse bijections. */
  lemma ParseUnparse(t: Table)
    requires WellFormed(t)
    ensures Parse(Unparse(t)) == t
  {
    var all := [t.headers] + t.rows;
    var ls := JoinLines(all);
    assert forall k | 0 <= k < |all| :: WellFormedLine(all[k]) by {
      forall k | 0 <= k < |all| ensures WellFormedLine(all[k]) {
        if k > 0 { assert all[k] == t.rows[k - 1]; }
      }
    }
    SeparatorsBorderFree();
    SplitJoin(ls, LineBreak);
    var lines := Lines(Unparse(t));
    assert lines == SplitLines(ls);
    forall k | 0 <= k < |all| ensures lines[k] == all[k] {
      SplitJoin(all[k], Comma);
    }
    assert lines == all;
    assert lines[1..] == t.rows;
  }

  lemma ContainsShift(a: string, t: string, b: string, sep: string)
    requires Contains(t, sep)
    ensures Contains(a + t + b, sep)
  {
    var i: nat :| i <= |t| && MatchAt(t, i, sep);
    assert (a + t + b)[|a| + i..|a| + i + |sep|] == t[i..i + |sep|];
    assert MatchAt(a + t + b, |a| + i, sep);
  }

  /** A separator inside one part shows up in their join. */
  lemma {:induction false} ContainsJoin(parts: seq<string>, sep: string, x: string, k: nat)
    requires k < |parts| && Contains(parts[k], x)
    ensures Contains(Join(parts, sep), x)
    decreases |parts|
  {
    if |parts| == 1 {
    } else if k == 0 {
      ContainsShift("", parts[0], sep + Join(parts[1..], sep), x);
      assert "" + parts[0] + (sep + Join(parts[1..], sep)) == Join(parts, sep);
    } else {
      ContainsJoin(parts[1..], sep, x, k - 1);
      ContainsShift(parts[0] + sep, Join(parts[1..], sep), "", x);
      assert parts[0] + sep + Join(parts[1..], sep) + "" == Join(parts, sep);
    }
  }

  /** No field of a parsed file contains "\r\n" either. */
  lemma FieldsWithoutLineBreak(contents: string)
    ensures forall k | 0 <= k < |Parse(contents).headers| :: !Contains(Parse(contents).headers[k], LineBreak)
    ensures forall r, k | 0 <= r < |Parse(contents).rows| && 0 <= k < |Parse(contents).rows[r]| ::
      !Contains(Parse(contents).rows[r][k], LineBreak)
  {
    var t := Parse(contents);
    ParseWellFormed(contents);
    forall k | 0 <= k < |t.headers| ensures !Contains(t.headers[k], LineBreak) {
      if Contains(t.headers[k], LineBreak) { ContainsJoin(t.headers, Comma, LineBreak, k); }
    }
    forall r, k | 0 <= r < |t.rows| && 0 <= k < |t.rows[r]| ensures !Contains(t.rows[r][k], LineBreak) {
      if Contains(t.rows[r][k], LineBreak) { ContainsJoin(t.rows[r], Comma, LineBreak, k); }
    }
  }

  /** A trailing "\r\n" adds exactly one data row, `[""]`, and changes nothing else. */
  lemma TrailingLineBreak(contents: string)
    ensures Parse(contents + LineBreak).headers == Parse(contents).headers
    ensures Parse(contents + LineBreak).rows == Parse(contents).rows + [[""]]
  {
    var ls := Split(contents, LineBreak);
    SplitPartsFree(contents, LineBreak);
    JoinSplit(contents, LineBreak);
    JoinSnoc(ls, "", LineBreak);
    forall k | 0 <= k < |ls + [""]| ensures !Contains((ls + [""])[k], LineBreak) {
      if k == |ls| {
        assert !MatchAt("", 0, LineBreak);
      } else {
        assert (ls + [""])[k] == ls[k];
      }
    }
    assert Join(ls, LineBreak) + LineBreak + "" == contents + LineBreak;
    SeparatorsBorderFree();
    SplitJoin(ls + [""], LineBreak);
    assert Split(contents + LineBreak, LineBreak) == ls + [""];
    assert Split("", Comma) == [""];
    var a := Lines(contents);
    var b := Lines(contents + LineBreak);
    assert b == a + [[""]];
    assert b[1..] == a[1..] + [[""]];
  }

  /** Every stored file, parsed. */
  function Parsed<K>(objects: map<K, string>): map<K, Table>
  {
    map obj | obj in objects :: Parse(objects[obj])
  }

  /** `files` holds exactly the stored files, each parsed. */
  predicate ParsedFrom<K>(files: map<K, Table>, objects: map<K, string>)
  {
    && files.Keys == objects.Keys
    && forall obj {:trigger Parse(objects[obj])} | obj in objects :: files[obj] == Parse(objects[obj])
  }
}
