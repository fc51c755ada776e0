/**
 * What sort_chat_log guarantees, proved about the functions of module ChatLog:
 * line endings, the reassembly of multi-line entries, the error condition, the
 * timestamp rewrite, and the shape and order of the output.
 */
module ChatLogFacts {
  import opened Wrappers
  import opened Text
  import opened Order
  import opened Timestamp
  import opened ChatLog

  // ---------------------------------------------------------------- line endings

  lemma {:induction false} CrLfFacts(s: String)
    ensures ReplaceCrLf(s) == [] <==> s == []
    ensures '\r' !in s ==> ReplaceCrLf(s) == s
    decreases |s|
  {
    if s != [] {
      if |s| >= 2 && s[0] == '\r' && s[1] == '\n' {
        CrLfFacts(s[2..]);
      } else {
        CrLfFacts(s[1..]);
        if '\r' !in s {
          assert '\r' !in s[1..] by {
            forall c | c in s[1..] ensures c != '\r' { assert c in s; }
          }
          assert s == [s[0]] + s[1..];
        }
      }
    }
  }

  /** After step 1 no CR is left, the text is empty only if the input was, and text without CR is untouched. */
  lemma LineEndings(s: String)
    ensures '\r' !in NormalizeLineEndings(s)
    ensures NormalizeLineEndings(s) == [] <==> s == []
    ensures '\r' !in s ==> NormalizeLineEndings(s) == s
  {
    CrLfFacts(s);
    var t := ReplaceCrLf(s);
    assert forall i :: 0 <= i < |t| ==> ReplaceCr(t)[i] != '\r';
    if '\r' !in s {
      assert forall i :: 0 <= i < |s| ==> ReplaceCr(s)[i] == s[i];
    }
  }

  lemma {:induction false} CrLfAppend(a: String, b: String)
    requires a == [] || a[|a| - 1] != '\r'
    ensures ReplaceCrLf(a + b) == ReplaceCrLf(a) + ReplaceCrLf(b)
    decreases |a|
  {
    var ab := a + b;
    if a == [] {
      assert ab == b;
    } else if |a| >= 2 && a[0] == '\r' && a[1] == '\n' {
      assert ab[0] == '\r' && ab[1] == '\n';
      assert ab[2..] == a[2..] + b;
      CrLfAppend(a[2..], b);
      CrLfPair(ab);
      CrLfPair(a);
    } else {
      assert ab[0] == a[0];
      assert |a| >= 2 ==> ab[1] == a[1];
      assert ab[1..] == a[1..] + b;
      CrLfAppend(a[1..], b);
      CrLfSingle(ab);
      CrLfSingle(a);
    }
  }

  /** A leading CR LF becomes one LF. */
  lemma CrLfPair(s: String)
    requires |s| >= 2 && s[0] == '\r' && s[1] == '\n'
    ensures ReplaceCrLf(s) == "\n" + ReplaceCrLf(s[2..])
  {
  }

  /** Any other leading character is kept. */
  lemma CrLfSingle(s: String)
    requires s != [] && !(|s| >= 2 && s[0] == '\r' && s[1] == '\n')
    ensures ReplaceCrLf(s) == [s[0]] + ReplaceCrLf(s[1..])
  {
  }

  /** Step 1 works piecewise when the first piece does not end in a CR. */
  lemma LineEndingsAppend(a: String, b: String)
    requires a == [] || a[|a| - 1] != '\r'
    ensures NormalizeLineEndings(a + b) == NormalizeLineEndings(a) + NormalizeLineEndings(b)
  {
    CrLfAppend(a, b);
    var x, y := ReplaceCrLf(a), ReplaceCrLf(b);
    assert ReplaceCr(x + y) == ReplaceCr(x) + ReplaceCr(y);
  }

  lemma {:induction false} CrLfLastLf(s: String)
    requires s != [] && s[|s| - 1] == '\n'
    ensures ReplaceCrLf(s) != [] && ReplaceCrLf(s)[|ReplaceCrLf(s)| - 1] == '\n'
    decreases |s|
  {
    if |s| >= 2 && s[0] == '\r' && s[1] == '\n' {
      if |s| > 2 { CrLfLastLf(s[2..]); }
    } else if |s| > 1 {
      CrLfLastLf(s[1..]);
    }
  }

  /** Step 1 keeps a final line feed. */
  lemma LineEndingsLastLf(s: String)
    requires s != [] && s[|s| - 1] == '\n'
    ensures var t := NormalizeLineEndings(s); t != [] && t[|t| - 1] == '\n'
  {
    CrLfLastLf(s);
  }

  /** A text that ends in a line feed has an empty last physical line. */
  lemma LastLineEmpty(s: String)
    requires s != [] && s[|s| - 1] == '\n'
    ensures Lines(s)[|Lines(s)| - 1] == []
  {
    LineEndingsLastLf(s);
    SplitAfterSep(NormalizeLineEndings(s), [], '\n');
  }

  // ---------------------------------------------------------------- reassembly

  /** All physical lines of the entries, in order. */
  function Flatten(groups: seq<seq<String>>): seq<String>
    decreases |groups|
  {
    if groups == [] then [] else Flatten(groups[..|groups| - 1]) + groups[|groups| - 1]
  }

  /** The lines that are not empty, in order. */
  function NonEmptyLines(lines: seq<String>): seq<String>
    decreases |lines|
  {
    if lines == [] then []
    else NonEmptyLines(lines[..|lines| - 1]) + (if lines[|lines| - 1] == [] then [] else [lines[|lines| - 1]])
  }

  /**
   * The shape of a reassembled log: no entry is empty, every entry except
   * perhaps the first starts with an opener, and no continuation line is one.
   */
  predicate Shaped(groups: seq<seq<String>>, opens: String -> bool) {
    && (forall k :: 0 <= k < |groups| ==> groups[k] != [])
    && (forall k :: 0 < k < |groups| ==> opens(groups[k][0]))
    && (forall k, j :: 0 <= k < |groups| && 0 < j < |groups[k]| ==> !opens(groups[k][j]))
  }

  /** Every line of every entry is one of the given lines, and not empty. */
  predicate LinesFrom(groups: seq<seq<String>>, lines: seq<String>) {
    forall k, j :: 0 <= k < |groups| && 0 <= j < |groups[k]| ==> groups[k][j] in lines && groups[k][j] != []
  }

  /** One reassembly step keeps the log shaped and appends the line unless it is empty. */
  lemma ExtendShape(done: seq<seq<String>>, line: String, opens: String -> bool)
    requires Shaped(done, opens) && !opens([])
    ensures Shaped(Extend(done, line, opens), opens)
    ensures Flatten(Extend(done, line, opens)) == Flatten(done) + (if line == [] then [] else [line])
  {
    if opens(line) {
      assert (done + [[line]])[..|done|] == done;
    } else if line != [] && done != [] {
      ExtendLast(done, line, opens);
    }
  }

  /** A continuation line joins the last entry. */
  lemma ExtendLast(done: seq<seq<String>>, line: String, opens: String -> bool)
    requires Shaped(done, opens) && done != [] && !opens(line)
    ensures var n := |done| - 1; var g := done[..n] + [done[n] + [line]];
      Shaped(g, opens) && Flatten(g) == Flatten(done) + [line]
  {
    var n := |done| - 1;
    var g := done[..n] + [done[n] + [line]];
    assert g[..n] == done[..n];
    assert done == done[..n] + [done[n]];
    assert Flatten(done) == Flatten(done[..n]) + done[n];
    assert Shaped(g, opens) by {
      forall k, j | 0 <= k < |g| && 0 < j < |g[k]| ensures !opens(g[k][j]) {
        if k < n || j < |done[n]| {
          assert g[k][j] == done[k][j];
        }
      }
    }
  }

  /** One reassembly step only uses lines it already had and the new one. */
  lemma ExtendLinesFrom(done: seq<seq<String>>, line: String, opens: String -> bool, lines: seq<String>)
    requires LinesFrom(done, lines) && line in lines && !opens([])
    ensures LinesFrom(Extend(done, line, opens), lines)
  {
    if !opens(line) && line != [] && done != [] {
      var n := |done| - 1;
      var g := done[..n] + [done[n] + [line]];
      forall k, j | 0 <= k < |g| && 0 <= j < |g[k]| ensures g[k][j] in lines && g[k][j] != [] {
        if k < n || j < |done[n]| {
          assert g[k][j] == done[k][j];
        }
      }
    }
  }

  /** Reassembly keeps every non-empty line, in order, and splits them into a shaped log. */
  lemma {:induction false} GroupShape(lines: seq<String>, opens: String -> bool)
    requires !opens([])
    ensures Shaped(Group(lines, opens), opens)
    ensures Flatten(Group(lines, opens)) == NonEmptyLines(lines)
    ensures LinesFrom(Group(lines, opens), lines)
    decreases |lines|
  {
    if lines != [] {
      var init := lines[..|lines| - 1];
      var line := lines[|lines| - 1];
      GroupShape(init, opens);
      var done := Group(init, opens);
      ExtendShape(done, line, opens);
      assert LinesFrom(done, lines) by {
        forall k, j | 0 <= k < |done| && 0 <= j < |done[k]| ensures done[k][j] in lines && done[k][j] != [] {
          assert done[k][j] in init;
        }
      }
      ExtendLinesFrom(done, line, opens, lines);
    }
  }

  lemma {:induction false} FlattenEmpty(groups: seq<seq<String>>)
    requires forall k :: 0 <= k < |groups| ==> groups[k] != []
    ensures Flatten(groups) == [] <==> groups == []
    ensures groups != [] ==> |Flatten(groups)| >= |groups[|groups| - 1]|
  {
  }

  lemma ShapedPrefix(groups: seq<seq<String>>, opens: String -> bool)
    requires Shaped(groups, opens) && groups != []
    ensures Shaped(groups[..|groups| - 1], opens)
  {
  }

  /** In two shaped logs with the same lines, the last entry of the first is no longer than the other's. */
  lemma LastNoLonger(g1: seq<seq<String>>, g2: seq<seq<String>>, opens: String -> bool)
    requires Shaped(g1, opens) && Shaped(g2, opens) && g1 != [] && g2 != []
    requires Flatten(g1) == Flatten(g2)
    ensures |g1[|g1| - 1]| <= |g2[|g2| - 1]|
  {
    FlattenEmpty(g1);
    var l1, l2 := g1[|g1| - 1], g2[|g2| - 1];
    if |l2| < |l1| {
      // l2 would start inside l1: its first line would be both an opener and a continuation.
      SuffixIndex(Flatten(g1[..|g1| - 1]), l1, Flatten(g2[..|g2| - 1]), l2);
      assert false;
    }
  }

  lemma SuffixIndex(x: seq<String>, a: seq<String>, y: seq<String>, b: seq<String>)
    requires x + a == y + b && 0 < |b| < |a|
    ensures b[0] == a[|a| - |b|] && |y| > 0
  {
    assert (y + b)[|y|] == (x + a)[|x| + |a| - |b|];
  }

  /** A shaped log is determined by its lines. */
  lemma {:induction false} ShapedUnique(g1: seq<seq<String>>, g2: seq<seq<String>>, opens: String -> bool)
    requires Shaped(g1, opens) && Shaped(g2, opens)
    requires Flatten(g1) == Flatten(g2)
    ensures g1 == g2
    decreases |g1|
  {
    FlattenEmpty(g1);
    FlattenEmpty(g2);
    if g1 != [] && g2 != [] {
      LastNoLonger(g1, g2, opens);
      LastNoLonger(g2, g1, opens);
      var i1, l1 := g1[..|g1| - 1], g1[|g1| - 1];
      var i2, l2 := g2[..|g2| - 1], g2[|g2| - 1];
      var f := Flatten(g1);
      assert f == Flatten(i1) + l1 && f == Flatten(i2) + l2;
      assert l1 == f[|f| - |l1|..] == l2;
      assert Flatten(i1) == f[..|f| - |l1|] == Flatten(i2);
      ShapedPrefix(g1, opens);
      ShapedPrefix(g2, opens);
      ShapedUnique(i1, i2, opens);
      assert g1 == i1 + [l1] && g2 == i2 + [l2];
    }
  }

  /** Reassembly is the only shaped log of the non-empty lines. */
  lemma GroupUnique(groups: seq<seq<String>>, lines: seq<String>, opens: String -> bool)
    requires !opens([])
    requires Shaped(groups, opens) && Flatten(groups) == NonEmptyLines(lines)
    ensures groups == Group(lines, opens)
  {
    GroupShape(lines, opens);
    ShapedUnique(groups, Group(lines, opens), opens);
  }

  // ---------------------------------------------------------------- one entry

  /** A physical line as reassembly keeps it: not empty, and holding neither LF nor CR. */
  predicate CleanLine(l: String) {
    l != [] && '\n' !in l && '\r' !in l
  }

  predicate CleanLines(ls: seq<String>) {
    forall j :: 0 <= j < |ls| ==> CleanLine(ls[j])
  }

  /** Every line of the normalised text is free of LF and CR. */
  lemma LinesOneLine(content: String)
    ensures forall j :: 0 <= j < |Lines(content)| ==> '\n' !in Lines(content)[j] && '\r' !in Lines(content)[j]
  {
    var text := NormalizeLineEndings(content);
    LineEndings(content);
    forall j | 0 <= j < |Lines(content)| ensures '\r' !in Lines(content)[j] {
      if '\r' in Lines(content)[j] {
        SplitChars(text, '\n', j, '\r');
      }
    }
  }

  /** The entries reassembly builds from a log: shaped, and made of clean lines. */
  lemma LogGroups(content: String)
    ensures var groups := Group(Lines(content), IsOpener);
      && Shaped(groups, IsOpener)
      && Flatten(groups) == NonEmptyLines(Lines(content))
      && LinesFrom(groups, Lines(content))
      && forall k :: 0 <= k < |groups| ==> CleanLines(groups[k])
  {
    var lines := Lines(content);
    var groups := Group(lines, IsOpener);
    assert !IsOpener([]);
    GroupShape(lines, IsOpener);
    LinesOneLine(content);
    forall k, j | 0 <= k < |groups| && 0 <= j < |groups[k]| ensures CleanLine(groups[k][j]) {
      assert groups[k][j] in lines;
    }
  }

  lemma JoinHead(a: String, b: String, rest: seq<String>, sep: char)
    ensures Join([a + b] + rest, sep) == a + Join([b] + rest, sep)
  {
    if rest != [] {
      assert ([a + b] + rest)[1..] == rest;
      assert ([b] + rest)[1..] == rest;
    }
  }

  /** The rewrite replaces the timestamp at the head of an entry and keeps every character after it. */
  lemma NormalizeOpener(e: String)
    requires IsOpener(FirstLine(e))
    ensures WellFormed(Parse(FirstLine(e)).value.stamp)
    ensures var m := Parse(FirstLine(e)).value;
      && StartsWith(e, Render(m.stamp)) && m.end == |Render(m.stamp)|
      && NormalizeEntry(e) == Ok(Render(Canonical(m.stamp)) + e[m.end..])
  {
    var lines := Split(e, '\n');
    var first := lines[0];
    var m := Parse(first).value;
    ParseSound(first);
    JoinSplit(e, '\n');
    var a, b := first[..m.end], first[m.end..];
    assert first == a + b;
    assert lines == [a + b] + lines[1..];
    JoinHead(a, b, lines[1..], '\n');
    JoinHead(Render(Canonical(m.stamp)), b, lines[1..], '\n');
    assert e[..m.end] == a;
    assert e[m.end..] == Join([b] + lines[1..], '\n');
  }

  /** An entry whose first line does not start with '[' is kept as it is. */
  lemma NormalizePlain(e: String)
    requires FirstLine(e) == [] || FirstLine(e)[0] != '['
    ensures NormalizeEntry(e) == Ok(e)
  {
  }

  /** The entry text of a list of clean lines splits back into those lines. */
  lemma EntryOfGroup(g: seq<String>)
    requires g != [] && CleanLines(g)
    ensures Split(Join(g, '\n'), '\n') == g
    ensures FirstLine(Join(g, '\n')) == g[0]
  {
    SplitJoin(g, '\n');
  }

  lemma {:induction false} FlattenHead(groups: seq<seq<String>>)
    requires groups != [] && groups[0] != []
    ensures Flatten(groups) != [] && Flatten(groups)[0] == groups[0][0]
    decreases |groups|
  {
    if |groups| > 1 {
      var init := groups[..|groups| - 1];
      FlattenHead(init);
    }
  }

  // ---------------------------------------------------------------- all entries

  /** Step 3 succeeds exactly when every entry does, and then normalises each entry in place. */
  lemma {:induction false} NormalizeAllShape(es: seq<String>, normalize: String -> Result<String, Malformed>)
    ensures NormalizeAll(es, normalize).Ok? <==> forall k :: 0 <= k < |es| ==> normalize(es[k]).Ok?
    ensures NormalizeAll(es, normalize).Ok? ==>
      && |NormalizeAll(es, normalize).value| == |es|
      && forall k :: 0 <= k < |es| ==> NormalizeAll(es, normalize).value[k] == normalize(es[k]).value
    decreases |es|
  {
    if es != [] {
      var init := es[..|es| - 1];
      NormalizeAllShape(init, normalize);
      assert forall k :: 0 <= k < |init| ==> init[k] == es[k];
    }
  }

  /** When entries fail, the error reported is that of the first failing entry. */
  lemma NormalizeAllFirstError(es: seq<String>, k: nat, normalize: String -> Result<String, Malformed>)
    requires k < |es| && normalize(es[k]).Err?
    requires forall i :: 0 <= i < k ==> normalize(es[i]).Ok?
    ensures NormalizeAll(es, normalize) == Err(normalize(es[k]).error)
  {
    NormalizeAllShape(es[..k], normalize);
    assert es[..k + 1][..k] == es[..k];
    NormalizeAllStops(es, k + 1, normalize);
  }

  // ---------------------------------------------------------------- the whole log

  /** One entry fails exactly when its first line starts with '[' without matching. */
  lemma GroupFails(g: seq<String>)
    requires g != [] && CleanLines(g)
    ensures NormalizeEntry(Join(g, '\n')).Err? <==> StartsWith(g[0], "[") && !IsOpener(g[0])
    ensures NormalizeEntry(Join(g, '\n')).Err? ==>
      NormalizeEntry(Join(g, '\n')).error == MalformedTimestamp(g[0][..Min(80, |g[0]|)])
  {
    EntryOfGroup(g);
  }

  /** Reassembled entries fail exactly when the first one does. */
  lemma GroupsFail(groups: seq<seq<String>>)
    requires Shaped(groups, IsOpener) && groups != [] && groups[0] != []
    requires forall k :: 0 <= k < |groups| ==> CleanLines(groups[k])
    ensures var r := NormalizeAll(Texts(groups), NormalizeEntry);
      && (r.Err? <==> StartsWith(groups[0][0], "[") && !IsOpener(groups[0][0]))
      && (r.Err? ==> r.error == MalformedTimestamp(groups[0][0][..Min(80, |groups[0][0]|)]))
  {
    var es := Texts(groups);
    forall k | 0 < k < |es| ensures NormalizeEntry(es[k]).Ok? {
      GroupFails(groups[k]);
    }
    GroupFails(groups[0]);
    NormalizeAllShape(es, NormalizeEntry);
    if NormalizeEntry(es[0]).Err? {
      NormalizeAllFirstError(es, 0, NormalizeEntry);
    }
  }

  /**
   * sort_chat_log raises exactly when the first non-empty line starts with '['
   * without being a valid timestamp, and it reports that line cut to 80 characters.
   */
  lemma MalformedIff(content: String)
    ensures var first := NonEmptyLines(Lines(content));
      SortedLog(content).Err? <==> first != [] && StartsWith(first[0], "[") && !IsOpener(first[0])
    ensures var first := NonEmptyLines(Lines(content));
      SortedLog(content).Err? ==> first != [] && SortedLog(content).error == MalformedTimestamp(first[0][..Min(80, |first[0]|)])
  {
    LineEndings(content);
    var text := NormalizeLineEndings(content);
    var lines := Lines(content);
    if text == [] {
      assert lines == [[]];
      assert lines[..0] == [];
    } else {
      var groups := Group(lines, IsOpener);
      LogGroups(content);
      if groups != [] {
        FlattenHead(groups);
        GroupsFail(groups);
      }
    }
  }

  // ---------------------------------------------------------------- output framing

  /** A normalised entry: clean lines, none after the first an opener by `opens`. */
  predicate Tidy(n: String, opens: String -> bool) {
    var ls := Split(n, '\n');
    CleanLines(ls) && forall j :: 0 < j < |ls| ==> !opens(ls[j])
  }

  lemma TidyJoin(ls: seq<String>, opens: String -> bool)
    requires ls != [] && CleanLines(ls) && forall j :: 0 < j < |ls| ==> !opens(ls[j])
    ensures Tidy(Join(ls, '\n'), opens) && Split(Join(ls, '\n'), '\n') == ls
  {
    SplitJoin(ls, '\n');
  }

  /** The first line of an entry after its timestamp has been rewritten. */
  function Rewritten(line: String): String
    requires IsOpener(line)
  {
    var m := Parse(line).value;
    ParseSound(line);
    Render(Canonical(m.stamp)) + line[m.end..]
  }

  /** An opener entry normalises to its rewritten first line followed by its other lines. */
  lemma NormalizedGroup(g: seq<String>)
    requires g != [] && CleanLines(g) && IsOpener(g[0])
    ensures NormalizeEntry(Join(g, '\n')) == Ok(Join([Rewritten(g[0])] + g[1..], '\n'))
    ensures CleanLine(Rewritten(g[0]))
  {
    EntryOfGroup(g);
    var m := Parse(g[0]).value;
    ParseSound(g[0]);
    CanonicalFields(m.stamp);
    RenderOneLine(Canonical(m.stamp));
    var rest := g[0][m.end..];
    assert '\n' !in rest && '\r' !in rest by {
      forall ch | ch in rest ensures ch in g[0] { }
    }
  }

  /** An entry whose first line is not an opener and does not fail is kept as it is. */
  lemma PlainGroup(g: seq<String>)
    requires g != [] && CleanLines(g) && !IsOpener(g[0])
    requires NormalizeEntry(Join(g, '\n')).Ok?
    ensures NormalizeEntry(Join(g, '\n')) == Ok(Join(g, '\n'))
  {
    EntryOfGroup(g);
  }

  /** The rewrite of an opener entry is tidy: its continuation lines are kept. */
  lemma RewrittenTidy(g: seq<String>, opens: String -> bool)
    requires g != [] && CleanLines(g) && forall j :: 0 < j < |g| ==> !opens(g[j])
    requires IsOpener(g[0])
    ensures Tidy(Join([Rewritten(g[0])] + g[1..], '\n'), opens)
  {
    NormalizedGroup(g);
    var ls := [Rewritten(g[0])] + g[1..];
    assert forall j :: 0 < j < |ls| ==> ls[j] == g[j];
    TidyJoin(ls, opens);
  }

  lemma OpenerTidy(g: seq<String>, opens: String -> bool)
    requires g != [] && CleanLines(g) && forall j :: 0 < j < |g| ==> !opens(g[j])
    requires IsOpener(g[0])
    ensures NormalizeEntry(Join(g, '\n')).Ok?
    ensures Tidy(NormalizeEntry(Join(g, '\n')).value, opens)
  {
    NormalizedGroup(g);
    RewrittenTidy(g, opens);
  }

  lemma PlainTidy(g: seq<String>, opens: String -> bool)
    requires g != [] && CleanLines(g) && forall j :: 0 < j < |g| ==> !opens(g[j])
    requires !IsOpener(g[0])
    requires NormalizeEntry(Join(g, '\n')).Ok?
    ensures Tidy(NormalizeEntry(Join(g, '\n')).value, opens)
  {
    PlainGroup(g);
    TidyJoin(g, opens);
  }

  /** An entry of clean lines normalises, when it does, to a tidy entry. */
  lemma GroupTidy(g: seq<String>, opens: String -> bool)
    requires g != [] && CleanLines(g) && forall j :: 0 < j < |g| ==> !opens(g[j])
    requires NormalizeEntry(Join(g, '\n')).Ok?
    ensures Tidy(NormalizeEntry(Join(g, '\n')).value, opens)
  {
    if IsOpener(g[0]) {
      OpenerTidy(g, opens);
    } else {
      PlainTidy(g, opens);
    }
  }

  /** The entries of a log normalise to tidy entries. */
  lemma LogTidy(content: String)
    requires NormalizeAll(Entries(Lines(content)), NormalizeEntry).Ok?
    ensures forall n :: n in NormalizeAll(Entries(Lines(content)), NormalizeEntry).value ==> Tidy(n, IsOpener)
  {
    var groups := Group(Lines(content), IsOpener);
    LogGroups(content);
    var es := Texts(groups);
    NormalizeAllShape(es, NormalizeEntry);
    forall k | 0 <= k < |es| ensures Tidy(NormalizeEntry(es[k]).value, IsOpener) {
      GroupTidy(groups[k], IsOpener);
    }
  }

  /** A tidy entry is not empty, holds no CR and does not end with a line break. */
  lemma TidyText(n: String, opens: String -> bool)
    requires Tidy(n, opens)
    ensures n != [] && n[|n| - 1] != '\n' && '\r' !in n
  {
    var ls := Split(n, '\n');
    JoinSplit(n, '\n');
    JoinLast(ls, '\n');
    JoinNoSep(ls, '\n', '\r');
    var last := ls[|ls| - 1];
    assert n[|n| - 1] == last[|last| - 1];
    assert last[|last| - 1] in last;
  }

  lemma {:induction false} FlattenCons(g: seq<String>, gs: seq<seq<String>>)
    ensures Flatten([g] + gs) == g + Flatten(gs)
    decreases |gs|
  {
    if gs != [] {
      var init := gs[..|gs| - 1];
      FlattenCons(g, init);
      assert ([g] + gs)[..|gs|] == [g] + init;
    }
  }

  lemma {:induction false} FlattenClean(gs: seq<seq<String>>)
    requires forall k :: 0 <= k < |gs| ==> CleanLines(gs[k])
    ensures CleanLines(Flatten(gs))
    decreases |gs|
  {
    if gs != [] {
      FlattenClean(gs[..|gs| - 1]);
    }
  }

  /** The lines of each entry. */
  function SplitAll(entries: seq<String>): (r: seq<seq<String>>)
    ensures |r| == |entries|
  {
    seq(|entries|, k requires 0 <= k < |entries| => Split(entries[k], '\n'))
  }

  /** The lines of the joined entries are the entries' lines, one after the other. */
  lemma {:induction false} SplitJoinAll(entries: seq<String>)
    requires entries != []
    ensures Split(Join(entries, '\n'), '\n') == Flatten(SplitAll(entries))
    decreases |entries|
  {
    if |entries| == 1 {
      assert SplitAll(entries) == [] + [Split(entries[0], '\n')];
    } else {
      var rest := entries[1..];
      SplitJoinAll(rest);
      SplitAppend(entries[0], Join(rest, '\n'), '\n');
      assert SplitAll(entries) == [Split(entries[0], '\n')] + SplitAll(rest);
      FlattenCons(Split(entries[0], '\n'), SplitAll(rest));
    }
  }

  /** The entries of the output: sorted, without repeats, exactly the distinct normalised entries. */
  lemma SurvivorsShape(ns: seq<String>)
    ensures StrictlyIncreasing(Dedup(Sort(ns)))
    ensures Elements(Dedup(Sort(ns))) == Elements(ns)
  {
    DedupSortedStrict(Sort(ns));
    DedupShape(Sort(ns));
    assert forall x :: x in Sort(ns) <==> x in multiset(Sort(ns));
  }

  /** Tidy entries joined and terminated: the output lines are theirs, each not empty, then a final break. */
  lemma FramedLines(d: seq<String>, opens: String -> bool)
    requires d != [] && forall n :: n in d ==> Tidy(n, opens)
    ensures Terminate(Join(d, '\n')) == Join(d, '\n') + "\n"
    ensures Split(Terminate(Join(d, '\n')), '\n') == Flatten(SplitAll(d)) + [[]]
    ensures CleanLines(Flatten(SplitAll(d)))
  {
    var j := Join(d, '\n');
    TidyText(d[|d| - 1], opens);
    JoinLast(d, '\n');
    assert j[|j| - 1] == d[|d| - 1][|d[|d| - 1]| - 1];
    SplitJoinAll(d);
    SplitAppend(j, [], '\n');
    assert j + ['\n'] + [] == j + "\n";
    assert Split([], '\n') == [[]];
    assert forall k :: 0 <= k < |d| ==> CleanLines(SplitAll(d)[k]) by {
      forall k | 0 <= k < |d| ensures CleanLines(SplitAll(d)[k]) { assert d[k] in d; }
    }
    FlattenClean(SplitAll(d));
  }

  /** The entries the output keeps, for an input that is not empty and normalises. */
  function Survivors(content: String): seq<String>
    requires NormalizeAll(Entries(Lines(content)), NormalizeEntry).Ok?
  {
    Dedup(Sort(NormalizeAll(Entries(Lines(content)), NormalizeEntry).value))
  }

  /**
   * The output of a non-empty log is its distinct normalised entries in
   * strictly increasing order, joined by line breaks and ending with one.
   */
  lemma OutputEntries(content: String)
    requires content != [] && SortedLog(content).Ok?
    ensures NormalizeAll(Entries(Lines(content)), NormalizeEntry).Ok?
    ensures var d := Survivors(content);
      && StrictlyIncreasing(d)
      && Elements(d) == Elements(NormalizeAll(Entries(Lines(content)), NormalizeEntry).value)
      && (forall n :: n in d ==> Tidy(n, IsOpener))
      && SortedLog(content) == Ok(if d == [] then [] else Join(d, '\n') + "\n")
  {
    OutputJoined(content);
    SurvivorsShape(NormalizeAll(Entries(Lines(content)), NormalizeEntry).value);
  }

  /** The output of a non-empty log is its tidy survivors joined by line breaks, ending with one. */
  lemma OutputJoined(content: String)
    requires content != [] && SortedLog(content).Ok?
    ensures NormalizeAll(Entries(Lines(content)), NormalizeEntry).Ok?
    ensures var d := Survivors(content);
      && (forall n :: n in d ==> Tidy(n, IsOpener))
      && SortedLog(content) == Ok(if d == [] then [] else Join(d, '\n') + "\n")
  {
    LineEndings(content);
    var ns := NormalizeAll(Entries(Lines(content)), NormalizeEntry).value;
    var d := Dedup(Sort(ns));
    SurvivorsShape(ns);
    LogTidy(content);
    forall n | n in d ensures Tidy(n, IsOpener) {
      assert n in Elements(d);
    }
    if d != [] {
      FramedLines(d, IsOpener);
    }
  }

  /** A text that is empty or ends in LF, with no empty line before the end. */
  predicate LinesFramed(out: String) {
    var ls := Split(out, '\n');
    ls[|ls| - 1] == [] && forall j :: 0 <= j < |ls| - 1 ==> ls[j] != []
  }

  /**
   * The output holds no CR, an empty input becomes a single line break,
   * and otherwise every line of the output is non-empty and the output ends
   * with a line break unless it is empty.
   */
  lemma OutputFraming(content: String)
    requires SortedLog(content).Ok?
    ensures '\r' !in SortedLog(content).value
    ensures content == [] ==> SortedLog(content).value == "\n"
    ensures content != [] ==> LinesFramed(SortedLog(content).value)
  {
    if content != [] {
      OutputJoined(content);
      FramedOutput(SortedLog(content).value, Survivors(content));
    } else {
      BlankNotIdempotent();
    }
  }

  /** Tidy entries joined by LF with a final LF (or none at all) hold no CR, and only the piece after the final LF is empty. */
  lemma FramedOutput(out: String, d: seq<String>)
    requires forall n :: n in d ==> Tidy(n, IsOpener)
    requires out == if d == [] then [] else Join(d, '\n') + "\n"
    ensures '\r' !in out
    ensures LinesFramed(out)
  {
    if d == [] {
      return;
    }
    FramedLines(d, IsOpener);
    JoinNoSep(d, '\n', '\r') by {
      forall k | 0 <= k < |d| ensures '\r' !in d[k] { TidyText(d[k], IsOpener); }
    }
  }

  lemma {:induction false} CrLfChars(s: String, c: char)
    requires c in ReplaceCrLf(s)
    ensures c in s || c == '\n'
    decreases |s|
  {
    if s != [] {
      if |s| >= 2 && s[0] == '\r' && s[1] == '\n' {
        if c != '\n' {
          CrLfChars(s[2..], c);
        }
      } else if c != s[0] {
        CrLfChars(s[1..], c);
      }
    }
  }

  /** A non-empty input made only of line breaks yields the empty text. */
  lemma OnlyLineBreaks(content: String)
    requires content != []
    requires forall i :: 0 <= i < |content| ==> content[i] == '\r' || content[i] == '\n'
    ensures SortedLog(content) == Ok([])
  {
    LineEndings(content);
    var text := NormalizeLineEndings(content);
    var lines := Lines(content);
    forall j | 0 <= j < |lines| ensures lines[j] == [] {
      if lines[j] != [] {
        var c := lines[j][0];
        SplitChars(text, '\n', j, c);
        var t := ReplaceCrLf(content);
        var i :| 0 <= i < |text| && text[i] == c;
        CrLfChars(content, t[i]);
      }
    }
    NonEmptyBlank(lines);
    var groups := Group(lines, IsOpener);
    LogGroups(content);
    FlattenEmpty(groups);
    assert Join(Dedup(Sort([])), '\n') == [];
  }

  lemma {:induction false} NonEmptyBlank(ls: seq<String>)
    requires forall j :: 0 <= j < |ls| ==> ls[j] == []
    ensures NonEmptyLines(ls) == []
    decreases |ls|
  {
    if ls != [] {
      NonEmptyBlank(ls[..|ls| - 1]);
    }
  }

  // ---------------------------------------------------------------- idempotence

  /** An opener whose hour stays below 100 after the 12-to-24-hour conversion. */
  predicate SmallHour(line: String) {
    IsOpener(line) ==>
      var st := Parse(line).value.stamp;
      AllDigits(st.hour) && Hour24(DecimalValue(st.hour), st.meridiem) < 100
  }

  /** A rewritten first line with a small hour is an opener, and rewriting it again changes nothing. */
  lemma RewrittenStable(line: String)
    requires IsOpener(line) && SmallHour(line)
    ensures IsOpener(Rewritten(line))
    ensures Rewritten(Rewritten(line)) == Rewritten(line)
  {
    var m := Parse(line).value;
    ParseSound(line);
    var c := Canonical(m.stamp);
    CanonicalIdempotent(m.stamp);
    var rest := line[m.end..];
    ParseComplete(c, rest);
    assert (Render(c) + rest)[|Render(c)|..] == rest;
  }

  /** An entry opened by a timestamp as sort_chat_log writes it: tidy, its first line in rewritten form, and a fixed point of step 3. */
  predicate Stable(n: String) {
    && Tidy(n, IsOpener) && IsOpener(FirstLine(n)) && Rewritten(FirstLine(n)) == FirstLine(n)
    && NormalizeEntry(n) == Ok(n)
  }

  /** An entry step 3 keeps as it is: tidy, and its first line does not start with '['. */
  predicate Plain(n: String) {
    Tidy(n, IsOpener) && FirstLine(n) != [] && FirstLine(n)[0] != '['
  }

  /** An entry whose first line is already in rewritten form is a fixed point of step 3. */
  lemma RewriteFixed(ls: seq<String>)
    requires ls != [] && CleanLines(ls) && IsOpener(ls[0]) && Rewritten(ls[0]) == ls[0]
    ensures NormalizeEntry(Join(ls, '\n')) == Ok(Join(ls, '\n'))
    ensures FirstLine(Join(ls, '\n')) == ls[0]
  {
    NormalizedGroup(ls);
    EntryOfGroup(ls);
    assert [Rewritten(ls[0])] + ls[1..] == ls;
  }

  lemma StableOf(ls: seq<String>)
    requires ls != [] && CleanLines(ls) && forall j :: 0 < j < |ls| ==> !IsOpener(ls[j])
    requires IsOpener(ls[0]) && Rewritten(ls[0]) == ls[0]
    ensures Stable(Join(ls, '\n'))
  {
    RewriteFixed(ls);
    TidyJoin(ls, IsOpener);
  }

  /** An entry of clean continuation lines under a first line in rewritten form is stable. */
  lemma StableUnder(line: String, g: seq<String>)
    requires g != [] && CleanLines(g) && forall j :: 0 < j < |g| ==> !IsOpener(g[j])
    requires IsOpener(line) && Rewritten(line) == line && CleanLine(line)
    ensures Stable(Join([line] + g[1..], '\n'))
  {
    var ls := [line] + g[1..];
    ReplaceHead(line, g, IsOpener);
    StableOf(ls);
  }

  /** Replacing the first line of an entry keeps its continuation lines as they were. */
  lemma ReplaceHead(line: String, g: seq<String>, opens: String -> bool)
    requires g != [] && CleanLines(g) && forall j :: 0 < j < |g| ==> !opens(g[j])
    requires CleanLine(line)
    ensures var ls := [line] + g[1..];
      ls != [] && ls[0] == line && CleanLines(ls) && forall j :: 0 < j < |ls| ==> !opens(ls[j])
  {
    var ls := [line] + g[1..];
    assert forall j :: 0 < j < |ls| ==> ls[j] == g[j];
  }

  lemma RewrittenEntryStable(g: seq<String>)
    requires g != [] && CleanLines(g) && forall j :: 0 < j < |g| ==> !IsOpener(g[j])
    requires IsOpener(g[0]) && SmallHour(g[0])
    ensures NormalizeEntry(Join(g, '\n')) == Ok(Join([Rewritten(g[0])] + g[1..], '\n'))
    ensures Stable(Join([Rewritten(g[0])] + g[1..], '\n'))
  {
    NormalizedGroup(g);
    RewrittenStable(g[0]);
    StableUnder(Rewritten(g[0]), g);
  }

  /** A text whose first line is not empty starts with the first character of that line. */
  lemma EntryHead(n: String)
    requires FirstLine(n) != []
    ensures n != [] && n[0] == FirstLine(n)[0]
  {
    SplitHeadPrefix(n, '\n');
  }

  /** An opener starts with '['. */
  lemma OpenerBracket(l: String)
    requires IsOpener(l)
    ensures l != [] && l[0] == '['
  {
  }

  /** A stable entry starts with '['. */
  lemma StableBracket(n: String)
    requires Stable(n)
    ensures n != [] && n[0] == '['
  {
    OpenerBracket(FirstLine(n));
    EntryHead(n);
  }

  /** A first entry of clean lines whose first line does not start with '[' is plain and kept as it is. */
  lemma PlainEntry(g: seq<String>)
    requires g != [] && CleanLines(g) && forall j :: 0 < j < |g| ==> !IsOpener(g[j])
    requires !StartsWith(g[0], "[")
    ensures NormalizeEntry(Join(g, '\n')) == Ok(Join(g, '\n'))
    ensures Plain(Join(g, '\n'))
  {
    EntryOfGroup(g);
    TidyJoin(g, IsOpener);
    assert g[0][..1] == [g[0][0]];
    NormalizePlain(Join(g, '\n'));
  }

  /**
   * Under the two conditions of Idempotent, the entries normalise, and every
   * normalised entry is stable, except that the first may be plain.
   */
  lemma LogStable(content: String)
    requires var first := NonEmptyLines(Lines(content));
      first != [] && (IsOpener(first[0]) || !StartsWith(first[0], "["))
    requires forall l :: l in Lines(content) ==> SmallHour(l)
    ensures NormalizeAll(Entries(Lines(content)), NormalizeEntry).Ok?
    ensures var ns := NormalizeAll(Entries(Lines(content)), NormalizeEntry).value;
      && ns != [] && (Stable(ns[0]) || Plain(ns[0]))
      && forall k :: 0 < k < |ns| ==> Stable(ns[k])
  {
    var groups := Group(Lines(content), IsOpener);
    LogGroups(content);
    FlattenHead(groups);
    var es := Texts(groups);
    forall k | 0 <= k < |es|
      ensures NormalizeEntry(es[k]).Ok?
      ensures Stable(NormalizeEntry(es[k]).value) || (k == 0 && Plain(NormalizeEntry(es[k]).value))
    {
      assert groups[k][0] in Lines(content);
      if IsOpener(groups[k][0]) {
        RewrittenEntryStable(groups[k]);
      } else {
        PlainEntry(groups[k]);
      }
    }
    NormalizeAllShape(es, NormalizeEntry);
  }

  lemma {:induction false} NonEmptyClean(ls: seq<String>)
    requires CleanLines(ls)
    ensures NonEmptyLines(ls) == ls
    decreases |ls|
  {
    if ls != [] {
      NonEmptyClean(ls[..|ls| - 1]);
    }
  }

  lemma TextsSplitAll(d: seq<String>)
    ensures Texts(SplitAll(d)) == d
  {
    forall k | 0 <= k < |d| ensures Texts(SplitAll(d))[k] == d[k] {
      JoinSplit(d[k], '\n');
    }
  }

  /**
   * Entries that sort_chat_log leaves as they are once joined: each tidy and a
   * fixed point of step 3, and every one after the first opened by a timestamp.
   */
  predicate Settled(d: seq<String>) {
    && (forall k :: 0 <= k < |d| ==> Tidy(d[k], IsOpener) && NormalizeEntry(d[k]) == Ok(d[k]))
    && (forall k :: 0 < k < |d| ==> IsOpener(FirstLine(d[k])))
  }

  lemma StableSettled(d: seq<String>)
    requires forall k :: 0 <= k < |d| ==> Stable(d[k])
    ensures Settled(d)
  {
  }



  /** Settled entries joined and terminated reassemble into exactly those entries. */
  lemma ReassembleOutput(d: seq<String>)
    requires d != [] && Settled(d)
    ensures var out := Join(d, '\n') + "\n";
      NormalizeLineEndings(out) == out && Entries(Split(out, '\n')) == d
  {
    assert forall n :: n in d ==> Tidy(n, IsOpener);
    TidyEndings(d);
    SettledGroups(d);
  }

  /** Tidy entries joined by LF with a final LF are left alone by step 1. */
  lemma TidyEndings(d: seq<String>)
    requires forall n :: n in d ==> Tidy(n, IsOpener)
    ensures var out := Join(d, '\n') + "\n"; NormalizeLineEndings(out) == out
  {
    var out := Join(d, '\n') + "\n";
    JoinNoSep(d, '\n', '\r') by {
      forall k | 0 <= k < |d| ensures '\r' !in d[k] { TidyText(d[k], IsOpener); }
    }
    LineEndings(out);
  }

  /** Settled entries joined by LF with a final LF are regrouped into exactly those entries by step 2. */
  lemma SettledGroups(d: seq<String>)
    requires d != [] && Settled(d)
    ensures Entries(Split(Join(d, '\n') + "\n", '\n')) == d
  {
    var out := Join(d, '\n') + "\n";
    var lines := Split(out, '\n');
    assert forall n :: n in d ==> Tidy(n, IsOpener);
    FramedLines(d, IsOpener);
    var parts := SplitAll(d);
    assert lines == Flatten(parts) + [[]];
    NonEmptyClean(Flatten(parts));
    assert NonEmptyLines(lines) == Flatten(parts) by {
      assert lines[..|lines| - 1] == Flatten(parts);
    }
    assert Shaped(parts, IsOpener) by {
      forall k | 0 < k < |parts| ensures IsOpener(parts[k][0]) {
        assert parts[k][0] == FirstLine(d[k]);
      }
    }
    GroupUnique(parts, lines, IsOpener);
    TextsSplitAll(d);
  }

  /** Step 3 leaves a settled list unchanged. */
  lemma NormalizeStable(d: seq<String>)
    requires Settled(d)
    ensures NormalizeAll(d, NormalizeEntry) == Ok(d)
  {
    NormalizeAllShape(d, NormalizeEntry);
    assert NormalizeAll(d, NormalizeEntry).value == d;
  }

  /** sort_chat_log maps a settled, strictly increasing list of entries, joined and terminated, to itself. */
  lemma OutputFixed(d: seq<String>)
    requires d != [] && StrictlyIncreasing(d) && Settled(d)
    ensures SortedLog(Join(d, '\n') + "\n") == Ok(Join(d, '\n') + "\n")
  {
    ReassembleOutput(d);
    NormalizeStable(d);
    StrictIsSorted(d);
    SortSorted(d);
    DedupStrict(d);
    FramedLines(d, IsOpener) by {
      forall n | n in d ensures Tidy(n, IsOpener) { }
    }
  }

  /** A strictly increasing list of stable entries, except for the plain entry at i. */
  ghost predicate OnePlain(d: seq<String>, i: nat) {
    && StrictlyIncreasing(d) && i < |d| && Plain(d[i])
    && forall k :: 0 <= k < |d| && k != i ==> Stable(d[k])
  }

  /** m is what sort_chat_log reads back from the entries d, joined: strictly increasing, settled, the same text. */
  ghost predicate ReadsBack(d: seq<String>, m: seq<String>) {
    m != [] && StrictlyIncreasing(m) && Settled(m) && Join(m, '\n') == Join(d, '\n')
  }

  /** A plain entry first, followed by stable ones, is read back as it is. */
  lemma FirstSettled(d: seq<String>)
    requires OnePlain(d, 0)
    ensures ReadsBack(d, d)
  {
    NormalizePlain(d[0]);
  }

  /** A plain entry that sorts before '[' comes before every stable entry of a strictly increasing list. */
  lemma PlainFirst(d: seq<String>, i: nat)
    requires OnePlain(d, i) && FirstLine(d[i])[0] < '['
    ensures i == 0
  {
    if i != 0 {
      EntryHead(d[i]);
      StableBracket(d[0]);
      assert false;
    }
  }

  /** A plain entry that sorts after '[' comes after every stable entry of a strictly increasing list. */
  lemma PlainLast(d: seq<String>, i: nat)
    requires OnePlain(d, i) && FirstLine(d[i])[0] > '['
    ensures i == |d| - 1
  {
    var k := |d| - 1;
    if i != k {
      EntryHead(d[i]);
      StableBracket(d[k]);
      assert false;
    }
  }

  /** A line that does not start with '[' is no opener. */
  lemma NotOpener(l: String)
    requires l != [] && l[0] != '['
    ensures !IsOpener(l)
  {
    if IsOpener(l) {
      OpenerBracket(l);
    }
  }

  /** The lines of an entry followed by lines none of which opens an entry. */
  lemma AppendLines(la: seq<String>, lp: seq<String>, opens: String -> bool)
    requires la != [] && CleanLines(la) && CleanLines(lp)
    requires forall j :: 0 < j < |la| ==> !opens(la[j])
    requires forall j :: 0 <= j < |lp| ==> !opens(lp[j])
    ensures CleanLines(la + lp) && (la + lp)[0] == la[0]
    ensures forall j :: 0 < j < |la + lp| ==> !opens((la + lp)[j])
  {
    var ls := la + lp;
    assert forall j :: 0 <= j < |la| ==> ls[j] == la[j];
    assert forall j :: |la| <= j < |ls| ==> ls[j] == lp[j - |la|];
  }

  /** A stable entry followed by a plain one, joined by a line break, is one stable entry. */
  lemma MergedStable(a: String, p: String)
    requires Stable(a) && Plain(p)
    ensures Stable(a + "\n" + p)
  {
    var la, lp := Split(a, '\n'), Split(p, '\n');
    SplitAppend(a, p, '\n');
    JoinSplit(a + "\n" + p, '\n');
    assert Split(a + "\n" + p, '\n') == la + lp;
    NotOpener(lp[0]);
    assert forall j :: 0 <= j < |lp| ==> !IsOpener(lp[j]) by {
      forall j | 0 <= j < |lp| ensures !IsOpener(lp[j]) {
        if j == 0 { NotOpener(lp[0]); }
      }
    }
    AppendLines(la, lp, IsOpener);
    StableOf(la + lp);
  }

  /** Merging a last entry into the one before it keeps a strictly increasing list strictly increasing. */
  lemma MergeIncreasing(d: seq<String>, e: String, m: seq<String>)
    requires |d| >= 2 && StrictlyIncreasing(d)
    requires e == d[|d| - 2] + "\n" + d[|d| - 1] && m == d[..|d| - 2] + [e]
    ensures StrictlyIncreasing(m)
  {
    var n := |d|;
    forall i, j | 0 <= i < j < |m| ensures LexLt(m[i], m[j]) {
      if j == n - 2 {
        assert e == d[n - 2] + ("\n" + d[n - 1]);
        LexLtExtend(d[i], d[n - 2], "\n" + d[n - 1]);
      }
    }
  }

  /** Merging a last entry into the one before it keeps the joined text. */
  lemma MergeJoin(d: seq<String>, e: String, m: seq<String>)
    requires |d| >= 2
    requires e == d[|d| - 2] + "\n" + d[|d| - 1] && m == d[..|d| - 2] + [e]
    ensures Join(m, '\n') == Join(d, '\n')
  {
    var n := |d|;
    var q := d[..n - 2];
    if q == [] {
      assert d == [d[0], d[1]];
    } else {
      JoinSnoc(q, e, '\n');
      assert d == (q + [d[n - 2]]) + [d[n - 1]];
      JoinSnoc(q + [d[n - 2]], d[n - 1], '\n');
      JoinSnoc(q, d[n - 2], '\n');
    }
  }

  /**
   * The entries sort_chat_log reads back from a strictly increasing list with
   * one plain entry at i: the same list when the plain entry is first, and
   * otherwise the list whose last two entries are one, the plain entry read as
   * continuation lines of the entry before it.
   */
  function Regroup(d: seq<String>, i: nat): seq<String>
    requires i == 0 || 2 <= |d|
  {
    if i == 0 then d else d[..|d| - 2] + [d[|d| - 2] + "\n" + d[|d| - 1]]
  }

  /** Replacing the last two entries by one keeps a property every entry has. */
  lemma ReplaceLastTwo(d: seq<String>, e: String, m: seq<String>, ok: String -> bool)
    requires |d| >= 2 && m == d[..|d| - 2] + [e]
    requires forall k :: 0 <= k < |d| - 2 ==> ok(d[k])
    requires ok(e)
    ensures forall k :: 0 <= k < |m| ==> ok(m[k])
  {
    assert forall k :: 0 <= k < |d| - 2 ==> m[k] == d[k];
  }

  /** A plain last entry merged into the stable entry before it leaves a stable, strictly increasing list. */
  lemma MergeSettled(d: seq<String>)
    requires |d| >= 2 && OnePlain(d, |d| - 1)
    ensures ReadsBack(d, Regroup(d, |d| - 1))
  {
    var n := |d|;
    var e := d[n - 2] + "\n" + d[n - 1];
    var m := d[..n - 2] + [e];
    MergeIncreasing(d, e, m);
    MergeJoin(d, e, m);
    MergedStable(d[n - 2], d[n - 1]);
    ReplaceLastTwo(d, e, m, Stable);
    StableSettled(m);
  }

  /** A plain entry in a strictly increasing list of otherwise stable entries comes first or last. */
  lemma PlainEnds(d: seq<String>, i: nat)
    requires OnePlain(d, i)
    ensures i == 0 || (i == |d| - 1 && 2 <= |d|)
  {
    if FirstLine(d[i])[0] < '[' {
      PlainFirst(d, i);
    } else {
      PlainLast(d, i);
    }
  }

  /** The entries read back from a list with a plain entry first or last are settled, strictly increasing and the same text. */
  lemma PlainPlaced(d: seq<String>, i: nat)
    requires OnePlain(d, i) && (i == 0 || (i == |d| - 1 && 2 <= |d|))
    ensures ReadsBack(d, Regroup(d, i))
  {
    if i == 0 {
      FirstSettled(d);
    } else {
      MergeSettled(d);
    }
  }

  /** A strictly increasing list of entries, all stable except perhaps one plain entry, is a fixed point. */
  lemma SurvivorsFixed(d: seq<String>, p: String)
    requires d != [] && StrictlyIncreasing(d)
    requires forall k :: 0 <= k < |d| ==> Stable(d[k]) || (d[k] == p && Plain(p))
    ensures SortedLog(Join(d, '\n') + "\n") == Ok(Join(d, '\n') + "\n")
  {
    if forall k :: 0 <= k < |d| ==> Stable(d[k]) {
      StableSettled(d);
      OutputFixed(d);
    } else {
      var i :| 0 <= i < |d| && !Stable(d[i]);
      forall k | 0 <= k < |d| && k != i ensures Stable(d[k]) {
        if k < i { assert LexLt(d[k], d[i]); } else { assert LexLt(d[i], d[k]); }
      }
      PlainEnds(d, i);
      PlainPlaced(d, i);
      var m := Regroup(d, i);
      OutputFixed(m);
    }
  }

  /**
   * Running sort_chat_log on its own output changes nothing, for a log whose
   * first non-empty line is a timestamp or does not start with '[' at all, and
   * whose converted hours stay below 100.
   */
  lemma Idempotent(content: String)
    requires var first := NonEmptyLines(Lines(content));
      first != [] && (IsOpener(first[0]) || !StartsWith(first[0], "["))
    requires forall l :: l in Lines(content) ==> SmallHour(l)
    ensures SortedLog(content).Ok?
    ensures SortedLog(SortedLog(content).value) == SortedLog(content)
  {
    LogStable(content);
    LineEndings(content);
    var ns := NormalizeAll(Entries(Lines(content)), NormalizeEntry).value;
    var d := Survivors(content);
    assert SortedLog(content).Ok?;
    OutputEntries(content);
    SurvivorsOf(ns, d);
    SurvivorsFixed(d, ns[0]);
  }

  /** Deduplicated sorted entries are drawn from the normalised ones, so at most the first of those is plain. */
  lemma SurvivorsOf(ns: seq<String>, d: seq<String>)
    requires ns != [] && Elements(d) == Elements(ns)
    requires Stable(ns[0]) || Plain(ns[0])
    requires forall k :: 0 < k < |ns| ==> Stable(ns[k])
    ensures d != []
    ensures forall k :: 0 <= k < |d| ==> Stable(d[k]) || (d[k] == ns[0] && Plain(ns[0]))
  {
    assert ns[0] in Elements(ns);
    forall k | 0 <= k < |d| ensures Stable(d[k]) || (d[k] == ns[0] && Plain(ns[0])) {
      assert d[k] in Elements(d);
      var j :| 0 <= j < |ns| && ns[j] == d[k];
    }
  }

  /** Blank input is the exception: the empty text becomes a line break, and a line break becomes the empty text. */
  lemma BlankNotIdempotent()
    ensures SortedLog("") == Ok("\n")
    ensures SortedLog("\n") == Ok("")
  {
    OnlyLineBreaks("\n");
  }

  // ---------------------------------------------------------------- order of the copies

  lemma {:induction false} NonEmptyAppend(l1: seq<String>, l2: seq<String>)
    ensures NonEmptyLines(l1 + l2) == NonEmptyLines(l1) + NonEmptyLines(l2)
    decreases |l2|
  {
    if l2 == [] {
      assert l1 + l2 == l1;
    } else {
      var init := l2[..|l2| - 1];
      NonEmptyAppend(l1, init);
      assert (l1 + l2)[..|l1 + l2| - 1] == l1 + init;
    }
  }

  lemma {:induction false} FlattenAppend(g1: seq<seq<String>>, g2: seq<seq<String>>)
    ensures Flatten(g1 + g2) == Flatten(g1) + Flatten(g2)
    decreases |g2|
  {
    if g2 == [] {
      assert g1 + g2 == g1;
    } else {
      var init := g2[..|g2| - 1];
      FlattenAppend(g1, init);
      assert (g1 + g2)[..|g1 + g2| - 1] == g1 + init;
    }
  }

  /** Two shaped logs in a row are one, when the second starts with an opener. */
  lemma ShapedAppend(g1: seq<seq<String>>, g2: seq<seq<String>>, opens: String -> bool)
    requires Shaped(g1, opens) && Shaped(g2, opens)
    requires g1 == [] || g2 == [] || opens(g2[0][0])
    ensures Shaped(g1 + g2, opens)
  {
    var g := g1 + g2;
    assert forall k :: 0 <= k < |g1| ==> g[k] == g1[k];
    assert forall k :: |g1| <= k < |g| ==> g[k] == g2[k - |g1|];
  }

  /** After a text that ends with a line feed, the lines of what follows start afresh. */
  lemma LinesAppend(a: String, b: String)
    requires a != [] && a[|a| - 1] == '\n'
    ensures Lines(a)[|Lines(a)| - 1] == []
    ensures Lines(a + b) == Lines(a)[..|Lines(a)| - 1] + Lines(b)
  {
    LineEndingsAppend(a, b);
    LineEndingsLastLf(a);
    SplitAfterSep(NormalizeLineEndings(a), NormalizeLineEndings(b), '\n');
  }

  /** Reassembling two runs of lines in a row, when the second starts with an opener. */
  lemma GroupAppend(l1: seq<String>, l2: seq<String>, opens: String -> bool)
    requires !opens([])
    requires NonEmptyLines(l2) == [] || opens(NonEmptyLines(l2)[0])
    ensures Group(l1 + l2, opens) == Group(l1, opens) + Group(l2, opens)
  {
    var g1, g2 := Group(l1, opens), Group(l2, opens);
    GroupShape(l1, opens);
    GroupShape(l2, opens);
    NonEmptyAppend(l1, l2);
    FlattenAppend(g1, g2);
    if g2 != [] {
      FlattenHead(g2);
    }
    ShapedAppend(g1, g2, opens);
    GroupUnique(g1 + g2, l1 + l2, opens);
  }

  lemma TextsConcat(g1: seq<seq<String>>, g2: seq<seq<String>>)
    ensures Texts(g1 + g2) == Texts(g1) + Texts(g2)
  {
    var g := g1 + g2;
    assert forall k :: 0 <= k < |g1| ==> g[k] == g1[k];
    assert forall k :: |g1| <= k < |g| ==> g[k] == g2[k - |g1|];
  }

  /** Lines ending in an empty line, and the lines before it; the empty line adds no entry. */
  lemma DropBlank(l: seq<String>, x: seq<String>, opens: String -> bool)
    requires !opens([]) && l != [] && l[|l| - 1] == [] && x == l[..|l| - 1]
    ensures Group(l, opens) == Group(x, opens)
  {
  }

  /** The entries of lines that end in an empty line, followed by lines that start with an opener. */
  lemma EntriesOfAppend(la: seq<String>, lb: seq<String>, x: seq<String>)
    requires la != [] && la[|la| - 1] == [] && x == la[..|la| - 1]
    requires NonEmptyLines(lb) == [] || IsOpener(NonEmptyLines(lb)[0])
    ensures Entries(x + lb) == Entries(la) + Entries(lb)
  {
    assert !IsOpener([]);
    DropBlank(la, x, IsOpener);
    GroupAppend(x, lb, IsOpener);
    TextsConcat(Group(x, IsOpener), Group(lb, IsOpener));
  }

  /** The entries of a + b are those of a and then those of b, when a ends with a line feed and b starts with an opener. */
  lemma EntriesAppend(a: String, b: String)
    requires a != [] && a[|a| - 1] == '\n'
    requires var fb := NonEmptyLines(Lines(b)); fb == [] || IsOpener(fb[0])
    ensures Entries(Lines(a + b)) == Entries(Lines(a)) + Entries(Lines(b))
  {
    LinesAppend(a, b);
    EntriesOfAppend(Lines(a), Lines(b), Lines(a)[..|Lines(a)| - 1]);
  }

  /** Step 3 on two lists of entries in a row. */
  lemma NormalizeAllAppend(e1: seq<String>, e2: seq<String>, normalize: String -> Result<String, Malformed>)
    requires NormalizeAll(e1, normalize).Ok? && NormalizeAll(e2, normalize).Ok?
    ensures NormalizeAll(e1 + e2, normalize) == Ok(NormalizeAll(e1, normalize).value + NormalizeAll(e2, normalize).value)
  {
    var e := e1 + e2;
    NormalizeAllShape(e1, normalize);
    NormalizeAllShape(e2, normalize);
    NormalizeAllShape(e, normalize);
    assert forall k :: 0 <= k < |e1| ==> e[k] == e1[k];
    assert forall k :: |e1| <= k < |e| ==> e[k] == e2[k - |e1|];
    var n1, n2 := NormalizeAll(e1, normalize).value, NormalizeAll(e2, normalize).value;
    var r := NormalizeAll(e, normalize).value;
    assert r == n1 + n2 by {
      forall k | 0 <= k < |r| ensures r[k] == (n1 + n2)[k] {
        if k < |e1| { assert r[k] == n1[k]; } else { assert r[k] == n2[k - |e1|]; }
      }
    }
  }

  /** A non-empty log whose first non-empty line, if any, is a timestamp normalises. */
  lemma NormalizesOk(a: String)
    requires a != []
    requires var fa := NonEmptyLines(Lines(a)); fa == [] || IsOpener(fa[0])
    ensures NormalizeAll(Entries(Lines(a)), NormalizeEntry).Ok?
  {
    MalformedIff(a);
    LineEndings(a);
  }

  /** The normalised entries of two copies in a row are those of each. */
  lemma CopyNormalized(a: String, b: String, na: seq<String>, nb: seq<String>)
    requires a != [] && a[|a| - 1] == '\n'
    requires var fb := NonEmptyLines(Lines(b)); fb == [] || IsOpener(fb[0])
    requires NormalizeAll(Entries(Lines(a)), NormalizeEntry) == Ok(na)
    requires NormalizeAll(Entries(Lines(b)), NormalizeEntry) == Ok(nb)
    ensures NormalizeAll(Entries(Lines(a + b)), NormalizeEntry) == Ok(na + nb)
  {
    EntriesAppend(a, b);
    NormalizeAllAppend(Entries(Lines(a)), Entries(Lines(b)), NormalizeEntry);
  }

  /** The output of a non-empty log, given its normalised entries. */
  lemma SortedLogOf(c: String, ns: seq<String>)
    requires c != [] && NormalizeAll(Entries(Lines(c)), NormalizeEntry) == Ok(ns)
    ensures SortedLog(c) == Ok(Terminate(Join(Dedup(Sort(ns)), '\n')))
  {
    LineEndings(c);
  }

  /** Two non-empty copies with known normalised entries give the same output in either order. */
  lemma CopiesSwap(a: String, b: String, na: seq<String>, nb: seq<String>)
    requires a != [] && a[|a| - 1] == '\n' && b != [] && b[|b| - 1] == '\n'
    requires var fa := NonEmptyLines(Lines(a)); fa == [] || IsOpener(fa[0])
    requires var fb := NonEmptyLines(Lines(b)); fb == [] || IsOpener(fb[0])
    requires NormalizeAll(Entries(Lines(a)), NormalizeEntry) == Ok(na)
    requires NormalizeAll(Entries(Lines(b)), NormalizeEntry) == Ok(nb)
    ensures SortedLog(a + b) == SortedLog(b + a)
  {
    CopyNormalized(a, b, na, nb);
    CopyNormalized(b, a, nb, na);
    assert multiset(na + nb) == multiset(nb + na);
    SortPermutation(na + nb, nb + na);
    SortedLogOf(a + b, na + nb);
    SortedLogOf(b + a, nb + na);
  }

  lemma EmptySwap(a: String, b: String)
    requires a == [] || b == []
    ensures a + b == b + a
  {
    if a == [] {
      assert a + b == b == b + a;
    } else {
      assert a + b == a == b + a;
    }
  }

  /**
   * The order in which two copies are concatenated does not matter when each
   * copy is empty or ends with a line feed, and its first non-empty line, if
   * any, is a timestamp.
   */
  lemma CopyOrder(a: String, b: String)
    requires a == [] || a[|a| - 1] == '\n'
    requires b == [] || b[|b| - 1] == '\n'
    requires var fa := NonEmptyLines(Lines(a)); fa == [] || IsOpener(fa[0])
    requires var fb := NonEmptyLines(Lines(b)); fb == [] || IsOpener(fb[0])
    ensures SortedLog(a + b) == SortedLog(b + a)
  {
    if a == [] || b == [] {
      EmptySwap(a, b);
    } else {
      NormalizesOk(a);
      NormalizesOk(b);
      CopiesSwap(a, b, NormalizeAll(Entries(Lines(a)), NormalizeEntry).value, NormalizeAll(Entries(Lines(b)), NormalizeEntry).value);
    }
  }

  /** A copy the order of copies cannot affect: empty or ending in LF, and its first non-empty line, if any, a timestamp. */
  predicate WellEnded(c: String) {
    && (c == [] || c[|c| - 1] == '\n')
    && var f := NonEmptyLines(Lines(c)); f == [] || IsOpener(f[0])
  }

  /** The normalised entries of one copy; none when it is malformed. */
  function CopyEntries(c: String): seq<String> {
    match NormalizeAll(Entries(Lines(c)), NormalizeEntry)
    case Ok(n) => n
    case Err(_) => []
  }

  /** f of each copy, one copy after another. */
  function FlatMap(cs: seq<String>, f: String -> seq<String>): seq<String>
    decreases |cs|
  {
    if cs == [] then [] else FlatMap(cs[..|cs| - 1], f) + f(cs[|cs| - 1])
  }

  lemma {:induction false} FlatMapAppend(xs: seq<String>, ys: seq<String>, f: String -> seq<String>)
    ensures FlatMap(xs + ys, f) == FlatMap(xs, f) + FlatMap(ys, f)
    decreases |ys|
  {
    if ys == [] {
      assert xs + ys == xs;
    } else {
      var init, last := ys[..|ys| - 1], ys[|ys| - 1];
      var zs := xs + ys;
      assert zs[..|zs| - 1] == xs + init;
      assert zs[|zs| - 1] == last;
      assert FlatMap(zs, f) == FlatMap(xs + init, f) + f(last);
      FlatMapAppend(xs, init, f);
      assert FlatMap(ys, f) == FlatMap(init, f) + f(last);
    }
  }

  /** Copies drawn as the same multiset give results of the same multiset. */
  lemma {:induction false} FlatMapPermutation(cs: seq<String>, ds: seq<String>, f: String -> seq<String>)
    requires multiset(cs) == multiset(ds)
    ensures multiset(FlatMap(cs, f)) == multiset(FlatMap(ds, f))
    decreases |cs|
  {
    if cs != [] {
      var init, last := cs[..|cs| - 1], cs[|cs| - 1];
      assert last in multiset(ds) by {
        assert last in cs;
      }
      var i :| 0 <= i < |ds| && ds[i] == last;
      RemoveOne(cs, ds, i);
      FlatMapPermutation(init, ds[..i] + ds[i + 1..], f);
      FlatMapAt(ds, i, f);
    }
  }

  /** Taking the last copy of cs and an equal copy out of ds leaves multisets that are still equal. */
  lemma RemoveOne(cs: seq<String>, ds: seq<String>, i: nat)
    requires multiset(cs) == multiset(ds) && cs != [] && i < |ds| && ds[i] == cs[|cs| - 1]
    ensures multiset(cs[..|cs| - 1]) == multiset(ds[..i] + ds[i + 1..])
  {
    var init, last := cs[..|cs| - 1], cs[|cs| - 1];
    assert cs == init + [last];
    assert ds == ds[..i] + [last] + ds[i + 1..];
    assert multiset(init) == multiset(cs) - multiset{last};
    assert multiset(ds[..i] + ds[i + 1..]) == multiset(ds) - multiset{last};
  }

  /** FlatMap around one copy: what comes before it, its own result, and what comes after it. */
  lemma FlatMapAt(ds: seq<String>, i: nat, f: String -> seq<String>)
    requires i < |ds|
    ensures multiset(FlatMap(ds, f)) == multiset(FlatMap(ds[..i] + ds[i + 1..], f)) + multiset(f(ds[i]))
  {
    var pre, post := ds[..i], ds[i + 1..];
    assert ds == pre + ([ds[i]] + post);
    FlatMapAppend(pre, [ds[i]] + post, f);
    FlatMapAppend([ds[i]], post, f);
    FlatMapAppend(pre, post, f);
    assert [ds[i]][..0] == [];
    assert FlatMap([ds[i]], f) == f(ds[i]);
  }

  /** The empty text has no entries. */
  lemma EmptyEntries()
    ensures NormalizeAll(Entries(Lines([])), NormalizeEntry) == Ok([])
  {
    var blank: String := [];
    LineEndings(blank);
    assert Lines(blank) == [blank];
    assert [blank][..0] == [];
    assert Group([blank], IsOpener) == [];
  }

  /** A well-ended copy normalises without error. */
  lemma WellEndedOk(c: String)
    requires WellEnded(c)
    ensures NormalizeAll(Entries(Lines(c)), NormalizeEntry).Ok?
  {
    if c == [] {
      EmptyEntries();
    } else {
      NormalizesOk(c);
    }
  }

  /** The entries of well-ended copies joined together are the copies' entries, one copy after another. */
  lemma {:induction false} ConcatNormalized(cs: seq<String>)
    requires forall k :: 0 <= k < |cs| ==> WellEnded(cs[k])
    ensures Concat(cs) == [] || Concat(cs)[|Concat(cs)| - 1] == '\n'
    ensures NormalizeAll(Entries(Lines(Concat(cs))), NormalizeEntry) == Ok(FlatMap(cs, CopyEntries))
    decreases |cs|
  {
    if cs == [] {
      EmptyEntries();
    } else {
      var init, last := cs[..|cs| - 1], cs[|cs| - 1];
      assert forall k :: 0 <= k < |init| ==> init[k] == cs[k];
      ConcatNormalized(init);
      assert WellEnded(last);
      ConcatLast(Concat(init), last, FlatMap(init, CopyEntries));
      assert Concat(cs) == Concat(init) + last;
      assert FlatMap(cs, CopyEntries) == FlatMap(init, CopyEntries) + CopyEntries(last);
    }
  }

  /** One more well-ended copy after a text that normalises to na adds that copy's entries. */
  lemma ConcatLast(a: String, last: String, na: seq<String>)
    requires a == [] || a[|a| - 1] == '\n'
    requires NormalizeAll(Entries(Lines(a)), NormalizeEntry) == Ok(na)
    requires WellEnded(last)
    ensures a + last == [] || (a + last)[|a + last| - 1] == '\n'
    ensures NormalizeAll(Entries(Lines(a + last)), NormalizeEntry) == Ok(na + CopyEntries(last))
  {
    WellEndedOk(last);
    var nb := NormalizeAll(Entries(Lines(last)), NormalizeEntry).value;
    assert CopyEntries(last) == nb;
    EndsInLf(a, last);
    var fb := NonEmptyLines(Lines(last));
    assert fb == [] || IsOpener(fb[0]);
    if a == [] {
      FirstCopy(last, na, nb);
    } else {
      CopyNormalized(a, last, na, nb);
    }
  }

  lemma EndsInLf(a: String, b: String)
    requires a == [] || a[|a| - 1] == '\n'
    requires b == [] || b[|b| - 1] == '\n'
    ensures a + b == [] || (a + b)[|a + b| - 1] == '\n'
  {
    if b == [] {
      assert a + b == a;
    }
  }

  lemma FirstCopy(last: String, na: seq<String>, nb: seq<String>)
    requires NormalizeAll(Entries(Lines([])), NormalizeEntry) == Ok(na)
    requires NormalizeAll(Entries(Lines(last)), NormalizeEntry) == Ok(nb)
    ensures NormalizeAll(Entries(Lines([] + last)), NormalizeEntry) == Ok(na + nb)
  {
    EmptyEntries();
    assert [] + last == last;
    assert na + nb == nb;
  }

  /** Only empty copies join into the empty text. */
  lemma {:induction false} ConcatEmpty(cs: seq<String>)
    ensures Concat(cs) == [] <==> forall k :: 0 <= k < |cs| ==> cs[k] == []
    decreases |cs|
  {
    if cs != [] {
      ConcatEmpty(cs[..|cs| - 1]);
      assert forall k :: 0 <= k < |cs| - 1 ==> cs[..|cs| - 1][k] == cs[k];
    }
  }

  /**
   * Any number of copies, each empty or ending in LF and opened by a
   * timestamp when not blank, merge to the same result in any order.
   */
  lemma CopiesOrder(cs: seq<String>, ds: seq<String>)
    requires forall k :: 0 <= k < |cs| ==> WellEnded(cs[k])
    requires multiset(cs) == multiset(ds)
    ensures SortedLog(Concat(cs)) == SortedLog(Concat(ds))
  {
    forall k | 0 <= k < |ds| ensures WellEnded(ds[k]) {
      assert ds[k] in multiset(cs);
    }
    ConcatEmpty(cs);
    ConcatEmpty(ds);
    if Concat(cs) == [] || Concat(ds) == [] {
      forall k | 0 <= k < |cs| ensures cs[k] == [] {
        assert cs[k] in multiset(ds);
      }
      forall k | 0 <= k < |ds| ensures ds[k] == [] {
        assert ds[k] in multiset(cs);
      }
    } else {
      ConcatNormalized(cs);
      ConcatNormalized(ds);
      FlatMapPermutation(cs, ds, CopyEntries);
      SortPermutation(FlatMap(cs, CopyEntries), FlatMap(ds, CopyEntries));
      SortedLogOf(Concat(cs), FlatMap(cs, CopyEntries));
      SortedLogOf(Concat(ds), FlatMap(ds, CopyEntries));
    }
  }

  // ---------------------------------------------------------------- hours of 100 or more

  /** A one-line log: its only entry is the line, and the output is that entry normalised. */
  lemma SingleLineLog(l: String)
    requires l != [] && '\n' !in l && '\r' !in l
    ensures Lines(l + "\n") == [l, []]
    ensures NonEmptyLines(Lines(l + "\n")) == [l]
    ensures Entries(Lines(l + "\n")) == [l]
    ensures NormalizeEntry(l).Ok? ==> SortedLog(l + "\n") == Ok(Terminate(NormalizeEntry(l).value))
  {
    SingleLineSplit(l);
    SingleLineGroup(l);
    if NormalizeEntry(l).Ok? {
      SingleNormalized(l, NormalizeEntry);
      var n := NormalizeEntry(l).value;
      assert Sort([n]) == [n];
      assert Join([n], '\n') == n;
    }
  }

  lemma SingleLineSplit(l: String)
    requires '\n' !in l && '\r' !in l
    ensures NormalizeLineEndings(l + "\n") == l + "\n"
    ensures Lines(l + "\n") == [l, []]
  {
    var c := l + "\n";
    assert '\r' !in c;
    LineEndings(c);
    SplitNoSep(l, '\n');
    SplitAppend(l, [], '\n');
    assert l + ['\n'] + [] == c;
  }

  lemma SingleLineGroup(l: String)
    requires l != []
    ensures NonEmptyLines([l, []]) == [l]
    ensures Entries([l, []]) == [l]
  {
    var blank: String := [];
    assert [l, blank][..1] == [l] && [l][..0] == [];
    assert NonEmptyLines([l]) == [l];
    assert Group([l, blank], IsOpener) == Extend(Group([l], IsOpener), blank, IsOpener);
    assert Group([l], IsOpener) == [[l]];
    assert Join([l], '\n') == l;
  }

  lemma SingleNormalized(e: String, normalize: String -> Result<String, Malformed>)
    requires normalize(e).Ok?
    ensures NormalizeAll([e], normalize) == Ok([normalize(e).value])
  {
    var es := [e];
    assert es[..|es| - 1] == [] && es[|es| - 1] == e;
    assert NormalizeAll(es[..|es| - 1], normalize) == Ok([]);
    var none: seq<String> := [];
    assert none + [normalize(e).value] == [normalize(e).value];
  }

  /**
   * A log whose least entry is opened by a stamp with a converted hour of 100
   * or more is not idempotent: the first pass writes the hour in three digits,
   * and the second pass rejects that line, since it starts with '[' but no
   * longer matches the pattern.
   */
  lemma LargeHourFirst(st: Stamp, rest: String)
    requires WellFormed(st) && ClockValue(st) >= 100
    requires '\n' !in rest && '\r' !in rest
    ensures var out := Render(Canonical(st)) + rest + "\n";
      && SortedLog(Render(st) + rest + "\n") == Ok(out)
      && SortedLog(out).Err?
  {
    var line, l := Render(st) + rest, Render(Canonical(st)) + rest;
    CanonicalFields(st);
    RenderOneLine(st);
    RenderOneLine(Canonical(st));
    RewriteLine(st, rest);
    SingleLineLog(line);
    assert Terminate(l) == l + "\n";
    WideHourRejected(Canonical(st), rest);
    SingleLineLog(l);
    MalformedIff(l + "\n");
  }

  /** A single line opened by a well-formed stamp is rewritten into the canonical stamp and the rest of the line. */
  lemma RewriteLine(st: Stamp, rest: String)
    requires WellFormed(st) && '\n' !in Render(st) + rest
    ensures NormalizeEntry(Render(st) + rest) == Ok(Render(Canonical(st)) + rest)
  {
    var e := Render(st) + rest;
    ParseComplete(st, rest);
    SplitNoSep(e, '\n');
    NormalizeOpener(e);
    assert e[|Render(st)|..] == rest;
  }

  /** For instance 99 PM: the stamp is well-formed and is rewritten with the hour 111. */
  lemma LargeHourExample()
    ensures var st := Stamp("2024", "01", "01", "99", "00", None, Some(PM));
      && WellFormed(st) && ClockValue(st) == 111
      && Render(Canonical(st)) == "[2024/01/01 111:00]"
  {
    var st := Stamp("2024", "01", "01", "99", "00", None, Some(PM));
    SampleDigits();
    assert ZFill2("111") == "111" && ZFill2("0") == "00";
    assert Canonical(st) == Stamp("2024", "01", "01", "111", "00", None, None);
    SampleRender();
  }

  lemma SampleDigits()
    ensures DecimalValue("99") == 99 && DecimalValue("00") == 0
    ensures Decimal(111) == "111" && Decimal(0) == "0"
  {
    assert "99"[..1] == "9" && "00"[..1] == "0";
    assert Decimal(11) == "11" by {
      assert Decimal(1) == "1";
    }
  }

  lemma SampleRender()
    ensures Render(Stamp("2024", "01", "01", "111", "00", None, None)) == "[2024/01/01 111:00]"
  {
  }

  /**
   * A stamp with a converted hour of 100 or more after a smaller entry does
   * no harm: the second pass reads the three-digit line as a continuation of
   * the entry before it, and writes the same text back.
   */
  lemma LargeHourLater(s0: Stamp, r0: String, st: Stamp, rest: String)
    requires WellFormed(s0) && ClockValue(s0) < 100
    requires WellFormed(st) && ClockValue(st) >= 100
    requires '\n' !in r0 && '\r' !in r0 && '\n' !in rest && '\r' !in rest
    requires LexLt(Render(Canonical(s0)) + r0, Render(Canonical(st)) + rest)
    ensures var out := Render(Canonical(s0)) + r0 + "\n" + (Render(Canonical(st)) + rest) + "\n";
      && SortedLog(Render(s0) + r0 + "\n" + (Render(st) + rest) + "\n") == Ok(out)
      && SortedLog(out) == Ok(out)
  {
    var a, b := Render(Canonical(s0)) + r0, Render(Canonical(st)) + rest;
    CanonicalFields(s0);
    CanonicalFields(st);
    CanonicalIdempotent(s0);
    RenderOneLine(s0);
    RenderOneLine(st);
    RenderOneLine(Canonical(s0));
    RenderOneLine(Canonical(st));
    ParseComplete(s0, r0);
    ParseComplete(st, rest);
    RewriteLine(s0, r0);
    RewriteLine(st, rest);
    TwoLineLog(Render(s0) + r0, Render(st) + rest, a, b);
    ParseComplete(Canonical(s0), r0);
    assert a[|Render(Canonical(s0))|..] == r0;
    WideHourRejected(Canonical(st), rest);
    ContinuedLog(a, b);
  }

  /** Two opener lines normalising to a and then b, in increasing order, are written as a and b. */
  lemma TwoLineLog(l0: String, l1: String, a: String, b: String)
    requires CleanLine(l0) && CleanLine(l1) && CleanLine(a) && CleanLine(b)
    requires IsOpener(l0) && IsOpener(l1)
    requires NormalizeEntry(l0) == Ok(a) && NormalizeEntry(l1) == Ok(b) && LexLt(a, b)
    ensures SortedLog(l0 + "\n" + l1 + "\n") == Ok(a + "\n" + b + "\n")
  {
    TwoLineSplit(l0, l1);
    TwoLineGroup(l0, l1);
    TwoNormalized(l0, l1, NormalizeEntry);
    TwoSorted(a, b);
    JoinTwo(a, b);
  }

  lemma TwoSorted(a: String, b: String)
    requires LexLt(a, b)
    ensures Dedup(Sort([a, b])) == [a, b]
  {
    assert StrictlyIncreasing([a, b]);
    StrictIsSorted([a, b]);
    SortSorted([a, b]);
    DedupStrict([a, b]);
  }

  /** An opener already in rewritten form followed by a line that is no opener is one entry, written back unchanged. */
  lemma ContinuedLog(a: String, b: String)
    requires CleanLine(a) && CleanLine(b)
    requires IsOpener(a) && Rewritten(a) == a && !IsOpener(b)
    ensures SortedLog(a + "\n" + b + "\n") == Ok(a + "\n" + b + "\n")
  {
    TwoLineSplit(a, b);
    TwoLineGroup(a, b);
    JoinTwo(a, b);
    ContinuedEntry(a, b);
    SingleEntryLog(a + "\n" + b + "\n", a + "\n" + b);
  }

  lemma ContinuedEntry(a: String, b: String)
    requires CleanLine(a) && CleanLine(b) && IsOpener(a) && Rewritten(a) == a
    ensures NormalizeEntry(a + "\n" + b) == Ok(a + "\n" + b)
  {
    assert CleanLines([a, b]);
    RewriteFixed([a, b]);
    JoinTwo(a, b);
  }

  /** A text with one entry, which step 3 keeps, is written as that entry and a line break. */
  lemma SingleEntryLog(c: String, e: String)
    requires NormalizeLineEndings(c) == c && c != []
    requires Entries(Lines(c)) == [e] && NormalizeEntry(e) == Ok(e)
    ensures SortedLog(c) == Ok(Terminate(e))
  {
    SingleNormalized(e, NormalizeEntry);
    assert Sort([e]) == [e];
    assert Join([e], '\n') == e;
  }

  lemma JoinTwo(a: String, b: String)
    requires b != [] && b[|b| - 1] != '\n'
    ensures Join([a, b], '\n') == a + "\n" + b
    ensures Terminate(a + "\n" + b) == a + "\n" + b + "\n"
  {
    assert [a, b][1..] == [b];
  }

  lemma TwoLineSplit(l0: String, l1: String)
    requires '\n' !in l0 && '\r' !in l0 && '\n' !in l1 && '\r' !in l1
    ensures NormalizeLineEndings(l0 + "\n" + l1 + "\n") == l0 + "\n" + l1 + "\n"
    ensures Lines(l0 + "\n" + l1 + "\n") == [l0, l1, []]
  {
    var c := l0 + "\n" + l1 + "\n";
    assert c == l0 + ['\n'] + (l1 + "\n");
    SingleLineSplit(l1);
    SplitNoSep(l0, '\n');
    SplitAppend(l0, l1 + "\n", '\n');
    assert '\r' !in c;
    LineEndings(c);
  }

  lemma TwoLineGroup(l0: String, l1: String)
    requires IsOpener(l0) && l1 != []
    ensures Entries([l0, l1, []]) == if IsOpener(l1) then [l0, l1] else [l0 + "\n" + l1]
  {
    assert !IsOpener([]);
    TwoGroups(l0, l1, IsOpener);
    assert Join([l0], '\n') == l0 && Join([l1], '\n') == l1;
    assert Join([l0, l1], '\n') == l0 + "\n" + l1 by {
      assert [l0, l1][1..] == [l1];
    }
  }

  /** Two lines after which a blank one: the blank is dropped, and the second line starts an entry iff it is an opener. */
  lemma TwoGroups(l0: String, l1: String, opens: String -> bool)
    requires opens(l0) && l1 != [] && !opens([])
    ensures Group([l0, l1, []], opens) == if opens(l1) then [[l0], [l1]] else [[l0, l1]]
  {
    var blank: String := [];
    var ls := [l0, l1, blank];
    assert ls[..2] == [l0, l1] && [l0, l1][..1] == [l0] && [l0][..0] == [];
    assert Group([l0], opens) == [[l0]];
    assert Group(ls, opens) == Group([l0, l1], opens);
    assert Group([l0, l1], opens) == Extend([[l0]], l1, opens);
    if !opens(l1) {
      var done := [[l0]];
      assert done[..0] == [] && done[0] + [l1] == [l0, l1];
      assert Extend(done, l1, opens) == [] + [[l0, l1]];
    }
  }

  lemma TwoNormalized(e0: String, e1: String, normalize: String -> Result<String, Malformed>)
    requires normalize(e0).Ok? && normalize(e1).Ok?
    ensures NormalizeAll([e0, e1], normalize) == Ok([normalize(e0).value, normalize(e1).value])
  {
    SingleNormalized(e0, normalize);
    SingleNormalized(e1, normalize);
    NormalizeAllAppend([e0], [e1], normalize);
    assert [e0] + [e1] == [e0, e1];
    assert [normalize(e0).value] + [normalize(e1).value] == [normalize(e0).value, normalize(e1).value];
  }
}
