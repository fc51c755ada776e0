/** String helpers with the semantics of the Python str methods the merger uses. */
module Text {

  type String = seq<char>

  predicate IsDigit(c: char) { '0' <= c <= '9' }

  predicate AllDigits(s: String) { forall i :: 0 <= i < |s| ==> IsDigit(s[i]) }

  /** ASCII case folding, as str.lower() does on ASCII text. */
  function LowerChar(c: char): (r: char)
    ensures 'A' <= c <= 'Z' ==> r as int == c as int + 32
    ensures !('A' <= c <= 'Z') ==> r == c
    ensures !('A' <= r <= 'Z')
  {
    if 'A' <= c <= 'Z' then (c as int + 32) as char else c
  }

  function Lower(s: String): (r: String)
    ensures |r| == |s|
  {
    seq(|s|, i requires 0 <= i < |s| => LowerChar(s[i]))
  }

  predicate StartsWith(s: String, prefix: String) {
    |prefix| <= |s| && s[..|prefix|] == prefix
  }

  predicate EndsWith(s: String, suffix: String) {
    |suffix| <= |s| && s[|s| - |suffix|..] == suffix
  }

  /** Python's `needle in s`: some window of s equals needle. */
  predicate Contains(s: String, needle: String)
    decreases |s|
  {
    StartsWith(s, needle) || (|s| > 0 && Contains(s[1..], needle))
  }

  /** needle occurs in s starting at position i. */
  predicate OccursAt(s: String, needle: String, i: int) {
    0 <= i <= |s| - |needle| && s[i..i + |needle|] == needle
  }

  lemma {:induction false} ContainsAt(s: String, needle: String)
    ensures Contains(s, needle) <==> exists i :: OccursAt(s, needle, i)
    decreases |s|
  {
    if StartsWith(s, needle) {
      assert OccursAt(s, needle, 0);
    }
    if |s| > 0 {
      ContainsAt(s[1..], needle);
      if Contains(s[1..], needle) {
        var i :| OccursAt(s[1..], needle, i);
        assert s[i + 1..i + 1 + |needle|] == s[1..][i..i + |needle|];
        assert OccursAt(s, needle, i + 1);
      }
      if exists i :: OccursAt(s, needle, i) {
        var i :| OccursAt(s, needle, i);
        if i > 0 {
          assert s[1..][i - 1..i - 1 + |needle|] == s[i..i + |needle|];
          assert OccursAt(s[1..], needle, i - 1);
        } else {
          assert StartsWith(s, needle);
        }
      }
    } else {
      if exists i :: OccursAt(s, needle, i) {
        var i :| OccursAt(s, needle, i);
        assert needle == [] && s[..0] == needle;
      }
    }
  }

  /** Python's `s.split(sep)`: the pieces between separators, always at least one. */
  function Split(s: String, sep: char): (r: seq<String>)
    ensures |r| >= 1
    ensures forall k :: 0 <= k < |r| ==> sep !in r[k]
    decreases |s|
  {
    if s == [] then [[]]
    else if s[0] == sep then [[]] + Split(s[1..], sep)
    else
      var rest := Split(s[1..], sep);
      [[s[0]] + rest[0]] + rest[1..]
  }

  /** Python's `sep.join(parts)`. */
  function Join(parts: seq<String>, sep: char): String
    decreases |parts|
  {
    if parts == [] then []
    else if |parts| == 1 then parts[0]
    else parts[0] + [sep] + Join(parts[1..], sep)
  }

  /** Python's `''.join(parts)`: plain concatenation. */
  function Concat(parts: seq<String>): String
    decreases |parts|
  {
    if parts == [] then [] else Concat(parts[..|parts| - 1]) + parts[|parts| - 1]
  }

  lemma {:induction false} JoinSplit(s: String, sep: char)
    ensures Join(Split(s, sep), sep) == s
    decreases |s|
  {
    if s != [] {
      JoinSplit(s[1..], sep);
      if s[0] != sep {
        var rest := Split(s[1..], sep);
        if |rest| > 1 {
          assert rest == [rest[0]] + rest[1..];
        }
      }
    }
  }

  lemma {:induction false} SplitJoin(parts: seq<String>, sep: char)
    requires |parts| >= 1
    requires forall k :: 0 <= k < |parts| ==> sep !in parts[k]
    ensures Split(Join(parts, sep), sep) == parts
    decreases |parts|, |parts[0]|
  {
    if |parts| == 1 {
      SplitNoSep(parts[0], sep);
    } else if parts[0] == [] {
      assert Join(parts, sep) == [sep] + Join(parts[1..], sep);
      SplitJoin(parts[1..], sep);
    } else {
      var head := parts[0];
      var tail := [head[1..]] + parts[1..];
      assert sep !in head[1..] by {
        forall c | c in head[1..] ensures c != sep { assert c in head; }
      }
      SplitJoin(tail, sep);
      assert Join(parts, sep) == [head[0]] + Join(tail, sep) by {
        assert Join(tail, sep) == head[1..] + [sep] + Join(parts[1..], sep);
        assert head == [head[0]] + head[1..];
      }
      assert head[0] != sep by { assert head[0] in head; }
      assert tail[1..] == parts[1..];
      assert [head[0]] + head[1..] == head;
    }
  }

  lemma {:induction false} SplitNoSep(s: String, sep: char)
    requires sep !in s
    ensures Split(s, sep) == [s]
    decreases |s|
  {
    if s != [] {
      assert s[0] in s;
      assert sep !in s[1..] by {
        forall c | c in s[1..] ensures c != sep { assert c in s; }
      }
      SplitNoSep(s[1..], sep);
      assert [s[0]] + s[1..] == s;
    }
  }

  lemma {:induction false} JoinNoSep(parts: seq<String>, sep: char, c: char)
    requires c != sep
    requires forall k :: 0 <= k < |parts| ==> c !in parts[k]
    ensures c !in Join(parts, sep)
    decreases |parts|
  {
    if |parts| > 1 {
      JoinNoSep(parts[1..], sep, c);
    }
  }

  lemma {:induction false} ConcatAppend(parts: seq<String>, more: seq<String>)
    ensures Concat(parts + more) == Concat(parts) + Concat(more)
    decreases |more|
  {
    if more == [] {
      assert parts + more == parts;
    } else {
      var n := |more| - 1;
      var all := parts + more;
      assert all[..|all| - 1] == parts + more[..n];
      assert Concat(all) == Concat(parts + more[..n]) + more[n];
      ConcatAppend(parts, more[..n]);
      assert Concat(more) == Concat(more[..n]) + more[n];
    }
  }
  /** Splitting at a separator splits the two sides independently. */
  lemma {:induction false} SplitAppend(a: String, b: String, sep: char)
    ensures Split(a + [sep] + b, sep) == Split(a, sep) + Split(b, sep)
    decreases |a|
  {
    if a == [] {
      assert a + [sep] + b == [sep] + b;
    } else {
      assert (a + [sep] + b)[1..] == a[1..] + [sep] + b;
      SplitAppend(a[1..], b, sep);
    }
  }

  /** Glue the last piece of l to the first piece of r. */
  function Glue(l: seq<String>, r: seq<String>): seq<String>
    requires l != [] && r != []
  {
    l[..|l| - 1] + [l[|l| - 1] + r[0]] + r[1..]
  }

  /** Gluing onto an empty last piece just appends. */
  lemma GlueEmpty(l: seq<String>, r: seq<String>)
    requires l != [] && r != [] && l[|l| - 1] == []
    ensures Glue(l, r) == l[..|l| - 1] + r
  {
    assert l[|l| - 1] + r[0] == r[0];
    assert [r[0]] + r[1..] == r;
  }

  /** Prefixing a character to the first piece commutes with gluing. */
  lemma GlueCons(c: char, l: seq<String>, r: seq<String>)
    requires l != [] && r != []
    ensures var g := Glue(l, r); [[c] + g[0]] + g[1..] == Glue([[c] + l[0]] + l[1..], r)
  {
    var g := Glue(l, r);
    var L := [[c] + l[0]] + l[1..];
    if |l| > 1 {
      assert g[0] == l[0];
      assert g[1..] == l[1..|l| - 1] + [l[|l| - 1] + r[0]] + r[1..];
      assert L[..|L| - 1] == [[c] + l[0]] + l[1..|l| - 1];
    } else {
      assert g == [l[0] + r[0]] + r[1..];
      assert L[..|L| - 1] == [];
      assert [c] + (l[0] + r[0]) == L[0] + r[0];
    }
  }

  /** Splitting a concatenation: the last piece of the left side runs into the first piece of the right side. */
  lemma {:induction false} SplitConcat(a: String, b: String, sep: char)
    ensures Split(a + b, sep) == Glue(Split(a, sep), Split(b, sep))
    decreases |a|
  {
    if a == [] {
      assert a + b == b;
      GlueOntoEmpty(Split(b, sep));
    } else {
      assert (a + b)[1..] == a[1..] + b;
      SplitConcat(a[1..], b, sep);
      if a[0] != sep {
        GlueCons(a[0], Split(a[1..], sep), Split(b, sep));
      } else {
        GlueFront([], Split(a[1..], sep), Split(b, sep));
      }
    }
  }

  /** Gluing onto the single empty piece gives the right side back. */
  lemma GlueOntoEmpty(r: seq<String>)
    requires r != []
    ensures Glue([[]], r) == r
  {
    var empty: String := [];
    assert empty + r[0] == r[0];
  }

  /** A text ending in the separator splits with an empty last piece, and what follows it splits on its own. */
  lemma SplitAfterSep(a: String, b: String, sep: char)
    requires a != [] && a[|a| - 1] == sep
    ensures Split(a, sep)[|Split(a, sep)| - 1] == []
    ensures Split(a + b, sep) == Split(a, sep)[..|Split(a, sep)| - 1] + Split(b, sep)
  {
    var x := a[..|a| - 1];
    assert a == x + [sep] + [];
    SplitAppend(x, [], sep);
    assert a + b == x + [sep] + b;
    SplitAppend(x, b, sep);
  }

  /** A piece in front of the left side stays in front of the glued sequence. */
  lemma GlueFront(x: String, l: seq<String>, r: seq<String>)
    requires l != [] && r != []
    ensures [x] + Glue(l, r) == Glue([x] + l, r)
  {
    var L := [x] + l;
    assert L[..|L| - 1] == [x] + l[..|l| - 1];
  }

  /** A piece of a split is made of characters of the text. */
  lemma {:induction false} SplitChars(s: String, sep: char, k: nat, c: char)
    requires k < |Split(s, sep)| && c in Split(s, sep)[k]
    ensures c in s
    decreases |s|
  {
    if s != [] {
      if s[0] == sep {
        SplitChars(s[1..], sep, k - 1, c);
      } else {
        var rest := Split(s[1..], sep);
        if k == 0 {
          if c != s[0] {
            SplitChars(s[1..], sep, 0, c);
          }
        } else {
          SplitChars(s[1..], sep, k, c);
        }
      }
    }
  }

  lemma DigitsNoBreak(s: String)
    requires AllDigits(s)
    ensures '\n' !in s && '\r' !in s
  {
  }

  /** The join ends with the last part. */
  lemma {:induction false} JoinLast(parts: seq<String>, sep: char)
    requires parts != []
    ensures EndsWith(Join(parts, sep), parts[|parts| - 1])
    decreases |parts|
  {
    if |parts| > 1 {
      JoinLast(parts[1..], sep);
      var j := Join(parts[1..], sep);
      assert Join(parts, sep) == (parts[0] + [sep]) + j;
    }
  }

  /** The first piece of a split is a prefix of the text. */
  lemma {:induction false} SplitHeadPrefix(s: String, sep: char)
    ensures Split(s, sep)[0] <= s
    decreases |s|
  {
    if s != [] && s[0] != sep {
      SplitHeadPrefix(s[1..], sep);
      assert s == [s[0]] + s[1..];
    }
  }

  /** Joining one more part appends the separator and that part. */
  lemma {:induction false} JoinSnoc(parts: seq<String>, x: String, sep: char)
    requires parts != []
    ensures Join(parts + [x], sep) == Join(parts, sep) + [sep] + x
    decreases |parts|
  {
    if |parts| > 1 {
      JoinSnoc(parts[1..], x, sep);
      assert (parts + [x])[1..] == parts[1..] + [x];
    } else {
      assert (parts + [x])[1..] == [x];
    }
  }
}
