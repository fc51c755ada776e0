/**
 * Ordering of chat-log entries. Python compares the UTF-8 encodings of two
 * entries byte by byte; UTF-8 preserves code-point order, so that is the
 * lexicographic order of the strings as sequences of Unicode scalar values.
 */
module Order {
  import opened Text

  /** a sorts no later than b: a is a prefix of b, or a is smaller at the first difference. */
  predicate LexLe(a: String, b: String)
    decreases |a|
  {
    a == [] || (b != [] && (a[0] < b[0] || (a[0] == b[0] && LexLe(a[1..], b[1..]))))
  }

  predicate LexLt(a: String, b: String) {
    LexLe(a, b) && a != b
  }

  lemma {:induction false} LexReflexive(a: String)
    ensures LexLe(a, a)
    decreases |a|
  {
    if a != [] { LexReflexive(a[1..]); }
  }

  lemma {:induction false} LexAntisymmetric(a: String, b: String)
    requires LexLe(a, b) && LexLe(b, a)
    ensures a == b
    decreases |a|
  {
    if a != [] && b != [] {
      LexAntisymmetric(a[1..], b[1..]);
      assert a == [a[0]] + a[1..] && b == [b[0]] + b[1..];
    }
  }

  lemma {:induction false} LexTransitive(a: String, b: String, c: String)
    requires LexLe(a, b) && LexLe(b, c)
    ensures LexLe(a, c)
    decreases |a|
  {
    if a != [] && b != [] && c != [] && a[0] == b[0] == c[0] {
      LexTransitive(a[1..], b[1..], c[1..]);
    }
  }

  lemma {:induction false} LexTotal(a: String, b: String)
    ensures LexLe(a, b) || LexLe(b, a)
    decreases |a|
  {
    if a != [] && b != [] && a[0] == b[0] {
      LexTotal(a[1..], b[1..]);
    }
  }

  lemma {:induction false} LexPrefix(a: String, tail: String)
    ensures LexLe(a, a + tail)
    decreases |a|
  {
    if a != [] {
      assert (a + tail)[1..] == a[1..] + tail;
      LexPrefix(a[1..], tail);
    }
  }

  /** An entry below b is below every extension of b. */
  lemma LexLtExtend(a: String, b: String, tail: String)
    requires LexLt(a, b)
    ensures LexLt(a, b + tail)
  {
    LexPrefix(b, tail);
    LexTransitive(a, b, b + tail);
    if a == b + tail {
      LexAntisymmetric(a, b);
      assert false;
    }
  }

  /** The set of values a list holds. */
  function Elements(xs: seq<String>): set<String> {
    set x | x in xs
  }

  ghost predicate Sorted(xs: seq<String>) {
    forall i, j :: 0 <= i < j < |xs| ==> LexLe(xs[i], xs[j])
  }

  ghost predicate StrictlyIncreasing(xs: seq<String>) {
    forall i, j :: 0 <= i < j < |xs| ==> LexLt(xs[i], xs[j])
  }

  /** Insert x into a sorted list at the first position whose element is not smaller. */
  function Insert(x: String, xs: seq<String>): (r: seq<String>)
    requires Sorted(xs)
    ensures Sorted(r)
    ensures multiset(r) == multiset(xs) + multiset{x}
    decreases |xs|
  {
    if xs == [] then [x]
    else if LexLe(x, xs[0]) then
      assert forall j :: 0 <= j < |xs| ==> LexLe(x, xs[j]) by {
        forall j | 0 <= j < |xs| ensures LexLe(x, xs[j]) {
          if j > 0 { LexTransitive(x, xs[0], xs[j]); }
        }
      }
      [x] + xs
    else
      var rest := Insert(x, xs[1..]);
      LexTotal(x, xs[0]);
      assert xs == [xs[0]] + xs[1..];
      LowerBound(xs[0], rest, x, xs[1..]);
      [xs[0]] + rest
  }

  /** A lower bound of x and of every element of xs bounds every element of a list holding exactly those. */
  lemma LowerBound(y: String, r: seq<String>, x: String, xs: seq<String>)
    requires multiset(r) == multiset(xs) + multiset{x}
    requires LexLe(y, x) && forall j :: 0 <= j < |xs| ==> LexLe(y, xs[j])
    ensures forall j :: 0 <= j < |r| ==> LexLe(y, r[j])
  {
    forall j | 0 <= j < |r| ensures LexLe(y, r[j]) {
      assert r[j] in multiset(r);
      if r[j] != x {
        assert r[j] in multiset(xs);
        var k :| 0 <= k < |xs| && xs[k] == r[j] by {
          assert r[j] in xs;
        }
      }
    }
  }

  /** Python's `sorted(entries)` with each entry as its own key. */
  function Sort(xs: seq<String>): (r: seq<String>)
    ensures Sorted(r)
    ensures multiset(r) == multiset(xs)
    decreases |xs|
  {
    if xs == [] then []
    else
      assert xs == [xs[0]] + xs[1..];
      Insert(xs[0], Sort(xs[1..]))
  }

  /** Removing the head of a list removes one occurrence from its multiset. */
  lemma TailMultiset(a: seq<String>)
    requires a != []
    ensures multiset(a[1..]) == multiset(a) - multiset{a[0]}
  {
    assert a == [a[0]] + a[1..];
    assert multiset(a) == multiset{a[0]} + multiset(a[1..]);
  }

  /** Two sorted permutations of each other start with the same element. */
  lemma SortedSameHead(a: seq<String>, b: seq<String>)
    requires Sorted(a) && Sorted(b)
    requires multiset(a) == multiset(b)
    requires a != []
    ensures b != [] && a[0] == b[0]
  {
    assert |b| == |multiset(b)| == |a|;
    assert a[0] in multiset(b) && b[0] in multiset(a);
    var i :| 0 <= i < |b| && b[i] == a[0] by { assert a[0] in b; }
    var j :| 0 <= j < |a| && a[j] == b[0] by { assert b[0] in a; }
    assert LexLe(b[0], b[i]) || i == 0;
    assert LexLe(a[0], a[j]) || j == 0;
    if i > 0 && j > 0 {
      LexAntisymmetric(a[0], b[0]);
    }
  }

  /** The order is total and antisymmetric, so a sorted permutation is unique. */
  lemma {:induction false} SortedUnique(a: seq<String>, b: seq<String>)
    requires Sorted(a) && Sorted(b)
    requires multiset(a) == multiset(b)
    ensures a == b
    decreases |a|
  {
    if a != [] {
      SortedSameHead(a, b);
      TailMultiset(a);
      TailMultiset(b);
      SortedUnique(a[1..], b[1..]);
      assert a == [a[0]] + a[1..] && b == [b[0]] + b[1..];
    } else {
      assert |b| == |multiset(b)| == 0;
    }
  }

  /** A list that is already sorted is its own sorted permutation. */
  lemma SortSorted(xs: seq<String>)
    requires Sorted(xs)
    ensures Sort(xs) == xs
  {
    SortedUnique(Sort(xs), xs);
  }

  /** Sorting depends only on the multiset of its input. */
  lemma SortPermutation(xs: seq<String>, ys: seq<String>)
    requires multiset(xs) == multiset(ys)
    ensures Sort(xs) == Sort(ys)
  {
    SortedUnique(Sort(xs), Sort(ys));
  }

  /** The dedup loop: keep an element unless it equals the element just before it. */
  function Dedup(xs: seq<String>): seq<String>
    decreases |xs|
  {
    if |xs| <= 1 then xs
    else
      var kept := Dedup(xs[..|xs| - 1]);
      if xs[|xs| - 1] == xs[|xs| - 2] then kept else kept + [xs[|xs| - 1]]
  }

  /** Dedup keeps exactly the distinct values, keeps the last one, and never yields neighbours that are equal. */
  lemma {:induction false} DedupShape(xs: seq<String>)
    ensures Elements(Dedup(xs)) == Elements(xs)
    ensures xs != [] ==> Dedup(xs) != [] && Dedup(xs)[|Dedup(xs)| - 1] == xs[|xs| - 1]
    ensures forall k :: 0 <= k < |Dedup(xs)| - 1 ==> Dedup(xs)[k] != Dedup(xs)[k + 1]
    decreases |xs|
  {
    if |xs| > 1 {
      var init := xs[..|xs| - 1];
      var last := xs[|xs| - 1];
      DedupShape(init);
      assert xs == init + [last];
      assert xs[|xs| - 2] == init[|init| - 1];
      assert Elements(xs) == Elements(init) + {last};
      var kept := Dedup(init);
      assert Elements(kept + [last]) == Elements(kept) + {last};
      assert init[|init| - 1] in Elements(init);
    }
  }

  /** Dedup of a sorted list is strictly increasing. */
  lemma {:induction false} DedupSortedStrict(xs: seq<String>)
    requires Sorted(xs)
    ensures StrictlyIncreasing(Dedup(xs))
    decreases |xs|
  {
    if |xs| > 1 {
      var init := xs[..|xs| - 1];
      var last := xs[|xs| - 1];
      DedupSortedStrict(init);
      DedupShape(init);
      var kept := Dedup(init);
      if last != xs[|xs| - 2] {
        forall i | 0 <= i < |kept| ensures LexLt(kept[i], last) {
          assert kept[i] in Elements(kept);
          assert kept[i] in Elements(init);
          var k :| 0 <= k < |init| && init[k] == kept[i];
          assert LexLe(kept[i], last);
          if kept[i] == last {
            assert LexLe(init[k], xs[|xs| - 2]);
            assert LexLe(xs[|xs| - 2], last);
            LexAntisymmetric(last, xs[|xs| - 2]);
          }
        }
      }
    } else if |xs| == 1 {
      LexReflexive(xs[0]);
    }
  }

  /** Dedup leaves a strictly increasing list unchanged. */
  lemma {:induction false} DedupStrict(xs: seq<String>)
    requires StrictlyIncreasing(xs)
    ensures Dedup(xs) == xs
    decreases |xs|
  {
    if |xs| > 1 {
      var init := xs[..|xs| - 1];
      DedupStrict(init);
      assert LexLt(xs[|xs| - 2], xs[|xs| - 1]);
      assert xs == init + [xs[|xs| - 1]];
    }
  }

  lemma StrictIsSorted(xs: seq<String>)
    requires StrictlyIncreasing(xs)
    ensures Sorted(xs)
  {
  }
}
