/**
 * Which relative paths the merger processes: `should_exclude_file`
 * (sl-chatmerge.py:137-157) and the filter chain of `discover_files`
 * (sl-chatmerge.py:174-206). Paths are relative to a directory root and use
 * forward slashes; the recursive listing of `*.txt` files is an input.
 */
module Selection {
  import opened Text
  import opened Config

  /**
   * EXCLUDED_FILES as Python evaluates it (sl-chatmerge.py:28-36): the comma
   * after "render_mute_settings.txt" is missing, so that literal and the next
   * one are concatenated into a single name.
   */
  const ExcludedFiles: seq<String> := [
    "avatar_icons_cache.txt",
    "cef_log.txt",
    "plugin_cookies.txt",
    "render_mute_settings.txtsearch_history.txt",
    "teleport_history.txt",
    "typed_locations.txt"
  ]

  /** The list with the missing comma restored. */
  const IntendedExcludedFiles: seq<String> := [
    "avatar_icons_cache.txt",
    "cef_log.txt",
    "plugin_cookies.txt",
    "render_mute_settings.txt",
    "search_history.txt",
    "teleport_history.txt",
    "typed_locations.txt"
  ]

  /** EXCLUDED_DIRECTORIES (sl-chatmerge.py:39-42). */
  const ExcludedDirectories: seq<String> := ["logs/", "user_settings/"]

  /** The path, lowered, starts with one of the excluded directory names, lowered. */
  predicate InExcludedDirectory(rel: String) {
    exists d :: d in ExcludedDirectories && StartsWith(Lower(rel), Lower(d))
  }

  /** The excluded directories are the paths whose lowered form starts with "logs/" or "user_settings/". */
  lemma InExcludedDirectoryIff(rel: String)
    ensures InExcludedDirectory(rel) <==> StartsWith(Lower(rel), "logs/") || StartsWith(Lower(rel), "user_settings/")
  {
    assert Lower(ExcludedDirectories[0]) == "logs/";
    assert Lower(ExcludedDirectories[1]) == "user_settings/";
    assert ExcludedDirectories == [ExcludedDirectories[0], ExcludedDirectories[1]];
  }

  /** The loop of should_exclude_file over the excluded names: some "/" + name is a suffix of `lowered`. */
  predicate EndsWithAny(lowered: String, names: seq<String>)
    decreases |names|
  {
    names != [] && (EndsWith(lowered, "/" + Lower(names[0])) || EndsWithAny(lowered, names[1..]))
  }

  /** should_exclude_file, with the list of excluded names as a parameter (the program passes ExcludedFiles). */
  predicate ShouldExcludeFile(rel: String, names: seq<String>) {
    Contains(Lower(rel), "conflicted copy") || EndsWithAny(Lower(rel), names)
  }

  /** The user filters: none given, or some filter occurs in the path, both lowered. */
  predicate MatchesFilters(rel: String, filters: seq<String>) {
    filters == [] || exists f :: f in filters && Contains(Lower(rel), Lower(f))
  }

  /** The three tests a discovered path must pass, in the order discover_files applies them. */
  predicate Keep(rel: String, filters: seq<String>, names: seq<String>) {
    !InExcludedDirectory(rel) && !ShouldExcludeFile(rel, names) && MatchesFilters(rel, filters)
  }

  /** An existing directory: its mode and the relative paths of the `*.txt` files below it. */
  datatype Listing = Listing(mode: Mode, files: seq<String>)

  /** The files one directory contributes: none unless it is readable. */
  function Contribution(d: Listing, filters: seq<String>, names: seq<String>): set<String> {
    if Readable(d.mode) then set rel | rel in d.files && Keep(rel, filters, names) else {}
  }

  /** discover_files as a function: the union of the contributions of the directories. */
  function Discovered(dirs: seq<Listing>, filters: seq<String>, names: seq<String>): set<String>
    decreases |dirs|
  {
    if dirs == [] then {}
    else Discovered(dirs[..|dirs| - 1], filters, names) + Contribution(dirs[|dirs| - 1], filters, names)
  }

  /** The nested loops of discover_files. */
  method DiscoverFiles(dirs: seq<Listing>, filters: seq<String>, names: seq<String>) returns (found: set<String>)
    ensures found == Discovered(dirs, filters, names)
  {
    found := {};
    var d := 0;
    while d < |dirs|
      invariant 0 <= d <= |dirs|
      invariant found == Discovered(dirs[..d], filters, names)
    {
      assert dirs[..d + 1][..d] == dirs[..d];
      var listing := dirs[d];
      if Readable(listing.mode) {
        ghost var before := found;
        var j := 0;
        while j < |listing.files|
          invariant 0 <= j <= |listing.files|
          invariant found == before + set rel | rel in listing.files[..j] && Keep(rel, filters, names)
        {
          var rel := listing.files[j];
          assert listing.files[..j + 1] == listing.files[..j] + [rel];
          if Keep(rel, filters, names) {
            found := found + {rel};
          }
          j := j + 1;
        }
        assert listing.files[..j] == listing.files;
      }
      d := d + 1;
    }
    assert dirs[..d] == dirs;
  }

  /** A path is discovered exactly when some readable directory lists it and it passes the three tests. */
  lemma {:induction false} DiscoveredIff(dirs: seq<Listing>, filters: seq<String>, names: seq<String>, rel: String)
    ensures rel in Discovered(dirs, filters, names) <==>
      Keep(rel, filters, names) && exists i :: 0 <= i < |dirs| && Readable(dirs[i].mode) && rel in dirs[i].files
    decreases |dirs|
  {
    if dirs != [] {
      var init := dirs[..|dirs| - 1];
      DiscoveredIff(init, filters, names, rel);
      if exists i :: 0 <= i < |init| && Readable(init[i].mode) && rel in init[i].files {
        var i :| 0 <= i < |init| && Readable(init[i].mode) && rel in init[i].files;
        assert dirs[i] == init[i];
      }
      if exists i :: 0 <= i < |dirs| && Readable(dirs[i].mode) && rel in dirs[i].files {
        var i :| 0 <= i < |dirs| && Readable(dirs[i].mode) && rel in dirs[i].files;
        if i < |init| { assert init[i] == dirs[i]; }
      }
    }
  }

  /** Scanning two groups of directories yields the union of what each yields. */
  lemma {:induction false} DiscoveredAppend(a: seq<Listing>, b: seq<Listing>, filters: seq<String>, names: seq<String>)
    ensures Discovered(a + b, filters, names) == Discovered(a, filters, names) + Discovered(b, filters, names)
    decreases |b|
  {
    if b == [] {
      assert a + b == a;
    } else {
      var init := b[..|b| - 1];
      assert (a + b)[..|a + b| - 1] == a + init;
      DiscoveredAppend(a, init, filters, names);
    }
  }

  /** Several filters select the union of what each selects alone. */
  lemma FiltersUnion(dirs: seq<Listing>, f: seq<String>, g: seq<String>, names: seq<String>)
    requires f != [] && g != []
    ensures Discovered(dirs, f + g, names) == Discovered(dirs, f, names) + Discovered(dirs, g, names)
  {
    forall rel ensures rel in Discovered(dirs, f + g, names) <==> rel in Discovered(dirs, f, names) + Discovered(dirs, g, names) {
      DiscoveredIff(dirs, f + g, names, rel);
      DiscoveredIff(dirs, f, names, rel);
      DiscoveredIff(dirs, g, names, rel);
      assert MatchesFilters(rel, f + g) <==> MatchesFilters(rel, f) || MatchesFilters(rel, g) by {
        if MatchesFilters(rel, f + g) {
          var x :| x in f + g && Contains(Lower(rel), Lower(x));
          assert x in f || x in g;
        }
      }
    }
  }

  /** Giving filters only ever narrows the selection. */
  lemma FiltersNarrow(dirs: seq<Listing>, filters: seq<String>, names: seq<String>)
    ensures Discovered(dirs, filters, names) <= Discovered(dirs, [], names)
  {
    forall rel | rel in Discovered(dirs, filters, names) ensures rel in Discovered(dirs, [], names) {
      DiscoveredIff(dirs, filters, names, rel);
      DiscoveredIff(dirs, [], names, rel);
    }
  }

  /** The list of suffix tests: the path ends with "/" + some name, all lowered. */
  lemma {:induction false} EndsWithAnyIff(lowered: String, names: seq<String>)
    ensures EndsWithAny(lowered, names) <==> exists k :: 0 <= k < |names| && EndsWith(lowered, "/" + Lower(names[k]))
    decreases |names|
  {
    if names != [] {
      EndsWithAnyIff(lowered, names[1..]);
      if exists k :: 0 <= k < |names[1..]| && EndsWith(lowered, "/" + Lower(names[1..][k])) {
        var k :| 0 <= k < |names[1..]| && EndsWith(lowered, "/" + Lower(names[1..][k]));
        assert names[k + 1] == names[1..][k];
      }
      if exists k :: 0 <= k < |names| && EndsWith(lowered, "/" + Lower(names[k])) {
        var k :| 0 <= k < |names| && EndsWith(lowered, "/" + Lower(names[k]));
        if k > 0 { assert names[1..][k - 1] == names[k]; }
      }
    }
  }

  /**
   * should_exclude_file rejects exactly the paths that contain "conflicted
   * copy" somewhere, or end with "/" followed by a listed name, ignoring case.
   */
  lemma ShouldExcludeFileIff(rel: String, names: seq<String>)
    ensures ShouldExcludeFile(rel, names) <==>
      (exists i :: OccursAt(Lower(rel), "conflicted copy", i)) ||
      (exists k :: 0 <= k < |names| && EndsWith(Lower(rel), "/" + Lower(names[k])))
  {
    var lowered := Lower(rel);
    ContainsAt(lowered, "conflicted copy");
    EndsWithAnyIff(lowered, names);
    assert ShouldExcludeFile(rel, names) == (Contains(lowered, "conflicted copy") || EndsWithAny(lowered, names));
    assert Contains(lowered, "conflicted copy") <==> exists i :: OccursAt(Lower(rel), "conflicted copy", i);
    assert EndsWithAny(lowered, names) <==> exists k :: 0 <= k < |names| && EndsWith(Lower(rel), "/" + Lower(names[k]));
  }

  /** Lowering twice is lowering once. */
  lemma LowerIdempotent(s: String)
    ensures Lower(Lower(s)) == Lower(s)
  {
  }

  /** The whole filter chain ignores letter case: a path and its lowered form are kept or dropped together. */
  lemma KeepIgnoresCase(rel: String, filters: seq<String>, names: seq<String>)
    ensures Keep(rel, filters, names) == Keep(Lower(rel), filters, names)
  {
    LowerIdempotent(rel);
  }

  /** A name without upper-case letters is its own lowered form. */
  lemma LowerOfLower(s: String)
    requires forall i :: 0 <= i < |s| ==> !('A' <= s[i] <= 'Z')
    ensures Lower(s) == s
  {
  }

  /** A needle with a character the text lacks does not occur in it. */
  lemma {:induction false} ContainsChar(s: String, needle: String, c: char)
    requires c in needle && c !in s
    ensures !Contains(s, needle)
    decreases |s|
  {
    if |s| > 0 {
      ContainsChar(s[1..], needle, c);
    }
  }

  /** One mismatching position rules a suffix out. */
  lemma NotSuffix(s: String, suffix: String, j: int)
    requires |suffix| <= |s| ==> 0 <= j < |suffix| && s[|s| - |suffix| + j] != suffix[j]
    ensures !EndsWith(s, suffix)
  {
  }

  /**
   * A lowered path that ends with "/search_history.txt" does not end with
   * "/" + the k-th listed name: the two differ `back` characters from the end.
   */
  lemma NotListedSuffix(l: String, k: nat)
    requires EndsWith(l, "/search_history.txt") && k < |ExcludedFiles|
    ensures !EndsWith(l, "/" + Lower(ExcludedFiles[k]))
  {
    var t := "/search_history.txt";
    var sfx := "/" + Lower(ExcludedFiles[k]);
    var back := if k == 3 then 18 else if k == 4 then 12 else 4;
    assert back < |sfx| && sfx[|sfx| - 1 - back] != t[|t| - 1 - back];
    MismatchFromEnd(l, t, sfx, back);
  }

  /** A text ending with t does not end with a suffix that differs from t `back` characters from the end. */
  lemma MismatchFromEnd(l: String, t: String, sfx: String, back: nat)
    requires EndsWith(l, t) && back < |t| && back < |sfx| && sfx[|sfx| - 1 - back] != t[|t| - 1 - back]
    ensures !EndsWith(l, sfx)
  {
    assert l[|l| - 1 - back] == t[|t| - 1 - back];
    NotSuffix(l, sfx, |sfx| - 1 - back);
  }

  /**
   * As written, no search history file is excluded by name: "/search_history.txt"
   * ends no "/" + listed name, since the one that should have matched is fused
   * with "render_mute_settings.txt". Only "conflicted copy" can still drop it.
   */
  lemma SearchHistoryKept(rel: String)
    requires EndsWith(Lower(rel), "/search_history.txt") && !Contains(Lower(rel), "conflicted copy")
    ensures !ShouldExcludeFile(rel, ExcludedFiles)
  {
    var l := Lower(rel);
    EndsWithAnyIff(l, ExcludedFiles);
    forall k | 0 <= k < |ExcludedFiles| ensures !EndsWith(l, "/" + Lower(ExcludedFiles[k])) {
      NotListedSuffix(l, k);
    }
  }

  /** The path the test suite expects to be excluded is not, as written. */
  lemma SearchHistoryTestPath(rel: String)
    requires rel == "logs/search_history.txt"
    ensures !ShouldExcludeFile(rel, ExcludedFiles)
  {
    TestPathShape(rel);
    TestPathLower(rel);
    assert ' ' !in rel;
    LowerOfLower(rel);
    ContainsChar(rel, "conflicted copy", ' ');
    SearchHistoryKept(rel);
  }

  lemma TestPathShape(l: String)
    requires l == "logs/search_history.txt"
    ensures EndsWith(l, "/search_history.txt")
  {
    assert l == "logs" + "/search_history.txt";
  }

  lemma TestPathLower(l: String)
    requires l == "logs/search_history.txt"
    ensures forall i :: 0 <= i < |l| ==> !('A' <= l[i] <= 'Z') && l[i] != ' '
  {
  }

  /** Outside the excluded directories, and with no filters, a search history file is discovered and merged. */
  lemma SearchHistoryDiscovered(rel: String)
    requires EndsWith(Lower(rel), "/search_history.txt") && !Contains(Lower(rel), "conflicted copy")
    requires !InExcludedDirectory(rel)
    ensures Keep(rel, [], ExcludedFiles)
  {
    SearchHistoryKept(rel);
  }

  /** The suffix the corrected list tests for the mute settings. */
  lemma MuteSettingsSuffix()
    ensures "/" + Lower(IntendedExcludedFiles[3]) == "/render_mute_settings.txt"
  {
    LowerOfLower(IntendedExcludedFiles[3]);
    assert "/" + "render_mute_settings.txt" == "/render_mute_settings.txt";
  }

  /** The suffix the corrected list tests for the search history. */
  lemma SearchHistorySuffix()
    ensures "/" + Lower(IntendedExcludedFiles[4]) == "/search_history.txt"
  {
    LowerOfLower(IntendedExcludedFiles[4]);
    assert "/" + "search_history.txt" == "/search_history.txt";
  }

  /** With the comma restored, every path ending in one of the two names is excluded, whatever its case. */
  lemma IntendedExcludesBoth(rel: String)
    requires EndsWith(Lower(rel), "/search_history.txt") || EndsWith(Lower(rel), "/render_mute_settings.txt")
    ensures ShouldExcludeFile(rel, IntendedExcludedFiles)
  {
    var l := Lower(rel);
    EndsWithAnyIff(l, IntendedExcludedFiles);
    if EndsWith(l, "/search_history.txt") {
      SearchHistorySuffix();
      assert EndsWith(l, "/" + Lower(IntendedExcludedFiles[4]));
    } else {
      MuteSettingsSuffix();
      assert EndsWith(l, "/" + Lower(IntendedExcludedFiles[3]));
    }
  }
}
