/**
 * The chat-log normaliser `sort_chat_log` (sl-chatmerge.py:216-343): line
 * endings to LF, multi-line entries reassembled, timestamps rewritten into
 * 24-hour form, entries sorted by their full text, adjacent duplicates
 * dropped, and the result joined with LF and terminated by one LF.
 */
module ChatLog {
  import opened Wrappers
  import opened Text
  import opened Order
  import opened Timestamp

  /** The ValueError raised for an entry whose first line opens a bracket the pattern rejects. */
  datatype Malformed = MalformedTimestamp(line: String)

  /** `s.replace('\r\n', '\n')`: CR LF pairs, left to right, become LF. */
  function ReplaceCrLf(s: String): String
    decreases |s|
  {
    if s == [] then []
    else if |s| >= 2 && s[0] == '\r' && s[1] == '\n' then "\n" + ReplaceCrLf(s[2..])
    else [s[0]] + ReplaceCrLf(s[1..])
  }

  /** `s.replace('\r', '\n')`. */
  function ReplaceCr(s: String): String {
    seq(|s|, i requires 0 <= i < |s| => if s[i] == '\r' then '\n' else s[i])
  }

  /** Step 1: every CR LF and every lone CR becomes LF. */
  function NormalizeLineEndings(s: String): String {
    ReplaceCr(ReplaceCrLf(s))
  }

  /** The physical lines `content.split('\n')` of the normalised text. */
  function Lines(content: String): seq<String> {
    Split(NormalizeLineEndings(content), '\n')
  }

  /**
   * Step 2, the reassembly loop of sl-chatmerge.py:248-263 read as a left fold:
   * an opener line starts a new entry, an empty line is dropped, any other line
   * continues the current entry or, when there is none yet, starts the first.
   * Each entry is the list of its physical lines; `opens` tells openers apart
   * (the program uses IsOpener).
   */
  function Group(lines: seq<String>, opens: String -> bool): seq<seq<String>>
    decreases |lines|
  {
    if lines == [] then [] else Extend(Group(lines[..|lines| - 1], opens), lines[|lines| - 1], opens)
  }

  /** One iteration of the reassembly loop, on the entries built so far. */
  function Extend(done: seq<seq<String>>, line: String, opens: String -> bool): seq<seq<String>> {
    if opens(line) then done + [[line]]
    else if line == [] then done
    else if done == [] then [[line]]
    else done[..|done| - 1] + [done[|done| - 1] + [line]]
  }

  lemma GroupPrefix(lines: seq<String>, i: nat, opens: String -> bool)
    requires i < |lines|
    ensures Group(lines[..i + 1], opens) == Extend(Group(lines[..i], opens), lines[i], opens)
  {
    assert lines[..i + 1][..i] == lines[..i];
  }

  /** Each entry as the text `'\n'.join(lines)`. */
  function Texts(groups: seq<seq<String>>): (r: seq<String>)
    ensures |r| == |groups|
  {
    seq(|groups|, k requires 0 <= k < |groups| => Join(groups[k], '\n'))
  }

  function Entries(lines: seq<String>): seq<String> {
    Texts(Group(lines, IsOpener))
  }

  /** The first physical line of an entry. */
  function FirstLine(entry: String): String {
    Split(entry, '\n')[0]
  }

  function Min(a: int, b: int): int { if a <= b then a else b }

  /**
   * Step 3 for one entry: a first line that starts with '[' must match the
   * pattern, and its timestamp is replaced by the canonical one; an entry whose
   * first line does not start with '[' is kept as it is.
   */
  function NormalizeEntry(entry: String): Result<String, Malformed> {
    var lines := Split(entry, '\n');
    var first := lines[0];
    if |first| > 0 && first[0] == '[' then
      match Parse(first)
      case None => Err(MalformedTimestamp(first[..Min(80, |first|)]))
      case Some(m) =>
        ParseSound(first);
        Ok(Join([Render(Canonical(m.stamp)) + first[m.end..]] + lines[1..], '\n'))
    else Ok(entry)
  }

  /**
   * Step 3 for all entries, in order, with `normalize` for one entry (the
   * program uses NormalizeEntry); the first failing entry raises.
   */
  function NormalizeAll(entries: seq<String>, normalize: String -> Result<String, Malformed>): Result<seq<String>, Malformed>
    decreases |entries|
  {
    if entries == [] then Ok([])
    else
      match NormalizeAll(entries[..|entries| - 1], normalize)
      case Err(e) => Err(e)
      case Ok(done) =>
        match normalize(entries[|entries| - 1])
        case Err(e) => Err(e)
        case Ok(n) => Ok(done + [n])
  }

  /** Step 6: add a newline unless the text is empty or already ends with one. */
  function Terminate(s: String): String {
    if s != [] && s[|s| - 1] != '\n' then s + "\n" else s
  }

  /** sort_chat_log as a function of its input. */
  function SortedLog(content: String): Result<String, Malformed> {
    var text := NormalizeLineEndings(content);
    if text == [] then Ok("\n")
    else
      match NormalizeAll(Entries(Split(text, '\n')), NormalizeEntry)
      case Err(e) => Err(e)
      case Ok(normalized) => Ok(Terminate(Join(Dedup(Sort(normalized)), '\n')))
  }

  lemma {:induction false} NormalizeAllStops(entries: seq<String>, k: nat, normalize: String -> Result<String, Malformed>)
    requires k <= |entries|
    requires NormalizeAll(entries[..k], normalize).Err?
    ensures NormalizeAll(entries, normalize) == NormalizeAll(entries[..k], normalize)
    decreases |entries| - k
  {
    if k < |entries| {
      assert entries[..k + 1][..k] == entries[..k];
      NormalizeAllStops(entries, k + 1, normalize);
    } else {
      assert entries[..k] == entries;
    }
  }

  /** The entry still being collected, as a list of at most one entry. */
  function Pending(current: seq<String>): seq<seq<String>> {
    if current == [] then [] else [current]
  }

  lemma TextsAppend(groups: seq<seq<String>>, g: seq<String>)
    ensures Texts(groups + [g]) == Texts(groups) + [Join(g, '\n')]
  {
  }

  /** The reassembly loop of sl-chatmerge.py:248-263. */
  method JoinEntries(lines: seq<String>) returns (entries: seq<String>)
    ensures entries == Entries(lines)
  {
    entries := [];
    var current: seq<String> := [];
    ghost var groups: seq<seq<String>> := [];
    var i := 0;
    while i < |lines|
      invariant 0 <= i <= |lines|
      invariant entries == Texts(groups)
      invariant groups + Pending(current) == Group(lines[..i], IsOpener)
      invariant groups != [] ==> current != []
    {
      var line := lines[i];
      GroupPrefix(lines, i, IsOpener);
      ghost var before := groups + Pending(current);
      if IsOpener(line) {
        assert Extend(before, line, IsOpener) == before + [[line]];
        if current != [] {
          TextsAppend(groups, current);
          entries := entries + [Join(current, '\n')];
          groups := groups + [current];
        }
        current := [line];
      } else if line != [] {
        if current != [] {
          assert Extend(before, line, IsOpener) == groups + [current + [line]];
          current := current + [line];
        } else {
          current := [line];
        }
      }
      i := i + 1;
    }
    if current != [] {
      TextsAppend(groups, current);
      entries := entries + [Join(current, '\n')];
      groups := groups + [current];
    }
    assert lines[..|lines|] == lines;
  }

  /** The validation loop of sl-chatmerge.py:271-317: stops at the first malformed entry. */
  method NormalizeEach(entries: seq<String>) returns (r: Result<seq<String>, Malformed>)
    ensures r == NormalizeAll(entries, NormalizeEntry)
  {
    var normalized: seq<String> := [];
    var k := 0;
    while k < |entries|
      invariant 0 <= k <= |entries|
      invariant NormalizeAll(entries[..k], NormalizeEntry) == Ok(normalized)
    {
      var n := NormalizeEntry(entries[k]);
      assert entries[..k + 1][..k] == entries[..k];
      if n.Err? {
        NormalizeAllStops(entries, k + 1, NormalizeEntry);
        return Err(n.error);
      }
      normalized := normalized + [n.value];
      k := k + 1;
    }
    assert entries[..k] == entries;
    r := Ok(normalized);
  }

  /** The duplicate-removal loop of sl-chatmerge.py:331-336. */
  method DropAdjacentDuplicates(sorted: seq<String>) returns (deduplicated: seq<String>)
    ensures deduplicated == Dedup(sorted)
  {
    deduplicated := [];
    var prev: Option<String> := None;
    var j := 0;
    while j < |sorted|
      invariant 0 <= j <= |sorted|
      invariant deduplicated == Dedup(sorted[..j])
      invariant prev == if j == 0 then None else Some(sorted[j - 1])
    {
      var entry := sorted[j];
      assert sorted[..j + 1][..j] == sorted[..j];
      if prev != Some(entry) {
        deduplicated := deduplicated + [entry];
        prev := Some(entry);
      }
      j := j + 1;
    }
    assert sorted[..j] == sorted;
  }

  /** SortedLog once the entries of a non-empty text have been normalised (or have failed to). */
  lemma SortedLogSteps(content: String, normalized: Result<seq<String>, Malformed>)
    requires NormalizeLineEndings(content) != []
    requires normalized == NormalizeAll(Entries(Split(NormalizeLineEndings(content), '\n')), NormalizeEntry)
    ensures normalized.Err? ==> SortedLog(content) == Err(normalized.error)
    ensures normalized.Ok? ==> SortedLog(content) == Ok(Terminate(Join(Dedup(Sort(normalized.value)), '\n')))
  {
  }

  /** The method form of sort_chat_log (sl-chatmerge.py:216-343). */
  method SortChatLog(content: String) returns (r: Result<String, Malformed>)
    ensures r == SortedLog(content)
  {
    var text := NormalizeLineEndings(content);
    if text == [] {
      return Ok("\n");
    }
    var entries := JoinEntries(Split(text, '\n'));
    var normalized := NormalizeEach(entries);
    SortedLogSteps(content, normalized);
    if normalized.Err? {
      return Err(normalized.error);
    }
    var sorted := Sort(normalized.value);
    var deduplicated := DropAdjacentDuplicates(sorted);
    var result := Join(deduplicated, '\n');
    ghost var joined := result;
    if result != [] && result[|result| - 1] != '\n' {
      result := result + "\n";
    }
    assert result == Terminate(joined);
    r := Ok(result);
  }
}
