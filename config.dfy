/**
 * The directory configuration: `validate_config` (sl-chatmerge.py:82-109) and
 * the start-up check that at least one readable and one writable directory
 * exists (sl-chatmerge.py:549-563).
 */
module Config {
  import opened Wrappers
  import opened Text

  /** The access mode of a configured directory, once validated. */
  datatype Mode = R | W | RW

  /** One entry of the DIRECTORIES list: a dictionary whose two keys may be missing. */
  datatype DirConfig = DirConfig(path: Option<String>, mode: Option<String>)

  /** The ordered error cases of validate_config, each with the failing entry's index. */
  datatype ConfigError =
    | NoDirectories
    | MissingMode(idx: nat)
    | InvalidMode(idx: nat, mode: String)
    | MissingPath(idx: nat)

  /** The errors of the start-up check in main. */
  datatype StartupError = NoExistingDirectories | NoReadableDirectory | NoWritableDirectory

  /** Reading a mode string: only "r", "w" and "rw" are modes. */
  function ParseMode(s: String): (r: Option<Mode>)
    ensures r.Some? <==> s == "r" || s == "w" || s == "rw"
  {
    if s == "r" then Some(R) else if s == "w" then Some(W) else if s == "rw" then Some(RW) else None
  }

  function ModeText(m: Mode): String {
    match m
    case R => "r"
    case W => "w"
    case RW => "rw"
  }

  /** ModeText is the inverse of ParseMode. */
  lemma ModeRoundTrip(m: Mode, s: String)
    ensures ParseMode(ModeText(m)) == Some(m)
    ensures ParseMode(s) == Some(m) ==> ModeText(m) == s
  {
  }

  /** `mode in ("r", "rw")`. */
  predicate Readable(m: Mode) { m == R || m == RW }

  /** `mode in ("w", "rw")`. */
  predicate Writable(m: Mode) { m == W || m == RW }

  /** Every mode allows reading or writing, and only RW allows both. */
  lemma ModeAccess(m: Mode)
    ensures Readable(m) || Writable(m)
    ensures Readable(m) && Writable(m) <==> m == RW
  {
  }

  /** The checks of one entry, in the order the loop body makes them. */
  function EntryError(idx: nat, c: DirConfig): Option<ConfigError> {
    if c.mode.None? then Some(MissingMode(idx))
    else if ParseMode(c.mode.value).None? then Some(InvalidMode(idx, c.mode.value))
    else if c.path.None? then Some(MissingPath(idx))
    else None
  }

  /** An entry that passes every check: both keys present and the mode one of r, w, rw. */
  predicate ValidEntry(c: DirConfig) {
    c.path.Some? && c.mode.Some? && ParseMode(c.mode.value).Some?
  }

  lemma EntryErrorIff(idx: nat, c: DirConfig)
    ensures EntryError(idx, c).None? <==> ValidEntry(c)
    ensures EntryError(idx, c).Some? ==> ErrorIndex(EntryError(idx, c).value) == Some(idx)
  {
  }

  /** The index an error reports, if it reports one. */
  function ErrorIndex(e: ConfigError): Option<nat> {
    match e
    case NoDirectories => None
    case MissingMode(idx) => Some(idx)
    case InvalidMode(idx, _) => Some(idx)
    case MissingPath(idx) => Some(idx)
  }

  /** validate_config: the first failing entry is reported, otherwise the list comes back unchanged. */
  method ValidateConfig(dirs: seq<DirConfig>) returns (r: Result<seq<DirConfig>, ConfigError>)
    ensures dirs == [] ==> r == Err(NoDirectories)
    ensures r.Ok? <==> dirs != [] && forall i :: 0 <= i < |dirs| ==> ValidEntry(dirs[i])
    ensures r.Ok? ==> r.value == dirs
    ensures r.Err? && dirs != [] ==>
      exists idx :: 0 <= idx < |dirs| && EntryError(idx, dirs[idx]) == Some(r.error)
        && forall i :: 0 <= i < idx ==> ValidEntry(dirs[i])
  {
    if dirs == [] {
      return Err(NoDirectories);
    }
    var idx := 0;
    while idx < |dirs|
      invariant 0 <= idx <= |dirs|
      invariant forall i :: 0 <= i < idx ==> ValidEntry(dirs[i])
    {
      var c := dirs[idx];
      EntryErrorIff(idx, c);
      if c.mode.None? {
        return Err(MissingMode(idx));
      }
      if ParseMode(c.mode.value).None? {
        return Err(InvalidMode(idx, c.mode.value));
      }
      if c.path.None? {
        return Err(MissingPath(idx));
      }
      idx := idx + 1;
    }
    r := Ok(dirs);
  }

  /** The mode of a validated entry. */
  function ModeOf(c: DirConfig): (m: Mode)
    requires ValidEntry(c)
    ensures c.mode == Some(ModeText(m))
  {
    if c.mode.value == "r" then R else if c.mode.value == "w" then W else RW
  }

  /** The modes of a validated configuration, in order. */
  function Modes(dirs: seq<DirConfig>): (r: seq<Mode>)
    requires forall i :: 0 <= i < |dirs| ==> ValidEntry(dirs[i])
    ensures |r| == |dirs|
    ensures forall i :: 0 <= i < |dirs| ==> dirs[i].mode == Some(ModeText(r[i]))
  {
    seq(|dirs|, i requires 0 <= i < |dirs| => ModeOf(dirs[i]))
  }

  predicate SomeReadable(modes: seq<Mode>) { exists i :: 0 <= i < |modes| && Readable(modes[i]) }

  predicate SomeWritable(modes: seq<Mode>) { exists i :: 0 <= i < |modes| && Writable(modes[i]) }

  /** The start-up check of main over the modes of the directories found on this system. */
  function CheckAccess(modes: seq<Mode>): Result<seq<Mode>, StartupError> {
    if modes == [] then Err(NoExistingDirectories)
    else if !SomeReadable(modes) then Err(NoReadableDirectory)
    else if !SomeWritable(modes) then Err(NoWritableDirectory)
    else Ok(modes)
  }

  /**
   * The check passes exactly when a readable and a writable directory exist
   * (the same one when its mode is rw); a list with no entry is reported as
   * such, and readability is checked before writability.
   */
  lemma CheckAccessIff(modes: seq<Mode>)
    ensures CheckAccess(modes).Ok? <==>
      exists i, j :: 0 <= i < |modes| && 0 <= j < |modes| && Readable(modes[i]) && Writable(modes[j])
    ensures CheckAccess(modes).Ok? ==> CheckAccess(modes).value == modes
    ensures CheckAccess(modes) == Err(NoWritableDirectory) ==> forall i :: 0 <= i < |modes| ==> modes[i] == R
    ensures CheckAccess(modes) == Err(NoReadableDirectory) ==> forall i :: 0 <= i < |modes| ==> modes[i] == W
    ensures (exists i :: 0 <= i < |modes| && modes[i] == RW) ==> CheckAccess(modes).Ok?
  {
  }
}
