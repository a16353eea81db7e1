/**
 * Dump file names: how an export names its file (includes/class-export.php:39-42), how a backup
 * is named from the file being imported (includes/class-import.php:438), and how `parse_filename`
 * reads the metadata back (includes/class-import.php:216-257).
 *
 * The two regular expressions of `parse_filename` are written out as matchers:
 *   timestamped  `^(\d{6})-(\d{6})-([^-]+)-([^-]+)(-BAK)?\.sql$`
 *   legacy       `^(\d{6})-([^-]+)-([^-]+)(-BAK)?\.sql$`
 * Without the `D` modifier, PCRE's `$` also matches just before a final newline, so a name that
 * ends in ".sql" followed by one "\n" matches too; the matchers keep that.
 */
module FilenameCodec {
  import opened Wrappers
  import opened Text

  /** The record `parse_filename` returns. */
  datatype FileInfo = FileInfo(
    date: string, time: string, timestamp: string, preset: string, environment: string, isBackup: bool)

  /** The record for a name that matches neither pattern. */
  const Unknown := FileInfo("Unknown", "Unknown", "Unknown", "Unknown", "Unknown", false)

  /** `\d{6}`. */
  predicate IsSixDigits(s: string) {
    |s| == 6 && forall i :: 0 <= i < 6 ==> IsDigit(s[i])
  }

  /** `[^-]+`: a non-empty run without `-`. */
  predicate IsSegment(s: string) {
    s != [] && '-' !in s
  }

  /** The optional `-BAK` group. */
  function BakSuffix(backup: bool): string {
    if backup then "-BAK" else ""
  }

  /** The name ends in a newline (the one `$` lets through). */
  predicate HasFinalNewline(name: string) {
    name != [] && name[|name| - 1] == '\n'
  }

  /** What `$` may leave after `.sql`: nothing, or one final newline. */
  function LineEnd(newline: bool): string {
    if newline then "\n" else ""
  }

  /** The names the timestamped pattern describes. */
  function TimestampedName(date: string, time: string, preset: string, env: string, backup: bool, newline: bool): string {
    date + "-" + time + "-" + preset + "-" + env + BakSuffix(backup) + ".sql" + LineEnd(newline)
  }

  /** The names the legacy pattern describes. */
  function LegacyName(date: string, preset: string, env: string, backup: bool, newline: bool): string {
    date + "-" + preset + "-" + env + BakSuffix(backup) + ".sql" + LineEnd(newline)
  }

  /** `([^-]+)-` at the start of `s`: the segment and the text after its `-`. */
  function MatchSegment(s: string): (r: Option<(string, string)>)
    ensures r.Some? ==> IsSegment(r.value.0) && s == r.value.0 + "-" + r.value.1
  {
    match IndexOf(s, '-')
    case None => None
    case Some(i) =>
      if i == 0 then None
      else
        assert s == s[..i] + "-" + s[i + 1..];
        Some((s[..i], s[i + 1..]))
  }

  /** The text before a closing `.sql`, and whether a final newline follows it. */
  function StripSqlEnding(s: string): (r: Option<(string, bool)>)
    ensures r.Some? ==> s == r.value.0 + ".sql" + LineEnd(r.value.1)
  {
    if EndsWith(s, ".sql") then
      assert s == s[..|s| - 4] + ".sql";
      Some((s[..|s| - 4], false))
    else if EndsWith(s, ".sql\n") then
      assert s == s[..|s| - 5] + ".sql" + "\n";
      Some((s[..|s| - 5], true))
    else None
  }

  /** `([^-]+)(-BAK)?\.sql$`: the environment segment and whether the name is a backup. */
  function MatchTail(s: string): (r: Option<(string, bool)>)
    ensures r.Some? ==> (IsSegment(r.value.0) && StripSqlEnding(s).Some?
      && s == r.value.0 + BakSuffix(r.value.1) + ".sql" + LineEnd(StripSqlEnding(s).value.1))
  {
    match StripSqlEnding(s)
    case None => None
    case Some((x, newline)) =>
      if IsSegment(x) then
        assert s == x + BakSuffix(false) + ".sql" + LineEnd(newline);
        Some((x, false))
      else if EndsWith(x, "-BAK") && IsSegment(x[..|x| - 4]) then
        assert x == x[..|x| - 4] + "-BAK";
        assert s == x[..|x| - 4] + BakSuffix(true) + ".sql" + LineEnd(newline);
        Some((x[..|x| - 4], true))
      else None
  }

  /** The captured groups of a match. */
  datatype Groups = Groups(date: string, time: string, preset: string, env: string, backup: bool)

  /** The timestamped pattern. */
  function MatchTimestamped(name: string): (r: Option<Groups>)
    ensures r.Some? ==> (IsSixDigits(r.value.date) && IsSixDigits(r.value.time)
      && IsSegment(r.value.preset) && IsSegment(r.value.env))
    ensures r.Some? ==> |name| >= 6 && name[..6] == r.value.date
    ensures r.Some? && r.value.backup ==> EndsWith(name, "-BAK.sql") || EndsWith(name, "-BAK.sql\n")
  {
    if |name| >= 14 && IsSixDigits(name[..6]) && name[6] == '-' && IsSixDigits(name[7..13]) && name[13] == '-' then
      match MatchSegment(name[14..])
      case None => None
      case Some((preset, rest)) =>
        match MatchTail(rest)
        case None => None
        case Some((env, backup)) =>
          BackupVisible(name, 14, backup);
          Some(Groups(name[..6], name[7..13], preset, env, backup))
    else None
  }

  /** The legacy pattern. */
  function MatchLegacy(name: string): (r: Option<Groups>)
    ensures r.Some? ==> (IsSixDigits(r.value.date) && r.value.time == "000000"
      && IsSegment(r.value.preset) && IsSegment(r.value.env))
    ensures r.Some? ==> |name| >= 6 && name[..6] == r.value.date
    ensures r.Some? && r.value.backup ==> EndsWith(name, "-BAK.sql") || EndsWith(name, "-BAK.sql\n")
  {
    if |name| >= 7 && IsSixDigits(name[..6]) && name[6] == '-' then
      match MatchSegment(name[7..])
      case None => None
      case Some((preset, rest)) =>
        match MatchTail(rest)
        case None => None
        case Some((env, backup)) =>
          BackupVisible(name, 7, backup);
          Some(Groups(name[..6], "000000", preset, env, backup))
    else None
  }

  /** The preset label: `ucfirst(str_replace('-', ' ', …))` on the captured segment. */
  function PresetLabel(segment: string): string {
    UcFirst(ReplaceChar(segment, '-', ' '))
  }

  /** `parse_filename`: the timestamped pattern first, then the legacy one, else `Unknown`. */
  function ParseFilename(name: string): (r: FileInfo)
    ensures r.isBackup ==> EndsWith(name, "-BAK.sql") || EndsWith(name, "-BAK.sql\n")
    ensures r != Unknown ==> (r.timestamp == r.date + "-" + r.time && IsSixDigits(r.date)
      && |name| >= 6 && name[..6] == r.date)
  {
    match MatchTimestamped(name)
    case Some(g) =>
      FileInfo(g.date, g.time, g.date + "-" + g.time, PresetLabel(g.preset), UcFirst(g.env), g.backup)
    case None =>
      match MatchLegacy(name)
      case Some(g) =>
        FileInfo(g.date, "000000", g.date + "-" + "000000", PresetLabel(g.preset), UcFirst(g.env), g.backup)
      case None => Unknown
  }

  /** A backup flag found by the tail matcher is visible at the end of the text. */
  lemma TailBackupSuffix(s: string)
    requires MatchTail(s).Some? && MatchTail(s).value.1
    ensures EndsWith(s, "-BAK.sql") || EndsWith(s, "-BAK.sql\n")
  {
    var env := MatchTail(s).value.0;
    var newline := StripSqlEnding(s).value.1;
    var ending := BakSuffix(true) + ".sql" + LineEnd(newline);
    AppendAssoc(env + BakSuffix(true), ".sql", LineEnd(newline));
    AppendAssoc(env, BakSuffix(true), ".sql" + LineEnd(newline));
    AppendAssoc(BakSuffix(true), ".sql", LineEnd(newline));
    BakEnding(newline);
    EndsWithPrefixed(env, ending, ending);
  }

  /** The backup flag of the tail after position `k`, when set, is visible at the end of the name. */
  lemma BackupVisible(name: string, k: nat, backup: bool)
    requires k <= |name| && MatchSegment(name[k..]).Some?
    requires var rest := MatchSegment(name[k..]).value.1; MatchTail(rest).Some? && MatchTail(rest).value.1 == backup
    ensures backup ==> EndsWith(name, "-BAK.sql") || EndsWith(name, "-BAK.sql\n")
  {
    if backup {
      SuffixOfMatch(name, k);
    }
  }

  /** The ending of a backup name, with and without the final newline. */
  lemma BakEnding(newline: bool)
    ensures BakSuffix(true) + ".sql" + LineEnd(newline) == (if newline then "-BAK.sql\n" else "-BAK.sql")
  {
  }

  /** A suffix of a suffix is a suffix. */
  lemma EndsWithPrefixed(p: string, s: string, x: string)
    requires EndsWith(s, x)
    ensures EndsWith(p + s, x)
  {
    assert (p + s)[|p + s| - |x|..] == s[|s| - |x|..];
  }

  /** A backup flag found by a matcher is visible at the end of the name. */
  lemma SuffixOfMatch(name: string, k: nat)
    requires k <= |name| && MatchSegment(name[k..]).Some?
    requires var rest := MatchSegment(name[k..]).value.1; MatchTail(rest).Some? && MatchTail(rest).value.1
    ensures EndsWith(name, "-BAK.sql") || EndsWith(name, "-BAK.sql\n")
  {
    var (p, rest) := MatchSegment(name[k..]).value;
    TailBackupSuffix(rest);
    assert name[k..] == (p + "-") + rest;
    assert name == name[..k] + name[k..];
    if EndsWith(rest, "-BAK.sql") {
      EndsWithPrefixed(p + "-", rest, "-BAK.sql");
      EndsWithPrefixed(name[..k], name[k..], "-BAK.sql");
    } else {
      EndsWithPrefixed(p + "-", rest, "-BAK.sql\n");
      EndsWithPrefixed(name[..k], name[k..], "-BAK.sql\n");
    }
  }

  /** The timestamped shape, grouped as the matcher reads it. */
  lemma TimestampedNameGrouped(date: string, time: string, preset: string, env: string, backup: bool, newline: bool)
    ensures TimestampedName(date, time, preset, env, backup, newline)
         == (date + "-" + time + "-") + (preset + "-" + (env + BakSuffix(backup) + ".sql" + LineEnd(newline)))
  {
  }

  /** The legacy shape, grouped as the matcher reads it. */
  lemma LegacyNameGrouped(date: string, preset: string, env: string, backup: bool, newline: bool)
    ensures LegacyName(date, preset, env, backup, newline)
         == (date + "-") + (preset + "-" + (env + BakSuffix(backup) + ".sql" + LineEnd(newline)))
  {
  }

  // ---------------------------------------------------------------------------------------------
  // The matchers accept exactly the names their patterns describe

  lemma MatchSegmentOf(a: string, rest: string)
    requires IsSegment(a)
    ensures MatchSegment(a + "-" + rest) == Some((a, rest))
  {
    var s := a + "-" + rest;
    FirstDashAfterSegment(a, rest);
    assert s[..|a|] == a && s[|a| + 1..] == rest;
  }

  lemma StripSqlEndingOf(x: string, newline: bool)
    ensures StripSqlEnding(x + ".sql" + LineEnd(newline)) == Some((x, newline))
  {
    var s := x + ".sql" + LineEnd(newline);
    if newline {
      assert s[|s| - 1] == '\n';
      assert !EndsWith(s, ".sql");
      assert s[|s| - 5..] == ".sql\n";
      assert s[..|s| - 5] == x;
    } else {
      assert s[|s| - 4..] == ".sql";
      assert s[..|s| - 4] == x;
    }
  }

  lemma MatchTailOf(env: string, backup: bool, newline: bool)
    requires IsSegment(env)
    ensures MatchTail(env + BakSuffix(backup) + ".sql" + LineEnd(newline)) == Some((env, backup))
  {
    var x := env + BakSuffix(backup);
    assert env + BakSuffix(backup) + ".sql" + LineEnd(newline) == x + ".sql" + LineEnd(newline);
    StripSqlEndingOf(x, newline);
    if backup {
      assert x[|env|] == '-';
      assert !IsSegment(x);
      assert x[|x| - 4..] == "-BAK";
      assert x[..|x| - 4] == env;
    } else {
      assert x == env;
    }
  }

  /** Every name of the timestamped shape is matched, with exactly its parts as the groups. */
  lemma TimestampedComplete(date: string, time: string, preset: string, env: string, backup: bool, newline: bool)
    requires IsSixDigits(date) && IsSixDigits(time) && IsSegment(preset) && IsSegment(env)
    ensures MatchTimestamped(TimestampedName(date, time, preset, env, backup, newline))
         == Some(Groups(date, time, preset, env, backup))
  {
    var tail := env + BakSuffix(backup) + ".sql" + LineEnd(newline);
    var name := TimestampedName(date, time, preset, env, backup, newline);
    assert name == date + "-" + time + "-" + (preset + "-" + tail);
    assert name[..6] == date && name[6] == '-' && name[7..13] == time && name[13] == '-';
    assert name[14..] == preset + "-" + tail;
    MatchSegmentOf(preset, tail);
    MatchTailOf(env, backup, newline);
  }

  /** Every match is a name of the timestamped shape built from its groups. */
  lemma TimestampedSound(name: string)
    requires MatchTimestamped(name).Some?
    ensures var g := MatchTimestamped(name).value;
      name == TimestampedName(g.date, g.time, g.preset, g.env, g.backup, HasFinalNewline(name))
  {
    var g := MatchTimestamped(name).value;
    var rest := MatchSegment(name[14..]).value.1;
    var newline := StripSqlEnding(rest).value.1;
    var tail := g.env + BakSuffix(g.backup) + ".sql" + LineEnd(newline);
    assert name[14..] == g.preset + "-" + tail;
    SplitAt14(name);
    TimestampedNameGrouped(g.date, g.time, g.preset, g.env, g.backup, newline);
    FinalNewlineOf(g.date + "-" + g.time + "-" + g.preset + "-" + g.env + BakSuffix(g.backup), newline);
  }

  /** The first seven bytes of a name, as the legacy pattern reads them. */
  lemma SplitAt7(name: string)
    requires |name| >= 7 && name[6] == '-'
    ensures name == (name[..6] + "-") + name[7..]
  {
    assert name[..7] == name[..6] + "-";
    assert name == name[..7] + name[7..];
  }

  /** The first fourteen bytes of a name, as the timestamped pattern reads them. */
  lemma SplitAt14(name: string)
    requires |name| >= 14 && name[6] == '-' && name[13] == '-'
    ensures name == (name[..6] + "-" + name[7..13] + "-") + name[14..]
  {
    assert name[..14] == name[..6] + "-" + name[7..13] + "-";
    assert name == name[..14] + name[14..];
  }

  /** The newline flag of a name is its final byte. */
  lemma FinalNewlineOf(x: string, newline: bool)
    ensures HasFinalNewline(x + ".sql" + LineEnd(newline)) == newline
  {
    var s := x + ".sql" + LineEnd(newline);
    assert s[|s| - 1] == (if newline then '\n' else 'l');
  }

  /** Every name of the legacy shape is matched by the legacy pattern, with exactly its parts. */
  lemma LegacyComplete(date: string, preset: string, env: string, backup: bool, newline: bool)
    requires IsSixDigits(date) && IsSegment(preset) && IsSegment(env)
    ensures MatchLegacy(LegacyName(date, preset, env, backup, newline))
         == Some(Groups(date, "000000", preset, env, backup))
  {
    var tail := env + BakSuffix(backup) + ".sql" + LineEnd(newline);
    var name := LegacyName(date, preset, env, backup, newline);
    assert name == date + "-" + (preset + "-" + tail);
    assert name[..6] == date && name[6] == '-';
    assert name[7..] == preset + "-" + tail;
    MatchSegmentOf(preset, tail);
    MatchTailOf(env, backup, newline);
  }

  /** Every legacy match is a name of the legacy shape built from its groups. */
  lemma LegacySound(name: string)
    requires MatchLegacy(name).Some?
    ensures var g := MatchLegacy(name).value;
      name == LegacyName(g.date, g.preset, g.env, g.backup, HasFinalNewline(name))
  {
    var g := MatchLegacy(name).value;
    var rest := MatchSegment(name[7..]).value.1;
    var newline := StripSqlEnding(rest).value.1;
    var tail := g.env + BakSuffix(g.backup) + ".sql" + LineEnd(newline);
    assert name[7..] == g.preset + "-" + tail;
    SplitAt7(name);
    LegacyNameGrouped(g.date, g.preset, g.env, g.backup, newline);
    FinalNewlineOf(g.date + "-" + g.preset + "-" + g.env + BakSuffix(g.backup), newline);
  }

  // ---------------------------------------------------------------------------------------------
  // What `parse_filename` returns

  /** A segment has no `-`, so `str_replace('-', ' ', …)` leaves the captured preset as it is. */
  lemma SegmentHasNoDash(a: string)
    requires IsSegment(a)
    ensures ReplaceChar(a, '-', ' ') == a
  {
  }

  /** A timestamped name gives its date, time, `date-time`, capitalised preset and environment, and its backup flag. */
  lemma ParseTimestamped(date: string, time: string, preset: string, env: string, backup: bool, newline: bool)
    requires IsSixDigits(date) && IsSixDigits(time) && IsSegment(preset) && IsSegment(env)
    ensures ParseFilename(TimestampedName(date, time, preset, env, backup, newline))
         == FileInfo(date, time, date + "-" + time, UcFirst(preset), UcFirst(env), backup)
  {
    TimestampedComplete(date, time, preset, env, backup, newline);
    SegmentHasNoDash(preset);
  }

  /**
   * A legacy name gives time `000000` and timestamp `date-000000`, unless its preset is itself six
   * digits and it carries `-BAK`: such a name also has the timestamped shape, which is tried first.
   */
  lemma ParseLegacy(date: string, preset: string, env: string, backup: bool, newline: bool)
    requires IsSixDigits(date) && IsSegment(preset) && IsSegment(env)
    requires !(IsSixDigits(preset) && backup)
    ensures ParseFilename(LegacyName(date, preset, env, backup, newline))
         == FileInfo(date, "000000", date + "-" + "000000", UcFirst(preset), UcFirst(env), backup)
  {
    var name := LegacyName(date, preset, env, backup, newline);
    LegacyNotTimestamped(date, preset, env, backup, newline);
    LegacyComplete(date, preset, env, backup, newline);
    SegmentHasNoDash(preset);
  }

  /** The condition under which a legacy-shaped name escapes the timestamped pattern. */
  lemma LegacyNotTimestamped(date: string, preset: string, env: string, backup: bool, newline: bool)
    requires IsSixDigits(date) && IsSegment(preset) && IsSegment(env)
    requires !(IsSixDigits(preset) && backup)
    ensures MatchTimestamped(LegacyName(date, preset, env, backup, newline)).None?
  {
    var name := LegacyName(date, preset, env, backup, newline);
    var tail := env + BakSuffix(backup) + ".sql" + LineEnd(newline);
    LegacyNameGrouped(date, preset, env, backup, newline);
    assert name[7..] == preset + "-" + tail;
    if |name| >= 14 && IsSixDigits(name[..6]) && name[6] == '-' && IsSixDigits(name[7..13]) && name[13] == '-' {
      NoSecondSegment(name, preset, env, backup, newline);
    }
  }

  /**
   * A legacy-shaped name whose preset sits where the timestamped pattern reads its time has no
   * segment left after it, unless it carries `-BAK`.
   */
  lemma NoSecondSegment(name: string, preset: string, env: string, backup: bool, newline: bool)
    requires IsSegment(preset) && IsSegment(env) && !(IsSixDigits(preset) && backup)
    requires |name| >= 14 && IsSixDigits(name[7..13]) && name[13] == '-'
    requires name[7..] == preset + "-" + (env + BakSuffix(backup) + ".sql" + LineEnd(newline))
    ensures MatchSegment(name[14..]).None?
  {
    var tail := env + BakSuffix(backup) + ".sql" + LineEnd(newline);
    var s := name[7..];
    assert s[..6] == name[7..13] && s[6] == '-' && s[7..] == name[14..];
    DigitsThenSegment(s, preset, tail);
    assert !backup;
    NoDashInTail(env, newline);
    assert BakSuffix(backup) == "";
    assert tail == env + ".sql" + LineEnd(newline);
    assert IndexOf(name[14..], '-').None?;
  }

  /** A segment followed by `.sql` and an optional newline holds no `-`. */
  lemma NoDashInTail(env: string, newline: bool)
    requires IsSegment(env)
    ensures '-' !in env + ".sql" + LineEnd(newline)
  {
    var t := env + ".sql" + LineEnd(newline);
    forall i | 0 <= i < |t| ensures t[i] != '-' {
      if i < |env| {
        assert t[i] == env[i];
      }
    }
  }

  /** A segment read where six digits and a `-` stand is those six digits, and the rest follows. */
  lemma DigitsThenSegment(s: string, preset: string, tail: string)
    requires s == preset + "-" + tail && IsSegment(preset)
    requires |s| >= 7 && IsSixDigits(s[..6]) && s[6] == '-'
    ensures preset == s[..6] && s[7..] == tail
  {
    FirstDashAfterDigits(s);
    FirstDashAfterSegment(preset, tail);
    assert |preset| == 6;
  }

  /** Six digits and a `-`: the first `-` is the seventh byte. */
  lemma FirstDashAfterDigits(s: string)
    requires |s| >= 7 && IsSixDigits(s[..6]) && s[6] == '-'
    ensures IndexOf(s, '-') == Some(6)
  {
    assert s[..6][0] == s[0] && s[..6][1] == s[1] && s[..6][2] == s[2];
    assert s[..6][3] == s[3] && s[..6][4] == s[4] && s[..6][5] == s[5];
  }

  /** A segment and a `-`: the first `-` follows the segment. */
  lemma FirstDashAfterSegment(a: string, rest: string)
    requires IsSegment(a)
    ensures IndexOf(a + "-" + rest, '-') == Some(|a|)
  {
    var s := a + "-" + rest;
    assert s[|a|] == '-';
    assert s[..|a|] == a;
  }

  /**
   * The one way a name ending in `-BAK.sql` is read as not a backup: a timestamped name whose
   * environment segment is `BAK` itself, such as the backup of a legacy name with a six-digit preset.
   */
  lemma SixDigitLegacyBackupMisread(date: string, preset: string, env: string, newline: bool)
    requires IsSixDigits(date) && IsSixDigits(preset) && IsSegment(env)
    ensures ParseFilename(LegacyName(date, preset, env, true, newline))
         == FileInfo(date, preset, date + "-" + preset, UcFirst(env), "BAK", false)
  {
    assert LegacyName(date, preset, env, true, newline) == TimestampedName(date, preset, env, "BAK", false, newline);
    ParseTimestamped(date, preset, env, "BAK", false, newline);
  }

  /** Only a name ending in `.sql` (or `.sql` and one newline) is recognised. */
  lemma NoSqlEndingIsUnknown(name: string)
    requires !EndsWith(name, ".sql") && !EndsWith(name, ".sql\n")
    ensures ParseFilename(name) == Unknown
  {
    if MatchTimestamped(name).Some? {
      TimestampedSound(name);
      var g := MatchTimestamped(name).value;
      EndsWithSqlEnding(g.date + "-" + g.time + "-" + g.preset + "-" + g.env + BakSuffix(g.backup), HasFinalNewline(name));
    } else if MatchLegacy(name).Some? {
      LegacySound(name);
      var g := MatchLegacy(name).value;
      EndsWithSqlEnding(g.date + "-" + g.preset + "-" + g.env + BakSuffix(g.backup), HasFinalNewline(name));
    }
  }

  lemma EndsWithSqlEnding(x: string, newline: bool)
    ensures var s := x + ".sql" + LineEnd(newline); EndsWith(s, ".sql") || EndsWith(s, ".sql\n")
  {
    var s := x + ".sql" + LineEnd(newline);
    if newline {
      assert s[|s| - 5..] == ".sql\n";
    } else {
      assert s[|s| - 4..] == ".sql";
    }
  }

  // ---------------------------------------------------------------------------------------------
  // The names the plugin writes

  /**
   * The export file name: `timestamp-` + the display name lower-cased with spaces turned into
   * dashes + `-` + the lower-cased environment + `.sql`.
   */
  function ExportFilename(timestamp: string, displayName: string, environment: string): (r: string)
    ensures EndsWith(r, ".sql")
  {
    var name := timestamp + "-" + ToLower(ReplaceChar(displayName, ' ', '-')) + "-" + ToLower(environment) + ".sql";
    assert name[|name| - 4..] == ".sql";
    name
  }

  /** The backup file name: every `.sql` in the imported file's name becomes `-BAK.sql`. */
  function BackupName(filename: string): (r: string)
    ensures !Contains(filename, ".sql") ==> r == filename
  {
    assert !Contains(filename, ".sql") ==> ReplaceAll(filename, ".sql", "-BAK.sql") == filename by {
      if !Contains(filename, ".sql") { ReplaceAllAbsent(filename, ".sql", "-BAK.sql"); }
    }
    ReplaceAll(filename, ".sql", "-BAK.sql")
  }

  /** A name with no other dot: only its closing `.sql` is replaced. */
  lemma {:induction false} ReplaceSqlEnding(p: string, to: string)
    requires '.' !in p
    ensures ReplaceAll(p + ".sql", ".sql", to) == p + to
    decreases |p|
  {
    if p == [] {
      assert p + ".sql" == ".sql";
      assert ReplaceAll(".sql"[4..], ".sql", to) == [];
    } else {
      var s := p + ".sql";
      assert s[0] == p[0] && s[0] != '.';
      assert !StartsWith(s, ".sql");
      assert s[1..] == p[1..] + ".sql";
      assert s != [];
      assert ReplaceAll(s, ".sql", to) == [s[0]] + ReplaceAll(s[1..], ".sql", to);
      ReplaceSqlEnding(p[1..], to);
      assert p == [p[0]] + p[1..];
      AppendAssoc([p[0]], p[1..], to);
    }
  }

  /** Lower-casing keeps a segment a segment (it never makes a `-`, and a segment has none). */
  lemma LowerSegment(s: string)
    requires IsSegment(s)
    ensures IsSegment(ToLower(s))
  {
    var l := ToLower(s);
    forall i | 0 <= i < |l| ensures l[i] != '-' {
      assert s[i] != '-';
    }
  }

  /** A display name without spaces or dashes becomes one segment of the file name. */
  lemma LabelSegment(displayName: string)
    requires displayName != [] && ' ' !in displayName && '-' !in displayName
    ensures ReplaceChar(displayName, ' ', '-') == displayName
    ensures IsSegment(ToLower(displayName))
  {
    LowerSegment(displayName);
  }

  /** An export name is the timestamped shape, as long as the display name is a single word. */
  lemma ExportIsTimestamped(date: string, time: string, displayName: string, environment: string)
    requires displayName != [] && ' ' !in displayName && '-' !in displayName
    ensures ExportFilename(date + "-" + time, displayName, environment)
         == TimestampedName(date, time, ToLower(displayName), ToLower(environment), false, false)
  {
    LabelSegment(displayName);
  }

  /**
   * Export, then parse: for a one-word display name and an environment without `-`, the file
   * name gives back the date, the time, `date-time`, both labels (lower-cased, then first letter
   * capitalised) and no backup flag.
   */
  lemma ExportRoundTrip(date: string, time: string, displayName: string, environment: string)
    requires IsSixDigits(date) && IsSixDigits(time)
    requires displayName != [] && ' ' !in displayName && '-' !in displayName
    requires IsSegment(environment)
    ensures ParseFilename(ExportFilename(date + "-" + time, displayName, environment))
         == FileInfo(date, time, date + "-" + time, UcFirst(ToLower(displayName)), UcFirst(ToLower(environment)), false)
  {
    ExportIsTimestamped(date, time, displayName, environment);
    LabelSegment(displayName);
    LowerSegment(environment);
    ParseTimestamped(date, time, ToLower(displayName), ToLower(environment), false, false);
  }

  /** A word with a capital first letter and no other capitals. */
  predicate IsCapitalisedWord(s: string) {
    s != [] && 'A' <= s[0] <= 'Z' && forall i :: 1 <= i < |s| ==> !('A' <= s[i] <= 'Z')
  }

  /**
   * Capitalised one-word labels (such as `Development`, `Custom`, `Local`, `Remote`) are read back
   * exactly as they were written.
   */
  lemma ExportRoundTripLabels(date: string, time: string, displayName: string, environment: string)
    requires IsSixDigits(date) && IsSixDigits(time)
    requires IsCapitalisedWord(displayName) && ' ' !in displayName && '-' !in displayName
    requires IsCapitalisedWord(environment) && '-' !in environment
    ensures var info := ParseFilename(ExportFilename(date + "-" + time, displayName, environment));
      info.preset == displayName && info.environment == environment && info.timestamp == date + "-" + time
  {
    ExportRoundTrip(date, time, displayName, environment);
    Recapitalise(displayName);
    Recapitalise(environment);
  }

  /** A capitalised word survives `strtolower` followed by `ucfirst`. */
  lemma Recapitalise(s: string)
    requires IsCapitalisedWord(s)
    ensures UcFirst(ToLower(s)) == s
  {
    var l := ToLower(s);
    assert l[1..] == s[1..];
  }

  /** `strtolower(str_replace(' ', '-', …))` on two words: the two words joined by a dash. */
  lemma LowerDashed(first: string, second: string)
    requires ' ' !in first && ' ' !in second
    ensures ToLower(ReplaceChar(first + " " + second, ' ', '-')) == ToLower(first) + "-" + ToLower(second)
  {
    var w := first + " " + second;
    var l := ToLower(ReplaceChar(w, ' ', '-'));
    var r := ToLower(first) + "-" + ToLower(second);
    forall i | 0 <= i < |l| ensures l[i] == r[i] {
      if i < |first| {
        assert w[i] == first[i];
      } else if i > |first| {
        assert w[i] == second[i - |first| - 1];
      }
    }
  }

  /** A lower-cased byte is never `K`. */
  lemma LowerNotK(s: string)
    requires s != []
    ensures ToLower(s)[|s| - 1] != 'K'
  {
  }

  /** The tail matcher refuses text with a `-` before the environment that does not end in `-BAK`. */
  lemma TailRefusesTwoSegments(a: string, e: string)
    requires IsSegment(a) && e != [] && e[|e| - 1] != 'K'
    ensures MatchTail(a + "-" + e + ".sql").None?
  {
    var x := a + "-" + e;
    StripSqlEndingOf(x, false);
    assert x[|a|] == '-';
    assert x[|x| - 1] == e[|e| - 1];
  }

  /** Six digits are a segment. */
  lemma DigitsAreSegment(s: string)
    requires IsSixDigits(s)
    ensures IsSegment(s)
  {
    assert forall i :: 0 <= i < |s| ==> IsDigit(s[i]);
  }

  /**
   * A two-word display name becomes two dash-separated segments, so an export under it matches
   * neither pattern and reads back as `Unknown`.
   */
  lemma TwoWordExportUnknown(date: string, time: string, first: string, second: string, environment: string)
    requires IsSixDigits(date) && IsSixDigits(time)
    requires IsSegment(first) && IsSegment(second) && ' ' !in first && ' ' !in second
    requires environment != []
    ensures ParseFilename(ExportFilename(date + "-" + time, first + " " + second, environment)) == Unknown
  {
    TwoWordNotTimestamped(date, time, first, second, environment);
    TwoWordNotLegacy(date, time, first, second, environment);
  }

  /** The name of a two-word export, grouped after its date and time. */
  lemma TwoWordName(date: string, time: string, first: string, second: string, environment: string)
    requires IsSegment(first) && IsSegment(second) && ' ' !in first && ' ' !in second
    ensures ExportFilename(date + "-" + time, first + " " + second, environment)
         == date + "-" + time + "-" + (ToLower(first) + "-" + (ToLower(second) + "-" + ToLower(environment) + ".sql"))
  {
    LowerDashed(first, second);
  }

  /** A two-word export name escapes the timestamped pattern: its tail has one segment too many. */
  lemma TwoWordNotTimestamped(date: string, time: string, first: string, second: string, environment: string)
    requires IsSixDigits(date) && IsSixDigits(time)
    requires IsSegment(first) && IsSegment(second) && ' ' !in first && ' ' !in second
    requires environment != []
    ensures MatchTimestamped(ExportFilename(date + "-" + time, first + " " + second, environment)).None?
  {
    var name := ExportFilename(date + "-" + time, first + " " + second, environment);
    TwoWordName(date, time, first, second, environment);
    LowerSegment(first);
    LowerSegment(second);
    LowerNotK(environment);
    TailRefusesTwoSegments(ToLower(second), ToLower(environment));
    TimestampedRefused(name, date, time, ToLower(first), ToLower(second) + "-" + ToLower(environment) + ".sql");
  }

  /** A two-word export name escapes the legacy pattern too: read from the time on, it has two segments too many. */
  lemma TwoWordNotLegacy(date: string, time: string, first: string, second: string, environment: string)
    requires IsSixDigits(date) && IsSixDigits(time)
    requires IsSegment(first) && IsSegment(second) && ' ' !in first && ' ' !in second
    requires environment != []
    ensures MatchLegacy(ExportFilename(date + "-" + time, first + " " + second, environment)).None?
  {
    var name := ExportFilename(date + "-" + time, first + " " + second, environment);
    var f := ToLower(first);
    var e := ToLower(second) + "-" + ToLower(environment);
    TwoWordName(date, time, first, second, environment);
    assert name == date + "-" + (time + "-" + (f + "-" + e + ".sql"));
    LowerSegment(first);
    LowerNotK(environment);
    assert e[|e| - 1] == ToLower(environment)[|environment| - 1];
    TailRefusesTwoSegments(f, e);
    DigitsAreSegment(time);
    LegacyRefused(name, date, time, f + "-" + e + ".sql");
  }

  /** The timestamped pattern fails when the tail after the preset segment is refused. */
  lemma TimestampedRefused(name: string, date: string, time: string, preset: string, tail: string)
    requires IsSixDigits(date) && IsSixDigits(time) && IsSegment(preset) && MatchTail(tail).None?
    requires name == date + "-" + time + "-" + (preset + "-" + tail)
    ensures MatchTimestamped(name).None?
  {
    assert name[..6] == date && name[6] == '-' && name[7..13] == time && name[13] == '-';
    assert name[14..] == preset + "-" + tail;
    MatchSegmentOf(preset, tail);
  }

  /** The legacy pattern fails when the tail after the preset segment is refused. */
  lemma LegacyRefused(name: string, date: string, preset: string, tail: string)
    requires IsSixDigits(date) && IsSegment(preset) && MatchTail(tail).None?
    requires name == date + "-" + (preset + "-" + tail)
    ensures MatchLegacy(name).None?
  {
    assert name[..6] == date && name[6] == '-';
    assert name[7..] == preset + "-" + tail;
    MatchSegmentOf(preset, tail);
  }

  /** `Content Only` turns into `content-only`, and its exports read back as `Unknown`. */
  lemma ContentOnlyUnknown(date: string, time: string, environment: string)
    requires IsSixDigits(date) && IsSixDigits(time) && environment != []
    ensures ParseFilename(ExportFilename(date + "-" + time, "Content Only", environment)) == Unknown
  {
    assert "Content Only" == "Content" + " " + "Only";
    TwoWordExportUnknown(date, time, "Content", "Only", environment);
  }

  /** A backup of an export parses to the same record with the backup flag set. */
  lemma BackupOfExport(date: string, time: string, displayName: string, environment: string)
    requires IsSixDigits(date) && IsSixDigits(time)
    requires displayName != [] && ' ' !in displayName && '-' !in displayName && '.' !in displayName
    requires IsSegment(environment) && '.' !in environment
    ensures ParseFilename(BackupName(ExportFilename(date + "-" + time, displayName, environment)))
         == FileInfo(date, time, date + "-" + time, UcFirst(ToLower(displayName)), UcFirst(ToLower(environment)), true)
  {
    var preset := ToLower(displayName);
    var env := ToLower(environment);
    ExportIsTimestamped(date, time, displayName, environment);
    var p := date + "-" + time + "-" + preset + "-" + env;
    assert TimestampedName(date, time, preset, env, false, false) == p + ".sql";
    NoDotInStem(date, time, displayName, environment);
    ReplaceSqlEnding(p, "-BAK.sql");
    assert p + "-BAK.sql" == TimestampedName(date, time, preset, env, true, false);
    LabelSegment(displayName);
    LowerSegment(environment);
    ParseTimestamped(date, time, preset, env, true, false);
  }

  /** The part of an export name before `.sql` holds no dot. */
  lemma NoDotInStem(date: string, time: string, displayName: string, environment: string)
    requires IsSixDigits(date) && IsSixDigits(time) && '.' !in displayName && '.' !in environment
    ensures '.' !in date + "-" + time + "-" + ToLower(displayName) + "-" + ToLower(environment)
  {
    var preset := ToLower(displayName);
    var env := ToLower(environment);
    forall i | 0 <= i < |preset| ensures preset[i] != '.' { assert displayName[i] != '.'; }
    forall i | 0 <= i < |env| ensures env[i] != '.' { assert environment[i] != '.'; }
    assert forall i :: 0 <= i < 6 ==> IsDigit(date[i]) && IsDigit(time[i]);
  }

  /**
   * The converse of the backup flag: a recognised name that ends in `-BAK.sql` and is not read as
   * a backup has `BAK` as its environment.
   */
  lemma BakEndingNotBackup(name: string)
    requires ParseFilename(name) != Unknown && !ParseFilename(name).isBackup
    requires EndsWith(name, "-BAK.sql") || EndsWith(name, "-BAK.sql\n")
    ensures ParseFilename(name).environment == "BAK"
  {
    assert UcFirst("BAK") == "BAK";
    if MatchTimestamped(name).Some? {
      TimestampedBakEnv(name);
    } else {
      LegacyBakEnv(name);
    }
  }

  lemma TimestampedBakEnv(name: string)
    requires MatchTimestamped(name).Some? && !MatchTimestamped(name).value.backup
    requires EndsWith(name, "-BAK.sql") || EndsWith(name, "-BAK.sql\n")
    ensures MatchTimestamped(name).value.env == "BAK"
  {
    var g := MatchTimestamped(name).value;
    TimestampedSound(name);
    var newline := HasFinalNewline(name);
    NoSuffix(g.date + "-" + g.time + "-" + g.preset + "-" + g.env, LineEnd(newline));
    SegmentBeforeBak(g.date + "-" + g.time + "-" + g.preset, g.env, newline, name);
  }

  lemma LegacyBakEnv(name: string)
    requires MatchLegacy(name).Some? && !MatchLegacy(name).value.backup
    requires EndsWith(name, "-BAK.sql") || EndsWith(name, "-BAK.sql\n")
    ensures MatchLegacy(name).value.env == "BAK"
  {
    var g := MatchLegacy(name).value;
    LegacySound(name);
    var newline := HasFinalNewline(name);
    NoSuffix(g.date + "-" + g.preset + "-" + g.env, LineEnd(newline));
    SegmentBeforeBak(g.date + "-" + g.preset, g.env, newline, name);
  }

  /** An empty backup suffix adds nothing. */
  lemma NoSuffix(w: string, end: string)
    ensures w + BakSuffix(false) + ".sql" + end == w + ".sql" + end
  {
    assert w + BakSuffix(false) == w;
  }

  /** A segment between a `-` and `.sql`, where the name ends in `-BAK.sql`, is `BAK`. */
  lemma SegmentBeforeBak(p: string, env: string, newline: bool, name: string)
    requires IsSegment(env) && name == p + "-" + env + ".sql" + LineEnd(newline)
    requires EndsWith(name, "-BAK.sql") || EndsWith(name, "-BAK.sql\n")
    ensures env == "BAK"
  {
    var w := p + "-" + env;
    assert name == (w + ".sql") + LineEnd(newline);
    LineEndDropped(w + ".sql", newline, name);
    SqlDropped(w);
    assert w == w[..|w| - 4] + "-" + "BAK";
    AfterLastDashOf(p, env);
    AfterLastDashOf(w[..|w| - 4], "BAK");
  }

  /** A `-BAK.sql` ending survives removing the optional final newline. */
  lemma LineEndDropped(x: string, newline: bool, name: string)
    requires x != [] && x[|x| - 1] == 'l' && name == x + LineEnd(newline)
    requires EndsWith(name, "-BAK.sql") || EndsWith(name, "-BAK.sql\n")
    ensures EndsWith(x, "-BAK.sql")
  {
    if newline {
      NewlineDropped(x, name);
    } else {
      assert name == x;
      NoNewlineKept(x);
    }
  }

  /** With a final newline, the ending can only be `-BAK.sql` and a newline. */
  lemma NewlineDropped(x: string, name: string)
    requires name == x + "\n"
    requires EndsWith(name, "-BAK.sql") || EndsWith(name, "-BAK.sql\n")
    ensures EndsWith(x, "-BAK.sql")
  {
    assert name[|name| - 1] == '\n';
    assert |name| >= 8 ==> name[|name| - 8..][7] == name[|name| - 1];
    assert EndsWith(name, "-BAK.sql\n");
    assert x == name[..|name| - 1];
    assert x[|x| - 8..] == name[|name| - 9..][..8];
  }

  /** Without one, a text ending in `l` can only end in `-BAK.sql`. */
  lemma NoNewlineKept(x: string)
    requires x != [] && x[|x| - 1] == 'l'
    requires EndsWith(x, "-BAK.sql") || EndsWith(x, "-BAK.sql\n")
    ensures EndsWith(x, "-BAK.sql")
  {
    assert |x| >= 9 ==> x[|x| - 9..][8] == x[|x| - 1];
  }

  /** A stem followed by `.sql` that ends in `-BAK.sql` ends in `-BAK`. */
  lemma SqlDropped(w: string)
    requires EndsWith(w + ".sql", "-BAK.sql")
    ensures |w| >= 4 && w[|w| - 4..] == "-BAK"
  {
    assert (w + ".sql")[|w| - 4..] == w[|w| - 4..] + ".sql";
    CancelRight(w[|w| - 4..], "-BAK", ".sql");
  }

  /** Equal strings with the same ending are equal before it. */
  lemma CancelRight(a: string, b: string, c: string)
    requires a + c == b + c
    ensures a == b
  {
    assert a == (a + c)[..|a|];
  }

  /** The text after the last `-` of `s` (all of `s` when it has none). */
  function AfterLastDash(s: string): (r: string)
    ensures '-' !in r
    decreases |s|
  {
    if s == [] || s[|s| - 1] == '-' then [] else AfterLastDash(s[..|s| - 1]) + [s[|s| - 1]]
  }

  /** What follows a `-` and contains none is what follows the last `-`. */
  lemma {:induction false} AfterLastDashOf(y: string, x: string)
    requires '-' !in x
    ensures AfterLastDash(y + "-" + x) == x
    decreases |x|
  {
    var s := y + "-" + x;
    if x == [] {
      assert s[|s| - 1] == '-';
    } else {
      assert s[|s| - 1] == x[|x| - 1];
      assert s[..|s| - 1] == y + "-" + x[..|x| - 1];
      AfterLastDashOf(y, x[..|x| - 1]);
      assert x == x[..|x| - 1] + [x[|x| - 1]];
    }
  }
}
