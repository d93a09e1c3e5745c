/**
 * src/ui/win32/logger.rs: the log sink that appends one line per record to
 * the text of the window's edit control. The control's text is a field, the
 * clock fields and the control's answer to `WM_GETTEXT` are parameters, and
 * `log::max_level()` (set by `init`) is a field of the logger.
 */
module Logger {
  import opened Common
  import opened Decimal

  /** `log::Level`, most severe first. */
  datatype Level = Error | Warn | Info | Debug | Trace

  /** `log::LevelFilter`: `Off`, or every level up to and including `level`. */
  datatype LevelFilter = Off | AtMost(level: Level)

  function Rank(level: Level): nat
  {
    match level
    case Error => 1
    case Warn => 2
    case Info => 3
    case Debug => 4
    case Trace => 5
  }

  function FilterRank(filter: LevelFilter): nat
  {
    match filter
    case Off => 0
    case AtMost(level) => Rank(level)
  }

  /** `Display` of `log::Level`. */
  function LevelName(level: Level): string
  {
    match level
    case Error => "ERROR"
    case Warn => "WARN"
    case Info => "INFO"
    case Debug => "DEBUG"
    case Trace => "TRACE"
  }

  /**
   * `enabled`: the record's level is at most the maximum level, in the order
   * Error < Warn < Info < Debug < Trace; `Off` lets nothing through.
   */
  function Enabled(level: Level, max: LevelFilter): (r: bool)
    ensures r <==> max.AtMost? && Rank(level) <= Rank(max.level)
    ensures max == Off ==> !r
    ensures max == AtMost(Trace) ==> r
    ensures level == Error ==> (r <==> max != Off)
  {
    Rank(level) <= FilterRank(max)
  }

  /** A level enabled under a filter stays enabled for every more severe level. */
  lemma EnabledIsThreshold(level: Level, moreSevere: Level, max: LevelFilter)
    requires Rank(moreSevere) <= Rank(level)
    ensures Enabled(level, max) ==> Enabled(moreSevere, max)
  {
  }

  /** `is_our_path`: the record comes from a module whose path starts with "miniraw". */
  function IsOurPath(path: Option<string>): (r: bool)
    ensures r <==> path.Some? && exists rest :: path.value == "miniraw" + rest
  {
    if path.Some? && StartsWith(path.value, "miniraw") then
      assert path.value == "miniraw" + path.value[7..];
      true
    else
      assert forall rest :: StartsWith("miniraw" + rest, "miniraw") by {
        forall rest ensures StartsWith("miniraw" + rest, "miniraw") {
          assert ("miniraw" + rest)[..7] == "miniraw";
        }
      }
      false
  }

  /** The local time fields the sink reads from `chrono::Local::now()`. */
  datatype Clock = Clock(year: int, month: nat, day: nat, hour: nat, minute: nat,
                         second: nat, nanosecond: nat)

  /** `log::Record`: its level, module path and formatted message. */
  datatype Record = Record(level: Level, modulePath: Option<string>, message: string)

  /** `{}-{:02}-{:02} {:02}:{:02}:{:02}.{:03}`, the milliseconds being `nanosecond / 1_000_000`. */
  function Stamp(t: Clock): string
  {
    ShowInt(t.year) + (DatePart(t) + TimePart(t))
  }

  /** Two fields, each after its separator character. */
  function Fields(sep0: char, a: string, sep1: char, b: string): string
  {
    [sep0] + a + [sep1] + b
  }

  /** `-{:02}-{:02}`: month and day. */
  function DatePart(t: Clock): string
  {
    Fields('-', Padded(t.month, 2), '-', Padded(t.day, 2))
  }

  /** ` {:02}:{:02}:{:02}.{:03}`: hour, minute, second and milliseconds. */
  function TimePart(t: Clock): string
  {
    Fields(' ', Padded(t.hour, 2), ':', Padded(t.minute, 2))
      + Fields(':', Padded(t.second, 2), '.', Padded(t.nanosecond / 1_000_000, 3))
  }

  /** One line of the log: `[LEVEL] stamp message\r\n`. */
  function FormatLine(level: Level, t: Clock, message: string): (line: string)
    ensures |line| >= 2 && line[|line| - 2..] == "\r\n"
  {
    var head := "[" + LevelName(level) + "] " + Stamp(t) + " " + message;
    assert (head + "\r\n")[|head|..] == "\r\n";
    head + "\r\n"
  }

  /** Where the pieces of two fields sit. */
  lemma Pair(s0: char, a: string, s1: char, b: string)
    ensures var x := Fields(s0, a, s1, b);
      && |x| == |a| + |b| + 2 && x[0] == s0 && x[|a| + 1] == s1
      && x[1..|a| + 1] == a && x[|a| + 2..] == b
  {
    var x := [s0] + a + [s1] + b;
    assert x == [s0] + (a + ([s1] + b));
  }

  lemma DateLayout(t: Clock)
    requires t.month < 100 && t.day < 100
    ensures var d := DatePart(t);
      && |d| == 6 && d[0] == '-' && d[3] == '-'
      && d[1..3] == Padded(t.month, 2) && d[4..6] == Padded(t.day, 2)
  {
    PaddedWidth(t.month, 2);
    PaddedWidth(t.day, 2);
    Pair('-', Padded(t.month, 2), '-', Padded(t.day, 2));
  }

  lemma TimeLayout(t: Clock)
    requires t.hour < 100 && t.minute < 100 && t.second < 100 && t.nanosecond < 1_000_000_000
    ensures var c := TimePart(t);
      && |c| == 13 && c[0] == ' ' && c[3] == ':' && c[6] == ':' && c[9] == '.'
      && c[1..3] == Padded(t.hour, 2) && c[4..6] == Padded(t.minute, 2)
      && c[7..9] == Padded(t.second, 2) && c[10..] == Padded(t.nanosecond / 1_000_000, 3)
  {
    PaddedWidth(t.hour, 2);
    PaddedWidth(t.minute, 2);
    PaddedWidth(t.second, 2);
    PaddedWidth(t.nanosecond / 1_000_000, 3);
    var h, m, sec, ms := Padded(t.hour, 2), Padded(t.minute, 2), Padded(t.second, 2),
                         Padded(t.nanosecond / 1_000_000, 3);
    Pair(' ', h, ':', m);
    Pair(':', sec, '.', ms);
    var hm, rest := Fields(' ', h, ':', m), Fields(':', sec, '.', ms);
    SliceAfter(hm, rest, 1, 3);
    SliceAfter(hm, rest, 4, 7);
  }

  /** The date and time after the year: 19 characters at fixed offsets. */
  lemma TailLayout(t: Clock)
    requires t.month < 100 && t.day < 100 && t.hour < 100 && t.minute < 100 && t.second < 100
    requires t.nanosecond < 1_000_000_000
    ensures var x := DatePart(t) + TimePart(t);
      && |x| == 19
      && x[0] == '-' && x[3] == '-' && x[6] == ' ' && x[9] == ':' && x[12] == ':' && x[15] == '.'
      && x[1..3] == Padded(t.month, 2) && x[4..6] == Padded(t.day, 2)
      && x[7..9] == Padded(t.hour, 2) && x[10..12] == Padded(t.minute, 2)
      && x[13..15] == Padded(t.second, 2) && x[16..] == Padded(t.nanosecond / 1_000_000, 3)
  {
    DateLayout(t);
    TimeLayout(t);
    var d, c := DatePart(t), TimePart(t);
    assert (d + c)[1..3] == d[1..3] && (d + c)[4..6] == d[4..6];
    SliceAfter(d, c, 1, 3);
    SliceAfter(d, c, 4, 6);
    SliceAfter(d, c, 7, 9);
    SliceAfter(d, c, 10, 13);
  }

  /**
   * With every time field in its usual range, the stamp after the year has a
   * fixed layout: two-digit month, day, hour, minute and second and three-digit
   * milliseconds at fixed offsets (each reads back as its field, by `Padded`).
   */
  lemma StampLayout(t: Clock)
    requires t.month < 100 && t.day < 100 && t.hour < 100 && t.minute < 100 && t.second < 100
    requires t.nanosecond < 1_000_000_000
    ensures var y := |ShowInt(t.year)|; var s := Stamp(t);
      && |s| == y + 19
      && s[y] == '-' && s[y + 3] == '-' && s[y + 6] == ' '
      && s[y + 9] == ':' && s[y + 12] == ':' && s[y + 15] == '.'
      && s[y + 1..y + 3] == Padded(t.month, 2) && s[y + 4..y + 6] == Padded(t.day, 2)
      && s[y + 7..y + 9] == Padded(t.hour, 2) && s[y + 10..y + 12] == Padded(t.minute, 2)
      && s[y + 13..y + 15] == Padded(t.second, 2) && s[y + 16..] == Padded(t.nanosecond / 1_000_000, 3)
  {
    YearThenTail(ShowInt(t.year), t);
  }

  /** `StampLayout` for any year numeral put in front of the date and time. */
  lemma YearThenTail(year: string, t: Clock)
    requires t.month < 100 && t.day < 100 && t.hour < 100 && t.minute < 100 && t.second < 100
    requires t.nanosecond < 1_000_000_000
    ensures var y := |year|; var s := year + (DatePart(t) + TimePart(t));
      && |s| == y + 19
      && s[y] == '-' && s[y + 3] == '-' && s[y + 6] == ' '
      && s[y + 9] == ':' && s[y + 12] == ':' && s[y + 15] == '.'
      && s[y + 1..y + 3] == Padded(t.month, 2) && s[y + 4..y + 6] == Padded(t.day, 2)
      && s[y + 7..y + 9] == Padded(t.hour, 2) && s[y + 10..y + 12] == Padded(t.minute, 2)
      && s[y + 13..y + 15] == Padded(t.second, 2) && s[y + 16..] == Padded(t.nanosecond / 1_000_000, 3)
  {
    TailLayout(t);
    var x := DatePart(t) + TimePart(t);
    SliceAfter(year, x, 1, 3);
    SliceAfter(year, x, 4, 6);
    SliceAfter(year, x, 7, 9);
    SliceAfter(year, x, 10, 12);
    SliceAfter(year, x, 13, 15);
    SliceAfter(year, x, 16, 19);
  }

  lemma SliceAfter(a: string, b: string, i: nat, j: nat)
    requires i <= j <= |b|
    ensures (a + b)[|a| + i..|a| + j] == b[i..j]
  {
  }

  /** Whether `log` writes a record at all: enabled and from our module path. */
  predicate Accepts(max: LevelFilter, record: Record)
  {
    Enabled(record.level, max) && IsOurPath(record.modulePath)
  }

  /**
   * The control's text after `log`: the old text with the record's line
   * appended, unless the record is filtered out or `WM_GETTEXT` reported a
   * negative length.
   */
  function Logged(text: string, max: LevelFilter, record: Record, t: Clock, getTextResult: int): (r: string)
    ensures StartsWith(r, text)
    ensures r == text <==> !Accepts(max, record) || getTextResult < 0
    ensures r != text ==> r[|text|..] == FormatLine(record.level, t, record.message)
    ensures r != text ==> |r| >= |text| + 2 && r[|r| - 2..] == "\r\n"
  {
    if Accepts(max, record) && getTextResult >= 0 then
      var line := FormatLine(record.level, t, record.message);
      Appended(text, line);
      text + line
    else text
  }

  /** Where the old text and the appended line sit in the new text. */
  lemma Appended(text: string, line: string)
    requires |line| >= 2 && line[|line| - 2..] == "\r\n"
    ensures var r := text + line;
      && r[..|text|] == text && r[|text|..] == line && r != text
      && |r| >= |text| + 2 && r[|r| - 2..] == "\r\n"
  {
    var r := text + line;
    assert r[|text|..] == line;
    assert r[|r| - 2..] == line[|line| - 2..];
  }

  /** The logger, attached to one edit control. */
  class WindowLogger {
    /** The edit control's text. */
    var text: string
    /** `log::max_level()`. */
    var maxLevel: LevelFilter

    /** `WindowLogger::init`: install the logger for a control and set the maximum level. */
    constructor Init(text: string, level: LevelFilter)
      ensures this.text == text && maxLevel == level
    {
      this.text := text;
      maxLevel := level;
    }

    /**
     * `log`: read the control's text into a buffer two units longer than its
     * length, and set the control's text to the old text followed by the line.
     * `getTextResult` is the value `WM_GETTEXT` returns.
     */
    method Log(record: Record, now: Clock, getTextResult: int)
      modifies this`text
      ensures text == Logged(old(text), maxLevel, record, now, getTextResult)
    {
      if Enabled(record.level, maxLevel) && IsOurPath(record.modulePath) {
        assert Accepts(maxLevel, record);
        var textLen := |text|;
        var buffer := new char[textLen + 2](_ => '\0');
        forall i | 0 <= i < textLen {
          buffer[i] := text[i];
        }
        if getTextResult >= 0 {
          var oldText := buffer[..textLen];
          assert oldText == text;
          text := oldText + FormatLine(record.level, now, record.message);
        }
      }
    }
  }
}
