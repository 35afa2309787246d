/**
 * The fan part of one `monitor_system` tick: the output of
 * `ipmitool sdr type fan` becomes a map from fan name to speed, and the map
 * becomes one `fan.csv` row in the fixed fan order, `0` for a fan that was
 * not reported.
 */
module FanSensors {
  import opened Wrappers
  import opened PyText
  import opened Formats

  /** `'FAN' in line and 'RPM' in line`: the lines that are parsed at all. */
  predicate IsFanLine(line: string) {
    Contains(line, "FAN") && Contains(line, "RPM")
  }

  /** One parsed sensor line. */
  datatype FanReading = FanReading(name: string, rpm: string)

  /**
   * The reading of one fan line: the stripped first `|` field is the name,
   * the first whitespace-separated word of the second field the speed.
   * `None` where Python raises `IndexError`: no `|`, or a blank second field.
   */
  function ReadingOf(line: string): Option<FanReading> {
    var fields := Split(line, '|');
    if |fields| < 2 then None
    else
      var words := Words(Strip(fields[1]));
      if |words| == 0 then None
      else Some(FanReading(Strip(fields[0]), words[0]))
  }

  /** A stripped string is all whitespace exactly when the original is. */
  lemma StripAllSpace(s: string)
    ensures AllSpace(Strip(s)) <==> AllSpace(s)
  {
    var r := Strip(s);
    var i :| 0 <= i <= |s| - |r| && StartsWith(s[i..], r)
      && (forall k | 0 <= k < i :: IsSpace(s[k]))
      && (forall k | i + |r| <= k < |s| :: IsSpace(s[k]));
    if |r| > 0 {
      assert r[0] == s[i];
    } else {
      assert forall k | 0 <= k < |s| :: IsSpace(s[k]);
    }
  }

  /**
   * A fan line fails to parse exactly when it has no `|`, or when the text
   * between its first and second `|` is all whitespace.
   */
  lemma ReadingOfFails(line: string)
    ensures ReadingOf(line).None? <==> '|' !in line || AllSpace(Split(line, '|')[1])
  {
    var fields := Split(line, '|');
    if |fields| >= 2 {
      StripAllSpace(fields[1]);
      WordsEmpty(Strip(fields[1]));
    }
  }

  /**
   * A parsed fan line: the name is its first `|` field stripped, and the
   * speed is the first whitespace-separated token of its second field, a
   * maximal run of non-whitespace characters after only whitespace.
   */
  lemma ReadingOfFields(line: string)
    requires ReadingOf(line).Some?
    ensures |Split(line, '|')| >= 2
    ensures ReadingOf(line).value.name == Strip(Split(line, '|')[0])
    ensures IsWord(ReadingOf(line).value.rpm)
    ensures exists i | 0 <= i <= |Split(line, '|')[1]| :: FirstRunAt(Split(line, '|')[1], i, ReadingOf(line).value.rpm)
  {
    var field := Split(line, '|')[1];
    WordsEmpty(Strip(field));
    WordsAreWords(Strip(field));
    WordsFirstOfStrip(field);
  }

  /** What one output line contributes to the fan loop. */
  datatype LineKind = Skipped | Malformed | Parsed(reading: FanReading)

  /** Lines without both `FAN` and `RPM` are skipped; the others parse or raise. */
  function KindOf(line: string): LineKind {
    if !IsFanLine(line) then Skipped
    else
      match ReadingOf(line)
      case None => Malformed
      case Some(r) => Parsed(r)
  }

  /** The contribution of every line, in order. */
  function Kinds(lines: seq<string>): seq<LineKind> {
    seq(|lines|, i requires 0 <= i < |lines| => KindOf(lines[i]))
  }

  /** `k` is a parsed line naming fan `name`. */
  predicate Names(k: LineKind, name: string) {
    k.Parsed? && k.reading.name == name
  }

  /**
   * The `fans` dictionary after the loop has seen `ks`, one line at a time:
   * a skipped line changes nothing, a parsed line sets its fan's speed, and
   * a malformed line ends the loop with an exception (`None`).
   */
  function Collect(ks: seq<LineKind>): Option<map<string, string>> {
    if |ks| == 0 then Some(map[])
    else
      match Collect(ks[..|ks| - 1])
      case None => None
      case Some(fans) =>
        match ks[|ks| - 1]
        case Skipped => Some(fans)
        case Malformed => None
        case Parsed(r) => Some(fans[r.name := r.rpm])
  }

  /** The `fans` dictionary the loop over `lines` ends with, or `None` when it raises. */
  function FanMap(lines: seq<string>): Option<map<string, string>> {
    Collect(Kinds(lines))
  }

  /** The loop raises exactly when some line it sees is malformed. */
  lemma {:induction false} CollectFails(ks: seq<LineKind>)
    ensures Collect(ks).None? <==> exists i | 0 <= i < |ks| :: ks[i].Malformed?
  {
    if |ks| > 0 {
      var n := |ks| - 1;
      CollectFails(ks[..n]);
      assert forall i | 0 <= i < n :: ks[..n][i] == ks[i];
    }
  }

  /**
   * Last write wins: when the loop finishes it maps exactly the fans some
   * parsed line names, each to the speed on the last line naming it.
   */
  lemma {:induction false} CollectLastWriteWins(ks: seq<LineKind>, fans: map<string, string>)
    requires Collect(ks) == Some(fans)
    ensures forall name :: name in fans <==> exists i | 0 <= i < |ks| :: Names(ks[i], name)
    ensures forall i | 0 <= i < |ks| && ks[i].Parsed?
              && (forall j | i < j < |ks| :: !Names(ks[j], ks[i].reading.name))
              :: ks[i].reading.name in fans && fans[ks[i].reading.name] == ks[i].reading.rpm
  {
    if |ks| > 0 {
      var n := |ks| - 1;
      var prev := Collect(ks[..n]).value;
      CollectLastWriteWins(ks[..n], prev);
      assert forall i | 0 <= i < n :: ks[..n][i] == ks[i];
      match ks[n]
      case Skipped =>
      case Malformed =>
      case Parsed(r) =>
        assert fans == prev[r.name := r.rpm];
        assert Names(ks[n], r.name);
    }
  }

  /**
   * The fan parse of `lines` fails exactly when some line holding `FAN` and
   * `RPM` fails to parse.
   */
  lemma FanMapFails(lines: seq<string>)
    ensures FanMap(lines).None? <==>
      exists i | 0 <= i < |lines| :: IsFanLine(lines[i]) && ReadingOf(lines[i]).None?
  {
    var ks := Kinds(lines);
    CollectFails(ks);
    assert forall i | 0 <= i < |lines| :: ks[i].Malformed? <==> IsFanLine(lines[i]) && ReadingOf(lines[i]).None?;
  }

  /** A failure among the first `n` lines is a failure of the whole parse. */
  lemma FanMapPrefixFails(lines: seq<string>, n: int)
    requires 0 <= n <= |lines| && FanMap(lines[..n]).None?
    ensures FanMap(lines).None?
  {
    CollectFails(Kinds(lines[..n]));
    CollectFails(Kinds(lines));
    var i :| 0 <= i < n && Kinds(lines[..n])[i].Malformed?;
    assert lines[..n][i] == lines[i];
    assert Kinds(lines)[i].Malformed?;
  }

  /** One more line: the fold takes one step on what that line contributes. */
  lemma FanMapStep(lines: seq<string>, i: int)
    requires 0 <= i < |lines|
    ensures FanMap(lines[..i + 1]) == match FanMap(lines[..i])
      case None => None
      case Some(fans) =>
        match KindOf(lines[i])
        case Skipped => Some(fans)
        case Malformed => None
        case Parsed(r) => Some(fans[r.name := r.rpm])
  {
    assert Kinds(lines[..i + 1])[..i] == Kinds(lines[..i]);
    assert Kinds(lines[..i + 1])[i] == KindOf(lines[i]);
  }

  /** The fan loop: fill the dictionary line by line; the first bad fan line raises. */
  method ParseFans(output: string) returns (fans: Option<map<string, string>>)
    ensures fans == FanMap(Split(output, '\n'))
  {
    var lines := Split(output, '\n');
    var parsed: map<string, string> := map[];
    var i := 0;
    while i < |lines|
      invariant 0 <= i <= |lines|
      invariant FanMap(lines[..i]) == Some(parsed)
    {
      var line := lines[i];
      FanMapStep(lines, i);
      if IsFanLine(line) {
        var fields := Split(line, '|');
        if |fields| < 2 {
          FanMapPrefixFails(lines, i + 1);
          return None;
        }
        var words := Words(Strip(fields[1]));
        if |words| == 0 {
          FanMapPrefixFails(lines, i + 1);
          return None;
        }
        parsed := parsed[Strip(fields[0]) := words[0]];
      }
      i := i + 1;
    }
    assert lines[..i] == lines;
    return Some(parsed);
  }

  /**
   * What one tick learns about the fans: nothing when `ipmitool` fails,
   * otherwise the parse of its output.
   */
  function FanReport(ipmitool: Option<string>): Option<map<string, string>> {
    match ipmitool
    case None => None
    case Some(output) => FanMap(Split(output, '\n'))
  }

  /** `fans.get(name, '0')` */
  function FanValue(fans: map<string, string>, name: string): string {
    if name in fans then fans[name] else "0"
  }

  /** The five speeds of a fan row, in the fixed fan order. */
  function FanValues(fans: map<string, string>): seq<string> {
    seq(|FanOrder|, k requires 0 <= k < |FanOrder| => FanValue(fans, FanOrder[k]))
  }

  /** The fan row: the timestamp, then the five speeds. */
  function FanRow(timestamp: string, fans: map<string, string>): string {
    CsvRow([timestamp] + FanValues(fans))
  }

  /**
   * A fan row reads back as the timestamp followed by exactly one cell per
   * fan of the fixed order, the reported speed or `0`: as many cells as the
   * fan header has columns.
   */
  lemma FanRowLayout(timestamp: string, fans: map<string, string>)
    requires ',' !in timestamp
    requires forall k | 0 <= k < |FanOrder| && FanOrder[k] in fans :: ',' !in fans[FanOrder[k]]
    ensures RowCells(FanRow(timestamp, fans)) == [timestamp] + FanValues(fans)
    ensures |RowCells(FanRow(timestamp, fans))| == |RowCells(FanHeader)|
    ensures forall k | 0 <= k < |FanOrder| ::
      RowCells(FanRow(timestamp, fans))[k + 1] == if FanOrder[k] in fans then fans[FanOrder[k]] else "0"
  {
    var cells := [timestamp] + FanValues(fans);
    assert forall k | 1 <= k < |cells| :: cells[k] == FanValue(fans, FanOrder[k - 1]);
    RowCellsOfCsvRow(cells);
    FanHeaderLayout();
  }

  /** A fan that is not in the fixed order never shows in the row. */
  lemma FanRowIgnoresOtherFans(timestamp: string, fans: map<string, string>, name: string, rpm: string)
    requires name !in FanOrder
    ensures FanRow(timestamp, fans[name := rpm]) == FanRow(timestamp, fans)
  {
    assert FanValues(fans[name := rpm]) == FanValues(fans);
  }
}
