/**
 * The fixed text layouts the system monitor writes: the three CSV headers,
 * the CPU and memory data rows, the generic comma-joined row, and the log
 * line. CSV cells are joined with `,` and never quoted.
 */
module Formats {
  import opened Wrappers
  import opened PyText

  /** The fans a fan row reports, in column order. */
  const FanOrder: seq<string> := ["FAN1", "FAN2", "FAN3", "FAN4", "FANA"]

  /** Columns of `cpu.csv`. */
  const CpuColumns: seq<string> := ["Timestamp", "User%", "System%", "Idle%"]

  /** Columns of `fan.csv`. */
  const FanColumns: seq<string> :=
    ["Timestamp", "FAN1_RPM", "FAN2_RPM", "FAN3_RPM", "FAN4_RPM", "FANA_RPM"]

  /** Columns of `mem.csv`. */
  const MemColumns: seq<string> :=
    ["Timestamp", "Total_Memory_MB", "Used_Memory_MB", "Free_Memory_MB",
     "Shared_Memory_MB", "Buffer_Cache_MB", "Available_Memory_MB"]

  /** One CSV line: the cells joined with `,`, then a newline. */
  function CsvRow(cells: seq<string>): string {
    Join(cells, ',') + "\n"
  }

  /** Header line written to `cpu.csv` when monitoring starts. */
  const CpuHeader: string := CsvRow(CpuColumns)

  /** Header line written to `fan.csv` when monitoring starts. */
  const FanHeader: string := CsvRow(FanColumns)

  /** Header line written to `mem.csv` when monitoring starts. */
  const MemHeader: string := CsvRow(MemColumns)

  /** The cells of one CSV line read back: drop the newline, split on `,`. */
  function RowCells(row: string): seq<string> {
    Split(if |row| > 0 && row[|row| - 1] == '\n' then row[..|row| - 1] else row, ',')
  }

  /** Every cell of `cells` is free of the separator. */
  predicate CommaFree(cells: seq<string>) {
    forall k | 0 <= k < |cells| :: ',' !in cells[k]
  }

  /** Reading a row back gives exactly the cells that were written. */
  lemma RowCellsOfCsvRow(cells: seq<string>)
    requires |cells| >= 1 && CommaFree(cells)
    ensures RowCells(CsvRow(cells)) == cells
  {
    var row := CsvRow(cells);
    assert row[..|row| - 1] == Join(cells, ',');
    SplitJoin(cells, ',');
  }

  /** The CPU header reads back as its four columns. */
  lemma CpuHeaderLayout()
    ensures RowCells(CpuHeader) == CpuColumns && |CpuColumns| == 4
  {
    RowCellsOfCsvRow(CpuColumns);
  }

  /**
   * The fan header reads back as its six columns: the timestamp, then the
   * fans of the fan order, each with `_RPM` appended.
   */
  lemma FanHeaderLayout()
    ensures RowCells(FanHeader) == FanColumns
    ensures |FanColumns| == |FanOrder| + 1 && FanColumns[0] == "Timestamp"
    ensures forall k | 0 <= k < |FanOrder| :: FanColumns[k + 1] == FanOrder[k] + "_RPM"
  {
    assert FanColumns[1] == FanOrder[0] + "_RPM";
    assert FanColumns[2] == FanOrder[1] + "_RPM";
    assert FanColumns[3] == FanOrder[2] + "_RPM";
    assert FanColumns[4] == FanOrder[3] + "_RPM";
    assert FanColumns[5] == FanOrder[4] + "_RPM";
    RowCellsOfCsvRow(FanColumns);
  }

  /** The memory header reads back as its seven columns. */
  lemma MemHeaderLayout()
    ensures RowCells(MemHeader) == MemColumns && |MemColumns| == 7
  {
    RowCellsOfCsvRow(MemColumns);
  }

  /** The CPU data row: timestamp, user, system and idle percentages. */
  function CpuRow(timestamp: string, user: string, system: string, idle: string): string {
    timestamp + "," + user + "," + system + "," + idle + "\n"
  }

  /**
   * A CPU row holds exactly the four cells of the CPU header, in header
   * order, whenever the values hold no comma.
   */
  lemma CpuRowLayout(timestamp: string, user: string, system: string, idle: string)
    requires CommaFree([timestamp, user, system, idle])
    ensures RowCells(CpuRow(timestamp, user, system, idle)) == [timestamp, user, system, idle]
    ensures |RowCells(CpuRow(timestamp, user, system, idle))| == |RowCells(CpuHeader)|
  {
    var cells := [timestamp, user, system, idle];
    assert "," == [','];
    JoinSnoc([timestamp], user, ',');
    assert [timestamp] + [user] == cells[..2];
    JoinSnoc(cells[..2], system, ',');
    assert cells[..2] + [system] == cells[..3];
    JoinSnoc(cells[..3], idle, ',');
    assert cells[..3] + [idle] == cells;
    assert CpuRow(timestamp, user, system, idle) == CsvRow(cells);
    RowCellsOfCsvRow(cells);
    CpuHeaderLayout();
  }

  /**
   * The memory data row: timestamp, then total, used, free, shared,
   * buffers plus cache, and available memory, each already formatted.
   */
  function MemRow(timestamp: string, total: string, used: string, free: string,
                  shared: string, bufferCache: string, available: string): string
  {
    timestamp + "," + total + "," + used + "," + free + "," + shared + ","
    + bufferCache + "," + available + "\n"
  }

  /** A memory row holds exactly the seven cells of the memory header. */
  lemma MemRowLayout(timestamp: string, total: string, used: string, free: string,
                     shared: string, bufferCache: string, available: string)
    requires CommaFree([timestamp, total, used, free, shared, bufferCache, available])
    ensures RowCells(MemRow(timestamp, total, used, free, shared, bufferCache, available))
         == [timestamp, total, used, free, shared, bufferCache, available]
    ensures |RowCells(MemRow(timestamp, total, used, free, shared, bufferCache, available))|
         == |RowCells(MemHeader)|
  {
    var cells := [timestamp, total, used, free, shared, bufferCache, available];
    assert "," == [','];
    JoinSnoc([timestamp], total, ',');
    assert [timestamp] + [total] == cells[..2];
    JoinSnoc(cells[..2], used, ',');
    assert cells[..2] + [used] == cells[..3];
    JoinSnoc(cells[..3], free, ',');
    assert cells[..3] + [free] == cells[..4];
    JoinSnoc(cells[..4], shared, ',');
    assert cells[..4] + [shared] == cells[..5];
    JoinSnoc(cells[..5], bufferCache, ',');
    assert cells[..5] + [bufferCache] == cells[..6];
    JoinSnoc(cells[..6], available, ',');
    assert cells[..6] + [available] == cells;
    assert MemRow(timestamp, total, used, free, shared, bufferCache, available) == CsvRow(cells);
    RowCellsOfCsvRow(cells);
    MemHeaderLayout();
  }

  /** The three parts of a log line. */
  datatype LogEntry = LogEntry(timestamp: string, level: string, message: string)

  /** A log line: `[timestamp] [level] message`. */
  function LogLine(timestamp: string, level: string, message: string): string {
    "[" + timestamp + "] [" + level + "] " + message
  }

  /**
   * Reads a log line back: the timestamp runs to the first `]`, the level
   * from the following ` [` to the next `]`, the message after one more space.
   */
  function ParseLogLine(line: string): Option<LogEntry> {
    if !StartsWith(line, "[") then None
    else match SplitOnce(line[1..], ']')
      case None => None
      case Some((timestamp, tail)) =>
        if !StartsWith(tail, " [") then None
        else match SplitOnce(tail[2..], ']')
          case None => None
          case Some((level, tail2)) =>
            if !StartsWith(tail2, " ") then None
            else Some(LogEntry(timestamp, level, tail2[1..]))
  }

  /** Parsing a line given in its nested form: `[`, timestamp, `]`, ` [`, level, `]`, ` `, message. */
  lemma ParseNestedLogLine(timestamp: string, level: string, message: string)
    requires ']' !in timestamp && ']' !in level
    ensures ParseLogLine("[" + (timestamp + [']'] + (" [" + (level + [']'] + (" " + message)))))
         == Some(LogEntry(timestamp, level, message))
  {
    var tail2 := " " + message;
    var tail := " [" + (level + [']'] + tail2);
    var line := "[" + (timestamp + [']'] + tail);
    assert line[1..] == timestamp + [']'] + tail;
    SplitOnceAfter(timestamp, ']', tail);
    assert tail[2..] == level + [']'] + tail2;
    SplitOnceAfter(level, ']', tail2);
    assert tail2[1..] == message;
  }

  /**
   * A log line gives back its timestamp, level and message whenever the
   * timestamp and the level hold no `]`.
   */
  lemma LogLineRoundTrip(timestamp: string, level: string, message: string)
    requires ']' !in timestamp && ']' !in level
    ensures ParseLogLine(LogLine(timestamp, level, message)) == Some(LogEntry(timestamp, level, message))
  {
    assert "] [" == [']'] + " [";
    assert "] " == [']'] + " ";
    assert LogLine(timestamp, level, message)
        == "[" + (timestamp + [']'] + (" [" + (level + [']'] + (" " + message))));
    ParseNestedLogLine(timestamp, level, message);
  }
}
