/**
 * The file side of `SystemMonitor`: the log file and the three CSV files of
 * `monitor_system`, each modelled by its contents. Writing the headers
 * truncates each CSV file; every later write appends to the end.
 */
module Monitor {
  import opened Wrappers
  import opened PyText
  import opened Formats
  import opened FanSensors

  /** A text file, seen through its whole contents. */
  class OutputFile {
    var contents: string

    /** A new, empty file. */
    constructor ()
      ensures contents == ""
    {
      contents := "";
    }

    /** `open(path, "w")`: create the file, or empty it. */
    method Truncate()
      modifies this
      ensures contents == ""
    {
      contents := "";
    }

    /** `f.write(text)` on a file opened for writing or appending. */
    method Write(text: string)
      modifies this
      ensures contents == old(contents) + text
    {
      contents := contents + text;
    }
  }

  /** `SystemMonitor.log`: append one log line and its newline to the log file. */
  method Log(logFile: OutputFile, timestamp: string, level: string, message: string)
    modifies logFile
    ensures logFile.contents == old(logFile.contents) + LogLine(timestamp, level, message) + "\n"
  {
    var line := LogLine(timestamp, level, message);
    logFile.Write(line + "\n");
  }

  /** The start of `monitor_system`: each CSV file is emptied and given its header. */
  method WriteHeaders(cpuCsv: OutputFile, fanCsv: OutputFile, memCsv: OutputFile)
    requires cpuCsv != fanCsv && fanCsv != memCsv && cpuCsv != memCsv
    modifies cpuCsv, fanCsv, memCsv
    ensures cpuCsv.contents == CpuHeader
    ensures fanCsv.contents == FanHeader
    ensures memCsv.contents == MemHeader
  {
    cpuCsv.Truncate();
    cpuCsv.Write(CpuHeader);
    fanCsv.Truncate();
    fanCsv.Write(FanHeader);
    memCsv.Truncate();
    memCsv.Write(MemHeader);
  }

  /** Append one CPU row. */
  method AppendCpuRow(cpuCsv: OutputFile, timestamp: string, user: string, system: string, idle: string)
    modifies cpuCsv
    ensures cpuCsv.contents == old(cpuCsv.contents) + CpuRow(timestamp, user, system, idle)
  {
    cpuCsv.Write(CpuRow(timestamp, user, system, idle));
  }

  /** Append one memory row. */
  method AppendMemRow(memCsv: OutputFile, timestamp: string, total: string, used: string,
                      free: string, shared: string, bufferCache: string, available: string)
    modifies memCsv
    ensures memCsv.contents == old(memCsv.contents) + MemRow(timestamp, total, used, free, shared, bufferCache, available)
  {
    memCsv.Write(MemRow(timestamp, total, used, free, shared, bufferCache, available));
  }

  /**
   * Append one fan row by successive writes: the timestamp, then `,` and the
   * speed of each fan of the fixed order (`0` when not reported), then the
   * newline.
   */
  method AppendFanRow(fanCsv: OutputFile, timestamp: string, fans: map<string, string>)
    modifies fanCsv
    ensures fanCsv.contents == old(fanCsv.contents) + FanRow(timestamp, fans)
  {
    var values := FanValues(fans);
    fanCsv.Write(timestamp);
    assert [timestamp] + values[..0] == [timestamp];
    for k := 0 to |FanOrder|
      invariant fanCsv.contents == old(fanCsv.contents) + Join([timestamp] + values[..k], ',')
    {
      var cell := FanValue(fans, FanOrder[k]);
      fanCsv.Write("," + cell);
      JoinSnoc([timestamp] + values[..k], cell, ',');
      assert [timestamp] + values[..k + 1] == [timestamp] + values[..k] + [cell];
    }
    fanCsv.Write("\n");
    assert values[..|FanOrder|] == values;
  }

  /**
   * The fan part of one tick. When `ipmitool` succeeds and every fan line
   * parses, one complete fan row is appended; otherwise the fan file is left
   * as it was (parsing ends before the file is opened) and a warning is
   * logged instead.
   */
  method FanTick(fanCsv: OutputFile, logFile: OutputFile, timestamp: string, logTimestamp: string,
                 ipmitool: Option<string>)
    requires fanCsv != logFile
    modifies fanCsv, logFile
    ensures FanReport(ipmitool).Some? ==>
      && fanCsv.contents == old(fanCsv.contents) + FanRow(timestamp, FanReport(ipmitool).value)
      && logFile.contents == old(logFile.contents)
    ensures FanReport(ipmitool).None? ==>
      && fanCsv.contents == old(fanCsv.contents)
      && logFile.contents == old(logFile.contents)
         + LogLine(logTimestamp, "WARNING", "Failed to get fan information") + "\n"
  {
    var fans: Option<map<string, string>> := None;
    if ipmitool.Some? {
      fans := ParseFans(ipmitool.value);
    }
    if fans.Some? {
      AppendFanRow(fanCsv, timestamp, fans.value);
    } else {
      Log(logFile, logTimestamp, "WARNING", "Failed to get fan information");
    }
  }

  /**
   * One pass of the monitoring loop, before its sleep: a CPU row, a memory
   * row, then the fan row, the three rows sharing one timestamp; or, in
   * place of the fan row, the fan warning, which carries the log call's own
   * timestamp.
   */
  method Tick(cpuCsv: OutputFile, memCsv: OutputFile, fanCsv: OutputFile, logFile: OutputFile,
              timestamp: string, logTimestamp: string,
              user: string, system: string, idle: string,
              total: string, used: string, free: string, shared: string, bufferCache: string, available: string,
              ipmitool: Option<string>)
    requires cpuCsv != memCsv && cpuCsv != fanCsv && cpuCsv != logFile
    requires memCsv != fanCsv && memCsv != logFile && fanCsv != logFile
    modifies cpuCsv, memCsv, fanCsv, logFile
    ensures cpuCsv.contents == old(cpuCsv.contents) + CpuRow(timestamp, user, system, idle)
    ensures memCsv.contents == old(memCsv.contents) + MemRow(timestamp, total, used, free, shared, bufferCache, available)
    ensures FanReport(ipmitool).Some? ==>
      && fanCsv.contents == old(fanCsv.contents) + FanRow(timestamp, FanReport(ipmitool).value)
      && logFile.contents == old(logFile.contents)
    ensures FanReport(ipmitool).None? ==>
      && fanCsv.contents == old(fanCsv.contents)
      && logFile.contents == old(logFile.contents)
         + LogLine(logTimestamp, "WARNING", "Failed to get fan information") + "\n"
  {
    AppendCpuRow(cpuCsv, timestamp, user, system, idle);
    AppendMemRow(memCsv, timestamp, total, used, free, shared, bufferCache, available);
    FanTick(fanCsv, logFile, timestamp, logTimestamp, ipmitool);
  }
}
