# pkit system monitor: the text and arithmetic rules of `SystemMonitor`

`pkit/core.py` holds `SystemMonitor`, the Python helper of a storage
benchmark kit that inspects block devices and samples hardware telemetry
into CSV files while benchmarks run. Around its subprocess calls, `psutil`
readings and file appends sit a few exact rules, and this project models
those rules and proves what they promise:

- **Device information** (`get_disk_info`). The size in whole GiB is the
  floor of the byte size divided by 1024³. A device is mounted when its path
  occurs as a substring of some mount-table line. The model name comes from
  the first `Model Number:` line of `hdparm -I` output. For an NVMe path, and
  only when `hdparm` fails, it comes from the first `mn` line of
  `nvme id-ctrl` output instead.
- **Fan telemetry** (`monitor_system`). The `ipmitool sdr type fan` output
  becomes a name→speed map, built from the lines that hold both `FAN` and
  `RPM`. A later line for the same fan overwrites an earlier one. A
  malformed line raises, so the tick writes no row and logs a warning. A map
  becomes one `fan.csv` row in the fixed order FAN1, FAN2, FAN3, FAN4, FANA,
  with `0` for each fan that was not reported.
- **Fixed layouts.** The CPU, fan and memory CSV headers, the CPU and memory
  rows, and the log line `[timestamp] [level] message`.

Modules, leaf first:

- `Wrappers` (`wrappers.dfy`): the `Option` type, whose `None` stands for a raised exception.
- `PyText` (`text.dfy`): the Python `str` operations the code uses, each
  written out with Python's semantics. These are `in`, `startswith`,
  `split(sep)`, `strip()`, `split()` with Python's full whitespace set, and
  `split(sep, 1)`. The module adds `Join`, the helper in which the
  comma-joined rows and headers are stated; the code itself builds them with
  f-strings and successive writes.
- `DiskInfo` (`disk_info.dfy`): the device-information rules. The two model
  loops are methods proved equal to first-match functions.
- `Formats` (`formats.dfy`): the CSV layouts and the log line, with a reader
  for each. The reader is a partner definition used to prove that what is
  written reads back as the intended cells.
- `FanSensors` (`fan_sensors.dfy`): the fan parse and the fan row. The loop
  that fills the dictionary is a method proved equal to a left fold over the
  lines.
- `Monitor` (`monitor.dfy`): the files. Each file is an `OutputFile` object
  whose `contents` the methods append to. The methods are the log call, the
  header writes, and the appends of one loop tick.

Inputs that come from the outside world are parameters:

- the byte size from `os.stat`;
- the mount-table lines, as iterating `/proc/mounts` yields them;
- the decoded output of `hdparm`, `nvme` and `ipmitool`;
- the timestamps;
- the CPU and memory figures, as already-formatted text.

A probe that raises is an `Option` input set to `None`. A raising probe is a
failed stat, an unreadable mount table, a tool that is missing or exits with
a non-zero status, or output that is not UTF-8.

Modelling choices that follow the code:

- A model that cannot be found is the empty string, as the code returns, not
  a placeholder name.
- The fan header is the fixed six-column line written when monitoring
  starts. It is not derived from the first poll.
- The header constants are built as `CsvRow` of their column lists. Joining
  those columns with `,` gives exactly the literal header text of lines 87,
  89 and 91.

## Model

| member | source | states |
|---|---|---|
| `PyText.Split` | pkit/core.py:41 | `s.split(c)` has at least one piece; it has exactly one piece when `s` holds no `c`; no piece holds `c` |
| `PyText.Contains` | pkit/core.py:34 | `sub in s` (also lines 42 and 112): some position of `s` starts an occurrence of `sub`; `ContainsAt`, `ContainsTransitive` and `ContainsChar` state what follows from an occurrence |
| `PyText.StartsWith` | pkit/core.py:51 | `s.startswith(p)` (also line 46): `p` is no longer than `s` and equals the first `|p|` characters of `s` |
| `PyText.SplitJoin` | pkit/core.py:113-114 | splitting pieces that were joined with `c` gives back exactly those pieces, provided no piece holds `c` |
| `PyText.JoinSplit` | pkit/core.py:41 | joining the pieces of `s.split(c)` with `c` gives back `s`, so splitting drops nothing but the separators |
| `PyText.Strip` | pkit/core.py:43 | `strip()` returns a contiguous part of `s` with only whitespace before and after it; that part neither starts nor ends with whitespace |
| `PyText.Words` | pkit/core.py:114 | `split()` with no argument; it has no contract of its own. `WordsEmpty`, `WordsAreWords`, `WordsFirst` and `WordsRest` together fix its result as the maximal runs of non-whitespace characters, in order |
| `PyText.WordsAreWords` | pkit/core.py:114 | every piece of `split()` is a non-empty run of non-whitespace characters |
| `PyText.WordsEmpty` | pkit/core.py:114 | `split()` is empty, so that `[0]` raises, exactly when the text is all whitespace |
| `PyText.WordsFirst` | pkit/core.py:114 | when the text is not all whitespace, the first piece of `split()`, the one `[0]` takes, starts right after the leading whitespace, holds no whitespace, and runs up to the next whitespace character or the end |
| `PyText.WordsRest` | pkit/core.py:114 | the pieces after the first are the pieces of what follows the first one once the leading whitespace is gone |
| `PyText.WordsFirstOfStrip` | pkit/core.py:114 | `strip().split()[0]` is a non-empty whitespace-free piece that is the first maximal run of non-whitespace characters of the unstripped text |
| `PyText.SplitOnce` | pkit/core.py:43 | `split(c, 1)` has two pieces exactly when `c` occurs; then the first piece holds no `c` and the text is first piece + `c` + second piece |
| `PyText.AfterFirst` | pkit/core.py:43 | `split(c, 1)[1]` exists exactly when `c` occurs and is the text after the first `c` |
| `DiskInfo.SizeGiB` | pkit/core.py:29-30 | the size `g` in GiB satisfies `g * 2^30 <= bytes < (g + 1) * 2^30` |
| `DiskInfo.SizeGiBUnique` | pkit/core.py:30 | no other whole number satisfies those bounds, so the result is the floor |
| `DiskInfo.IsMounted` | pkit/core.py:32-35 | mounted exactly when the device path occurs as a substring of at least one mount-table line |
| `DiskInfo.MountedThroughLongerPath` | pkit/core.py:34 | if a path containing the device's path is mounted, the device counts as mounted too |
| `DiskInfo.PartitionMarksDisk` | pkit/core.py:34 | a mount-table line for `/dev/sda1` marks `/dev/sda` as mounted |
| `DiskInfo.ValueAfterColon` | pkit/core.py:43 | the stripped value after the first `:` exists exactly when the line holds a `:` |
| `DiskInfo.ModelLineHasColon` | pkit/core.py:42-43 | a line holding `Model Number:` always has a value, so the `hdparm` loop cannot raise |
| `DiskInfo.FirstModelNumber` | pkit/core.py:41-44 | the model the `hdparm` loop settles on; no contract of its own. `FirstModelNumberIsFirstMatch` states it as the value of the first `Model Number:` line, or empty |
| `DiskInfo.FirstModelNumberIsFirstMatch` | pkit/core.py:37-44 | the `hdparm` model is empty when no line holds `Model Number:`; otherwise it is the value of the first such line, whatever later lines hold |
| `DiskInfo.HdparmModel` | pkit/core.py:39-44 | the loop with its early `break` returns exactly the first-match model of the output |
| `DiskInfo.FirstNvmeModel` | pkit/core.py:50-53 | the model the `nvme` loop settles on; no contract of its own. `FirstNvmeModelIsFirstMatch` states it as decided by the first `mn` line alone |
| `DiskInfo.FirstNvmeModelIsFirstMatch` | pkit/core.py:46-55 | the `nvme` model is empty when no line starts with `mn`. Otherwise only the first such line counts. Its value is the model when the line has a `:`. When it has none, the model stays empty, even if a later `mn` line has a value |
| `DiskInfo.NvmeModel` | pkit/core.py:48-55 | the loop with its `break` and its swallowed exception returns exactly the first-match `nvme` model |
| `DiskInfo.ModelOf` | pkit/core.py:37-55 | the model of the whole `try`/`except` cascade; no contract of its own. `NvmeOnlyOnFallback` and `HdparmWithoutModelLine` state when each tool decides it, and `GetDiskInfo` returns it |
| `DiskInfo.NvmeOnlyOnFallback` | pkit/core.py:45-46 | when `hdparm` succeeds, or the path does not start with `/dev/nvme`, the `nvme` output has no effect on the model |
| `DiskInfo.HdparmWithoutModelLine` | pkit/core.py:38-46 | when `hdparm` succeeds without a `Model Number:` line, the model is empty and the fallback is not tried |
| `DiskInfo.GetDiskInfo` | pkit/core.py:28-64 | the result is `None` exactly when the size or the mount table cannot be read. Otherwise it holds the path, the floor size in GiB, the substring mount test, and the model from `hdparm` or the NVMe fallback |
| `Formats.RowCellsOfCsvRow` | pkit/core.py:118-121 | a row written as one or more comma-joined cells plus a newline reads back as exactly those cells, provided no cell holds a comma |
| `Formats.CpuHeaderLayout` | pkit/core.py:86-87 | the CPU header reads back as the four columns Timestamp, User%, System%, Idle% |
| `Formats.FanHeaderLayout` | pkit/core.py:88-89 | the fan header reads back as six columns: Timestamp, then each fan of the fixed order with `_RPM` appended, in the same order |
| `Formats.MemHeaderLayout` | pkit/core.py:90-91 | the memory header reads back as its seven columns |
| `Formats.CpuRow` | pkit/core.py:99 | the CPU row f-string; no contract of its own. `CpuRowLayout` states that, when no value holds a comma, it reads back as its four cells in header order |
| `Formats.MemRow` | pkit/core.py:103-105 | the memory row f-strings; no contract of its own. `MemRowLayout` states that, when no value holds a comma, it reads back as its seven cells in header order |
| `Formats.CpuRowLayout` | pkit/core.py:98-99 | provided no value holds a comma, a CPU row reads back as timestamp, user, system and idle: as many cells as the CPU header, in header order |
| `Formats.MemRowLayout` | pkit/core.py:102-105 | provided no value holds a comma, a memory row reads back as its seven values: as many cells as the memory header, in header order |
| `Formats.LogLine` | pkit/core.py:16 | the log line f-string; no contract of its own. `LogLineRoundTrip` states that it reads back as its timestamp, level and message |
| `Formats.LogLineRoundTrip` | pkit/core.py:15-16 | a line `[ts] [level] message` reads back as its timestamp, level and message whenever the timestamp and the level hold no `]` |
| `FanSensors.IsFanLine` | pkit/core.py:112 | the test `'FAN' in line and 'RPM' in line`; no contract of its own. `KindOf` skips exactly the lines that fail it, and `FanMapFails` states failure over the lines that pass it |
| `FanSensors.ReadingOf` | pkit/core.py:113-114 | the name and speed of one fan line, or `None` where Python raises; no contract of its own. `ReadingOfFields` and `ReadingOfFails` state what it returns and when it fails |
| `FanSensors.ReadingOfFields` | pkit/core.py:113-114 | a parsed line has at least two `\|` fields; the name is the first field stripped, and the speed is a non-empty whitespace-free token that is the first maximal run of non-whitespace characters of the second field |
| `FanSensors.ReadingOfFails` | pkit/core.py:113-114 | a fan line fails to parse exactly when it has no `\|`, or when its second `\|` field is all whitespace |
| `FanSensors.KindOf` | pkit/core.py:112-114 | what one line does to the loop: nothing, raise, or set one fan; no contract of its own. `FanMapFails` and `CollectLastWriteWins` state the effect of all lines |
| `FanSensors.CollectFails` | pkit/core.py:110-115 | the fan loop raises exactly when one of its lines holds `FAN` and `RPM` and fails to parse |
| `FanSensors.Collect` | pkit/core.py:110-115 | the `fans` dictionary after the loop, as a left fold; no contract of its own. `CollectFails` and `CollectLastWriteWins` state when it fails and what it holds |
| `FanSensors.CollectLastWriteWins` | pkit/core.py:110-115 | after the loop, the map holds exactly the fans that some parsed line names. Each maps to the speed on the last line naming it; later lines overwrite earlier ones |
| `FanSensors.FanMap` | pkit/core.py:110-115 | the dictionary the loop over the `ipmitool` lines ends with; no contract of its own. `FanMapFails` states when it is `None`, and `ParseFans` is proved equal to it |
| `FanSensors.FanMapStep` | pkit/core.py:111-115 | one more line takes the loop one step: a raised exception stays raised; otherwise the dictionary is unchanged for a skipped line, `None` for a malformed one, and gets the fan's speed set for a parsed one |
| `FanSensors.FanMapFails` | pkit/core.py:111-114 | the parse of the `ipmitool` lines fails exactly when some line holding `FAN` and `RPM` has no `\|` or has no word in its second field |
| `FanSensors.ParseFans` | pkit/core.py:110-115 | the loop that fills `fans` in place returns exactly the left fold of the lines. It returns `None` at the first malformed fan line |
| `FanSensors.FanReport` | pkit/core.py:107-115 | what one tick learns about the fans: `None` when `ipmitool` fails, otherwise the fold of its output lines; no contract of its own. `FanTick` branches on it |
| `FanSensors.FanValue` | pkit/core.py:120 | `fans.get(fan, '0')`; no contract of its own. `FanRowLayout` states each row cell as the speed or `0` |
| `FanSensors.FanRow` | pkit/core.py:118-121 | the fan row as one string; no contract of its own. `FanRowLayout` and `FanRowIgnoresOtherFans` state its cells, and `AppendFanRow` is proved to write it |
| `FanSensors.FanRowLayout` | pkit/core.py:117-121 | a fan row reads back as the timestamp and one cell per fan of FAN1, FAN2, FAN3, FAN4, FANA, provided the timestamp and no reported speed of those five fans holds a comma. Each cell is the parsed speed, or `0` when that fan was not parsed. That is as many cells as the fan header has |
| `FanSensors.FanRowIgnoresOtherFans` | pkit/core.py:119-120 | a parsed fan whose name is not in the fixed order never changes the row |
| `Monitor.Log` | pkit/core.py:14-22 | the log file gains exactly the line `[ts] [level] message` and a newline |
| `Monitor.WriteHeaders` | pkit/core.py:84-91 | each of the three CSV files holds exactly its header afterwards |
| `Monitor.AppendCpuRow` | pkit/core.py:98-99 | the CPU file gains exactly one CPU row |
| `Monitor.AppendMemRow` | pkit/core.py:101-105 | the memory file gains exactly one memory row |
| `Monitor.AppendFanRow` | pkit/core.py:117-121 | the successive writes (timestamp, `,value` per fan in the fixed order, newline) append exactly one fan row |
| `Monitor.FanTick` | pkit/core.py:107-123 | when the fan report succeeds, the fan file gains exactly its row and the log is unchanged. Otherwise the fan file is unchanged, with no partial row, and the log gains the WARNING line |
| `Monitor.Tick` | pkit/core.py:94-123 | one pass of the loop appends one CPU row and one memory row, then the fan row or the fan warning. The three rows share one timestamp; the warning carries the log call's own timestamp, read again by `log` |

## Left out

- FanSensors.FanRowLayout: no quoting of CSV cells is modelled, as the code does none. A speed token holding a comma would shift every later `fan.csv` column; the lemma assumes the five reported speeds hold none. Nothing in the code guarantees that for `ipmitool` output.
- The guard `os.path.exists`/`os.path.isblock` (line 25). `os.path` has no
  `isblock`, so for any path that exists line 25 raises `AttributeError`
  outside the `try` of line 28. As written, `get_disk_info` therefore returns
  `None` for a missing path, raises for every other one, and never reaches
  lines 28-64. `GetDiskInfo` describes the body as if the guard had passed.
  Even past the guard, `os.stat` of a Linux block-device node reports
  `st_size` 0, so the size would come out as 0; the model takes the byte size
  as an input.
- `check_disk_health` (lines 66-81): it only maps the exit status of
  `nvme smart-log` or `smartctl -H` to a boolean and logs.
- Running the external tools, `os.stat`, and reading `/proc/mounts`: their
  results are inputs. Splitting the mount table into lines by file iteration
  is taken as done. The mount table is read whole or not at all. `any(...)`
  at line 34 stops reading at the first matching line, so in Python a read
  error later in the file is never raised and the dictionary is still
  returned. `GetDiskInfo`'s `None` for an unreadable mount table is meant
  under this abstraction.
- `psutil` readings and the `/1024/1024` memory conversions (lines 97,
  101-105): these are floating point. The CPU and memory cells are taken as
  already-formatted text.
- Console output (`print`, line 17), `os.makedirs`, and the path joins of
  `__init__` and `monitor_system`. The `if self.logs_dir` test is always true,
  because `logs_dir` is a non-empty joined path, so logging is modelled as
  unconditional.
- The `while True` loop, `time.sleep`, `datetime.now()`, and the
  `KeyboardInterrupt` exit with its INFO log: these are timing and signals.
  One pass of the loop is `Monitor.Tick`.
- I/O errors while opening or writing a CSV or log file, including a write
  that fails partway through a fan row. Every file write is modelled as
  succeeding.
- The `.decode()` calls are not modelled byte by byte. Output that is not
  UTF-8 is one of the `None` cases of a tool's output.
- The disk safety registry, the monitoring supervisor and the benchmark
  orchestrator of the wider kit are not part of this model: `pkit/core.py`
  contains none of them.
