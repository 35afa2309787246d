/**
 * What `SystemMonitor.get_disk_info` derives about one block device from
 * facts already obtained: its size in whole GiB from the byte size, whether
 * it is mounted from the lines of the mount table, and its model name from
 * the output of `hdparm -I`, or of `nvme id-ctrl` for NVMe devices when
 * `hdparm` fails.
 *
 * Every probe that can raise is an `Option` input, `None` standing for the
 * raised exception: the size (`os.stat`), the mount table (`/proc/mounts`),
 * and each tool's decoded output (non-zero exit, missing tool or bad UTF-8).
 */
module DiskInfo {
  import opened Wrappers
  import opened PyText

  /** `1024 ** 3` */
  const GiB: nat := 1024 * 1024 * 1024

  /** Marker of the model line in `hdparm -I` output. */
  const ModelKey: string := "Model Number:"

  /** Only device paths with this prefix fall back to `nvme id-ctrl`. */
  const NvmePrefix: string := "/dev/nvme"

  /** Prefix of the model line in `nvme id-ctrl` output. */
  const NvmeModelKey: string := "mn"

  /** The dictionary `get_disk_info` returns. */
  datatype Info = Info(size: nat, mounted: bool, model: string, device: string)

  /** `size_bytes // 1024 ** 3`: the size in whole GiB, rounded down. */
  function SizeGiB(sizeBytes: nat): (g: nat)
    ensures g * GiB <= sizeBytes < (g + 1) * GiB
  {
    sizeBytes / GiB
  }

  /** The bounds of `SizeGiB` admit no other value. */
  lemma SizeGiBUnique(sizeBytes: nat, g: nat)
    requires g * GiB <= sizeBytes < (g + 1) * GiB
    ensures g == SizeGiB(sizeBytes)
  {
  }

  /** `any(device in line for line in mountLines)` */
  function IsMounted(device: string, mountLines: seq<string>): (mounted: bool)
    ensures mounted <==> exists i | 0 <= i < |mountLines| :: Contains(mountLines[i], device)
  {
    if |mountLines| == 0 then false
    else
      var restMounted := IsMounted(device, mountLines[1..]);
      assert forall i | 1 <= i < |mountLines| :: mountLines[i] == mountLines[1..][i - 1];
      Contains(mountLines[0], device) || restMounted
  }

  /**
   * The test is by substring: a device is mounted whenever some path it
   * occurs in is, so a mounted partition marks its whole disk as mounted.
   */
  lemma MountedThroughLongerPath(device: string, longer: string, mountLines: seq<string>)
    requires Contains(longer, device)
    requires IsMounted(longer, mountLines)
    ensures IsMounted(device, mountLines)
  {
    var i :| 0 <= i < |mountLines| && Contains(mountLines[i], longer);
    ContainsTransitive(mountLines[i], longer, device);
  }

  /** A mount-table line for `/dev/sda1` marks `/dev/sda` as mounted. */
  lemma PartitionMarksDisk()
    ensures IsMounted("/dev/sda", ["/dev/sda1 /boot vfat rw 0 0\n"])
  {
    var line := "/dev/sda1 /boot vfat rw 0 0\n";
    assert line[0..8] == "/dev/sda";
    ContainsAt(line, "/dev/sda", 0);
  }

  /** `line.split(':', 1)[1].strip()`; `None` where Python raises `IndexError`. */
  function ValueAfterColon(line: string): (v: Option<string>)
    ensures v.Some? <==> ':' in line
  {
    match AfterFirst(line, ':')
    case None => None
    case Some(after) => Some(Strip(after))
  }

  /** A line holding `Model Number:` holds a colon, so its value exists. */
  lemma ModelLineHasColon(line: string)
    requires Contains(line, ModelKey)
    ensures ':' in line
  {
    ContainsChar(line, ModelKey, 12);
  }

  /** The model the `hdparm` loop settles on: the value of the first line holding the marker. */
  function FirstModelNumber(lines: seq<string>): string {
    if |lines| == 0 then ""
    else if Contains(lines[0], ModelKey) then
      ModelLineHasColon(lines[0]);
      ValueAfterColon(lines[0]).value
    else FirstModelNumber(lines[1..])
  }

  /** Line `i` is the first line holding `Model Number:`. */
  predicate IsFirstModelLine(lines: seq<string>, i: int) {
    0 <= i < |lines| && Contains(lines[i], ModelKey)
    && forall j | 0 <= j < i :: !Contains(lines[j], ModelKey)
  }

  /**
   * First match wins: with no line holding `Model Number:` the model is
   * empty; otherwise it is the value of the first line that does, whatever
   * later lines say.
   */
  lemma {:induction false} FirstModelNumberIsFirstMatch(lines: seq<string>)
    ensures (forall i | 0 <= i < |lines| :: !Contains(lines[i], ModelKey)) ==> FirstModelNumber(lines) == ""
    ensures forall i | IsFirstModelLine(lines, i) :: ValueAfterColon(lines[i]) == Some(FirstModelNumber(lines))
  {
    if |lines| > 0 {
      FirstModelNumberIsFirstMatch(lines[1..]);
      assert forall i | 1 <= i < |lines| :: lines[i] == lines[1..][i - 1];
      if Contains(lines[0], ModelKey) {
        ModelLineHasColon(lines[0]);
      } else {
        forall i | 1 <= i < |lines| && IsFirstModelLine(lines, i)
          ensures IsFirstModelLine(lines[1..], i - 1)
        {
          assert forall j | 0 <= j < i - 1 :: lines[1..][j] == lines[j + 1];
        }
      }
    }
  }

  /** The model `hdparm -I` output yields. */
  function ModelFromHdparm(output: string): string {
    FirstModelNumber(Split(output, '\n'))
  }

  /** The `hdparm` loop: scan the lines, stop at the first holding `Model Number:`. */
  method HdparmModel(output: string) returns (model: string)
    ensures model == ModelFromHdparm(output)
  {
    model := "";
    var lines := Split(output, '\n');
    var i := 0;
    while i < |lines|
      invariant 0 <= i <= |lines|
      invariant model == ""
      invariant FirstModelNumber(lines[i..]) == FirstModelNumber(lines)
    {
      assert lines[i..][1..] == lines[i + 1..];
      if Contains(lines[i], ModelKey) {
        ModelLineHasColon(lines[i]);
        model := ValueAfterColon(lines[i]).value;
        break;
      }
      i := i + 1;
    }
  }

  /**
   * The model the `nvme` loop settles on: the value of the first line
   * starting with `mn`, or nothing when that line has no colon (the
   * `IndexError` is swallowed and the model stays empty).
   */
  function FirstNvmeModel(lines: seq<string>): string {
    if |lines| == 0 then ""
    else if StartsWith(lines[0], NvmeModelKey) then
      match ValueAfterColon(lines[0])
      case Some(v) => v
      case None => ""
    else FirstNvmeModel(lines[1..])
  }

  /** Line `i` is the first line starting with `mn`. */
  predicate IsFirstMnLine(lines: seq<string>, i: int) {
    0 <= i < |lines| && StartsWith(lines[i], NvmeModelKey)
    && forall j | 0 <= j < i :: !StartsWith(lines[j], NvmeModelKey)
  }

  /**
   * First match wins: only the first line starting with `mn` is looked at;
   * its value is the model when it has a colon, and otherwise the model is
   * empty even if a later `mn` line has one.
   */
  lemma {:induction false} FirstNvmeModelIsFirstMatch(lines: seq<string>)
    ensures (forall i | 0 <= i < |lines| :: !StartsWith(lines[i], NvmeModelKey)) ==> FirstNvmeModel(lines) == ""
    ensures forall i | IsFirstMnLine(lines, i) && ':' in lines[i] :: ValueAfterColon(lines[i]) == Some(FirstNvmeModel(lines))
    ensures forall i | IsFirstMnLine(lines, i) && ':' !in lines[i] :: FirstNvmeModel(lines) == ""
  {
    if |lines| > 0 {
      FirstNvmeModelIsFirstMatch(lines[1..]);
      forall i | 1 <= i < |lines| && IsFirstMnLine(lines, i)
        ensures IsFirstMnLine(lines[1..], i - 1)
      {
        assert forall j | 0 <= j < i - 1 :: lines[1..][j] == lines[j + 1];
      }
    }
  }

  /** The model `nvme id-ctrl` output yields. */
  function ModelFromNvme(output: string): string {
    FirstNvmeModel(Split(output, '\n'))
  }

  /** The `nvme` loop: stop at the first line starting with `mn`. */
  method NvmeModel(output: string) returns (model: string)
    ensures model == ModelFromNvme(output)
  {
    model := "";
    var lines := Split(output, '\n');
    var i := 0;
    while i < |lines|
      invariant 0 <= i <= |lines|
      invariant model == ""
      invariant FirstNvmeModel(lines[i..]) == FirstNvmeModel(lines)
    {
      assert lines[i..][1..] == lines[i + 1..];
      if StartsWith(lines[i], NvmeModelKey) {
        var v := ValueAfterColon(lines[i]);
        if v.Some? {
          model := v.value;
        }
        break;
      }
      i := i + 1;
    }
  }

  /**
   * The model name: from `hdparm` when it succeeds, else from `nvme` for
   * an NVMe path whose `nvme` call succeeds, else empty.
   */
  function ModelOf(device: string, hdparm: Option<string>, nvme: Option<string>): string {
    match hdparm
    case Some(output) => ModelFromHdparm(output)
    case None =>
      if StartsWith(device, NvmePrefix) && nvme.Some? then ModelFromNvme(nvme.value) else ""
  }

  /**
   * `nvme` is consulted only on the fallback path: when `hdparm` succeeds,
   * or the path is not an NVMe path, its output makes no difference.
   */
  lemma NvmeOnlyOnFallback(device: string, hdparm: Option<string>, nvme1: Option<string>, nvme2: Option<string>)
    requires hdparm.Some? || !StartsWith(device, NvmePrefix)
    ensures ModelOf(device, hdparm, nvme1) == ModelOf(device, hdparm, nvme2)
  {
  }

  /**
   * `hdparm` succeeding without a `Model Number:` line leaves the model
   * empty; the NVMe fallback is not tried.
   */
  lemma HdparmWithoutModelLine(device: string, output: string, nvme: Option<string>)
    requires forall i | 0 <= i < |Split(output, '\n')| :: !Contains(Split(output, '\n')[i], ModelKey)
    ensures ModelOf(device, Some(output), nvme) == ""
  {
    FirstModelNumberIsFirstMatch(Split(output, '\n'));
  }

  /**
   * `get_disk_info` past its block-device guard: `None` when reading the
   * size or the mount table raises; otherwise the size in whole GiB, the
   * substring mount test, the model and the path itself.
   */
  method GetDiskInfo(device: string, sizeBytes: Option<nat>, mountLines: Option<seq<string>>,
                     hdparm: Option<string>, nvme: Option<string>)
    returns (info: Option<Info>)
    ensures info.None? <==> sizeBytes.None? || mountLines.None?
    ensures info.Some? ==> info.value.device == device
    ensures info.Some? ==> info.value.size * GiB <= sizeBytes.value < (info.value.size + 1) * GiB
    ensures info.Some? ==> (info.value.mounted <==>
      exists i | 0 <= i < |mountLines.value| :: Contains(mountLines.value[i], device))
    ensures info.Some? ==> info.value.model == ModelOf(device, hdparm, nvme)
  {
    if sizeBytes.None? {
      return None;
    }
    var sizeGb := SizeGiB(sizeBytes.value);
    if mountLines.None? {
      return None;
    }
    var mounted := IsMounted(device, mountLines.value);
    var model := "";
    if hdparm.Some? {
      model := HdparmModel(hdparm.value);
    } else if StartsWith(device, NvmePrefix) && nvme.Some? {
      model := NvmeModel(nvme.value);
    }
    return Some(Info(sizeGb, mounted, model, device));
  }
}
