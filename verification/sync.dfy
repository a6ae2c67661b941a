/**
 * sync.py: deciding which endpoint is the phone, working out what has to be
 * uploaded and what removed, and building the adb argument lists that apply
 * that delta.
 */
module Sync {
  import opened Wrappers
  import opened PyStr
  import opened PurePaths
  import opened Common
  import opened AdbCommon
  import opened Dicts
  import opened FileStructs
  import LocalWalker
  import RemoteWalker

  // ------------------------------------------------------------------
  // Endpoints
  // ------------------------------------------------------------------

  /** `s.find(':')`: the index of the first colon, or -1 when there is none. */
  function FindColon(s: string): (r: int)
    ensures -1 <= r < |s|
    ensures r == -1 <==> ':' !in s
    ensures r >= 0 ==> s[r] == ':' && ':' !in s[..r]
  {
    if s == [] then -1
    else if s[0] == ':' then 0
    else
      var k := FindColon(s[1..]);
      assert s == [s[0]] + s[1..];
      if k < 0 then -1
      else
        assert s[..k + 1] == [s[0]] + s[1..][..k];
        k + 1
  }

  /**
   * `is_mobile_path`: the first colon sits at index 2 or later. A colon at
   * index 1 is taken for a drive letter, so such a path is local, and so is
   * a path with no colon at all.
   */
  function IsMobilePath(s: string): (r: bool)
    ensures r <==> ':' in s && ':' !in s[..Min(2, |s|)]
  {
    var i := FindColon(s);
    if i > 1 then
      assert s[..Min(2, |s|)] == s[..i][..2];
      true
    else
      assert i >= 0 ==> s[..Min(2, |s|)][i] == ':';
      false
  }

  /** Python's `s[:k]`: a negative `k` counts back from the end. */
  function SliceTo(s: string, k: int): string
  {
    if k >= |s| then s
    else if k >= 0 then s[..k]
    else if |s| + k > 0 then s[..|s| + k]
    else []
  }

  /**
   * `is_valid_mobile_path`, with its ValueError as `false`: the text before
   * the first colon is "remote" or a run of digits.
   */
  predicate IsValidMobilePath(s: string)
  {
    var prefix := SliceTo(s, FindColon(s));
    prefix == "remote" || IsNumeric(prefix)
  }

  /** `s[s.find(':') + 1:]`: the part after the device prefix. */
  function AfterColon(s: string): string
  {
    s[FindColon(s) + 1..]
  }

  /** The device prefix of a phone endpoint: the part before its first colon. */
  function DevicePart(s: string): string
  {
    SliceTo(s, FindColon(s))
  }

  /** A phone endpoint as written on the command line. */
  function PhonePath(device: string, path: string): string
  {
    device + ":" + path
  }

  /**
   * A device prefix `get_diff` accepts: "remote" or digits, and at least two
   * characters long, since a colon at index 1 reads as a drive letter.
   */
  predicate AcceptedDevice(device: string)
  {
    (device == "remote" || IsNumeric(device)) && |device| >= 2
  }

  datatype SyncDirection = PhoneToMachine | MachineToPhone

  /** The reasons `get_diff` raises. */
  datatype SyncError =
    | InvalidMobilePath            // ValueError from `is_valid_mobile_path`
    | NoPhone                      // neither endpoint is a phone path
    | PhoneToPhone                 // both endpoints are phone paths
    | StatFailed(error: StatError) // a stat line the remote walk could not parse

  /**
   * What the first half of `get_diff` settles: the direction, the local and
   * remote roots, and the text the delta's destination is made from.
   */
  datatype Endpoints = Endpoints(direction: SyncDirection, localPath: string, remotePath: string, destination: string)

  /**
   * The endpoint checks of `get_diff`, in the order the code makes them: the
   * source is looked at first, and its device prefix is validated before the
   * destination is checked for being a phone path too.
   */
  function Classify(source: string, destination: string): (r: Result<Endpoints, SyncError>)
    ensures r == Err(NoPhone) <==> !IsMobilePath(source) && !IsMobilePath(destination)
    ensures r == Err(PhoneToPhone) <==> IsMobilePath(source) && IsValidMobilePath(source) && IsMobilePath(destination)
    ensures r == Err(InvalidMobilePath) <==>
      || (IsMobilePath(source) && !IsValidMobilePath(source))
      || (!IsMobilePath(source) && IsMobilePath(destination) && !IsValidMobilePath(destination))
    ensures r.Ok? ==> (r.value.direction == PhoneToMachine <==> IsMobilePath(source))
  {
    if IsMobilePath(source) then
      if !IsValidMobilePath(source) then Err(InvalidMobilePath)
      else if IsMobilePath(destination) then Err(PhoneToPhone)
      else Ok(Endpoints(PhoneToMachine, destination, AfterColon(source), destination))
    else if IsMobilePath(destination) then
      if !IsValidMobilePath(destination) then Err(InvalidMobilePath)
      else
        var stripped := AfterColon(destination);
        // the machine-to-phone half of the phone-to-phone check; the source
        // is known not to be a phone path here, so it never fires
        if IsMobilePath(source) then Err(PhoneToPhone)
        else Ok(Endpoints(MachineToPhone, source, stripped, stripped))
    else Err(NoPhone)
  }

  /** A phone path's device prefix passes `is_valid_mobile_path` exactly when it is an accepted device. */
  lemma ValidMobilePathMeaning(s: string)
    requires IsMobilePath(s)
    ensures IsValidMobilePath(s) <==> AcceptedDevice(DevicePart(s))
    ensures s == PhonePath(DevicePart(s), AfterColon(s))
  {
    var i := FindColon(s);
    assert DevicePart(s) == s[..i];
    assert s == s[..i] + [s[i]] + s[i + 1..];
  }

  /** The device prefix and path of a phone endpoint are read back exactly. */
  lemma PhonePathParts(device: string, path: string)
    requires ':' !in device
    ensures FindColon(PhonePath(device, path)) == |device|
    ensures DevicePart(PhonePath(device, path)) == device
    ensures AfterColon(PhonePath(device, path)) == path
  {
    var s := PhonePath(device, path);
    assert s[..|device|] == device;
    assert s[|device|] == ':';
    assert s[|device| + 1..] == path;
  }

  /** An accepted device prefix never contains a colon. */
  lemma AcceptedDeviceHasNoColon(device: string)
    requires AcceptedDevice(device)
    ensures ':' !in device
  {
  }

  /** `<device>:<path>` as the source, a local destination: phone to machine, with the path as remote root. */
  lemma ClassifyPhoneToMachine(device: string, path: string, local: string)
    requires AcceptedDevice(device) && !IsMobilePath(local)
    ensures Classify(PhonePath(device, path), local) == Ok(Endpoints(PhoneToMachine, local, path, local))
  {
    AcceptedDeviceHasNoColon(device);
    PhonePathParts(device, path);
  }

  /** A local source, `<device>:<path>` as the destination: machine to phone, and the delta goes to the stripped path. */
  lemma ClassifyMachineToPhone(local: string, device: string, path: string)
    requires AcceptedDevice(device) && !IsMobilePath(local)
    ensures Classify(local, PhonePath(device, path)) == Ok(Endpoints(MachineToPhone, local, path, path))
  {
    AcceptedDeviceHasNoColon(device);
    PhonePathParts(device, path);
  }

  /** Conversely, every accepted pair of endpoints is one of the two shapes above. */
  lemma ClassifyOkShape(source: string, destination: string)
    requires Classify(source, destination).Ok?
    ensures var e := Classify(source, destination).value;
      && (e.direction == PhoneToMachine ==>
            && AcceptedDevice(DevicePart(source))
            && source == PhonePath(DevicePart(source), e.remotePath)
            && !IsMobilePath(destination)
            && e.localPath == destination && e.destination == destination)
      && (e.direction == MachineToPhone ==>
            && AcceptedDevice(DevicePart(destination))
            && destination == PhonePath(DevicePart(destination), e.remotePath)
            && !IsMobilePath(source)
            && e.localPath == source && e.destination == e.remotePath)
  {
    if IsMobilePath(source) {
      ValidMobilePathMeaning(source);
    } else {
      ValidMobilePathMeaning(destination);
    }
  }

  /** A one-character device id reads as a drive letter: the endpoint is taken for a local path. */
  lemma ShortDeviceIsLocal(device: string, path: string)
    requires |device| == 1 && ':' !in device
    ensures !IsMobilePath(PhonePath(device, path))
  {
    assert PhonePath(device, path)[..2] == device + ":";
  }

  /** A drive-letter path is local even when a later colon follows. */
  lemma DriveLetterIsLocal(letter: char, rest: string)
    requires letter != ':'
    ensures !IsMobilePath([letter, ':'] + rest)
  {
    assert ([letter, ':'] + rest)[..2] == [letter, ':'];
  }

  // ------------------------------------------------------------------
  // Delta
  // ------------------------------------------------------------------

  /**
   * `Delta`: the direction, where the files go, the entries to upload and
   * the entries to remove, each dict in the order it was built.
   */
  datatype Delta = Delta(direction: SyncDirection, destination: PurePath, upload: Dict<FileStat>, remove: Dict<FileStat>)

  /** Every entry is stored under its own relname, as both walkers store them. */
  predicate KeyedByRelname(d: Dict<FileStat>)
  {
    forall k :: k in d.values ==> d.values[k].relname == k
  }

  lemma {:induction false} InsertKeyed(d: Dict<FileStat>, recs: seq<FileStat>)
    requires KeyedByRelname(d)
    ensures KeyedByRelname(Insert(d, recs))
  {
    if recs != [] {
      InsertKeyed(d, recs[..|recs| - 1]);
    }
  }

  /**
   * `delta_should_add`: the file is missing on the other side, or differs in
   * size there, or is strictly newer here. (The source-side dict the Python
   * function also receives is never read.)
   */
  predicate DeltaShouldAdd(srcFile: FileStat, dest: Dict<FileStat>)
  {
    || srcFile.relname !in dest.values
    || srcFile.size != dest.values[srcFile.relname].size
    || srcFile.mtime > dest.values[srcFile.relname].mtime
  }

  /** The side files are copied from: the machine when pushing, the phone when pulling. */
  function FromSide(direction: SyncDirection, local: Dict<FileStat>, remote: Dict<FileStat>): Dict<FileStat>
  {
    if direction == MachineToPhone then local else remote
  }

  /** The side files are copied to. */
  function ToSide(direction: SyncDirection, local: Dict<FileStat>, remote: Dict<FileStat>): Dict<FileStat>
  {
    if direction == MachineToPhone then remote else local
  }

  /** `update_list` made into a dict: the source-side entries `delta_should_add` picks, in source order. */
  function UploadSet(src: Dict<FileStat>, dst: Dict<FileStat>): (r: Dict<FileStat>)
    requires src.Valid()
    ensures r.Valid()
    ensures forall k :: k in r.values <==> k in src.values && DeltaShouldAdd(src.values[k], dst)
    ensures forall k :: k in r.values ==> r.values[k] == src.values[k]
  {
    Select(src, (k: string, f: FileStat) => DeltaShouldAdd(f, dst))
  }

  /** `delete_list` made into a dict: the destination-side entries whose key the source side lacks, in destination order. */
  function RemoveSet(src: Dict<FileStat>, dst: Dict<FileStat>): (r: Dict<FileStat>)
    requires dst.Valid()
    ensures r.Valid()
    ensures forall k :: k in r.values <==> k in dst.values && k !in src.values
    ensures forall k :: k in r.values ==> r.values[k] == dst.values[k]
  {
    Select(dst, (k: string, f: FileStat) => k !in src.values)
  }

  /** The delta `get_diff` returns once both file lists are known. */
  function ComputeDelta(direction: SyncDirection, destination: string, local: Dict<FileStat>, remote: Dict<FileStat>,
                        deleteFiles: bool): (r: Delta)
    requires local.Valid() && remote.Valid()
    ensures r.upload.Valid() && r.remove.Valid()
    ensures r.direction == direction && r.destination == ParsePath(destination)
    ensures !deleteFiles ==> r.remove.Items() == []
  {
    var src := FromSide(direction, local, remote);
    var dst := ToSide(direction, local, remote);
    Delta(direction, ParsePath(destination), UploadSet(src, dst), if deleteFiles then RemoveSet(src, dst) else EmptyDict())
  }

  /**
   * A key is uploaded exactly when its file is missing on the destination
   * side, differs in size there, or is strictly newer on the source side;
   * the uploaded entry is the source side's, and the upload keeps the source
   * side's order.
   */
  lemma UploadExact(direction: SyncDirection, destination: string, local: Dict<FileStat>, remote: Dict<FileStat>,
                    deleteFiles: bool, k: string)
    requires local.Valid() && remote.Valid() && KeyedByRelname(local) && KeyedByRelname(remote)
    ensures var src, dst := FromSide(direction, local, remote), ToSide(direction, local, remote);
      var up := ComputeDelta(direction, destination, local, remote, deleteFiles).upload;
      && (k in up.values <==>
            && k in src.values
            && (|| k !in dst.values
                || src.values[k].size != dst.values[k].size
                || src.values[k].mtime > dst.values[k].mtime))
      && (k in up.values ==> up.values[k] == src.values[k])
      && up.Items() == FilterItems(src.Items(), (k: string, f: FileStat) => DeltaShouldAdd(f, dst))
  {
  }

  /**
   * With `delete_files` a key is removed exactly when the destination side
   * has it and the source side does not, in destination order; without it
   * nothing is removed.
   */
  lemma RemoveExact(direction: SyncDirection, destination: string, local: Dict<FileStat>, remote: Dict<FileStat>,
                    deleteFiles: bool, k: string)
    requires local.Valid() && remote.Valid()
    ensures var src, dst := FromSide(direction, local, remote), ToSide(direction, local, remote);
      var rm := ComputeDelta(direction, destination, local, remote, deleteFiles).remove;
      && (k in rm.values <==> deleteFiles && k in dst.values && k !in src.values)
      && (k in rm.values ==> rm.values[k] == dst.values[k])
      && (deleteFiles ==> rm.Items() == FilterItems(dst.Items(), (k: string, f: FileStat) => k !in src.values))
  {
  }

  /** A file equal in size and no newer than its counterpart is left alone. */
  lemma UnchangedIsSkipped(srcFile: FileStat, dst: Dict<FileStat>)
    requires srcFile.relname in dst.values
    requires srcFile.size == dst.values[srcFile.relname].size
    requires srcFile.mtime <= dst.values[srcFile.relname].mtime
    ensures !DeltaShouldAdd(srcFile, dst)
  {
  }

  /** A filter that keeps every item keeps the whole sequence. */
  lemma {:induction false} FilterKeepsAll<V>(items: seq<(string, V)>, keep: (string, V) -> bool)
    requires forall i :: 0 <= i < |items| ==> keep(items[i].0, items[i].1)
    ensures FilterItems(items, keep) == items
  {
    if items != [] {
      assert keep(items[0].0, items[0].1);
      FilterKeepsAll(items[1..], keep);
      assert items == [items[0]] + items[1..];
    }
  }

  /**
   * When the remote `find` fails the remote list is empty, so a pull with
   * `delete_files` removes every local file and downloads nothing, and a
   * push uploads every local file.
   */
  lemma EmptyRemoteSide(direction: SyncDirection, destination: string, local: Dict<FileStat>, deleteFiles: bool)
    requires local.Valid()
    ensures var d := ComputeDelta(direction, destination, local, EmptyDict(), deleteFiles);
      && (direction == PhoneToMachine ==> d.upload.Items() == [])
      && (direction == PhoneToMachine && deleteFiles ==> d.remove.Items() == local.Items())
      && (direction == MachineToPhone ==> d.upload.Items() == local.Items())
  {
    var none: Dict<FileStat> := EmptyDict();
    var items := local.Items();
    if direction == PhoneToMachine {
      assert UploadSet(none, local).Items() == FilterItems([], (k: string, f: FileStat) => DeltaShouldAdd(f, local));
      if deleteFiles {
        var keep := (k: string, f: FileStat) => k !in none.values;
        assert RemoveSet(none, local).Items() == FilterItems(items, keep);
        FilterKeepsAll(items, keep);
      }
    } else {
      var keep := (k: string, f: FileStat) => DeltaShouldAdd(f, none);
      assert UploadSet(local, none).Items() == FilterItems(items, keep);
      FilterKeepsAll(items, keep);
    }
  }

  /**
   * The record the destination side holds for `f` once it has been copied
   * under `root`: the same relname, size and modification time (the push is
   * followed by a touch, the pull keeps the time with `-a`).
   */
  function Copied(root: PurePath, f: FileStat): (r: FileStat)
    ensures r.relname == f.relname && r.size == f.size && r.mtime == f.mtime
  {
    FileStat(AsPosix(Div(root, ParsePath(f.relname))), f.relname, f.size, f.mtime)
  }

  /** The destination side's files after the delta is applied: removed keys gone, uploaded files copied over. */
  function Applied(dst: map<string, FileStat>, delta: Delta): (r: map<string, FileStat>)
    ensures forall k :: k in r <==> (k in dst && k !in delta.remove.values) || k in delta.upload.values
  {
    map k | k in (dst.Keys - delta.remove.values.Keys) + delta.upload.values.Keys ::
      if k in delta.upload.values then Copied(delta.destination, delta.upload.values[k]) else dst[k]
  }

  lemma KeyHasValue<V>(d: Dict<V>, i: nat)
    requires d.Valid() && i < |d.keys|
    ensures d.keys[i] in d.values
  {
  }

  /** A valid dict without values is empty. */
  lemma NoValuesNoItems<V>(d: Dict<V>)
    requires d.Valid() && d.values == map[]
    ensures d.Items() == []
  {
    if d.keys != [] {
      KeyHasValue(d, 0);
      assert false;
    }
  }

  /** After the delta is applied, a source-side file no longer needs uploading. */
  lemma UploadedOrUnchanged(src: Dict<FileStat>, dst: Dict<FileStat>, delta: Delta, after: Dict<FileStat>, k: string)
    requires src.Valid() && KeyedByRelname(src) && delta.upload == UploadSet(src, dst)
    requires forall j :: j in delta.remove.values ==> j !in src.values
    requires after.values == Applied(dst.values, delta)
    requires k in src.values
    ensures !DeltaShouldAdd(src.values[k], after)
  {
    var f := src.values[k];
    assert f.relname == k;
    if k in delta.upload.values {
      assert delta.upload.values[k] == f;
      assert after.values[k] == Copied(delta.destination, f);
    } else {
      assert !DeltaShouldAdd(f, dst);
      assert after.values[k] == dst.values[k];
    }
  }

  /** Applying a delta built from `src` and `dst` leaves nothing to upload. */
  lemma NothingLeftToUpload(src: Dict<FileStat>, dst: Dict<FileStat>, delta: Delta, after: Dict<FileStat>)
    requires src.Valid() && KeyedByRelname(src) && after.Valid() && delta.upload == UploadSet(src, dst)
    requires forall j :: j in delta.remove.values ==> j !in src.values
    requires after.values == Applied(dst.values, delta)
    ensures UploadSet(src, after).Items() == []
  {
    var again := UploadSet(src, after);
    forall k | k in again.values
      ensures false
    {
      UploadedOrUnchanged(src, dst, delta, after, k);
    }
    NoValuesNoItems(again);
  }

  /** Applying a delta that removes every key the source side lacks leaves nothing to remove. */
  lemma NothingLeftToRemove(src: Dict<FileStat>, dst: Dict<FileStat>, delta: Delta, after: Dict<FileStat>)
    requires src.Valid() && after.Valid()
    requires forall j :: j in delta.upload.values ==> j in src.values
    requires forall j :: j in dst.values && j !in src.values ==> j in delta.remove.values
    requires after.values == Applied(dst.values, delta)
    ensures RemoveSet(src, after).Items() == []
  {
    var gone := RemoveSet(src, after);
    assert forall k :: k !in gone.values;
    NoValuesNoItems(gone);
  }

  /**
   * Syncing converges for whole-second modification times and copies that
   * keep size and time (`Copied`): once the delta has been applied,
   * comparing the two sides again finds nothing to upload, and with
   * `delete_files` nothing to remove.
   */
  lemma SyncConverges(direction: SyncDirection, destination: string, local: Dict<FileStat>, remote: Dict<FileStat>,
                      after: Dict<FileStat>)
    requires local.Valid() && remote.Valid() && KeyedByRelname(local) && KeyedByRelname(remote)
    requires after.Valid()
    requires after.values == Applied(ToSide(direction, local, remote).values,
                                     ComputeDelta(direction, destination, local, remote, true))
    ensures UploadSet(FromSide(direction, local, remote), after).Items() == []
    ensures RemoveSet(FromSide(direction, local, remote), after).Items() == []
  {
    var src, dst := FromSide(direction, local, remote), ToSide(direction, local, remote);
    var delta := ComputeDelta(direction, destination, local, remote, true);
    forall j
      ensures (j in delta.remove.values <==> j in dst.values && j !in src.values)
      ensures j in delta.upload.values ==> j in src.values
    {
      RemoveExact(direction, destination, local, remote, true, j);
    }
    NothingLeftToUpload(src, dst, delta, after);
    NothingLeftToRemove(src, dst, delta, after);
  }

  /**
   * The device keeps a pushed file's time in whole seconds: `touch` gets it
   * formatted down to `%S`, and `stat` prints it back with `%Y`.
   */
  function DeviceSeconds(localMtime: real): (s: int)
    ensures s as real <= localMtime < s as real + 1.0
  {
    localMtime.Floor
  }

  /** The newer-than test of `delta_should_add` as written: a local `st_mtime` (a float) against the device's seconds. */
  predicate NewerAsWritten(localMtime: real, deviceMtime: int)
  {
    localMtime > deviceMtime as real
  }

  /**
   * As written, a local file whose time has a fractional part is still
   * newer than its own pushed copy, so every machine-to-phone run uploads
   * it again.
   */
  lemma FractionalMtimeReuploads(localMtime: real)
    requires DeviceSeconds(localMtime) as real != localMtime
    ensures NewerAsWritten(localMtime, DeviceSeconds(localMtime))
  {
  }

  /** The same instance, concretely: a file modified at 10.5 s is touched to 10 s and then looks newer. */
  lemma HalfSecondReuploads()
    ensures DeviceSeconds(10.5) == 10
    ensures NewerAsWritten(10.5, DeviceSeconds(10.5))
  {
    FractionalMtimeReuploads(10.5);
  }

  /** The test on whole seconds, which is what the integer times of `FileStat` compare. */
  predicate NewerInSeconds(localMtime: real, deviceMtime: int)
  {
    DeviceSeconds(localMtime) > deviceMtime
  }

  /**
   * Compared in whole seconds, a pushed copy is never newer-than-stale:
   * the test holds against the copy for no time, and holds against any
   * device time exactly when the local second is later.
   */
  lemma WholeSecondsSettle(localMtime: real, deviceMtime: int)
    ensures !NewerInSeconds(localMtime, DeviceSeconds(localMtime))
    ensures NewerInSeconds(localMtime, deviceMtime) <==> localMtime >= (deviceMtime + 1) as real
  {
  }

  // ------------------------------------------------------------------
  // get_diff
  // ------------------------------------------------------------------

  /** What the remote walk harvests: nothing when `find` fails, else the stat chunks up to the first bad line. */
  function RemoteHarvest(path: string, find: AdbResult, stats: seq<AdbResult>): (h: RemoteWalker.Harvest)
    ensures find.errored ==> h.records == [] && h.failure.None?
  {
    if find.errored then RemoteWalker.Harvest([], None, 0) else RemoteWalker.HarvestChunks(path, stats)
  }

  /**
   * `get_diff(source, destination, max_depth, delete_files)`: classify the
   * endpoints, walk the local root over the entries the file system lists
   * and the remote root over the supplied adb results, each into a fresh
   * dict, and compare the two. An unparsable stat line aborts the walk and
   * the diff; a failed `find` only leaves the remote side empty.
   */
  method GetDiff(device: string, source: string, destination: string, maxDepth: int, deleteFiles: bool,
                 listing: seq<LocalWalker.LocalEntry>, find: AdbResult, stats: seq<AdbResult>)
    returns (r: Result<Delta, SyncError>)
    requires Classify(source, destination).Ok? ==>
      && LocalWalker.AllBelow(ParsePath(Classify(source, destination).value.localPath), listing)
      && (!find.errored ==> |stats| == |Chunks(SplitLines(find.output), RemoteWalker.StatBatch)|)
    ensures Classify(source, destination).Err? ==> r == Err(Classify(source, destination).error)
    ensures Classify(source, destination).Ok? ==>
      var e := Classify(source, destination).value;
      var local := Insert(EmptyDict(), LocalWalker.LocalRecords(e.localPath,
                     LocalWalker.Candidates(ParsePath(e.localPath), maxDepth, listing)));
      var h := RemoteHarvest(e.remotePath, find, stats);
      var remote := Insert(EmptyDict(), h.records);
      && (h.failure.Some? ==> r == Err(StatFailed(h.failure.value)))
      && (h.failure.None? ==>
            && local.Valid() && KeyedByRelname(local)
            && remote.Valid() && KeyedByRelname(remote)
            && r == Ok(ComputeDelta(e.direction, e.destination, local, remote, deleteFiles)))
  {
    var c := Classify(source, destination);
    if c.Err? {
      return Err(c.error);
    }
    var e := c.value;
    var localFiles := new FileStatDict();
    LocalWalker.GetLocalFiles(e.localPath, maxDepth, localFiles, listing);
    var remoteFiles := new FileStatDict();
    var issued, failure := RemoteWalker.GetRemoteFiles(device, e.remotePath, maxDepth, remoteFiles, find, stats);
    if failure.Some? {
      return Err(StatFailed(failure.value));
    }
    InsertKeyed(EmptyDict(), LocalWalker.LocalRecords(e.localPath,
      LocalWalker.Candidates(ParsePath(e.localPath), maxDepth, listing)));
    InsertKeyed(EmptyDict(), RemoteHarvest(e.remotePath, find, stats).records);
    r := Ok(ComputeDelta(e.direction, e.destination, localFiles.Model(), remoteFiles.Model(), deleteFiles));
  }

  // ------------------------------------------------------------------
  // Applying the delta
  // ------------------------------------------------------------------

  /** The file names of a run of dict entries, in order. */
  function Filenames(entries: seq<(string, FileStat)>): (r: seq<string>)
    ensures |r| == |entries|
    ensures forall i :: 0 <= i < |entries| ==> r[i] == entries[i].1.filename
  {
    seq(|entries|, i requires 0 <= i < |entries| => entries[i].1.filename)
  }

  /** The argv `del_remote` builds for one chunk: `rm -r` and the chunk's escaped file names. */
  function RmCommand(device: string, chunk: seq<(string, FileStat)>): (r: seq<string>)
    ensures |r| == |MakeAdbCommand(device, "shell")| + 2 + |chunk|
    ensures r[..|r| - |chunk|] == MakeAdbCommand(device, "shell") + ["rm", "-r"]
    ensures r[|r| - |chunk|..] == EscapeAll(Filenames(chunk))
  {
    MakeAdbCommand(device, "shell") + ["rm", "-r"] + EscapeAll(Filenames(chunk))
  }

  /** One `rm` command per chunk, in chunk order. */
  function RmCommands(device: string, chunks: seq<seq<(string, FileStat)>>): (r: seq<seq<string>>)
    ensures |r| == |chunks|
  {
    seq(|chunks|, i requires 0 <= i < |chunks| => RmCommand(device, chunks[i]))
  }

  lemma RmCommandsStep(device: string, chunks: seq<seq<(string, FileStat)>>, i: nat)
    requires i < |chunks|
    ensures RmCommands(device, chunks[..i + 1]) == RmCommands(device, chunks[..i]) + [RmCommand(device, chunks[i])]
  {
    assert chunks[..i + 1][..i] == chunks[..i];
  }

  /** The j-th file argument of an `rm` command reads back as the j-th entry's file name. */
  lemma RmCommandArgument(device: string, chunk: seq<(string, FileStat)>, j: nat)
    requires j < |chunk|
    ensures ShellWord(RmCommand(device, chunk)[|MakeAdbCommand(device, "shell")| + 2 + j], Bare)
         == Some(chunk[j].1.filename)
  {
    var cmd := RmCommand(device, chunk);
    assert cmd[|MakeAdbCommand(device, "shell")| + 2 + j] == EscapeAll(Filenames(chunk))[j] by {
      assert cmd[|MakeAdbCommand(device, "shell")| + 2 + j] == cmd[|cmd| - |chunk|..][j];
    }
    EscapeRoundTrip(chunk[j].1.filename);
  }

  /**
   * The j-th file argument of the i-th `rm` command reads back on the device
   * as the file name of entry i * n + j (`Offset(i, n)` is i * n, see
   * `OffsetIsProduct`): the commands together name every entry to remove
   * once, in the delta's order.
   */
  lemma RmArgumentReadsBack(device: string, entries: seq<(string, FileStat)>, n: nat, i: nat, j: nat)
    requires n > 0 && i < |Chunks(entries, n)| && j < |Chunks(entries, n)[i]|
    ensures Offset(i, n) + j < |entries|
    ensures ShellWord(RmCommands(device, Chunks(entries, n))[i][|MakeAdbCommand(device, "shell")| + 2 + j], Bare)
         == Some(entries[Offset(i, n) + j].1.filename)
  {
    ChunkElement(entries, n, i, j);
    RmCommandArgument(device, Chunks(entries, n)[i], j);
  }

  /**
   * `del_remote(delta, batch_size)` with the entries taken as a list: one
   * `rm -r` command per chunk of the remove set, none in a dry run. A zero
   * batch size makes `range` raise; a negative one gives no chunks.
   */
  method DelRemote(device: string, delta: Delta, batchSize: int, dryRun: bool)
    returns (issued: seq<seq<string>>, failure: Option<PyError>)
    requires delta.remove.Valid()
    ensures failure == (if batchSize == 0 then Some(ValueError) else None)
    ensures batchSize > 0 && !dryRun ==> issued == RmCommands(device, Chunks(delta.remove.Items(), batchSize))
    ensures batchSize <= 0 || dryRun ==> issued == []
  {
    var chunked := PyChunks(ListOf(delta.remove.Items()), batchSize);
    if chunked.Err? {
      return [], Some(chunked.error);
    }
    var chunks := chunked.value;
    issued := [];
    var i := 0;
    while i < |chunks|
      invariant 0 <= i <= |chunks|
      invariant issued == if dryRun then [] else RmCommands(device, chunks[..i])
    {
      var adbCommand := RmCommand(device, chunks[i]);
      RmCommandsStep(device, chunks, i);
      if !dryRun {
        issued := issued + [adbCommand];
      }
      i := i + 1;
    }
    assert chunks[..i] == chunks;
    failure := None;
  }

  /**
   * `del_local(delta)`, with the local file system as the set of paths that
   * exist: every file named in the remove set is gone afterwards (a missing
   * one is no error), and no other file is touched.
   */
  method DelLocal(delta: Delta, present: set<string>) returns (remaining: set<string>)
    requires delta.remove.Valid()
    ensures forall p :: p in remaining <==> p in present && p !in Filenames(delta.remove.Items())
  {
    var entries := delta.remove.Items();
    remaining := present;
    var i := 0;
    while i < |entries|
      invariant 0 <= i <= |entries|
      invariant forall p :: p in remaining <==> p in present && p !in Filenames(entries[..i])
    {
      assert Filenames(entries[..i + 1]) == Filenames(entries[..i]) + [entries[i].1.filename];
      remaining := remaining - {entries[i].1.filename};
      i := i + 1;
    }
    assert entries[..i] == entries;
  }

  /** The argv `send_to_remote` builds to push one file to its place under the destination. */
  function PushCommand(device: string, dest: PurePath, f: FileStat): (r: seq<string>)
    ensures |r| == |MakeAdbCommand(device, "push")| + 2
    ensures r[..|r| - 2] == MakeAdbCommand(device, "push")
  {
    MakeAdbCommand(device, "push") + [f.filename, AsPosix(Div(dest, ParsePath(f.relname)))]
  }

  /** One push per entry of a chunk, in order. */
  function PushCommands(device: string, dest: PurePath, chunk: seq<(string, FileStat)>): (r: seq<seq<string>>)
    ensures |r| == |chunk|
  {
    seq(|chunk|, i requires 0 <= i < |chunk| => PushCommand(device, dest, chunk[i].1))
  }

  /**
   * `[c for c, (errored, _) in zip(chunk, send_result) if not errored]`: the
   * entries whose push went through, in chunk order.
   */
  function Succeeded(chunk: seq<(string, FileStat)>, results: seq<AdbResult>): (r: seq<(string, FileStat)>)
    ensures |r| <= |chunk| && |r| <= |results|
    ensures forall x :: x in r ==> x in chunk
  {
    if chunk == [] || results == [] then []
    else (if results[0].errored then [] else [chunk[0]]) + Succeeded(chunk[1..], results[1..])
  }

  /** An entry is kept exactly when some position holds it with a push that did not fail. */
  lemma {:induction false} SucceededMembers(chunk: seq<(string, FileStat)>, results: seq<AdbResult>, x: (string, FileStat))
    ensures x in Succeeded(chunk, results) <==>
      exists i :: 0 <= i < |chunk| && i < |results| && chunk[i] == x && !results[i].errored
  {
    if chunk != [] && results != [] {
      SucceededMembers(chunk[1..], results[1..], x);
      if x in Succeeded(chunk[1..], results[1..]) {
        var i :| 0 <= i < |chunk[1..]| && i < |results[1..]| && chunk[1..][i] == x && !results[1..][i].errored;
        assert chunk[i + 1] == x && !results[i + 1].errored;
      }
      if exists i :: 0 <= i < |chunk| && i < |results| && chunk[i] == x && !results[i].errored {
        var i :| 0 <= i < |chunk| && i < |results| && chunk[i] == x && !results[i].errored;
        if i > 0 {
          assert chunk[1..][i - 1] == x && !results[1..][i - 1].errored;
        }
      }
    }
  }

  /** When every push of a chunk succeeds, every entry is touched. */
  lemma {:induction false} AllSucceeded(chunk: seq<(string, FileStat)>, results: seq<AdbResult>)
    requires |results| == |chunk| && forall i :: 0 <= i < |results| ==> !results[i].errored
    ensures Succeeded(chunk, results) == chunk
  {
    if chunk != [] {
      AllSucceeded(chunk[1..], results[1..]);
    }
  }

  /** The five tokens `touch_files` emits for one file: set its time, then `;`. */
  function TouchClause(dest: PurePath, f: FileStat, fmt: int -> string): (r: seq<string>)
    ensures |r| == 5
  {
    ["touch", "-cmd", EscapeShStr(fmt(f.mtime)), EscapeShStr(AsPosix(Div(dest, ParsePath(f.relname)))), ";"]
  }

  function TouchClauses(dest: PurePath, files: seq<(string, FileStat)>, fmt: int -> string): (r: seq<seq<string>>)
    ensures |r| == |files|
    ensures forall i :: 0 <= i < |files| ==> r[i] == TouchClause(dest, files[i].1, fmt)
  {
    seq(|files|, i requires 0 <= i < |files| => TouchClause(dest, files[i].1, fmt))
  }

  /**
   * `touch_files(dest, chunk)`: one shell command holding a clause per file.
   * `fmt` stands for formatting a timestamp as local time with
   * `%Y-%m-%d%H:%M:%S`.
   */
  function TouchCommand(device: string, dest: PurePath, files: seq<(string, FileStat)>, fmt: int -> string): (r: seq<string>)
    ensures |MakeAdbCommand(device, "shell")| <= |r|
    ensures r[..|MakeAdbCommand(device, "shell")|] == MakeAdbCommand(device, "shell")
  {
    MakeAdbCommand(device, "shell") + Concat(TouchClauses(dest, files, fmt))
  }

  /** Blocks of five tokens each, laid end to end: block `i` starts at `5 * i`. */
  lemma {:induction false} ConcatOfFives(blocks: seq<seq<string>>, i: nat)
    requires forall k :: 0 <= k < |blocks| ==> |blocks[k]| == 5
    requires i < |blocks|
    ensures |Concat(blocks)| == 5 * |blocks|
    ensures Concat(blocks)[5 * i .. 5 * i + 5] == blocks[i]
    decreases |blocks|
  {
    var rest := Concat(blocks[1..]);
    assert Concat(blocks) == blocks[0] + rest;
    if i == 0 {
      if |blocks| > 1 {
        ConcatOfFives(blocks[1..], 0);
      }
    } else {
      ConcatOfFives(blocks[1..], i - 1);
      assert blocks[1..][i - 1] == blocks[i];
      assert Concat(blocks)[5 * i .. 5 * i + 5] == rest[5 * (i - 1) .. 5 * (i - 1) + 5];
    }
  }

  /** After a prefix, block `i` of five-token blocks starts at `5 * i`. */
  lemma PrefixThenFives(prefix: seq<string>, blocks: seq<seq<string>>, i: nat)
    requires forall k :: 0 <= k < |blocks| ==> |blocks[k]| == 5
    requires i < |blocks|
    ensures |prefix + Concat(blocks)| == |prefix| + 5 * |blocks|
    ensures (prefix + Concat(blocks))[|prefix| + 5 * i .. |prefix| + 5 * i + 5] == blocks[i]
  {
    ConcatOfFives(blocks, i);
    SliceAfterPrefix(prefix, Concat(blocks), 5 * i, 5 * i + 5);
  }

  /** The i-th file's clause sits at offset 5 * i after the shell prefix. */
  lemma TouchClauseAt(device: string, dest: PurePath, files: seq<(string, FileStat)>, fmt: int -> string, i: nat)
    requires i < |files|
    ensures var cmd := TouchCommand(device, dest, files, fmt);
      var p := |MakeAdbCommand(device, "shell")|;
      && |cmd| == p + 5 * |files|
      && cmd[p + 5 * i .. p + 5 * i + 5] == TouchClause(dest, files[i].1, fmt)
  {
    PrefixThenFives(MakeAdbCommand(device, "shell"), TouchClauses(dest, files, fmt), i);
  }

  lemma FiveAt(s: seq<string>, o: nat, c: seq<string>)
    requires o + 5 <= |s| && |c| == 5 && s[o .. o + 5] == c
    ensures s[o] == c[0] && s[o + 1] == c[1] && s[o + 2] == c[2] && s[o + 3] == c[3] && s[o + 4] == c[4]
  {
    assert s[o .. o + 5][0] == s[o];
  }

  /** The escaped time and path of a clause read back as the formatted time and the pushed-to path. */
  lemma TouchClauseReadsBack(dest: PurePath, f: FileStat, fmt: int -> string)
    ensures ShellWord(TouchClause(dest, f, fmt)[2], Bare) == Some(fmt(f.mtime))
    ensures ShellWord(TouchClause(dest, f, fmt)[3], Bare) == Some(Copied(dest, f).filename)
  {
    EscapeRoundTrip(fmt(f.mtime));
    EscapeRoundTrip(AsPosix(Div(dest, ParsePath(f.relname))));
  }

  /**
   * The touch command is the shell prefix and then, for the i-th file, the
   * five tokens `touch -cmd <time> <path> ;` where the time reads back as the
   * file's formatted modification time and the path as the place it was
   * pushed to.
   */
  lemma TouchCommandLayout(device: string, dest: PurePath, files: seq<(string, FileStat)>, fmt: int -> string, i: nat)
    requires i < |files|
    ensures var cmd := TouchCommand(device, dest, files, fmt);
      var p := |MakeAdbCommand(device, "shell")|;
      && |cmd| == p + 5 * |files|
      && cmd[p + 5 * i] == "touch" && cmd[p + 5 * i + 1] == "-cmd"
      && ShellWord(cmd[p + 5 * i + 2], Bare) == Some(fmt(files[i].1.mtime))
      && ShellWord(cmd[p + 5 * i + 3], Bare) == Some(Copied(dest, files[i].1).filename)
      && cmd[p + 5 * i + 4] == ";"
  {
    var cmd := TouchCommand(device, dest, files, fmt);
    var p := |MakeAdbCommand(device, "shell")|;
    var clause := TouchClause(dest, files[i].1, fmt);
    TouchClauseAt(device, dest, files, fmt, i);
    FiveAt(cmd, p + 5 * i, clause);
    TouchClauseReadsBack(dest, files[i].1, fmt);
  }

  /**
   * The commands `send_to_remote` issues for its chunks: per chunk, a push
   * for every entry, then one touch command for the entries whose push
   * succeeded (issued even when none did).
   */
  function SendCommands(device: string, dest: PurePath, chunks: seq<seq<(string, FileStat)>>,
                        results: seq<seq<AdbResult>>, fmt: int -> string): seq<seq<string>>
    requires |results| == |chunks|
  {
    if chunks == [] then []
    else
      var n := |chunks| - 1;
      SendCommands(device, dest, chunks[..n], results[..n], fmt)
      + PushCommands(device, dest, chunks[n])
      + [TouchCommand(device, dest, Succeeded(chunks[n], results[n]), fmt)]
  }

  /** What one chunk contributes to `send_to_remote`: a push per entry, in order, then one touch. */
  function SendBlock(device: string, dest: PurePath, chunk: seq<(string, FileStat)>, results: seq<AdbResult>,
                     fmt: int -> string): (r: seq<seq<string>>)
    ensures |r| == |chunk| + 1
    ensures r[..|chunk|] == PushCommands(device, dest, chunk)
  {
    PushCommands(device, dest, chunk) + [TouchCommand(device, dest, Succeeded(chunk, results), fmt)]
  }

  function SendBlocks(device: string, dest: PurePath, chunks: seq<seq<(string, FileStat)>>,
                      results: seq<seq<AdbResult>>, fmt: int -> string): (r: seq<seq<seq<string>>>)
    requires |results| == |chunks|
    ensures |r| == |chunks|
  {
    seq(|chunks|, i requires 0 <= i < |chunks| => SendBlock(device, dest, chunks[i], results[i], fmt))
  }

  /**
   * The commands `send_to_remote` issues are its chunks' blocks, one after
   * the other: every chunk's pushes come before the next chunk's, and each
   * chunk's touch comes right after its own pushes.
   */
  lemma {:induction false} SendCommandsBlocks(device: string, dest: PurePath, chunks: seq<seq<(string, FileStat)>>,
                                              results: seq<seq<AdbResult>>, fmt: int -> string)
    requires |results| == |chunks|
    ensures SendCommands(device, dest, chunks, results, fmt) == Concat(SendBlocks(device, dest, chunks, results, fmt))
  {
    if chunks != [] {
      var n := |chunks| - 1;
      var blocks := SendBlocks(device, dest, chunks, results, fmt);
      SendCommandsBlocks(device, dest, chunks[..n], results[..n], fmt);
      assert blocks[..n] == SendBlocks(device, dest, chunks[..n], results[..n], fmt);
      InitLast(blocks);
      ConcatSnoc(blocks[..n], blocks[n]);
    }
  }

  /** One push per entry and one touch per chunk: |entries| + |chunks| commands. */
  lemma {:induction false} SendCount(device: string, dest: PurePath, chunks: seq<seq<(string, FileStat)>>,
                                     results: seq<seq<AdbResult>>, fmt: int -> string)
    requires |results| == |chunks|
    ensures |SendCommands(device, dest, chunks, results, fmt)| == |Concat(chunks)| + |chunks|
  {
    if chunks != [] {
      var n := |chunks| - 1;
      var init := SendCommands(device, dest, chunks[..n], results[..n], fmt);
      var pushes := PushCommands(device, dest, chunks[n]);
      var touch := TouchCommand(device, dest, Succeeded(chunks[n], results[n]), fmt);
      assert SendCommands(device, dest, chunks, results, fmt) == init + pushes + [touch];
      SendCount(device, dest, chunks[..n], results[..n], fmt);
      InitLast(chunks);
      ConcatSnoc(chunks[..n], chunks[n]);
      assert |Concat(chunks)| == |Concat(chunks[..n])| + |chunks[n]|;
    }
  }

  lemma SendCommandsStep(device: string, dest: PurePath, chunks: seq<seq<(string, FileStat)>>,
                         results: seq<seq<AdbResult>>, fmt: int -> string, i: nat)
    requires |results| == |chunks| && i < |chunks|
    ensures SendCommands(device, dest, chunks[..i + 1], results[..i + 1], fmt)
         == SendCommands(device, dest, chunks[..i], results[..i], fmt)
            + PushCommands(device, dest, chunks[i])
            + [TouchCommand(device, dest, Succeeded(chunks[i], results[i]), fmt)]
  {
    assert chunks[..i + 1][..i] == chunks[..i];
    assert results[..i + 1][..i] == results[..i];
  }

  /**
   * `send_to_remote(delta, batch_size)` with the entries taken as a list and
   * the outcome of every push supplied per chunk: pushes and touches as
   * `SendCommands` lays them out, nothing in a dry run.
   */
  method SendToRemote(device: string, delta: Delta, batchSize: int, dryRun: bool, fmt: int -> string,
                      pushResults: seq<seq<AdbResult>>)
    returns (issued: seq<seq<string>>, failure: Option<PyError>)
    requires delta.upload.Valid()
    requires batchSize > 0 && !dryRun ==> |pushResults| == |Chunks(delta.upload.Items(), batchSize)|
    ensures failure == (if batchSize == 0 then Some(ValueError) else None)
    ensures batchSize > 0 && !dryRun ==>
      issued == SendCommands(device, delta.destination, Chunks(delta.upload.Items(), batchSize), pushResults, fmt)
    ensures batchSize <= 0 || dryRun ==> issued == []
  {
    var chunked := PyChunks(ListOf(delta.upload.Items()), batchSize);
    if chunked.Err? {
      return [], Some(chunked.error);
    }
    var chunks := chunked.value;
    issued := [];
    var i := 0;
    while i < |chunks|
      invariant 0 <= i <= |chunks|
      invariant dryRun ==> issued == []
      invariant !dryRun ==> issued == SendCommands(device, delta.destination, chunks[..i], pushResults[..i], fmt)
    {
      var sendQueue := if dryRun then [] else PushCommands(device, delta.destination, chunks[i]);
      var sendResult := if dryRun then [] else pushResults[i];
      var filteredChunk := Succeeded(chunks[i], sendResult);
      issued := issued + sendQueue;
      if !dryRun {
        issued := issued + [TouchCommand(device, delta.destination, filteredChunk, fmt)];
        SendCommandsStep(device, delta.destination, chunks, pushResults, fmt, i);
      }
      i := i + 1;
    }
    assert chunks[..i] == chunks;
    if !dryRun && batchSize > 0 {
      assert pushResults[..i] == pushResults;
    }
    failure := None;
  }

  /** The argv `send_to_local` builds to pull one file, keeping its time, to its place under the destination. */
  function PullCommand(device: string, dest: PurePath, f: FileStat): (r: seq<string>)
    ensures |r| == |MakeAdbCommand(device, "pull")| + 3
    ensures r[..|r| - 3] == MakeAdbCommand(device, "pull")
  {
    MakeAdbCommand(device, "pull") + ["-a", f.filename, AsPosix(Div(dest, ParsePath(f.relname)))]
  }

  function PullCommands(device: string, dest: PurePath, entries: seq<(string, FileStat)>): (r: seq<seq<string>>)
    ensures |r| == |entries|
  {
    seq(|entries|, i requires 0 <= i < |entries| => PullCommand(device, dest, entries[i].1))
  }

  lemma PullCommandsAppend(device: string, dest: PurePath, a: seq<(string, FileStat)>, b: seq<(string, FileStat)>)
    ensures PullCommands(device, dest, a + b) == PullCommands(device, dest, a) + PullCommands(device, dest, b)
  {
  }

  /** Both transfers copy a file from its own name to the place `Copied` gives it. */
  lemma TransferTargets(device: string, dest: PurePath, f: FileStat)
    ensures var push := PushCommand(device, dest, f);
      push[|push| - 2] == f.filename && push[|push| - 1] == Copied(dest, f).filename
    ensures var pull := PullCommand(device, dest, f);
      pull[|pull| - 3] == "-a" && pull[|pull| - 2] == f.filename && pull[|pull| - 1] == Copied(dest, f).filename
  {
  }

  /**
   * `send_to_local(delta, batch_size)` with the entries taken as a list:
   * one pull per entry of the upload set, in its order, however the entries
   * are chunked; nothing in a dry run.
   */
  method SendToLocal(device: string, delta: Delta, batchSize: int, dryRun: bool)
    returns (issued: seq<seq<string>>, failure: Option<PyError>)
    requires delta.upload.Valid()
    ensures failure == (if batchSize == 0 then Some(ValueError) else None)
    ensures batchSize > 0 && !dryRun ==> issued == PullCommands(device, delta.destination, delta.upload.Items())
    ensures batchSize <= 0 || dryRun ==> issued == []
  {
    var chunked := PyChunks(ListOf(delta.upload.Items()), batchSize);
    if chunked.Err? {
      return [], Some(chunked.error);
    }
    var chunks := chunked.value;
    issued := [];
    var i := 0;
    while i < |chunks|
      invariant 0 <= i <= |chunks|
      invariant issued == if dryRun then [] else PullCommands(device, delta.destination, Concat(chunks[..i]))
    {
      ConcatPrefixStep(chunks, i);
      PullCommandsAppend(device, delta.destination, Concat(chunks[..i]), chunks[i]);
      if !dryRun {
        issued := issued + PullCommands(device, delta.destination, chunks[i]);
      }
      i := i + 1;
    }
    assert chunks[..i] == chunks;
    if batchSize > 0 {
      ChunksConcat(delta.upload.Items(), batchSize);
    }
    failure := None;
  }

  /**
   * As written, `del_remote` and `send_to_remote` hand `chunks` the
   * `dict.items()` view itself, and slicing it raises TypeError as soon as
   * there is anything to remove or upload; taken as a list, the same entries
   * chunk as intended.
   */
  lemma ItemsViewCannotBeChunked(delta: Delta, batchSize: int)
    requires delta.remove.Valid() && delta.upload.Valid() && batchSize > 0
    ensures |delta.remove.Items()| > 0 ==> PyChunks(ItemsView(delta.remove.Items()), batchSize) == Err(TypeError)
    ensures |delta.upload.Items()| > 0 ==> PyChunks(ItemsView(delta.upload.Items()), batchSize) == Err(TypeError)
    ensures PyChunks(ListOf(delta.remove.Items()), batchSize) == Ok(Chunks(delta.remove.Items(), batchSize))
    ensures PyChunks(ListOf(delta.upload.Items()), batchSize) == Ok(Chunks(delta.upload.Items(), batchSize))
  {
  }
}
