/**
 * remotewalker.py: listing the files below a directory on the device with
 * one `find`, then reading their size and time with one `stat` per chunk of
 * 100 names, and filling a relname-keyed dict in place.
 */
module RemoteWalker {
  import opened Wrappers
  import opened PyStr
  import opened PurePaths
  import opened AdbCommon
  import opened Common
  import opened Dicts
  import opened FileStructs

  /** How many file names one `stat` invocation receives. */
  const StatBatch: nat := 100

  /** The format `stat` prints each file in: name, size, time, separated by ':'. */
  const StatFormat: string := "%N:%s:%Y"

  /** `adb [-t dev] shell find <path> -type f -maxdepth <max_depth>`. */
  function FindCommand(device: string, path: string, maxDepth: int): (r: seq<string>)
    ensures |r| == |MakeAdbCommand(device, "shell")| + 6
    ensures r[..|r| - 6] == MakeAdbCommand(device, "shell")
    ensures r[|r| - 6..] == ["find", path, "-type", "f", "-maxdepth", IntToString(maxDepth)]
  {
    MakeAdbCommand(device, "shell") + ["find", path, "-type", "f", "-maxdepth", IntToString(maxDepth)]
  }

  /** `adb [-t dev] shell stat -c %N:%s:%Y <names...>`, each name escaped. */
  function StatCommand(device: string, names: seq<string>): (r: seq<string>)
    ensures |r| == |MakeAdbCommand(device, "shell")| + 3 + |names|
    ensures r[..|r| - |names|] == MakeAdbCommand(device, "shell") + ["stat", "-c", StatFormat]
    ensures r[|r| - |names|..] == EscapeAll(names)
  {
    MakeAdbCommand(device, "shell") + ["stat", "-c", StatFormat] + EscapeAll(names)
  }

  /**
   * The j-th name argument of the i-th `stat` command reads back on the
   * device as line i * 100 + j of the `find` output: the stat commands
   * together name every listed file once, in listing order.
   */
  lemma StatArgumentReadsBack(device: string, findLines: seq<string>, i: nat, j: nat)
    requires i < |Chunks(findLines, StatBatch)| && j < |Chunks(findLines, StatBatch)[i]|
    ensures var cmd := StatCommand(device, Chunks(findLines, StatBatch)[i]);
      && i * StatBatch + j < |findLines|
      && ShellWord(cmd[|MakeAdbCommand(device, "shell")| + 3 + j], Bare) == Some(findLines[i * StatBatch + j])
  {
    var slice := Chunks(findLines, StatBatch)[i];
    assert slice[j] == findLines[i * StatBatch + j] by {
      ChunkAt(findLines, StatBatch, i);
    }
    var cmd := StatCommand(device, slice);
    assert cmd[|MakeAdbCommand(device, "shell")| + 3 + j] == EscapeShStr(slice[j]) by {
      assert cmd[|MakeAdbCommand(device, "shell")| + 3 + j] == cmd[|cmd| - |slice|..][j];
    }
    EscapeRoundTrip(slice[j]);
  }

  /** One `stat` command per chunk, in chunk order. */
  function StatCommands(device: string, slices: seq<seq<string>>): (r: seq<seq<string>>)
    ensures |r| == |slices|
  {
    seq(|slices|, i requires 0 <= i < |slices| => StatCommand(device, slices[i]))
  }

  lemma StatCommandsStep(device: string, slices: seq<seq<string>>, i: nat)
    requires i < |slices|
    ensures StatCommands(device, slices[..i + 1]) == StatCommands(device, slices[..i]) + [StatCommand(device, slices[i])]
  {
    assert slices[..i + 1][..i] == slices[..i];
  }

  /**
   * Results consumed in order up to the first error: the values before it,
   * and that error.
   */
  function TakeOk<T, E>(results: seq<Result<T, E>>): (r: (seq<T>, Option<E>))
    ensures |r.0| <= |results|
    ensures r.1.None? <==> |r.0| == |results|
  {
    if results == [] then ([], None)
    else
      var before := TakeOk(results[..|results| - 1]);
      var last := results[|results| - 1];
      if before.1.Some? then before
      else if last.Err? then (before.0, Some(last.error))
      else (before.0 + [last.value], None)
  }

  /**
   * The values taken are the leading `Ok` results, and the error is the
   * first `Err` among them.
   */
  lemma {:induction false} TakeOkSound<T, E>(results: seq<Result<T, E>>)
    ensures var r := TakeOk(results);
      && (forall i :: 0 <= i < |r.0| ==> results[i] == Ok(r.0[i]))
      && (r.1.Some? ==> results[|r.0|] == Err(r.1.value))
  {
    if results != [] {
      TakeOkSound(results[..|results| - 1]);
    }
  }

  /** One more result after a prefix that holds no error. */
  lemma TakeOkStep<T, E>(results: seq<Result<T, E>>, j: nat)
    requires j < |results| && TakeOk(results[..j]).1.None?
    ensures var before := TakeOk(results[..j]).0;
      TakeOk(results[..j + 1]) ==
        if results[j].Err? then (before, Some(results[j].error)) else (before + [results[j].value], None)
  {
    assert results[..j + 1][..j] == results[..j];
  }

  /** Once a prefix of the results holds an error, the later ones are never read. */
  lemma {:induction false} TakeOkStops<T, E>(results: seq<Result<T, E>>, k: nat)
    requires k <= |results| && TakeOk(results[..k]).1.Some?
    ensures TakeOk(results) == TakeOk(results[..k])
    decreases |results| - k
  {
    if k < |results| {
      assert results[..k + 1][..k] == results[..k];
      TakeOkStops(results, k + 1);
    } else {
      assert results[..k] == results;
    }
  }

  /** `RemoteFileStat(path, line, ':')` for each line of one `stat` output. */
  function ParseEach(root: string, lines: seq<string>): (r: seq<Result<FileStat, StatError>>)
    ensures |r| == |lines|
  {
    seq(|lines|, i requires 0 <= i < |lines| => RemoteFileStat(root, lines[i], ':'))
  }

  /**
   * What the stat chunks yield: the records inserted, the exception that
   * stopped the walk if any, and how many `stat` commands were issued.
   */
  datatype Harvest = Harvest(records: seq<FileStat>, failure: Option<StatError>, statsRun: nat)

  /** One `stat` chunk's outcome: None when the command failed, else each output line parsed. */
  type Outcome = Option<seq<Result<FileStat, StatError>>>

  function Outcomes(root: string, stats: seq<AdbResult>): (r: seq<Outcome>)
    ensures |r| == |stats|
    ensures forall i :: 0 <= i < |stats| ==> (r[i].None? <==> stats[i].errored)
  {
    seq(|stats|, i requires 0 <= i < |stats| =>
      if stats[i].errored then None else Some(ParseEach(root, SplitLines(stats[i].output))))
  }

  /**
   * The stat phase over the chunks' outcomes in order: a failed chunk adds
   * nothing and the walk goes on; a line that fails to parse stops it.
   */
  function HarvestOutcomes(outcomes: seq<Outcome>): (h: Harvest)
    ensures h.statsRun <= |outcomes|
    ensures h.failure.None? ==> h.statsRun == |outcomes|
    ensures h.statsRun > 0 || outcomes == []
  {
    if outcomes == [] then Harvest([], None, 0)
    else
      var before := HarvestOutcomes(outcomes[..|outcomes| - 1]);
      var last := outcomes[|outcomes| - 1];
      if before.failure.Some? then before
      else if last.None? then Harvest(before.records, None, |outcomes|)
      else
        var taken := TakeOk(last.value);
        Harvest(before.records + taken.0, taken.1, |outcomes|)
  }

  /** The stat phase over the results of the `stat` commands. */
  function HarvestChunks(root: string, stats: seq<AdbResult>): Harvest
  {
    HarvestOutcomes(Outcomes(root, stats))
  }

  /** One more chunk after a prefix that has not failed. */
  lemma HarvestStep(outcomes: seq<Outcome>, i: nat)
    requires i < |outcomes| && HarvestOutcomes(outcomes[..i]).failure.None?
    ensures var before := HarvestOutcomes(outcomes[..i]);
      HarvestOutcomes(outcomes[..i + 1]) ==
        if outcomes[i].None? then Harvest(before.records, None, i + 1)
        else Harvest(before.records + TakeOk(outcomes[i].value).0, TakeOk(outcomes[i].value).1, i + 1)
  {
    assert outcomes[..i + 1][..i] == outcomes[..i];
  }

  /** Once a prefix of the chunks has failed, the later chunks are never read. */
  lemma {:induction false} HarvestStops(outcomes: seq<Outcome>, k: nat)
    requires k <= |outcomes| && HarvestOutcomes(outcomes[..k]).failure.Some?
    ensures HarvestOutcomes(outcomes) == HarvestOutcomes(outcomes[..k])
    decreases |outcomes| - k
  {
    if k < |outcomes| {
      assert outcomes[..k + 1][..k] == outcomes[..k];
      HarvestStops(outcomes, k + 1);
    } else {
      assert outcomes[..k] == outcomes;
    }
  }

  /**
   * The inner loop of `get_remote_files`: each line of one `stat` output is
   * parsed and stored under its relname, until a line raises.
   */
  method StoreStatLines(path: string, lines: seq<string>, outputDict: FileStatDict)
    returns (failure: Option<StatError>)
    requires outputDict.Valid()
    modifies outputDict
    ensures outputDict.Valid()
    ensures var taken := TakeOk(ParseEach(path, lines));
      && failure == taken.1
      && outputDict.Model() == Insert(old(outputDict.Model()), taken.0)
  {
    ghost var start := outputDict.Model();
    ghost var parses := ParseEach(path, lines);
    failure := None;
    var j := 0;
    while j < |lines|
      invariant 0 <= j <= |lines|
      invariant outputDict.Valid()
      invariant TakeOk(parses[..j]).1.None?
      invariant outputDict.Model() == Insert(start, TakeOk(parses[..j]).0)
    {
      var parsed := RemoteFileStat(path, lines[j], ':');
      assert parses[j] == parsed;
      TakeOkStep(parses, j);
      if parsed.Err? {
        failure := Some(parsed.error);
        TakeOkStops(parses, j + 1);
        return;
      }
      var fileStat := parsed.value;
      InsertSnoc(start, TakeOk(parses[..j]).0, fileStat);
      outputDict.SetItem(fileStat.relname, fileStat);
      j := j + 1;
    }
    assert parses[..j] == parses;
  }

  /**
   * The loop of `get_remote_files` over the chunks of the `find` output:
   * one `stat` per chunk, whose result (given in `stats`) is skipped when
   * errored and otherwise stored line by line; a line that raises ends it.
   */
  method StatChunks(device: string, path: string, slices: seq<seq<string>>, outputDict: FileStatDict,
                    stats: seq<AdbResult>)
    returns (issued: seq<seq<string>>, failure: Option<StatError>)
    requires outputDict.Valid()
    requires |stats| == |slices|
    modifies outputDict
    ensures outputDict.Valid()
    ensures var h := HarvestChunks(path, stats);
      && issued == StatCommands(device, slices[..h.statsRun])
      && failure == h.failure
      && outputDict.Model() == Insert(old(outputDict.Model()), h.records)
  {
    issued := [];
    failure := None;
    ghost var start := outputDict.Model();
    ghost var outcomes := Outcomes(path, stats);
    var i := 0;
    while i < |slices|
      invariant 0 <= i <= |slices|
      invariant outputDict.Valid()
      invariant failure.None? && HarvestOutcomes(outcomes[..i]).failure.None?
      invariant outputDict.Model() == Insert(start, HarvestOutcomes(outcomes[..i]).records)
      invariant issued == StatCommands(device, slices[..i])
    {
      var adbCommand := StatCommand(device, slices[i]);
      StatCommandsStep(device, slices, i);
      issued := issued + [adbCommand];
      ghost var before := HarvestOutcomes(outcomes[..i]);
      HarvestStep(outcomes, i);
      var result := stats[i];
      if !result.errored {
        ghost var taken := TakeOk(ParseEach(path, SplitLines(result.output)));
        assert outcomes[i] == Some(ParseEach(path, SplitLines(result.output)));
        failure := StoreStatLines(path, SplitLines(result.output), outputDict);
        InsertAppend(start, before.records, taken.0);
        if failure.Some? {
          HarvestStops(outcomes, i + 1);
          assert HarvestChunks(path, stats).statsRun == i + 1;
          return;
        }
      }
      i := i + 1;
    }
    assert outcomes[..i] == outcomes;
    assert slices[..i] == slices;
  }

  /**
   * `get_remote_files(path, max_depth, output_dict)` with the results of the
   * commands it issues given as inputs (`find`, then one per stat chunk).
   * When `find` fails the dict is left as it was and no `stat` is issued;
   * otherwise the dict receives the harvested records in order, and a line
   * that fails to parse stops the walk with its exception.
   */
  method GetRemoteFiles(device: string, path: string, maxDepth: int, outputDict: FileStatDict,
                        find: AdbResult, stats: seq<AdbResult>)
    returns (issued: seq<seq<string>>, failure: Option<StatError>)
    requires outputDict.Valid()
    requires !find.errored ==> |stats| == |Chunks(SplitLines(find.output), StatBatch)|
    modifies outputDict
    ensures outputDict.Valid()
    ensures find.errored ==>
      && issued == [FindCommand(device, path, maxDepth)]
      && failure.None?
      && outputDict.Model() == old(outputDict.Model())
    ensures !find.errored ==>
      var h := HarvestChunks(path, stats);
      && issued == [FindCommand(device, path, maxDepth)]
                   + StatCommands(device, Chunks(SplitLines(find.output), StatBatch)[..h.statsRun])
      && failure == h.failure
      && outputDict.Model() == Insert(old(outputDict.Model()), h.records)
  {
    var findCommand := FindCommand(device, path, maxDepth);
    if find.errored {
      return [findCommand], None;
    }
    var slices := Chunks(SplitLines(find.output), StatBatch);
    var statCommands;
    statCommands, failure := StatChunks(device, path, slices, outputDict, stats);
    issued := [findCommand] + statCommands;
  }

  /** A file as the device reports it: name, size, modification time. */
  datatype DeviceFile = DeviceFile(name: string, size: int, mtime: int)

  /** The text `stat -c %N:%s:%Y` prints for some files: one line each. */
  function StatOutput(files: seq<DeviceFile>): string
  {
    Join(seq(|files|, i requires 0 <= i < |files| => StatLine(files[i].name, files[i].size, files[i].mtime)) + [""], '\n')
  }

  /** A file name the walk can key: below the root, without ':' or a newline. */
  predicate Keyable(root: string, f: DeviceFile)
  {
    ':' !in f.name && '\n' !in f.name && RelativeTo(ParsePath(f.name), ParsePath(root)).Some?
  }

  /** The record the walk should produce for a file. */
  function Expected(root: string, f: DeviceFile): FileStat
    requires Keyable(root, f)
  {
    FileStat(f.name, AsPosix(RelativeTo(ParsePath(f.name), ParsePath(root)).value), f.size, f.mtime)
  }

  predicate AllKeyable(root: string, files: seq<DeviceFile>)
  {
    forall i :: 0 <= i < |files| ==> Keyable(root, files[i])
  }

  function ExpectedAll(root: string, files: seq<DeviceFile>): (r: seq<FileStat>)
    requires AllKeyable(root, files)
    ensures |r| == |files| && forall i :: 0 <= i < |files| ==> r[i] == Expected(root, files[i])
  {
    seq(|files|, i requires 0 <= i < |files| => Expected(root, files[i]))
  }

  /** Results that are all `Ok` are consumed to the end, giving their values. */
  lemma TakeOkAllOk(results: seq<Result<FileStat, StatError>>, values: seq<FileStat>)
    requires |values| == |results|
    requires forall i :: 0 <= i < |results| ==> results[i] == Ok(values[i])
    ensures TakeOk(results) == (values, None)
  {
    var r := TakeOk(results);
    TakeOkSound(results);
    assert r.1.None?;
    assert r.0 == values;
  }

  /** The numbers `stat` prints hold no newline. */
  lemma IntHasNoNewline(i: int)
    ensures '\n' !in IntToString(i)
  {
    var a := IntToString(i);
    assert forall k :: 0 <= k < |a| ==> a[k] != '\n';
  }

  /** The line `stat` prints for a keyable file is one line, and parses to its record. */
  lemma StatLineOfFile(root: string, f: DeviceFile)
    requires Keyable(root, f)
    ensures '\n' !in StatLine(f.name, f.size, f.mtime)
    ensures RemoteFileStat(root, StatLine(f.name, f.size, f.mtime), ':') == Ok(Expected(root, f))
  {
    StatLineRoundTrip(root, f.name, f.size, f.mtime);
    IntHasNoNewline(f.size);
    IntHasNoNewline(f.mtime);
  }

  /** Every line of a well-formed stat output parses, giving each file's record in order. */
  lemma ParseStatOutput(root: string, files: seq<DeviceFile>)
    requires AllKeyable(root, files)
    ensures TakeOk(ParseEach(root, SplitLines(StatOutput(files)))) == (ExpectedAll(root, files), None)
  {
    var lines := seq(|files|, i requires 0 <= i < |files| => StatLine(files[i].name, files[i].size, files[i].mtime));
    var expected := ExpectedAll(root, files);
    forall i | 0 <= i < |lines|
      ensures '\n' !in lines[i]
      ensures ParseEach(root, lines)[i] == Ok(expected[i])
    {
      StatLineOfFile(root, files[i]);
    }
    SplitLinesOfTerminated(lines);
    TakeOkAllOk(ParseEach(root, lines), expected);
  }

  /** Every chunk's `stat` succeeds and prints that chunk's files. */
  function HealthyStats(slices: seq<seq<DeviceFile>>): (r: seq<AdbResult>)
    ensures |r| == |slices|
    ensures forall i :: 0 <= i < |slices| ==> r[i] == AdbResult(false, StatOutput(slices[i]))
  {
    seq(|slices|, i requires 0 <= i < |slices| => AdbResult(false, StatOutput(slices[i])))
  }

  lemma AllKeyableSplit(root: string, a: seq<DeviceFile>, b: seq<DeviceFile>)
    requires AllKeyable(root, a + b)
    ensures AllKeyable(root, a) && AllKeyable(root, b)
    ensures ExpectedAll(root, a + b) == ExpectedAll(root, a) + ExpectedAll(root, b)
  {
    assert forall k :: 0 <= k < |a| ==> a[k] == (a + b)[k];
    assert forall k :: 0 <= k < |b| ==> b[k] == (a + b)[|a| + k];
  }

  lemma HealthyOutcomesStep(root: string, slices: seq<seq<DeviceFile>>)
    requires slices != []
    ensures var outcomes := Outcomes(root, HealthyStats(slices)); var n := |slices|;
      && outcomes[..n - 1] == Outcomes(root, HealthyStats(slices[..n - 1]))
      && outcomes[n - 1] == Some(ParseEach(root, SplitLines(StatOutput(slices[n - 1]))))
  {
  }

  /**
   * A walk on a device whose every `stat` succeeds harvests exactly the
   * listed files' records, in listing order, and stops on nothing: the
   * chunking loses and reorders nothing.
   */
  lemma {:induction false} HarvestOfHealthyDevice(root: string, slices: seq<seq<DeviceFile>>)
    requires AllKeyable(root, Concat(slices))
    ensures HarvestChunks(root, HealthyStats(slices)) == Harvest(ExpectedAll(root, Concat(slices)), None, |slices|)
    decreases |slices|
  {
    if slices != [] {
      var n := |slices|;
      var init, last := slices[..n - 1], slices[n - 1];
      assert slices == init + [last];
      ConcatSnoc(init, last);
      AllKeyableSplit(root, Concat(init), last);
      HarvestOfHealthyDevice(root, init);
      var outcomes := Outcomes(root, HealthyStats(slices));
      HealthyOutcomesStep(root, slices);
      ParseStatOutput(root, last);
      HarvestStep(outcomes, n - 1);
      assert outcomes[..n] == outcomes;
    }
  }

  /** A failed chunk adds nothing and stops nothing: dropping it changes neither records nor failure. */
  lemma {:induction false} SkippedOutcome(outcomes: seq<Outcome>, k: nat)
    requires k < |outcomes| && outcomes[k].None?
    ensures HarvestOutcomes(outcomes).records == HarvestOutcomes(outcomes[..k] + outcomes[k + 1..]).records
    ensures HarvestOutcomes(outcomes).failure == HarvestOutcomes(outcomes[..k] + outcomes[k + 1..]).failure
    decreases |outcomes|
  {
    var n := |outcomes|;
    var dropped := outcomes[..k] + outcomes[k + 1..];
    if k == n - 1 {
      assert dropped == outcomes[..n - 1];
    } else {
      SkippedOutcome(outcomes[..n - 1], k);
      assert outcomes[..n - 1][..k] + outcomes[..n - 1][k + 1..] == dropped[..|dropped| - 1];
      assert dropped[|dropped| - 1] == outcomes[n - 1];
    }
  }

  /**
   * An errored `stat` chunk does not abort the walk: the harvest is the one
   * the walk would have had without that chunk.
   */
  lemma ErroredChunkIsSkipped(root: string, stats: seq<AdbResult>, k: nat)
    requires k < |stats| && stats[k].errored
    ensures HarvestChunks(root, stats).records == HarvestChunks(root, stats[..k] + stats[k + 1..]).records
    ensures HarvestChunks(root, stats).failure == HarvestChunks(root, stats[..k] + stats[k + 1..]).failure
  {
    var outcomes := Outcomes(root, stats);
    assert Outcomes(root, stats[..k] + stats[k + 1..]) == outcomes[..k] + outcomes[k + 1..];
    SkippedOutcome(outcomes, k);
  }
}
