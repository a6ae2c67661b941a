# adbsync2 in Dafny

adbsync2 makes a one-way sync between a directory on a computer and a
directory on an Android device that is reached through `adb`. This project
models the core of that sync and proves properties of the model. The core
covers these steps:

- telling a phone endpoint (`remote:/sdcard/x`, `1234:/sdcard/x`) from a
  local one, including a Windows drive letter (`C:\x`), and deciding the
  sync direction;
- walking the local tree (`rglob` up to a depth) and the device tree (one
  `find`, then one `stat` per 100 names) into dicts keyed by each file's
  `relname`, its path below the walked root;
- computing the `Delta`: the files to upload and, with `delete_files`, the
  files to remove;
- turning the delta into `adb` command lines: `rm -r` in batches, `push`
  followed by one `touch -cmd` per batch, or `pull -a`;
- quoting every file name for the device shell, and cutting lists into
  batches with `chunks`.

Each source file has its own module: `Common`, `AdbCommon`, `FileStructs`,
`RemoteWalker`, `LocalWalker` and `Sync`. Four helper modules stand in for
the Python runtime the core relies on:

- `Wrappers`: Option and Result.
- `PyStr`: `str.split`, `str.join`, `splitlines`, `int()` and `str()`.
- `PurePaths`: the POSIX flavour of `pathlib`, covering parsing, `as_posix`,
  `/` and `relative_to`.
- `Dicts`: a dict that keeps insertion order.

Effects become inputs and outputs of the model:

- Every `adb` run is an `AdbResult(errored, output)` given as input. Each
  method returns the command lines it would issue.
- `config.device` and `config.dry_run` are parameters.
- The local file system is given as a listing of entries with their size
  and time. `del_local` works on the set of paths present.
- `strftime` is a parameter `fmt`.

Where the mutable dict `output_dict` is filled in place, the model is a
class, `FileStructs.FileStatDict`, whose methods `modifies` it. The walkers
are methods with loops, proved against functions on the dict's value.

Some behaviours follow the code rather than its description:

- A failed `find` on the device is not fatal. The remote walk returns the
  dict unchanged, and the sync then treats the device side as empty
  (`Sync.EmptyRemoteSide`). So a phone-to-machine sync with `delete_files`
  whose `find` fails, even transiently, removes every local file below the
  destination, and a machine-to-phone sync uploads everything again.
- The first `:` of an endpoint decides whether it names a phone. So
  `C:a:b` is local, and so is any one-character device id
  (`Sync.ShortDeviceIsLocal`).
- When both endpoints name a phone, the source is validated first. The
  result is an invalid-path error when the source is malformed, and the
  phone-to-phone error otherwise. The phone-to-phone check the source makes
  in the machine-to-phone branch (sync.py:59-60) can never fire, and the
  model keeps it as written.

## Model

| member | source | states |
|---|---|---|
| Common.Chunks | common.py:9-12 | no chunks exactly for an empty list; more than one chunk exactly when the list is longer than the batch size |
| Common.ChunksConcat | common.py:9-12 | the chunks, concatenated in order, give back the list: nothing is lost, duplicated or reordered |
| Common.ChunkSizes | common.py:9-12 | every chunk is non-empty and at most n long, and every chunk but the last is exactly n long |
| Common.ChunkCount | common.py:9-12 | the number of chunks is the ceiling of len/n |
| Common.ChunkAt | common.py:11-12 | chunk i is the slice `lst[i*n : i*n+n]`, clipped at the end of the list |
| Common.ChunkElement | common.py:11-12 | element j of chunk i is element i*n+j of the list |
| Common.PyChunks | common.py:9-12 | the generator as Python runs it: a batch size of zero raises ValueError, a negative one yields nothing, an empty list or view yields nothing, slicing a non-empty `dict_items` raises TypeError, and a list yields `Chunks` |
| Common.ConcatAppend | common.py:9-12 | concatenating chunk lists distributes over `+` |
| AdbCommon.MakeAdbCommand | adb_common.py:6-12 | `adb`, then `-t <device>` exactly when a device is configured, then the subcommand |
| AdbCommon.AdbPrefixShared | adb_common.py:6-12 | commands for different subcommands share the same prefix up to the subcommand |
| AdbCommon.ReplaceQuotes | adb_common.py:22 | every single quote grows by four characters, and a string without quotes is unchanged |
| AdbCommon.EscapeShStr | adb_common.py:15-22 | the result is wrapped in single quotes and is 2 + 4·(quotes) longer than the input |
| AdbCommon.ReadReplaced | adb_common.py:15-22 | inside single quotes, the shell reads a replaced string as the original characters |
| AdbCommon.EscapeRoundTrip | adb_common.py:15-22 | the shell reads every escaped string back as exactly one word equal to the original, whatever quotes it holds |
| AdbCommon.UnescapedQuoteBreaks | adb_common.py:15-22 | quoting without replacing the inner quote does not read back: the gluing is needed |
| AdbCommon.EscapeAll | remotewalker.py:34 | one escaped argument per name, in order |
| AdbCommon.EscapeAllReadsBack | remotewalker.py:34 | the shell reads each escaped argument back as exactly its name |
| FileStructs.RemoteFileStat | filestructs.py:25-34 | parsing succeeds exactly when column 0 lies below the root and columns 1 and 2 parse as integers; the fields are column 0, the relname below the root, and the two integers |
| FileStructs.StatLineRoundTrip | filestructs.py:29-34 | a `%N:%s:%Y` line of a colon-free file below the root parses back to that file's name, size and time |
| FileStructs.ColonInNameIsLost | filestructs.py:30-31 | a file name containing ':' is split across columns, and no successful parse carries the real name |
| FileStructs.LocalFileStat | filestructs.py:14-23 | the filename is the path, and the relname appended to the root gives the path back |
| FileStructs.RelnameIsSharedKey | filestructs.py:21-32 | a device file and a local file at the same place below their roots get the same relname, equal to that relative path |
| FileStructs.Insert | localwalker.py:20-22 | storing records one by one under their relnames, the loop both walkers run; its meaning is given by InsertLookup, InsertKeepsOrder and InsertValid |
| FileStructs.InsertLookup | remotewalker.py:40-42 | after storing records by relname, a key holds the last record with that relname, or its old value if no record has it; no other key appears |
| FileStructs.InsertKeepsOrder | remotewalker.py:40-42 | storing never moves existing keys: the old keys remain a prefix of the key order |
| FileStructs.InsertValid | localwalker.py:20-22 | storing records keeps the dict well formed |
| FileStructs.FileStatDict.constructor | filestructs.py:12 | a fresh dict is empty |
| FileStructs.FileStatDict.SetItem | remotewalker.py:42 | `d[key] = stat` changes the dict's value by exactly that assignment |
| Dicts.Dict.Put | localwalker.py:22 | assignment updates the map; a new key is appended to the order and an existing key stays in place |
| Dicts.Select | sync.py:73-81 | a filtered dict holds exactly the kept keys with their values, in the original order |
| Dicts.ItemsOfFromItems | sync.py:76 | `dict(list)` of items with distinct keys gives back those items in order |
| PyStr.SplitJoin | filestructs.py:30 | splitting a join of delimiter-free parts gives the parts back |
| PyStr.SplitLinesOfTerminated | remotewalker.py:28-40 | `splitlines` of newline-terminated lines gives the lines |
| PyStr.ParseInt | filestructs.py:33-34 | `int()` succeeds exactly on an optionally signed run of digits |
| PyStr.ParseIntToString | filestructs.py:33-34 | `int(str(i)) == i` |
| PurePaths.ParseAsPosix | filestructs.py:21 | `Path(p.as_posix()) == p` |
| PurePaths.RelativeTo | filestructs.py:32 | on success the root joined with the result is the path; on failure no relative path completes the root to it |
| PurePaths.RelativeToDiv | localwalker.py:10 | `(root / rel).relative_to(root) == rel` |
| RemoteWalker.FindCommand | remotewalker.py:17-21 | the shell prefix, then `find <path> -type f -maxdepth <depth>` |
| RemoteWalker.StatCommand | remotewalker.py:32-35 | the shell prefix, then `stat -c %N:%s:%Y`, then each name escaped |
| RemoteWalker.StatArgumentReadsBack | remotewalker.py:31-35 | name j of stat command i reads back in the shell as line 100·i+j of the find output |
| RemoteWalker.TakeOk | remotewalker.py:40-42 | the loop over stat lines stops exactly at the first line that raises |
| RemoteWalker.TakeOkSound | remotewalker.py:40-42 | the records taken are the leading successful parses, and the error is the first failure |
| RemoteWalker.HarvestOutcomes | remotewalker.py:31-43 | stat runs stop only at a parse failure, and one runs per chunk otherwise |
| RemoteWalker.StoreStatLines | remotewalker.py:40-42 | the dict receives each parsed line of one stat output in order, up to the first line that raises, which is reported |
| RemoteWalker.StatChunks | remotewalker.py:31-43 | one stat command per chunk, up to the chunk whose output raises; errored chunks are skipped; the dict receives the harvested records |
| RemoteWalker.GetRemoteFiles | remotewalker.py:12-45 | a failed `find` leaves the dict unchanged and issues no stat; otherwise the find command and the stat commands are issued and the dict is filled as the harvest says |
| RemoteWalker.ParseStatOutput | remotewalker.py:40-42 | the stat output for keyable files parses, line by line, into exactly their records |
| RemoteWalker.HarvestOfHealthyDevice | remotewalker.py:31-43 | when every stat succeeds, the walk harvests every listed file's record in listing order and fails on none: chunking loses nothing |
| RemoteWalker.SkippedOutcome | remotewalker.py:38-39 | a failed chunk contributes nothing: removing it changes neither the records nor the failure |
| RemoteWalker.ErroredChunkIsSkipped | remotewalker.py:38-39 | an errored stat command does not abort the walk |
| LocalWalker.NotMaxDepth | localwalker.py:8-10 | the depth test: the number of parents of the path relative to the root is at most the depth; NotMaxDepthOfDiv states what it means |
| LocalWalker.NotMaxDepthOfDiv | localwalker.py:8-10 | a path below the root passes the depth test exactly when it has at most `depth` parts below the root |
| LocalWalker.Candidates | localwalker.py:19 | the kept entries stay below the root and are no more than the listing |
| LocalWalker.CandidatesMembers | localwalker.py:19 | an entry is kept exactly when it is listed, is a file and passes the depth test |
| LocalWalker.LocalRecordsMeaning | localwalker.py:20-21 | each record names its file, carries its size and time, and has a relname that leads back to the file |
| LocalWalker.GetLocalFiles | localwalker.py:12-23 | the dict receives, in listing order under their relnames, the records of the kept files |
| LocalWalker.DepthZeroKeepsNothing | localwalker.py:10 | a depth of zero or less keeps no file |
| LocalWalker.DeeperKeepsMore | localwalker.py:8-19 | a deeper walk keeps every file a shallower one keeps |
| LocalWalker.DepthOneKeepsTopFiles | localwalker.py:8-19 | with depth 1, every file directly below the root is kept |
| Sync.FindColon | sync.py:214 | `str.find(':')`: the index of the first colon, or -1 when there is none |
| Sync.IsMobilePath | sync.py:207-215 | a path names a phone exactly when it has a colon and none among its first two characters |
| Sync.IsValidMobilePath | sync.py:217-224 | the text before the first colon is `remote` or numeric; ValidMobilePathMeaning states what it accepts |
| Sync.ValidMobilePathMeaning | sync.py:217-224 | a phone path is valid exactly when its device part is `remote` or numeric (and at least two characters); the path is that device, a colon and the rest |
| Sync.PhonePathParts | sync.py:49-55 | `device:path` splits back into the device and the path when the device has no colon |
| Sync.Classify | sync.py:43-61 | the no-phone, phone-to-phone and invalid-path errors, each exactly when it is raised; the direction is phone-to-machine exactly when the source names a phone |
| Sync.ClassifyPhoneToMachine | sync.py:46-49 | `dev:path` to a local path syncs phone to machine, with the remote path after the colon and the local destination |
| Sync.ClassifyMachineToPhone | sync.py:50-55 | a local path to `dev:path` syncs machine to phone, and the destination is stripped to the path |
| Sync.ClassifyOkShape | sync.py:43-61 | an accepted pair has exactly one phone side, with an accepted device and the remote path after its colon |
| Sync.ShortDeviceIsLocal | sync.py:210-215 | a one-character device id is taken as a drive letter, so the endpoint is local |
| Sync.DriveLetterIsLocal | sync.py:210-215 | `X:rest` is never a phone path |
| Sync.InsertKeyed | remotewalker.py:40-42 | a dict filled by relname maps every key to a record carrying that relname |
| Sync.DeltaShouldAdd | sync.py:197-204 | the upload test; UnchangedIsSkipped and UploadExact state which files pass it |
| Sync.UnchangedIsSkipped | sync.py:197-204 | a file whose destination copy has the same size and an mtime at least as new is not uploaded |
| Sync.UploadSet | sync.py:78-81 | a key is uploaded exactly when the source side has it and the upload test passes for it, with the source side's record |
| Sync.RemoveSet | sync.py:72-76 | a key is removed exactly when the destination side has it and the source side does not, with the destination side's record |
| Sync.UploadExact | sync.py:78-81 | in the delta, a key is uploaded exactly when the source side has it and the destination lacks it, holds a different size or an older time; the record is the source side's, and the order is the source side's |
| Sync.RemoveExact | sync.py:72-76 | in the delta, a key is removed exactly when `delete_files` is set, the destination side has it and the source side does not; the record and order are the destination side's |
| Sync.ComputeDelta | sync.py:70-81 | the delta keeps the direction and destination path, both dicts are well formed, and nothing is removed without `delete_files` |
| Sync.EmptyRemoteSide | sync.py:72-81 | when the device side is empty (a failed `find`), phone-to-machine uploads nothing and with delete removes every local file, and machine-to-phone uploads every local file |
| Sync.Copied | sync.py:124-152 | a transferred file lands at destination/relname and keeps its relname, size and mtime |
| Sync.Applied | sync.py:91-158 | after applying a delta, a key is present exactly when it was there and not removed, or was uploaded |
| Sync.NothingLeftToUpload | sync.py:78-81 | once the uploads are applied, diffing again finds nothing to upload |
| Sync.NothingLeftToRemove | sync.py:72-76 | once the removals and uploads are applied, diffing again finds nothing to remove |
| Sync.SyncConverges | sync.py:38-88 | for whole-second times and copies that keep size and time, applying the delta computed with `delete_files` makes a second diff empty |
| Sync.DeviceSeconds | sync.py:168 | the device keeps a pushed file's time as the whole second below it |
| Sync.FractionalMtimeReuploads | sync.py:202 | as written, a local time with a fractional part is newer than the device's copy of it |
| Sync.HalfSecondReuploads | sync.py:202 | a file modified at 10.5 s is touched to 10 s and compares as newer |
| Sync.WholeSecondsSettle | sync.py:202 | compared in whole seconds, a copy is never newer-than-stale, and the test holds exactly when the local second is later |
| Sync.RemoteHarvest | remotewalker.py:24-26 | a failed `find` yields no records and no failure |
| Sync.GetDiff | sync.py:38-88 | endpoint errors are returned as raised; a stat line that raises aborts the diff; otherwise both sides are walked into fresh relname-keyed dicts and the delta is `ComputeDelta` of them |
| Sync.Filenames | sync.py:100 | the filename of each entry, in order |
| Sync.RmCommand | sync.py:96-101 | the shell prefix, `rm -r`, then each entry's filename escaped |
| Sync.RmCommandsStep | sync.py:97-105 | each chunk appends exactly one `rm` command |
| Sync.RmCommandArgument | sync.py:100 | argument j of an `rm` command reads back in the shell as entry j's filename |
| Sync.RmArgumentReadsBack | sync.py:97-101 | argument j of `rm` command i reads back as the filename of entry i·batch+j: every removed file is named once, in order |
| Sync.DelRemote | sync.py:91-106 | a batch size of zero raises ValueError; a dry run or a negative batch size issues nothing; otherwise one `rm` per chunk of the removal list |
| Sync.DelLocal | sync.py:108-113 | exactly the removed filenames disappear, and missing files are no error |
| Sync.PushCommand | sync.py:124-129 | the push prefix followed by the source file and its destination |
| Sync.Succeeded | sync.py:136 | the chunk entries whose push did not error, taken pairwise as `zip` does |
| Sync.SucceededMembers | sync.py:136 | an entry is touched exactly when it sits at an index whose push exists and did not error |
| Sync.AllSucceeded | sync.py:136 | when every push succeeds, the whole chunk is touched |
| Sync.TouchClause | sync.py:164-171 | five tokens per file |
| Sync.TouchClauses | sync.py:174 | one clause per file, in order |
| Sync.TouchClauseAt | sync.py:174-175 | the touch command is the shell prefix followed by the files' clauses, five tokens each, in order |
| Sync.TouchClauseReadsBack | sync.py:168-169 | the time argument reads back as the formatted mtime, and the path argument reads back as the pushed file's destination |
| Sync.TouchCommand | sync.py:161-176 | the command starts with the shell prefix; TouchClauseAt and TouchCommandLayout give the rest |
| Sync.TouchCommandLayout | sync.py:161-176 | token block i of the touch command is `touch -cmd <time of file i> <destination of file i> ;` |
| Sync.SendCommands | sync.py:133-138 | per chunk, the pushes of its entries, then one touch of those whose push succeeded |
| Sync.SendBlock | sync.py:134-138 | one chunk contributes one more command than it has entries, and its leading commands are its entries' pushes in order |
| Sync.SendCommandsBlocks | sync.py:133-138 | the issued commands are the chunks' blocks in chunk order, so with ChunksConcat every file is pushed once, in delta order, and each touch follows its chunk's pushes |
| Sync.SendCount | sync.py:133-138 | a send issues as many commands as there are files plus chunks |
| Sync.SendCommandsStep | sync.py:133-138 | each chunk appends its pushes and then one touch of the successful pushes |
| Sync.SendToRemote | sync.py:116-139 | a batch size of zero raises ValueError; a dry run issues nothing; otherwise pushes and touches per chunk as `SendCommands` lays them out |
| Sync.PullCommand | sync.py:143-152 | the pull prefix, `-a`, the source file and its destination |
| Sync.PullCommandsAppend | sync.py:156-157 | the pulls for two runs of entries are the pulls of each, in order |
| Sync.TransferTargets | sync.py:124-152 | push and pull both copy the file's own name to destination/relname |
| Sync.SendToLocal | sync.py:141-158 | a batch size of zero raises ValueError; a dry run issues nothing; otherwise one pull per upload entry, in order, across all chunks |
| Sync.ItemsViewCannotBeChunked | sync.py:97-156 | with a positive batch size, chunking the `dict_items` of a non-empty removal or upload raises TypeError, while chunking the list of items gives its chunks |

## Left out

- Process execution, `asyncio.gather`, the `tqdm` progress bars and the logging are left out. The model takes every `adb` outcome as an input, and runs the concurrent pushes or pulls of one chunk in chunk order.
- `show_delta` and `dump_delta_to_file` (sync.py:179-194) are left out. They only print and write JSON.
- `config.py` and `run_adb_command` are not part of this model. The device and the dry-run flag are parameters, and `run_adb_command` becomes an `AdbResult` input.
- The `debug_stat` logging switch is left out.
- `cli.py`, which parses the command line, is left out. It is not part of the core.
- `setup.py` is left out.
- `strftime('%Y-%m-%d%H:%M:%S')` of `datetime.fromtimestamp` depends on the local time zone. It is the parameter `fmt`.
- The model assumes `stat`'s `%N` prints the plain file name, without quotes or a symlink target.
- `mtime` is an integer on both sides of a `FileStat`, the whole seconds of the time. A local `st_mtime` is a float in Python; its comparison with the device's whole seconds is modelled apart, by `Sync.NewerAsWritten` (see Findings).
- Sync.SyncConverges: holds for whole-second times only. In a machine-to-phone sync, a local file whose `st_mtime` has a fractional part keeps comparing as newer than its pushed copy (`Sync.FractionalMtimeReuploads`), so the program uploads it again on every run and does not converge.
- `str.isnumeric` is modelled on ASCII digits only.
- `splitlines` is modelled as splitting on `\n`.
- `int()` is modelled without surrounding whitespace or underscores.
- Paths follow POSIX `pathlib`. Windows separators and `str(path)` versus `as_posix()` are not distinguished.
- The local file system is an input. `rglob` is a listing of entries known to lie below the root, with what `is_file()` and `stat()` report for each. For `del_local` it is the set of paths present, and `unlink(missing_ok=True)` removes a path from that set.
- The `mkdir` of the parent directories before a pull (sync.py:149) is left out. It only creates directories.
- `get_local_files` and `get_remote_files` use a mutable `{}` default that every call shares. `Sync.GetDiff` passes each walker a fresh `FileStatDict`, which is what a single `get_diff` per run sees. Filling a dict left over from an earlier call is not modelled.
- Sync.ComputeDelta: `delta_should_add`'s unused `src` argument is dropped.
- Sync.Copied: that a transferred file keeps its size and modification time is an assumption about `adb push` followed by `touch`, and about `adb pull -a`. It is not a property of this code.
- Sync.GetDiff: the device part of an endpoint is validated and then discarded, as in the source. The device used is the configured one.
- Sync.DelRemote: on `dict_items` this raises TypeError for any non-empty removal (see Findings). The model issues the commands that chunking the list of items gives.
- Sync.SendToRemote: on `dict_items` this raises TypeError for any non-empty upload (see Findings). The model issues the commands that chunking the list of items gives.
- Sync.SendToLocal: on `dict_items` this raises TypeError for any non-empty upload (see Findings). The model issues the commands that chunking the list of items gives.

## Findings

| source | as written | input that shows it | evidently intended | confidence | as-written member | corrected member |
|---|---|---|---|---|---|---|
| sync.py:97, sync.py:133, sync.py:156 | `chunks(delta.remove.items(), n)` and `chunks(delta.upload.items(), n)` slice a `dict_items` view, and `lst[i:i + n]` on it raises TypeError | any delta with one file to remove or upload and `batch_size` 100 or 5 | chunk the list of items: `chunks(list(d.items()), n)` | high, not executed | Common.PyChunks, Sync.ItemsViewCannotBeChunked | Sync.DelRemote, Sync.SendToRemote, Sync.SendToLocal |
| sync.py:202 | `src_file.mtime > dest_file.mtime` compares a local float `st_mtime` with the device's whole seconds, which `touch_files` (sync.py:168) and `stat %Y` keep | a local file modified at 10.5 s, pushed: the device keeps 10 s, and the next machine-to-phone run uploads it again, as every run after | compare whole seconds, e.g. `int(src_file.mtime) > dest_file.mtime` | high, not executed | Sync.FractionalMtimeReuploads, Sync.HalfSecondReuploads | Sync.WholeSecondsSettle, Sync.SyncConverges |
