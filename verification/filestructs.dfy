/**
 * filestructs.py: the per-file record both tree walkers produce, how a line
 * of the device's `stat` output becomes one, how a local path becomes one,
 * and the mutable relname-keyed dict the walkers fill.
 */
module FileStructs {
  import opened Wrappers
  import opened PyStr
  import opened PurePaths
  import opened Dicts

  /**
   * One file: `filename` locates it on its own side, `relname` (its path
   * below the walked root, POSIX form) is the key shared by both sides.
   */
  datatype FileStat = FileStat(filename: string, relname: string, size: int, mtime: int)

  /** The exceptions `RemoteFileStat(...)` can raise. */
  datatype StatError =
    | NotUnderRoot   // `relative_to` raises ValueError
    | MissingColumn  // `columns[i]` raises IndexError
    | NotAnInteger   // `int(...)` raises ValueError

  /**
   * `RemoteFileStat(root, stat_output, delim)`: column 0 is the file name,
   * column 1 its size, column 2 its modification time; later columns are
   * ignored. The fields are computed in the constructor's order, so the
   * first failing one decides the error.
   */
  function RemoteFileStat(root: string, statOutput: string, delim: char): (r: Result<FileStat, StatError>)
    ensures var columns := Split(statOutput, delim);
      r.Ok? <==>
        && RelativeTo(ParsePath(columns[0]), ParsePath(root)).Some?
        && |columns| >= 3
        && ParseInt(columns[1]).Some?
        && ParseInt(columns[2]).Some?
    ensures var columns := Split(statOutput, delim);
      r.Ok? ==>
        && r.value.filename == columns[0]
        && Some(r.value.size) == ParseInt(columns[1])
        && Some(r.value.mtime) == ParseInt(columns[2])
        && Div(ParsePath(root), ParsePath(r.value.relname)) == ParsePath(columns[0])
  {
    var columns := Split(statOutput, delim);
    var filename := columns[0];
    match RelativeTo(ParsePath(filename), ParsePath(root))
    case None => Err(NotUnderRoot)
    case Some(rel) =>
      ParseAsPosix(rel);
      if |columns| < 2 then Err(MissingColumn)
      else match ParseInt(columns[1])
        case None => Err(NotAnInteger)
        case Some(size) =>
          if |columns| < 3 then Err(MissingColumn)
          else match ParseInt(columns[2])
            case None => Err(NotAnInteger)
            case Some(mtime) => Ok(FileStat(filename, AsPosix(rel), size, mtime))
  }

  /** The line `stat -c %N:%s:%Y` prints for one file, taking %N to be the plain name. */
  function StatLine(filename: string, size: int, mtime: int): string
  {
    filename + ":" + IntToString(size) + ":" + IntToString(mtime)
  }

  lemma StatLineColumns(filename: string, size: int, mtime: int)
    requires ':' !in filename
    ensures Split(StatLine(filename, size, mtime), ':') == [filename, IntToString(size), IntToString(mtime)]
  {
    var a, b := IntToString(size), IntToString(mtime);
    assert ':' !in a && ':' !in b by {
      assert forall k :: 0 <= k < |a| ==> a[k] != ':';
      assert forall k :: 0 <= k < |b| ==> b[k] != ':';
    }
    assert [filename, a, b][1..] == [a, b];
    assert [a, b][1..] == [b];
    assert Join([a, b], ':') == a + [':'] + b;
    assert Join([filename, a, b], ':') == filename + [':'] + (a + [':'] + b);
    assert Join([filename, a, b], ':') == StatLine(filename, size, mtime);
    SplitJoin([filename, a, b], ':');
  }

  /**
   * A stat line for a file below the root parses back into that file's
   * name, size and time, keyed by its path relative to the root.
   */
  lemma StatLineRoundTrip(root: string, filename: string, size: int, mtime: int)
    requires ':' !in filename
    requires RelativeTo(ParsePath(filename), ParsePath(root)).Some?
    ensures RemoteFileStat(root, StatLine(filename, size, mtime), ':')
         == Ok(FileStat(filename, AsPosix(RelativeTo(ParsePath(filename), ParsePath(root)).value), size, mtime))
  {
    StatLineColumns(filename, size, mtime);
    ParseIntToString(size);
    ParseIntToString(mtime);
  }

  /**
   * A colon inside a file name splits it across columns: no record the
   * parser returns for that line carries the file's real name.
   */
  lemma ColonInNameIsLost(root: string, filename: string, size: int, mtime: int)
    requires ':' in filename
    ensures var r := RemoteFileStat(root, StatLine(filename, size, mtime), ':');
      r.Ok? ==> r.value.filename != filename
  {
    var columns := Split(StatLine(filename, size, mtime), ':');
    assert ':' !in columns[0];
  }

  /**
   * `LocalFileStat(root, path)`: the full path as the filename, the path
   * relative to the root as the relname; size and time come from the local
   * filesystem and are parameters here.
   */
  function LocalFileStat(root: string, path: PurePath, size: int, mtime: int): (r: FileStat)
    requires RelativeTo(path, ParsePath(root)).Some?
    ensures r.filename == AsPosix(path)
    ensures WellFormed(path) ==> Div(ParsePath(root), ParsePath(r.relname)) == path
  {
    var rel := RelativeTo(path, ParsePath(root)).value;
    assert WellFormed(path) ==> ParsePath(AsPosix(rel)) == rel by {
      if WellFormed(path) {
        ParseAsPosix(rel);
      }
    }
    FileStat(AsPosix(path), AsPosix(rel), size, mtime)
  }

  /**
   * The same relative location gives the same key on both sides: a file
   * reported by the device's stat below the remote root and a local file at
   * the same place below the local root get equal relnames.
   */
  lemma RelnameIsSharedKey(remoteRoot: PurePath, localRoot: PurePath, rel: PurePath,
                           size: int, mtime: int, localSize: int, localMtime: int)
    requires WellFormed(remoteRoot) && WellFormed(localRoot) && WellFormed(rel) && !rel.absolute
    requires ':' !in AsPosix(Div(remoteRoot, rel))
    ensures RelativeTo(Div(localRoot, rel), ParsePath(AsPosix(localRoot))).Some?
    ensures var remote := RemoteFileStat(AsPosix(remoteRoot), StatLine(AsPosix(Div(remoteRoot, rel)), size, mtime), ':');
      && remote.Ok?
      && remote.value.relname == LocalFileStat(AsPosix(localRoot), Div(localRoot, rel), localSize, localMtime).relname
      && remote.value.relname == AsPosix(rel)
  {
    ParseAsPosix(remoteRoot);
    ParseAsPosix(localRoot);
    ParseAsPosix(Div(remoteRoot, rel));
    RelativeToDiv(remoteRoot, rel);
    RelativeToDiv(localRoot, rel);
    StatLineRoundTrip(AsPosix(remoteRoot), AsPosix(Div(remoteRoot, rel)), size, mtime);
  }

  /** Index of the last record with the given relname, or -1. */
  function LastIndexOf(recs: seq<FileStat>, key: string): (i: int)
    ensures -1 <= i < |recs|
    ensures i >= 0 ==> recs[i].relname == key
    ensures forall j :: i < j < |recs| ==> recs[j].relname != key
  {
    if recs == [] then -1
    else if recs[|recs| - 1].relname == key then |recs| - 1
    else LastIndexOf(recs[..|recs| - 1], key)
  }

  /** `for stat in recs: d[stat.relname] = stat`, on the dict's value. */
  function Insert(d: Dict<FileStat>, recs: seq<FileStat>): (r: Dict<FileStat>)
  {
    if recs == [] then d
    else
      var last := recs[|recs| - 1];
      Insert(d, recs[..|recs| - 1]).Put(last.relname, last)
  }

  /**
   * After inserting, a key maps to the last record carrying it, or keeps its
   * old value when no record carries it; nothing else gains a key.
   */
  lemma {:induction false} InsertLookup(d: Dict<FileStat>, recs: seq<FileStat>, key: string)
    ensures var r := Insert(d, recs); var i := LastIndexOf(recs, key);
      && (key in r.values <==> key in d.values || i >= 0)
      && (i >= 0 ==> r.values[key] == recs[i])
      && (i < 0 && key in d.values ==> r.values[key] == d.values[key])
  {
    if recs != [] {
      InsertLookup(d, recs[..|recs| - 1], key);
    }
  }

  /** Inserting never moves a key that was already there: the old keys stay a prefix. */
  lemma {:induction false} InsertKeepsOrder(d: Dict<FileStat>, recs: seq<FileStat>)
    ensures |d.keys| <= |Insert(d, recs).keys|
    ensures Insert(d, recs).keys[..|d.keys|] == d.keys
  {
    if recs != [] {
      var mid := Insert(d, recs[..|recs| - 1]);
      InsertKeepsOrder(d, recs[..|recs| - 1]);
      var last := recs[|recs| - 1];
      assert mid.Put(last.relname, last).keys[..|mid.keys|] == mid.keys;
      assert mid.keys[..|d.keys|] == d.keys;
    }
  }

  /** Inserting records into a well-formed dict leaves a well-formed dict. */
  lemma {:induction false} InsertValid(d: Dict<FileStat>, recs: seq<FileStat>)
    requires d.Valid()
    ensures Insert(d, recs).Valid()
  {
    if recs != [] {
      InsertValid(d, recs[..|recs| - 1]);
    }
  }

  /** Inserting one more record is one more assignment. */
  lemma InsertSnoc(d: Dict<FileStat>, recs: seq<FileStat>, last: FileStat)
    ensures Insert(d, recs + [last]) == Insert(d, recs).Put(last.relname, last)
  {
    assert (recs + [last])[..|recs|] == recs;
  }

  lemma InsertAppend(d: Dict<FileStat>, a: seq<FileStat>, b: seq<FileStat>)
    ensures Insert(d, a + b) == Insert(Insert(d, a), b)
    decreases |b|
  {
    if b != [] {
      assert (a + b)[..|a + b| - 1] == a + b[..|b| - 1];
      InsertAppend(d, a, b[..|b| - 1]);
    } else {
      assert a + b == a;
    }
  }

  /** A dict object the walkers fill in place (`output_dict`). */
  class FileStatDict {
    var keys: seq<string>
    var entries: map<string, FileStat>

    ghost predicate Valid()
      reads this
    {
      Dict(keys, entries).Valid()
    }

    /** The dict's current value. */
    function Model(): Dict<FileStat>
      reads this
    {
      Dict(keys, entries)
    }

    /** `{}`. */
    constructor ()
      ensures Valid() && Model() == EmptyDict()
    {
      keys, entries := [], map[];
    }

    /** `self[key] = stat`. */
    method SetItem(key: string, stat: FileStat)
      requires Valid()
      modifies this
      ensures Valid()
      ensures Model() == old(Model()).Put(key, stat)
    {
      if key !in entries {
        keys := keys + [key];
      }
      entries := entries[key := stat];
    }
  }
}
