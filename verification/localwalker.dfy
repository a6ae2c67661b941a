/**
 * localwalker.py: the files below a local directory, up to a depth, each
 * stored under its relname in a dict filled in place.
 */
module LocalWalker {
  import opened Wrappers
  import opened PurePaths
  import opened Dicts
  import opened FileStructs

  /**
   * `not_max_depth(path, root, depth)`: how many parents the path has
   * relative to the root, which for a relative path is its number of
   * parts, is at most the depth.
   */
  predicate NotMaxDepth(path: PurePath, root: PurePath, depth: int)
    requires RelativeTo(path, root).Some?
  {
    |RelativeTo(path, root).value.parts| <= depth
  }

  /** The depth test reads the parts appended to the root. */
  lemma NotMaxDepthOfDiv(root: PurePath, rel: PurePath, depth: int)
    requires !rel.absolute
    ensures RelativeTo(Div(root, rel), root).Some?
    ensures NotMaxDepth(Div(root, rel), root, depth) <==> |rel.parts| <= depth
  {
    RelativeToDiv(root, rel);
  }

  /**
   * One entry `Path(path).rglob('*')` yields, with what `is_file()` and
   * `stat()` report for it.
   */
  datatype LocalEntry = LocalEntry(path: PurePath, isFile: bool, size: int, mtime: int)

  /** What `rglob('*')` guarantees of an entry: well formed and strictly below the root. */
  predicate Below(root: PurePath, e: LocalEntry)
  {
    && WellFormed(e.path)
    && RelativeTo(e.path, root).Some?
    && |RelativeTo(e.path, root).value.parts| > 0
  }

  predicate AllBelow(root: PurePath, listing: seq<LocalEntry>)
  {
    forall i :: 0 <= i < |listing| ==> Below(root, listing[i])
  }

  /** An entry the walk keeps: a file no deeper than the depth. */
  predicate Kept(root: PurePath, depth: int, e: LocalEntry)
    requires Below(root, e)
  {
    e.isFile && NotMaxDepth(e.path, root, depth)
  }

  /**
   * `[f for f in p.rglob('*') if f.is_file() and not_max_depth(f, p, max_depth)]`:
   * the kept entries, in listing order.
   */
  function Candidates(root: PurePath, depth: int, listing: seq<LocalEntry>): (r: seq<LocalEntry>)
    requires AllBelow(root, listing)
    ensures |r| <= |listing|
    ensures AllBelow(root, r)
  {
    if listing == [] then []
    else
      var rest := Candidates(root, depth, listing[1..]);
      if Kept(root, depth, listing[0]) then [listing[0]] + rest else rest
  }

  /** The walk keeps exactly the listed entries that are files no deeper than the depth. */
  lemma {:induction false} CandidatesMembers(root: PurePath, depth: int, listing: seq<LocalEntry>)
    requires AllBelow(root, listing)
    ensures forall e :: e in Candidates(root, depth, listing) <==> e in listing && Kept(root, depth, e)
  {
    if listing != [] {
      CandidatesMembers(root, depth, listing[1..]);
      assert forall e :: e in listing <==> e == listing[0] || e in listing[1..];
    }
  }

  /** `LocalFileStat(path, file)` for each kept entry. */
  function LocalRecords(root: string, files: seq<LocalEntry>): (r: seq<FileStat>)
    requires AllBelow(ParsePath(root), files)
    ensures |r| == |files|
  {
    seq(|files|, i requires 0 <= i < |files| =>
      LocalFileStat(root, files[i].path, files[i].size, files[i].mtime))
  }

  /**
   * Each record names its file, carries its size and time, and its relname
   * appended to the root gives the file's path back.
   */
  lemma LocalRecordsMeaning(root: string, files: seq<LocalEntry>)
    requires AllBelow(ParsePath(root), files)
    ensures var r := LocalRecords(root, files);
      forall i :: 0 <= i < |files| ==>
        && r[i].filename == AsPosix(files[i].path)
        && Div(ParsePath(root), ParsePath(r[i].relname)) == files[i].path
        && r[i].size == files[i].size && r[i].mtime == files[i].mtime
  {
  }

  lemma LocalRecordsStep(root: string, files: seq<LocalEntry>, i: nat, d: Dict<FileStat>)
    requires AllBelow(ParsePath(root), files) && i < |files|
    ensures var records := LocalRecords(root, files);
      var stat := LocalFileStat(root, files[i].path, files[i].size, files[i].mtime);
      Insert(d, records[..i + 1]) == Insert(d, records[..i]).Put(stat.relname, stat)
  {
    var records := LocalRecords(root, files);
    assert records[..i + 1] == records[..i] + [records[i]];
    InsertSnoc(d, records[..i], records[i]);
  }

  /**
   * `get_local_files(path, max_depth, output_dict)` over the entries the
   * file system lists below `path`: the dict receives the record of each
   * kept file, in listing order, under its relname.
   */
  method GetLocalFiles(path: string, maxDepth: int, outputDict: FileStatDict, listing: seq<LocalEntry>)
    requires outputDict.Valid()
    requires AllBelow(ParsePath(path), listing)
    modifies outputDict
    ensures outputDict.Valid()
    ensures outputDict.Model()
         == Insert(old(outputDict.Model()), LocalRecords(path, Candidates(ParsePath(path), maxDepth, listing)))
  {
    var p := ParsePath(path);
    var fIter := Candidates(p, maxDepth, listing);
    ghost var records := LocalRecords(path, fIter);
    ghost var start := outputDict.Model();
    var i := 0;
    while i < |fIter|
      invariant 0 <= i <= |fIter|
      invariant outputDict.Valid()
      invariant outputDict.Model() == Insert(start, records[..i])
    {
      var file := fIter[i];
      var stat := LocalFileStat(path, file.path, file.size, file.mtime);
      LocalRecordsStep(path, fIter, i, start);
      outputDict.SetItem(stat.relname, stat);
      i := i + 1;
    }
    assert records[..i] == records;
  }

  /** A depth of zero or less keeps nothing: every entry has at least one part below the root. */
  lemma {:induction false} DepthZeroKeepsNothing(root: PurePath, depth: int, listing: seq<LocalEntry>)
    requires AllBelow(root, listing) && depth <= 0
    ensures Candidates(root, depth, listing) == []
  {
    if listing != [] {
      DepthZeroKeepsNothing(root, depth, listing[1..]);
    }
  }

  /** Raising the depth only adds entries: what a shallower walk keeps, a deeper one keeps too. */
  lemma DeeperKeepsMore(root: PurePath, d1: int, d2: int, listing: seq<LocalEntry>)
    requires AllBelow(root, listing) && d1 <= d2
    ensures forall e :: e in Candidates(root, d1, listing) ==> e in Candidates(root, d2, listing)
  {
    CandidatesMembers(root, d1, listing);
    CandidatesMembers(root, d2, listing);
  }

  /** Every entry of a flat listing of files directly below the root is kept at depth one. */
  lemma {:induction false} DepthOneKeepsTopFiles(root: PurePath, listing: seq<LocalEntry>)
    requires AllBelow(root, listing)
    requires forall i :: 0 <= i < |listing| ==>
      listing[i].isFile && |RelativeTo(listing[i].path, root).value.parts| == 1
    ensures Candidates(root, 1, listing) == listing
  {
    if listing != [] {
      DepthOneKeepsTopFiles(root, listing[1..]);
      assert [listing[0]] + listing[1..] == listing;
    }
  }
}
