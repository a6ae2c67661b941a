/**
 * The part of Python's `pathlib.PurePosixPath` the sync core uses: building a
 * path from text, `str(p)` / `p.as_posix()`, the `/` operator and
 * `p.relative_to(root)`. A path is its anchor flag and its sequence of parts.
 */
module PurePaths {
  import opened Wrappers
  import opened PyStr

  /** Whether the path is anchored at '/', and its parts below the anchor. */
  datatype PurePath = PurePath(absolute: bool, parts: seq<string>)

  /** A part as pathlib keeps it: non-empty, not '.', no separator. */
  predicate IsPart(x: string)
  {
    x != "" && x != "." && '/' !in x
  }

  predicate WellFormed(p: PurePath)
  {
    forall i :: 0 <= i < |p.parts| ==> IsPart(p.parts[i])
  }

  /** Drops the empty and '.' pieces between separators. */
  function KeepParts(pieces: seq<string>): (r: seq<string>)
    requires forall i :: 0 <= i < |pieces| ==> '/' !in pieces[i]
    ensures forall i :: 0 <= i < |r| ==> IsPart(r[i])
  {
    if pieces == [] then []
    else (if pieces[0] == "" || pieces[0] == "." then [] else [pieces[0]]) + KeepParts(pieces[1..])
  }

  lemma {:induction false} KeepPartsOfParts(parts: seq<string>)
    requires forall i :: 0 <= i < |parts| ==> parts[i] != "" && parts[i] != "." && '/' !in parts[i]
    ensures KeepParts(parts) == parts
  {
    if parts != [] {
      KeepPartsOfParts(parts[1..]);
    }
  }

  /**
   * `PurePosixPath(s)`: a leading '/' anchors the path; repeated slashes, a
   * trailing slash and '.' parts vanish.
   */
  function ParsePath(s: string): (p: PurePath)
    ensures WellFormed(p)
    ensures p.absolute <==> |s| > 0 && s[0] == '/'
  {
    PurePath(|s| > 0 && s[0] == '/', KeepParts(Split(s, '/')))
  }

  /** `str(p)`, which on POSIX is the same text as `p.as_posix()`. */
  function AsPosix(p: PurePath): string
  {
    if p.absolute then "/" + Join(p.parts, '/')
    else if p.parts == [] then "."
    else Join(p.parts, '/')
  }

  lemma {:induction false} JoinStartsWithFirst(parts: seq<string>, d: char)
    requires |parts| >= 1 && |parts[0]| > 0
    ensures |Join(parts, d)| > 0 && Join(parts, d)[0] == parts[0][0]
  {
  }

  /** Reading back the text of a path gives the same path. */
  lemma ParseAsPosix(p: PurePath)
    requires WellFormed(p)
    ensures ParsePath(AsPosix(p)) == p
  {
    var s := AsPosix(p);
    if p.absolute {
      var j := Join(p.parts, '/');
      assert s[1..] == j;
      if p.parts == [] {
        assert Split(s, '/') == ["", ""];
      } else {
        SplitJoin(p.parts, '/');
        assert Split(s, '/') == [""] + p.parts;
        KeepPartsOfParts(p.parts);
        assert KeepParts([""] + p.parts) == KeepParts(p.parts);
      }
    } else if p.parts == [] {
      assert s[1..] == "";
      assert Split(s[1..], '/') == [""];
      assert [s[0]] + "" == ".";
      assert Split(s, '/') == [[s[0]] + ""] + [""][1..];
      assert Split(s, '/') == ["."];
    } else {
      SplitJoin(p.parts, '/');
      KeepPartsOfParts(p.parts);
      JoinStartsWithFirst(p.parts, '/');
      assert p.parts[0][0] != '/' by {
        assert IsPart(p.parts[0]);
        assert p.parts[0][0] in p.parts[0];
      }
    }
  }

  /** `base / rel`: an anchored right operand replaces the left one. */
  function Div(base: PurePath, rel: PurePath): (r: PurePath)
    ensures WellFormed(base) && WellFormed(rel) ==> WellFormed(r)
  {
    if rel.absolute then rel else PurePath(base.absolute, base.parts + rel.parts)
  }

  /**
   * `p.relative_to(root)`; `None` stands for the ValueError raised when `p`
   * is not `root` or below it.
   */
  function RelativeTo(p: PurePath, root: PurePath): (r: Option<PurePath>)
    ensures r.Some? ==> !r.value.absolute && Div(root, r.value) == p
    ensures r.None? ==> forall rel: PurePath :: !rel.absolute ==> Div(root, rel) != p
    ensures r.Some? && WellFormed(p) ==> WellFormed(r.value)
  {
    if p.absolute == root.absolute && |root.parts| <= |p.parts| && p.parts[..|root.parts|] == root.parts
    then
      assert root.parts + p.parts[|root.parts|..] == p.parts;
      Some(PurePath(false, p.parts[|root.parts|..]))
    else
      assert forall rel: PurePath :: !rel.absolute ==> (Div(root, rel).parts[..|root.parts|] == root.parts);
      None
  }

  /** A path built below `root` is relative to `root` by exactly the parts added. */
  lemma RelativeToDiv(root: PurePath, rel: PurePath)
    requires !rel.absolute
    ensures RelativeTo(Div(root, rel), root) == Some(rel)
  {
    var p := Div(root, rel);
    assert p.parts[..|root.parts|] == root.parts;
    assert p.parts[|root.parts|..] == rel.parts;
  }
}
