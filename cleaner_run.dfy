/** `run_cleaner`: which files of the walked tree are cleaned and where each
    cleaned copy goes. A path is the sequence of its components; the walk,
    the reads and the writes are the file system's and are given as data. */
module CleanerRun {
  import opened Wrappers
  import opened Text
  import opened Cleaner

  /** A path as its sequence of components. */
  type Path = seq<string>

  /** The suffixes whose files are cleaned, lower-case. */
  const CleanedSuffixes: seq<string> := [".md", ".txt"]

  /** `PurePath.name`: the last component. */
  function Name(path: Path): string {
    if |path| == 0 then "" else path[|path| - 1]
  }

  /** Index of the last `.` in `name`, or -1 (`str.rfind('.')`). */
  function LastDot(name: string): (i: int)
    ensures -1 <= i < |name|
    ensures i >= 0 ==> name[i] == '.'
    ensures forall k :: i < k < |name| ==> name[k] != '.'
  {
    if |name| == 0 then -1
    else if name[|name| - 1] == '.' then |name| - 1
    else LastDot(name[..|name| - 1])
  }

  /** `PurePath.suffix`: from the last dot on, unless that dot starts the
      name or ends it. */
  function Suffix(name: string): string {
    var i := LastDot(name);
    if 0 < i < |name| - 1 then name[i..] else ""
  }

  /** A non-empty suffix is a dot followed by at least one
      character and no other dot, preceded by a non-empty stem; otherwise the
      name has no dot past its first character or ends in one. */
  lemma SuffixSplits(name: string)
    ensures var x := Suffix(name);
            if x != "" then
              && 2 <= |x| < |name| && x == name[|name| - |x|..] && x[0] == '.'
              && (forall k :: 1 <= k < |x| ==> x[k] != '.')
            else
              || (forall k :: 1 <= k < |name| ==> name[k] != '.')
              || name[|name| - 1] == '.'
  {
  }

  /** The test at the head of the loop body: a regular file whose suffix,
      lower-cased, is `.md` or `.txt`. */
  predicate IsCleanable(isFile: bool, path: Path) {
    isFile && Lower(Suffix(Name(path))) in CleanedSuffixes
  }

  /** The suffix test ignores case and rejects other
      extensions and dot-files. */
  lemma SelectionExamples()
    ensures IsCleanable(true, ["notes", "README.MD"])
    ensures IsCleanable(true, ["a.b.txt"])
    ensures !IsCleanable(true, ["data.csv"])
    ensures !IsCleanable(true, [".md"])
    ensures !IsCleanable(false, ["dir.md"])
  {
    assert LastDot("README.MD") == 6;
    assert Suffix("README.MD") == ".MD";
    assert LowerChar('M') == 'm' && LowerChar('D') == 'd';
    assert Lower(".MD") == ".md";
    var twoDots := "a.b.txt";
    assert twoDots[3] == '.' && twoDots[4] == 't' && twoDots[5] == 'x' && twoDots[6] == 't';
    assert LastDot(twoDots) == 3;
    assert Suffix("a.b.txt") == ".txt";
    assert Lower(".txt") == ".txt";
    var csv := "data.csv";
    assert csv[4] == '.' && csv[5] == 'c' && csv[6] == 's' && csv[7] == 'v';
    assert LastDot(csv) == 4;
    assert Lower(".csv") == ".csv";
    assert LastDot(".md") == 0;
  }

  /** `PurePath.relative_to(base)`: the components after `base`, when
      `base` is a prefix of `path`; otherwise `relative_to` raises. */
  function RelativeTo(path: Path, base: Path): (rel: Option<Path>)
    ensures rel.Some? <==> |base| <= |path| && path[..|base|] == base
    ensures rel.Some? ==> path == base + rel.value
  {
    if |base| <= |path| && path[..|base|] == base then Some(path[|base|..]) else None
  }

  /** `base_out / file_path.relative_to(base_in)`. */
  function Destination(path: Path, baseIn: Path, baseOut: Path): Option<Path> {
    match RelativeTo(path, baseIn)
    case None => None
    case Some(rel) => Some(baseOut + rel)
  }

  /** A file under the input base lands at the same
      relative place under the output base, so the hierarchy is mirrored. */
  lemma MirrorsHierarchy(baseIn: Path, rel: Path, baseOut: Path)
    ensures Destination(baseIn + rel, baseIn, baseOut) == Some(baseOut + rel)
  {
    assert (baseIn + rel)[..|baseIn|] == baseIn;
    assert (baseIn + rel)[|baseIn|..] == rel;
  }

  /** Distinct files under the input base get distinct
      destinations, so no cleaned copy overwrites another. */
  lemma {:induction false} MirrorIsInjective(baseIn: Path, one: Path, other: Path, baseOut: Path)
    requires one != other
    ensures Destination(baseIn + one, baseIn, baseOut) != Destination(baseIn + other, baseIn, baseOut)
  {
    MirrorsHierarchy(baseIn, one, baseOut);
    MirrorsHierarchy(baseIn, other, baseOut);
    assert (baseOut + one)[|baseOut|..] == one;
    assert (baseOut + other)[|baseOut|..] == other;
  }

  /** What the walk reports for one path `base_in / rel`: whether it is a
      regular file, and the text `read_text` decodes from it, or `None` when
      reading or writing it raises. */
  datatype Entry = Entry(rel: Path, isFile: bool, contents: Option<string>)

  /** One cleaned copy `run_cleaner` writes. */
  datatype Written = Written(destination: Path, text: string)

  /** What the loop body writes for one walked path. */
  function Outcome(e: Entry, baseIn: Path, baseOut: Path, tables: UnicodeTables): seq<Written> {
    var path := baseIn + e.rel;
    if IsCleanable(e.isFile, path) && e.contents.Some? then
      match Destination(path, baseIn, baseOut)
      case None => []
      case Some(destination) => [Written(destination, CleanText(e.contents.value, tables))]
    else []
  }

  /** The copies `run_cleaner` writes over the walk, in walk order, as a
      specification. */
  function Plan(walk: seq<Entry>, baseIn: Path, baseOut: Path, tables: UnicodeTables): seq<Written> {
    if |walk| == 0 then []
    else Plan(walk[..|walk| - 1], baseIn, baseOut, tables) + Outcome(walk[|walk| - 1], baseIn, baseOut, tables)
  }

  /** Every copy written comes from a walked regular file
      with a `.md` or `.txt` suffix that could be read, sits at the mirrored
      place, and holds that file's cleaned text. */
  lemma {:induction false} PlanWritesOnlyCleanable(walk: seq<Entry>, baseIn: Path, baseOut: Path, tables: UnicodeTables)
    ensures forall w :: w in Plan(walk, baseIn, baseOut, tables) ==>
              exists e :: && e in walk && IsCleanable(e.isFile, baseIn + e.rel) && e.contents.Some?
                          && w == Written(baseOut + e.rel, CleanText(e.contents.value, tables))
  {
    if |walk| > 0 {
      var front := walk[..|walk| - 1];
      var e := walk[|walk| - 1];
      PlanWritesOnlyCleanable(front, baseIn, baseOut, tables);
      MirrorsHierarchy(baseIn, e.rel, baseOut);
      forall w | w in Plan(walk, baseIn, baseOut, tables)
        ensures exists e :: && e in walk && IsCleanable(e.isFile, baseIn + e.rel) && e.contents.Some?
                            && w == Written(baseOut + e.rel, CleanText(e.contents.value, tables))
      {
        if w in Plan(front, baseIn, baseOut, tables) {
          var e' :| && e' in front && IsCleanable(e'.isFile, baseIn + e'.rel) && e'.contents.Some?
                    && w == Written(baseOut + e'.rel, CleanText(e'.contents.value, tables));
          assert e' in walk;
        } else {
          assert w in Outcome(e, baseIn, baseOut, tables);
          assert e in walk;
        }
      }
    }
  }

  /** Every walked regular file with a `.md` or `.txt`
      suffix that could be read gets its cleaned copy. */
  lemma {:induction false} PlanWritesEveryCleanable(walk: seq<Entry>, baseIn: Path, baseOut: Path, tables: UnicodeTables, k: nat)
    requires k < |walk|
    requires IsCleanable(walk[k].isFile, baseIn + walk[k].rel) && walk[k].contents.Some?
    ensures Written(baseOut + walk[k].rel, CleanText(walk[k].contents.value, tables)) in Plan(walk, baseIn, baseOut, tables)
  {
    var front := walk[..|walk| - 1];
    MirrorsHierarchy(baseIn, walk[k].rel, baseOut);
    if k < |walk| - 1 {
      PlanWritesEveryCleanable(front, baseIn, baseOut, tables, k);
      assert front[k] == walk[k];
    }
  }

  /** The loop of `run_cleaner` over the walk: the count is the number of
      copies written. */
  method RunCleaner(walk: seq<Entry>, baseIn: Path, baseOut: Path, tables: UnicodeTables)
    returns (written: seq<Written>, fileCount: nat)
    ensures written == Plan(walk, baseIn, baseOut, tables)
    ensures fileCount == |written|
  {
    written := [];
    fileCount := 0;
    for n := 0 to |walk|
      invariant written == Plan(walk[..n], baseIn, baseOut, tables)
      invariant fileCount == |written|
    {
      var filePath := baseIn + walk[n].rel;
      assert walk[..n + 1][..n] == walk[..n];
      if walk[n].isFile && Lower(Suffix(Name(filePath))) in CleanedSuffixes {
        var relativePath := RelativeTo(filePath, baseIn);
        MirrorsHierarchy(baseIn, walk[n].rel, baseOut);
        var destination := baseOut + relativePath.value;
        if walk[n].contents.Some? {
          var sanitizedContent := DeepCleanText(walk[n].contents.value, tables);
          written := written + [Written(destination, sanitizedContent)];
          fileCount := fileCount + 1;
        }
      }
    }
    assert walk[..|walk|] == walk;
  }
}
