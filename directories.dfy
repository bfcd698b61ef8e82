/** The directory side of dfu-core/src/directories.rs: directory entries as
    the walks yield them, the name order, `longest_identifier` and the
    subtree equality check `diff_dirs`. */
module Directories {
  import opened Results
  import opened Files
  import Names

  /** What `DirEntry::file_type` reports. Walks do not follow symbolic
      links, so a link is its own kind; the other special kinds (pipes,
      sockets, devices) are told apart by a tag, as `FileType`'s `!=`
      tells them apart. */
  datatype FileType = RegularFile | Directory | Symlink | Special(tag: nat)

  /** One entry a walk yields: its path as displayed, its final name
      component as bytes, its kind, what reading it as a file gives, and
      how many levels below the walk's root it lies (`DirEntry::depth`). */
  datatype Entry = Entry(path: string, name: seq<byte>, kind: FileType, contents: FileRecord, depth: nat)

  /** The items a directory walk yields, in order. */
  type Listing = seq<Result<Entry>>

  /** The walks the code asks the file system for. `walk(p)` is the full
      pre-order walk of `p` sorted by name at every level, starting with
      `p` itself (`WalkDir::new(p).sort_by(file_name_cmp)`); `walkAtDepth(p, d)`
      yields only the entries `d` levels below `p`, sorted by name
      (`.min_depth(d).max_depth(d).sort_by(file_name_cmp)`). */
  datatype FileSystem = FileSystem(walk: string -> Listing, walkAtDepth: (string, nat) -> Listing)

  /** `file_name_cmp`: entries are ordered by their final name component only. */
  function FileNameCmp(a: Entry, b: Entry): (r: Names.Ordering)
    ensures r == Names.Equal <==> a.name == b.name
  {
    Names.BytesCmp(a.name, b.name)
  }

  /** What walkdir guarantees of a one-level listing: the entries it yields
      have strictly increasing names. */
  predicate StrictlySorted(w: Listing) {
    forall i, j :: 0 <= i < j < |w| && w[i].Ok? && w[j].Ok? ==>
      Names.BytesCmp(w[i].value.name, w[j].value.name) == Names.Less
  }

  // ---------------------------------------------------------------------
  // longest_identifier

  /** The `try_fold` step by step: the running maximum `acc` of the path
      lengths seen so far, stopping at the first error. */
  function LongestFrom(items: Listing, acc: nat): (r: Result<nat>)
    ensures r.Ok? <==> ErrorFree(items)
    ensures r.Ok? ==> acc <= r.value
    ensures r.Ok? ==> forall k :: 0 <= k < |items| ==> |items[k].value.path| <= r.value
    ensures r.Ok? ==> r.value == acc || exists k :: 0 <= k < |items| && |items[k].value.path| == r.value
    ensures r.Err? ==> exists k :: 0 <= k < |items| && items[k] == Err(r.error) && ErrorFree(items[..k])
  {
    if items == [] then Ok(acc)
    else
      match items[0]
      case Err(e) =>
        assert items[..0] == [];
        Err(e)
      case Ok(entry) =>
        var r := LongestFrom(items[1..], if acc < |entry.path| then |entry.path| else acc);
        assert r.Err? ==> forall k :: 0 <= k < |items| - 1 ==> items[1..][..k] == items[1..k + 1];
        r
  }

  /** `longest_identifier`: over the items of the unsorted walk of a path
      down to depth 1 (the path itself first, then its children), the length
      of the longest path (0 when there are none), or the first error. */
  function LongestIdentifier(items: Listing): (r: Result<nat>)
    ensures r.Ok? <==> ErrorFree(items)
    ensures r.Ok? ==> forall k :: 0 <= k < |items| ==> |items[k].value.path| <= r.value
    ensures r.Ok? && r.value > 0 ==> exists k :: 0 <= k < |items| && |items[k].value.path| == r.value
    ensures r.Err? ==> exists k :: 0 <= k < |items| && items[k] == Err(r.error) && ErrorFree(items[..k])
  {
    LongestFrom(items, 0)
  }

  // ---------------------------------------------------------------------
  // diff_dirs

  datatype DiffResult = Equal | NotEqual

  /** The verdict of `diff_dirs`'s loop once both walks have been advanced
      `i` times: both walks move together, one entry per matched name. */
  function DirsVerdict(w1: Listing, w2: Listing, i: nat): Result<DiffResult>
    decreases |w1| - i
  {
    match (At<Result<Entry>>(w1, i), At<Result<Entry>>(w2, i))
    case (Some(Ok(d1)), Some(Ok(d2))) =>
      (match FileNameCmp(d1, d2)
       case Equal =>
         if d1.kind != d2.kind then Ok(NotEqual)
         else if d1.kind == RegularFile then
           match ContentsVerdict(d1.contents, d2.contents)
           case Err(e) => Err(e)
           case Ok(same) => if !same then Ok(NotEqual) else DirsVerdict(w1, w2, i + 1)
         else DirsVerdict(w1, w2, i + 1)
       case Greater => Ok(NotEqual)
       case Less => Ok(NotEqual))
    case (Some(Ok(_)), None) => Ok(NotEqual)
    case (None, Some(Ok(_))) => Ok(NotEqual)
    case (Some(Err(e)), _) => Err(e)
    case (_, Some(Err(e))) => Err(e)
    case (None, None) => Ok(Equal)
  }

  /** `diff_dirs(dir1, dir2)`: walk both paths in full and compare them in
      lockstep. */
  method DiffDirs(fs: FileSystem, dir1: string, dir2: string) returns (r: Result<DiffResult>)
    ensures r == DirsVerdict(fs.walk(dir1), fs.walk(dir2), 0)
  {
    var w1, w2 := fs.walk(dir1), fs.walk(dir2);
    var i := 0;
    while true
      invariant DirsVerdict(w1, w2, i) == DirsVerdict(w1, w2, 0)
      decreases |w1| - i
    {
      match (At<Result<Entry>>(w1, i), At<Result<Entry>>(w2, i)) {
        case (Some(Ok(d1)), Some(Ok(d2))) =>
          match FileNameCmp(d1, d2) {
            case Equal =>
              if d1.kind != d2.kind {
                return Ok(NotEqual);
              }
              if d1.kind == RegularFile {
                var same := FileContentsEqual(d1.contents, d2.contents);
                if same.Err? {
                  return Err(same.error);
                }
                if !same.value {
                  return Ok(NotEqual);
                }
              }
              i := i + 1;
            case Greater =>
              return Ok(NotEqual);
            case Less =>
              return Ok(NotEqual);
          }
        case (Some(Ok(_)), None) =>
          return Ok(NotEqual);
        case (None, Some(Ok(_))) =>
          return Ok(NotEqual);
        case (Some(Err(e)), _) =>
          return Err(e);
        case (_, Some(Err(e))) =>
          return Err(e);
        case (None, None) =>
          return Ok(Equal);
      }
    }
  }

  /** Two entries the loop steps past: same name, same kind and, for
      regular files, contents the comparator finds equal. */
  predicate Agree(d1: Entry, d2: Entry) {
    d1.name == d2.name && d1.kind == d2.kind &&
    (d1.kind == RegularFile ==> ContentsVerdict(d1.contents, d2.contents) == Ok(true))
  }

  /** The first `k` items of both walks are entries that agree pairwise. */
  predicate AgreeBefore(w1: Listing, w2: Listing, k: nat) {
    k <= |w1| && k <= |w2| &&
    forall j :: 0 <= j < k ==> w1[j].Ok? && w2[j].Ok? && Agree(w1[j].value, w2[j].value)
  }

  /** The two walks are equal as flat sequences of (name, kind, contents). */
  predicate Matching(w1: Listing, w2: Listing) {
    |w1| == |w2| && AgreeBefore(w1, w2, |w1|)
  }

  /** Agreeing items do not affect the verdict: it is decided at the first
      position where the walks do not agree. */
  lemma {:induction false} VerdictAfterAgreement(w1: Listing, w2: Listing, i: nat, k: nat)
    requires i <= k && AgreeBefore(w1, w2, k)
    ensures DirsVerdict(w1, w2, i) == DirsVerdict(w1, w2, k)
    decreases k - i
  {
    if i < k {
      VerdictAfterAgreement(w1, w2, i + 1, k);
    }
  }

  /** `diff_dirs` answers `Equal` exactly when both walks are error free and
      have the same length, the same names and kinds position by position,
      and equal contents for every pair of regular files. */
  lemma {:induction false} EqualIffMatching(w1: Listing, w2: Listing)
    ensures DirsVerdict(w1, w2, 0) == Ok(Equal) <==> Matching(w1, w2)
    ensures Matching(w1, w2) ==> ErrorFree(w1) && ErrorFree(w2)
  {
    EqualFromIffMatching(w1, w2, 0);
  }

  lemma {:induction false} EqualFromIffMatching(w1: Listing, w2: Listing, i: nat)
    requires AgreeBefore(w1, w2, i)
    ensures DirsVerdict(w1, w2, i) == Ok(Equal) <==> Matching(w1, w2)
    decreases |w1| - i
  {
    if i < |w1| && i < |w2| && w1[i].Ok? && w2[i].Ok? && Agree(w1[i].value, w2[i].value) {
      EqualFromIffMatching(w1, w2, i + 1);
    } else if i < |w1| && i < |w2| {
      assert !AgreeBefore(w1, w2, i + 1);
    }
  }

  /** Differing names at the first disagreement answer `NotEqual`, whatever
      follows. */
  lemma NamesDifferAt(w1: Listing, w2: Listing, k: nat)
    requires AgreeBefore(w1, w2, k) && k < |w1| && k < |w2|
    requires w1[k].Ok? && w2[k].Ok? && w1[k].value.name != w2[k].value.name
    ensures DirsVerdict(w1, w2, 0) == Ok(NotEqual)
  {
    VerdictAfterAgreement(w1, w2, 0, k);
  }

  /** One walk ending while the other still yields an entry answers `NotEqual`. */
  lemma WalkEndsFirst(w1: Listing, w2: Listing, k: nat)
    requires AgreeBefore(w1, w2, k)
    requires (k == |w1| && k < |w2| && w2[k].Ok?) || (k == |w2| && k < |w1| && w1[k].Ok?)
    ensures DirsVerdict(w1, w2, 0) == Ok(NotEqual)
  {
    VerdictAfterAgreement(w1, w2, 0, k);
  }

  /** A matched name with differing kinds answers `NotEqual` without
      comparing contents. */
  lemma KindsDifferAt(w1: Listing, w2: Listing, k: nat)
    requires AgreeBefore(w1, w2, k) && k < |w1| && k < |w2|
    requires w1[k].Ok? && w2[k].Ok? && w1[k].value.name == w2[k].value.name
    requires w1[k].value.kind != w2[k].value.kind
    ensures DirsVerdict(w1, w2, 0) == Ok(NotEqual)
  {
    VerdictAfterAgreement(w1, w2, 0, k);
  }

  /** A matched pair of regular files: the comparator's `Ok(false)` answers
      `NotEqual`, its error is the verdict's error. */
  lemma ContentsDecideAt(w1: Listing, w2: Listing, k: nat)
    requires AgreeBefore(w1, w2, k) && k < |w1| && k < |w2|
    requires w1[k].Ok? && w2[k].Ok? && w1[k].value.name == w2[k].value.name
    requires w1[k].value.kind == RegularFile && w2[k].value.kind == RegularFile
    requires ContentsVerdict(w1[k].value.contents, w2[k].value.contents) != Ok(true)
    ensures ContentsVerdict(w1[k].value.contents, w2[k].value.contents) == Ok(false) ==>
              DirsVerdict(w1, w2, 0) == Ok(NotEqual)
    ensures ContentsVerdict(w1[k].value.contents, w2[k].value.contents).Err? ==>
              DirsVerdict(w1, w2, 0) == Err(ContentsVerdict(w1[k].value.contents, w2[k].value.contents).error)
  {
    VerdictAfterAgreement(w1, w2, 0, k);
  }

  /** An error item of the first walk is the verdict whatever the second
      yields there; an error item of the second walk is the verdict when the
      first yielded an entry or had ended. */
  lemma WalkErrorAt(w1: Listing, w2: Listing, k: nat)
    requires AgreeBefore(w1, w2, k)
    requires (k < |w1| && w1[k].Err?) || (k < |w2| && w2[k].Err?)
    ensures k < |w1| && w1[k].Err? ==> DirsVerdict(w1, w2, 0) == Err(w1[k].error)
    ensures (k >= |w1| || w1[k].Ok?) ==> DirsVerdict(w1, w2, 0) == Err(w2[k].error)
  {
    VerdictAfterAgreement(w1, w2, 0, k);
  }

  /** `w2` is `w1` except perhaps for what reading an entry that is not a
      regular file would give. */
  predicate SameBarNonFileContents(w1: Listing, w2: Listing) {
    |w1| == |w2| &&
    forall k :: 0 <= k < |w1| ==>
      w1[k] == w2[k] ||
      (w1[k].Ok? && w2[k].Ok? && w1[k].value.kind != RegularFile &&
       w1[k].value.(contents := w2[k].value.contents) == w2[k].value)
  }

  /** The content comparator is consulted only for pairs of regular files:
      what reading any other entry would give never changes the verdict. */
  lemma {:induction false} NonFileContentsIgnored(w1: Listing, w2: Listing, v1: Listing, v2: Listing, i: nat)
    requires SameBarNonFileContents(w1, v1) && SameBarNonFileContents(w2, v2)
    ensures DirsVerdict(w1, w2, i) == DirsVerdict(v1, v2, i)
    decreases |w1| - i
  {
    if i < |w1| && i < |w2| {
      NonFileContentsIgnored(w1, w2, v1, v2, i + 1);
    }
  }

  /** Every regular file among the entries can be read without errors. */
  predicate FilesReadable(w: Listing) {
    forall k :: 0 <= k < |w| && w[k].Ok? && w[k].value.kind == RegularFile ==>
      Readable(w[k].value.contents)
  }

  /** `diff_dirs` of a path with itself: an error-free walk whose files all
      read without errors answers `Equal`. */
  lemma DiffDirsReflexive(w: Listing)
    requires ErrorFree(w) && FilesReadable(w)
    ensures DirsVerdict(w, w, 0) == Ok(Equal)
  {
    forall k | 0 <= k < |w| ensures Agree(w[k].value, w[k].value) {
      if w[k].value.kind == RegularFile {
        SelfComparison(w[k].value.contents);
      }
    }
    EqualIffMatching(w, w);
  }

  /** Swapping the two walks changes at most which error is reported. */
  lemma {:induction false} DiffDirsSymmetric(w1: Listing, w2: Listing, i: nat)
    ensures SameOutcome(DirsVerdict(w1, w2, i), DirsVerdict(w2, w1, i))
    decreases |w1| - i
  {
    if i < |w1| && i < |w2| && w1[i].Ok? && w2[i].Ok? {
      var d1, d2 := w1[i].value, w2[i].value;
      Names.CmpAntisymmetric(d1.name, d2.name);
      if d1.name == d2.name && d1.kind == d2.kind {
        if d1.kind == RegularFile {
          ContentsVerdictSymmetric(d1.contents, d2.contents);
        }
        DiffDirsSymmetric(w1, w2, i + 1);
      }
    }
  }

  // ---------------------------------------------------------------------
  // Entries at different levels

  /** Every position where both walks hold an entry, from `i` on, holds
      entries at the same depth. */
  predicate SameDepthsFrom(w1: Listing, w2: Listing, i: nat) {
    forall k :: i <= k < |w1| && k < |w2| && w1[k].Ok? && w2[k].Ok? ==>
      w1[k].value.depth == w2[k].value.depth
  }

  /** `diff_dirs` as evidently meant: the same lockstep walk, where two
      entries of equal name are also compared by depth, so that a file is
      matched only against the file of its name in the same directory. */
  function IntendedDirsVerdict(w1: Listing, w2: Listing, i: nat): Result<DiffResult>
    decreases |w1| - i
  {
    match (At<Result<Entry>>(w1, i), At<Result<Entry>>(w2, i))
    case (Some(Ok(d1)), Some(Ok(d2))) =>
      (match FileNameCmp(d1, d2)
       case Equal =>
         if d1.kind != d2.kind || d1.depth != d2.depth then Ok(NotEqual)
         else if d1.kind == RegularFile then
           match ContentsVerdict(d1.contents, d2.contents)
           case Err(e) => Err(e)
           case Ok(same) => if !same then Ok(NotEqual) else IntendedDirsVerdict(w1, w2, i + 1)
         else IntendedDirsVerdict(w1, w2, i + 1)
       case Greater => Ok(NotEqual)
       case Less => Ok(NotEqual))
    case (Some(Ok(_)), None) => Ok(NotEqual)
    case (None, Some(Ok(_))) => Ok(NotEqual)
    case (Some(Err(e)), _) => Err(e)
    case (_, Some(Err(e))) => Err(e)
    case (None, None) => Ok(Equal)
  }

  /** The corrected check reports equality exactly when the code as written
      does and, in addition, every pair of compared entries lies at the same
      depth. */
  lemma {:induction false} IntendedEqualIffSameDepths(w1: Listing, w2: Listing, i: nat)
    ensures IntendedDirsVerdict(w1, w2, i) == Ok(Equal) <==>
            DirsVerdict(w1, w2, i) == Ok(Equal) && SameDepthsFrom(w1, w2, i)
    decreases |w1| - i
  {
    if i < |w1| && i < |w2| && w1[i].Ok? && w2[i].Ok? {
      var d1, d2 := w1[i].value, w2[i].value;
      if d1.name == d2.name && d1.kind == d2.kind && d1.depth == d2.depth {
        IntendedEqualIffSameDepths(w1, w2, i + 1);
      }
    }
  }

  /** Two walks compare equal under the corrected check exactly when they
      list pairwise agreeing entries at the same depths: the same names,
      kinds and contents at the same places in the two trees. */
  lemma IntendedEqualIffMatching(w1: Listing, w2: Listing)
    ensures IntendedDirsVerdict(w1, w2, 0) == Ok(Equal) <==> Matching(w1, w2) && SameDepthsFrom(w1, w2, 0)
  {
    IntendedEqualIffSameDepths(w1, w2, 0);
    EqualIffMatching(w1, w2);
  }

  /** An empty file of name `name` at `path`, `depth` levels down. */
  function FileEntry(path: string, name: seq<byte>, depth: nat): Entry {
    Entry(path, name, RegularFile, FileRecord(Ok(0), Ok([])), depth)
  }

  /** A directory of name `name` at `path`, `depth` levels down. */
  function DirectoryEntry(path: string, name: seq<byte>, depth: nat): Entry {
    Entry(path, name, Directory, FileRecord(Ok(0), Ok([])), depth)
  }

  /** `x/r` holds `a/f` and `y/r` holds `a` and `f`, with `f` an empty file
      in both: the walks list the names `r`, `a`, `f` with the same kinds,
      so the code as written reports the trees equal although `f` sits in
      different directories; the corrected check reports them different. */
  lemma MovedFileComparesEqual()
    ensures var r, a, f := [114], [97], [102];
            var w1 := [Ok(DirectoryEntry("x/r", r, 0)), Ok(DirectoryEntry("x/r/a", a, 1)), Ok(FileEntry("x/r/a/f", f, 2))];
            var w2 := [Ok(DirectoryEntry("y/r", r, 0)), Ok(DirectoryEntry("y/r/a", a, 1)), Ok(FileEntry("y/r/f", f, 1))];
            DirsVerdict(w1, w2, 0) == Ok(Equal) && IntendedDirsVerdict(w1, w2, 0) == Ok(NotEqual)
  {
    var r, a, f := [114], [97], [102];
    var w1 := [Ok(DirectoryEntry("x/r", r, 0)), Ok(DirectoryEntry("x/r/a", a, 1)), Ok(FileEntry("x/r/a/f", f, 2))];
    var w2 := [Ok(DirectoryEntry("y/r", r, 0)), Ok(DirectoryEntry("y/r/a", a, 1)), Ok(FileEntry("y/r/f", f, 1))];
    assert ContentsVerdict(FileRecord(Ok(0), Ok([])), FileRecord(Ok(0), Ok([]))) == Ok(true);
    assert DirsVerdict(w1, w2, 2) == DirsVerdict(w1, w2, 3) == Ok(Equal);
    assert IntendedDirsVerdict(w1, w2, 2) == Ok(NotEqual);
    assert IntendedDirsVerdict(w1, w2, 0) == IntendedDirsVerdict(w1, w2, 1) == IntendedDirsVerdict(w1, w2, 2);
  }
}
