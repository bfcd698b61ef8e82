/** The top-level merge of dfu-core/src/directories.rs: `TreeDiff`,
    `diff_trees` and the iterator `TreeDiffIter`, whose `next` joins two
    name-sorted one-level listings, one peeked item per side. */
module TreeDiffs {
  import opened Results
  import opened Directories
  import Files
  import Names

  /** One line of the report: a name found on one side only, or on both
      sides with matching or differing subtrees. */
  datatype TreeDiff =
    | Left(path: string)
    | Right(path: string)
    | Matches(left: string, right: string)
    | Differs(left: string, right: string)

  /** What one call of `next` yields and where the two cursors stand after it. */
  datatype StepResult = StepResult(item: Option<Result<TreeDiff>>, next1: nat, next2: nat)

  /** One call of `TreeDiffIter::next` with the cursors at `i` and `j`, as
      the code is written: both unequal-name arms and the arm for an
      exhausted left side report `Left`. */
  function Step(fs: FileSystem, w1: Listing, w2: Listing, i: nat, j: nat): (s: StepResult)
    requires i <= |w1| && j <= |w2|
    ensures i <= s.next1 <= i + 1 && s.next1 <= |w1|
    ensures j <= s.next2 <= j + 1 && s.next2 <= |w2|
    ensures s.item.None? <==> i == |w1| && j == |w2|
    ensures s.item.Some? && s.item.value.Ok? ==> i + j < s.next1 + s.next2
  {
    match (At<Result<Entry>>(w1, i), At<Result<Entry>>(w2, j))
    case (Some(Ok(d1)), Some(Ok(d2))) =>
      (match FileNameCmp(d1, d2)
       case Equal =>
         (match DirsVerdict(fs.walk(d1.path), fs.walk(d2.path), 0)
          case Ok(Equal) => StepResult(Some(Ok(Matches(d1.path, d2.path))), i + 1, j + 1)
          case Ok(NotEqual) => StepResult(Some(Ok(Differs(d1.path, d2.path))), i + 1, j + 1)
          case Err(e) => StepResult(Some(Err(e)), i, j))
       case Greater => StepResult(Some(Ok(Left(d2.path))), i, j + 1)
       case Less => StepResult(Some(Ok(Left(d1.path))), i + 1, j))
    case (Some(Ok(d1)), None) => StepResult(Some(Ok(Left(d1.path))), i + 1, j)
    case (None, Some(Ok(d2))) => StepResult(Some(Ok(Left(d2.path))), i, j + 1)
    case (Some(Err(e)), _) => StepResult(Some(Err(e)), i + 1, j)
    case (_, Some(Err(e))) => StepResult(Some(Err(e)), i, j + 1)
    case (None, None) => StepResult(None, i, j)
  }

  /** The iterator: two listings and a peek cursor into each. The file
      system is what `diff_dirs` walks for a matched pair. */
  class TreeDiffIter {
    const fs: FileSystem
    const walker1: Listing
    const walker2: Listing
    var pos1: nat
    var pos2: nat

    ghost predicate Valid()
      reads this
    {
      pos1 <= |walker1| && pos2 <= |walker2|
    }

    constructor (fs: FileSystem, walker1: Listing, walker2: Listing)
      ensures Valid()
      ensures this.fs == fs && this.walker1 == walker1 && this.walker2 == walker2
      ensures pos1 == 0 && pos2 == 0
    {
      this.fs := fs;
      this.walker1 := walker1;
      this.walker2 := walker2;
      pos1, pos2 := 0, 0;
    }

    /** `TreeDiffIter::next`: peek at both listings, yield one item and
        advance the cursors the step says. */
    method Next() returns (item: Option<Result<TreeDiff>>)
      requires Valid()
      modifies this
      ensures Valid()
      ensures StepResult(item, pos1, pos2) == Step(fs, walker1, walker2, old(pos1), old(pos2))
    {
      match (At<Result<Entry>>(walker1, pos1), At<Result<Entry>>(walker2, pos2)) {
        case (Some(Ok(d1)), Some(Ok(d2))) =>
          match FileNameCmp(d1, d2) {
            case Equal =>
              var verdict := DiffDirs(fs, d1.path, d2.path);
              match verdict {
                case Ok(Equal) =>
                  item := Some(Ok(Matches(d1.path, d2.path)));
                  pos1, pos2 := pos1 + 1, pos2 + 1;
                case Ok(NotEqual) =>
                  item := Some(Ok(Differs(d1.path, d2.path)));
                  pos1, pos2 := pos1 + 1, pos2 + 1;
                case Err(e) =>
                  item := Some(Err(e));
              }
            case Greater =>
              item := Some(Ok(Left(d2.path)));
              pos2 := pos2 + 1;
            case Less =>
              item := Some(Ok(Left(d1.path)));
              pos1 := pos1 + 1;
          }
        case (Some(Ok(d1)), None) =>
          item := Some(Ok(Left(d1.path)));
          pos1 := pos1 + 1;
        case (None, Some(Ok(d2))) =>
          item := Some(Ok(Left(d2.path)));
          pos2 := pos2 + 1;
        case (Some(Err(e)), _) =>
          item := Some(Err(e));
          pos1 := pos1 + 1;
        case (_, Some(Err(e))) =>
          item := Some(Err(e));
          pos2 := pos2 + 1;
        case (None, None) =>
          item := None;
      }
    }

    /** The consumer's loop: pull items until the iterator ends or yields
        an error, which is kept as the last item. */
    method DriveUntilError() returns (items: seq<Result<TreeDiff>>)
      requires Valid()
      modifies this
      ensures Valid()
      ensures items == Run(fs, walker1, walker2, old(pos1), old(pos2))
      ensures (pos1, pos2) == RunEnd(fs, walker1, walker2, old(pos1), old(pos2))
      ensures ErrorFree(items) ==> pos1 == |walker1| && pos2 == |walker2|
    {
      items := [];
      while true
        invariant Valid()
        invariant items + Run(fs, walker1, walker2, pos1, pos2) == Run(fs, walker1, walker2, old(pos1), old(pos2))
        invariant RunEnd(fs, walker1, walker2, pos1, pos2) == RunEnd(fs, walker1, walker2, old(pos1), old(pos2))
        decreases |walker1| - pos1 + |walker2| - pos2
      {
        var item := Next();
        match item {
          case None =>
            return;
          case Some(Err(e)) =>
            items := items + [Err(e)];
            return;
          case Some(Ok(td)) =>
            items := items + [Ok(td)];
        }
      }
    }
  }

  /** `diff_trees(dir1, dir2, depth)` as written: both listings are built
      from `dir1`, so `dir2` is never read. */
  method DiffTrees(fs: FileSystem, dir1: string, dir2: string, depth: nat) returns (it: TreeDiffIter)
    ensures fresh(it) && it.Valid() && it.fs == fs
    ensures it.walker1 == fs.walkAtDepth(dir1, depth) && it.walker2 == fs.walkAtDepth(dir1, depth)
    ensures it.pos1 == 0 && it.pos2 == 0
  {
    it := new TreeDiffIter(fs, fs.walkAtDepth(dir1, depth), fs.walkAtDepth(dir1, depth));
  }

  /** The items a consumer sees when it pulls until the end or the first
      error, the error included: reported items followed by at most one
      error, at most one item per entry plus that error, and nothing at
      all exactly when both listings are already used up. */
  function Run(fs: FileSystem, w1: Listing, w2: Listing, i: nat, j: nat): (r: seq<Result<TreeDiff>>)
    requires i <= |w1| && j <= |w2|
    ensures forall k :: 0 <= k < |r| - 1 ==> r[k].Ok?
    ensures |r| <= |w1| - i + |w2| - j + 1
    ensures r == [] <==> i == |w1| && j == |w2|
    decreases |w1| - i + |w2| - j
  {
    var s := Step(fs, w1, w2, i, j);
    match s.item
    case None => []
    case Some(Err(e)) => [Err(e)]
    case Some(Ok(td)) => [Ok(td)] + Run(fs, w1, w2, s.next1, s.next2)
  }

  /** Where the cursors stand once `Run` stops: past the last entry of
      both listings when nothing failed, otherwise where the error left
      them. */
  function RunEnd(fs: FileSystem, w1: Listing, w2: Listing, i: nat, j: nat): (e: (nat, nat))
    requires i <= |w1| && j <= |w2|
    ensures i <= e.0 <= |w1| && j <= e.1 <= |w2|
    ensures ErrorFree(Run(fs, w1, w2, i, j)) ==> e == (|w1|, |w2|)
    decreases |w1| - i + |w2| - j
  {
    var s := Step(fs, w1, w2, i, j);
    match s.item
    case None => (i, j)
    case Some(Err(err)) =>
      assert Run(fs, w1, w2, i, j)[0] == Err(err);
      (s.next1, s.next2)
    case Some(Ok(td)) =>
      var rest := Run(fs, w1, w2, s.next1, s.next2);
      assert ErrorFree([Ok(td)] + rest) ==> ErrorFree(rest) by {
        if ErrorFree([Ok(td)] + rest) {
          forall k | 0 <= k < |rest| ensures rest[k].Ok? {
            assert rest[k] == ([Ok(td)] + rest)[k + 1];
          }
        }
      }
      RunEnd(fs, w1, w2, s.next1, s.next2)
  }

  // ---------------------------------------------------------------------
  // One step

  /** Equal names: `diff_dirs` on the two paths decides between `Matches`
      and `Differs` and both cursors advance; its error is yielded with
      neither cursor moving. */
  lemma StepEqualNames(fs: FileSystem, w1: Listing, w2: Listing, i: nat, j: nat)
    requires i < |w1| && j < |w2| && w1[i].Ok? && w2[j].Ok?
    requires w1[i].value.name == w2[j].value.name
    ensures var s := Step(fs, w1, w2, i, j);
            var p, q := w1[i].value.path, w2[j].value.path;
            match DirsVerdict(fs.walk(p), fs.walk(q), 0)
            case Ok(Equal) => s == StepResult(Some(Ok(Matches(p, q))), i + 1, j + 1)
            case Ok(NotEqual) => s == StepResult(Some(Ok(Differs(p, q))), i + 1, j + 1)
            case Err(e) => s == StepResult(Some(Err(e)), i, j)
  {
  }

  /** Unequal names: only the cursor on the smaller name advances, and its
      entry is reported as `Left`, whichever side it is on. */
  lemma StepUnequalNames(fs: FileSystem, w1: Listing, w2: Listing, i: nat, j: nat)
    requires i < |w1| && j < |w2| && w1[i].Ok? && w2[j].Ok?
    requires w1[i].value.name != w2[j].value.name
    ensures Names.BytesCmp(w1[i].value.name, w2[j].value.name) == Names.Less ==>
              Step(fs, w1, w2, i, j) == StepResult(Some(Ok(Left(w1[i].value.path))), i + 1, j)
    ensures Names.BytesCmp(w2[j].value.name, w1[i].value.name) == Names.Less ==>
              Step(fs, w1, w2, i, j) == StepResult(Some(Ok(Left(w2[j].value.path))), i, j + 1)
  {
    Names.CmpAntisymmetric(w1[i].value.name, w2[j].value.name);
  }

  /** One listing exhausted: the other side's entry is reported as `Left`
      and only its cursor advances. */
  lemma StepOneSideExhausted(fs: FileSystem, w1: Listing, w2: Listing, i: nat, j: nat)
    requires i <= |w1| && j <= |w2|
    requires (i < |w1| && w1[i].Ok? && j == |w2|) || (i == |w1| && j < |w2| && w2[j].Ok?)
    ensures i < |w1| ==> Step(fs, w1, w2, i, j) == StepResult(Some(Ok(Left(w1[i].value.path))), i + 1, j)
    ensures j < |w2| ==> Step(fs, w1, w2, i, j) == StepResult(Some(Ok(Left(w2[j].value.path))), i, j + 1)
  {
  }

  /** A peeked error item is yielded and only its side advances; the left
      side is looked at first. */
  lemma StepErrorItem(fs: FileSystem, w1: Listing, w2: Listing, i: nat, j: nat)
    requires i <= |w1| && j <= |w2|
    requires (i < |w1| && w1[i].Err?) || (j < |w2| && w2[j].Err?)
    ensures i < |w1| && w1[i].Err? ==> Step(fs, w1, w2, i, j) == StepResult(Some(Err(w1[i].error)), i + 1, j)
    ensures (i == |w1| || w1[i].Ok?) ==> Step(fs, w1, w2, i, j) == StepResult(Some(Err(w2[j].error)), i, j + 1)
  {
  }

  // ---------------------------------------------------------------------
  // Whole runs

  /** Every subtree below the entries of `w` can be walked and read without
      errors. */
  predicate SubtreesReadable(fs: FileSystem, w: Listing) {
    forall k :: 0 <= k < |w| && w[k].Ok? ==>
      ErrorFree(fs.walk(w[k].value.path)) && FilesReadable(fs.walk(w[k].value.path))
  }

  /** Two identical listings, which is what `diff_trees` always builds,
      report every entry as `Matches` of its own path, in listing order,
      when nothing fails. */
  lemma {:induction false} IdenticalListingsAllMatch(fs: FileSystem, w: Listing, i: nat)
    requires i <= |w| && ErrorFree(w) && SubtreesReadable(fs, w)
    ensures |Run(fs, w, w, i, i)| == |w| - i
    ensures forall k :: i <= k < |w| ==>
              Run(fs, w, w, i, i)[k - i] == Ok(Matches(w[k].value.path, w[k].value.path))
    decreases |w| - i
  {
    if i < |w| {
      var p := w[i].value.path;
      DiffDirsReflexive(fs.walk(p));
      assert Step(fs, w, w, i, i) == StepResult(Some(Ok(Matches(p, p))), i + 1, i + 1);
      IdenticalListingsAllMatch(fs, w, i + 1);
    }
  }

  // ---------------------------------------------------------------------
  // The merge as documented, and how the code departs from it

  /** One step of the merge as documented: an entry found only in the
      second listing is reported as `Right`. */
  function IntendedStep(fs: FileSystem, w1: Listing, w2: Listing, i: nat, j: nat): (s: StepResult)
    requires i <= |w1| && j <= |w2|
    ensures i <= s.next1 <= i + 1 && s.next1 <= |w1|
    ensures j <= s.next2 <= j + 1 && s.next2 <= |w2|
    ensures s.item.None? <==> i == |w1| && j == |w2|
    ensures s.item.Some? && s.item.value.Ok? ==> i + j < s.next1 + s.next2
  {
    match (At<Result<Entry>>(w1, i), At<Result<Entry>>(w2, j))
    case (Some(Ok(d1)), Some(Ok(d2))) =>
      (match FileNameCmp(d1, d2)
       case Equal =>
         (match DirsVerdict(fs.walk(d1.path), fs.walk(d2.path), 0)
          case Ok(Equal) => StepResult(Some(Ok(Matches(d1.path, d2.path))), i + 1, j + 1)
          case Ok(NotEqual) => StepResult(Some(Ok(Differs(d1.path, d2.path))), i + 1, j + 1)
          case Err(e) => StepResult(Some(Err(e)), i, j))
       case Greater => StepResult(Some(Ok(Right(d2.path))), i, j + 1)
       case Less => StepResult(Some(Ok(Left(d1.path))), i + 1, j))
    case (Some(Ok(d1)), None) => StepResult(Some(Ok(Left(d1.path))), i + 1, j)
    case (None, Some(Ok(d2))) => StepResult(Some(Ok(Right(d2.path))), i, j + 1)
    case (Some(Err(e)), _) => StepResult(Some(Err(e)), i + 1, j)
    case (_, Some(Err(e))) => StepResult(Some(Err(e)), i, j + 1)
    case (None, None) => StepResult(None, i, j)
  }

  /** The documented run: pull until the end or the first error. */
  function IntendedRun(fs: FileSystem, w1: Listing, w2: Listing, i: nat, j: nat): seq<Result<TreeDiff>>
    requires i <= |w1| && j <= |w2|
    decreases |w1| - i + |w2| - j
  {
    var s := IntendedStep(fs, w1, w2, i, j);
    match s.item
    case None => []
    case Some(Err(e)) => [Err(e)]
    case Some(Ok(td)) => [Ok(td)] + IntendedRun(fs, w1, w2, s.next1, s.next2)
  }


  /** What the code does to a documented item: `Right` becomes `Left`. */
  function AsWritten(x: Result<TreeDiff>): Result<TreeDiff> {
    match x
    case Ok(Right(p)) => Ok(Left(p))
    case _ => x
  }

  function AllAsWritten(items: seq<Result<TreeDiff>>): (r: seq<Result<TreeDiff>>)
    ensures |r| == |items| && forall k :: 0 <= k < |items| ==> r[k] == AsWritten(items[k])
  {
    seq(|items|, k requires 0 <= k < |items| => AsWritten(items[k]))
  }

  /** The code's run is the documented run with every `Right` relabelled
      `Left`: the cursors move exactly as documented. */
  lemma {:induction false} RunIsRelabelledIntendedRun(fs: FileSystem, w1: Listing, w2: Listing, i: nat, j: nat)
    requires i <= |w1| && j <= |w2|
    ensures Run(fs, w1, w2, i, j) == AllAsWritten(IntendedRun(fs, w1, w2, i, j))
    decreases |w1| - i + |w2| - j
  {
    var s := IntendedStep(fs, w1, w2, i, j);
    assert Step(fs, w1, w2, i, j) == s.(item := if s.item.Some? then Some(AsWritten(s.item.value)) else None);
    if s.item.Some? && s.item.value.Ok? {
      RunIsRelabelledIntendedRun(fs, w1, w2, s.next1, s.next2);
    }
  }

  /** `TreeDiff::Right` is never produced by the code. */
  lemma RunNeverRight(fs: FileSystem, w1: Listing, w2: Listing, i: nat, j: nat)
    requires i <= |w1| && j <= |w2|
    ensures forall x :: x in Run(fs, w1, w2, i, j) ==> !(x.Ok? && x.value.Right?)
  {
    RunIsRelabelledIntendedRun(fs, w1, w2, i, j);
    var run := Run(fs, w1, w2, i, j);
    forall x | x in run ensures !(x.Ok? && x.value.Right?) {
      var k :| 0 <= k < |run| && run[k] == x;
    }
  }

  /** Paths that the reported items name. */
  function Mentioned(items: seq<Result<TreeDiff>>): set<string> {
    if items == [] then {}
    else
      (match items[0]
       case Err(_) => {}
       case Ok(Left(p)) => {p}
       case Ok(Right(p)) => {p}
       case Ok(Matches(p, q)) => {p, q}
       case Ok(Differs(p, q)) => {p, q}) + Mentioned(items[1..])
  }

  /** Relabelling keeps the paths named. */
  lemma {:induction false} AsWrittenKeepsMentioned(items: seq<Result<TreeDiff>>)
    ensures Mentioned(AllAsWritten(items)) == Mentioned(items)
    ensures ErrorFree(AllAsWritten(items)) <==> ErrorFree(items)
  {
    if items != [] {
      AsWrittenKeepsMentioned(items[1..]);
      assert AllAsWritten(items)[1..] == AllAsWritten(items[1..]);
    }
  }

  /** A run that ends without an error has consumed both listings and
      reports every entry of both. */
  lemma {:induction false} IntendedRunCovers(fs: FileSystem, w1: Listing, w2: Listing, i: nat, j: nat)
    requires i <= |w1| && j <= |w2|
    requires ErrorFree(IntendedRun(fs, w1, w2, i, j))
    ensures forall k :: i <= k < |w1| ==> w1[k].Ok? && w1[k].value.path in Mentioned(IntendedRun(fs, w1, w2, i, j))
    ensures forall m :: j <= m < |w2| ==> w2[m].Ok? && w2[m].value.path in Mentioned(IntendedRun(fs, w1, w2, i, j))
    decreases |w1| - i + |w2| - j
  {
    var s := IntendedStep(fs, w1, w2, i, j);
    var run := IntendedRun(fs, w1, w2, i, j);
    if s.item.Some? {
      assert run[0] == s.item.value;
      var rest := IntendedRun(fs, w1, w2, s.next1, s.next2);
      assert run == [s.item.value] + rest;
      assert run[1..] == rest;
      assert ErrorFree(rest) by {
        forall k | 0 <= k < |rest| ensures rest[k].Ok? { assert rest[k] == run[k + 1]; }
      }
      IntendedRunCovers(fs, w1, w2, s.next1, s.next2);
    }
  }

  /** The same for the code's run. */
  lemma RunCovers(fs: FileSystem, w1: Listing, w2: Listing, i: nat, j: nat)
    requires i <= |w1| && j <= |w2|
    requires ErrorFree(Run(fs, w1, w2, i, j))
    ensures forall k :: i <= k < |w1| ==> w1[k].Ok? && w1[k].value.path in Mentioned(Run(fs, w1, w2, i, j))
    ensures forall m :: j <= m < |w2| ==> w2[m].Ok? && w2[m].value.path in Mentioned(Run(fs, w1, w2, i, j))
  {
    RunIsRelabelledIntendedRun(fs, w1, w2, i, j);
    AsWrittenKeepsMentioned(IntendedRun(fs, w1, w2, i, j));
    IntendedRunCovers(fs, w1, w2, i, j);
  }

  // ---------------------------------------------------------------------
  // Soundness of the documented merge over sorted listings

  /** No entry from position `j` on in `w` has the name `n`. */
  predicate NameAbsentFrom(w: Listing, j: nat, n: seq<byte>) {
    forall m :: j <= m < |w| && w[m].Ok? ==> w[m].value.name != n
  }

  /** What an item reported with the cursors at `i` and `j` claims: a
      one-sided item names an entry whose name the other listing lacks from
      its cursor on; a matched item names two entries with the same name,
      and `diff_dirs` on their paths chose `Matches` or `Differs`. */
  predicate ItemSound(fs: FileSystem, td: TreeDiff, w1: Listing, w2: Listing, i: nat, j: nat) {
    match td
    case Left(p) =>
      exists k :: i <= k < |w1| && w1[k].Ok? && w1[k].value.path == p && NameAbsentFrom(w2, j, w1[k].value.name)
    case Right(p) =>
      exists m :: j <= m < |w2| && w2[m].Ok? && w2[m].value.path == p && NameAbsentFrom(w1, i, w2[m].value.name)
    case Matches(p, q) =>
      DirsVerdict(fs.walk(p), fs.walk(q), 0) == Ok(Equal) &&
      exists k, m :: i <= k < |w1| && j <= m < |w2| && w1[k].Ok? && w2[m].Ok? &&
        w1[k].value.path == p && w2[m].value.path == q && w1[k].value.name == w2[m].value.name
    case Differs(p, q) =>
      DirsVerdict(fs.walk(p), fs.walk(q), 0) == Ok(NotEqual) &&
      exists k, m :: i <= k < |w1| && j <= m < |w2| && w1[k].Ok? && w2[m].Ok? &&
        w1[k].value.path == p && w2[m].value.path == q && w1[k].value.name == w2[m].value.name
  }

  /** In a sorted listing, a name below the entry at `j` occurs nowhere from `j` on. */
  lemma BelowSortedSuffix(w: Listing, j: nat, n: seq<byte>)
    requires StrictlySorted(w) && j < |w| && w[j].Ok?
    requires Names.BytesCmp(n, w[j].value.name) == Names.Less
    ensures NameAbsentFrom(w, j, n)
  {
    forall m | j <= m < |w| && w[m].Ok? ensures w[m].value.name != n {
      if m > j {
        Names.CmpLessTransitive(n, w[j].value.name, w[m].value.name);
      }
    }
  }

  /** One documented step over sorted listings reports a sound item, and
      the entry under each cursor it moves past is absent from what remains
      of the other listing. */
  lemma IntendedStepSound(fs: FileSystem, w1: Listing, w2: Listing, i: nat, j: nat)
    requires StrictlySorted(w1) && StrictlySorted(w2) && i <= |w1| && j <= |w2|
    requires IntendedStep(fs, w1, w2, i, j).item.Some? && IntendedStep(fs, w1, w2, i, j).item.value.Ok?
    ensures var s := IntendedStep(fs, w1, w2, i, j);
            && ItemSound(fs, s.item.value.value, w1, w2, i, j)
            && (s.next1 == i + 1 ==> w1[i].Ok? && NameAbsentFrom(w2, s.next2, w1[i].value.name))
            && (s.next2 == j + 1 ==> w2[j].Ok? && NameAbsentFrom(w1, s.next1, w2[j].value.name))
  {
    if i < |w1| && j < |w2| && w1[i].Ok? && w2[j].Ok? {
      var n1, n2 := w1[i].value.name, w2[j].value.name;
      Names.CmpAntisymmetric(n1, n2);
      if Names.BytesCmp(n1, n2) == Names.Less {
        BelowSortedSuffix(w2, j, n1);
      } else if Names.BytesCmp(n2, n1) == Names.Less {
        BelowSortedSuffix(w1, i, n2);
      }
    }
  }

  /** A sound item stays sound when the cursors are moved back over entries
      whose names the other listing lacks. */
  lemma WidenSound(fs: FileSystem, td: TreeDiff, w1: Listing, w2: Listing, i: nat, j: nat, i': nat, j': nat)
    requires i <= i' <= i + 1 && j <= j' <= j + 1
    requires ItemSound(fs, td, w1, w2, i', j')
    requires i' == i + 1 ==> i < |w1| && w1[i].Ok? && NameAbsentFrom(w2, j', w1[i].value.name)
    requires j' == j + 1 ==> j < |w2| && w2[j].Ok? && NameAbsentFrom(w1, i', w2[j].value.name)
    ensures ItemSound(fs, td, w1, w2, i, j)
  {
    match td
    case Left(p) =>
      var k :| i' <= k < |w1| && w1[k].Ok? && w1[k].value.path == p && NameAbsentFrom(w2, j', w1[k].value.name);
      assert NameAbsentFrom(w2, j, w1[k].value.name);
    case Right(p) =>
      var m :| j' <= m < |w2| && w2[m].Ok? && w2[m].value.path == p && NameAbsentFrom(w1, i', w2[m].value.name);
      assert NameAbsentFrom(w1, i, w2[m].value.name);
    case Matches(_, _) =>
    case Differs(_, _) =>
  }

  /** Over listings sorted by name, every item the documented merge reports
      is sound: `Left` only for names missing from the second listing,
      `Right` only for names missing from the first, `Matches`/`Differs`
      only for equal names, as `diff_dirs` decides. */
  lemma {:induction false} IntendedRunSound(fs: FileSystem, w1: Listing, w2: Listing, i: nat, j: nat)
    requires StrictlySorted(w1) && StrictlySorted(w2) && i <= |w1| && j <= |w2|
    ensures forall x :: x in IntendedRun(fs, w1, w2, i, j) && x.Ok? ==> ItemSound(fs, x.value, w1, w2, i, j)
    decreases |w1| - i + |w2| - j
  {
    var s := IntendedStep(fs, w1, w2, i, j);
    if s.item.Some? && s.item.value.Ok? {
      var rest := IntendedRun(fs, w1, w2, s.next1, s.next2);
      assert IntendedRun(fs, w1, w2, i, j) == [s.item.value] + rest;
      IntendedStepSound(fs, w1, w2, i, j);
      IntendedRunSound(fs, w1, w2, s.next1, s.next2);
      forall x | x in rest && x.Ok? ensures ItemSound(fs, x.value, w1, w2, i, j) {
        WidenSound(fs, x.value, w1, w2, i, j, s.next1, s.next2);
      }
    }
  }

  /** Over sorted listings, every `Left` the code reports names an entry of
      one listing whose name the other listing lacks, though not which side
      it came from. */
  lemma RunLeftSound(fs: FileSystem, w1: Listing, w2: Listing)
    requires StrictlySorted(w1) && StrictlySorted(w2)
    ensures forall x :: x in Run(fs, w1, w2, 0, 0) && x.Ok? && x.value.Left? ==>
              ItemSound(fs, Left(x.value.path), w1, w2, 0, 0) ||
              ItemSound(fs, Right(x.value.path), w1, w2, 0, 0)
  {
    RunIsRelabelledIntendedRun(fs, w1, w2, 0, 0);
    IntendedRunSound(fs, w1, w2, 0, 0);
    var run, intended := Run(fs, w1, w2, 0, 0), IntendedRun(fs, w1, w2, 0, 0);
    forall x | x in run && x.Ok? && x.value.Left?
      ensures ItemSound(fs, Left(x.value.path), w1, w2, 0, 0) || ItemSound(fs, Right(x.value.path), w1, w2, 0, 0)
    {
      var k :| 0 <= k < |run| && run[k] == x;
      assert intended[k] in intended;
    }
  }

  /** `diff_trees` as documented, one listing per root, driven until the
      end or the first error. Over sorted listings every item is sound, and
      a run without errors reports every entry of both roots. */
  function IntendedDiffTrees(fs: FileSystem, dir1: string, dir2: string, depth: nat): (r: seq<Result<TreeDiff>>)
    ensures var w1, w2 := fs.walkAtDepth(dir1, depth), fs.walkAtDepth(dir2, depth);
            && (StrictlySorted(w1) && StrictlySorted(w2) ==>
                  forall x :: x in r && x.Ok? ==> ItemSound(fs, x.value, w1, w2, 0, 0))
            && (ErrorFree(r) ==>
                  (forall k :: 0 <= k < |w1| ==> w1[k].Ok? && w1[k].value.path in Mentioned(r)) &&
                  (forall m :: 0 <= m < |w2| ==> w2[m].Ok? && w2[m].value.path in Mentioned(r)))
  {
    var w1, w2 := fs.walkAtDepth(dir1, depth), fs.walkAtDepth(dir2, depth);
    var run := IntendedRun(fs, w1, w2, 0, 0);
    assert StrictlySorted(w1) && StrictlySorted(w2) ==>
             forall x :: x in run && x.Ok? ==> ItemSound(fs, x.value, w1, w2, 0, 0) by {
      if StrictlySorted(w1) && StrictlySorted(w2) {
        IntendedRunSound(fs, w1, w2, 0, 0);
      }
    }
    assert ErrorFree(run) ==>
             (forall k :: 0 <= k < |w1| ==> w1[k].Ok? && w1[k].value.path in Mentioned(run)) &&
             (forall m :: 0 <= m < |w2| ==> w2[m].Ok? && w2[m].value.path in Mentioned(run)) by {
      if ErrorFree(run) {
        IntendedRunCovers(fs, w1, w2, 0, 0);
      }
    }
    run
  }

  // ---------------------------------------------------------------------
  // Inputs on which the code departs from the documented behaviour

  /** A directory named `name` at `path`, one level below its root. */
  function DirEntry(path: string, name: seq<byte>): Entry {
    DirectoryEntry(path, name, 1)
  }

  /** Root `a` is empty; root `b` holds one directory `only`. */
  function OneSidedFileSystem(): FileSystem {
    FileSystem(p => [], (p, d) => if p == "b" then [Ok(DirEntry("b/only", [111, 110, 108, 121]))] else [])
  }

  /** `diff_trees("a", "b", 1)` reports nothing, where the documented
      behaviour reports `b/only` as found only on the right. */
  lemma SecondRootIgnored()
    ensures var fs := OneSidedFileSystem();
            Run(fs, fs.walkAtDepth("a", 1), fs.walkAtDepth("a", 1), 0, 0) == []
    ensures IntendedDiffTrees(OneSidedFileSystem(), "a", "b", 1) == [Ok(Right("b/only"))]
  {
    var fs := OneSidedFileSystem();
    assert fs.walkAtDepth("b", 1) == [Ok(DirEntry("b/only", [111, 110, 108, 121]))];
    assert IntendedRun(fs, [], fs.walkAtDepth("b", 1), 0, 1) == [];
  }

  /** An entry only in the second listing, before or after the first
      listing's entries, is reported as `Left`: with `a/z` in the first
      listing and `b/a` in the second, `b/a` comes first; with an empty
      first listing and `b/z` in the second, `b/z` is left over. */
  lemma RightOnlyReportedAsLeft()
    ensures var fs := OneSidedFileSystem();
            var az, ba, bz := Ok(DirEntry("a/z", [122])), Ok(DirEntry("b/a", [97])), Ok(DirEntry("b/z", [122]));
            && Step(fs, [az], [ba], 0, 0).item == Some(Ok(Left("b/a")))
            && IntendedStep(fs, [az], [ba], 0, 0).item == Some(Ok(Right("b/a")))
            && Step(fs, [], [bz], 0, 0).item == Some(Ok(Left("b/z")))
            && IntendedStep(fs, [], [bz], 0, 0).item == Some(Ok(Right("b/z")))
  {
    assert Names.BytesCmp([122], [97]) == Names.Greater;
  }
}
