/** `file_contents_equal` (dfu-core/src/files.rs): a size check on the two
    files' metadata, then a lockstep comparison of their byte streams. */
module Files {
  import opened Results

  /** What the file system reports about one file: the outcome of asking
      for its metadata length, and the outcome of opening it, which on
      success is the sequence of items its `bytes()` iterator yields. The
      two are independent: the file may change between the calls. */
  datatype FileRecord = FileRecord(size: Result<nat>, stream: Result<seq<Result<byte>>>)

  /** The verdict of the comparison loop started at position `i` of both
      streams: one `(f1.next(), f2.next())` pair per position. */
  function StreamsVerdict(s1: seq<Result<byte>>, s2: seq<Result<byte>>, i: nat): Result<bool>
    decreases |s1| - i
  {
    match (At<Result<byte>>(s1, i), At<Result<byte>>(s2, i))
    case (Some(Ok(b1)), Some(Ok(b2))) =>
      if b1 != b2 then Ok(false) else StreamsVerdict(s1, s2, i + 1)
    case (Some(Ok(_)), None) => Ok(false)
    case (None, Some(Ok(_))) => Ok(false)
    case (Some(Err(e)), _) => Err(e)
    case (_, Some(Err(e))) => Err(e)
    case (None, None) => Ok(true)
  }

  /** The whole verdict: metadata of the first file, then of the second,
      the size check, then opening the first and the second file, then the
      stream comparison. */
  function ContentsVerdict(f1: FileRecord, f2: FileRecord): Result<bool> {
    match (f1.size, f2.size)
    case (Err(e), _) => Err(e)
    case (Ok(_), Err(e)) => Err(e)
    case (Ok(n1), Ok(n2)) =>
      if n1 != n2 then Ok(false)
      else
        match (f1.stream, f2.stream)
        case (Err(e), _) => Err(e)
        case (Ok(_), Err(e)) => Err(e)
        case (Ok(s1), Ok(s2)) => StreamsVerdict(s1, s2, 0)
  }

  /** The comparison loop itself. */
  method FileContentsEqual(f1: FileRecord, f2: FileRecord) returns (r: Result<bool>)
    ensures r == ContentsVerdict(f1, f2)
  {
    if f1.size.Err? {
      return Err(f1.size.error);
    }
    if f2.size.Err? {
      return Err(f2.size.error);
    }
    if f1.size.value != f2.size.value {
      return Ok(false);
    }
    if f1.stream.Err? {
      return Err(f1.stream.error);
    }
    if f2.stream.Err? {
      return Err(f2.stream.error);
    }
    var s1, s2 := f1.stream.value, f2.stream.value;
    var i := 0;
    while true
      invariant StreamsVerdict(s1, s2, i) == ContentsVerdict(f1, f2)
      decreases |s1| - i
    {
      match (At<Result<byte>>(s1, i), At<Result<byte>>(s2, i)) {
        case (Some(Ok(b1)), Some(Ok(b2))) =>
          if b1 != b2 {
            return Ok(false);
          }
        case (Some(Ok(_)), None) =>
          return Ok(false);
        case (None, Some(Ok(_))) =>
          return Ok(false);
        case (Some(Err(e)), _) =>
          return Err(e);
        case (_, Some(Err(e))) =>
          return Err(e);
        case (None, None) =>
          return Ok(true);
      }
      i := i + 1;
    }
  }

  /** Positions before `k` hold equal bytes on both sides. */
  predicate AgreeBefore(s1: seq<Result<byte>>, s2: seq<Result<byte>>, k: nat) {
    k <= |s1| && k <= |s2| &&
    forall j :: 0 <= j < k ==> s1[j].Ok? && s1[j] == s2[j]
  }

  /** Nothing before the first disagreement affects the verdict: the loop
      only runs past positions where both streams yield the same byte. */
  lemma {:induction false} VerdictFromFirstDisagreement(s1: seq<Result<byte>>, s2: seq<Result<byte>>, i: nat, k: nat)
    requires i <= k && AgreeBefore(s1, s2, k)
    ensures StreamsVerdict(s1, s2, i) == StreamsVerdict(s1, s2, k)
    decreases k - i
  {
    if i < k {
      VerdictFromFirstDisagreement(s1, s2, i + 1, k);
    }
  }

  /** The loop answers `Ok(false)` at the first differing byte pair, whatever
      follows it. */
  lemma FirstDifferingByte(s1: seq<Result<byte>>, s2: seq<Result<byte>>, k: nat)
    requires AgreeBefore(s1, s2, k) && k < |s1| && k < |s2|
    requires s1[k].Ok? && s2[k].Ok? && s1[k] != s2[k]
    ensures StreamsVerdict(s1, s2, 0) == Ok(false)
  {
    VerdictFromFirstDisagreement(s1, s2, 0, k);
  }

  /** One stream ending while the other still yields a byte answers `Ok(false)`. */
  lemma OneStreamEndsFirst(s1: seq<Result<byte>>, s2: seq<Result<byte>>, k: nat)
    requires AgreeBefore(s1, s2, k)
    requires (k == |s1| && k < |s2| && s2[k].Ok?) || (k == |s2| && k < |s1| && s1[k].Ok?)
    ensures StreamsVerdict(s1, s2, 0) == Ok(false)
  {
    VerdictFromFirstDisagreement(s1, s2, 0, k);
  }

  /** A read error of the first stream is returned whatever the second
      yields at that position; one of the second stream is returned when
      the first yielded a byte or had ended. */
  lemma ReadErrorPropagates(s1: seq<Result<byte>>, s2: seq<Result<byte>>, k: nat)
    requires AgreeBefore(s1, s2, k)
    requires (k < |s1| && s1[k].Err?) || (k < |s2| && s2[k].Err?)
    ensures k < |s1| && s1[k].Err? ==> StreamsVerdict(s1, s2, 0) == Err(s1[k].error)
    ensures (k >= |s1| || s1[k].Ok?) ==> StreamsVerdict(s1, s2, 0) == Err(s2[k].error)
  {
    VerdictFromFirstDisagreement(s1, s2, 0, k);
  }

  /** Without read errors the loop answers `Ok(true)` exactly when the two
      streams are the same bytes, and `Ok(false)` otherwise. */
  lemma {:induction false} ErrorFreeStreamsVerdict(s1: seq<Result<byte>>, s2: seq<Result<byte>>, i: nat)
    requires ErrorFree(s1) && ErrorFree(s2) && i <= |s1| && i <= |s2|
    ensures StreamsVerdict(s1, s2, i) == Ok(s1[i..] == s2[i..])
    decreases |s1| - i
  {
    if i < |s1| && i < |s2| && s1[i] == s2[i] {
      ErrorFreeStreamsVerdict(s1, s2, i + 1);
      assert s1[i..] == [s1[i]] + s1[i + 1..] && s2[i..] == [s2[i]] + s2[i + 1..];
    } else if i < |s1| && i < |s2| {
      assert s1[i..][0] != s2[i..][0];
    } else if i < |s1| || i < |s2| {
      assert |s1[i..]| != |s2[i..]|;
    }
  }

  /** Differing metadata lengths answer `Ok(false)` whatever opening the
      files would have done: neither file is opened. */
  lemma SizeMismatchNeverOpens(f1: FileRecord, f2: FileRecord, o1: Result<seq<Result<byte>>>, o2: Result<seq<Result<byte>>>)
    requires f1.size.Ok? && f2.size.Ok? && f1.size.value != f2.size.value
    ensures ContentsVerdict(f1, f2) == Ok(false)
    ensures ContentsVerdict(f1.(stream := o1), f2.(stream := o2)) == Ok(false)
  {
  }

  /** A metadata or open failure on either file is returned as an error,
      the first file's failure first. */
  lemma MetadataOrOpenFailure(f1: FileRecord, f2: FileRecord)
    requires f1.size.Err? || f2.size.Err? ||
             (f1.size == f2.size && (f1.stream.Err? || f2.stream.Err?))
    ensures f1.size.Err? ==> ContentsVerdict(f1, f2) == Err(f1.size.error)
    ensures f1.size.Ok? && f2.size.Err? ==> ContentsVerdict(f1, f2) == Err(f2.size.error)
    ensures f1.size == f2.size && f1.size.Ok? && f1.stream.Err? ==> ContentsVerdict(f1, f2) == Err(f1.stream.error)
    ensures f1.size == f2.size && f1.size.Ok? && f1.stream.Ok? && f2.stream.Err? ==> ContentsVerdict(f1, f2) == Err(f2.stream.error)
  {
  }

  /** A file that can be read without errors: what comparing a file with
      itself needs to succeed. */
  predicate Readable(f: FileRecord) {
    f.size.Ok? && f.stream.Ok? && ErrorFree(f.stream.value)
  }

  /** Comparing a readable file with itself answers `Ok(true)`. */
  lemma SelfComparison(f: FileRecord)
    requires Readable(f)
    ensures ContentsVerdict(f, f) == Ok(true)
  {
    ErrorFreeStreamsVerdict(f.stream.value, f.stream.value, 0);
  }

  /** Swapping the two streams changes at most which error is reported. */
  lemma {:induction false} StreamsVerdictSymmetric(s1: seq<Result<byte>>, s2: seq<Result<byte>>, i: nat)
    ensures SameOutcome(StreamsVerdict(s1, s2, i), StreamsVerdict(s2, s1, i))
    decreases |s1| - i
  {
    if i < |s1| && i < |s2| && s1[i].Ok? && s2[i].Ok? && s1[i] == s2[i] {
      StreamsVerdictSymmetric(s1, s2, i + 1);
    }
  }

  /** Swapping the two files changes at most which error is reported. */
  lemma ContentsVerdictSymmetric(f1: FileRecord, f2: FileRecord)
    ensures SameOutcome(ContentsVerdict(f1, f2), ContentsVerdict(f2, f1))
  {
    if f1.size.Ok? && f2.size.Ok? && f1.stream.Ok? && f2.stream.Ok? {
      StreamsVerdictSymmetric(f1.stream.value, f2.stream.value, 0);
    }
  }
}
