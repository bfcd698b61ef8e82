/** `file_name_cmp`: the order both directory walks are sorted by, and the
    order the merge joins compare names with. A Unix file name is a byte
    string, and `OsStr`'s `Ord` is the lexicographic order on its bytes. */
module Names {
  import opened Results

  datatype Ordering = Less | Equal | Greater

  function Reverse(o: Ordering): Ordering {
    match o
    case Less => Greater
    case Equal => Equal
    case Greater => Less
  }

  /** Lexicographic comparison of two byte strings; a proper prefix sorts
      first, as with Rust's `Ord` on slices. */
  function BytesCmp(a: seq<byte>, b: seq<byte>): (r: Ordering)
    ensures r == Equal <==> a == b
    ensures a == [] && b != [] ==> r == Less
  {
    if a == [] && b == [] then Equal
    else if a == [] then Less
    else if b == [] then Greater
    else if a[0] < b[0] then Less
    else if a[0] > b[0] then Greater
    else
      assert a == [a[0]] + a[1..] && b == [b[0]] + b[1..];
      BytesCmp(a[1..], b[1..])
  }

  /** Swapping the operands reverses the verdict, so the merge's `Less`
      and `Greater` arms are mirror images. */
  lemma {:induction false} CmpAntisymmetric(a: seq<byte>, b: seq<byte>)
    ensures BytesCmp(b, a) == Reverse(BytesCmp(a, b))
  {
    if a != [] && b != [] && a[0] == b[0] {
      CmpAntisymmetric(a[1..], b[1..]);
    }
  }

  /** `Less` is transitive, so a listing sorted pairwise is sorted. */
  lemma {:induction false} CmpLessTransitive(a: seq<byte>, b: seq<byte>, c: seq<byte>)
    requires BytesCmp(a, b) == Less && BytesCmp(b, c) == Less
    ensures BytesCmp(a, c) == Less
  {
    if a != [] && b != [] && c != [] && a[0] == b[0] && b[0] == c[0] {
      CmpLessTransitive(a[1..], b[1..], c[1..]);
    }
  }
}
