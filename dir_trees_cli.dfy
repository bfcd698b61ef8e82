/** `display_tree_diff` of dfu-cli/src/bin/diff-utils-dir-trees.rs: one
    report line per `TreeDiff`, a left column, an 11-character label and a
    right column. */
module DirTreesCli {
  import opened TreeDiffs
  import opened Results

  /** `n` spaces. */
  function Spaces(n: nat): (s: string)
    ensures |s| == n && forall k :: 0 <= k < n ==> s[k] == ' '
  {
    seq(n, _ => ' ')
  }

  /** Rust's `{:width$}` for a displayed path: left aligned, padded with
      spaces to at least `width` characters, never truncated. */
  function PadRight(s: string, width: nat): (r: string)
    ensures |r| == if |s| < width then width else |s|
    ensures r[..|s|] == s
    ensures forall k :: |s| <= k < |r| ==> r[k] == ' '
  {
    if |s| < width then s + Spaces(width - |s|) else s
  }

  /** The three fields of a line before padding. */
  datatype Columns = Columns(left: string, marker: string, right: string)

  /** The `match` of `display_tree_diff`: a missing side displays the empty path. */
  function ColumnsOf(td: TreeDiff): (c: Columns)
    ensures |c.marker| == 11
  {
    match td
    case Differs(l, r) => Columns(l, "  DIFFERS  ", r)
    case Matches(l, r) => Columns(l, "  MATCHES  ", r)
    case Left(l) => Columns(l, "< ONLY IN  ", "")
    case Right(r) => Columns("", "  ONLY IN >", r)
  }

  /** The label with the two spaces the format puts on each side of it. */
  function Framed(marker: string): string {
    "  " + marker + "  "
  }

  /** `format!("{1:0$}  {2}  {3:0$}", width, l, c, r)`. */
  /** The line starts with the left path, its label starts two characters
      after the padded left column, and the line is as long as both padded
      columns plus the 15 characters of the framed label. */
  function DisplayTreeDiff(td: TreeDiff, width: nat): (row: string)
    ensures var c := ColumnsOf(td);
            var w1 := Max(|c.left|, width);
            && |row| == w1 + 15 + Max(|c.right|, width)
            && row[..|c.left|] == c.left
            && row[w1 + 2..w1 + 13] == c.marker
  {
    var c := ColumnsOf(td);
    var l, m, r := PadRight(c.left, width), Framed(c.marker), PadRight(c.right, width);
    assert (l + m + r)[|l| + 2..|l| + 13] == c.marker by {
      Concat3(l, m, r);
      SubSlice(l + m + r, |l|, |l| + 15, 2, 13);
      assert m[2..13] == c.marker;
    }
    assert (l + m + r)[..|c.left|] == c.left by {
      Concat3(l, m, r);
      assert (l + m + r)[..|c.left|] == l[..|c.left|];
    }
    l + m + r
  }

  /** Where the three parts of a concatenation sit. */
  lemma Concat3(a: string, b: string, c: string)
    ensures |a + b + c| == |a| + |b| + |c|
    ensures (a + b + c)[..|a|] == a
    ensures (a + b + c)[|a|..|a| + |b|] == b
    ensures (a + b + c)[|a| + |b|..] == c
  {
  }

  function Max(a: nat, b: nat): nat {
    if a < b then b else a
  }

  /** The line is the left path, spaces up to column `width` (or none when
      the path is longer), two spaces, the label, two spaces, then the right
      path and spaces up to `width` characters. */
  lemma RowLayout(td: TreeDiff, width: nat)
    ensures var c, row := ColumnsOf(td), DisplayTreeDiff(td, width);
            var w1 := Max(|c.left|, width);
            && |row| == w1 + 15 + Max(|c.right|, width)
            && row[..|c.left|] == c.left
            && (forall k :: |c.left| <= k < w1 ==> row[k] == ' ')
            && row[w1..w1 + 15] == Framed(c.marker)
            && row[w1 + 15..w1 + 15 + |c.right|] == c.right
            && (forall k :: w1 + 15 + |c.right| <= k < |row| ==> row[k] == ' ')
  {
    var c, row := ColumnsOf(td), DisplayTreeDiff(td, width);
    var l, m, r := PadRight(c.left, width), Framed(c.marker), PadRight(c.right, width);
    Concat3(l, m, r);
    assert |m| == 15;
    assert row[..|c.left|] == l[..|c.left|];
    assert row[|l| + 15..|l| + 15 + |c.right|] == r[..|c.right|];
  }

  /** When both paths fit in `width`, every line has `2 * width + 15` characters. */
  lemma RowLengthWhenPathsFit(td: TreeDiff, width: nat)
    requires |ColumnsOf(td).left| <= width && |ColumnsOf(td).right| <= width
    ensures |DisplayTreeDiff(td, width)| == 2 * width + 15
  {
  }

  /** A missing side is rendered as exactly `width` spaces. */
  lemma MissingSideIsBlank(td: TreeDiff, width: nat)
    requires td.Left? || td.Right?
    ensures td.Left? ==> DisplayTreeDiff(td, width) == PadRight(td.path, width) + "  < ONLY IN    " + Spaces(width)
    ensures td.Right? ==> DisplayTreeDiff(td, width) == Spaces(width) + "    ONLY IN >  " + PadRight(td.path, width)
  {
    var c := ColumnsOf(td);
    assert DisplayTreeDiff(td, width) == PadRight(c.left, width) + Framed(c.marker) + PadRight(c.right, width);
    assert PadRight("", width) == Spaces(width);
    if td.Left? {
      assert c == Columns(td.path, "< ONLY IN  ", "");
      assert Framed(c.marker) == "  < ONLY IN    ";
    } else {
      assert c == Columns("", "  ONLY IN >", td.path);
      assert Framed(c.marker) == "    ONLY IN >  ";
    }
  }

  /** Which variant a line reports. */
  datatype Kind = LeftOnly | RightOnly | Matched | Differing

  function KindOf(td: TreeDiff): Kind {
    match td
    case Left(_) => LeftOnly
    case Right(_) => RightOnly
    case Matches(_, _) => Matched
    case Differs(_, _) => Differing
  }

  /** Reading a line back: the label sits `width + 2` characters in when the
      left path fits the column. */
  function KindOfRow(row: string, width: nat): Option<Kind> {
    if |row| < width + 13 then None
    else
      var marker := row[width + 2..width + 13];
      if marker == "< ONLY IN  " then Some(LeftOnly)
      else if marker == "  ONLY IN >" then Some(RightOnly)
      else if marker == "  MATCHES  " then Some(Matched)
      else if marker == "  DIFFERS  " then Some(Differing)
      else None
  }

  /** The variant of every line whose left path fits the column can be read
      back from it: the four labels are distinct and sit in a fixed place. */
  lemma KindReadBack(td: TreeDiff, width: nat)
    requires |ColumnsOf(td).left| <= width
    ensures KindOfRow(DisplayTreeDiff(td, width), width) == Some(KindOf(td))
  {
    RowLayout(td, width);
    var row, m := DisplayTreeDiff(td, width), ColumnsOf(td).marker;
    assert Max(|ColumnsOf(td).left|, width) == width;
    assert row[width..width + 15] == Framed(m);
    SubSlice(row, width, width + 15, 2, 13);
    assert Framed(m)[2..13] == m;
  }

  /** A slice of a slice is a slice. */
  lemma SubSlice(s: string, a: nat, b: nat, c: nat, d: nat)
    requires a <= b <= |s| && c <= d <= b - a
    ensures s[a..b][c..d] == s[a + c..a + d]
  {
    forall k | 0 <= k < d - c ensures s[a..b][c..d][k] == s[a + c..a + d][k] {
      assert s[a..b][c..d][k] == s[a + c + k];
    }
  }

  /** `PadRight` of the test table's paths to width 6. */
  lemma SamplePadding()
    ensures PadRight("", 6) == "      "
    ensures PadRight("./test", 6) == "./test"
  {
    var blank := Spaces(6);
    assert |blank| == 6 && blank[0] == blank[1] == blank[2] == blank[3] == blank[4] == blank[5] == ' ';
  }

  /** The test table: width 6 and the path `./test`, one lemma per row. */
  lemma SampleLeftRow()
    ensures DisplayTreeDiff(Left("./test"), 6) == "./test  < ONLY IN          "
  {
    SamplePadding();
    assert ColumnsOf(Left("./test")) == Columns("./test", "< ONLY IN  ", "");
    var row := DisplayTreeDiff(Left("./test"), 6);
    assert row == PadRight("./test", 6) + Framed("< ONLY IN  ") + PadRight("", 6);
  }

  lemma SampleRightRow()
    ensures DisplayTreeDiff(Right("./test"), 6) == "          ONLY IN >  ./test"
  {
    SamplePadding();
    assert ColumnsOf(Right("./test")) == Columns("", "  ONLY IN >", "./test");
    var row := DisplayTreeDiff(Right("./test"), 6);
    assert row == PadRight("", 6) + Framed("  ONLY IN >") + PadRight("./test", 6);
  }

  lemma SampleMatchesRow()
    ensures DisplayTreeDiff(Matches("./test", "./test"), 6) == "./test    MATCHES    ./test"
  {
    SamplePadding();
    assert ColumnsOf(Matches("./test", "./test")) == Columns("./test", "  MATCHES  ", "./test");
    var row := DisplayTreeDiff(Matches("./test", "./test"), 6);
    assert row == PadRight("./test", 6) + Framed("  MATCHES  ") + PadRight("./test", 6);
  }

  lemma SampleDiffersRow()
    ensures DisplayTreeDiff(Differs("./test", "./test"), 6) == "./test    DIFFERS    ./test"
  {
    SamplePadding();
    assert ColumnsOf(Differs("./test", "./test")) == Columns("./test", "  DIFFERS  ", "./test");
    var row := DisplayTreeDiff(Differs("./test", "./test"), 6);
    assert row == PadRight("./test", 6) + Framed("  DIFFERS  ") + PadRight("./test", 6);
  }
}
