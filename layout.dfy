/** A reference description of the rendered tree that does not mention the
    prefix buffer: one row per printed entry, recording for each of its
    ancestors whether that ancestor was the last of its siblings. The lines
    the renderer prints are these rows, formatted. */
module Layout {
  import opened FsTree
  import opened Sorting
  import opened Renderer

  /** One printed entry: the last-sibling flags of its ancestor directories
      from the top down (as many as its nesting depth), its own flag, and its
      name. */
  datatype Row = Row(ancestors: seq<bool>, isLast: bool, name: string)

  /** The indentation for a line whose ancestors have the given flags: one
      four-character unit per ancestor. */
  function Units(ancestors: seq<bool>): (r: string)
    ensures |r| == 4 * |ancestors|
  {
    if ancestors == [] then ""
    else Units(ancestors[..|ancestors| - 1]) + Unit(ancestors[|ancestors| - 1])
  }

  /** The `j`-th unit of the indentation is blank exactly when the ancestor at
      that depth was the last of its siblings, and a vertical bar otherwise. */
  lemma {:induction false} UnitsAt(ancestors: seq<bool>, j: nat)
    requires j < |ancestors|
    ensures Units(ancestors)[4 * j..4 * j + 4] == (if ancestors[j] then "    " else "│   ")
  {
    var init := ancestors[..|ancestors| - 1];
    var u := Units(init);
    if j < |ancestors| - 1 {
      UnitsAt(init, j);
      assert Units(ancestors)[4 * j..4 * j + 4] == u[4 * j..4 * j + 4];
    } else {
      assert Units(ancestors)[4 * j..4 * j + 4] == Unit(ancestors[j]);
    }
  }

  lemma UnitsSnoc(ancestors: seq<bool>, b: bool)
    ensures Units(ancestors + [b]) == Units(ancestors) + Unit(b)
  {
    assert (ancestors + [b])[..|ancestors|] == ancestors;
  }

  /** The rows printed for the subtree of `dir`, whose ancestors (including
      `dir` itself) have the flags `ancestors`. */
  function Rows(dir: Node, ancestors: seq<bool>, sort: bool, showHidden: bool): seq<Row>
    decreases dir, 1
  {
    LevelRows(dir, |Arrange(Listing(dir), sort, showHidden)|, ancestors, sort, showHidden)
  }

  function LevelRows(dir: Node, k: nat, ancestors: seq<bool>, sort: bool, showHidden: bool): seq<Row>
    requires k <= |Arrange(Listing(dir), sort, showHidden)|
    decreases dir, 0, k
  {
    if k == 0 then []
    else
      var entries := Arrange(Listing(dir), sort, showHidden);
      ArrangedFromListing(Listing(dir), sort, showHidden, k - 1);
      LevelRows(dir, k - 1, ancestors, sort, showHidden)
        + EntryRows(entries[k - 1], k == |entries|, ancestors, sort, showHidden)
  }

  function EntryRows(entry: Node, isLast: bool, ancestors: seq<bool>, sort: bool, showHidden: bool): seq<Row>
    decreases entry, 2
  {
    [Row(ancestors, isLast, entry.name)]
      + if entry.Dir? then Rows(entry, ancestors + [isLast], sort, showHidden) else []
  }

  /** A row as a line of text, under an initial prefix. */
  function Format(prefix: string, row: Row): string
  {
    prefix + Units(row.ancestors) + Connector(row.isLast) + " " + row.name
  }

  function FormatAll(prefix: string, rows: seq<Row>): (r: seq<string>)
    ensures |r| == |rows|
    ensures forall k :: 0 <= k < |rows| ==> r[k] == Format(prefix, rows[k])
  {
    seq(|rows|, k requires 0 <= k < |rows| => Format(prefix, rows[k]))
  }

  lemma FormatAllAppend(prefix: string, a: seq<Row>, b: seq<Row>)
    ensures FormatAll(prefix, a + b) == FormatAll(prefix, a) + FormatAll(prefix, b)
  {
  }

  /** The renderer prints exactly the rows, formatted: every line at nesting
      depth d below the starting prefix carries d units, one per ancestor,
      chosen by that ancestor's last-sibling flag, then its connector and its
      name; the lines come in depth-first pre-order. */
  lemma {:induction false} RenderIsFormattedRows(dir: Node, prefix: string, ancestors: seq<bool>, sort: bool, showHidden: bool)
    ensures Render(dir, prefix + Units(ancestors), sort, showHidden)
         == FormatAll(prefix, Rows(dir, ancestors, sort, showHidden))
    decreases dir, 1
  {
    LevelIsFormattedRows(dir, |Arrange(Listing(dir), sort, showHidden)|, prefix, ancestors, sort, showHidden);
  }

  lemma {:induction false} LevelIsFormattedRows(dir: Node, k: nat, prefix: string, ancestors: seq<bool>, sort: bool, showHidden: bool)
    requires k <= |Arrange(Listing(dir), sort, showHidden)|
    ensures Level(dir, k, prefix + Units(ancestors), sort, showHidden)
         == FormatAll(prefix, LevelRows(dir, k, ancestors, sort, showHidden))
    decreases dir, 0, k
  {
    if k > 0 {
      var entries := Arrange(Listing(dir), sort, showHidden);
      var isLast := k == |entries|;
      ArrangedFromListing(Listing(dir), sort, showHidden, k - 1);
      LevelIsFormattedRows(dir, k - 1, prefix, ancestors, sort, showHidden);
      EntryIsFormattedRows(entries[k - 1], isLast, prefix, ancestors, sort, showHidden);
      FormatAllAppend(prefix, LevelRows(dir, k - 1, ancestors, sort, showHidden),
                      EntryRows(entries[k - 1], isLast, ancestors, sort, showHidden));
    }
  }

  lemma {:induction false} EntryIsFormattedRows(entry: Node, isLast: bool, prefix: string, ancestors: seq<bool>, sort: bool, showHidden: bool)
    ensures EntryLines(entry, isLast, prefix + Units(ancestors), sort, showHidden)
         == FormatAll(prefix, EntryRows(entry, isLast, ancestors, sort, showHidden))
    decreases entry, 2
  {
    var row := Row(ancestors, isLast, entry.name);
    var line := EntryLine(prefix + Units(ancestors), isLast, entry.name);
    assert line == Format(prefix, row);
    assert FormatAll(prefix, [row]) == [line];
    if entry.Dir? {
      var rows := Rows(entry, ancestors + [isLast], sort, showHidden);
      UnitsSnoc(ancestors, isLast);
      assert prefix + Units(ancestors) + Unit(isLast) == prefix + Units(ancestors + [isLast]);
      RenderIsFormattedRows(entry, prefix, ancestors + [isLast], sort, showHidden);
      FormatAllAppend(prefix, [row], rows);
      assert EntryRows(entry, isLast, ancestors, sort, showHidden) == [row] + rows;
    } else {
      assert EntryRows(entry, isLast, ancestors, sort, showHidden) == [row];
    }
  }

  /** Every row of a subtree lies below the subtree's ancestors, and when
      hidden entries are not shown no row has a hidden name, at any depth. */
  lemma {:induction false} RowsWellFormed(dir: Node, ancestors: seq<bool>, sort: bool, showHidden: bool)
    ensures forall k :: 0 <= k < |Rows(dir, ancestors, sort, showHidden)| ==>
      var r := Rows(dir, ancestors, sort, showHidden)[k];
      ancestors <= r.ancestors && (!showHidden ==> !Hidden(r.name))
    decreases dir, 1
  {
    LevelRowsWellFormed(dir, |Arrange(Listing(dir), sort, showHidden)|, ancestors, sort, showHidden);
  }

  lemma {:induction false} LevelRowsWellFormed(dir: Node, k: nat, ancestors: seq<bool>, sort: bool, showHidden: bool)
    requires k <= |Arrange(Listing(dir), sort, showHidden)|
    ensures forall j :: 0 <= j < |LevelRows(dir, k, ancestors, sort, showHidden)| ==>
      var r := LevelRows(dir, k, ancestors, sort, showHidden)[j];
      ancestors <= r.ancestors && (!showHidden ==> !Hidden(r.name))
    decreases dir, 0, k
  {
    if k > 0 {
      var entries := Arrange(Listing(dir), sort, showHidden);
      var e := entries[k - 1];
      ArrangeSpec(Listing(dir), sort, showHidden);
      assert e in entries;
      LevelRowsWellFormed(dir, k - 1, ancestors, sort, showHidden);
      EntryRowsWellFormed(e, k == |entries|, ancestors, sort, showHidden);
    }
  }

  lemma {:induction false} EntryRowsWellFormed(entry: Node, isLast: bool, ancestors: seq<bool>, sort: bool, showHidden: bool)
    requires !showHidden ==> !Hidden(entry.name)
    ensures forall j :: 0 <= j < |EntryRows(entry, isLast, ancestors, sort, showHidden)| ==>
      var r := EntryRows(entry, isLast, ancestors, sort, showHidden)[j];
      ancestors <= r.ancestors && (!showHidden ==> !Hidden(r.name))
    decreases entry, 2
  {
    if entry.Dir? {
      RowsWellFormed(entry, ancestors + [isLast], sort, showHidden);
      var sub := Rows(entry, ancestors + [isLast], sort, showHidden);
      forall j | 0 <= j < |sub|
        ensures ancestors <= sub[j].ancestors
      {
        assert ancestors <= ancestors + [isLast] <= sub[j].ancestors;
      }
    }
  }

  /** The rows whose ancestors are exactly `ancestors`: the entries printed at
      one level, as opposed to those of deeper subtrees. */
  function Siblings(rows: seq<Row>, ancestors: seq<bool>): seq<Row>
  {
    if rows == [] then []
    else
      var last := rows[|rows| - 1];
      Siblings(rows[..|rows| - 1], ancestors) + (if last.ancestors == ancestors then [last] else [])
  }

  lemma {:induction false} SiblingsAppend(a: seq<Row>, b: seq<Row>, ancestors: seq<bool>)
    ensures Siblings(a + b, ancestors) == Siblings(a, ancestors) + Siblings(b, ancestors)
    decreases |b|
  {
    if b == [] {
      assert a + b == a;
    } else {
      assert (a + b)[..|a + b| - 1] == a + b[..|b| - 1];
      SiblingsAppend(a, b[..|b| - 1], ancestors);
    }
  }

  lemma {:induction false} SiblingsOfDeeper(rows: seq<Row>, ancestors: seq<bool>)
    requires forall k :: 0 <= k < |rows| ==> |rows[k].ancestors| > |ancestors|
    ensures Siblings(rows, ancestors) == []
  {
    if rows != [] {
      SiblingsOfDeeper(rows[..|rows| - 1], ancestors);
    }
  }

  /** The lines printed at one level of a directory are one per arranged
      entry, in the arranged order, each with that entry's name, and only the
      last of them carries the last-sibling connector; a directory with no
      visible entry prints no line at its level. */
  lemma LevelSiblings(dir: Node, ancestors: seq<bool>, sort: bool, showHidden: bool)
    ensures var entries := Arrange(Listing(dir), sort, showHidden);
      var s := Siblings(Rows(dir, ancestors, sort, showHidden), ancestors);
      && |s| == |entries|
      && forall i :: 0 <= i < |s| ==> s[i] == Row(ancestors, i == |entries| - 1, entries[i].name)
  {
    var entries := Arrange(Listing(dir), sort, showHidden);
    LevelSiblingsUpTo(dir, |entries|, ancestors, sort, showHidden);
  }

  /** The rows of the first `k` entries of a level of `n` entries, each with
      its name, and the last-sibling flag set on entry `n - 1` only. */
  function SiblingRows(entries: seq<Node>, k: nat, ancestors: seq<bool>): (r: seq<Row>)
    requires k <= |entries|
    ensures |r| == k
    ensures forall i :: 0 <= i < k ==> r[i] == Row(ancestors, i == |entries| - 1, entries[i].name)
  {
    seq(k, i requires 0 <= i < k => Row(ancestors, i == |entries| - 1, entries[i].name))
  }

  lemma SiblingRowsSnoc(entries: seq<Node>, k: nat, ancestors: seq<bool>)
    requires 0 < k <= |entries|
    ensures SiblingRows(entries, k, ancestors)
         == SiblingRows(entries, k - 1, ancestors) + [Row(ancestors, k == |entries|, entries[k - 1].name)]
  {
  }

  lemma {:induction false} LevelSiblingsUpTo(dir: Node, k: nat, ancestors: seq<bool>, sort: bool, showHidden: bool)
    requires k <= |Arrange(Listing(dir), sort, showHidden)|
    ensures Siblings(LevelRows(dir, k, ancestors, sort, showHidden), ancestors)
         == SiblingRows(Arrange(Listing(dir), sort, showHidden), k, ancestors)
  {
    if k > 0 {
      var entries := Arrange(Listing(dir), sort, showHidden);
      var e := entries[k - 1];
      var prev := LevelRows(dir, k - 1, ancestors, sort, showHidden);
      var own := EntryRows(e, k == |entries|, ancestors, sort, showHidden);
      assert LevelRows(dir, k, ancestors, sort, showHidden) == prev + own;
      LevelSiblingsUpTo(dir, k - 1, ancestors, sort, showHidden);
      assert Siblings(prev + own, ancestors)
          == SiblingRows(entries, k - 1, ancestors) + [Row(ancestors, k == |entries|, e.name)] by {
        EntrySiblings(e, k == |entries|, ancestors, sort, showHidden);
        SiblingsAppend(prev, own, ancestors);
      }
      SiblingRowsSnoc(entries, k, ancestors);
    } else {
      assert LevelRows(dir, k, ancestors, sort, showHidden) == [];
    }
  }

  /** Of the rows printed for one entry, only the entry's own row is at the
      entry's level. */
  lemma EntrySiblings(entry: Node, isLast: bool, ancestors: seq<bool>, sort: bool, showHidden: bool)
    ensures Siblings(EntryRows(entry, isLast, ancestors, sort, showHidden), ancestors)
         == [Row(ancestors, isLast, entry.name)]
  {
    var row := Row(ancestors, isLast, entry.name);
    var sub := if entry.Dir? then Rows(entry, ancestors + [isLast], sort, showHidden) else [];
    assert EntryRows(entry, isLast, ancestors, sort, showHidden) == [row] + sub;
    if entry.Dir? {
      RowsWellFormed(entry, ancestors + [isLast], sort, showHidden);
      forall j | 0 <= j < |sub|
        ensures |sub[j].ancestors| > |ancestors|
      {
        assert ancestors + [isLast] <= sub[j].ancestors;
      }
    }
    SiblingsOfDeeper(sub, ancestors);
    SiblingsAppend([row], sub, ancestors);
    assert Siblings([row], ancestors) == [row] by {
      assert [row][..0] == [];
    }
  }

  /** A directory prints nothing exactly when it has no visible entry: it is
      empty, unreadable, not a directory, or holds only hidden entries. */
  lemma RenderEmpty(dir: Node, prefix: string, sort: bool, showHidden: bool)
    ensures Render(dir, prefix, sort, showHidden) == [] <==> Arrange(Listing(dir), sort, showHidden) == []
  {
    var entries := Arrange(Listing(dir), sort, showHidden);
    if entries != [] {
      var n := |entries|;
      assert Level(dir, n, prefix, sort, showHidden)
          == Level(dir, n - 1, prefix, sort, showHidden) + EntryLines(entries[n - 1], true, prefix, sort, showHidden);
    }
  }
}
