/** The tree renderer: one output line per visible entry, depth first, each
    line made of the current prefix, a connector and the entry's name. */
module Renderer {
  import opened FsTree
  import opened Sorting

  /** The connector of an entry: the corner for the last sibling, the tee for
      every other one. */
  function Connector(isLast: bool): string
  {
    if isLast then "└──" else "├──"
  }

  /** What a subdirectory adds to the prefix of its children's lines: blank
      under the last sibling, a vertical bar under every other one. */
  function Unit(isLast: bool): string
  {
    if isLast then "    " else "│   "
  }

  /** The line printed for one entry. */
  function EntryLine(prefix: string, isLast: bool, name: string): string
  {
    prefix + Connector(isLast) + " " + name
  }

  /** The entries of one directory in the order they are printed, read from
      the listing one item at a time: an item that passes the filter is placed
      by name among those before it when sorting is on, and appended when it
      is off. */
  function Arrange(items: seq<Item>, sort: bool, showHidden: bool): seq<Node>
  {
    if items == [] then []
    else
      var rest := Arrange(items[..|items| - 1], sort, showHidden);
      var last := items[|items| - 1];
      if !Kept(last, showHidden) then rest
      else if sort then Insert(rest, last.node)
      else rest + [last.node]
  }

  /** Arranging is filtering the listing and then, when sorting is on, sorting
      the survivors by name, which is how the vector of entries is built. */
  lemma {:induction false} ArrangeIsFilterThenSort(items: seq<Item>, sort: bool, showHidden: bool)
    ensures Arrange(items, sort, showHidden)
         == if sort then SortByName(Visible(items, showHidden)) else Visible(items, showHidden)
  {
    if items != [] {
      var init, last := items[..|items| - 1], items[|items| - 1];
      ArrangeIsFilterThenSort(init, sort, showHidden);
      var v := Visible(init, showHidden);
      if Kept(last, showHidden) {
        assert Visible(items, showHidden) == v + [last.node];
        assert (v + [last.node])[..|v|] == v;
        assert SortByName(v + [last.node]) == Insert(SortByName(v), last.node);
      } else {
        assert Visible(items, showHidden) == v;
      }
    }
  }

  /** The arranged entries of a directory are exactly its readable entries
      that are not hidden (all readable ones when hidden entries are shown),
      each as often as it is listed; ascending by name when sorting is on, and
      in listing order when it is off. */
  lemma ArrangeSpec(items: seq<Item>, sort: bool, showHidden: bool)
    ensures forall n :: n in Arrange(items, sort, showHidden) <==> Entry(n) in items && Kept(Entry(n), showHidden)
    ensures multiset(Arrange(items, sort, showHidden)) == multiset(Visible(items, showHidden))
    ensures sort ==> SortedByName(Arrange(items, sort, showHidden))
    ensures !sort ==> Arrange(items, sort, showHidden) == Visible(items, showHidden)
  {
    var v := Visible(items, showHidden);
    ArrangeIsFilterThenSort(items, sort, showHidden);
    VisibleMembers(items, showHidden);
    SortByNameSpec(v);
    assert forall n :: n in SortByName(v) <==> n in multiset(v);
  }

  /** Every arranged entry is one of the listing's own entries. */
  lemma ArrangedFromListing(items: seq<Item>, sort: bool, showHidden: bool, k: nat)
    requires k < |Arrange(items, sort, showHidden)|
    ensures Entry(Arrange(items, sort, showHidden)[k]) in items
  {
    ArrangeSpec(items, sort, showHidden);
    assert Arrange(items, sort, showHidden)[k] in Arrange(items, sort, showHidden);
  }

  /** The listing of a node: a directory's items. Listing anything else fails,
      which the renderer treats like an empty directory. */
  function Listing(dir: Node): seq<Item>
  {
    if dir.Dir? then dir.items else []
  }

  /** All lines printed for the subtree of `dir`, under the given prefix. */
  function Render(dir: Node, prefix: string, sort: bool, showHidden: bool): seq<string>
    decreases dir, 1
  {
    Level(dir, |Arrange(Listing(dir), sort, showHidden)|, prefix, sort, showHidden)
  }

  /** The lines printed for the first `k` arranged entries of `dir`. */
  function Level(dir: Node, k: nat, prefix: string, sort: bool, showHidden: bool): seq<string>
    requires k <= |Arrange(Listing(dir), sort, showHidden)|
    decreases dir, 0, k
  {
    if k == 0 then []
    else
      var entries := Arrange(Listing(dir), sort, showHidden);
      ArrangedFromListing(Listing(dir), sort, showHidden, k - 1);
      Level(dir, k - 1, prefix, sort, showHidden)
        + EntryLines(entries[k - 1], k == |entries|, prefix, sort, showHidden)
  }

  /** The lines printed for one entry: its own line, then, for a directory,
      the lines of its subtree under the prefix extended by one unit. */
  function EntryLines(entry: Node, isLast: bool, prefix: string, sort: bool, showHidden: bool): seq<string>
    decreases entry, 2
  {
    [EntryLine(prefix, isLast, entry.name)]
      + if entry.Dir? then Render(entry, prefix + Unit(isLast), sort, showHidden) else []
  }

  /** Writing the lines of the next entry after those of the first `i`
      entries of a level gives the lines of the first `i + 1`. */
  lemma LevelStep(written: seq<string>, dir: Node, i: nat, prefix: string, sort: bool, showHidden: bool)
    requires i < |Arrange(Listing(dir), sort, showHidden)|
    ensures var entries := Arrange(Listing(dir), sort, showHidden);
      (written + Level(dir, i, prefix, sort, showHidden))
        + EntryLines(entries[i], i == |entries| - 1, prefix, sort, showHidden)
      == written + Level(dir, i + 1, prefix, sort, showHidden)
  {
  }

  /** The renderer's mutable state: the prefix buffer it pushes onto and
      truncates, and the lines written so far. */
  class Walker {
    var prefix: string
    var lines: seq<string>

    constructor ()
      ensures prefix == "" && lines == []
    {
      prefix := "";
      lines := [];
    }

    /** Prints the subtree of `dir`: one entry after another, in the
        arranged order. */
    method PrintDirStructure(dir: Node, sort: bool, showHidden: bool)
      modifies this
      ensures prefix == old(prefix)
      ensures lines == old(lines) + Render(dir, old(prefix), sort, showHidden)
      decreases dir, 1
    {
      if dir.Dir? {
        var entries := ListEntries(dir.items, sort, showHidden);
        var i := 0;
        while i < entries.Length
          invariant 0 <= i <= entries.Length
          invariant entries[..] == Arrange(Listing(dir), sort, showHidden)
          invariant prefix == old(prefix)
          invariant lines == old(lines) + Level(dir, i, old(prefix), sort, showHidden)
        {
          ArrangedFromListing(Listing(dir), sort, showHidden, i);
          LevelStep(old(lines), dir, i, prefix, sort, showHidden);
          PrintEntry(entries[i], i == entries.Length - 1, sort, showHidden, dir);
          i := i + 1;
        }
      }
    }

    /** Prints the line of one entry of `parent` and, when the entry is a
        directory, its subtree. The prefix buffer is extended before the
        subtree and truncated back after it, so on return it is as it was. */
    method PrintEntry(entry: Node, isLast: bool, sort: bool, showHidden: bool, ghost parent: Node)
      requires Entry(entry) in Listing(parent)
      modifies this
      ensures prefix == old(prefix)
      ensures lines == old(lines) + EntryLines(entry, isLast, old(prefix), sort, showHidden)
      decreases parent, 0
    {
      lines := lines + [prefix + (if isLast then "└──" else "├──") + " " + entry.name];
      if entry.Dir? {
        var oldLen := |prefix|;
        if isLast {
          prefix := prefix + "    ";
        } else {
          prefix := prefix + "│   ";
        }
        PrintDirStructure(entry, sort, showHidden);
        prefix := prefix[..oldLen];
      }
    }
  }

  /** Reads a listing into a fresh vector: the entries that pass the filter,
      in listing order, then sorted in place when sorting is on. */
  method ListEntries(items: seq<Item>, sort: bool, showHidden: bool) returns (entries: array<Node>)
    ensures fresh(entries)
    ensures entries[..] == Arrange(items, sort, showHidden)
  {
    var kept: seq<Node> := [];
    var j := 0;
    while j < |items|
      invariant 0 <= j <= |items|
      invariant kept == Visible(items[..j], showHidden)
    {
      assert items[..j + 1][..j] == items[..j];
      if items[j].Entry? && (showHidden || !Hidden(items[j].node.name)) {
        kept := kept + [items[j].node];
      }
      j := j + 1;
    }
    assert items[..|items|] == items;
    entries := new Node[|kept|](k requires 0 <= k < |kept| => kept[k]);
    assert entries[..] == kept;
    ArrangeIsFilterThenSort(items, sort, showHidden);
    if sort {
      SortEntries(entries);
    }
  }
}
