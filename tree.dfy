/** The filesystem as the renderer sees it: a finite tree of directory listings.
    Reading a directory, asking an entry for its type and decoding its name are
    operating-system calls; here their results are part of the input. */
module FsTree {

  /** One entry of a directory listing, with its name already decoded.
      `Leaf` is every entry the renderer does not descend into: a regular file,
      a symbolic link (its own type is asked, not its target's) and an entry
      whose type could not be determined, whatever it really is.
      `Dir` is an entry whose type is known to be a directory; `items` is its
      listing in the order the operating system returns it, and a directory
      that cannot be listed has no items. */
  datatype Node =
    | Leaf(name: string)
    | Dir(name: string, items: seq<Item>)

  /** One item yielded while iterating a listing: either an entry, or an
      error in place of one. */
  datatype Item =
    | Entry(node: Node)
    | Unreadable

  /** A hidden name starts with a dot. */
  predicate Hidden(name: string)
  {
    |name| > 0 && name[0] == '.'
  }

  /** The filter applied to every listing item: errors are dropped, and so are
      hidden names unless hidden entries are shown. */
  predicate Kept(item: Item, showHidden: bool)
  {
    item.Entry? && (showHidden || !Hidden(item.node.name))
  }

  /** The entries of a listing that survive the filter, in listing order. */
  function Visible(items: seq<Item>, showHidden: bool): seq<Node>
  {
    if items == [] then []
    else
      var init, last := items[..|items| - 1], items[|items| - 1];
      Visible(init, showHidden) + (if Kept(last, showHidden) then [last.node] else [])
  }

  /** The filter keeps exactly the readable entries that are not hidden, or
      all readable entries when hidden ones are shown. */
  lemma {:induction false} VisibleMembers(items: seq<Item>, showHidden: bool)
    ensures |Visible(items, showHidden)| <= |items|
    ensures forall n :: n in Visible(items, showHidden) <==> Entry(n) in items && Kept(Entry(n), showHidden)
  {
    if items != [] {
      var init, last := items[..|items| - 1], items[|items| - 1];
      assert items == init + [last];
      VisibleMembers(init, showHidden);
    }
  }

  /** Filtering distributes over concatenation: the kept entries of a listing
      are those of its first part followed by those of its second part, so the
      filter keeps the listing order. */
  lemma {:induction false} VisibleAppend(a: seq<Item>, b: seq<Item>, showHidden: bool)
    ensures Visible(a + b, showHidden) == Visible(a, showHidden) + Visible(b, showHidden)
    decreases |b|
  {
    if b == [] {
      assert a + b == a;
    } else {
      var init, last := b[..|b| - 1], b[|b| - 1];
      assert a + b == (a + init) + [last];
      assert (a + b)[..|a + b| - 1] == a + init;
      VisibleAppend(a, init, showHidden);
    }
  }

  /** With hidden entries shown, only the unreadable items are dropped. */
  lemma {:induction false} VisibleShowAll(items: seq<Item>)
    requires forall i :: 0 <= i < |items| ==> items[i].Entry?
    ensures |Visible(items, true)| == |items|
    ensures forall i :: 0 <= i < |items| ==> Visible(items, true)[i] == items[i].node
  {
    if items != [] {
      var init := items[..|items| - 1];
      VisibleShowAll(init);
    }
  }
}
