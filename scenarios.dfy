/** Concrete runs of the model on small trees and argument lists. */
module Scenarios {
  import opened Wrappers
  import opened FsTree
  import opened Sorting
  import opened Renderer
  import opened Args
  import opened Cli

  /** Two files listed out of order are printed sorted; only the second gets
      the corner connector. */
  lemma SortedFiles()
    ensures Render(Dir(".", [Entry(Leaf("b.txt")), Entry(Leaf("a.txt"))]), "", true, false)
         == ["├── a.txt", "└── b.txt"]
  {
    var dir := Dir(".", [Entry(Leaf("b.txt")), Entry(Leaf("a.txt"))]);
    SortedFilesArranged();
    assert Render(dir, "", true, false) == Level(dir, 2, "", true, false);
    assert EntryLine("", false, "a.txt") == "├── a.txt";
    assert EntryLine("", true, "b.txt") == "└── b.txt";
    assert EntryLines(Leaf("a.txt"), false, "", true, false) == ["├── a.txt"];
    assert EntryLines(Leaf("b.txt"), true, "", true, false) == ["└── b.txt"];
    assert Level(dir, 1, "", true, false) == ["├── a.txt"];
    assert Level(dir, 2, "", true, false) == ["├── a.txt"] + ["└── b.txt"];
  }

  lemma SortedFilesArranged()
    ensures Arrange([Entry(Leaf("b.txt")), Entry(Leaf("a.txt"))], true, false) == [Leaf("a.txt"), Leaf("b.txt")]
  {
    var items := [Entry(Leaf("b.txt")), Entry(Leaf("a.txt"))];
    assert items[..1] == [Entry(Leaf("b.txt"))];
    SingleArranged(Leaf("b.txt"));
    assert Arrange(items, true, false) == Insert([Leaf("b.txt")], Leaf("a.txt"));
    InsertBeforeB();
  }

  lemma SingleArranged(n: Node)
    requires !Hidden(n.name)
    ensures Arrange([Entry(n)], true, false) == [n]
  {
    assert [Entry(n)][..0] == [];
    assert Insert([], n) == [n];
  }

  lemma InsertBeforeB()
    ensures Insert([Leaf("b.txt")], Leaf("a.txt")) == [Leaf("a.txt"), Leaf("b.txt")]
  {
    assert !NameLe("b.txt", "a.txt");
    assert Insert([Leaf("b.txt")], Leaf("a.txt")) == Insert([], Leaf("a.txt")) + [Leaf("b.txt")];
  }

  /** Sorting by name puts `a.txt` before `b.txt`. */
  lemma SortedFilesSorted()
    ensures SortByName([Leaf("b.txt"), Leaf("a.txt")]) == [Leaf("a.txt"), Leaf("b.txt")]
  {
    var v := [Leaf("b.txt"), Leaf("a.txt")];
    assert v[..1] == [Leaf("b.txt")] && v[..1][..0] == [];
    assert SortByName(v[..1]) == [Leaf("b.txt")];
    assert SortByName(v) == Insert([Leaf("b.txt")], Leaf("a.txt"));
    InsertBeforeB();
  }

  /** Without `-a` a hidden file is skipped and the remaining one is last. */
  lemma HiddenSkipped()
    ensures Render(Dir(".", [Entry(Leaf(".hidden")), Entry(Leaf("visible.txt"))]), "", true, false)
         == ["└── visible.txt"]
  {
    var items := [Entry(Leaf(".hidden")), Entry(Leaf("visible.txt"))];
    var dir := Dir(".", items);
    HiddenArranged();
    assert Render(dir, "", true, false) == Level(dir, 1, "", true, false);
    assert EntryLine("", true, "visible.txt") == "└── visible.txt";
    assert EntryLines(Leaf("visible.txt"), true, "", true, false) == ["└── visible.txt"];
    assert Level(dir, 1, "", true, false) == ["└── visible.txt"];
  }

  lemma HiddenArranged()
    ensures Arrange([Entry(Leaf(".hidden")), Entry(Leaf("visible.txt"))], true, false) == [Leaf("visible.txt")]
  {
    var items := [Entry(Leaf(".hidden")), Entry(Leaf("visible.txt"))];
    assert items[..1] == [Entry(Leaf(".hidden"))] && items[..1][..0] == [];
    assert Hidden(".hidden");
    assert Arrange(items[..1], true, false) == [];
    assert Arrange(items, true, false) == Insert([], Leaf("visible.txt"));
  }

  /** A nested directory: its children are indented by a bar unit because it
      is not the last entry. */
  lemma NestedDirectory()
    ensures Render(Dir(".", [Entry(Dir("src", [Entry(Leaf("main.rs"))])), Entry(Leaf("z"))]), "", false, false)
         == ["├── src", "│   └── main.rs", "└── z"]
  {
    var src := Dir("src", [Entry(Leaf("main.rs"))]);
    var items := [Entry(src), Entry(Leaf("z"))];
    var dir := Dir(".", items);
    assert Arrange(items, false, false) == [src, Leaf("z")] by {
      assert items[..1] == [Entry(src)] && items[..1][..0] == [];
      assert Arrange(items[..1], false, false) == [src];
    }
    NestedChild();
    assert EntryLine("", false, "src") == "├── src";
    assert "" + Unit(false) == "│   ";
    assert EntryLines(src, false, "", false, false) == ["├── src", "│   └── main.rs"];
    assert EntryLine("", true, "z") == "└── z";
    assert EntryLines(Leaf("z"), true, "", false, false) == ["└── z"];
    assert Level(dir, 1, "", false, false) == ["├── src", "│   └── main.rs"];
    assert Level(dir, 2, "", false, false) == ["├── src", "│   └── main.rs"] + ["└── z"];
  }

  /** The child of a non-last directory is printed under a bar unit. */
  lemma NestedChild()
    ensures Render(Dir("src", [Entry(Leaf("main.rs"))]), "│   ", false, false) == ["│   └── main.rs"]
  {
    var inner := [Entry(Leaf("main.rs"))];
    var src := Dir("src", inner);
    assert Arrange(inner, false, false) == [Leaf("main.rs")] by {
      assert inner[..0] == [];
    }
    assert EntryLine("│   ", true, "main.rs") == "│   └── main.rs";
    assert EntryLines(Leaf("main.rs"), true, "│   ", false, false) == ["│   └── main.rs"];
    assert Level(src, 1, "│   ", false, false) == ["│   └── main.rs"];
  }

  /** An unknown flag is taken as the path. */
  lemma UnknownFlagIsPath()
    ensures Parse(["-x"]) == Run(Options(false, true, "-x"))
  {
    assert ["-x"][..0] == [];
  }

  /** Two paths are an error, even with `--help` after them. */
  lemma TwoPathsThenHelp()
    ensures Parse(["a", "b", "--help"]) == MultiplePaths
  {
    MultiplePathsWins(["a", "b"], ["--help"]);
    assert ["a", "b"] + ["--help"] == ["a", "b", "--help"];
    assert ["a", "b"][..1] == ["a"] && ["a"][..0] == [];
  }
}
