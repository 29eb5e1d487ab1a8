/** The program: parse the arguments, check the path, print the root line and
    the tree. Whether the path exists and is a directory, and its canonical
    form, are asked of the operating system; here they are given functions. */
module Cli {
  import opened Wrappers
  import opened FsTree
  import opened Renderer
  import opened Args

  /** What the operating system reports for a path. */
  datatype Target =
    | Missing
    | NotDirectory
    | Directory(items: seq<Item>)

  const HelpText: seq<string> := [
    "Usage: dirtree [OPTIONS] [PATH]",
    "",
    "Options:",
    "  -a        Show hidden files",
    "  -U        Sort alphabetically",
    "  --help    Display this help",
    "",
    "Default PATH is '.' (current directory)."
  ]

  const MultiplePathsMessage := "Error: Multiple paths specified"

  function MissingMessage(path: string): string
  {
    "Error: Path '" + path + "' does not exist"
  }

  function NotDirectoryMessage(path: string): string
  {
    "Error: '" + path + "' is not a directory"
  }

  /** The first line of the tree: `.` when the path is literally `.`, else
      its canonical form, or the path as given when that cannot be found. */
  function RootName(path: string, canonical: Option<string>): string
  {
    if path == "." then "."
    else if canonical.Some? then canonical.value
    else path
  }

  /** Runs the program on the arguments (the program name excluded) and
      returns the exit code and the lines written to standard output. */
  method RunCli(tokens: seq<string>, lookup: string -> Target, canonicalize: string -> Option<string>)
    returns (code: int, out: seq<string>)
    ensures Parse(tokens) == Help ==> code == 0 && out == HelpText
    ensures Parse(tokens) == MultiplePaths ==> code == 1 && out == [MultiplePathsMessage]
    ensures Parse(tokens).Run? ==>
      var o := Parse(tokens).options;
      match lookup(o.path)
      case Missing => code == 1 && out == [MissingMessage(o.path)]
      case NotDirectory => code == 1 && out == [NotDirectoryMessage(o.path)]
      case Directory(items) =>
        && code == 0
        && out == [RootName(o.path, canonicalize(o.path))] + Render(Dir(o.path, items), "", o.sort, o.showHidden)
  {
    var parsed := ParseArgs(tokens);
    match parsed
    case Help =>
      return 0, HelpText;
    case MultiplePaths =>
      return 1, [MultiplePathsMessage];
    case Run(o) =>
      var target := lookup(o.path);
      if target.Missing? {
        return 1, [MissingMessage(o.path)];
      }
      if target.NotDirectory? {
        return 1, [NotDirectoryMessage(o.path)];
      }
      out := PrintTree(o, target.items, canonicalize(o.path));
      return 0, out;
  }

  /** Writes the root line, then the tree below it, starting from an empty
      prefix. */
  method PrintTree(o: Options, items: seq<Item>, canonical: Option<string>) returns (out: seq<string>)
    ensures out == [RootName(o.path, canonical)] + Render(Dir(o.path, items), "", o.sort, o.showHidden)
  {
    var walker := new Walker();
    walker.lines := walker.lines + [RootName(o.path, canonical)];
    walker.PrintDirStructure(Dir(o.path, items), o.sort, o.showHidden);
    out := walker.lines;
  }

  /** With no path argument, or with `.`, the root line is `.`. */
  lemma RootLineIsDot(tokens: seq<string>, canonical: Option<string>)
    requires Parse(tokens).Run?
    requires Paths(tokens) == [] || Paths(tokens) == ["."]
    ensures RootName(Parse(tokens).options.path, canonical) == "."
  {
    ParseRunIff(tokens);
  }
}
