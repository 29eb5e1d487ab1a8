# dirtree, modelled in Dafny

`dirtree` is a command-line utility that prints a directory as a text tree.
The first line is the root: `.` when the path given is literally `.`, and the
canonical form of the path otherwise. Below it comes one line per visible
entry, depth first. Each line is one write to the output. Each line is the current indentation prefix, a connector,
a space and the entry's name. The connector is `└──` for the last entry of a
directory and `├──` for every other one. Entering a subdirectory extends the
prefix by a four-character unit: four spaces under a last entry, `│` and three
spaces otherwise. The arguments are `-a` (show entries whose names start with
a dot), `-U` (keep the listing order instead of sorting by name), `--help`,
and at most one path, which defaults to `.`.

The model follows the one source file, `src/main.rs`:

- `tree.dfy` (module `FsTree`): the filesystem as a finite tree. A `Node` is
  either a `Leaf`, which is never descended into, or a `Dir` with its listing.
  A `Leaf` is a regular file, a symbolic link (the entry's own type is asked),
  or an entry whose type could not be read. A listing holds `Item`s: an entry,
  or an `Unreadable` item where iterating the listing failed. The module also
  holds the hidden-name filter (`Visible`).
- `sorting.dfy` (module `Sorting`): the name order, and the stable sort of one
  listing, done in place on an array (`SortEntries`). It is proved equal to the
  function `SortByName`, and that function is proved to give an ascending
  permutation.
- `render.dfy` (module `Renderer`): `print_dir_structure`. The class `Walker`
  holds the prefix buffer and the lines written so far. Its recursive method
  `PrintDirStructure` is proved against the function `Render`.
- `layout.dfy` (module `Layout`): a reference description of the output that
  does not use the prefix buffer. It has one `Row` per printed entry, carrying
  the last-sibling flags of the entry's ancestors. It is proved that `Render`
  prints exactly these rows, formatted, and the per-level and per-depth
  properties are proved about the rows.
- `args.dfy` (module `Args`): the argument loop of `main` (`ParseArgs`),
  proved equal to a declarative `Parse`.
- `cli.dfy` (module `Cli`): the whole program. It parses the arguments, checks
  the path, prints the root line and then the tree, and returns an exit code
  and the lines written.
- `scenarios.dfy` (module `Scenarios`): small concrete runs.

The filesystem is an input. `Cli.RunCli` takes two functions: `lookup` says
whether a path is missing, is not a directory, or is a directory with a given
listing, and `canonicalize` gives a path's canonical form, if it has one.
Standard output is the returned sequence of lines, and the exit code is a
returned integer.

The usage text (src/main.rs:65) describes `-U` as "Sort alphabetically", but
the parser (src/main.rs:80) makes `-U` turn sorting off. The model keeps both
as written: `Cli.HelpText` reproduces the text, and `Args.Parse` clears `sort`.

## Model

| member | source | states |
|---|---|---|
| FsTree.VisibleMembers | src/main.rs:14-25 | An entry survives the filter exactly when it was read without error and either hidden entries are shown or its name does not start with `.`. The filter never adds entries. |
| FsTree.VisibleAppend | src/main.rs:14-25 | The filter keeps listing order: filtering a concatenation gives the filtered parts, concatenated. |
| FsTree.VisibleShowAll | src/main.rs:19-20 | With `-a` and no read errors, every entry is kept, in order. |
| Sorting.NameLeRefl | src/main.rs:28 | The name order is reflexive. |
| Sorting.NameLeTotal | src/main.rs:28 | Any two names are comparable. |
| Sorting.NameLeTrans | src/main.rs:28 | The name order is transitive. |
| Sorting.NameLeAntisym | src/main.rs:28 | Two names that are each at most the other are equal. |
| Sorting.InsertSpec | src/main.rs:28 | Inserting an element adds exactly that element and keeps an ascending sequence ascending. |
| Sorting.SortByNameSpec | src/main.rs:27-29 | Sorting yields a sequence that is ascending by name and is a permutation of its input. |
| Sorting.SortedPermutationUnique | src/main.rs:27-29 | When names are distinct, which the names of one directory are, two ascending permutations of a listing are equal. Any correct sort therefore gives `SortByName`'s order. |
| Sorting.SortByNameStable | src/main.rs:28 | The sort is stable: the entries that share any given name keep their relative order from the input. |
| Sorting.InsertStable | src/main.rs:28 | Insertion puts the new entry after every entry that shares its name, and leaves the order of the others unchanged. |
| Sorting.SortEntries | src/main.rs:27-29 | The in-place sort of the entry vector leaves in it `SortByName` of its old contents. |
| Sorting.InsertInPlace | src/main.rs:28 | One insertion pass moves `a[i]` into the prefix `a[..i]` and leaves the rest of the array unchanged. |
| Sorting.ShiftGreater | src/main.rs:28 | Moves the entries before position i whose names are greater than the new entry's one place to the right, and leaves everything else unchanged. The gap it returns is exactly where `Insert` places the new entry. |
| Sorting.InsertAt | src/main.rs:28 | `Insert` puts the new entry after every earlier entry whose name is at most its own, and before the run of greater names that ends the sequence. This is the stable placement. |
| Renderer.ArrangeIsFilterThenSort | src/main.rs:14-29 | Placing each kept entry by name as the listing is read gives the same order as the source's two steps: filter the listing, then sort the survivors by name. With sorting off, the order is the filtered listing order. |
| Renderer.ArrangedFromListing | src/main.rs:14-25 | Every printed entry of a directory is one of that directory's own readable entries. |
| Renderer.ArrangeSpec | src/main.rs:14-29 | The printed entries of one directory are its kept entries, each as often as it is listed. They are ascending by name when sorting is on and in listing order when it is off. |
| Renderer.ListEntries | src/main.rs:13-29 | The vector built from a listing holds the filtered entries, sorted when sorting is on. |
| Renderer.Walker.constructor | src/main.rs:120 | The prefix buffer starts empty. |
| Renderer.Walker.PrintDirStructure | src/main.rs:6-58 | Appends `Render` of the directory under the current prefix to the output. On return the prefix buffer equals its value on entry. |
| Renderer.Walker.PrintEntry | src/main.rs:31-55 | Appends the entry's line `prefix + connector + " " + name`, then, for a directory only, its subtree under the prefix extended by one unit. On return the prefix buffer is truncated back to its value on entry. |
| Layout.Units | src/main.rs:43-47 | The indentation for depth d is 4·d characters long. |
| Layout.UnitsAt | src/main.rs:43-47 | The j-th four-character unit of the indentation is four spaces when the ancestor at depth j was the last of its siblings, and `│` plus three spaces otherwise. |
| Layout.RenderIsFormattedRows | src/main.rs:31-53 | The renderer's lines are exactly the reference rows in depth-first pre-order. Each line is the starting prefix, one unit per ancestor, the connector, a space and the name. Each entry's line precedes its subtree. |
| Layout.RowsWellFormed | src/main.rs:19-23 | Every row of a subtree lies below the subtree's ancestors. Without `-a`, no hidden name is printed at any depth. |
| Layout.LevelSiblings | src/main.rs:31-37 | At one level of a directory with n printed entries there are exactly n lines, in the arranged order, with those entries' names. Only the last uses `└──`. |
| Layout.EntrySiblings | src/main.rs:36-50 | Of the lines printed for an entry, only the entry's own line is at the entry's level. |
| Layout.RenderEmpty | src/main.rs:13 | A directory prints no lines exactly when it has no printed entry: it is empty, unreadable, not a directory, or holds only hidden entries. |
| Args.HelpIndex | src/main.rs:81-86 | The position found is the first `--help`, or the end of the arguments. |
| Args.ParseArgs | src/main.rs:72-96 | The parsing loop returns exactly the declarative `Parse` result. |
| Args.ParseRunIff | src/main.rs:73-96 | Parsing yields options exactly when there is no `--help` and at most one path token. With no path token, the path is `.`. |
| Args.EarlyExitIsFinal | src/main.rs:81-91 | Once a prefix of the arguments has ended parsing, with help or with the multiple-paths error, later arguments do not change the outcome. |
| Args.MultiplePathsWins | src/main.rs:87-91 | A second path before any `--help` is the multiple-paths error, whatever follows. |
| Args.HelpIgnoresLaterTokens | src/main.rs:81-86 | `--help` reached with at most one path before it yields Help, whatever follows. |
| Cli.RunCli | src/main.rs:71-122 | Help gives exit 0 and the usage text. Multiple paths give exit 1 and their error line. A missing path, or one that is not a directory, gives exit 1 and its error line. Otherwise the exit code is 0 and the output is the root line followed by `Render` of the directory with an empty prefix. |
| Cli.PrintTree | src/main.rs:108-121 | The output is the root line, followed by `Render` of the directory from an empty prefix. |
| Cli.RootLineIsDot | src/main.rs:96-112 | With no path argument, or with `.`, the root line is `.`. |
| Scenarios.SortedFiles | src/main.rs:27-37 | Files `b.txt` and `a.txt` print as `├── a.txt` and then `└── b.txt`. |
| Scenarios.SortedFilesArranged | src/main.rs:27-29 | Those two files are arranged as `a.txt`, `b.txt`. |
| Scenarios.SortedFilesSorted | src/main.rs:28 | Sorting `b.txt`, `a.txt` gives `a.txt`, `b.txt`. |
| Scenarios.HiddenSkipped | src/main.rs:19-23 | Without `-a`, `.hidden` is skipped and `visible.txt` is printed with `└──`. |
| Scenarios.NestedDirectory | src/main.rs:36-53 | A non-last subdirectory's children are indented by `│` and three spaces. |
| Scenarios.UnknownFlagIsPath | src/main.rs:87-96 | An unknown flag `-x` is taken as the path. |
| Scenarios.TwoPathsThenHelp | src/main.rs:81-91 | `a b --help` is the multiple-paths error: the duplicate comes first. |

## Left out

- Filesystem access: `fs::read_dir`, `DirEntry::file_type`, `entry.path()`, `Path::exists` and `Path::is_dir` are replaced by the input tree and by `lookup`. A directory that cannot be read is a `Dir` with no items.
- `Path::canonicalize` is the input function `canonicalize`. Its failure is `None`, and the literal path is printed instead.
- `to_string_lossy`: names are already-decoded strings, and nothing of the lossy decoding is modelled.
- Name order: names are compared character by character, by code point. For names that are valid text this matches the byte order of their UTF-8 encoding, which the source compares. For other names it need not.
- Prefix length: the prefix is counted in characters. The source measures `old_len` in UTF-8 bytes, but truncating to it restores the same text, so the model is unaffected.
- Sort algorithm: the source uses the standard library's stable sort, and the model uses insertion sort. `Sorting.SortByNameStable` proves the insertion sort stable. For distinct names, every correct sort gives the same order (`Sorting.SortedPermutationUnique`). For repeated names, the proof that every stable sort agrees is not written out.
- Arguments are taken as valid Unicode strings. `env::args()` panics on an argument that is not valid Unicode (src/main.rs:72), and that abort is not modelled. `Cli.RunCli` therefore returns only the exit codes 0 and 1.
- An output line is one `writeln!` record. A name that contains a line break is written verbatim, so it spans several physical lines, and the later ones have no prefix or connector. The model does not split such names: "line" in `Layout.LevelSiblings` and elsewhere means one record.
- Output plumbing: `BufWriter`, flushing, and the panics of `expect`/`unwrap` when writing fails are not modelled. Output is a list of lines, and the exit code is a returned value.
- Stack depth: the tree is finite, so recursion always ends. Exhausting the stack on a very deep tree is not modelled.
- Listing order with `-U` depends on the operating system. It is the order of the input listing.
- `Renderer.Arrange` places each kept entry as the listing is read, instead of filtering and sorting in two steps. `Renderer.ArrangeIsFilterThenSort` proves the result equal to the two steps. `Renderer.ListEntries` performs them as the source does.
- `Renderer.Walker.PrintEntry`: the body of the loop over entries is its own method, so that each proof stays small. The statements it runs, and their order, are those of the loop body.
