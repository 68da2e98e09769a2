# Tree renderer

A Dafny model of the directory-tree printer in `main.go`. `dirTree(out, path, printFiles)` walks a directory depth first. It lists the entries of each directory, drops the plain files unless `printFiles` is set, and sorts the entries by name. It then prints one line per entry:

    prefix + ("└" | "├") + "───" + name + sizeSuffix

Each subdirectory is printed below its own line, with a prefix that is one level longer. The first directory that cannot be opened or listed stops the walk, and its error is returned. Everything printed before that point stays printed.

The filesystem is a value, `FileSystem.Node`:
- `File(name, size)` is anything that is not a directory.
- `Dir(name, children)` is a directory.
- `Unreadable(name, fault)` is a directory that `os.Open` (`OpenFault`) or `Readdir` (`ReadFault`) cannot read. It is still listed as a directory by its parent.
- The root is an `Option<Node>`. `None` is a path that does not exist.
- An error carries the path of the failing directory as the sequence of names below the root. This is what the nested `filepath.Join` calls build.

The model has six modules:
- `Names`: Go's string `<` on names, as a lexicographic order on characters. UTF-8 byte order and code-point order agree, so this is the same order.
- `Sorting`: `byFileName` and `sort.Sort`. This is an in-place insertion sort on an `array<Node>`, driven by `Less` and `Swap`. It is proved against the functional `SortByName`.
- `Filter`: the `filterFiles` loop, proved against the filter function `Dirs`.
- `Digits` and `Format`: `filePrefix`, `nextPrefix`, `fileSize` (with `%d` as `Decimal`) and the line `printInfo` writes.
- `Traversal`: the functions that describe what `readDir` does.
  - `Render` gives the rows printed and the error returned.
  - `Rows` is a reference traversal that ignores errors.
  - Lemmas relate the two and describe the shape of the output.
- `Renderer`: the imperative `readDir`/`dirTree`.
  - They write to a `Writer` object whose `lines` field is the output, one line per element, without the newline.
  - They are proved to write exactly `Lines(Render(...).rows)` and to return `Render(...).failure`.

## Model

| member | source | states |
|---|---|---|
| Names.NameLessIrreflexive | main.go:15 | no name is less than itself |
| Names.NameLessTransitive | main.go:15 | the name order is transitive |
| Names.NameLessTotal | main.go:15 | any two names are equal or one is less than the other |
| Names.NameLessAsymmetric | main.go:15 | two names are never each less than the other |
| Names.NotLessTransitive | main.go:15 | "not less than" is transitive, which insertion sort needs |
| Sorting.Swap | main.go:14 | byFileName.Swap exchanges elements i and j in place and keeps the multiset of entries |
| Sorting.Sort | main.go:83 | after sort.Sort(byFileName(a)) the array is non-decreasing by name and a permutation of what it held before |
| Sorting.Insert | main.go:83 | inserting into a listing adds exactly that entry to its multiset |
| Sorting.InsertSorted | main.go:83 | inserting into a name-sorted listing keeps it sorted |
| Sorting.SortByName | main.go:83 | the reference sort is a name-sorted permutation of its input |
| Sorting.SortedUnique | main.go:83 | two name-sorted permutations of a listing with distinct names are equal, so any correct sort gives the same order |
| Sorting.DistinctPermutation | main.go:83 | reordering a listing keeps its names distinct |
| Filter.Dirs | main.go:17-25 | an entry is in the filtered listing if and only if it is in the input and is a directory |
| Filter.FilterFiles | main.go:17-25 | the append loop returns exactly Dirs of its input |
| Filter.DirsSnoc | main.go:19-23 | one loop iteration appends the entry exactly when it is a directory |
| Filter.DirsCount | main.go:17-25 | each directory is kept as often as it occurs and nothing else is kept |
| Filter.DirsIsSubsequence | main.go:17-25 | the result is a subsequence of the input: nothing is added or reordered |
| Filter.DirsShorter | main.go:17-25 | the result is no longer than the input |
| Filter.DirsDistinct | main.go:17-25 | filtering a listing with distinct names keeps them distinct |
| Digits.Decimal | main.go:52 | %d of a size is a non-empty string of digits with no leading zero, and "0" for zero |
| Digits.DecimalRoundTrip | main.go:52 | reading the digits back gives the size |
| Digits.DecimalInjective | main.go:52 | different sizes print differently |
| Format.FilePrefix | main.go:27-32 | the glyph is "└" exactly when isLast and "├" exactly when not |
| Format.NextPrefix | main.go:34-42 | the child prefix extends the parent prefix by 1 character (last) or 2 (not last), ends in a tab, and has "│" after the parent prefix exactly when the entry was not last |
| Format.DecodeNextPrefix | main.go:34-42 | one nextPrefix step adds exactly the entry's isLast flag to what the prefix encodes |
| Format.DecodeAncestry | main.go:34-42 | a prefix built from the empty root prefix decodes to the isLast flags of its ancestors, so different ancestries give different prefixes |
| Format.FileSize | main.go:44-55 | the size suffix is empty if and only if the entry is a directory |
| Format.FileSizeRoundTrip | main.go:44-55 | a file's suffix is " (empty)" or " (Nb)" and reads back to its exact size |
| Format.OnlyVerbIsName | main.go:57-60 | the format string printInfo builds is lead + "%s" + tail, where neither lead (prefix, glyph, dashes) nor tail (size suffix, newline) contains a '%'; so %s is its only verb, and substituting the name gives Line followed by a newline |
| Traversal.Listing | main.go:73-83 | the listing readDir loops over is name-sorted, is a permutation of the children (directories only without printFiles), and holds every child directory |
| Traversal.RenderIsPrefixOfRows | main.go:62-101 | what readDir prints is a prefix of the full pre-order traversal, and all of it when no error occurs |
| Traversal.RenderFromIsPrefixOfRowsFrom | main.go:85-98 | the same, for the rest of one directory's loop |
| Traversal.RenderSucceedsIffReadable | main.go:62-101 | readDir returns an error if and only if some directory it must visit cannot be opened, is not a directory, or cannot be listed |
| Traversal.RenderFromSucceedsIffReadable | main.go:85-98 | the same, for the rest of one directory's loop |
| Traversal.FailureEndsAtUnreadable | main.go:62-101 | the walk stops at the first unreadable directory in pre-order: no row printed before it names an unreadable directory, a failed walk ends with its row (no later sibling or ancestor's sibling is printed) and its error names that directory below the start path, and a walk without an error prints no unreadable directory |
| Traversal.FailureFromEndsAtUnreadable | main.go:85-98 | the same, for the rest of one directory's loop |
| Traversal.RowsExtendPrefix | main.go:94 | every row below a call with prefix q has a prefix that starts with q, and is still a well-formed prefix |
| Traversal.RowsFromExtendPrefix | main.go:85-98 | the same, for the rest of one directory's loop |
| Traversal.AllDirRowsConcat | main.go:85-98 | a directory row followed by directory-only rows is directory-only |
| Traversal.OnlyDirectoriesWithoutFiles | main.go:79-81 | without printFiles no plain file is printed at any depth |
| Traversal.OnlyDirectoriesFrom | main.go:79-98 | the same, for the rest of one directory's loop |
| Traversal.OnlyDirectoriesStep | main.go:85-98 | one loop step keeps the output directory-only |
| Traversal.RowsAt | main.go:85-87 | a row is in one nesting level if and only if it is a row of the output printed under exactly that prefix |
| Traversal.RowsAtAppend | main.go:85-87 | taking one level of two outputs printed one after the other gives the two levels one after the other |
| Traversal.RowsAtNone | main.go:85-87 | rows under other prefixes contribute nothing to a level |
| Traversal.RowsFromLevel | main.go:85-98 | the rows a directory's loop prints under its own prefix are one per remaining entry of its listing |
| Traversal.LevelFromAt | main.go:85-87 | the level's k-th row is entry k, marked last only when k is the last index |
| Traversal.LevelOfDirectory | main.go:85-87 | the rows of one directory under its own prefix are its sorted listing, one row per entry, with only the final one marked last; an empty listing prints nothing |
| Traversal.LastGlyphMarksGreatest | main.go:83-87 | in a non-empty listing exactly the final row gets "└", and its name is the greatest in the listing |
| Renderer.Writer.WriteLine | main.go:59 | Fprintf appends one line to the output |
| Renderer.Lines | main.go:57-60 | the output has exactly one line per printed row |
| Renderer.LinesAppend | main.go:59 | the text of two row sequences printed one after the other is the two texts one after the other |
| Renderer.LinesAt | main.go:57-60 | output line k is the text of row k |
| Renderer.PrintInfo | main.go:57-60 | printInfo appends exactly prefix + glyph + "───" + name + size suffix |
| Renderer.ReadListing | main.go:73-83 | Readdir, filterFiles unless printFiles, then sort.Sort give exactly Listing in a fresh array |
| Renderer.ReadDir | main.go:62-101 | readDir appends exactly the lines of Render and returns exactly its error; a node that fails to open, is not a directory, or fails to list prints nothing |
| Renderer.PrintEntries | main.go:85-100 | the loop prints each entry and descends into each directory, returning the first error at once |
| Renderer.DirStep | main.go:93-97 | a directory's iteration prints its line and subtree, then stops on error or continues |
| Renderer.LinesStep | main.go:85-98 | the output of a row, its subtree and the rest is their texts one after the other |
| Renderer.DirTree | main.go:103-105 | dirTree is readDir from the root with the empty prefix; a missing root or one that is not a directory prints nothing and returns an error |
| Renderer.SampleWithFiles | main.go:62-105 | with files, a root holding z.txt (empty) and sub/a.txt (3 bytes) prints "├───sub", "│\t└───a.txt (3b)", "└───z.txt (empty)" and succeeds |
| Renderer.SampleTextWithFiles | main.go:57-60 | the text of those three rows |
| Renderer.SampleTraceWithFiles | main.go:62-105 | the rows and the result for that root with files |
| Renderer.SampleListingWithFiles | main.go:83 | sub sorts before z.txt |
| Renderer.SampleSubtree | main.go:94 | sub, which is not last, is printed under "│\t" |
| Renderer.SampleLine | main.go:57-60 | the text of a sample row |
| Renderer.SampleLines3 | main.go:57-60 | three rows print as three lines |
| Renderer.SampleDirectoriesOnly | main.go:79-81 | without files the same root prints only "└───sub" |
| Renderer.SampleFirstFailure | main.go:94-97 | of two sibling directories that cannot be opened, only the first in name order is printed, and its open error is returned |

These members model the source but have no contract of their own; the lemmas above state what they mean:
- `Traversal.Render`/`RenderFrom` (main.go:62-101): what readDir prints and returns.
- `Traversal.Rows`/`RowsFrom` and `Traversal.Readable`: the reference traversal and the trees it succeeds on.
- `Renderer.Tree` (main.go:103-105): dirTree.
- `Format.Line` (main.go:58-59): the printed line.
- `Format.PrintFormat` (main.go:58): the format string.
- `Sorting.Less` (main.go:15): `byFileName.Less`.
- `Names.NameLess` (main.go:15): Go's string `<`.
- `FileSystem.IsDir` (main.go:20, 45, 89): `os.FileInfo.IsDir`.

Some lemmas are proof steps and have no row:
- `Traversal.RenderFromFile`, `Traversal.RenderFromDir` and `Traversal.RowsFromStep` each unfold one loop iteration of `RenderFrom` or `RowsFrom`.
- `Renderer.FileStep` does the same for the output lines.

`readDir` opens `dir` (main.go:63) and never closes it. Handles are not modelled here (see below).

## Left out

- `main` (main.go:107-118): argument counting, the `-f` flag and `panic` are command-line plumbing.
- Real filesystem access (`os.Open`, `Stat`, `Readdir`, `filepath.Join`) is replaced by the `Node` tree, and open directory handles are not modelled. The handles are never closed in the source.
- A failing `Stat` (main.go:69) has no separate fault. On a real directory it returns the same "is not directory" error as a plain file, and the model has only the plain-file case.
- Symbolic links, devices and other non-directories are all `File` entries. `IsDir` on them is false, as in the source.
- The error messages' text is not modelled. An error records which of the three checks failed and the path of the directory.
- The `\n` that ends each line is dropped from `Writer.lines`; `Format.OnlyVerbIsName` shows the format string prints the line followed by it.
- `int64` sizes are `nat`: a size is never negative, and no realistic size exceeds 64 bits.
- Renderer.ReadDir: requires `WellFormed(node)` (names are distinct within each directory). A real filesystem guarantees this, and the source does not check it. Only with distinct names does every correct sort give one and the same order.
- Sorting.Sort: an insertion sort stands in for Go's `sort.Sort` algorithm. Both give the one name-sorted order when names are distinct (`Sorting.SortedUnique`).
- Names: Go's `<` compares UTF-8 bytes and the model compares characters. The two orders agree on valid UTF-8, but invalid UTF-8 in file names is not modelled.
