/** The renderer itself: printInfo, readDir and dirTree writing lines to an
    output sink, proved to print what Traversal describes. */
module Renderer {
  import opened FileSystem
  import opened Filter
  import opened Sorting
  import opened Format
  import opened Traversal
  import opened Names
  import opened Digits

  /** The io.Writer: the lines written so far, each without its newline. */
  class Writer {
    var lines: seq<string>

    constructor ()
      ensures lines == []
    {
      lines := [];
    }

    method WriteLine(line: string)
      modifies this
      ensures lines == old(lines) + [line]
    {
      lines := lines + [line];
    }
  }

  /** The text of a sequence of rows. */
  function Lines(rows: seq<Row>): (lines: seq<string>)
    ensures |lines| == |rows|
  {
    if rows == [] then [] else [Line(rows[0])] + Lines(rows[1..])
  }

  lemma {:induction false} LinesAppend(a: seq<Row>, b: seq<Row>)
    ensures Lines(a + b) == Lines(a) + Lines(b)
  {
    if a == [] {
      assert a + b == b;
    } else {
      assert (a + b)[0] == a[0] && (a + b)[1..] == a[1..] + b;
      LinesAppend(a[1..], b);
    }
  }

  /** Output line k is the text of row k. */
  lemma {:induction false} LinesAt(rows: seq<Row>, k: nat)
    requires k < |rows|
    ensures Lines(rows)[k] == Line(rows[k])
  {
    if k > 0 {
      LinesAt(rows[1..], k - 1);
    }
  }

  method PrintInfo(out: Writer, info: Node, prefix: string, isLast: bool)
    modifies out
    ensures out.lines == old(out.lines) + [Line(Row(prefix, isLast, info))]
  {
    out.WriteLine(prefix + FilePrefix(isLast) + Dash + info.name + FileSize(info));
  }

  /** The listing readDir loops over: Readdir, filterFiles unless
      printFiles, then sort.Sort(byFileName(infos)). */
  method ReadListing(node: Node, printFiles: bool) returns (a: array<Node>)
    requires node.Dir? && DistinctNames(node.children)
    ensures fresh(a)
    ensures a[..] == Listing(node.children, printFiles)
  {
    var infos := node.children;
    if !printFiles {
      infos := FilterFiles(infos);
    }
    a := new Node[|infos|](k requires 0 <= k < |infos| => infos[k]);
    assert a[..] == infos;
    Sort(a);
    assert DistinctNames(infos) by {
      if !printFiles {
        DirsDistinct(node.children);
      }
    }
    var entries := Listing(node.children, printFiles);
    DistinctPermutation(infos, entries);
    SortedUnique(entries, a[..]);
  }

  /** readDir: open node, check it is a directory, read and (without
      printFiles) filter its entries, sort them, then print each and descend
      into each directory, returning the first error at once. */
  method ReadDir(out: Writer, node: Node, path: seq<string>, printFiles: bool, prefix: string)
    returns (err: Option<Error>)
    requires WellFormed(node)
    modifies out
    ensures out.lines == old(out.lines) + Lines(Render(node, path, printFiles, prefix).rows)
    ensures err == Render(node, path, printFiles, prefix).failure
    decreases node, 1
  {
    if node.Unreadable? && node.fault == OpenFault {
      return Some(OpenFailed(path));
    }
    if node.File? {
      return Some(NotDirectory(path));
    }
    if node.Unreadable? {
      return Some(ReadFailed(path));
    }
    var infos := ReadListing(node, printFiles);
    err := PrintEntries(out, infos, node, path, printFiles, prefix);
  }

  /** The loop of readDir over the sorted listing of node. */
  method PrintEntries(out: Writer, infos: array<Node>, node: Node, path: seq<string>, printFiles: bool, prefix: string)
    returns (err: Option<Error>)
    requires WellFormed(node) && node.Dir?
    requires infos[..] == Listing(node.children, printFiles)
    modifies out
    ensures out.lines == old(out.lines) + Lines(Render(node, path, printFiles, prefix).rows)
    ensures err == Render(node, path, printFiles, prefix).failure
    decreases node, 0
  {
    ghost var entries := infos[..];
    ghost var whole := RenderFrom(entries, 0, node, path, printFiles, prefix);
    for i := 0 to infos.Length
      invariant old(out.lines) + Lines(whole.rows) ==
                out.lines + Lines(RenderFrom(entries, i, node, path, printFiles, prefix).rows)
      invariant whole.failure == RenderFrom(entries, i, node, path, printFiles, prefix).failure
    {
      var info := infos[i];
      var isLast := i == infos.Length - 1;
      ghost var before := out.lines;
      PrintInfo(out, info, prefix, isLast);
      if !IsDir(info) {
        FileStep(entries, i, node, path, printFiles, prefix, before);
        continue;
      }
      assert info in node.children && node == Dir(node.name, node.children);
      err := ReadDir(out, info, path + [info.name], printFiles, NextPrefix(prefix, isLast));
      DirStep(entries, i, node, path, printFiles, prefix, before);
      if err.Some? {
        return;
      }
    }
    return None;
  }

  /** A plain file: its line is printed and the loop goes on. */
  lemma FileStep(entries: seq<Node>, i: nat, parent: Node, path: seq<string>, printFiles: bool, prefix: string,
                 before: seq<string>)
    requires i < |entries| && !IsDir(entries[i])
    requires parent.Dir? && forall e | e in entries :: e in parent.children
    ensures var here := RenderFrom(entries, i, parent, path, printFiles, prefix);
            var rest := RenderFrom(entries, i + 1, parent, path, printFiles, prefix);
            && before + Lines(here.rows) == before + [Line(Row(prefix, i == |entries| - 1, entries[i]))] + Lines(rest.rows)
            && here.failure == rest.failure
  {
    var row := Row(prefix, i == |entries| - 1, entries[i]);
    var rest := RenderFrom(entries, i + 1, parent, path, printFiles, prefix);
    RenderFromFile(entries, i, parent, path, printFiles, prefix);
    LinesAppend([row], rest.rows);
    assert Lines([row]) == [Line(row)];
  }

  /** A directory: its line and its subtree are printed; the loop stops if
      the subtree failed and goes on otherwise. */
  lemma DirStep(entries: seq<Node>, i: nat, parent: Node, path: seq<string>, printFiles: bool, prefix: string,
                before: seq<string>)
    requires i < |entries| && IsDir(entries[i])
    requires parent.Dir? && forall e | e in entries :: e in parent.children
    ensures var isLast := i == |entries| - 1;
            var head := before + [Line(Row(prefix, isLast, entries[i]))];
            var sub := Render(entries[i], path + [entries[i].name], printFiles, NextPrefix(prefix, isLast));
            var here := RenderFrom(entries, i, parent, path, printFiles, prefix);
            var rest := RenderFrom(entries, i + 1, parent, path, printFiles, prefix);
            && (sub.failure.Some? ==> before + Lines(here.rows) == head + Lines(sub.rows) && here.failure == sub.failure)
            && (sub.failure.None? ==> before + Lines(here.rows) == head + Lines(sub.rows) + Lines(rest.rows)
                                      && here.failure == rest.failure)
  {
    var isLast := i == |entries| - 1;
    var row := Row(prefix, isLast, entries[i]);
    var sub := Render(entries[i], path + [entries[i].name], printFiles, NextPrefix(prefix, isLast));
    var rest := RenderFrom(entries, i + 1, parent, path, printFiles, prefix);
    RenderFromDir(entries, i, parent, path, printFiles, prefix);
    if sub.failure.Some? {
      LinesStep(before, row, sub.rows, []);
      assert [row] + sub.rows + [] == [row] + sub.rows;
    } else {
      LinesStep(before, row, sub.rows, rest.rows);
    }
  }

  lemma LinesStep(before: seq<string>, row: Row, sub: seq<Row>, rest: seq<Row>)
    ensures before + Lines([row] + sub + rest) == before + [Line(row)] + Lines(sub) + Lines(rest)
  {
    LinesAppend([row] + sub, rest);
    LinesAppend([row], sub);
  }

  /** dirTree: the whole tree from the root, with the empty prefix; a root
      path that does not exist fails to open. */
  function Tree(root: Option<Node>, printFiles: bool): Trace {
    if root.None? then Trace([], Some(OpenFailed([]))) else Render(root.value, [], printFiles, "")
  }

  method DirTree(out: Writer, root: Option<Node>, printFiles: bool) returns (err: Option<Error>)
    requires root.Some? ==> WellFormed(root.value)
    modifies out
    ensures out.lines == old(out.lines) + Lines(Tree(root, printFiles).rows)
    ensures err == Tree(root, printFiles).failure
    ensures root.None? || !root.value.Dir? ==> out.lines == old(out.lines) && err.Some?
  {
    if root.None? {
      return Some(OpenFailed([]));
    }
    err := ReadDir(out, root.value, [], printFiles, "");
  }

  /** A root whose listing comes back as z.txt (empty) then sub/, which holds a.txt (3 bytes). */
  function SampleRoot(): Node {
    Dir(".", [File("z.txt", 0), Dir("sub", [File("a.txt", 3)])])
  }

  /** With files: sub sorts first, its file is nested under a continuation bar,
      and z.txt closes the listing. */
  lemma SampleWithFiles()
    ensures Tree(Some(SampleRoot()), true).failure.None?
    ensures Lines(Tree(Some(SampleRoot()), true).rows) == ["├───sub", "│\t└───a.txt (3b)", "└───z.txt (empty)"]
  {
    SampleTraceWithFiles();
    SampleTextWithFiles(Tree(Some(SampleRoot()), true).rows);
  }

  lemma SampleTextWithFiles(rows: seq<Row>)
    requires rows == [Row("", false, Dir("sub", [File("a.txt", 3)])), Row("│\t", true, File("a.txt", 3)),
                      Row("", true, File("z.txt", 0))]
    ensures Lines(rows) == ["├───sub", "│\t└───a.txt (3b)", "└───z.txt (empty)"]
  {
    SampleLine(rows[0], "├───sub");
    SampleLine(rows[1], "│\t└───a.txt (3b)");
    SampleLine(rows[2], "└───z.txt (empty)");
    SampleLines3(rows);
  }

  lemma SampleLines3(rows: seq<Row>)
    requires |rows| == 3
    ensures Lines(rows) == [Line(rows[0]), Line(rows[1]), Line(rows[2])]
  {
    assert Lines(rows[2..]) == [Line(rows[2])] by {
      assert rows[2..][1..] == [];
    }
    assert Lines(rows[1..]) == [Line(rows[1])] + Lines(rows[2..]) by {
      assert rows[1..][1..] == rows[2..];
    }
  }

  lemma SampleTraceWithFiles()
    ensures Tree(Some(SampleRoot()), true)
            == Trace([Row("", false, Dir("sub", [File("a.txt", 3)])), Row("│\t", true, File("a.txt", 3)),
                      Row("", true, File("z.txt", 0))], None)
  {
    var root := SampleRoot();
    var z, a := File("z.txt", 0), File("a.txt", 3);
    var sub := Dir("sub", [a]);
    var entries := [sub, z];
    SampleListingWithFiles();
    SampleSubtree();
    RenderFromDir(entries, 0, root, [], true, "");
    RenderFromFile(entries, 1, root, [], true, "");
    assert RenderFrom(entries, 2, root, [], true, "") == Trace([], None);
  }

  lemma SampleListingWithFiles()
    ensures Listing(SampleRoot().children, true) == [Dir("sub", [File("a.txt", 3)]), File("z.txt", 0)]
  {
    assert NameLess("sub", "z.txt");
  }

  lemma SampleSubtree()
    ensures NextPrefix("", false) == "│\t"
    ensures Render(Dir("sub", [File("a.txt", 3)]), [] + ["sub"], true, "│\t")
            == Trace([Row("│\t", true, File("a.txt", 3))], None)
  {
    var a := File("a.txt", 3);
    var sub := Dir("sub", [a]);
    assert Listing(sub.children, true) == [a];
    RenderFromFile([a], 0, sub, ["sub"], true, "│\t");
  }

  /** The text of one sample row, spelled out. */
  lemma SampleLine(r: Row, text: string)
    requires r.entry.Dir? || (r.entry.File? && (r.entry.size == 0 || r.entry.size == 3))
    requires text == r.prefix + FilePrefix(r.isLast) + "───" + r.entry.name
                     + (if r.entry.Dir? then "" else if r.entry.size == 0 then " (empty)" else " (3b)")
    ensures Line(r) == text
  {
    if r.entry.File? && r.entry.size == 3 {
      assert Decimal(3) == "3";
    }
  }

  /** Directories only: the one directory is also the last entry. */
  lemma SampleDirectoriesOnly()
    ensures Tree(Some(SampleRoot()), false).failure.None?
    ensures Lines(Tree(Some(SampleRoot()), false).rows) == ["└───sub"]
  {
    var z, a := File("z.txt", 0), File("a.txt", 3);
    var sub := Dir("sub", [a]);
    assert [z, sub][1..] == [sub] && [sub][1..] == [] && [a][1..] == [];
    assert Dirs([sub]) == [sub];
    assert Dirs([z, sub]) == [sub];
    assert Dirs([a]) == [];
    assert Listing(SampleRoot().children, false) == [sub];
    assert Listing(sub.children, false) == [];
    assert Tree(Some(SampleRoot()), false) == Trace([Row("", true, sub)], None);
    SampleLine(Row("", true, sub), "└───sub");
  }

  /** Two directories that cannot be opened: only the first is printed, and
      its error is the one returned. */
  lemma SampleFirstFailure()
    ensures var root := Dir(".", [Unreadable("b", OpenFault), Unreadable("a", OpenFault)]);
            Tree(Some(root), true) == Trace([Row("", false, Unreadable("a", OpenFault))], Some(OpenFailed(["a"])))
  {
    var a, b := Unreadable("a", OpenFault), Unreadable("b", OpenFault);
    var root := Dir(".", [b, a]);
    assert NameLess("a", "b");
    assert Listing(root.children, true) == [a, b];
    var empty: seq<string> := [];
    assert empty + [a.name] == ["a"];
    assert Render(a, empty + [a.name], true, NextPrefix("", false)) == Trace([], Some(OpenFailed(["a"])));
    RenderFromDir([a, b], 0, root, empty, true, "");
    assert [Row("", false, a)] + [] == [Row("", false, a)];
  }
}
