/** What readDir prints and returns, as functions of the directory tree. */
module Traversal {
  import opened FileSystem
  import opened Names
  import opened Filter
  import opened Sorting
  import opened Format

  /** The entries readDir prints for one directory: its children, without the
      plain files unless printFiles, in name order. */
  function Listing(children: seq<Node>, printFiles: bool): (entries: seq<Node>)
    ensures multiset(entries) == multiset(if printFiles then children else Dirs(children))
    ensures SortedByName(entries)
    ensures forall e | e in entries :: e in children
    ensures forall e | e in children && IsDir(e) :: e in entries
    ensures !printFiles ==> forall e | e in entries :: IsDir(e)
  {
    var kept := if printFiles then children else Dirs(children);
    var entries := SortByName(kept);
    assert forall e | e in entries :: e in kept by {
      forall e | e in entries ensures e in kept {
        assert e in multiset(entries);
      }
    }
    assert forall e | e in kept :: e in entries by {
      forall e | e in kept ensures e in entries {
        assert e in multiset(kept);
      }
    }
    entries
  }

  /** The printed rows of a traversal and the error that ended it, if any. */
  datatype Trace = Trace(rows: seq<Row>, failure: Option<Error>)

  /** readDir(path, printFiles, prefix) on node: the open, Stat and Readdir
      checks, then the entries of the listing in order. */
  function Render(node: Node, path: seq<string>, printFiles: bool, prefix: string): Trace
    decreases node, 1, 0
  {
    match node
    case Unreadable(_, OpenFault) => Trace([], Some(OpenFailed(path)))
    case File(_, _) => Trace([], Some(NotDirectory(path)))
    case Unreadable(_, ReadFault) => Trace([], Some(ReadFailed(path)))
    case Dir(_, children) => RenderFrom(Listing(children, printFiles), 0, node, path, printFiles, prefix)
  }

  /** Iteration i of readDir's loop over the listing of parent, and the rest of the loop. */
  function RenderFrom(entries: seq<Node>, i: nat, parent: Node, path: seq<string>, printFiles: bool, prefix: string): Trace
    requires i <= |entries|
    requires parent.Dir? && forall e | e in entries :: e in parent.children
    decreases parent, 0, |entries| - i
  {
    if i == |entries| then Trace([], None)
    else
      var isLast := i == |entries| - 1;
      var row := Row(prefix, isLast, entries[i]);
      if !IsDir(entries[i]) then
        var rest := RenderFrom(entries, i + 1, parent, path, printFiles, prefix);
        Trace([row] + rest.rows, rest.failure)
      else
        assert entries[i] in parent.children && parent == Dir(parent.name, parent.children);
        var sub := Render(entries[i], path + [entries[i].name], printFiles, NextPrefix(prefix, isLast));
        if sub.failure.Some? then Trace([row] + sub.rows, sub.failure)
        else
          var rest := RenderFrom(entries, i + 1, parent, path, printFiles, prefix);
          Trace([row] + sub.rows + rest.rows, rest.failure)
  }

  /** One iteration of readDir's loop on a plain file: its line, then the rest. */
  lemma RenderFromFile(entries: seq<Node>, i: nat, parent: Node, path: seq<string>, printFiles: bool, prefix: string)
    requires i < |entries| && !IsDir(entries[i])
    requires parent.Dir? && forall e | e in entries :: e in parent.children
    ensures var rest := RenderFrom(entries, i + 1, parent, path, printFiles, prefix);
            RenderFrom(entries, i, parent, path, printFiles, prefix)
              == Trace([Row(prefix, i == |entries| - 1, entries[i])] + rest.rows, rest.failure)
  {
  }

  /** One iteration of readDir's loop on a directory: its line, its subtree,
      then the rest unless the subtree failed. */
  lemma RenderFromDir(entries: seq<Node>, i: nat, parent: Node, path: seq<string>, printFiles: bool, prefix: string)
    requires i < |entries| && IsDir(entries[i])
    requires parent.Dir? && forall e | e in entries :: e in parent.children
    ensures var isLast := i == |entries| - 1;
            var row := Row(prefix, isLast, entries[i]);
            var sub := Render(entries[i], path + [entries[i].name], printFiles, NextPrefix(prefix, isLast));
            var rest := RenderFrom(entries, i + 1, parent, path, printFiles, prefix);
            RenderFrom(entries, i, parent, path, printFiles, prefix)
              == if sub.failure.Some? then Trace([row] + sub.rows, sub.failure)
                 else Trace([row] + sub.rows + rest.rows, rest.failure)
  {
  }

  /** Reference traversal: every row in pre-order, as if no directory failed
      (an unreadable directory shows its own row and nothing below it). */
  function Rows(node: Node, printFiles: bool, prefix: string): seq<Row>
    decreases node, 1, 0
  {
    if node.Dir? then RowsFrom(Listing(node.children, printFiles), 0, node, printFiles, prefix) else []
  }

  function RowsFrom(entries: seq<Node>, i: nat, parent: Node, printFiles: bool, prefix: string): seq<Row>
    requires i <= |entries|
    requires parent.Dir? && forall e | e in entries :: e in parent.children
    decreases parent, 0, |entries| - i
  {
    if i == |entries| then []
    else
      var isLast := i == |entries| - 1;
      assert entries[i] in parent.children && parent == Dir(parent.name, parent.children);
      [Row(prefix, isLast, entries[i])]
        + (if IsDir(entries[i]) then Rows(entries[i], printFiles, NextPrefix(prefix, isLast)) else [])
        + RowsFrom(entries, i + 1, parent, printFiles, prefix)
  }

  /** A tree every directory of which can be opened and listed. */
  predicate Readable(n: Node) {
    n.Dir? && forall c | c in n.children && IsDir(c) :: Readable(c)
  }

  // ---------------------------------------------------------------------
  // Errors: the output stops at the first directory that cannot be read.

  /** What readDir printed is the start of the full traversal; without an
      error it is all of it. */
  lemma {:induction false} RenderIsPrefixOfRows(node: Node, path: seq<string>, printFiles: bool, prefix: string)
    ensures Render(node, path, printFiles, prefix).rows <= Rows(node, printFiles, prefix)
    ensures Render(node, path, printFiles, prefix).failure.None? ==>
              Render(node, path, printFiles, prefix).rows == Rows(node, printFiles, prefix)
    decreases node, 1, 0
  {
    if node.Dir? {
      RenderFromIsPrefixOfRowsFrom(Listing(node.children, printFiles), 0, node, path, printFiles, prefix);
    }
  }

  lemma {:induction false} RenderFromIsPrefixOfRowsFrom(entries: seq<Node>, i: nat, parent: Node, path: seq<string>, printFiles: bool, prefix: string)
    requires i <= |entries|
    requires parent.Dir? && forall e | e in entries :: e in parent.children
    ensures RenderFrom(entries, i, parent, path, printFiles, prefix).rows <= RowsFrom(entries, i, parent, printFiles, prefix)
    ensures RenderFrom(entries, i, parent, path, printFiles, prefix).failure.None? ==>
              RenderFrom(entries, i, parent, path, printFiles, prefix).rows == RowsFrom(entries, i, parent, printFiles, prefix)
    decreases parent, 0, |entries| - i
  {
    if i < |entries| {
      var isLast := i == |entries| - 1;
      var e := entries[i];
      assert e in parent.children && parent == Dir(parent.name, parent.children);
      var row := Row(prefix, isLast, e);
      RenderFromIsPrefixOfRowsFrom(entries, i + 1, parent, path, printFiles, prefix);
      RowsFromStep(entries, i, parent, printFiles, prefix);
      var rest := RenderFrom(entries, i + 1, parent, path, printFiles, prefix);
      var restAll := RowsFrom(entries, i + 1, parent, printFiles, prefix);
      if IsDir(e) {
        var q := NextPrefix(prefix, isLast);
        RenderIsPrefixOfRows(e, path + [e.name], printFiles, q);
        RenderFromDir(entries, i, parent, path, printFiles, prefix);
        var sub := Render(e, path + [e.name], printFiles, q);
        PrefixStep(row, sub.rows, Rows(e, printFiles, q), rest.rows, restAll);
      } else {
        PrefixStep(row, [], [], rest.rows, restAll);
        RenderFromFile(entries, i, parent, path, printFiles, prefix);
      }
    }
  }

  /** One step of the reference traversal. */
  lemma RowsFromStep(entries: seq<Node>, i: nat, parent: Node, printFiles: bool, prefix: string)
    requires i < |entries|
    requires parent.Dir? && forall e | e in entries :: e in parent.children
    ensures var isLast := i == |entries| - 1;
            RowsFrom(entries, i, parent, printFiles, prefix)
              == [Row(prefix, isLast, entries[i])]
                 + (if IsDir(entries[i]) then Rows(entries[i], printFiles, NextPrefix(prefix, isLast)) else [])
                 + RowsFrom(entries, i + 1, parent, printFiles, prefix)
  {
  }

  /** Putting a row and a subtree in front keeps the prefix relation. */
  lemma PrefixStep(row: Row, sub: seq<Row>, subAll: seq<Row>, rest: seq<Row>, restAll: seq<Row>)
    requires sub <= subAll && rest <= restAll
    ensures [row] + sub <= [row] + subAll + restAll
    ensures sub == subAll ==> [row] + sub + rest <= [row] + subAll + restAll
  {
    PrefixAppend([row] + sub, [row] + subAll, restAll);
    if sub == subAll {
      assert ([row] + subAll + restAll)[..|[row] + sub + rest|] == [row] + sub + rest;
    }
  }

  lemma PrefixAppend(a: seq<Row>, b: seq<Row>, c: seq<Row>)
    requires a <= b
    ensures a <= b + c
  {
    assert (b + c)[..|a|] == b[..|a|];
  }

  /** Errors and only errors stop the renderer: it returns an error exactly
      when some directory it must visit cannot be opened or listed. */
  lemma {:induction false} RenderSucceedsIffReadable(node: Node, path: seq<string>, printFiles: bool, prefix: string)
    ensures Render(node, path, printFiles, prefix).failure.None? <==> Readable(node)
    decreases node, 1, 0
  {
    if node.Dir? {
      var entries := Listing(node.children, printFiles);
      RenderFromSucceedsIffReadable(entries, 0, node, path, printFiles, prefix);
      if Readable(node) {
        forall k | 0 <= k < |entries| && IsDir(entries[k]) ensures Readable(entries[k]) {
          assert entries[k] in node.children;
        }
      } else {
        var c :| c in node.children && IsDir(c) && !Readable(c);
        assert c in entries;
      }
    }
  }

  lemma {:induction false} RenderFromSucceedsIffReadable(entries: seq<Node>, i: nat, parent: Node, path: seq<string>, printFiles: bool, prefix: string)
    requires i <= |entries|
    requires parent.Dir? && forall e | e in entries :: e in parent.children
    ensures RenderFrom(entries, i, parent, path, printFiles, prefix).failure.None? <==>
              forall k | i <= k < |entries| && IsDir(entries[k]) :: Readable(entries[k])
    decreases parent, 0, |entries| - i
  {
    if i < |entries| {
      var isLast := i == |entries| - 1;
      var e := entries[i];
      assert e in parent.children && parent == Dir(parent.name, parent.children);
      RenderFromSucceedsIffReadable(entries, i + 1, parent, path, printFiles, prefix);
      if IsDir(e) {
        RenderSucceedsIffReadable(e, path + [e.name], printFiles, NextPrefix(prefix, isLast));
      }
    }
  }

  /** The directory whose row a trace ends with is the first unreadable one
      printed: no earlier row names an unreadable directory, and without an
      error none does. A failed trace ends with that row, and its error names
      that directory below path. */
  predicate EndsAtUnreadable(t: Trace, path: seq<string>) {
    && (forall k | 0 <= k < |t.rows| - (if t.failure.Some? then 1 else 0) :: !t.rows[k].entry.Unreadable?)
    && (t.failure.Some? ==>
          && t.rows != []
          && t.rows[|t.rows| - 1].entry.Unreadable?
          && !t.failure.value.NotDirectory?
          && path < t.failure.value.path
          && t.failure.value.path[|t.failure.value.path| - 1] == t.rows[|t.rows| - 1].entry.name)
  }

  /** A failed traversal of a directory ends with the line of the directory
      that could not be opened or listed: nothing after it (no later sibling,
      no later sibling of an ancestor) is printed. The error names that
      directory, and it is never "not a directory". Every directory printed
      before it could be read, so the walk stops at the first failure in
      pre-order; a walk without an error prints no unreadable directory. */
  lemma {:induction false} FailureEndsAtUnreadable(node: Node, path: seq<string>, printFiles: bool, prefix: string)
    requires node.Dir?
    ensures EndsAtUnreadable(Render(node, path, printFiles, prefix), path)
    decreases node, 1, 0
  {
    FailureFromEndsAtUnreadable(Listing(node.children, printFiles), 0, node, path, printFiles, prefix);
  }

  lemma {:induction false} FailureFromEndsAtUnreadable(entries: seq<Node>, i: nat, parent: Node, path: seq<string>, printFiles: bool, prefix: string)
    requires i <= |entries|
    requires parent.Dir? && forall e | e in entries :: e in parent.children
    ensures EndsAtUnreadable(RenderFrom(entries, i, parent, path, printFiles, prefix), path)
    decreases parent, 0, |entries| - i
  {
    if i < |entries| {
      var isLast := i == |entries| - 1;
      var e := entries[i];
      assert e in parent.children && parent == Dir(parent.name, parent.children);
      var row := Row(prefix, isLast, e);
      FailureFromEndsAtUnreadable(entries, i + 1, parent, path, printFiles, prefix);
      var rest := RenderFrom(entries, i + 1, parent, path, printFiles, prefix);
      if !IsDir(e) {
        EndsAtUnreadableAfter([row], rest, path);
      } else {
        var p := path + [e.name];
        var sub := Render(e, p, printFiles, NextPrefix(prefix, isLast));
        if e.Dir? {
          FailureEndsAtUnreadable(e, p, printFiles, NextPrefix(prefix, isLast));
          if sub.failure.Some? {
            EndsAtUnreadableBelow(row, sub, path, p);
          } else {
            EndsAtUnreadableAfter([row] + sub.rows, rest, path);
          }
        } else {
          assert sub == Trace([], sub.failure) && sub.failure.value.path == p;
        }
      }
    }
  }

  lemma EndsAtUnreadableAfter(before: seq<Row>, t: Trace, path: seq<string>)
    requires forall r | r in before :: !r.entry.Unreadable?
    requires EndsAtUnreadable(t, path)
    ensures EndsAtUnreadable(Trace(before + t.rows, t.failure), path)
  {
    var rows := before + t.rows;
    forall k | 0 <= k < |rows| - (if t.failure.Some? then 1 else 0) ensures !rows[k].entry.Unreadable? {
      if k < |before| {
        assert rows[k] == before[k];
      } else {
        assert rows[k] == t.rows[k - |before|];
      }
    }
    if t.failure.Some? {
      assert rows[|rows| - 1] == t.rows[|t.rows| - 1];
    }
  }

  lemma EndsAtUnreadableBelow(row: Row, sub: Trace, path: seq<string>, p: seq<string>)
    requires path < p
    requires !row.entry.Unreadable?
    requires EndsAtUnreadable(sub, p)
    ensures EndsAtUnreadable(Trace([row] + sub.rows, sub.failure), path)
  {
    EndsAtUnreadableAfter([row], sub, p);
    if sub.failure.Some? {
      assert ([row] + sub.rows)[|sub.rows|] == sub.rows[|sub.rows| - 1];
      assert path < sub.failure.value.path by {
        assert sub.failure.value.path[..|path|] == p[..|path|];
      }
    }
  }

  // ---------------------------------------------------------------------
  // Shape of the output: prefixes, filtering, one listing per level.

  /** Every row below a call with prefix q is printed under a prefix that
      starts with q; a well-formed prefix stays well-formed. */
  lemma {:induction false} RowsExtendPrefix(node: Node, printFiles: bool, q: string)
    ensures forall r | r in Rows(node, printFiles, q) ::
              q <= r.prefix && (DecodePrefix(q).Some? ==> DecodePrefix(r.prefix).Some?)
    decreases node, 1, 0
  {
    if node.Dir? {
      RowsFromExtendPrefix(Listing(node.children, printFiles), 0, node, printFiles, q);
    }
  }

  lemma {:induction false} RowsFromExtendPrefix(entries: seq<Node>, i: nat, parent: Node, printFiles: bool, q: string)
    requires i <= |entries|
    requires parent.Dir? && forall e | e in entries :: e in parent.children
    ensures forall r | r in RowsFrom(entries, i, parent, printFiles, q) ::
              q <= r.prefix && (DecodePrefix(q).Some? ==> DecodePrefix(r.prefix).Some?)
    decreases parent, 0, |entries| - i
  {
    if i < |entries| {
      var isLast := i == |entries| - 1;
      var e := entries[i];
      assert e in parent.children && parent == Dir(parent.name, parent.children);
      RowsFromExtendPrefix(entries, i + 1, parent, printFiles, q);
      if IsDir(e) {
        var q' := NextPrefix(q, isLast);
        RowsExtendPrefix(e, printFiles, q');
        if DecodePrefix(q).Some? {
          DecodeNextPrefix(q, isLast);
        }
        forall r | r in Rows(e, printFiles, q') ensures q <= r.prefix {
          PrefixTransitive(q, q', r.prefix);
        }
      }
    }
  }

  lemma PrefixTransitive(a: string, b: string, c: string)
    requires a <= b && b <= c
    ensures a <= c
  {
    assert c[..|a|] == c[..|b|][..|a|];
  }

  /** Rows that all name directories. */
  predicate AllDirRows(rows: seq<Row>) {
    forall r | r in rows :: IsDir(r.entry)
  }

  lemma AllDirRowsConcat(row: Row, sub: seq<Row>, rest: seq<Row>)
    requires IsDir(row.entry) && AllDirRows(sub) && AllDirRows(rest)
    ensures AllDirRows([row] + sub + rest)
  {
  }

  /** Without printFiles no plain file is printed, at any depth. */
  lemma {:induction false} OnlyDirectoriesWithoutFiles(node: Node, prefix: string)
    ensures AllDirRows(Rows(node, false, prefix))
    decreases node, 1, 0
  {
    if node.Dir? {
      OnlyDirectoriesFrom(Listing(node.children, false), 0, node, prefix);
    }
  }

  lemma {:induction false} OnlyDirectoriesFrom(entries: seq<Node>, i: nat, parent: Node, prefix: string)
    requires i <= |entries|
    requires parent.Dir? && forall e | e in entries :: e in parent.children
    requires forall e | e in entries :: IsDir(e)
    ensures AllDirRows(RowsFrom(entries, i, parent, false, prefix))
    decreases parent, 0, |entries| - i
  {
    if i < |entries| {
      var isLast := i == |entries| - 1;
      OnlyDirectoriesFrom(entries, i + 1, parent, prefix);
      assert entries[i] in parent.children && parent == Dir(parent.name, parent.children);
      OnlyDirectoriesWithoutFiles(entries[i], NextPrefix(prefix, isLast));
      OnlyDirectoriesStep(entries, i, parent, prefix);
    }
  }

  lemma OnlyDirectoriesStep(entries: seq<Node>, i: nat, parent: Node, prefix: string)
    requires i < |entries| && IsDir(entries[i])
    requires parent.Dir? && forall e | e in entries :: e in parent.children
    requires AllDirRows(Rows(entries[i], false, NextPrefix(prefix, i == |entries| - 1)))
    requires AllDirRows(RowsFrom(entries, i + 1, parent, false, prefix))
    ensures AllDirRows(RowsFrom(entries, i, parent, false, prefix))
  {
    var isLast := i == |entries| - 1;
    RowsFromStep(entries, i, parent, false, prefix);
    AllDirRowsConcat(Row(prefix, isLast, entries[i]), Rows(entries[i], false, NextPrefix(prefix, isLast)),
                     RowsFrom(entries, i + 1, parent, false, prefix));
  }

  /** The rows printed exactly under prefix p. */
  function RowsAt(rows: seq<Row>, p: string): (level: seq<Row>)
    ensures forall r | r in level :: r in rows && r.prefix == p
    ensures forall r | r in rows && r.prefix == p :: r in level
  {
    if rows == [] then []
    else (if rows[0].prefix == p then [rows[0]] else []) + RowsAt(rows[1..], p)
  }

  lemma {:induction false} RowsAtAppend(a: seq<Row>, b: seq<Row>, p: string)
    ensures RowsAt(a + b, p) == RowsAt(a, p) + RowsAt(b, p)
  {
    if a != [] {
      assert (a + b)[0] == a[0] && (a + b)[1..] == a[1..] + b;
      RowsAtAppend(a[1..], b, p);
      var head := if a[0].prefix == p then [a[0]] else [];
      assert RowsAt(a + b, p) == head + RowsAt(a[1..] + b, p);
      assert RowsAt(a, p) == head + RowsAt(a[1..], p);
    } else {
      assert a + b == b;
    }
  }

  lemma {:induction false} RowsAtNone(rows: seq<Row>, p: string)
    requires forall r | r in rows :: r.prefix != p
    ensures RowsAt(rows, p) == []
  {
    if rows != [] {
      RowsAtNone(rows[1..], p);
    }
  }

  /** The rows of entries i.. of a listing, as its level prints them. */
  function LevelFrom(entries: seq<Node>, i: nat, p: string): seq<Row>
    requires i <= |entries|
    decreases |entries| - i
  {
    if i == |entries| then [] else [Row(p, i == |entries| - 1, entries[i])] + LevelFrom(entries, i + 1, p)
  }

  lemma {:induction false} RowsFromLevel(entries: seq<Node>, i: nat, parent: Node, printFiles: bool, p: string)
    requires i <= |entries|
    requires parent.Dir? && forall e | e in entries :: e in parent.children
    ensures RowsAt(RowsFrom(entries, i, parent, printFiles, p), p) == LevelFrom(entries, i, p)
    decreases |entries| - i
  {
    if i < |entries| {
      var isLast := i == |entries| - 1;
      var e := entries[i];
      assert e in parent.children && parent == Dir(parent.name, parent.children);
      var row := Row(p, isLast, e);
      var sub := if IsDir(e) then Rows(e, printFiles, NextPrefix(p, isLast)) else [];
      var rest := RowsFrom(entries, i + 1, parent, printFiles, p);
      RowsFromLevel(entries, i + 1, parent, printFiles, p);
      if IsDir(e) {
        RowsExtendPrefix(e, printFiles, NextPrefix(p, isLast));
      }
      RowsAtNone(sub, p);
      RowsAtAppend([row] + sub, rest, p);
      RowsAtAppend([row], sub, p);
      assert RowsAt([row], p) == [row];
    }
  }

  lemma {:induction false} LevelFromAt(entries: seq<Node>, i: nat, p: string)
    requires i <= |entries|
    ensures |LevelFrom(entries, i, p)| == |entries| - i
    ensures forall k | i <= k < |entries| ::
              LevelFrom(entries, i, p)[k - i] == Row(p, k == |entries| - 1, entries[k])
    decreases |entries| - i
  {
    if i < |entries| {
      LevelFromAt(entries, i + 1, p);
      var level := LevelFrom(entries, i, p);
      var later := LevelFrom(entries, i + 1, p);
      assert level == [Row(p, i == |entries| - 1, entries[i])] + later;
      forall k | i < k < |entries| ensures level[k - i] == Row(p, k == |entries| - 1, entries[k]) {
        assert level[k - i] == later[k - (i + 1)];
      }
    }
  }

  /** Within one directory printed under prefix p, the rows under exactly p
      are its listing, one row per entry in name order, and only the last of
      them is marked last; everything else printed is nested deeper. An empty
      listing prints nothing at all. */
  lemma LevelOfDirectory(node: Node, printFiles: bool, p: string)
    requires node.Dir?
    ensures var level := RowsAt(Rows(node, printFiles, p), p);
            var entries := Listing(node.children, printFiles);
            && |level| == |entries|
            && (forall k | 0 <= k < |level| :: level[k] == Row(p, k == |level| - 1, entries[k]))
            && (entries == [] ==> Rows(node, printFiles, p) == [])
  {
    var entries := Listing(node.children, printFiles);
    RowsFromLevel(entries, 0, node, printFiles, p);
    LevelFromAt(entries, 0, p);
  }

  /** Exactly one entry of a non-empty listing gets the last-branch glyph, and
      its name is the greatest of the listing. */
  lemma LastGlyphMarksGreatest(node: Node, printFiles: bool, p: string)
    requires node.Dir? && Listing(node.children, printFiles) != []
    ensures var level := RowsAt(Rows(node, printFiles, p), p);
            && level != []
            && (forall k | 0 <= k < |level| :: FilePrefix(level[k].isLast) == LastBranch <==> k == |level| - 1)
            && forall e | e in Listing(node.children, printFiles) ::
                 !NameLess(level[|level| - 1].entry.name, e.name)
  {
    var entries := Listing(node.children, printFiles);
    LevelOfDirectory(node, printFiles, p);
    var level := RowsAt(Rows(node, printFiles, p), p);
    forall e | e in entries ensures !NameLess(level[|level| - 1].entry.name, e.name) {
      var k :| 0 <= k < |entries| && entries[k] == e;
      if k < |entries| - 1 {
        assert !NameLess(entries[|entries| - 1].name, entries[k].name);
      } else {
        NameLessIrreflexive(e.name);
      }
    }
  }
}
