/** The part of the filesystem the tree renderer sees through os.Open, Stat and
    Readdir: every entry has a name; a plain file has a size in bytes; a
    directory has children; a directory that cannot be opened or listed is an
    Unreadable entry. */
module FileSystem {

  datatype Option<T> = None | Some(value: T)

  /** Which step of reading a directory fails. */
  datatype Fault = OpenFault | ReadFault

  datatype Node =
    | File(name: string, size: nat)
    | Dir(name: string, children: seq<Node>)
    | Unreadable(name: string, fault: Fault)

  /** os.FileInfo.IsDir: an unreadable directory is still listed as a directory. */
  predicate IsDir(n: Node) {
    n.Dir? || n.Unreadable?
  }

  /** The three errors readDir returns, with the path (names below the root)
      of the directory it was reading. */
  datatype Error =
    | OpenFailed(path: seq<string>)
    | NotDirectory(path: seq<string>)
    | ReadFailed(path: seq<string>)

  /** No two entries of one listing share a name. */
  predicate DistinctNames(s: seq<Node>) {
    forall i, j | 0 <= i < j < |s| :: s[i].name != s[j].name
  }

  /** What every real directory tree satisfies: names are unique within each directory. */
  predicate WellFormed(n: Node) {
    n.Dir? ==> DistinctNames(n.children) && forall c | c in n.children :: WellFormed(c)
  }
}
