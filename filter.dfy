/** filterFiles: keep only the directory entries of a listing. */
module Filter {
  import opened FileSystem

  /** The directory entries of s, in their order in s. */
  function Dirs(s: seq<Node>): (r: seq<Node>)
    ensures forall x :: x in r <==> x in s && IsDir(x)
  {
    if s == [] then [] else (if IsDir(s[0]) then [s[0]] else []) + Dirs(s[1..])
  }

  lemma {:induction false} DirsSnoc(s: seq<Node>, x: Node)
    ensures Dirs(s + [x]) == Dirs(s) + (if IsDir(x) then [x] else [])
  {
    if s != [] {
      assert (s + [x])[1..] == s[1..] + [x];
      DirsSnoc(s[1..], x);
    }
  }

  /** The loop of filterFiles: append each directory entry to a fresh slice. */
  method FilterFiles(infos: seq<Node>) returns (filtered: seq<Node>)
    ensures filtered == Dirs(infos)
  {
    filtered := [];
    for k := 0 to |infos|
      invariant filtered == Dirs(infos[..k])
    {
      assert infos[..k + 1] == infos[..k] + [infos[k]];
      DirsSnoc(infos[..k], infos[k]);
      if IsDir(infos[k]) {
        filtered := filtered + [infos[k]];
      }
    }
    assert infos[..|infos|] == infos;
  }

  /** Each directory entry is kept as often as it occurs, and nothing else is kept. */
  lemma {:induction false} DirsCount(s: seq<Node>, x: Node)
    ensures multiset(Dirs(s))[x] == if IsDir(x) then multiset(s)[x] else 0
  {
    if s != [] {
      DirsCount(s[1..], x);
      assert s == [s[0]] + s[1..];
    }
  }

  /** t occurs in s in the same relative order (greedy matching from the front). */
  predicate IsSubsequence(t: seq<Node>, s: seq<Node>)
    decreases |s|
  {
    if t == [] then true
    else if s == [] then false
    else if t[0] == s[0] then IsSubsequence(t[1..], s[1..])
    else IsSubsequence(t, s[1..])
  }

  /** filterFiles neither adds nor reorders entries. */
  lemma {:induction false} DirsIsSubsequence(s: seq<Node>)
    ensures IsSubsequence(Dirs(s), s)
  {
    if s != [] {
      DirsIsSubsequence(s[1..]);
      if !IsDir(s[0]) {
        assert Dirs(s) == Dirs(s[1..]);
        if Dirs(s) != [] {
          assert Dirs(s)[0] in Dirs(s) && Dirs(s)[0] != s[0];
        }
      }
    }
  }

  lemma {:induction false} SubsequenceShorter(t: seq<Node>, s: seq<Node>)
    requires IsSubsequence(t, s)
    ensures |t| <= |s|
    decreases |s|
  {
    if t != [] {
      if t[0] == s[0] {
        SubsequenceShorter(t[1..], s[1..]);
      } else {
        SubsequenceShorter(t, s[1..]);
      }
    }
  }

  lemma DirsShorter(s: seq<Node>)
    ensures |Dirs(s)| <= |s|
  {
    DirsIsSubsequence(s);
    SubsequenceShorter(Dirs(s), s);
  }

  lemma {:induction false} DirsDistinct(s: seq<Node>)
    requires DistinctNames(s)
    ensures DistinctNames(Dirs(s))
  {
    if s != [] {
      DirsDistinct(s[1..]);
      var rest := Dirs(s[1..]);
      if IsDir(s[0]) {
        forall j | 0 <= j < |rest| ensures s[0].name != rest[j].name {
          assert rest[j] in s[1..];
        }
      }
    }
  }
}
