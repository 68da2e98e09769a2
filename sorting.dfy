/** byFileName and sort.Sort: order a listing by name, in place. */
module Sorting {
  import opened FileSystem
  import opened Names

  /** Non-decreasing by name: no entry is named before an earlier one. */
  predicate SortedByName(s: seq<Node>) {
    forall i, j | 0 <= i < j < |s| :: !NameLess(s[j].name, s[i].name)
  }

  /** byFileName.Less */
  function Less(a: array<Node>, i: nat, j: nat): bool
    requires i < a.Length && j < a.Length
    reads a
  {
    NameLess(a[i].name, a[j].name)
  }

  /** byFileName.Swap */
  method Swap(a: array<Node>, i: nat, j: nat)
    requires i < a.Length && j < a.Length
    modifies a
    ensures a[..] == old(a[..])[i := old(a[j])][j := old(a[i])]
    ensures multiset(a[..]) == old(multiset(a[..]))
  {
    a[i], a[j] := a[j], a[i];
  }

  /** sort.Sort(byFileName(a)), as an insertion sort driven by Less and Swap. */
  method Sort(a: array<Node>)
    modifies a
    ensures SortedByName(a[..])
    ensures multiset(a[..]) == old(multiset(a[..]))
  {
    var i := 0;
    while i < a.Length
      invariant 0 <= i <= a.Length
      invariant SortedByName(a[..i])
      invariant multiset(a[..]) == old(multiset(a[..]))
    {
      var j := i;
      while j > 0 && Less(a, j, j - 1)
        invariant 0 <= j <= i
        invariant forall k, m | 0 <= k < m <= i && k != j && m != j :: !NameLess(a[m].name, a[k].name)
        invariant forall m | j < m <= i :: NameLess(a[j].name, a[m].name)
        invariant multiset(a[..]) == old(multiset(a[..]))
      {
        Swap(a, j, j - 1);
        j := j - 1;
      }
      forall k, m | 0 <= k < m <= i ensures !NameLess(a[m].name, a[k].name) {
        if m == j {
          if k < j - 1 {
            NotLessTransitive(a[k].name, a[j - 1].name, a[j].name);
          }
        } else if k == j {
          NameLessAsymmetric(a[j].name, a[m].name);
        }
      }
      i := i + 1;
    }
    assert a[..a.Length] == a[..];
  }

  /** Place x after every entry of s named before it. */
  function Insert(x: Node, s: seq<Node>): (r: seq<Node>)
    ensures multiset(r) == multiset(s) + multiset{x}
  {
    if s == [] then [x]
    else if NameLess(s[0].name, x.name) then
      assert s == [s[0]] + s[1..];
      [s[0]] + Insert(x, s[1..])
    else [x] + s
  }

  lemma {:induction false} InsertSorted(x: Node, s: seq<Node>)
    requires SortedByName(s)
    ensures SortedByName(Insert(x, s))
  {
    if s == [] {
    } else if NameLess(s[0].name, x.name) {
      var rest := Insert(x, s[1..]);
      InsertSorted(x, s[1..]);
      var r := [s[0]] + rest;
      forall j | 1 <= j < |r| ensures !NameLess(r[j].name, s[0].name) {
        assert r[j] in multiset(rest);
        if r[j] == x {
          NameLessAsymmetric(s[0].name, x.name);
        } else {
          assert r[j] in s[1..];
          var k :| 1 <= k < |s| && s[k] == r[j];
        }
      }
      assert SortedByName(r);
    } else {
      var r := [x] + s;
      forall j | 1 <= j < |r| ensures !NameLess(r[j].name, x.name) {
        if j > 1 {
          NotLessTransitive(x.name, s[0].name, r[j].name);
        }
      }
      assert SortedByName(r);
    }
  }

  /** The order the renderer lists entries in, as a function: a sorted permutation. */
  function SortByName(s: seq<Node>): (r: seq<Node>)
    ensures multiset(r) == multiset(s)
    ensures SortedByName(r)
  {
    if s == [] then [] else
      assert s == [s[0]] + s[1..];
      InsertSorted(s[0], SortByName(s[1..]));
      Insert(s[0], SortByName(s[1..]))
  }

  lemma SortedTail(s: seq<Node>)
    requires s != [] && SortedByName(s)
    ensures SortedByName(s[1..])
  {
  }

  /** Two sorted permutations of a listing with distinct names start with the same entry. */
  lemma SortedHeadsAgree(s: seq<Node>, t: seq<Node>)
    requires s != [] && t != []
    requires SortedByName(s) && SortedByName(t)
    requires multiset(s) == multiset(t)
    requires DistinctNames(s)
    ensures s[0] == t[0]
  {
    assert s[0] in multiset(t) && t[0] in multiset(s);
    var i :| 0 <= i < |s| && s[i] == t[0];
    var j :| 0 <= j < |t| && t[j] == s[0];
    NameLessIrreflexive(s[0].name);
    assert !NameLess(s[0].name, t[0].name) by {
      if j > 0 { assert !NameLess(t[j].name, t[0].name); }
    }
    assert !NameLess(t[0].name, s[0].name) by {
      if i > 0 { assert !NameLess(s[i].name, s[0].name); }
    }
    NameLessTotal(s[0].name, t[0].name);
    assert s[i].name == s[0].name;
    assert i == 0;
  }

  lemma DistinctTail(s: seq<Node>)
    requires s != [] && DistinctNames(s)
    ensures DistinctNames(s[1..])
  {
    forall p, q | 0 <= p < q < |s| - 1 ensures s[1..][p].name != s[1..][q].name {
      assert s[1..][p] == s[p + 1] && s[1..][q] == s[q + 1];
    }
  }

  /** With distinct names there is only one sorted order: whatever algorithm
      sort.Sort runs, its result is SortByName's. */
  lemma {:induction false} SortedUnique(s: seq<Node>, t: seq<Node>)
    requires SortedByName(s) && SortedByName(t)
    requires multiset(s) == multiset(t)
    requires DistinctNames(s)
    ensures s == t
  {
    assert |t| == |multiset(t)| == |multiset(s)| == |s|;
    if s != [] {
      SortedHeadsAgree(s, t);
      assert s == [s[0]] + s[1..] && t == [t[0]] + t[1..];
      assert multiset(s) == multiset{s[0]} + multiset(s[1..]);
      assert multiset(t) == multiset{s[0]} + multiset(t[1..]);
      assert multiset(s[1..]) == multiset(s) - multiset{s[0]};
      assert multiset(t[1..]) == multiset(t) - multiset{s[0]};
      SortedTail(s);
      SortedTail(t);
      DistinctTail(s);
      SortedUnique(s[1..], t[1..]);
    }
  }

  /** Dropping one entry from a listing keeps its names distinct and its other entries. */
  lemma DistinctWithout(s: seq<Node>, i: nat)
    requires i < |s| && DistinctNames(s)
    ensures DistinctNames(s[..i] + s[i + 1..])
    ensures multiset(s[..i] + s[i + 1..]) == multiset(s) - multiset{s[i]}
    ensures forall x | x in s[..i] + s[i + 1..] :: x.name != s[i].name
  {
    var s' := s[..i] + s[i + 1..];
    assert s == s[..i] + [s[i]] + s[i + 1..];
    assert forall k | 0 <= k < |s'| :: s'[k] == s[if k < i then k else k + 1];
  }

  /** Reordering a listing keeps its names distinct. */
  lemma {:induction false} DistinctPermutation(s: seq<Node>, t: seq<Node>)
    requires multiset(s) == multiset(t)
    requires DistinctNames(s)
    ensures DistinctNames(t)
    decreases |t|
  {
    if t != [] {
      assert t[0] in multiset(s);
      var i :| 0 <= i < |s| && s[i] == t[0];
      var s' := s[..i] + s[i + 1..];
      DistinctWithout(s, i);
      assert t == [t[0]] + t[1..];
      assert multiset(t[1..]) == multiset(s');
      DistinctPermutation(s', t[1..]);
      forall x | x in t[1..] ensures x.name != t[0].name {
        assert x in multiset(t[1..]);
      }
      DistinctCons(t);
    }
  }

  lemma DistinctCons(t: seq<Node>)
    requires t != [] && DistinctNames(t[1..])
    requires forall x | x in t[1..] :: x.name != t[0].name
    ensures DistinctNames(t)
  {
    forall i, j | 0 <= i < j < |t| ensures t[i].name != t[j].name {
      assert t[j] == t[1..][j - 1];
      if i > 0 {
        assert t[i] == t[1..][i - 1];
      }
    }
  }
}
