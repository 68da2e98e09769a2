/** filePrefix, nextPrefix, fileSize and printInfo: the text of one output line. */
module Format {
  import opened FileSystem
  import opened Digits

  const LastBranch: string := "└"
  const Branch: string := "├"
  const Continuation: string := "│"
  const Dash: string := "───"
  const Indent: string := "\t"

  /** The connector glyph: the last-branch glyph exactly for the last entry. */
  function FilePrefix(isLast: bool): (c: string)
    ensures c == LastBranch <==> isLast
    ensures c == Branch <==> !isLast
  {
    if isLast then LastBranch else Branch
  }

  /** The prefix handed to a directory's children: the parent's prefix, a
      continuation bar unless the directory was the last entry, then a tab. */
  function NextPrefix(p: string, isLast: bool): (q: string)
    ensures p <= q
    ensures |q| == |p| + (if isLast then 1 else 2)
    ensures q[|q| - 1] == '\t'
    ensures !isLast <==> q[|p|] == '│'
  {
    var bar := if isLast then p else p + Continuation;
    bar + Indent
  }

  function Cons(b: bool, rest: Option<seq<bool>>): Option<seq<bool>> {
    if rest.Some? then Some([b] + rest.value) else None
  }

  /** Reads a prefix back as the isLast flags of the ancestors, outermost first. */
  function DecodePrefix(s: string): Option<seq<bool>> {
    if s == [] then Some([])
    else if s[0] == '\t' then Cons(true, DecodePrefix(s[1..]))
    else if |s| >= 2 && s[0] == '│' && s[1] == '\t' then Cons(false, DecodePrefix(s[2..]))
    else None
  }

  /** Each level of nesting adds exactly one flag, its own isLast, to the prefix. */
  lemma {:induction false} DecodeNextPrefix(p: string, b: bool)
    requires DecodePrefix(p).Some?
    ensures DecodePrefix(NextPrefix(p, b)) == Some(DecodePrefix(p).value + [b])
  {
    var q := NextPrefix(p, b);
    if p == [] {
      var none: seq<bool> := [];
      assert DecodePrefix(p) == Some(none) && none + [b] == [b];
      if b {
        assert q == "\t" && q[1..] == [];
        assert DecodePrefix(q[1..]) == Some(none);
      } else {
        assert q == "│\t" && q[0] != '\t' && q[2..] == [];
        assert DecodePrefix(q[2..]) == Some(none);
      }
      assert [b] + none == [b];
    } else if p[0] == '\t' {
      assert q[0] == '\t' && q[1..] == NextPrefix(p[1..], b);
      DecodeNextPrefix(p[1..], b);
      var rest := DecodePrefix(p[1..]).value;
      assert DecodePrefix(p) == Some([true] + rest);
      assert DecodePrefix(q) == Some([true] + (rest + [b]));
      assert [true] + (rest + [b]) == [true] + rest + [b];
    } else {
      assert |p| >= 2 && p[0] == '│' && p[1] == '\t';
      assert q[0] == '│' && q[1] == '\t' && q[0] != '\t';
      assert q[2..] == NextPrefix(p[2..], b);
      DecodeNextPrefix(p[2..], b);
      var rest := DecodePrefix(p[2..]).value;
      assert DecodePrefix(p) == Some([false] + rest);
      assert DecodePrefix(q) == Some([false] + (rest + [b]));
      assert [false] + (rest + [b]) == [false] + rest + [b];
    }
  }

  /** The prefix of an entry whose ancestors had the given isLast flags,
      outermost first, as the renderer builds it from the empty root prefix. */
  function Ancestry(flags: seq<bool>): string {
    if flags == [] then "" else NextPrefix(Ancestry(flags[..|flags| - 1]), flags[|flags| - 1])
  }

  /** Different ancestries never give the same prefix. */
  lemma {:induction false} DecodeAncestry(flags: seq<bool>)
    ensures DecodePrefix(Ancestry(flags)) == Some(flags)
  {
    if flags != [] {
      var n := |flags|;
      DecodeAncestry(flags[..n - 1]);
      DecodeNextPrefix(Ancestry(flags[..n - 1]), flags[n - 1]);
      assert flags[..n - 1] + [flags[n - 1]] == flags;
    }
  }

  /** The size annotation: nothing for a directory, " (empty)" for an empty
      file, " (<N>b)" otherwise. */
  function FileSize(info: Node): (s: string)
    ensures s == "" <==> IsDir(info)
  {
    if IsDir(info) then ""
    else
      var sizeText := if info.size == 0 then "empty" else Decimal(info.size) + "b";
      " (" + sizeText + ")"
  }

  /** Reads the size back from an annotation. */
  function ParseSize(s: string): Option<nat> {
    if |s| < 4 || s[..2] != " (" || s[|s| - 1] != ')' then None
    else
      var text := s[2..|s| - 1];
      if text == "empty" then Some(0)
      else if |text| >= 2 && text[|text| - 1] == 'b' && AllDigits(text[..|text| - 1]) && text[0] != '0'
      then Some(ParseDecimal(text[..|text| - 1]))
      else None
  }

  /** The annotation of a file states its exact size. */
  lemma FileSizeRoundTrip(name: string, size: nat)
    ensures ParseSize(FileSize(File(name, size))) == Some(size)
  {
    var s := FileSize(File(name, size));
    if size == 0 {
      assert s == " (empty)";
    } else {
      var d := Decimal(size);
      assert s == " (" + d + "b" + ")";
      assert s[2..|s| - 1] == d + "b";
      assert (d + "b")[..|d|] == d;
      DecimalRoundTrip(size);
    }
  }

  /** One printed entry: the prefix it was printed under, whether it was the
      last of its listing, and the entry itself. */
  datatype Row = Row(prefix: string, isLast: bool, entry: Node)

  /** printInfo's line, without its newline. */
  function Line(r: Row): string {
    r.prefix + FilePrefix(r.isLast) + Dash + r.entry.name + FileSize(r.entry)
  }

  /** The format string printInfo hands to Fprintf, with the name as its argument. */
  function PrintFormat(prefix: string, isLast: bool, info: Node): string {
    prefix + FilePrefix(isLast) + Dash + "%s" + FileSize(info) + "\n"
  }

  /** printInfo splices the prefix and the size annotation into the format
      string itself; neither contains a '%', so the format string has one
      verb, the "%s" for the name, and Fprintf prints Line followed by a
      newline. */
  lemma OnlyVerbIsName(prefix: string, isLast: bool, info: Node)
    requires DecodePrefix(prefix).Some?
    ensures var lead := prefix + FilePrefix(isLast) + Dash;
            var tail := FileSize(info) + "\n";
            && PrintFormat(prefix, isLast, info) == lead + "%s" + tail
            && '%' !in lead && '%' !in tail
            && lead + info.name + tail == Line(Row(prefix, isLast, info)) + "\n"
  {
    PrefixHasNoPercent(prefix);
    if info.File? && info.size > 0 {
      assert '%' !in Decimal(info.size);
    }
  }

  lemma {:induction false} PrefixHasNoPercent(s: string)
    requires DecodePrefix(s).Some?
    ensures '%' !in s
  {
    if s != [] {
      if s[0] == '\t' {
        PrefixHasNoPercent(s[1..]);
        assert s == [s[0]] + s[1..];
      } else {
        PrefixHasNoPercent(s[2..]);
        assert s == s[..2] + s[2..];
      }
    }
  }
}
