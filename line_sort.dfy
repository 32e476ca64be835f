/** The decorate-sort-undecorate step that every `get_sorted_line_list` /
    `getSortedLineList` performs on a block: each body line is paired with its
    sort key and its position, the pairs are sorted the way Python compares
    tuples, and the lines are read back in the new order after the header lines,
    which are left as they are. */
module LineSort {
  import opened PyStr
  import opened LineStream

  /** Characters trimmed from both ends of a key by the two newer readers ("strip(' ./')"). */
  const KeyTrim: set<char> := {' ', '.', '/'}

  /** Characters trimmed by the oldest reader ("strip(' .')"): a slash is kept. */
  const OldestKeyTrim: set<char> := {' ', '.'}

  /** `line.removeprefix(comment_prefix).strip(trim).lower()` */
  function SortKey(line: string, commentPrefix: string, trim: set<char>): (k: string)
    ensures |k| <= |line|
    ensures forall i :: 0 <= i < |k| ==> !('A' <= k[i] <= 'Z')
  {
    Lower(StripChars(RemovePrefix(line, commentPrefix), trim))
  }

  /** The decorated tuple `(key, i, line)`. */
  datatype Entry = Entry(key: string, index: nat, line: string)

  function Decorate(lines: seq<string>, commentPrefix: string, trim: set<char>): (es: seq<Entry>)
    ensures |es| == |lines|
    ensures forall i :: 0 <= i < |lines| ==> es[i] == Entry(SortKey(lines[i], commentPrefix, trim), i, lines[i])
  {
    seq(|lines|, i requires 0 <= i < |lines| => Entry(SortKey(lines[i], commentPrefix, trim), i, lines[i]))
  }

  function Undecorate(es: seq<Entry>): (ls: seq<string>)
    ensures |ls| == |es| && forall i :: 0 <= i < |es| ==> ls[i] == es[i].line
  {
    seq(|es|, i requires 0 <= i < |es| => es[i].line)
  }

  function Indices(es: seq<Entry>): (ix: seq<nat>)
    ensures |ix| == |es| && forall i :: 0 <= i < |es| ==> ix[i] == es[i].index
  {
    seq(|es|, i requires 0 <= i < |es| => es[i].index)
  }

  lemma ProjectionsAppend(a: seq<Entry>, b: seq<Entry>)
    ensures Undecorate(a + b) == Undecorate(a) + Undecorate(b)
    ensures Indices(a + b) == Indices(a) + Indices(b)
  {
  }

  /** Python's `a < b` on two decorated tuples.  The positions of one block are
      distinct, so the comparison never reaches the line itself. */
  predicate Before(a: Entry, b: Entry) {
    LexLess(a.key, b.key) || (a.key == b.key && a.index < b.index)
  }

  lemma BeforeAsymmetric(a: Entry, b: Entry)
    ensures !(Before(a, b) && Before(b, a))
  {
    LexLessAsymmetric(a.key, b.key);
    LexLessIrreflexive(a.key);
  }

  lemma BeforeTotal(a: Entry, b: Entry)
    requires a.index != b.index
    ensures Before(a, b) || Before(b, a)
  {
    LexLessTotal(a.key, b.key);
  }

  lemma BeforeTransitive(a: Entry, b: Entry, c: Entry)
    requires Before(a, b) && Before(b, c)
    ensures Before(a, c)
  {
    if LexLess(a.key, b.key) && LexLess(b.key, c.key) {
      LexLessTransitive(a.key, b.key, c.key);
    }
  }

  predicate Ascending(es: seq<Entry>) {
    forall i, j :: 0 <= i < j < |es| ==> Before(es[i], es[j])
  }

  predicate DistinctIndices(es: seq<Entry>) {
    forall i, j :: 0 <= i < j < |es| ==> es[i].index != es[j].index
  }

  /** An entry that comes before the first of an ascending list may go in front of it. */
  lemma AscendingCons(e: Entry, es: seq<Entry>)
    requires Ascending(es)
    requires forall j :: 0 <= j < |es| ==> Before(e, es[j])
    ensures Ascending([e] + es)
  {
    forall i, j | 0 <= i < j < |es| + 1 ensures Before(([e] + es)[i], ([e] + es)[j]) {
      if i > 0 {
        assert ([e] + es)[i] == es[i - 1];
      }
    }
  }

  lemma BeforeAll(e: Entry, es: seq<Entry>)
    requires Ascending(es) && es != [] && Before(e, es[0])
    ensures forall j :: 0 <= j < |es| ==> Before(e, es[j])
  {
    forall j | 0 < j < |es| ensures Before(e, es[j]) {
      BeforeTransitive(e, es[0], es[j]);
    }
  }

  function Insert(e: Entry, es: seq<Entry>): (r: seq<Entry>)
    requires Ascending(es)
    requires forall x :: x in es ==> x.index != e.index
    ensures Ascending(r)
    ensures |r| == |es| + 1
    ensures multiset(r) == multiset(es) + multiset{e}
  {
    if es == [] then
      [e]
    else if Before(e, es[0]) then
      BeforeAll(e, es);
      AscendingCons(e, es);
      [e] + es
    else
      var rest := Insert(e, es[1..]);
      BeforeTotal(e, es[0]);
      assert es == [es[0]] + es[1..];
      assert multiset(rest) == multiset(es[1..]) + multiset{e};
      assert forall j :: 0 <= j < |rest| ==> Before(es[0], rest[j]) by {
        forall j | 0 <= j < |rest| ensures Before(es[0], rest[j]) {
          assert rest[j] in multiset(rest);
        }
      }
      AscendingCons(es[0], rest);
      [es[0]] + rest
  }

  /** Sorting the decorated list; insertion sort stands in for Python's `list.sort`,
      and AscendingUnique shows that any sort gives the same list. */
  function SortEntries(es: seq<Entry>): (r: seq<Entry>)
    requires DistinctIndices(es)
    ensures Ascending(r)
    ensures |r| == |es|
    ensures multiset(r) == multiset(es)
  {
    if es == [] then []
    else
      DistinctTail(es);
      var rest := SortEntries(es[1..]);
      SameMembers(rest, es[1..]);
      assert es == [es[0]] + es[1..];
      Insert(es[0], rest)
  }

  lemma SameMembers<T>(a: seq<T>, b: seq<T>)
    requires multiset(a) == multiset(b)
    ensures forall x :: x in a ==> x in b
  {
    forall x | x in a ensures x in b {
      assert x in multiset(a);
    }
  }

  lemma DistinctTail(es: seq<Entry>)
    requires DistinctIndices(es) && es != []
    ensures DistinctIndices(es[1..])
    ensures forall x :: x in es[1..] ==> x.index != es[0].index
  {
    forall i, j | 0 <= i < j < |es| - 1 ensures es[1..][i].index != es[1..][j].index {
      assert es[1..][i] == es[i + 1] && es[1..][j] == es[j + 1];
    }
  }

  /** Rearranging entries rearranges their lines and their positions the same way. */
  lemma ProjectionsPermute(a: seq<Entry>, b: seq<Entry>)
    requires multiset(a) == multiset(b)
    ensures multiset(Undecorate(a)) == multiset(Undecorate(b))
    ensures multiset(Indices(a)) == multiset(Indices(b))
  {
    LinesPermute(a, b);
    IndicesPermute(a, b);
  }

  lemma {:induction false} LinesPermute(a: seq<Entry>, b: seq<Entry>)
    requires multiset(a) == multiset(b)
    ensures multiset(Undecorate(a)) == multiset(Undecorate(b))
    decreases |a|
  {
    if a == [] {
      assert |b| == |multiset(b)| == 0;
    } else {
      var k := RemoveMatching(a, b);
      LinesPermute(a[1..], b[..k] + b[k + 1..]);
      LinesRemove(a, 0);
      LinesRemove(b, k);
    }
  }

  lemma {:induction false} IndicesPermute(a: seq<Entry>, b: seq<Entry>)
    requires multiset(a) == multiset(b)
    ensures multiset(Indices(a)) == multiset(Indices(b))
    decreases |a|
  {
    if a == [] {
      assert |b| == |multiset(b)| == 0;
    } else {
      var k := RemoveMatching(a, b);
      IndicesPermute(a[1..], b[..k] + b[k + 1..]);
      IndicesRemove(a, 0);
      IndicesRemove(b, k);
    }
  }

  /** The first element of `a` sits at some index `k` of `b`; without it, the rest of
      `a` and `b` without index `k` hold the same elements. */
  lemma RemoveMatching<T>(a: seq<T>, b: seq<T>) returns (k: nat)
    requires multiset(a) == multiset(b) && a != []
    ensures k < |b| && b[k] == a[0]
    ensures multiset(a[1..]) == multiset(b[..k] + b[k + 1..])
    ensures a[..0] + a[1..] == a[1..]
  {
    assert a[0] in multiset(b);
    k :| 0 <= k < |b| && b[k] == a[0];
    assert a == [a[0]] + a[1..];
    assert b == b[..k] + [b[k]] + b[k + 1..];
    assert multiset(b) == multiset(b[..k]) + multiset{b[k]} + multiset(b[k + 1..]);
    assert multiset(a[1..]) == multiset(a) - multiset{a[0]};
    assert a[..0] == [];
  }

  /** The lines of `b` are those of `b` without its `k`th entry, and that entry's line. */
  lemma LinesRemove(b: seq<Entry>, k: nat)
    requires k < |b|
    ensures multiset(Undecorate(b)) == multiset(Undecorate(b[..k] + b[k + 1..])) + multiset{b[k].line}
  {
    assert b == b[..k] + [b[k]] + b[k + 1..];
    assert Undecorate([b[k]]) == [b[k].line];
    ProjectionsAppend(b[..k] + [b[k]], b[k + 1..]);
    ProjectionsAppend(b[..k], [b[k]]);
    ProjectionsAppend(b[..k], b[k + 1..]);
  }

  /** The positions of `b` are those of `b` without its `k`th entry, and that entry's position. */
  lemma IndicesRemove(b: seq<Entry>, k: nat)
    requires k < |b|
    ensures multiset(Indices(b)) == multiset(Indices(b[..k] + b[k + 1..])) + multiset{b[k].index}
  {
    assert b == b[..k] + [b[k]] + b[k + 1..];
    assert Indices([b[k]]) == [b[k].index];
    ProjectionsAppend(b[..k] + [b[k]], b[k + 1..]);
    ProjectionsAppend(b[..k], [b[k]]);
    ProjectionsAppend(b[..k], b[k + 1..]);
  }

  /** Two ascending lists with the same elements are the same list. */
  lemma {:induction false} AscendingUnique(a: seq<Entry>, b: seq<Entry>)
    requires Ascending(a) && Ascending(b) && multiset(a) == multiset(b)
    ensures a == b
    decreases |a|
  {
    if a == [] {
      assert |b| == |multiset(b)| == 0;
    } else {
      assert b != [] by { assert a[0] in multiset(b); }
      assert a[0] in multiset(b) && b[0] in multiset(a);
      if a[0] != b[0] {
        var p :| 0 <= p < |b| && b[p] == a[0];
        var q :| 0 <= q < |a| && a[q] == b[0];
        assert Before(b[0], a[0]) && Before(a[0], b[0]);
        BeforeAsymmetric(a[0], b[0]);
      }
      assert a == [a[0]] + a[1..] && b == [b[0]] + b[1..];
      assert multiset(a) == multiset{a[0]} + multiset(a[1..]);
      assert multiset(b) == multiset{b[0]} + multiset(b[1..]);
      assert multiset(a[1..]) == multiset(a) - multiset{a[0]};
      assert multiset(b[1..]) == multiset(b) - multiset{b[0]};
      AscendingUnique(a[1..], b[1..]);
    }
  }

  /** The body lines in the order `get_sorted_line_list` puts them. */
  function SortBody(lines: seq<string>, commentPrefix: string, trim: set<char>): seq<string> {
    Undecorate(SortEntries(Decorate(lines, commentPrefix, trim)))
  }

  /** The original position of each line of SortBody: the permutation the sort applied. */
  function SortedPositions(lines: seq<string>, commentPrefix: string, trim: set<char>): seq<nat> {
    Indices(SortEntries(Decorate(lines, commentPrefix, trim)))
  }

  /** `header_lines + sorted_lines` for a block given as a pair. */
  function SortedLineList(block: Block, commentPrefix: string, trim: set<char>): (r: seq<string>)
    ensures |r| == |block.header| + |block.lines|
    ensures r[..|block.header|] == block.header
    ensures multiset(r[|block.header|..]) == multiset(block.lines)
  {
    var body := SortBody(block.lines, commentPrefix, trim);
    SortBodyPermutes(block.lines, commentPrefix, trim);
    assert (block.header + body)[|block.header|..] == body;
    block.header + body
  }

  predicate KeyLe(a: string, b: string) {
    a == b || LexLess(a, b)
  }

  /** The keys of `lines`, taken in order, never decrease. */
  predicate KeysAscending(lines: seq<string>, commentPrefix: string, trim: set<char>) {
    forall i, j :: 0 <= i < j < |lines| ==>
      KeyLe(SortKey(lines[i], commentPrefix, trim), SortKey(lines[j], commentPrefix, trim))
  }

  lemma DecorateDistinct(lines: seq<string>, commentPrefix: string, trim: set<char>)
    ensures DistinctIndices(Decorate(lines, commentPrefix, trim))
  {
  }

  /** Every entry of the sorted list is an entry of the decorated list. */
  lemma SortedEntriesDecorate(lines: seq<string>, commentPrefix: string, trim: set<char>, k: nat)
    requires k < |lines|
    ensures var es := SortEntries(Decorate(lines, commentPrefix, trim));
            |es| == |lines| &&
            es[k].index < |lines| &&
            es[k] == Entry(SortKey(lines[es[k].index], commentPrefix, trim), es[k].index, lines[es[k].index])
  {
    var d := Decorate(lines, commentPrefix, trim);
    var es := SortEntries(d);
    assert es[k] in multiset(d);
  }

  /** The sorted body is a permutation of the body. */
  lemma SortBodyPermutes(lines: seq<string>, commentPrefix: string, trim: set<char>)
    ensures |SortBody(lines, commentPrefix, trim)| == |lines|
    ensures multiset(SortBody(lines, commentPrefix, trim)) == multiset(lines)
  {
    var d := Decorate(lines, commentPrefix, trim);
    assert Undecorate(d) == lines;
    ProjectionsPermute(SortEntries(d), d);
  }

  /** The sorted body, read with the permutation it applied: line `k` is the original
      line at `SortedPositions[k]`, the keys ascend, and lines with equal keys keep
      their original relative order (the sort is stable). */
  lemma SortBodyStable(lines: seq<string>, commentPrefix: string, trim: set<char>)
    ensures var r := SortBody(lines, commentPrefix, trim);
            var pos := SortedPositions(lines, commentPrefix, trim);
            |r| == |pos| == |lines| &&
            multiset(pos) == multiset(seq(|lines|, i => i)) &&
            (forall k :: 0 <= k < |r| ==> pos[k] < |lines| && r[k] == lines[pos[k]]) &&
            KeysAscending(r, commentPrefix, trim) &&
            (forall k, l :: (0 <= k < l < |r| &&
               SortKey(r[k], commentPrefix, trim) == SortKey(r[l], commentPrefix, trim)) ==> pos[k] < pos[l])
  {
    SortedPositionsPermute(lines, commentPrefix, trim);
    SortBodyOrdered(lines, commentPrefix, trim);
  }

  /** The positions the sort applied are a rearrangement of `0 .. |lines| - 1`, and
      line `k` of the sorted body is the original line at position `k` of them. */
  lemma SortedPositionsPermute(lines: seq<string>, commentPrefix: string, trim: set<char>)
    ensures var r := SortBody(lines, commentPrefix, trim);
            var pos := SortedPositions(lines, commentPrefix, trim);
            |r| == |pos| == |lines| &&
            multiset(pos) == multiset(seq(|lines|, i => i)) &&
            (forall k :: 0 <= k < |r| ==> pos[k] < |lines| && r[k] == lines[pos[k]])
  {
    var d := Decorate(lines, commentPrefix, trim);
    var es := SortEntries(d);
    var r := SortBody(lines, commentPrefix, trim);
    var pos := SortedPositions(lines, commentPrefix, trim);
    assert Indices(d) == seq(|lines|, i => i);
    IndicesPermute(es, d);
    forall k | 0 <= k < |r| ensures pos[k] < |lines| && r[k] == lines[pos[k]] {
      SortedEntriesDecorate(lines, commentPrefix, trim, k);
    }
  }

  /** The keys of the sorted body ascend, and equal keys keep their original order. */
  lemma SortBodyOrdered(lines: seq<string>, commentPrefix: string, trim: set<char>)
    ensures var r := SortBody(lines, commentPrefix, trim);
            var pos := SortedPositions(lines, commentPrefix, trim);
            |r| == |pos| == |lines| &&
            KeysAscending(r, commentPrefix, trim) &&
            (forall k, l :: (0 <= k < l < |r| &&
               SortKey(r[k], commentPrefix, trim) == SortKey(r[l], commentPrefix, trim)) ==> pos[k] < pos[l])
  {
    var d := Decorate(lines, commentPrefix, trim);
    var es := SortEntries(d);
    var r := SortBody(lines, commentPrefix, trim);
    var pos := SortedPositions(lines, commentPrefix, trim);
    forall k | 0 <= k < |r| ensures SortKey(r[k], commentPrefix, trim) == es[k].key {
      SortedEntriesDecorate(lines, commentPrefix, trim, k);
    }
    forall k, l | 0 <= k < l < |r|
      ensures KeyLe(SortKey(r[k], commentPrefix, trim), SortKey(r[l], commentPrefix, trim))
      ensures SortKey(r[k], commentPrefix, trim) == SortKey(r[l], commentPrefix, trim) ==> pos[k] < pos[l]
    {
      assert Before(es[k], es[l]);
      if es[k].key == es[l].key {
        LexLessIrreflexive(es[k].key);
      }
    }
  }

  /** A body whose keys already ascend is left exactly as it is. */
  lemma SortBodyOfSorted(lines: seq<string>, commentPrefix: string, trim: set<char>)
    requires KeysAscending(lines, commentPrefix, trim)
    ensures SortBody(lines, commentPrefix, trim) == lines
  {
    var d := Decorate(lines, commentPrefix, trim);
    assert Ascending(d);
    AscendingUnique(SortEntries(d), d);
    assert Undecorate(d) == lines;
  }

  /** Sorting a block twice gives the same lines as sorting it once. */
  lemma SortedLineListIdempotent(block: Block, commentPrefix: string, trim: set<char>)
    ensures var once := SortedLineList(block, commentPrefix, trim);
            SortedLineList(Block(block.header, once[|block.header|..]), commentPrefix, trim) == once
  {
    var once := SortedLineList(block, commentPrefix, trim);
    var body := SortBody(block.lines, commentPrefix, trim);
    assert once[|block.header|..] == body;
    SortBodyStable(block.lines, commentPrefix, trim);
    SortBodyOfSorted(body, commentPrefix, trim);
  }

  lemma KeyExampleA()
    ensures SortKey("!A.com", "!", KeyTrim) == "a.com"
  {
    assert RemovePrefix("!A.com", "!") == "A.com";
    assert "A.com"[0] == 'A' && 'A' !in KeyTrim;
    assert LStripChars("A.com", KeyTrim) == "A.com";
    assert RStripChars("A.com", KeyTrim) == "A.com";
  }

  lemma KeyExampleB()
    ensures SortKey("! B.com", "!", KeyTrim) == "b.com"
  {
    assert RemovePrefix("! B.com", "!") == " B.com";
    StripExampleB();
    LowerExampleB();
  }

  lemma LowerExampleB()
    ensures Lower("B.com") == "b.com"
  {
  }

  lemma StripExampleB()
    ensures StripChars(" B.com", KeyTrim) == "B.com"
  {
    assert " B.com"[0] == ' ' && " B.com"[1..] == "B.com";
    assert "B.com"[0] == 'B' && 'B' !in KeyTrim;
    assert LStripChars(" B.com", KeyTrim) == "B.com";
    assert RStripChars("B.com", KeyTrim) == "B.com";
  }

  lemma KeyExampleC()
    ensures SortKey(".c.com", "!", KeyTrim) == "c.com"
  {
    assert RemovePrefix(".c.com", "!") == ".c.com";
    assert LStripChars(".c.com", KeyTrim) == LStripChars("c.com", KeyTrim) == "c.com";
    assert RStripChars("c.com", KeyTrim) == "c.com";
  }

  lemma DecorateExampleAt(lines: seq<string>, i: nat)
    requires lines == ["! B.com", "!A.com", ".c.com"] && i < 3
    ensures Decorate(lines, "!", KeyTrim)[i] ==
              [Entry("b.com", 0, "! B.com"), Entry("a.com", 1, "!A.com"), Entry("c.com", 2, ".c.com")][i]
  {
    if i == 0 {
      KeyExampleB();
    } else if i == 1 {
      KeyExampleA();
    } else {
      KeyExampleC();
    }
  }

  lemma DecorateExample(lines: seq<string>)
    requires lines == ["! B.com", "!A.com", ".c.com"]
    ensures Decorate(lines, "!", KeyTrim) ==
              [Entry("b.com", 0, "! B.com"), Entry("a.com", 1, "!A.com"), Entry("c.com", 2, ".c.com")]
  {
    forall i | 0 <= i < 3
      ensures Decorate(lines, "!", KeyTrim)[i] ==
                [Entry("b.com", 0, "! B.com"), Entry("a.com", 1, "!A.com"), Entry("c.com", 2, ".c.com")][i]
    {
      DecorateExampleAt(lines, i);
    }
  }

  /** The ordering example: the comment marker is ignored, then the spaces and dots
      around the name, then the case. */
  lemma SortBodyExample(lines: seq<string>)
    requires lines == ["! B.com", "!A.com", ".c.com"]
    ensures SortBody(lines, "!", KeyTrim) == ["!A.com", "! B.com", ".c.com"]
  {
    var target := [Entry("a.com", 1, "!A.com"), Entry("b.com", 0, "! B.com"), Entry("c.com", 2, ".c.com")];
    TargetOrder(lines, target);
    AscendingUnique(SortEntries(Decorate(lines, "!", KeyTrim)), target);
    UndecorateExample(target);
  }

  lemma TargetOrder(lines: seq<string>, target: seq<Entry>)
    requires lines == ["! B.com", "!A.com", ".c.com"]
    requires target == [Entry("a.com", 1, "!A.com"), Entry("b.com", 0, "! B.com"), Entry("c.com", 2, ".c.com")]
    ensures DistinctIndices(Decorate(lines, "!", KeyTrim))
    ensures multiset(Decorate(lines, "!", KeyTrim)) == multiset(target)
    ensures Ascending(target)
  {
    DecorateDistinct(lines, "!", KeyTrim);
    DecorateExample(lines);
    SwapFirstTwo(Decorate(lines, "!", KeyTrim), target);
    TargetAscending(target);
  }

  lemma SwapFirstTwo(d: seq<Entry>, e: seq<Entry>)
    requires |d| == |e| == 3 && d[0] == e[1] && d[1] == e[0] && d[2] == e[2]
    ensures multiset(d) == multiset(e)
  {
    assert d == [e[1]] + [e[0]] + [e[2]];
    assert e == [e[0]] + [e[1]] + [e[2]];
  }

  lemma TargetAscending(target: seq<Entry>)
    requires target == [Entry("a.com", 1, "!A.com"), Entry("b.com", 0, "! B.com"), Entry("c.com", 2, ".c.com")]
    ensures Ascending(target)
  {
    assert LexLess("a.com", "b.com") && LexLess("b.com", "c.com") && LexLess("a.com", "c.com");
  }

  lemma UndecorateExample(es: seq<Entry>)
    requires es == [Entry("a.com", 1, "!A.com"), Entry("b.com", 0, "! B.com"), Entry("c.com", 2, ".c.com")]
    ensures Undecorate(es) == ["!A.com", "! B.com", ".c.com"]
  {
    var r := Undecorate(es);
    assert forall i | 0 <= i < 3 :: r[i] == ["!A.com", "! B.com", ".c.com"][i];
  }
}
