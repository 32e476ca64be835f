/** A text file opened for reading, as the block readers see it: the lines that
    successive `readline()` calls return, and a cursor that `tell()` reports and
    `seek()` restores.  `readline()` returns "" only at the end of the file, so
    no line of a file is empty. */
module LineStream {

  /** Concatenation of a sequence of lines: what writing them one after another produces. */
  function Concat(ls: seq<string>): string
  {
    if ls == [] then "" else ls[0] + Concat(ls[1..])
  }

  lemma {:induction false} ConcatAppend(a: seq<string>, b: seq<string>)
    ensures Concat(a + b) == Concat(a) + Concat(b)
    decreases |a|
  {
    if a == [] {
      assert a + b == b;
    } else {
      assert (a + b)[1..] == a[1..] + b;
      ConcatAppend(a[1..], b);
    }
  }

  /** `x` is one line as `readline()` returns it: not empty, and a newline, if any,
      only as its last character; every line but the last of a file has one. */
  predicate IsLine(x: string, last: bool) {
    x != "" &&
    (forall k :: 0 <= k < |x| - 1 ==> x[k] != '\n') &&
    (!last ==> x[|x| - 1] == '\n')
  }

  predicate IsLineSplit(ls: seq<string>) {
    forall i :: 0 <= i < |ls| ==> IsLine(ls[i], i == |ls| - 1)
  }

  predicate NonEmptyLines(ls: seq<string>) {
    forall i :: 0 <= i < |ls| ==> ls[i] != ""
  }

  /** The length of the first line of `t`: up to and including its first newline,
      or all of `t` when it has none. */
  function FirstLineLength(t: string): (n: nat)
    requires |t| > 0
    ensures 0 < n <= |t|
    ensures forall k :: 0 <= k < n - 1 ==> t[k] != '\n'
    ensures n < |t| ==> t[n - 1] == '\n'
    decreases |t|
  {
    if t[0] == '\n' || |t| == 1 then 1 else 1 + FirstLineLength(t[1..])
  }

  /** The lines that repeated `readline()` calls return for a file holding `t`. */
  function SplitLines(t: string): (ls: seq<string>)
    ensures IsLineSplit(ls)
    ensures Concat(ls) == t
    decreases |t|
  {
    if t == "" then []
    else
      var n := FirstLineLength(t);
      var rest := SplitLines(t[n..]);
      assert t[..n] + t[n..] == t;
      assert ([t[..n]] + rest)[1..] == rest;
      [t[..n]] + rest
  }

  lemma {:induction false} FirstLineLengthOfLine(x: string, rest: string)
    requires x != "" && forall k :: 0 <= k < |x| - 1 ==> x[k] != '\n'
    requires x[|x| - 1] == '\n' || rest == ""
    ensures FirstLineLength(x + rest) == |x|
    decreases |x|
  {
    var t := x + rest;
    if |x| > 1 {
      assert t[1..] == x[1..] + rest;
      FirstLineLengthOfLine(x[1..], rest);
    }
  }

  /** Splitting what a sequence of lines concatenates to gives those lines back. */
  lemma {:induction false} SplitConcat(ls: seq<string>)
    requires IsLineSplit(ls)
    ensures SplitLines(Concat(ls)) == ls
    decreases |ls|
  {
    if ls != [] {
      var rest := Concat(ls[1..]);
      assert |ls| == 1 ==> rest == "";
      FirstLineLengthOfLine(ls[0], rest);
      var t := ls[0] + rest;
      assert t[..|ls[0]|] == ls[0] && t[|ls[0]|..] == rest;
      assert IsLineSplit(ls[1..]) by {
        forall i | 0 <= i < |ls| - 1 ensures IsLine(ls[1..][i], i == |ls| - 2) {
          assert ls[1..][i] == ls[i + 1];
        }
      }
      SplitConcat(ls[1..]);
    }
  }

  /** What `readline()` returns with the cursor at `pos`. */
  function LineAt(lines: seq<string>, pos: nat): string {
    if pos < |lines| then lines[pos] else ""
  }

  /** The `(header_lines, lines)` pair every block reader returns. */
  datatype Block = Block(header: seq<string>, lines: seq<string>)

  class Stream {
    const lines: seq<string>
    var pos: nat

    ghost predicate Valid()
      reads this
    {
      pos <= |lines| && NonEmptyLines(lines)
    }

    /** `open(path)` on a file whose content is `text`. */
    constructor Open(text: string)
      ensures Valid() && lines == SplitLines(text) && pos == 0
    {
      lines := SplitLines(text);
      pos := 0;
    }

    method Tell() returns (p: nat)
      requires Valid()
      ensures p == pos
    {
      p := pos;
    }

    method ReadLine() returns (line: string)
      requires Valid()
      modifies this
      ensures Valid()
      ensures line == LineAt(lines, old(pos))
      ensures pos == if old(pos) < |lines| then old(pos) + 1 else old(pos)
    {
      line := LineAt(lines, pos);
      if pos < |lines| {
        pos := pos + 1;
      }
    }

    method Seek(p: nat)
      requires Valid() && p <= |lines|
      modifies this
      ensures Valid() && pos == p
    {
      pos := p;
    }
  }
}
