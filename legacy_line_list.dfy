/** The two older block readers, `getLineList.py` and `__getLineList__.py`.  They
    read the same kinds of lines as `get_line_list`, with three differences: a header
    line is taken while the header is still empty (rather than while the body is
    empty), so a comment or blank line kept before it makes it end the block, entries are kept exactly as read (no URL prefix or suffix, no domain
    expansion), and blank lines before the body join the header only in
    `getLineList.py` (`__getLineList__.py` always drops them). */
module LegacyLineList {
  import opened PyStr
  import opened LineStream
  import opened GetLineList
  import LineSort

  /** The older readers take only the two prefixes; the other settings are the
      defaults, under which the analysis of a line uses just its kind and text. */
  function LegacyConfig(headerPrefix: string, commentPrefix: string): LineConfig {
    DefaultConfig.(headerPrefix := headerPrefix, commentPrefix := commentPrefix)
  }

  /** One call's result: the block and the cursor it leaves. */
  datatype Read = Read(block: Block, next: nat)

  /** The reading loop of both older readers from cursor `pos`, with the header and
      body lines gathered so far.  `keepBlank` is true for `getLineList.py`, where a
      blank line read before the body joins the header, and false for
      `__getLineList__.py`, where blank lines are always dropped. */
  function LegacyScan(ls: seq<Line>, pos: nat, keepBlank: bool, header: seq<string>, body: seq<string>): (r: Read)
    requires pos <= |ls|
    ensures pos <= r.next <= |ls|
    decreases |ls| - pos
  {
    if pos == |ls| then Read(Block(header, body), pos)
    else
      var l := ls[pos];
      match l.kind
      case HeaderLine =>
        if header == [] then LegacyScan(ls, pos + 1, keepBlank, header + [l.text], body)
        else Read(Block(header, body), pos)
      case CommentLine =>
        if body == [] then LegacyScan(ls, pos + 1, keepBlank, header + [l.text], body)
        else LegacyScan(ls, pos + 1, keepBlank, header, body + [l.text])
      case BlankLine =>
        if keepBlank && body == [] then LegacyScan(ls, pos + 1, keepBlank, header + [l.text], body)
        else LegacyScan(ls, pos + 1, keepBlank, header, body)
      case EndOfFile =>
        Read(Block(header, body), pos + 1)
      case EntryLine =>
        LegacyScan(ls, pos + 1, keepBlank, header, body + [l.text])
  }

  /** One call from cursor `pos`. */
  function LegacyRead(ls: seq<Line>, pos: nat, keepBlank: bool): (r: Read)
    requires pos <= |ls|
    ensures pos <= r.next <= |ls|
  {
    LegacyScan(ls, pos, keepBlank, [], [])
  }

  /** `getLineList(file, headerPrefix, commentPrefix)` of `getLineList.py` (with
      `keepBlank`) and of `__getLineList__.py` (without). */
  method LegacyGetLineList(file: Stream, headerPrefix: string, commentPrefix: string, keepBlank: bool) returns (r: Read)
    requires file.Valid() && headerPrefix != "" && commentPrefix != ""
    modifies file
    ensures file.Valid()
    ensures r == LegacyRead(Lines(file.lines, LegacyConfig(headerPrefix, commentPrefix)), old(file.pos), keepBlank)
    ensures file.pos == r.next
  {
    var cfg := LegacyConfig(headerPrefix, commentPrefix);
    ghost var ls := Lines(file.lines, cfg);
    var header: seq<string> := [];
    var body: seq<string> := [];
    while true
      invariant file.Valid()
      invariant LegacyScan(ls, file.pos, keepBlank, header, body) == LegacyRead(ls, old(file.pos), keepBlank)
      decreases |file.lines| - file.pos
    {
      var position := file.Tell();
      var line := file.ReadLine();
      var kind := Classify(line, cfg);
      assert position < |ls| ==> ls[position] == Analyse(line, cfg);

      if kind == HeaderLine {
        LegacyHeaderStep(ls, position, keepBlank, header, body);
        if |header| == 0 {
          header := header + [line];
          continue;
        }
        file.Seek(position);
        return Read(Block(header, body), position);
      } else if kind == CommentLine {
        LegacyCommentStep(ls, position, keepBlank, header, body);
        if |body| == 0 {
          header := header + [line];
        } else {
          body := body + [line];
        }
        continue;
      }

      if kind == BlankLine {
        LegacyBlankStep(ls, position, keepBlank, header, body);
        if keepBlank && |body| == 0 {
          header := header + [line];
        }
        continue;
      }

      if kind == EndOfFile {
        return Read(Block(header, body), file.pos);
      }

      LegacyEntryStep(ls, position, keepBlank, header, body);
      body := body + [line];
    }
  }

  lemma LegacyHeaderStep(ls: seq<Line>, pos: nat, keepBlank: bool, header: seq<string>, body: seq<string>)
    requires pos < |ls| && ls[pos].kind == HeaderLine
    ensures LegacyScan(ls, pos, keepBlank, header, body) ==
            if header == [] then LegacyScan(ls, pos + 1, keepBlank, header + [ls[pos].text], body)
            else Read(Block(header, body), pos)
  {
  }

  lemma LegacyCommentStep(ls: seq<Line>, pos: nat, keepBlank: bool, header: seq<string>, body: seq<string>)
    requires pos < |ls| && ls[pos].kind == CommentLine
    ensures LegacyScan(ls, pos, keepBlank, header, body) ==
            if body == [] then LegacyScan(ls, pos + 1, keepBlank, header + [ls[pos].text], body)
            else LegacyScan(ls, pos + 1, keepBlank, header, body + [ls[pos].text])
  {
  }

  lemma LegacyBlankStep(ls: seq<Line>, pos: nat, keepBlank: bool, header: seq<string>, body: seq<string>)
    requires pos < |ls| && ls[pos].kind == BlankLine
    ensures LegacyScan(ls, pos, keepBlank, header, body) ==
            if keepBlank && body == [] then LegacyScan(ls, pos + 1, keepBlank, header + [ls[pos].text], body)
            else LegacyScan(ls, pos + 1, keepBlank, header, body)
  {
  }

  lemma LegacyEntryStep(ls: seq<Line>, pos: nat, keepBlank: bool, header: seq<string>, body: seq<string>)
    requires pos < |ls| && ls[pos].kind == EntryLine
    ensures LegacyScan(ls, pos, keepBlank, header, body) == LegacyScan(ls, pos + 1, keepBlank, header, body + [ls[pos].text])
  {
  }

  // What a read holds, stated over the lines it consumed.

  /** The texts that the lines from `i` up to `j` add to the header; `started` says
      whether the body has started before `i`. */
  function HeaderTexts(ls: seq<Line>, i: nat, j: nat, keepBlank: bool, started: bool): seq<string>
    requires i <= j <= |ls|
    decreases j - i
  {
    if i == j then []
    else
      var l := ls[i];
      var added :=
        match l.kind
        case HeaderLine => [l.text]
        case CommentLine => if started then [] else [l.text]
        case BlankLine => if keepBlank && !started then [l.text] else []
        case _ => [];
      added + HeaderTexts(ls, i + 1, j, keepBlank, started || l.kind == EntryLine)
  }

  /** The texts that the lines from `i` up to `j` add to the body: every entry, and
      every comment once the body has started. */
  function BodyTexts(ls: seq<Line>, i: nat, j: nat, started: bool): seq<string>
    requires i <= j <= |ls|
    decreases j - i
  {
    if i == j then []
    else
      var l := ls[i];
      var added :=
        match l.kind
        case EntryLine => [l.text]
        case CommentLine => if started then [l.text] else []
        case _ => [];
      added + BodyTexts(ls, i + 1, j, started || l.kind == EntryLine)
  }

  /** The header and body of a read are what the consumed lines add to them, in order. */
  lemma {:induction false} LegacyScanContents(ls: seq<Line>, pos: nat, keepBlank: bool, header: seq<string>, body: seq<string>)
    requires pos <= |ls| && ValidLines(ls)
    ensures var r := LegacyScan(ls, pos, keepBlank, header, body);
            r.block.header == header + HeaderTexts(ls, pos, r.next, keepBlank, body != []) &&
            r.block.lines == body + BodyTexts(ls, pos, r.next, body != [])
    decreases |ls| - pos
  {
    var r := LegacyScan(ls, pos, keepBlank, header, body);
    if pos == |ls| || (ls[pos].kind == HeaderLine && header != []) {
      EmptyAppend(header);
      EmptyAppend(body);
    } else {
      var l := ls[pos];
      var started := body != [];
      var h := match l.kind
        case HeaderLine => [l.text]
        case CommentLine => if started then [] else [l.text]
        case BlankLine => if keepBlank && !started then [l.text] else []
        case _ => [];
      var b := match l.kind
        case EntryLine => [l.text]
        case CommentLine => if started then [l.text] else []
        case _ => [];
      LegacyStep(ls, pos, keepBlank, header, body, h, b);
      LegacyScanContents(ls, pos + 1, keepBlank, header + h, body + b);
      AppendAssoc(header, h, HeaderTexts(ls, pos + 1, r.next, keepBlank, body + b != []));
      AppendAssoc(body, b, BodyTexts(ls, pos + 1, r.next, body + b != []));
    }
  }

  /** One step of the loop on a line it does not stop at. */
  lemma LegacyStep(ls: seq<Line>, pos: nat, keepBlank: bool, header: seq<string>, body: seq<string>,
                   h: seq<string>, b: seq<string>)
    requires pos < |ls| && ValidLine(ls[pos]) && (ls[pos].kind == HeaderLine ==> header == [])
    requires h == match ls[pos].kind
                 case HeaderLine => [ls[pos].text]
                 case CommentLine => if body != [] then [] else [ls[pos].text]
                 case BlankLine => if keepBlank && body == [] then [ls[pos].text] else []
                 case _ => []
    requires b == match ls[pos].kind
                 case EntryLine => [ls[pos].text]
                 case CommentLine => if body != [] then [ls[pos].text] else []
                 case _ => []
    ensures var r := LegacyScan(ls, pos, keepBlank, header, body);
            r == LegacyScan(ls, pos + 1, keepBlank, header + h, body + b) &&
            (body + b != [] <==> (body != [] || ls[pos].kind == EntryLine)) &&
            HeaderTexts(ls, pos, r.next, keepBlank, body != []) == h + HeaderTexts(ls, pos + 1, r.next, keepBlank, body + b != []) &&
            BodyTexts(ls, pos, r.next, body != []) == b + BodyTexts(ls, pos + 1, r.next, body + b != [])
  {
    EmptyAppend(header);
    EmptyAppend(body);
  }

  /** A read stops at the end of the file or at a header line once the header holds
      a line. */
  lemma {:induction false} LegacyScanBoundary(ls: seq<Line>, pos: nat, keepBlank: bool, header: seq<string>, body: seq<string>)
    requires pos <= |ls| && ValidLines(ls)
    ensures var r := LegacyScan(ls, pos, keepBlank, header, body);
            r.next == |ls| || (ls[r.next].kind == HeaderLine && r.block.header != [])
    decreases |ls| - pos
  {
    if pos < |ls| && !(ls[pos].kind == HeaderLine && header != []) {
      var l := ls[pos];
      match l.kind
      case HeaderLine => LegacyScanBoundary(ls, pos + 1, keepBlank, header + [l.text], body);
      case CommentLine =>
        if body == [] {
          LegacyScanBoundary(ls, pos + 1, keepBlank, header + [l.text], body);
        } else {
          LegacyScanBoundary(ls, pos + 1, keepBlank, header, body + [l.text]);
        }
      case BlankLine =>
        if keepBlank && body == [] {
          LegacyScanBoundary(ls, pos + 1, keepBlank, header + [l.text], body);
        } else {
          LegacyScanBoundary(ls, pos + 1, keepBlank, header, body);
        }
      case EntryLine => LegacyScanBoundary(ls, pos + 1, keepBlank, header, body + [l.text]);
    }
  }

  /** A read keeps at most one header line: once the header holds a line, the next
      header line ends the block; a header line that is kept is the header's first line. */
  lemma {:induction false} LegacyScanOneHeaderLine(ls: seq<Line>, pos: nat, keepBlank: bool, header: seq<string>, body: seq<string>)
    requires pos <= |ls| && ValidLines(ls)
    ensures var r := LegacyScan(ls, pos, keepBlank, header, body);
            forall m, n :: pos <= m < n < r.next ==> !(ls[m].kind == HeaderLine && ls[n].kind == HeaderLine)
    ensures var r := LegacyScan(ls, pos, keepBlank, header, body);
            header != [] ==> forall n :: pos <= n < r.next ==> ls[n].kind != HeaderLine
    ensures var r := LegacyScan(ls, pos, keepBlank, header, body);
            header == [] ==> forall m :: pos <= m < r.next && ls[m].kind == HeaderLine ==>
                                r.block.header != [] && r.block.header[0] == ls[m].text
    decreases |ls| - pos
  {
    if pos < |ls| && !(ls[pos].kind == HeaderLine && header != []) {
      var l := ls[pos];
      match l.kind
      case HeaderLine =>
        LegacyScanOneHeaderLine(ls, pos + 1, keepBlank, header + [l.text], body);
        LegacyScanContents(ls, pos + 1, keepBlank, header + [l.text], body);
      case CommentLine =>
        if body == [] {
          LegacyScanOneHeaderLine(ls, pos + 1, keepBlank, header + [l.text], body);
        } else {
          LegacyScanOneHeaderLine(ls, pos + 1, keepBlank, header, body + [l.text]);
        }
      case BlankLine =>
        if keepBlank && body == [] {
          LegacyScanOneHeaderLine(ls, pos + 1, keepBlank, header + [l.text], body);
        } else {
          LegacyScanOneHeaderLine(ls, pos + 1, keepBlank, header, body);
        }
      case EntryLine => LegacyScanOneHeaderLine(ls, pos + 1, keepBlank, header, body + [l.text]);
    }
  }

  /** What one call of either older reader returns, and where it stops: its header
      and body are what the consumed lines add to them, it keeps at most one header
      line and puts it first, it stops at the end of the file or at a header line
      (with a non-empty header), so it returns an empty block only at the end of the
      file, and it always consumes a line before the end of the file. */
  lemma LegacyReadSpec(ls: seq<Line>, pos: nat, keepBlank: bool)
    requires pos <= |ls| && ValidLines(ls)
    ensures var r := LegacyRead(ls, pos, keepBlank);
            r.block.header == HeaderTexts(ls, pos, r.next, keepBlank, false) &&
            r.block.lines == BodyTexts(ls, pos, r.next, false) &&
            (r.next == |ls| || (ls[r.next].kind == HeaderLine && r.block.header != [])) &&
            (forall m, n :: pos <= m < n < r.next ==> !(ls[m].kind == HeaderLine && ls[n].kind == HeaderLine)) &&
            (forall m :: pos <= m < r.next && ls[m].kind == HeaderLine ==> r.block.header != [] && r.block.header[0] == ls[m].text) &&
            (r.block == Block([], []) ==> r.next == |ls|) &&
            (pos < |ls| ==> pos < r.next)
  {
    LegacyScanContents(ls, pos, keepBlank, [], []);
    LegacyScanBoundary(ls, pos, keepBlank, [], []);
    LegacyScanOneHeaderLine(ls, pos, keepBlank, [], []);
    EmptyAppend(HeaderTexts(ls, pos, LegacyRead(ls, pos, keepBlank).next, keepBlank, false));
    EmptyAppend(BodyTexts(ls, pos, LegacyRead(ls, pos, keepBlank).next, false));
  }

  /** Without blank lines kept (`__getLineList__.py`), every header text comes from a
      header line or a comment line: no blank line is read into a block. */
  lemma {:induction false} OldestDropsBlanks(ls: seq<Line>, i: nat, j: nat, started: bool)
    requires i <= j <= |ls|
    ensures forall n :: 0 <= n < |HeaderTexts(ls, i, j, false, started)| ==>
              exists m :: i <= m < j && (ls[m].kind == HeaderLine || ls[m].kind == CommentLine) &&
                          HeaderTexts(ls, i, j, false, started)[n] == ls[m].text
    decreases j - i
  {
    var all := HeaderTexts(ls, i, j, false, started);
    if i == j {
      assert all == [];
    } else {
      var l := ls[i];
      var rest := HeaderTexts(ls, i + 1, j, false, started || l.kind == EntryLine);
      OldestDropsBlanks(ls, i + 1, j, started || l.kind == EntryLine);
      var added: seq<string> :=
        match l.kind
        case HeaderLine => [l.text]
        case CommentLine => if started then [] else [l.text]
        case BlankLine => []
        case _ => [];
      assert all == added + rest;
      forall n | 0 <= n < |all|
        ensures exists m :: i <= m < j && (ls[m].kind == HeaderLine || ls[m].kind == CommentLine) && all[n] == ls[m].text
      {
        if n < |added| {
          assert all[n] == ls[i].text && (ls[i].kind == HeaderLine || ls[i].kind == CommentLine);
        } else {
          var k := n - |added|;
          assert all[n] == rest[k];
          var m :| i + 1 <= m < j && (ls[m].kind == HeaderLine || ls[m].kind == CommentLine) && rest[k] == ls[m].text;
        }
      }
    }
  }

  /** The quirk of the older readers: a block that starts with entries takes the next
      header line into its header and reads on, instead of stopping at it. */
  lemma HeaderlessBlockExample(ls: seq<Line>, keepBlank: bool)
    requires ls == [Line("a.com\n", EntryLine, None, "a.com\n"),
                     Line("! // B\n", HeaderLine, None, "! // B\n"),
                     Line("b.com\n", EntryLine, None, "b.com\n")]
    ensures LegacyRead(ls, 0, keepBlank) == Read(Block(["! // B\n"], ["a.com\n", "b.com\n"]), 3)
  {
    var h, b := ["! // B\n"], ["a.com\n", "b.com\n"];
    assert [] + ["a.com\n"] == ["a.com\n"] && [] + ["! // B\n"] == h;
    assert ["a.com\n"] + ["b.com\n"] == b;
    assert LegacyScan(ls, 2, keepBlank, h, ["a.com\n"]) == Read(Block(h, b), 3);
    assert LegacyScan(ls, 1, keepBlank, [], ["a.com\n"]) == Read(Block(h, b), 3);
  }

  /** The two older readers differ on a blank line under the header. */
  lemma BlankLineExample(ls: seq<Line>)
    requires ls == [Line("! // A\n", HeaderLine, None, "! // A\n"),
                     Line("\n", BlankLine, None, "\n"),
                     Line("a.com\n", EntryLine, None, "a.com\n")]
    ensures LegacyRead(ls, 0, true) == Read(Block(["! // A\n", "\n"], ["a.com\n"]), 3)
    ensures LegacyRead(ls, 0, false) == Read(Block(["! // A\n"], ["a.com\n"]), 3)
  {
    var h := ["! // A\n"];
    assert [] + ["! // A\n"] == h && h + ["\n"] == ["! // A\n", "\n"] && [] + ["a.com\n"] == ["a.com\n"];
    assert LegacyScan(ls, 2, true, ["! // A\n", "\n"], []) == Read(Block(["! // A\n", "\n"], ["a.com\n"]), 3);
    assert LegacyScan(ls, 1, true, h, []) == Read(Block(["! // A\n", "\n"], ["a.com\n"]), 3);
    assert LegacyScan(ls, 2, false, h, []) == Read(Block(h, ["a.com\n"]), 3);
    assert LegacyScan(ls, 1, false, h, []) == Read(Block(h, ["a.com\n"]), 3);
  }

  // The sorted readers, `getSortedLineList` in both files.

  /** What the older `getSortedLineList` returns, or the `UnboundLocalError` it raises. */
  datatype LegacySorted = LegacyLines(lines: seq<string>) | UnboundHeaderLines

  /** Which of the two older files a sorted reader comes from; each fixes both how
      blank lines before the body are kept and which characters the sort key trims. */
  datatype Generation = Previous | Oldest

  /** `getLineList.py` keeps blank lines before the body; `__getLineList__.py` drops them. */
  function KeepsBlank(g: Generation): bool {
    g == Previous
  }

  /** The key trim: `strip(" ./")` in `getLineList.py`, `strip(" .")` in `__getLineList__.py`. */
  function SortTrim(g: Generation): set<char> {
    if g == Previous then LineSort.KeyTrim else LineSort.OldestKeyTrim
  }

  /** `getSortedLineList` as written: only the file branch assigns `headerLines`, the
      name the return statement reads (the pair branch assigns `headerlines`), so
      every other input raises. */
  method LegacyGetSortedLineList(input: LineListInput, headerPrefix: string, commentPrefix: string,
                                 g: Generation) returns (r: LegacySorted)
    requires input.FromFile? ==> input.file.Valid() && headerPrefix != "" && commentPrefix != ""
    modifies if input.FromFile? then {input.file} else {}
    ensures !input.FromFile? ==> r == UnboundHeaderLines
    ensures input.FromFile? ==>
              var o := LegacyRead(Lines(input.file.lines, LegacyConfig(headerPrefix, commentPrefix)), old(input.file.pos), KeepsBlank(g));
              input.file.Valid() && input.file.pos == o.next &&
              r == LegacyLines(LineSort.SortedLineList(o.block, commentPrefix, SortTrim(g)))
  {
    match input {
      case FromFile(file) =>
        var o := LegacyGetLineList(file, headerPrefix, commentPrefix, KeepsBlank(g));
        r := LegacyLines(LineSort.SortedLineList(o.block, commentPrefix, SortTrim(g)));
      case _ =>
        r := UnboundHeaderLines;
    }
  }

  /** `getSortedLineList` with the header variable spelt as the return statement reads
      it: a pair is sorted as given, any other input that is not a file gives the
      empty list the variables start with, and a file is read first. */
  method FixedGetSortedLineList(input: LineListInput, headerPrefix: string, commentPrefix: string,
                                g: Generation) returns (r: LegacySorted)
    requires input.FromFile? ==> input.file.Valid() && headerPrefix != "" && commentPrefix != ""
    modifies if input.FromFile? then {input.file} else {}
    ensures input.FromPair? ==> r == LegacyLines(LineSort.SortedLineList(input.block, commentPrefix, SortTrim(g)))
    ensures input.FromOther? ==> r == LegacyLines([])
    ensures input.FromFile? ==>
              var o := LegacyRead(Lines(input.file.lines, LegacyConfig(headerPrefix, commentPrefix)), old(input.file.pos), KeepsBlank(g));
              input.file.Valid() && input.file.pos == o.next &&
              r == LegacyLines(LineSort.SortedLineList(o.block, commentPrefix, SortTrim(g)))
  {
    var block: Block;
    match input {
      case FromPair(b) =>
        block := b;
      case FromFile(file) =>
        var o := LegacyGetLineList(file, headerPrefix, commentPrefix, KeepsBlank(g));
        block := o.block;
      case FromOther =>
        block := Block([], []);
    }
    r := LegacyLines(LineSort.SortedLineList(block, commentPrefix, SortTrim(g)));
  }
}
