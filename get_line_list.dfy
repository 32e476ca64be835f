/** The block reader of `get_line_list.py`: one call reads one block of a blocklist
    file (the header lines, then the body lines up to the next header line or the end
    of the file), normalising body entries and, when asked, expanding each entry over
    the domains a `domains=` directive in the header names. */
module GetLineList {
  import opened PyStr
  import opened LineStream
  import LineSort

  /** The reader's settings, with the source's defaults in DefaultConfig. */
  datatype LineConfig = LineConfig(
    headerPrefix: string,
    commentPrefix: string,
    urlPrefix: string,
    applyUrlPrefix: bool,
    urlSuffix: string,
    applyUrlSuffix: bool,
    expandDomains: bool)

  const DefaultConfig := LineConfig("! //", "!", ".", false, "/", false, false)

  /** The configuration the generator reads with: the defaults, with expansion on. */
  const ExpandingConfig := DefaultConfig.(expandDomains := true)

  /** With an empty header or comment prefix the empty string read at the end of
      the file would count as a header or comment line and the loop would never end. */
  predicate ValidMarkers(cfg: LineConfig) {
    cfg.headerPrefix != "" && cfg.commentPrefix != ""
  }

  /** What the loop does with a line, decided in the order the source tests it. */
  datatype Kind = HeaderLine | CommentLine | BlankLine | EndOfFile | EntryLine

  function Classify(line: string, cfg: LineConfig): (k: Kind)
    ensures ValidMarkers(cfg) ==> (k == EndOfFile <==> line == "")
    ensures k == EntryLine ==> line != "" && line != "\n"
    ensures k == HeaderLine <==> StartsWith(line, cfg.headerPrefix)
  {
    if StartsWith(line, cfg.headerPrefix) then HeaderLine
    else if StartsWith(line, cfg.commentPrefix) then CommentLine
    else if line == "\n" then BlankLine
    else if line == "" then EndOfFile
    else EntryLine
  }

  const DirectiveTrim: set<char> := {' ', '!'}

  /** For a `domains=` directive, the text handed to the JSON parser: the line with
      spaces and `!` trimmed from both ends and the `domains=` keyword removed. */
  function DirectiveArgument(line: string): (r: Option<string>)
    ensures r.Some? <==> StartsWith(StripChars(line, DirectiveTrim), "domains=")
    ensures r.Some? ==> StripChars(line, DirectiveTrim) == "domains=" + r.value
  {
    var t := StripChars(line, DirectiveTrim);
    if StartsWith(t, "domains=") then Some(RemovePrefix(t, "domains=")) else None
  }

  /** The URL prefix and suffix the configuration asks for, then the trailing
      whitespace replaced by exactly one newline. */
  function Normalize(line: string, cfg: LineConfig): (r: string)
    ensures |r| > 0 && r[|r| - 1] == '\n' && NoTrailingSpace(r[..|r| - 1])
    ensures !cfg.applyUrlPrefix && !cfg.applyUrlSuffix ==> r == RStripSpace(line) + "\n"
    ensures cfg.applyUrlPrefix && NoTrailingSpace(cfg.urlPrefix) ==> StartsWith(r, cfg.urlPrefix)
    ensures cfg.applyUrlPrefix && StartsWith(line, cfg.urlPrefix) && !cfg.applyUrlSuffix ==> r == RStripSpace(line) + "\n"
    ensures cfg.applyUrlPrefix && !StartsWith(line, cfg.urlPrefix) && !cfg.applyUrlSuffix ==> r == RStripSpace(cfg.urlPrefix + line) + "\n"
    ensures cfg.applyUrlSuffix && NoTrailingSpace(cfg.urlSuffix) ==> EndsWith(r, cfg.urlSuffix + "\n")
  {
    var prefixed := if cfg.applyUrlPrefix && !StartsWith(line, cfg.urlPrefix) then cfg.urlPrefix + line else line;
    var suffixed :=
      if cfg.applyUrlSuffix then
        var t := RStripSpace(prefixed);
        (if EndsWith(t, cfg.urlSuffix) then t else t + cfg.urlSuffix) + "\n"
      else prefixed;
    var r := RStripSpace(suffixed) + "\n";
    assert r[..|r| - 1] == RStripSpace(suffixed);
    NormalizeFacts(line, cfg, prefixed, suffixed);
    r
  }

  lemma NormalizeFacts(line: string, cfg: LineConfig, prefixed: string, suffixed: string)
    requires prefixed == if cfg.applyUrlPrefix && !StartsWith(line, cfg.urlPrefix) then cfg.urlPrefix + line else line
    requires suffixed ==
      if cfg.applyUrlSuffix then
        var t := RStripSpace(prefixed);
        (if EndsWith(t, cfg.urlSuffix) then t else t + cfg.urlSuffix) + "\n"
      else prefixed
    ensures cfg.applyUrlPrefix && NoTrailingSpace(cfg.urlPrefix) ==> StartsWith(RStripSpace(suffixed), cfg.urlPrefix)
    ensures cfg.applyUrlSuffix && NoTrailingSpace(cfg.urlSuffix) ==> EndsWith(RStripSpace(suffixed) + "\n", cfg.urlSuffix + "\n")
  {
    if cfg.applyUrlPrefix && NoTrailingSpace(cfg.urlPrefix) {
      PrefixSurvives(line, cfg.urlPrefix, prefixed);
      if cfg.applyUrlSuffix {
        var t := RStripSpace(prefixed);
        SuffixKeepsPrefix(t, cfg.urlPrefix, cfg.urlSuffix, suffixed);
      }
      RStripKeepsPrefix(suffixed, cfg.urlPrefix);
    }
    if cfg.applyUrlSuffix && NoTrailingSpace(cfg.urlSuffix) {
      SuffixShape(RStripSpace(prefixed), cfg.urlSuffix, suffixed);
    }
  }

  /** Normalising is idempotent: a normalised entry, read again, gives itself. */
  lemma NormalizeIdempotent(line: string, cfg: LineConfig)
    requires NoTrailingSpace(cfg.urlPrefix) && NoTrailingSpace(cfg.urlSuffix)
    ensures Normalize(Normalize(line, cfg), cfg) == Normalize(line, cfg)
  {
    var r := Normalize(line, cfg);
    var c := r[..|r| - 1];
    assert r == c + "\n";
    RStripNewline(c);
    if cfg.applyUrlSuffix {
      EndsWithNewlineBack(c, cfg.urlSuffix);
    }
  }

  /** With the suffix enforced, the entry is the line after the prefix rule, stripped
      of its trailing whitespace, with the suffix appended exactly when it does not
      already end in it, then one newline. */
  lemma NormalizeWithSuffix(line: string, cfg: LineConfig)
    requires cfg.applyUrlSuffix
    ensures var p := if cfg.applyUrlPrefix && !StartsWith(line, cfg.urlPrefix) then cfg.urlPrefix + line else line;
            var t := RStripSpace(p);
            var r := Normalize(line, cfg);
            (EndsWith(t, cfg.urlSuffix) ==> r == t + "\n") &&
            (!EndsWith(t, cfg.urlSuffix) ==> r == RStripSpace(t + cfg.urlSuffix) + "\n") &&
            (!EndsWith(t, cfg.urlSuffix) && NoTrailingSpace(cfg.urlSuffix) ==> r == t + cfg.urlSuffix + "\n")
  {
    var p := if cfg.applyUrlPrefix && !StartsWith(line, cfg.urlPrefix) then cfg.urlPrefix + line else line;
    var t := RStripSpace(p);
    var q := cfg.urlSuffix;
    var u := if EndsWith(t, q) then t else t + q;
    RStripDropsNewline(u);
    if EndsWith(t, q) {
      RStripNoTrailingSpace(t);
    } else if NoTrailingSpace(q) {
      SuffixAppended(t, q, u);
      RStripNoTrailingSpace(u);
    }
  }

  /** An entry without the prefix gets it in front, when only the prefix is enforced. */
  lemma NormalizePrepends(c: string, cfg: LineConfig)
    requires cfg.applyUrlPrefix && !cfg.applyUrlSuffix
    requires !StartsWith(c + "\n", cfg.urlPrefix) && NoTrailingSpace(cfg.urlPrefix + c)
    ensures Normalize(c + "\n", cfg) == cfg.urlPrefix + c + "\n"
  {
    assert cfg.urlPrefix + (c + "\n") == (cfg.urlPrefix + c) + "\n";
    RStripNewline(cfg.urlPrefix + c);
  }

  /** An entry without the suffix gets it at the end, when only the suffix is enforced. */
  lemma NormalizeAppends(c: string, cfg: LineConfig)
    requires !cfg.applyUrlPrefix && cfg.applyUrlSuffix
    requires NoTrailingSpace(c) && NoTrailingSpace(cfg.urlSuffix) && !EndsWith(c, cfg.urlSuffix)
    ensures Normalize(c + "\n", cfg) == c + cfg.urlSuffix + "\n"
  {
    RStripNewline(c);
    NormalizeWithSuffix(c + "\n", cfg);
  }

  /** `a.com` becomes `.a.com` under the default prefix and `a.com/` under the
      default suffix. */
  lemma NormalizeExample(c: string)
    requires c == "a.com"
    ensures Normalize(c + "\n", DefaultConfig.(applyUrlPrefix := true)) == "." + c + "\n"
    ensures Normalize(c + "\n", DefaultConfig.(applyUrlSuffix := true)) == c + "/" + "\n"
  {
    assert c[0] == 'a' && c[4] == 'm';
    assert (c + "\n")[..1] == "a";
    assert ("." + c)[5] == 'm';
    assert !EndsWith(c, "/");
    NormalizePrepends(c, DefaultConfig.(applyUrlPrefix := true));
    NormalizeAppends(c, DefaultConfig.(applyUrlSuffix := true));
  }

  /** A string ending in `q + "\n"`, with its newline removed, ends in `q`. */
  lemma EndsWithNewlineBack(c: string, q: string)
    requires EndsWith(c + "\n", q + "\n")
    ensures EndsWith(c, q)
  {
    assert c[|c| - |q|..] == (c + "\n")[|c| + 1 - |q + "\n"|..|c|];
  }

  lemma PrefixSurvives(line: string, p: string, prefixed: string)
    requires prefixed == if !StartsWith(line, p) then p + line else line
    ensures StartsWith(prefixed, p)
  {
    if !StartsWith(line, p) {
      assert (p + line)[..|p|] == p;
    }
  }

  lemma SuffixKeepsPrefix(t: string, p: string, q: string, suffixed: string)
    requires StartsWith(t, p)
    requires suffixed == (if EndsWith(t, q) then t else t + q) + "\n"
    ensures StartsWith(suffixed, p)
  {
    assert suffixed[..|p|] == t[..|p|];
  }

  lemma SuffixShape(t: string, q: string, suffixed: string)
    requires NoTrailingSpace(t) && NoTrailingSpace(q)
    requires suffixed == (if EndsWith(t, q) then t else t + q) + "\n"
    ensures EndsWith(RStripSpace(suffixed) + "\n", q + "\n")
  {
    var u := if EndsWith(t, q) then t else t + q;
    SuffixAppended(t, q, u);
    RStripNewline(u);
    EndsWithNewline(u, q);
  }

  /** Appending the suffix unless it is already there leaves a string ending in it,
      with no trailing whitespace when neither part has any. */
  lemma SuffixAppended(t: string, q: string, u: string)
    requires NoTrailingSpace(t) && NoTrailingSpace(q)
    requires u == if EndsWith(t, q) then t else t + q
    ensures EndsWith(u, q) && NoTrailingSpace(u)
  {
    if !EndsWith(t, q) {
      assert (t + q)[|t + q| - |q|..] == q;
      if q != "" {
        assert u[|u| - 1] == q[|q| - 1];
      }
    }
  }

  lemma EndsWithNewline(u: string, q: string)
    requires EndsWith(u, q)
    ensures EndsWith(u + "\n", q + "\n")
  {
    var r := u + "\n";
    assert r[|r| - |q + "\n"|..] == u[|u| - |q|..] + "\n";
  }

  /** One normalised entry becomes one line per domain of the block, in the
      domains' order, when expansion is on and the block names domains. */
  function Expand(domains: seq<string>, line: string, expand: bool): (r: seq<string>)
    ensures |r| > 0
    ensures expand && |domains| > 0 ==> |r| == |domains| && forall i :: 0 <= i < |r| ==> r[i] == domains[i] + line
    ensures !(expand && |domains| > 0) ==> r == [line]
  {
    if expand && |domains| > 0 then seq(|domains|, i requires 0 <= i < |domains| => domains[i] + line)
    else [line]
  }

  /** A line as the loop sees it: its text, what the loop does with it, the
      `domains=` argument it carries (read only when expansion is on) and the entry
      it normalises to.  Each is a function of the text alone, so the loop may as
      well work on these. */
  datatype Line = Line(text: string, kind: Kind, directive: Option<string>, entry: string)

  function Analyse(text: string, cfg: LineConfig): Line {
    var kind := Classify(text, cfg);
    Line(text, kind, if cfg.expandDomains && kind == CommentLine then DirectiveArgument(text) else None,
         Normalize(text, cfg))
  }

  /** The lines of a file, each analysed. */
  function Lines(s: seq<string>, cfg: LineConfig): (ls: seq<Line>)
    ensures |ls| == |s|
  {
    seq(|s|, i requires 0 <= i < |s| => Analyse(s[i], cfg))
  }

  /** The texts of the lines from index `i` up to (not including) `j`. */
  function TextsOf(ls: seq<Line>, i: nat, j: nat): (r: seq<string>)
    requires i <= j <= |ls|
    ensures |r| == j - i
    ensures forall n :: 0 <= n < |r| ==> r[n] == ls[i + n].text
    decreases j - i
  {
    if i == j then [] else [ls[i].text] + TextsOf(ls, i + 1, j)
  }

  /** A line of a file as the analysis sees it: not the empty string `readline()`
      returns at the end of the file, and carrying a directive only if it is a comment. */
  predicate ValidLine(l: Line) {
    l.kind != EndOfFile && (l.directive.Some? ==> l.kind == CommentLine)
  }

  ghost predicate ValidLines(ls: seq<Line>) {
    forall i :: 0 <= i < |ls| ==> ValidLine(ls[i])
  }

  /** Each analysed line keeps the text it was read as. */
  lemma LinesText(s: seq<string>, cfg: LineConfig)
    ensures forall n :: 0 <= n < |s| ==> Lines(s, cfg)[n].text == s[n]
  {
  }

  lemma LinesValid(s: seq<string>, cfg: LineConfig)
    requires ValidMarkers(cfg) && NonEmptyLines(s)
    ensures ValidLines(Lines(s, cfg))
  {
    forall i | 0 <= i < |s| ensures ValidLine(Lines(s, cfg)[i]) {
      assert Lines(s, cfg)[i] == Analyse(s[i], cfg);
    }
  }

  /** Without expansion no line carries a directive. */
  lemma LinesWithoutExpansion(s: seq<string>, cfg: LineConfig)
    requires !cfg.expandDomains
    ensures forall i :: 0 <= i < |s| ==> Lines(s, cfg)[i].directive.None?
  {
  }

  /** What one call returns: the block and the cursor it leaves, or, when the JSON
      parser rejects a directive, the argument it rejected and the cursor just past
      that line (the source lets the parser's exception escape). */
  datatype Outcome = Done(block: Block, next: nat) | DirectiveError(argument: string, next: nat)

  /** The reading loop from cursor `pos` over the analysed lines, with the header
      lines, body lines and domains gathered so far.  `parse` stands for
      `json.loads` on a directive argument: a list of strings, or None where the
      parser raises.  At `pos == |ls|` `readline()` returns the empty string. */
  function Scan(ls: seq<Line>, pos: nat, parse: string -> Option<seq<string>>, expand: bool,
                header: seq<string>, body: seq<string>, domains: seq<string>): (o: Outcome)
    requires pos <= |ls|
    ensures pos <= o.next <= |ls|
    ensures o.Done? ==> header <= o.block.header && body <= o.block.lines
    ensures o.Done? && body != [] ==> o.block.header == header
    decreases |ls| - pos
  {
    if pos == |ls| then Done(Block(header, body), pos)
    else
      var l := ls[pos];
      match l.kind
      case HeaderLine =>
        if body == [] then Scan(ls, pos + 1, parse, expand, header + [l.text], body, domains)
        else Done(Block(header, body), pos)
      case CommentLine =>
        if body != [] then Scan(ls, pos + 1, parse, expand, header, body + [l.text], domains)
        else
          (match l.directive
           case None => Scan(ls, pos + 1, parse, expand, header + [l.text], body, domains)
           case Some(a) =>
             match parse(a)
             case None => DirectiveError(a, pos + 1)
             case Some(ds) => Scan(ls, pos + 1, parse, expand, header + [l.text], body, domains + ds))
      case BlankLine =>
        if body == [] then Scan(ls, pos + 1, parse, expand, header + [l.text], body, domains)
        else Scan(ls, pos + 1, parse, expand, header, body, domains)
      case EndOfFile =>
        Done(Block(header, body), pos + 1)
      case EntryLine =>
        Scan(ls, pos + 1, parse, expand, header, body + Expand(domains, l.entry, expand), domains)
  }

  /** `get_line_list(file, config)` with the file's cursor at `pos`, over the file's
      analysed lines. */
  function ReadBlock(ls: seq<Line>, pos: nat, parse: string -> Option<seq<string>>, expand: bool): (o: Outcome)
    requires pos <= |ls|
    ensures pos <= o.next <= |ls|
  {
    Scan(ls, pos, parse, expand, [], [], [])
  }

  /** The inner `for d in domains` loop: one copy of the entry per domain, in order. */
  method AppendPerDomain(body: seq<string>, domains: seq<string>, entry: string) returns (r: seq<string>)
    ensures |domains| > 0 ==> r == body + Expand(domains, entry, true)
    ensures |domains| == 0 ==> r == body
  {
    r := body;
    for i := 0 to |domains|
      invariant |r| == |body| + i && r[..|body|] == body
      invariant forall j :: 0 <= j < i ==> r[|body| + j] == domains[j] + entry
    {
      r := r + [domains[i] + entry];
    }
    assert |domains| > 0 ==> r == body + Expand(domains, entry, true);
  }

  /** `get_line_list`: reads one block from the stream, leaving the cursor just past
      it (before the header line that starts the next block). */
  method GetLineList(file: Stream, cfg: LineConfig, parse: string -> Option<seq<string>>) returns (o: Outcome)
    requires file.Valid() && ValidMarkers(cfg)
    modifies file
    ensures file.Valid()
    ensures o == ReadBlock(Lines(file.lines, cfg), old(file.pos), parse, cfg.expandDomains)
    ensures file.pos == o.next
  {
    ghost var ls := Lines(file.lines, cfg);
    var header: seq<string> := [];
    var body: seq<string> := [];
    var domains: seq<string> := [];
    while true
      invariant file.Valid()
      invariant Scan(ls, file.pos, parse, cfg.expandDomains, header, body, domains) ==
                ReadBlock(ls, old(file.pos), parse, cfg.expandDomains)
      decreases |file.lines| - file.pos
    {
      var stop;
      stop, header, body, domains := ReadStep(file, cfg, parse, ls, header, body, domains);
      if stop.Some? {
        return stop.value;
      }
    }
  }

  /** One pass of the reading loop: reads a line, then either ends the block (the
      `break`, the `return` and the raising `json.loads`) or goes on with the header,
      body and domains updated (the `continue`s and the fall-through). */
  method ReadStep(file: Stream, cfg: LineConfig, parse: string -> Option<seq<string>>, ghost ls: seq<Line>,
                  header: seq<string>, body: seq<string>, domains: seq<string>)
    returns (stop: Option<Outcome>, newHeader: seq<string>, newBody: seq<string>, newDomains: seq<string>)
    requires file.Valid() && ValidMarkers(cfg) && ls == Lines(file.lines, cfg)
    modifies file
    ensures file.Valid()
    ensures stop.Some? ==>
              stop.value == Scan(ls, old(file.pos), parse, cfg.expandDomains, header, body, domains) &&
              file.pos == stop.value.next
    ensures stop.None? ==>
              old(file.pos) < file.pos &&
              Scan(ls, file.pos, parse, cfg.expandDomains, newHeader, newBody, newDomains) ==
              Scan(ls, old(file.pos), parse, cfg.expandDomains, header, body, domains)
  {
    newHeader, newBody, newDomains := header, body, domains;
    var position := file.Tell();
    var line := file.ReadLine();
    var kind := Classify(line, cfg);
    assert position < |ls| ==> ls[position] == Analyse(line, cfg);

    if kind == HeaderLine {
      ScanHeaderLine(ls, position, parse, cfg.expandDomains, header, body, domains);
      if |body| == 0 {
        newHeader := header + [line];
        return None, newHeader, newBody, newDomains;
      }
      file.Seek(position);
      return Some(Done(Block(header, body), position)), newHeader, newBody, newDomains;
    }

    if kind == CommentLine {
      ScanComment(ls, position, parse, cfg.expandDomains, header, body, domains);
      if |body| == 0 {
        if cfg.expandDomains {
          var arg := DirectiveArgument(line);
          if arg.Some? {
            var parsed := parse(arg.value);
            if parsed.None? {
              return Some(DirectiveError(arg.value, file.pos)), newHeader, newBody, newDomains;
            }
            newDomains := domains + parsed.value;
          }
        }
        newHeader := header + [line];
      } else {
        newBody := body + [line];
      }
      return None, newHeader, newBody, newDomains;
    }

    if kind == BlankLine {
      ScanBlank(ls, position, parse, cfg.expandDomains, header, body, domains);
      if |body| == 0 {
        newHeader := header + [line];
      }
      return None, newHeader, newBody, newDomains;
    }

    if kind == EndOfFile {
      return Some(Done(Block(header, body), file.pos)), newHeader, newBody, newDomains;
    }

    var entry := Normalize(line, cfg);
    ScanEntry(ls, position, parse, cfg.expandDomains, header, body, domains);
    if cfg.expandDomains && |domains| > 0 {
      newBody := AppendPerDomain(body, domains, entry);
    } else {
      newBody := body + [entry];
    }
    return None, newHeader, newBody, newDomains;
  }

  lemma ScanEntry(ls: seq<Line>, pos: nat, parse: string -> Option<seq<string>>, expand: bool,
                  header: seq<string>, body: seq<string>, domains: seq<string>)
    requires pos < |ls| && ls[pos].kind == EntryLine
    ensures Scan(ls, pos, parse, expand, header, body, domains) ==
            Scan(ls, pos + 1, parse, expand, header, body + Expand(domains, ls[pos].entry, expand), domains)
  {
  }

  lemma ScanComment(ls: seq<Line>, pos: nat, parse: string -> Option<seq<string>>, expand: bool,
                    header: seq<string>, body: seq<string>, domains: seq<string>)
    requires pos < |ls| && ls[pos].kind == CommentLine
    ensures var l := ls[pos];
            Scan(ls, pos, parse, expand, header, body, domains) ==
            if body != [] then Scan(ls, pos + 1, parse, expand, header, body + [l.text], domains)
            else
              match l.directive
              case None => Scan(ls, pos + 1, parse, expand, header + [l.text], body, domains)
              case Some(a) =>
                match parse(a)
                case None => DirectiveError(a, pos + 1)
                case Some(ds) => Scan(ls, pos + 1, parse, expand, header + [l.text], body, domains + ds)
  {
  }

  lemma ScanHeaderLine(ls: seq<Line>, pos: nat, parse: string -> Option<seq<string>>, expand: bool,
                       header: seq<string>, body: seq<string>, domains: seq<string>)
    requires pos < |ls| && ls[pos].kind == HeaderLine
    ensures Scan(ls, pos, parse, expand, header, body, domains) ==
            if body == [] then Scan(ls, pos + 1, parse, expand, header + [ls[pos].text], body, domains)
            else Done(Block(header, body), pos)
  {
  }

  lemma ScanBlank(ls: seq<Line>, pos: nat, parse: string -> Option<seq<string>>, expand: bool,
                  header: seq<string>, body: seq<string>, domains: seq<string>)
    requires pos < |ls| && ls[pos].kind == BlankLine
    ensures Scan(ls, pos, parse, expand, header, body, domains) ==
            if body == [] then Scan(ls, pos + 1, parse, expand, header + [ls[pos].text], body, domains)
            else Scan(ls, pos + 1, parse, expand, header, body, domains)
  {
  }

  // The same block described in two phases: a run of
  // header-side lines, then the body up to the next header line or the end of the file.

  /** A line that, read before any body line, is kept in the header. */
  predicate HeaderSide(l: Line) {
    l.kind == HeaderLine || l.kind == CommentLine || l.kind == BlankLine
  }

  /** The number of consecutive header-side lines from `pos`. */
  function HeaderRun(ls: seq<Line>, pos: nat): (k: nat)
    requires pos <= |ls|
    ensures pos + k <= |ls|
    ensures pos + k == |ls| || !HeaderSide(ls[pos + k])
    decreases |ls| - pos
  {
    if pos < |ls| && HeaderSide(ls[pos]) then 1 + HeaderRun(ls, pos + 1) else 0
  }

  lemma {:induction false} HeaderRunAll(ls: seq<Line>, pos: nat)
    requires pos <= |ls|
    ensures forall i :: pos <= i < pos + HeaderRun(ls, pos) ==> HeaderSide(ls[i])
    decreases |ls| - pos
  {
    if pos < |ls| && HeaderSide(ls[pos]) {
      HeaderRunAll(ls, pos + 1);
    }
  }

  /** The first header line at or after `pos`, or the end of the file. */
  function BodyEnd(ls: seq<Line>, pos: nat): (e: nat)
    requires pos <= |ls|
    ensures pos <= e <= |ls|
    ensures e == |ls| || ls[e].kind == HeaderLine
    decreases |ls| - pos
  {
    if pos < |ls| && ls[pos].kind != HeaderLine then BodyEnd(ls, pos + 1) else pos
  }

  lemma {:induction false} BodyEndAll(ls: seq<Line>, pos: nat)
    requires pos <= |ls|
    ensures forall i :: pos <= i < BodyEnd(ls, pos) ==> ls[i].kind != HeaderLine
    decreases |ls| - pos
  {
    if pos < |ls| && ls[pos].kind != HeaderLine {
      BodyEndAll(ls, pos + 1);
    }
  }

  /** The domains a header names, in order, or the first directive the parser rejects
      and its index among the header lines. */
  datatype Directives = Parsed(domains: seq<string>) | Malformed(argument: string, index: nat)

  /** The directives of the lines from index `i` up to `j`: the domains they name,
      or the first one the parser rejects (every directive before it is accepted). */
  function DomainsOf(ls: seq<Line>, i: nat, j: nat, parse: string -> Option<seq<string>>): (d: Directives)
    requires i <= j <= |ls|
    ensures d.Malformed? ==> i + d.index < j && ls[i + d.index].directive == Some(d.argument) && parse(d.argument).None?
    ensures d.Malformed? ==> forall n :: i <= n < i + d.index && ls[n].directive.Some? ==> parse(ls[n].directive.value).Some?
    ensures d.Parsed? ==> forall n :: i <= n < j && ls[n].directive.Some? ==> parse(ls[n].directive.value).Some?
    decreases j - i
  {
    if i == j then Parsed([]) else WithDirective(ls[i], parse, DomainsOf(ls, i + 1, j, parse))
  }

  /** The directives of a header whose first line is `l` and whose other lines give `rest`. */
  function WithDirective(l: Line, parse: string -> Option<seq<string>>, rest: Directives): (d: Directives)
    ensures d.Malformed? ==>
              (d.index == 0 && l.directive == Some(d.argument) && parse(d.argument).None?) ||
              (rest.Malformed? && d == Malformed(rest.argument, rest.index + 1) &&
               (l.directive.Some? ==> parse(l.directive.value).Some?))
    ensures d.Parsed? ==> rest.Parsed? && (l.directive.Some? ==> parse(l.directive.value).Some?)
  {
    var shifted := if rest.Malformed? then Malformed(rest.argument, rest.index + 1) else rest;
    match l.directive
    case None => shifted
    case Some(a) =>
      match parse(a)
      case None => Malformed(a, 0)
      case Some(ds) => if shifted.Parsed? then Parsed(ds + shifted.domains) else shifted
  }

  /** Lines without directives name no domains. */
  lemma {:induction false} DomainsOfNone(ls: seq<Line>, i: nat, j: nat, parse: string -> Option<seq<string>>)
    requires i <= j <= |ls|
    requires forall n :: i <= n < j ==> ls[n].directive.None?
    ensures DomainsOf(ls, i, j, parse) == Parsed([])
    decreases j - i
  {
    if i < j {
      DomainsOfNone(ls, i + 1, j, parse);
    }
  }

  /** What a line read after the first body line adds to the body. */
  function Contribution(l: Line, domains: seq<string>, expand: bool): seq<string> {
    match l.kind
    case CommentLine => [l.text]
    case EntryLine => Expand(domains, l.entry, expand)
    case _ => []
  }

  /** The body lines that the lines from index `i` up to `j` contribute, in order. */
  function BodyOf(ls: seq<Line>, i: nat, j: nat, domains: seq<string>, expand: bool): seq<string>
    requires i <= j <= |ls|
    decreases j - i
  {
    if i == j then [] else Contribution(ls[i], domains, expand) + BodyOf(ls, i + 1, j, domains, expand)
  }

  /** Where the header phase of a two-phase read ends: at a directive the parser
      rejects, or at the first body line with the header lines and domains gathered. */
  datatype HeaderEnd = Rejected(argument: string, next: nat) | BodyFrom(start: nat, header: seq<string>, domains: seq<string>)

  /** The header phase from `pos`, with `header` and `domains` already gathered: the
      run of header-side lines and the domains their directives name. */
  function HeaderOf(ls: seq<Line>, pos: nat, parse: string -> Option<seq<string>>,
                    header: seq<string>, domains: seq<string>): (r: HeaderEnd)
    requires pos <= |ls|
    ensures r.BodyFrom? ==> r.start == pos + HeaderRun(ls, pos) <= |ls|
  {
    var k := HeaderRun(ls, pos);
    match DomainsOf(ls, pos, pos + k, parse)
    case Malformed(a, i) => Rejected(a, pos + i + 1)
    case Parsed(ds) => BodyFrom(pos + k, header + TextsOf(ls, pos, pos + k), domains + ds)
  }

  /** The body phase from `j`: every line up to the next header line contributes. */
  function ReadBody(ls: seq<Line>, j: nat, expand: bool, header: seq<string>, domains: seq<string>): Outcome
    requires j <= |ls|
  {
    var e := BodyEnd(ls, j);
    Done(Block(header, BodyOf(ls, j, e, domains, expand)), e)
  }

  /** The read that a header phase ending in `r` completes. */
  function Finish(ls: seq<Line>, expand: bool, r: HeaderEnd): Outcome
    requires r.BodyFrom? ==> r.start <= |ls|
  {
    match r
    case Rejected(a, next) => DirectiveError(a, next)
    case BodyFrom(j, header, domains) => ReadBody(ls, j, expand, header, domains)
  }

  /** One step of the loop after the body has started, on a line that is not a header line. */
  lemma ScanBodyStep(ls: seq<Line>, pos: nat, parse: string -> Option<seq<string>>, expand: bool,
                     header: seq<string>, body: seq<string>, domains: seq<string>)
    requires pos < |ls| && ls[pos].kind != EndOfFile && ls[pos].kind != HeaderLine && body != []
    ensures Scan(ls, pos, parse, expand, header, body, domains) ==
            Scan(ls, pos + 1, parse, expand, header, body + Contribution(ls[pos], domains, expand), domains)
  {
    if ls[pos].kind == BlankLine {
      assert body + [] == body;
    }
  }

  /** One step of the loop before the body has started. */
  lemma ScanHeaderStep(ls: seq<Line>, pos: nat, parse: string -> Option<seq<string>>, expand: bool,
                       header: seq<string>, domains: seq<string>)
    requires pos < |ls| && ValidLine(ls[pos])
    ensures var l := ls[pos];
            Scan(ls, pos, parse, expand, header, [], domains) ==
              if !HeaderSide(l) then
                Scan(ls, pos + 1, parse, expand, header, Contribution(l, domains, expand), domains)
              else
                match l.directive
                case None => Scan(ls, pos + 1, parse, expand, header + [l.text], [], domains)
                case Some(a) =>
                  match parse(a)
                  case None => DirectiveError(a, pos + 1)
                  case Some(ds) => Scan(ls, pos + 1, parse, expand, header + [l.text], [], domains + ds)
  {
    var l := ls[pos];
    if l.kind == EntryLine {
      assert [] + Contribution(l, domains, expand) == Contribution(l, domains, expand);
    }
  }

  /** Once the body has started, the loop appends each line's contribution until
      the next header line or the end of the file. */
  lemma {:induction false} BodyPhase(ls: seq<Line>, pos: nat, parse: string -> Option<seq<string>>, expand: bool,
                                     header: seq<string>, body: seq<string>, domains: seq<string>)
    requires pos <= |ls| && ValidLines(ls) && body != []
    ensures var e := BodyEnd(ls, pos);
            Scan(ls, pos, parse, expand, header, body, domains) ==
            Done(Block(header, body + BodyOf(ls, pos, e, domains, expand)), e)
    decreases |ls| - pos
  {
    var e := BodyEnd(ls, pos);
    if pos == |ls| || ls[pos].kind == HeaderLine {
      EmptyAppend(body);
    } else {
      var c := Contribution(ls[pos], domains, expand);
      ScanBodyStep(ls, pos, parse, expand, header, body, domains);
      BodyPhase(ls, pos + 1, parse, expand, header, body + c, domains);
      AppendAssoc(body, c, BodyOf(ls, pos + 1, e, domains, expand));
    }
  }

  lemma EmptyAppend<T>(a: seq<T>)
    ensures [] + a == a && a + [] == a
  {
  }

  /** Before the body starts, the loop gathers the run of header-side lines (and the
      domains their directives name), then reads the body. */
  lemma {:induction false} HeaderPhase(ls: seq<Line>, pos: nat, parse: string -> Option<seq<string>>, expand: bool,
                                       header: seq<string>, domains: seq<string>)
    requires pos <= |ls| && ValidLines(ls)
    ensures Scan(ls, pos, parse, expand, header, [], domains) ==
            Finish(ls, expand, HeaderOf(ls, pos, parse, header, domains))
    decreases |ls| - pos, 1
  {
    if pos == |ls| {
      EmptyAppend(header);
      EmptyAppend(domains);
    } else if HeaderSide(ls[pos]) {
      HeaderPhaseStep(ls, pos, parse, expand, header, domains);
    } else {
      BodyStart(ls, pos, parse, expand, header, domains);
    }
  }

  lemma {:induction false} HeaderPhaseStep(ls: seq<Line>, pos: nat, parse: string -> Option<seq<string>>, expand: bool,
                                           header: seq<string>, domains: seq<string>)
    requires pos < |ls| && ValidLines(ls) && HeaderSide(ls[pos])
    ensures Scan(ls, pos, parse, expand, header, [], domains) ==
            Finish(ls, expand, HeaderOf(ls, pos, parse, header, domains))
    decreases |ls| - pos, 0
  {
    var l := ls[pos];
    ScanHeaderStep(ls, pos, parse, expand, header, domains);
    match l.directive
    case None =>
      HeaderPhase(ls, pos + 1, parse, expand, header + [l.text], domains);
      HeaderOfStep(ls, pos, parse, header, domains, []);
      EmptyAppend(domains);
    case Some(a) =>
      match parse(a)
      case None =>
        HeaderOfReject(ls, pos, parse, header, domains, a);
      case Some(ds) =>
        HeaderPhase(ls, pos + 1, parse, expand, header + [l.text], domains + ds);
        HeaderOfStep(ls, pos, parse, header, domains, ds);
  }

  /** A line that is not header-side starts the body at once. */
  lemma BodyStart(ls: seq<Line>, pos: nat, parse: string -> Option<seq<string>>, expand: bool,
                  header: seq<string>, domains: seq<string>)
    requires pos < |ls| && ValidLines(ls) && !HeaderSide(ls[pos])
    ensures Scan(ls, pos, parse, expand, header, [], domains) ==
            Finish(ls, expand, HeaderOf(ls, pos, parse, header, domains))
  {
    var c := Contribution(ls[pos], domains, expand);
    ScanHeaderStep(ls, pos, parse, expand, header, domains);
    EmptyHeaderRun(ls, pos, parse, header, domains);
    BodyPhase(ls, pos + 1, parse, expand, header, c, domains);
    assert BodyEnd(ls, pos + 1) == BodyEnd(ls, pos);
  }

  lemma EmptyHeaderRun(ls: seq<Line>, pos: nat, parse: string -> Option<seq<string>>,
                       header: seq<string>, domains: seq<string>)
    requires pos < |ls| && !HeaderSide(ls[pos])
    ensures HeaderOf(ls, pos, parse, header, domains) == BodyFrom(pos, header, domains)
  {
    assert HeaderRun(ls, pos) == 0;
    EmptyAppend(header);
    EmptyAppend(domains);
  }

  /** A header line whose directive (if any) is accepted with domains `added`. */
  lemma WithAcceptedDirective(l: Line, parse: string -> Option<seq<string>>, rest: Directives, added: seq<string>)
    requires match l.directive
             case None => added == []
             case Some(a) => parse(a) == Some(added)
    ensures WithDirective(l, parse, rest) ==
            match rest
            case Malformed(a, i) => Malformed(a, i + 1)
            case Parsed(ds) => Parsed(added + ds)
  {
    if rest.Parsed? && l.directive.None? {
      EmptyAppend(rest.domains);
    }
  }

  /** Taking off the front of the header phase a header-side line that adds `added`
      to the domains (nothing, for a line that is not a directive). */
  lemma HeaderOfStep(ls: seq<Line>, pos: nat, parse: string -> Option<seq<string>>,
                     header: seq<string>, domains: seq<string>, added: seq<string>)
    requires pos < |ls| && HeaderSide(ls[pos])
    requires match ls[pos].directive
             case None => added == []
             case Some(a) => parse(a) == Some(added)
    ensures HeaderOf(ls, pos, parse, header, domains) ==
            HeaderOf(ls, pos + 1, parse, header + [ls[pos].text], domains + added)
  {
    var k' := HeaderRun(ls, pos + 1);
    var e := pos + 1 + k';
    assert HeaderRun(ls, pos) == k' + 1;
    var rest := DomainsOf(ls, pos + 1, e, parse);
    assert DomainsOf(ls, pos, e, parse) == WithDirective(ls[pos], parse, rest);
    WithAcceptedDirective(ls[pos], parse, rest, added);
    match rest
    case Malformed(a, i) =>
    case Parsed(ds) =>
      assert TextsOf(ls, pos, e) == [ls[pos].text] + TextsOf(ls, pos + 1, e);
      AppendAssoc(header, [ls[pos].text], TextsOf(ls, pos + 1, e));
      AppendAssoc(domains, added, ds);
  }

  /** A directive the parser rejects ends the header phase just past its line. */
  lemma HeaderOfReject(ls: seq<Line>, pos: nat, parse: string -> Option<seq<string>>,
                       header: seq<string>, domains: seq<string>, a: string)
    requires pos < |ls| && HeaderSide(ls[pos])
    requires ls[pos].directive == Some(a) && parse(a).None?
    ensures HeaderOf(ls, pos, parse, header, domains) == Rejected(a, pos + 1)
  {
    var k' := HeaderRun(ls, pos + 1);
    assert HeaderRun(ls, pos) == k' + 1;
    assert DomainsOf(ls, pos, pos + 1 + k', parse) == Malformed(a, 0);
  }

  /** The block `get_line_list` reads from `pos`, in closed form: the header is the
      run of header-side lines from `pos`; if the parser rejects one of its directives
      the read fails just past that line; otherwise the body is what the lines up to
      the next header line contribute, expanded over the header's domains. */
  lemma ReadBlockSpec(ls: seq<Line>, pos: nat, parse: string -> Option<seq<string>>, expand: bool)
    requires pos <= |ls| && ValidLines(ls)
    ensures var k := HeaderRun(ls, pos);
            ReadBlock(ls, pos, parse, expand) ==
              match DomainsOf(ls, pos, pos + k, parse)
              case Malformed(a, i) => DirectiveError(a, pos + i + 1)
              case Parsed(ds) =>
                var e := BodyEnd(ls, pos + k);
                Done(Block(TextsOf(ls, pos, pos + k), BodyOf(ls, pos + k, e, ds, expand)), e)
  {
    HeaderPhase(ls, pos, parse, expand, [], []);
    FinishFromStart(ls, pos, parse, expand);
  }

  /** The header phase from an empty start, finished, in closed form. */
  lemma FinishFromStart(ls: seq<Line>, pos: nat, parse: string -> Option<seq<string>>, expand: bool)
    requires pos <= |ls|
    ensures var k := HeaderRun(ls, pos);
            Finish(ls, expand, HeaderOf(ls, pos, parse, [], [])) ==
              match DomainsOf(ls, pos, pos + k, parse)
              case Malformed(a, i) => DirectiveError(a, pos + i + 1)
              case Parsed(ds) =>
                var e := BodyEnd(ls, pos + k);
                Done(Block(TextsOf(ls, pos, pos + k), BodyOf(ls, pos + k, e, ds, expand)), e)
  {
    var k := HeaderRun(ls, pos);
    match DomainsOf(ls, pos, pos + k, parse)
    case Malformed(a, i) =>
    case Parsed(ds) =>
      EmptyAppend(TextsOf(ls, pos, pos + k));
      EmptyAppend(ds);
  }

  /** A block that is read has as header the texts of the header-side lines at `pos`. */
  lemma ReadBlockHeader(ls: seq<Line>, pos: nat, parse: string -> Option<seq<string>>, expand: bool)
    requires pos <= |ls| && ValidLines(ls)
    ensures var o := ReadBlock(ls, pos, parse, expand);
            o.Done? ==>
              |o.block.header| == HeaderRun(ls, pos) &&
              forall n :: 0 <= n < |o.block.header| ==> o.block.header[n] == ls[pos + n].text && HeaderSide(ls[pos + n])
  {
    ReadBlockSpec(ls, pos, parse, expand);
    HeaderRunAll(ls, pos);
  }

  /** A block that is read ends at the next header line after its header (or at the
      end of the file), and its body holds no header line. */
  lemma ReadBlockBoundary(ls: seq<Line>, pos: nat, parse: string -> Option<seq<string>>, expand: bool)
    requires pos <= |ls| && ValidLines(ls)
    ensures var o := ReadBlock(ls, pos, parse, expand);
            var k := HeaderRun(ls, pos);
            o.Done? ==>
              pos + k <= o.next <= |ls| &&
              (o.next == |ls| || ls[o.next].kind == HeaderLine) &&
              forall n :: pos + k <= n < o.next ==> ls[n].kind != HeaderLine
  {
    var k := HeaderRun(ls, pos);
    ReadBlockSpec(ls, pos, parse, expand);
    BodyEndAll(ls, pos + k);
  }

  /** A read that fails stops just past a directive the parser rejects; every line
      before it belongs to the header, and every directive before it is accepted. */
  lemma ReadBlockRejected(ls: seq<Line>, pos: nat, parse: string -> Option<seq<string>>, expand: bool)
    requires pos <= |ls| && ValidLines(ls)
    ensures var o := ReadBlock(ls, pos, parse, expand);
            o.DirectiveError? ==>
              pos < o.next <= |ls| &&
              ls[o.next - 1].directive == Some(o.argument) && parse(o.argument).None? &&
              (forall n :: pos <= n < o.next ==> HeaderSide(ls[n])) &&
              (forall n :: pos <= n < o.next - 1 && ls[n].directive.Some? ==> parse(ls[n].directive.value).Some?)
  {
    ReadBlockSpec(ls, pos, parse, expand);
    HeaderRunAll(ls, pos);
  }

  /** Every read before the end of the file moves the cursor forward. */
  lemma ReadBlockProgress(ls: seq<Line>, pos: nat, parse: string -> Option<seq<string>>, expand: bool)
    requires pos < |ls| && ValidLines(ls)
    ensures pos < ReadBlock(ls, pos, parse, expand).next <= |ls|
  {
    ReadBlockSpec(ls, pos, parse, expand);
    if HeaderRun(ls, pos) == 0 {
      assert BodyEnd(ls, pos) > pos;
    }
  }

  /** At the end of the file the read gives an empty block and leaves the cursor there. */
  lemma ReadBlockEmpty(ls: seq<Line>, pos: nat, parse: string -> Option<seq<string>>, expand: bool)
    requires pos == |ls|
    ensures ReadBlock(ls, pos, parse, expand) == Done(Block([], []), pos)
  {
  }

  /** Before the end of the file a read never gives the empty block: a caller that
      stops at the empty block has read every block of the file. */
  lemma ReadBlockNonEmpty(ls: seq<Line>, pos: nat, parse: string -> Option<seq<string>>, expand: bool)
    requires pos < |ls| && ValidLines(ls)
    ensures var o := ReadBlock(ls, pos, parse, expand);
            o.Done? ==> o.block.header != [] || o.block.lines != []
  {
    ReadBlockSpec(ls, pos, parse, expand);
    if HeaderRun(ls, pos) == 0 {
      assert ls[pos].kind == EntryLine;
    }
  }

  /** Without directives the read never fails. */
  lemma ReadBlockNoDirectives(ls: seq<Line>, pos: nat, parse: string -> Option<seq<string>>, expand: bool)
    requires pos <= |ls| && ValidLines(ls)
    requires forall n :: pos <= n < |ls| ==> ls[n].directive.None?
    ensures ReadBlock(ls, pos, parse, expand).Done?
  {
    ReadBlockSpec(ls, pos, parse, expand);
    DomainsOfNone(ls, pos, pos + HeaderRun(ls, pos), parse);
  }

  /** When every line keeps its text from `s`, the header of a block is the stretch
      of `s` at `pos`. */
  lemma ReadBlockHeaderText(ls: seq<Line>, s: seq<string>, pos: nat, parse: string -> Option<seq<string>>, expand: bool)
    requires |ls| == |s| && pos <= |ls| && ValidLines(ls)
    requires forall n :: 0 <= n < |ls| ==> ls[n].text == s[n]
    ensures var o := ReadBlock(ls, pos, parse, expand);
            o.Done? ==> pos + |o.block.header| <= |s| && o.block.header == s[pos..pos + |o.block.header|]
  {
    ReadBlockHeader(ls, pos, parse, expand);
    var o := ReadBlock(ls, pos, parse, expand);
    if o.Done? {
      var h := o.block.header;
      assert forall n :: 0 <= n < |h| ==> h[n] == s[pos..pos + |h|][n];
    }
  }

  /** On the lines of a file, the header of a block is the stretch of the file at `pos`. */
  lemma ReadBlockHeaderOfFile(s: seq<string>, cfg: LineConfig, pos: nat, parse: string -> Option<seq<string>>)
    requires ValidMarkers(cfg) && NonEmptyLines(s) && pos <= |s|
    ensures var o := ReadBlock(Lines(s, cfg), pos, parse, cfg.expandDomains);
            o.Done? ==> pos + |o.block.header| <= |s| && o.block.header == s[pos..pos + |o.block.header|]
  {
    LinesValid(s, cfg);
    LinesText(s, cfg);
    ReadBlockHeaderText(Lines(s, cfg), s, pos, parse, cfg.expandDomains);
  }

  /** Reading a file without expansion never fails, whatever the parser does. */
  lemma ReadBlockWithoutExpansion(s: seq<string>, cfg: LineConfig, pos: nat, parse: string -> Option<seq<string>>)
    requires ValidMarkers(cfg) && NonEmptyLines(s) && pos <= |s| && !cfg.expandDomains
    ensures ReadBlock(Lines(s, cfg), pos, parse, cfg.expandDomains).Done?
  {
    LinesValid(s, cfg);
    LinesWithoutExpansion(s, cfg);
    ReadBlockNoDirectives(Lines(s, cfg), pos, parse, cfg.expandDomains);
  }

  /** An example of expansion: a header naming two domains, then one entry, which
      becomes one line per domain. The parser receives the directive's argument with
      its newline, as the reader hands it over. */
  lemma ExpansionExample(file: seq<string>, parse: string -> Option<seq<string>>)
    requires file == ["!domains=[\"a.\",\"b.\"]\n", "example.com\n"]
    requires parse("[\"a.\",\"b.\"]\n") == Some(["a.", "b."])
    ensures ReadBlock(Lines(file, ExpandingConfig), 0, parse, true) ==
            Done(Block(["!domains=[\"a.\",\"b.\"]\n"], ["a.example.com\n", "b.example.com\n"]), 2)
  {
    var ls := Lines(file, ExpandingConfig);
    AnalyseExample();
    assert ls[0] == Analyse(file[0], ExpandingConfig) && ls[1] == Analyse(file[1], ExpandingConfig);
    ExpansionScan(ls, parse);
  }

  lemma ExpansionScan(ls: seq<Line>, parse: string -> Option<seq<string>>)
    requires |ls| == 2
    requires ls[0] == Line("!domains=[\"a.\",\"b.\"]\n", CommentLine, Some("[\"a.\",\"b.\"]\n"), "!domains=[\"a.\",\"b.\"]\n")
    requires ls[1] == Line("example.com\n", EntryLine, None, "example.com\n")
    requires parse("[\"a.\",\"b.\"]\n") == Some(["a.", "b."])
    ensures ReadBlock(ls, 0, parse, true) ==
            Done(Block(["!domains=[\"a.\",\"b.\"]\n"], ["a.example.com\n", "b.example.com\n"]), 2)
  {
    var x := "example.com\n";
    assert "a." + x == "a.example.com\n" && "b." + x == "b.example.com\n";
    assert [] + Expand(["a.", "b."], x, true) == ["a.example.com\n", "b.example.com\n"];
    assert [] + [ls[0].text] == ["!domains=[\"a.\",\"b.\"]\n"];
    assert [] + ["a.", "b."] == ["a.", "b."];
    var h := ["!domains=[\"a.\",\"b.\"]\n"];
    assert Scan(ls, 2, parse, true, h, ["a.example.com\n", "b.example.com\n"], ["a.", "b."]) ==
           Done(Block(h, ["a.example.com\n", "b.example.com\n"]), 2);
    assert Scan(ls, 1, parse, true, h, [], ["a.", "b."]) ==
           Done(Block(h, ["a.example.com\n", "b.example.com\n"]), 2);
  }

  /** An example of two blocks: the first read stops at the second header line, and
      the read from there takes the second block up to the end of the file. */
  lemma TwoBlocksExample(ls: seq<Line>, parse: string -> Option<seq<string>>)
    requires ls == [Line("! // A\n", HeaderLine, None, "! // A\n"),
                     Line("a.com\n", EntryLine, None, "a.com\n"),
                     Line("\n", BlankLine, None, "\n"),
                     Line("! // B\n", HeaderLine, None, "! // B\n"),
                     Line("b.com\n", EntryLine, None, "b.com\n")]
    ensures ReadBlock(ls, 0, parse, false) == Done(Block(["! // A\n"], ["a.com\n"]), 3)
    ensures ReadBlock(ls, 3, parse, false) == Done(Block(["! // B\n"], ["b.com\n"]), 5)
  {
    var a, b := ["! // A\n"], ["! // B\n"];
    assert [] + [ls[0].text] == a && [] + [ls[3].text] == b;
    assert [] + Expand([], ls[1].entry, false) == ["a.com\n"];
    assert [] + Expand([], ls[4].entry, false) == ["b.com\n"];
    assert Scan(ls, 3, parse, false, a, ["a.com\n"], []) == Done(Block(a, ["a.com\n"]), 3);
    assert Scan(ls, 2, parse, false, a, ["a.com\n"], []) == Done(Block(a, ["a.com\n"]), 3);
    assert Scan(ls, 1, parse, false, a, [], []) == Done(Block(a, ["a.com\n"]), 3);
    assert Scan(ls, 5, parse, false, b, ["b.com\n"], []) == Done(Block(b, ["b.com\n"]), 5);
    assert Scan(ls, 4, parse, false, b, [], []) == Done(Block(b, ["b.com\n"]), 5);
  }

  /** What the loop works from is a function of the text: the directive line and the
      entry line of the expansion example, as the reader with expansion on sees them.
      The directive's argument keeps the line's newline, since only spaces and `!` are
      trimmed. */
  lemma AnalyseExample()
    ensures Analyse("!domains=[\"a.\",\"b.\"]\n", ExpandingConfig) ==
            Line("!domains=[\"a.\",\"b.\"]\n", CommentLine, Some("[\"a.\",\"b.\"]\n"), "!domains=[\"a.\",\"b.\"]\n")
    ensures Analyse("example.com\n", ExpandingConfig) == Line("example.com\n", EntryLine, None, "example.com\n")
  {
    AnalyseDirectiveExample();
    AnalyseEntryExample("example.com\n");
  }

  lemma AnalyseEntryExample(t: string)
    requires t == "example.com\n"
    ensures Analyse(t, ExpandingConfig) == Line(t, EntryLine, None, t)
  {
    assert t[0] == 'e';
    assert !StartsWith(t, "! //") && !StartsWith(t, "!");
    var c := t[..11];
    assert t == c + "\n";
    assert c[10] == 'm';
    RStripNewline(c);
  }

  lemma AnalyseDirectiveExample()
    ensures Analyse("!domains=[\"a.\",\"b.\"]\n", ExpandingConfig) ==
            Line("!domains=[\"a.\",\"b.\"]\n", CommentLine, Some("[\"a.\",\"b.\"]\n"), "!domains=[\"a.\",\"b.\"]\n")
  {
    var d := "!domains=[\"a.\",\"b.\"]\n";
    ClassifyDirectiveExample(d);
    DirectiveArgumentExample(d);
    NormalizeDirectiveExample(d);
  }

  lemma ClassifyDirectiveExample(d: string)
    requires d == "!domains=[\"a.\",\"b.\"]\n"
    ensures Classify(d, ExpandingConfig) == CommentLine
  {
    assert d[1] == 'd';
    assert !StartsWith(d, "! //");
    assert d[..1] == "!";
  }

  lemma DirectiveArgumentExample(d: string)
    requires d == "!domains=[\"a.\",\"b.\"]\n"
    ensures DirectiveArgument(d) == Some("[\"a.\",\"b.\"]\n")
  {
    var arg := "[\"a.\",\"b.\"]\n";
    assert d == ['!'] + ("domains=" + arg);
    DirectiveOf(arg);
  }

  /** A `!domains=` directive whose argument does not end in a space or `!` hands
      the whole argument to the parser. */
  lemma DirectiveOf(arg: string)
    requires |arg| > 0 && arg[|arg| - 1] !in DirectiveTrim
    ensures DirectiveArgument(['!'] + ("domains=" + arg)) == Some(arg)
  {
    var k := "domains=";
    var t := k + arg;
    assert t[0] == 'd' && t[|t| - 1] == arg[|arg| - 1];
    StripBang(t);
    assert t[..|k|] == k && t[|k|..] == arg;
  }

  /** A `!` in front of text that starts and ends clear of spaces and `!` is all
      that the directive trim removes. */
  lemma StripBang(t: string)
    requires |t| > 0 && t[0] !in DirectiveTrim && t[|t| - 1] !in DirectiveTrim
    ensures StripChars(['!'] + t, DirectiveTrim) == t
  {
    var d := ['!'] + t;
    assert d[1..] == t;
    assert LeadingEnd(d, DirectiveTrim, 1) == 1;
    assert TrailingStart(t, DirectiveTrim, |t|) == |t|;
  }

  lemma NormalizeDirectiveExample(d: string)
    requires d == "!domains=[\"a.\",\"b.\"]\n"
    ensures Normalize(d, ExpandingConfig) == d
  {
    var c := d[..20];
    assert d == c + "\n";
    assert c[19] == ']';
    RStripNewline(c);
  }

  /** The sorted reader's input: a block given as a pair, an open file, or anything
      else (which the source silently treats as an empty block). */
  datatype LineListInput = FromPair(block: Block) | FromFile(file: Stream) | FromOther

  /** What `get_sorted_line_list` returns, or the directive whose parse raised. */
  datatype SortedOutcome = SortedLines(lines: seq<string>) | SortRaised(argument: string)

  /** `get_sorted_line_list`: the header lines, then the body sorted by key. */
  method GetSortedLineList(input: LineListInput, cfg: LineConfig, parse: string -> Option<seq<string>>) returns (r: SortedOutcome)
    requires input.FromFile? ==> input.file.Valid() && ValidMarkers(cfg)
    modifies if input.FromFile? then {input.file} else {}
    ensures input.FromPair? ==> r == SortedLines(LineSort.SortedLineList(input.block, cfg.commentPrefix, LineSort.KeyTrim))
    ensures input.FromOther? ==> r == SortedLines([])
    ensures input.FromFile? ==>
              var o := ReadBlock(Lines(input.file.lines, cfg), old(input.file.pos), parse, cfg.expandDomains);
              input.file.Valid() && input.file.pos == o.next &&
              r == match o
                   case DirectiveError(a, _) => SortRaised(a)
                   case Done(b, _) => SortedLines(LineSort.SortedLineList(b, cfg.commentPrefix, LineSort.KeyTrim))
  {
    var block: Block;
    match input {
    case FromPair(b) =>
      block := b;
    case FromFile(file) =>
      var o := GetLineList(file, cfg, parse);
      if o.DirectiveError? {
        return SortRaised(o.argument);
      }
      block := o.block;
    case FromOther =>
      block := Block([], []);
    }
    r := SortedLines(LineSort.SortedLineList(block, cfg.commentPrefix, LineSort.KeyTrim));
  }
}
