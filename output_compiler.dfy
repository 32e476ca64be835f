/** The generator's output side (`list_generator.py`): rendering every block of every
    input file in one output format, writing that rendering to a path under the
    overwrite rules, and compiling input files verbatim behind a header.  The file
    system is a map from paths to what they name; only what the generator does to it
    is modelled. */
module OutputCompiler {
  import opened PyStr
  import opened LineStream
  import opened GetLineList
  import opened Renderer

  /** What a path names: a regular file with its text, a directory, or something else
      that exists (a device, a socket, a pipe). */
  datatype Node = File(content: string) | Directory | Other

  predicate IsFile(nodes: map<string, Node>, p: string) {
    p in nodes && nodes[p].File?
  }

  /** The part of the file system the generator touches.  Text written to an open
      output file is kept by its Writer and reaches the file when it is closed. */
  class Disk {
    var nodes: map<string, Node>

    constructor (initial: map<string, Node>)
      ensures nodes == initial
    {
      nodes := initial;
    }

    /** `os.remove`, which the generator calls only on paths that are not directories. */
    method Remove(p: string)
      requires p in nodes && !nodes[p].Directory?
      modifies this
      ensures nodes == old(nodes) - {p}
    {
      nodes := nodes - {p};
    }

    /** `open(p, "x")`: creates an empty file, or fails (`FileExistsError`) when
        anything exists at `p`. */
    method CreateExclusive(p: string) returns (created: bool)
      modifies this
      ensures created == (p !in old(nodes))
      ensures nodes == if created then old(nodes)[p := File("")] else old(nodes)
    {
      created := p !in nodes;
      if created {
        nodes := nodes[p := File("")];
      }
    }

    /** Closing an output file: what was written becomes its content. */
    method Close(p: string, text: string)
      requires IsFile(nodes, p)
      modifies this
      ensures nodes == old(nodes)[p := File(text)]
    {
      nodes := nodes[p := File(text)];
    }
  }

  /** An output file opened for writing, holding what has been written to it. */
  class Writer {
    var text: string

    constructor ()
      ensures text == ""
    {
      text := "";
    }

    method Write(s: string)
      modifies this
      ensures text == old(text) + s
    {
      text := text + s;
    }

    method WriteLines(ls: seq<string>)
      modifies this
      ensures text == old(text) + Concat(ls)
    {
      text := text + Concat(ls);
    }
  }

  lemma EndsWithAppend(a: string, b: string, p: string)
    requires EndsWith(b, p)
    ensures EndsWith(a + b, p)
  {
    assert (a + b)[|a + b| - |p|..] == b[|b| - |p|..];
  }

  // Rendering

  /** Each line formatted for the output format, in order. */
  function FormatLines(ls: seq<string>, o: FormatOptions): (r: seq<string>)
    ensures |r| == |ls|
    ensures forall i :: 0 <= i < |ls| ==> r[i] == FormatLine(ls[i], o)
  {
    if ls == [] then [] else [FormatLine(ls[0], o)] + FormatLines(ls[1..], o)
  }

  /** The text written for one block that was read: its header and body lines
      formatted, then an empty line. */
  function BlockText(b: Block, o: FormatOptions): string {
    Concat(FormatLines(b.header + b.lines, o)) + "\n"
  }

  /** What writing some input produced: the text written, and, when the JSON parser
      rejected a `domains=` argument, that argument (its exception ends the writing;
      the text written before it stays in the output file). */
  datatype Rendering = Rendering(text: string, error: Option<string>)

  /** The generator's loop over the blocks of one file from cursor `pos`: it reads
      blocks with domain expansion on, writes each one formatted, and at the empty
      block writes one more newline and stops. */
  function RenderBlocks(ls: seq<Line>, pos: nat, o: FormatOptions, parse: string -> Option<seq<string>>): (r: Rendering)
    requires pos <= |ls| && ValidLines(ls)
    ensures pos == |ls| ==> r == Rendering("\n", None)
    decreases |ls| - pos
  {
    match ReadBlock(ls, pos, parse, true)
    case DirectiveError(a, _) => Rendering("", Some(a))
    case Done(b, next) =>
      if b.header == [] && b.lines == [] then Rendering("\n", None)
      else
        ReadBlockProgress(ls, pos, parse, true);
        var rest := RenderBlocks(ls, next, o, parse);
        Rendering(BlockText(b, o) + rest.text, rest.error)
  }

  /** One turn of the loop: a block read before the end of the file is written, and
      the loop goes on from where the read stopped. */
  lemma RenderBlocksStep(ls: seq<Line>, pos: nat, o: FormatOptions, parse: string -> Option<seq<string>>, b: Block, next: nat)
    requires pos <= |ls| && ValidLines(ls) && ReadBlock(ls, pos, parse, true) == Done(b, next)
    requires b.header != [] || b.lines != []
    ensures pos < next <= |ls|
    ensures var rest := RenderBlocks(ls, next, o, parse);
            RenderBlocks(ls, pos, o, parse) == Rendering(BlockText(b, o) + rest.text, rest.error)
  {
    if pos == |ls| {
      ReadBlockEmpty(ls, pos, parse, true);
    } else {
      ReadBlockProgress(ls, pos, parse, true);
    }
  }

  /** The loop ends at a rejected directive, writing nothing more, or at the empty
      block, writing one newline. */
  lemma RenderBlocksLast(ls: seq<Line>, pos: nat, o: FormatOptions, parse: string -> Option<seq<string>>)
    requires pos <= |ls| && ValidLines(ls)
    ensures var rd := ReadBlock(ls, pos, parse, true);
            var r := RenderBlocks(ls, pos, o, parse);
            (rd.DirectiveError? ==> r == Rendering("", Some(rd.argument))) &&
            (rd.Done? && rd.block == Block([], []) ==> r == Rendering("\n", None))
  {
  }

  /** The analysed lines of a file holding `content`, read as the generator reads them. */
  function FileLines(content: string): (ls: seq<Line>)
    ensures ValidLines(ls)
  {
    LinesValid(SplitLines(content), ExpandingConfig);
    Lines(SplitLines(content), ExpandingConfig)
  }

  function RenderFile(content: string, o: FormatOptions, parse: string -> Option<seq<string>>): Rendering {
    RenderBlocks(FileLines(content), 0, o, parse)
  }

  /** The rendering of one input file, as a value the loop over the inputs applies. */
  function FileRenderer(o: FormatOptions, parse: string -> Option<seq<string>>): string -> Rendering {
    c => RenderFile(c, o, parse)
  }

  lemma FileRendererApplies(o: FormatOptions, parse: string -> Option<seq<string>>, c: string)
    ensures FileRenderer(o, parse)(c) == RenderFile(c, o, parse)
  {
  }

  /** `write_formatted_lines_to_file`: every input path that is a file, in order,
      rendered by `render` into the same output; paths that are not files are skipped. */
  function RenderFiles(paths: seq<string>, nodes: map<string, Node>, render: string -> Rendering): Rendering
    decreases |paths|
  {
    if paths == [] then Rendering("", None)
    else if !IsFile(nodes, paths[0]) then RenderFiles(paths[1..], nodes, render)
    else
      var f := render(nodes[paths[0]].content);
      if f.error.Some? then f
      else
        var rest := RenderFiles(paths[1..], nodes, render);
        Rendering(f.text + rest.text, rest.error)
  }

  lemma EndsBlank(x: string)
    ensures EndsWith(x + "\n" + "\n", "\n\n")
  {
    assert (x + "\n" + "\n")[|x|..] == "\n\n";
  }

  /** A file read to the end renders as its blocks followed by one empty line: the
      output always ends in a newline, and after a non-empty file in an empty line. */
  lemma {:induction false} RenderBlocksNewline(ls: seq<Line>, pos: nat, o: FormatOptions, parse: string -> Option<seq<string>>)
    requires pos <= |ls| && ValidLines(ls)
    ensures var r := RenderBlocks(ls, pos, o, parse);
            r.error.None? ==> EndsWith(r.text, "\n") && (pos < |ls| ==> EndsWith(r.text, "\n\n"))
    decreases |ls| - pos
  {
    if pos < |ls| {
      RenderBlocksLast(ls, pos, o, parse);
      var rd := ReadBlock(ls, pos, parse, true);
      if rd.Done? {
        RenderBlocksStep(ls, pos, o, parse, rd.block, rd.next);
        RenderBlocksNewline(ls, rd.next, o, parse);
        var t := BlockText(rd.block, o);
        var rest := RenderBlocks(ls, rd.next, o, parse);
        if rest.error.None? {
          if rd.next == |ls| {
            EndsBlank(Concat(FormatLines(rd.block.header + rd.block.lines, o)));
          } else {
            EndsWithAppend(t, rest.text, "\n\n");
          }
          EndsWithAppend(t, rest.text, "\n");
        }
      }
    }
  }

  /** The writing stops with an error only at a `domains=` argument of the file that
      the parser rejects. */
  lemma {:induction false} RenderBlocksRejected(ls: seq<Line>, pos: nat, o: FormatOptions, parse: string -> Option<seq<string>>)
    requires pos <= |ls| && ValidLines(ls)
    ensures var r := RenderBlocks(ls, pos, o, parse);
            r.error.Some? ==>
              exists n :: pos <= n < |ls| && ls[n].directive == Some(r.error.value) && parse(r.error.value).None?
    decreases |ls| - pos
  {
    if pos < |ls| {
      ReadBlockRejected(ls, pos, parse, true);
      ReadBlockNonEmpty(ls, pos, parse, true);
      ReadBlockProgress(ls, pos, parse, true);
      match ReadBlock(ls, pos, parse, true)
      case DirectiveError(a, next) =>
        assert ls[next - 1].directive == Some(a);
      case Done(b, next) =>
        RenderBlocksRejected(ls, next, o, parse);
    }
  }

  /** A file without `domains=` directives is written to the end without error. */
  lemma {:induction false} RenderBlocksNoDirectives(ls: seq<Line>, pos: nat, o: FormatOptions, parse: string -> Option<seq<string>>)
    requires pos <= |ls| && ValidLines(ls)
    requires forall n :: pos <= n < |ls| ==> ls[n].directive.None?
    ensures RenderBlocks(ls, pos, o, parse).error.None?
    decreases |ls| - pos
  {
    if pos < |ls| {
      ReadBlockNoDirectives(ls, pos, parse, true);
      ReadBlockNonEmpty(ls, pos, parse, true);
      ReadBlockProgress(ls, pos, parse, true);
      RenderBlocksNoDirectives(ls, ReadBlock(ls, pos, parse, true).next, o, parse);
    }
  }

  /** Rendering a list of paths is rendering its two halves one after the other,
      stopping at the first error. */
  lemma {:induction false} RenderFilesAppend(p: seq<string>, q: seq<string>, nodes: map<string, Node>,
                                             render: string -> Rendering)
    ensures var a := RenderFiles(p, nodes, render);
            var b := RenderFiles(q, nodes, render);
            RenderFiles(p + q, nodes, render) ==
              if a.error.Some? then a else Rendering(a.text + b.text, b.error)
    decreases |p|
  {
    if p == [] {
      assert p + q == q;
    } else {
      assert (p + q)[0] == p[0] && (p + q)[1..] == p[1..] + q;
      RenderFilesAppend(p[1..], q, nodes, render);
    }
  }

  /** One more path: a file adds its rendering, anything else nothing. */
  lemma RenderFilesSnoc(p: seq<string>, x: string, nodes: map<string, Node>, render: string -> Rendering)
    requires RenderFiles(p, nodes, render).error.None?
    ensures var a := RenderFiles(p, nodes, render);
            RenderFiles(p + [x], nodes, render) ==
              if IsFile(nodes, x) then Rendering(a.text + render(nodes[x].content).text, render(nodes[x].content).error)
              else a
  {
    RenderFilesAppend(p, [x], nodes, render);
    assert [x][1..] == [];
  }

  /** The loop over the inputs, one path further. */
  lemma RenderFilesStep(paths: seq<string>, i: nat, nodes: map<string, Node>, render: string -> Rendering)
    requires i < |paths| && RenderFiles(paths[..i], nodes, render).error.None?
    ensures var a := RenderFiles(paths[..i], nodes, render);
            RenderFiles(paths[..i + 1], nodes, render) ==
              if IsFile(nodes, paths[i]) then
                var c := nodes[paths[i]].content;
                Rendering(a.text + render(c).text, render(c).error)
              else a
  {
    RenderFilesSnoc(paths[..i], paths[i], nodes, render);
    assert paths[..i] + [paths[i]] == paths[..i + 1];
  }

  /** An error in the first `i` paths ends the loop there. */
  lemma RenderFilesStop(paths: seq<string>, i: nat, nodes: map<string, Node>, render: string -> Rendering)
    requires i <= |paths| && RenderFiles(paths[..i], nodes, render).error.Some?
    ensures RenderFiles(paths, nodes, render) == RenderFiles(paths[..i], nodes, render)
  {
    RenderFilesAppend(paths[..i], paths[i..], nodes, render);
    assert paths[..i] + paths[i..] == paths;
  }

  /** Paths that are not files add nothing to the output. */
  lemma {:induction false} RenderFilesNoFiles(paths: seq<string>, nodes: map<string, Node>,
                                              render: string -> Rendering)
    requires forall i :: 0 <= i < |paths| ==> !IsFile(nodes, paths[i])
    ensures RenderFiles(paths, nodes, render) == Rendering("", None)
    decreases |paths|
  {
    if paths != [] {
      RenderFilesNoFiles(paths[1..], nodes, render);
    }
  }

  /** `output_file.writelines` of a block's formatted lines, then the newline after it. */
  method WriteBlock(out: Writer, b: Block, o: FormatOptions)
    modifies out
    ensures out.text == old(out.text) + BlockText(b, o)
  {
    out.WriteLines(FormatLines(b.header + b.lines, o));
    out.Write("\n");
  }

  /** One input file: opened, then rendered block by block. */
  method RenderFileTo(content: string, out: Writer, o: FormatOptions, parse: string -> Option<seq<string>>)
    returns (error: Option<string>)
    modifies out
    ensures out.text == old(out.text) + RenderFile(content, o, parse).text
    ensures error == RenderFile(content, o, parse).error
  {
    var f := new Stream.Open(content);
    LinesValid(f.lines, ExpandingConfig);
    error := RenderStream(f, ExpandingConfig, out, o, parse);
  }

  /** The generator's `while True` loop over an open input file: read a block
      through the reader of `get_line_list.py`, stop after one newline at the empty
      block, otherwise write the block formatted. */
  method RenderStream(f: Stream, cfg: LineConfig, out: Writer, o: FormatOptions, parse: string -> Option<seq<string>>)
    returns (error: Option<string>)
    requires f.Valid() && ValidMarkers(cfg) && cfg.expandDomains && ValidLines(Lines(f.lines, cfg))
    modifies f, out
    ensures out.text == old(out.text) + RenderBlocks(Lines(f.lines, cfg), old(f.pos), o, parse).text
    ensures error == RenderBlocks(Lines(f.lines, cfg), old(f.pos), o, parse).error
  {
    ghost var ls := Lines(f.lines, cfg);
    ghost var total := RenderBlocks(ls, f.pos, o, parse);
    ghost var written := "";
    while true
      invariant f.Valid() && ls == Lines(f.lines, cfg)
      invariant out.text == old(out.text) + written
      invariant written + RenderBlocks(ls, f.pos, o, parse).text == total.text
      invariant RenderBlocks(ls, f.pos, o, parse).error == total.error
      decreases |f.lines| - f.pos
    {
      ghost var p := f.pos;
      var r := GetLineList.GetLineList(f, cfg, parse);
      if r.DirectiveError? {
        RenderBlocksLast(ls, p, o, parse);
        return Some(r.argument);
      }
      if r.block.header == [] && r.block.lines == [] {
        RenderBlocksLast(ls, p, o, parse);
        out.Write("\n");
        AppendAssoc(old(out.text), written, "\n");
        return None;
      }
      RenderBlocksStep(ls, p, o, parse, r.block, r.next);
      WriteBlock(out, r.block, o);
      AppendAssoc(old(out.text), written, BlockText(r.block, o));
      AppendAssoc(written, BlockText(r.block, o), RenderBlocks(ls, r.next, o, parse).text);
      written := written + BlockText(r.block, o);
    }
  }

  /** `write_formatted_lines_to_file`: the input files rendered one after another
      into `out`; the parser's error, if any, ends the writing. */
  method WriteFormattedLinesToFile(paths: seq<string>, disk: Disk, out: Writer, o: FormatOptions,
                                   parse: string -> Option<seq<string>>)
    returns (error: Option<string>)
    modifies out
    ensures out.text == old(out.text) + RenderFiles(paths, disk.nodes, FileRenderer(o, parse)).text
    ensures error == RenderFiles(paths, disk.nodes, FileRenderer(o, parse)).error
  {
    ghost var render := FileRenderer(o, parse);
    for i := 0 to |paths|
      invariant out.text == old(out.text) + RenderFiles(paths[..i], disk.nodes, render).text
      invariant RenderFiles(paths[..i], disk.nodes, render).error.None?
    {
      RenderFilesStep(paths, i, disk.nodes, render);
      if IsFile(disk.nodes, paths[i]) {
        var c := disk.nodes[paths[i]].content;
        var e := RenderFileTo(c, out, o, parse);
        FileRendererApplies(o, parse, c);
        AppendAssoc(old(out.text), RenderFiles(paths[..i], disk.nodes, render).text, render(c).text);
        if e.Some? {
          RenderFilesStop(paths, i + 1, disk.nodes, render);
          return e;
        }
      }
    }
    assert paths[..|paths|] == paths;
    return None;
  }

  // Writing to a path

  /** What a call to the generator's writers reports: False (`Skipped`), True
      (`Succeeded`), or the exception it lets escape. */
  datatype Status = Skipped | Succeeded | FileExists | DirectiveRejected(argument: string)

  datatype Effect = Effect(status: Status, nodes: map<string, Node>)

  /** `try_write_to_path`: a file at the target is removed when overwriting is on and
      otherwise kept, a directory is kept, anything else there makes the exclusive
      open fail; otherwise the rendering of the inputs, read with the new empty output
      file in place, becomes the content of the target. */
  function TryWrite(nodes: map<string, Node>, path: string, paths: seq<string>, o: FormatOptions,
                    parse: string -> Option<seq<string>>, overwrite: bool): (e: Effect)
    ensures forall q :: q != path ==> (q in e.nodes <==> q in nodes) && (q in nodes ==> e.nodes[q] == nodes[q])
    ensures path in nodes && (nodes[path].Directory? || !overwrite) ==> e.nodes == nodes && !e.status.Succeeded?
    ensures e.status.Skipped? <==> path in nodes && (nodes[path].Directory? || (nodes[path].File? && !overwrite))
    ensures e.status.FileExists? <==> path in nodes && nodes[path].Other?
    ensures e.status.Succeeded? || e.status.DirectiveRejected? ==>
              var r := RenderFiles(paths, nodes[path := File("")], FileRenderer(o, parse));
              e.nodes == nodes[path := File(r.text)] &&
              (e.status.Succeeded? <==> r.error.None?) &&
              (e.status.DirectiveRejected? ==> r.error == Some(e.status.argument))
  {
    if IsFile(nodes, path) && !overwrite then Effect(Skipped, nodes)
    else if path in nodes && nodes[path].Directory? then Effect(Skipped, nodes)
    else if path in nodes && nodes[path].Other? then Effect(FileExists, nodes)
    else
      // The path is free, or names a file that is removed first: either way the
      // exclusive open leaves an empty file there.
      var created := nodes[path := File("")];
      var r := RenderFiles(paths, created, FileRenderer(o, parse));
      Effect(if r.error.Some? then DirectiveRejected(r.error.value) else Succeeded, created[path := File(r.text)])
  }

  method TryWriteToPath(disk: Disk, path: string, paths: seq<string>, o: FormatOptions,
                        parse: string -> Option<seq<string>>, overwrite: bool)
    returns (status: Status)
    modifies disk
    ensures Effect(status, disk.nodes) == TryWrite(old(disk.nodes), path, paths, o, parse, overwrite)
  {
    if IsFile(disk.nodes, path) {
      if overwrite {
        disk.Remove(path);
      } else {
        return Skipped;
      }
    } else if path in disk.nodes && disk.nodes[path].Directory? {
      return Skipped;
    }
    var created := disk.CreateExclusive(path);
    if !created {
      return FileExists;
    }
    ghost var emptied := old(disk.nodes)[path := File("")];
    assert disk.nodes == emptied;
    var out := new Writer();
    var error := WriteFormattedLinesToFile(paths, disk, out, o, parse);
    ghost var r := RenderFiles(paths, emptied, FileRenderer(o, parse));
    assert out.text == r.text && error == r.error;
    disk.Close(path, out.text);
    assert disk.nodes == emptied[path := File(r.text)];
    if error.Some? {
      return DirectiveRejected(error.value);
    }
    return Succeeded;
  }

  // Compiling

  /** What `compile_files` copies for each input path: a file's text and a newline;
      nothing for a path that is not a file. */
  function Joined(paths: seq<string>, nodes: map<string, Node>): string
    decreases |paths|
  {
    if paths == [] then ""
    else (if IsFile(nodes, paths[0]) then nodes[paths[0]].content + "\n" else "") + Joined(paths[1..], nodes)
  }

  lemma {:induction false} JoinedAppend(p: seq<string>, q: seq<string>, nodes: map<string, Node>)
    ensures Joined(p + q, nodes) == Joined(p, nodes) + Joined(q, nodes)
    decreases |p|
  {
    if p == [] {
      assert p + q == q;
    } else {
      assert (p + q)[0] == p[0] && (p + q)[1..] == p[1..] + q;
      JoinedAppend(p[1..], q, nodes);
    }
  }

  /** The loop over the inputs, one path further. */
  lemma JoinedStep(paths: seq<string>, i: nat, nodes: map<string, Node>)
    requires i < |paths|
    ensures Joined(paths[..i + 1], nodes) ==
            Joined(paths[..i], nodes) + (if IsFile(nodes, paths[i]) then nodes[paths[i]].content + "\n" else "")
  {
    JoinedAppend(paths[..i], [paths[i]], nodes);
    assert paths[..i] + [paths[i]] == paths[..i + 1];
    assert [paths[i]][1..] == [];
  }

  /** Every input file is copied whole, in its place among the others. */
  lemma JoinedHoldsEachFile(paths: seq<string>, nodes: map<string, Node>, i: nat)
    requires i < |paths| && IsFile(nodes, paths[i])
    ensures Joined(paths, nodes) ==
            Joined(paths[..i], nodes) + (nodes[paths[i]].content + "\n") + Joined(paths[i + 1..], nodes)
  {
    assert paths == paths[..i] + ([paths[i]] + paths[i + 1..]);
    JoinedAppend(paths[..i], [paths[i]] + paths[i + 1..], nodes);
    JoinedAppend([paths[i]], paths[i + 1..], nodes);
  }

  /** `compile_files`: a directory at the output path is kept, and so is anything else
      there unless overwriting is on; otherwise the output becomes the header, a
      newline, and each input file followed by a newline, the inputs read with the new
      empty output file in place.  It never raises. */
  function Compile(nodes: map<string, Node>, out: string, paths: seq<string>, header: string,
                   overwrite: bool): (e: Effect)
    ensures e.status.Skipped? || e.status.Succeeded?
    ensures e.status.Skipped? <==> out in nodes && (nodes[out].Directory? || !overwrite)
    ensures e.status.Skipped? ==> e.nodes == nodes
    ensures e.status.Succeeded? ==>
              e.nodes == nodes[out := File(header + "\n" + Joined(paths, nodes[out := File("")]))]
  {
    if out in nodes && nodes[out].Directory? then Effect(Skipped, nodes)
    else if out in nodes && !overwrite then Effect(Skipped, nodes)
    else
      // Whatever was there is removed first, so the exclusive open leaves an empty file.
      var created := nodes[out := File("")];
      Effect(Succeeded, created[out := File(header + "\n" + Joined(paths, created))])
  }

  lemma ConcatSnoc(ls: seq<string>, p: nat)
    requires p < |ls|
    ensures Concat(ls[..p + 1]) == Concat(ls[..p]) + ls[p]
  {
    ConcatAppend(ls[..p], [ls[p]]);
    assert ls[..p] + [ls[p]] == ls[..p + 1];
    assert Concat([ls[p]]) == ls[p] + Concat([]);
  }

  /** One input file copied: opened, then its lines written one by one. */
  method CopyLines(content: string, w: Writer)
    modifies w
    ensures w.text == old(w.text) + content
  {
    var f := new Stream.Open(content);
    CopyStream(f, w);
  }

  /** `for line in input_file: f.write(line)`: every line still to be read, in order. */
  method CopyStream(f: Stream, w: Writer)
    requires f.Valid()
    modifies f, w
    ensures w.text == old(w.text) + Concat(f.lines[old(f.pos)..])
  {
    ghost var start := f.pos;
    ghost var ls := f.lines[start..];
    while true
      invariant f.Valid() && start <= f.pos
      invariant w.text == old(w.text) + Concat(ls[..f.pos - start])
      decreases |f.lines| - f.pos
    {
      ghost var p := f.pos;
      var line := f.ReadLine();
      if line == "" {
        assert ls[..p - start] == ls;
        return;
      }
      ConcatSnoc(ls, p - start);
      AppendAssoc(old(w.text), Concat(ls[..p - start]), line);
      w.Write(line);
    }
  }

  method CompileFiles(disk: Disk, paths: seq<string>, out: string, header: string, overwrite: bool)
    returns (status: Status)
    modifies disk
    ensures Effect(status, disk.nodes) == Compile(old(disk.nodes), out, paths, header, overwrite)
  {
    if out in disk.nodes {
      if disk.nodes[out].Directory? {
        return Skipped;
      }
      if overwrite {
        disk.Remove(out);
      } else {
        return Skipped;
      }
    }
    var created := disk.CreateExclusive(out);
    assert disk.nodes == old(disk.nodes)[out := File("")];
    var w := new Writer();
    w.Write(header + "\n");
    for i := 0 to |paths|
      invariant disk.nodes == old(disk.nodes)[out := File("")]
      invariant w.text == header + "\n" + Joined(paths[..i], disk.nodes)
    {
      JoinedStep(paths, i, disk.nodes);
      if IsFile(disk.nodes, paths[i]) {
        var c := disk.nodes[paths[i]].content;
        CopyLines(c, w);
        w.Write("\n");
        AppendAssoc(header + "\n", Joined(paths[..i], disk.nodes), c);
        AppendAssoc(header + "\n" + Joined(paths[..i], disk.nodes), c, "\n");
        AppendAssoc(header + "\n", Joined(paths[..i], disk.nodes), c + "\n");
      }
    }
    assert paths[..|paths|] == paths;
    disk.Close(out, w.text);
    return Succeeded;
  }
}
