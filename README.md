# Huge AI Blocklist generator — a verified model

This project models the part of the uBlockOrigin-HUGE-AI-Blocklist generator that reads and writes lists:

- **Block readers.** The three generations of the block reader read a blocklist source file one block at a time. A block is a run of header and comment lines followed by body lines.
  - `get_line_list` in `get_line_list.py` is the current reader. It adds URL prefix and suffix enforcement, line-end normalisation and `domains=` expansion.
  - `getLineList` in `getLineList.py` is the previous reader.
  - `getLineList` in `__getLineList__.py` is the oldest reader.
  - Each has a `get_sorted_line_list` / `getSortedLineList` companion. It sorts a block's body by a normalised key and leaves the header where it was.
- **Renderer.** `format_line` in `list_generator.py` turns one line into the syntax of a target: a hosts file, uBlacklist, or a uBlock Origin filter per search engine.
- **Output compiler.** Three functions in `list_generator.py`:
  - `write_formatted_lines_to_file` streams every input file through the reader and the renderer into an output file;
  - `try_write_to_path` applies the overwrite policy before writing;
  - `compile_files` concatenates already-written files behind a title line.

The model has one module per concern:

| module | file | what it holds |
|---|---|---|
| `PyStr` | `py_str.dfy` | The Python `str` operations the source relies on: `removeprefix`, `strip`/`lstrip`/`rstrip`, `lower`, `find`, `replace` (all occurrences, or the first only) and `<` on strings. Each is characterised by its contract or by lemmas, except `replace` of all occurrences, which is proved only for the cases the generator meets (see Left out). |
| `LineStream` | `line_stream.dfy` | A text file opened for reading, as the class `Stream` with `tell`, `readline` and `seek`, and the lines that `readline` returns for a given text. |
| `LineSort` | `line_sort.dfy` | The decorate-sort-undecorate step shared by the three sorted readers. Tuples `(key, index, line)` are ordered as Python compares them. It is proved to be a stable permutation whose keys ascend. |
| `GetLineList` | `get_line_list.dfy` | The current reader: a specification function `Scan`/`ReadBlock` over the analysed lines of a file, and the method `GetLineList` over a `Stream`, proved equal to it. |
| `LegacyLineList` | `legacy_line_list.dfy` | The previous and the oldest reader and their sorted companions. The readers differ only in how blank lines before the body are kept; the sorted companions also differ in the characters the sort key trims (`" ./"` against `" ."`). A `Generation` value picks both. |
| `Renderer` | `renderer.dfy` | `format_line` as written, and as evidently intended. |
| `OutputCompiler` | `output_compiler.dfy` | The file-system part: a `Disk` class (a map from path to node), a `Writer` for an open output file, and the three writing functions as methods. Each is proved against a specification function. |

How the model stands in for the parts of Python it cannot run:

- **JSON parser.** `json.loads` is a parameter `parse: string -> Option<seq<string>>`. `None` means the parser raised, and the model then turns the exception into an explicit error outcome.
- **Files.** A file's content is a string. The lines `readline` returns are `SplitLines(content)`, and every line but the last ends in a newline.

## Model

| member | source | states |
|---|---|---|
| PyStr.RemovePrefix | get_line_list.py:102 | `removeprefix`: when `s` starts with `p` then `s == p + r`, otherwise `r == s` |
| PyStr.LStripChars | get_line_list.py:39 | `lstrip(chars)`: the result is a suffix of `s`, every removed character is in `chars`, and the result does not start with one |
| PyStr.RStripChars | get_line_list.py:39 | `rstrip(chars)`: the result is a prefix of `s`, every removed character is in `chars`, and the result does not end with one |
| PyStr.StripChars | get_line_list.py:39 | `strip(chars)`: the result is the middle of `s` left after removing characters of `chars` from both ends, and it neither starts nor ends with one |
| PyStr.RStripSpace | get_line_list.py:71 | `rstrip()`: the result is a prefix of `s`, it has no trailing whitespace, and only whitespace was removed |
| PyStr.RStripDropsNewline | get_line_list.py:71 | `(u + "\n").rstrip() == u.rstrip()` for every `u` |
| PyStr.RStripTwice | list_generator.py:183 | `rstrip()` is idempotent |
| PyStr.RStripNewline | get_line_list.py:71 | `(c + "\n").rstrip() == c` when `c` has no trailing whitespace |
| PyStr.RStripKeepsPrefix | get_line_list.py:65 | stripping trailing whitespace keeps a prefix that itself has none |
| PyStr.Lower | get_line_list.py:102 | `lower()` keeps the length and lowers each character |
| PyStr.Find | list_generator.py:157 | the result is the leftmost occurrence of `p` in `s`; `None` means `p` does not occur |
| PyStr.ReplaceFirst | list_generator.py:157 | `replace(p, rep, 1)`, defined through `Find`; its meaning is ReplaceFirstLeftmost |
| PyStr.ReplaceFirstLeftmost | list_generator.py:157 | `replace(p, rep, 1)` leaves `s` unchanged when `p` does not occur, and otherwise replaces exactly the leftmost occurrence |
| PyStr.ReplaceFirstAtStart | list_generator.py:157 | when `s` starts with `p`, `replace(p, rep, 1)` gives `rep` + the rest of `s` |
| PyStr.ReplaceAll | list_generator.py:155 | `replace(p, rep)`: a left-to-right scan that replaces each non-overlapping occurrence and skips one character otherwise (an empty pattern puts `rep` around every character); its cases are the lemmas below |
| PyStr.ReplaceAllAbsent | list_generator.py:155 | `replace(p, rep)` with a non-empty pattern leaves `s` unchanged when `p` does not occur |
| PyStr.ReplaceAllSingle | list_generator.py:183 | when the pattern's first character occurs in neither `a` nor `b`, `(a + p + b).replace(p, rep) == a + rep + b` |
| PyStr.ReplaceAllAtStart | list_generator.py:155 | an occurrence at the start is replaced and the scan goes on after it |
| PyStr.LexLessIrreflexive | get_line_list.py:105 | string `<` is irreflexive |
| PyStr.LexLessTransitive | get_line_list.py:105 | string `<` is transitive |
| PyStr.LexLessTotal | get_line_list.py:105 | any two different strings are ordered one way or the other |
| LineStream.SplitLines | get_line_list.py:25 | the lines `readline()` returns: each is non-empty, has a newline only as its last character, all but the last end in one, and together they concatenate back to the file's text |
| LineStream.SplitConcat | get_line_list.py:25 | round trip: splitting the concatenation of a valid line sequence gives the same lines back |
| LineStream.ConcatAppend | list_generator.py:225-228 | writing `a + b` line by line writes `a`'s text followed by `b`'s |
| LineStream.FirstLineLength | get_line_list.py:25 | the first line runs up to and including the first newline, or to the end of the text when there is none |
| LineStream.Stream.Open | list_generator.py:218 | a freshly opened file has the lines of its content and its cursor at 0 |
| LineStream.Stream.Tell | get_line_list.py:24 | `tell()` reports the cursor |
| LineStream.Stream.ReadLine | get_line_list.py:25 | `readline()` returns the line at the cursor and advances the cursor, or returns `""` and leaves it at the end of the file |
| LineStream.Stream.Seek | get_line_list.py:32 | `seek(p)` puts the cursor back at `p` |
| LineSort.SortKey | get_line_list.py:102 | the key `removeprefix(comment).strip(trim).lower()` is no longer than the line and holds no upper-case ASCII letter |
| LineSort.SortBody | get_line_list.py:101-106 | the body in the order decorate, sort, undecorate leaves it; SortBodyStable proves it a stable permutation with ascending keys |
| LineSort.Decorate | get_line_list.py:101-104 | element `i` is `(key(line_i), i, line_i)` with the key `removeprefix(comment).strip(" ./").lower()` |
| LineSort.Undecorate | get_line_list.py:106 | reads the lines back out of the tuples, in order |
| LineSort.BeforeTotal | get_line_list.py:105 | Python's tuple order on `(key, index)` orders any two entries with different indices |
| LineSort.BeforeTransitive | get_line_list.py:105 | the tuple order is transitive |
| LineSort.BeforeAsymmetric | get_line_list.py:105 | the tuple order is asymmetric |
| LineSort.Insert | get_line_list.py:105 | inserting into an ascending list keeps it ascending and adds exactly that entry |
| LineSort.SortEntries | get_line_list.py:105 | `decorated.sort()`: the result ascends in tuple order and is a permutation of the input |
| LineSort.AscendingUnique | get_line_list.py:105 | two ascending permutations of the same entries are equal, so the sort result is determined |
| LineSort.SortedLineList | get_line_list.py:90-108 | the header lines come first and unchanged, and the rest is a permutation of the body |
| LineSort.SortBodyPermutes | get_line_list.py:101-106 | the sorted body has the same lines, counted with multiplicity |
| LineSort.SortedPositionsPermute | get_line_list.py:101-106 | the sort applied a permutation of the positions, and sorted line `k` is the original line at the `k`-th applied position |
| LineSort.SortBodyOrdered | get_line_list.py:101-106 | the keys of the sorted body ascend, and lines with equal keys keep their original order |
| LineSort.SortBodyStable | get_line_list.py:101-106 | all of the above together: a stable permutation with ascending keys |
| LineSort.SortBodyOfSorted | get_line_list.py:101-106 | a body whose keys already ascend is left exactly as it is |
| LineSort.SortedLineListIdempotent | get_line_list.py:90-108 | sorting an already sorted block again gives the same list |
| LineSort.KeyExampleA | get_line_list.py:102 | the key of `"!A.com"` is `"a.com"` |
| LineSort.KeyExampleB | get_line_list.py:102 | the key of `"! B.com"` is `"b.com"` (the space is trimmed and the letter lowered) |
| LineSort.KeyExampleC | get_line_list.py:102 | the key of `".c.com"` is `"c.com"` (the leading dot is trimmed) |
| LineSort.SortBodyExample | get_line_list.py:101-106 | `["! B.com", "!A.com", ".c.com"]` sorts to `["!A.com", "! B.com", ".c.com"]` |
| GetLineList.Classify | get_line_list.py:28-58 | a line is a header line exactly when it starts with the header prefix; it is the end of the file exactly when it is `""`; an entry line is neither empty nor `"\n"` |
| GetLineList.DirectiveArgument | get_line_list.py:39-41 | a comment is a `domains=` directive exactly when, stripped of spaces and `!`, it starts with `domains=`, and the argument is what follows the keyword |
| GetLineList.Normalize | get_line_list.py:60-71 | the entry ends in exactly one newline with no whitespace before it; it starts with the URL prefix when that is enforced and ends with the suffix when that is enforced; with only the prefix enforced, the entry is the line's `rstrip()` plus a newline when the line already has the prefix, and the prefix, the line's `rstrip()` and a newline when it does not; without either, it is the line's `rstrip()` plus a newline |
| GetLineList.NormalizeWithSuffix | get_line_list.py:60-71 | with the suffix enforced, the entry is the line after the prefix rule, stripped of trailing whitespace, with the suffix appended exactly when it does not already end in it (the result stripped again when the suffix itself ends in whitespace), then one newline |
| GetLineList.NormalizePrepends | get_line_list.py:60-62 | an entry without the prefix gets it in front |
| GetLineList.NormalizeAppends | get_line_list.py:64-68 | an entry without the suffix gets it at the end |
| GetLineList.NormalizeExample | get_line_list.py:60-71 | `a.com` becomes `.a.com` under the default prefix and `a.com/` under the default suffix |
| GetLineList.NormalizeIdempotent | get_line_list.py:60-71 | normalising an already normalised entry changes nothing |
| GetLineList.NormalizeFacts | get_line_list.py:60-68 | prefix enforcement survives suffix enforcement, and suffix enforcement leaves the suffix at the end |
| GetLineList.Expand | get_line_list.py:75-81 | with expansion on and domains declared, one line `domain + entry` per domain in directive order; otherwise the entry alone |
| GetLineList.LinesText | get_line_list.py:25 | each analysed line keeps the text that was read |
| GetLineList.LinesValid | get_line_list.py:28-58 | with non-empty prefixes, no line of a file reads as the end of the file, and only comment lines carry a directive |
| GetLineList.LinesWithoutExpansion | get_line_list.py:38 | with expansion off, no line is read as a directive |
| GetLineList.Scan | get_line_list.py:23-83 | the reading loop: the cursor never moves backwards or past the end; the header and body gathered so far are kept; once the body has begun the header no longer grows |
| GetLineList.DomainsOf | get_line_list.py:38-41 | the domains declared in a header: either every directive parses and its domains are gathered, or the first that does not parse is named |
| GetLineList.HeaderPhase | get_line_list.py:23-54 | before the body starts, the loop gathers the maximal run of header, comment and blank lines, or stops at the first directive the parser rejects |
| GetLineList.BodyPhase | get_line_list.py:23-81 | once the body has started, the loop runs to the next header line or the end of the file, gathering each line's contribution |
| GetLineList.ReadBlock | get_line_list.py:17-83 | one call of `get_line_list` from cursor `pos`, the specification the method is proved against: the cursor it leaves is within the file and not before `pos`; ReadBlockSpec gives it in closed form |
| GetLineList.ReadStep | get_line_list.py:24-81 | one pass of the loop either ends the block with exactly the outcome `Scan` gives from the old cursor, or advances the cursor and leaves the outcome of the rest of the scan unchanged |
| GetLineList.AppendPerDomain | get_line_list.py:75-79 | the expansion loop appends one line per domain, in order |
| GetLineList.GetLineList | get_line_list.py:17-83 | `get_line_list` on a stream returns what `ReadBlock` says for the file's lines at the old cursor, and leaves the cursor where the block ends |
| GetLineList.ReadBlockSpec | get_line_list.py:17-83 | closed form of one call: header = the maximal run of header, comment and blank lines; body = the contributions up to the next header line; or the first rejected directive |
| GetLineList.ReadBlockHeader | get_line_list.py:28-52 | the header returned is exactly the texts of the header-side lines at the cursor, in order |
| GetLineList.ReadBlockBoundary | get_line_list.py:28-33 | a block ends at the end of the file or just before the next header line, and its body crosses no header line |
| GetLineList.ReadBlockRejected | get_line_list.py:38-41 | a raised error names the argument of a directive line in the header that the parser rejects; every earlier directive parsed |
| GetLineList.ReadBlockProgress | get_line_list.py:23-33 | a call that starts before the end of the file consumes at least one line |
| GetLineList.ReadBlockEmpty | get_line_list.py:57-58 | at the end of the file the call returns the empty block |
| GetLineList.ReadBlockNonEmpty | get_line_list.py:23-58 | before the end of the file the returned block is never empty, so the empty block signals the end to the caller |
| GetLineList.ReadBlockNoDirectives | get_line_list.py:38-41 | without directives the call never raises |
| GetLineList.ReadBlockHeaderText | get_line_list.py:30 | the header is the slice of the read lines starting at the cursor |
| GetLineList.ReadBlockHeaderOfFile | get_line_list.py:43 | the header is a slice of the file's own lines, read unchanged |
| GetLineList.ReadBlockWithoutExpansion | get_line_list.py:38 | with expansion off the reader never raises |
| GetLineList.ExpansionExample | get_line_list.py:36-81 | the file `!domains=["a.","b."]\n`, `example.com\n`, read with the generator's configuration and a parser that accepts the argument with its newline, gives that header and the body `a.example.com`, `b.example.com` in directive order |
| GetLineList.DirectiveOf | get_line_list.py:38-41 | a `!domains=` comment hands the parser everything after the keyword, its trailing newline included |
| GetLineList.TwoBlocksExample | get_line_list.py:28-33 | a file with two header-plus-body groups gives two blocks, each with only its own header |
| GetLineList.AnalyseExample | get_line_list.py:36-71 | with the generator's configuration, `!domains=["a.","b."]\n` is a comment whose directive argument keeps the newline, and `example.com\n` is an entry line that stays unchanged |
| GetLineList.GetSortedLineList | get_line_list.py:90-108 | a pair input is sorted as given; a file input is read with `get_line_list` and then sorted; any other input gives an empty list; a rejected directive propagates |
| LegacyLineList.LegacyGetLineList | getLineList.py:4-42 | both older readers on a stream return what `LegacyRead` says for the file's lines at the old cursor, and leave the cursor where the block ends |
| LegacyLineList.LegacyScan | getLineList.py:8-38 | the loop of both older readers from a cursor with the lines gathered so far: the cursor never moves back or past the end; LegacyScanContents gives its closed form |
| LegacyLineList.LegacyRead | getLineList.py:4-42 | one call of the older readers from cursor `pos`: the cursor it leaves is within the file and not before `pos` |
| LegacyLineList.LegacyScanContents | getLineList.py:8-42 | closed form of the loop: the header and the body are the header-side and body texts of the lines consumed |
| LegacyLineList.LegacyScanBoundary | getLineList.py:13-18 | the loop stops at the end of the file or before a header line, and only once the header is non-empty |
| LegacyLineList.LegacyScanOneHeaderLine | getLineList.py:13-18 | a block holds at most one header-prefix line, and it is the first line of the header |
| LegacyLineList.LegacyReadSpec | getLineList.py:4-42 | all of the above for one call, plus: an empty block only at the end of the file, and a call before the end consumes a line |
| LegacyLineList.OldestDropsBlanks | __getLineList__.py:28-31 | the oldest reader's header holds only header and comment lines, never a blank line |
| LegacyLineList.HeaderlessBlockExample | getLineList.py:13-18 | unlike the current reader, body lines read before the first header line stay in the same block as that header |
| LegacyLineList.BlankLineExample | __getLineList__.py:28-31 | a blank line after the header is kept by the previous reader and dropped by the oldest |
| LegacyLineList.LegacyGetSortedLineList | getLineList.py:50-63 | as written: a file input is read and sorted, with the blank-line rule and key trim of the file's generation; any other input raises `UnboundLocalError` |
| LegacyLineList.FixedGetSortedLineList | getLineList.py:50-63 | as evidently intended: a pair input is sorted as given, a file input is read and sorted, any other input gives an empty list, each with the generation's key trim |
| Renderer.FormatLine | list_generator.py:146-183 | `format_line` with the template read from `line_format`: header and comment lines translated, blank lines unchanged, hosts entries naming a path commented out, other entries placed into the template; the lemmas below state each case |
| Renderer.TranslateComment | list_generator.py:154-158 | `{engine}` filled in, then the first comment marker replaced; see CommentMarkerReplaced and EngineTranslated |
| Renderer.Url | list_generator.py:172-183 | the affixed entry without trailing whitespace; see UrlPrefix, UrlSuffix and UrlIdempotent |
| Renderer.Fill | list_generator.py:182-183 | the template with its line end normalised and every `{url}` replaced; see FillEndsInNewline, FillWithoutPlaceholder and FillSingle |
| Renderer.FormatLineAsWritten | list_generator.py:146-183 | `format_line` as written raises exactly for the lines that reach the template; every other line gets the intended result |
| Renderer.HostsEntryRaisesAsWritten | list_generator.py:163-183 | a plain domain under the hosts format raises as written, where `0.0.0.0 <domain>` was intended |
| Renderer.CommentLineTranslated | list_generator.py:154-158 | a header or comment line gets `{engine}` filled in and its first comment marker replaced, whatever the template |
| Renderer.CommentMarkerReplaced | list_generator.py:154-158 | a comment without placeholders gets the engine's comment marker in place of the leading `!`, and the template plays no part |
| Renderer.EngineReplaced | list_generator.py:155 | `{engine}` in a comment is replaced by the engine name |
| Renderer.EngineTranslated | list_generator.py:154-158 | a comment naming `{engine}` becomes the replacement marker + the text with the engine filled in |
| Renderer.EngineFilledIn | list_generator.py:154-158 | the same, through `format_line` |
| Renderer.BlankLineUnchanged | list_generator.py:160-161 | a blank line is returned unchanged, whatever the template |
| Renderer.HostsPathCommentedOut | list_generator.py:163-170 | in hosts mode an entry containing `/` is commented out with the fixed gutter, after stripping spaces and dots |
| Renderer.HostsTrimsDots | list_generator.py:166 | hosts mode strips a leading dot from a plain domain |
| Renderer.UrlPrefix | list_generator.py:172-174 | the URL has no trailing whitespace and starts with the enforced prefix, and an entry that already has the prefix gets no second one |
| Renderer.UrlSuffix | list_generator.py:176-180 | the URL ends with the enforced suffix |
| Renderer.UrlIdempotent | list_generator.py:172-180 | prefix and suffix enforcement applied twice is applied once |
| Renderer.FillEndsInNewline | list_generator.py:182-183 | the filled template ends in exactly the one newline added after stripping its own line end |
| Renderer.FillWithoutPlaceholder | list_generator.py:182-183 | a template without `{url}` gives its `rstrip()` plus one newline, whatever the line |
| Renderer.FillSingle | list_generator.py:182-183 | a template `a{url}b` is filled as `a + url + b + "\n"` |
| Renderer.EntryFilled | list_generator.py:163-183 | an entry that reaches a template `a{url}b` renders as `a + url + b + "\n"`, where the URL has the enforced prefix and suffix and no trailing whitespace |
| Renderer.DottedSlashedUrl | list_generator.py:172-180 | with the uBlacklist settings a plain domain's URL is `.domain/` |
| Renderer.DottedSlashedDomain | list_generator.py:172-183 | a plain domain under the uBlacklist-shaped format renders as `a + ".domain/" + b + "\n"` |
| Renderer.HostsDomainReaches | list_generator.py:163-170 | in hosts mode a plain domain, with or without a leading dot, reaches the template as the bare domain |
| Renderer.HostsUrl | list_generator.py:166-174 | in hosts mode a plain domain's URL is the domain, or `.domain` when the `.` prefix is enforced |
| Renderer.HostsDomain | list_generator.py:163-183 | in hosts mode a plain domain renders as `a + domain + b + "\n"`, or with `.domain` under `hosts-www` |
| Renderer.GeneratorFormats | list_generator.py:350-388 | the uBlacklist, hosts and hosts-www options the generator builds have the shapes the lemmas above assume |
| OutputCompiler.Disk.Remove | list_generator.py:236 | `remove(path)` deletes that path and nothing else |
| OutputCompiler.Disk.CreateExclusive | list_generator.py:245 | `open(path, "x")` creates an empty file exactly when the path does not exist, and otherwise changes nothing |
| OutputCompiler.Disk.Close | list_generator.py:245-248 | closing the output file stores the text written to it |
| OutputCompiler.Writer.Write | list_generator.py:222 | `write(s)` appends `s` |
| OutputCompiler.Writer.WriteLines | list_generator.py:225-228 | `writelines(ls)` appends the lines' concatenation |
| OutputCompiler.FormatLines | list_generator.py:225-228 | one formatted line per line of the block |
| OutputCompiler.RenderBlocks | list_generator.py:219-223 | at the end of a file the loop writes one newline and stops |
| OutputCompiler.RenderBlocksStep | list_generator.py:219-230 | a non-empty block is written formatted, followed by a newline, and the loop goes on strictly after it |
| OutputCompiler.RenderBlocksLast | list_generator.py:219-223 | a rejected directive ends the file's writing with that error; the empty block writes one newline and ends it |
| OutputCompiler.RenderBlocksNewline | list_generator.py:221-230 | without an error, each file's output ends in a newline, and in a blank line when the file had any line |
| OutputCompiler.RenderBlocksRejected | list_generator.py:220 | an error always names a directive of the file that the parser rejects |
| OutputCompiler.RenderBlocksNoDirectives | list_generator.py:220 | a file without directives is always written to the end |
| OutputCompiler.FileLines | list_generator.py:213-220 | a file read with expansion on consists of valid analysed lines |
| OutputCompiler.RenderFile | list_generator.py:218-230 | the output for one input file's content: RenderBlocks from the first line |
| OutputCompiler.RenderFiles | list_generator.py:216-230 | the output for a list of input paths: each path that is a file in turn, stopping at the first rejected directive; see RenderFilesAppend and RenderFilesStop |
| OutputCompiler.RenderFilesAppend | list_generator.py:216-230 | writing the inputs `p + q` writes `p`'s output and then `q`'s, unless `p` already raised |
| OutputCompiler.RenderFilesSnoc | list_generator.py:216-218 | one more input path adds that file's output when it is a file, and nothing otherwise |
| OutputCompiler.RenderFilesStep | list_generator.py:216-218 | the same, for the `i`-th path of the loop |
| OutputCompiler.RenderFilesStop | list_generator.py:216-220 | after an error the remaining paths are not read |
| OutputCompiler.RenderFilesNoFiles | list_generator.py:217 | paths that are not files write nothing |
| OutputCompiler.WriteBlock | list_generator.py:225-230 | a block is written as its formatted lines followed by a newline |
| OutputCompiler.RenderStream | list_generator.py:219-230 | the `while True` loop over an open file writes what `RenderBlocks` says from the old cursor, and returns its error |
| OutputCompiler.RenderFileTo | list_generator.py:218-230 | opening one input file and running the loop writes what `RenderFile` says for its content |
| OutputCompiler.WriteFormattedLinesToFile | list_generator.py:211-230 | the output file receives what `RenderFiles` says for the input paths, and the first rejected directive is returned |
| OutputCompiler.TryWrite | list_generator.py:232-248 | other paths are never touched; an existing directory, or an existing file without overwrite, is skipped and left unchanged; an existing non-file non-directory path fails on the exclusive create; otherwise the path holds the rendering of the inputs, read with the target already emptied, and success means no directive was rejected |
| OutputCompiler.TryWriteToPath | list_generator.py:232-248 | the method's status and the new disk are exactly `TryWrite` of the old disk |
| OutputCompiler.Joined | list_generator.py:264-270 | the compiled text after the title: each input that is a file, its content then a newline; see JoinedHoldsEachFile |
| OutputCompiler.JoinedAppend | list_generator.py:264-270 | the compiled text of `p + q` is the compiled text of `p` followed by that of `q` |
| OutputCompiler.JoinedStep | list_generator.py:264-270 | one more path adds that file's content and a newline when it is a file |
| OutputCompiler.JoinedHoldsEachFile | list_generator.py:264-270 | every input file's full content followed by a newline appears in the compiled text, in input order |
| OutputCompiler.CopyStream | list_generator.py:267-268 | copying an open file line by line from its cursor writes the rest of its lines |
| OutputCompiler.CopyLines | list_generator.py:266-268 | copying an input file line by line writes exactly its content |
| OutputCompiler.Compile | list_generator.py:250-273 | the result is skipped or succeeded; it is skipped exactly when the output exists and is a directory or overwrite is off, and then nothing changes; otherwise the output holds the header, a newline, then each input file's content plus a newline |
| OutputCompiler.CompileFiles | list_generator.py:250-273 | the method's status and the new disk are exactly `Compile` of the old disk |

## Left out

- **main and the CLI.** `main`, `get_opts`, `get_files` and `get_files_sorted` (`list_generator.py:40-144`, `185-209`, `275` onwards) are not modelled. They parse the command line, walk directories, create the output directory and choose which formats to build. The model takes the list of input paths and the options as parameters. Only the option values that `main` builds are checked, by `Renderer.GeneratorFormats`.
- **Overwrite flag.** The global `opts.overwrite` read by `try_write_to_path` and `compile_files` is a parameter `overwrite`.
- **Warnings and prints.** `warnings.warn` and `print` calls are left out. The model reports the outcome as a `Status` value instead.
- **JSON parser.** `json.loads` is a parameter. Its exception is modelled as an error outcome that ends the current file's writing, and the error propagates out of `write_formatted_lines_to_file` as in the source. The exception's type and message are not modelled.
- **Buffering.** Text written to an open output file reaches the `Disk` when the file is closed. Buffering, flushing and mid-write I/O failures are not modelled.
- **Paths.** Paths are plain keys of a map. Symbolic links, missing parent directories, permissions and encodings are not modelled. A node that exists but is neither a file nor a directory is `Other`.
- **Output among the inputs.** When an output path is also one of the input paths, the model reads it as the emptied file, as the source does after `open(path, "x")`. Interleaving with the buffered writes is not modelled.
- PyStr.Lower: lowers ASCII letters only. Python's full Unicode case mapping is not modelled. `PyStr.RStripSpace` uses Python's whitespace set for `str.strip()`.
- **Empty prefixes.** `GetLineList.GetLineList` and `LegacyLineList.LegacyGetLineList` require non-empty header and comment prefixes. With an empty prefix, the `""` read at the end of the file starts with it and the source loops forever. The generator always passes the non-empty defaults.
- **Renderer.FormatLine** is the intended `format_line`, with the template read from `line_format`. The writing functions use it. `format_line` as written is `Renderer.FormatLineAsWritten`, which raises on every entry line (see Findings).
- **Decoding and newlines.** A file's content is taken as already decoded, newline-translated text. The source opens its files in text mode (`list_generator.py:218`, `266`), where UTF-8 decoding happens and `"\r\n"` becomes `"\n"`. `SplitLines` splits only at `'\n'`, so content with carriage returns must be translated before it is given to the model.
- PyStr.ReplaceAll: replacing all occurrences has no general contract. Only the cases the generator meets are proved: no occurrence, an occurrence at the start, a single occurrence whose first character appears nowhere else, and a trailing character outside the pattern.
- **Stream positions.** `Stream` positions are line indices, not byte offsets. `seek` only ever returns to a position that `tell` reported.

Behaviours of the code that are easy to miss, which the model follows as written:

- **Rejected directive.** A `domains=` argument that the JSON parser rejects raises out of the reader and ends the writing of the current output; it is not confined to that line.
- **Blank lines before the body.** The current and the previous reader keep blank lines read before the body in the header, so they are written out again.
- **Hosts-mode stripping.** Hosts mode strips spaces and dots from both ends of an entry, not only leading ones.
- **Sort key.** The key trims only spaces, `.` and `/`, and the oldest reader trims only spaces and `.`. The key of an entry therefore keeps its trailing newline.

## Findings

| source | as written | input that shows it | evidently intended | confidence | as-written member | corrected member |
|---|---|---|---|---|---|---|
| list_generator.py:182 | the template is read from `format_options.format`, an attribute `FormatOptions` does not declare | any entry line, e.g. `example.com\n` under the hosts format: `AttributeError` | read the template from `format_options.line_format` | high, not executed | Renderer.HostsEntryRaisesAsWritten | Renderer.EntryFilled |
| getLineList.py:51-63 | the empty default and the pair input set `headerlines`, but the return reads `headerLines` (likewise `__getLineList__.py:52-64`) | `getSortedLineList(([], []))`: `UnboundLocalError` | return the header lines that were set for every kind of input | high, not executed | LegacyLineList.LegacyGetSortedLineList | LegacyLineList.FixedGetSortedLineList |
