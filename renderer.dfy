/** `format_line` of `list_generator.py`: one line of a block list rendered for a
    target engine.  Header and comment lines are translated, blank lines pass
    through, hosts-mode entries naming a path are commented out, and every other
    entry gets the URL prefix and suffix the format asks for and is placed into the
    line template. */
module Renderer {
  import opened PyStr
  import GetLineList

  /** `FormatOptions`; `lineFormat` is the template, in which `{url}` stands for the entry. */
  datatype FormatOptions = FormatOptions(
    lineFormat: string,
    engine: string,
    headerPrefix: string,
    commentPrefix: string,
    commentReplacement: string,
    applyPrefix: bool,
    linePrefix: string,
    applySuffix: bool,
    lineSuffix: string,
    hostsMode: bool)

  /** `FormatOptions(line_format, engine)` with every other field at its default. */
  function Options(lineFormat: string, engine: string): FormatOptions {
    FormatOptions(lineFormat, engine, "! //", "!", "!", false, "", false, "", false)
  }

  /** The three formats the generator builds besides the uBlock Origin ones. */
  const UBlacklist := Options("*://*{url}*", "uBlacklist").(commentReplacement := "#",
    applyPrefix := true, linePrefix := ".", applySuffix := true, lineSuffix := "/")
  const Hosts := Options("0.0.0.0 {url}", "hosts").(commentReplacement := "#", hostsMode := true)
  const HostsWww := Options("0.0.0.0 www{url}", "hosts-www").(commentReplacement := "#",
    applyPrefix := true, linePrefix := ".", hostsMode := true)

  const EnginePlaceholder := "{engine}"
  const UrlPlaceholder := "{url}"
  /** What hosts mode trims from both ends of an entry. */
  const HostsTrim: set<char> := {' ', '.'}
  /** What hosts mode puts in front of an entry it cannot express. */
  const HostsCommentOut := "#       "

  predicate IsCommentLine(line: string, o: FormatOptions) {
    StartsWith(line, o.headerPrefix) || StartsWith(line, o.commentPrefix)
  }

  /** A header or comment line for the engine: `{engine}` filled in, then the first
      comment marker replaced by the engine's. */
  function TranslateComment(line: string, o: FormatOptions): string {
    ReplaceFirst(ReplaceAll(line, EnginePlaceholder, o.engine), o.commentPrefix, o.commentReplacement)
  }

  /** The entry after hosts-mode trimming. */
  function HostsEntry(line: string, o: FormatOptions): string {
    if o.hostsMode then StripChars(line, HostsTrim) else line
  }

  /** The entry with the prefix and suffix the format asks for, each added only when
      it is not already there; asking for the suffix also normalises the line end. */
  function Affixed(line: string, o: FormatOptions): string {
    var prefixed := if o.applyPrefix && !StartsWith(line, o.linePrefix) then o.linePrefix + line else line;
    if o.applySuffix then
      var t := RStripSpace(prefixed);
      (if EndsWith(t, o.lineSuffix) then t else t + o.lineSuffix) + "\n"
    else prefixed
  }

  /** The text that replaces `{url}`: the affixed entry without trailing whitespace. */
  function Url(line: string, o: FormatOptions): string {
    RStripSpace(Affixed(line, o))
  }

  /** The template, its line end normalised to one newline, with every `{url}`
      replaced by `url`. */
  function Fill(template: string, url: string): string {
    ReplaceAll(RStripSpace(template) + "\n", UrlPlaceholder, url)
  }

  /** The line reaches the template: it is neither a header or comment line, nor
      blank, nor a hosts-mode entry naming a path. */
  predicate ReachesTemplate(line: string, o: FormatOptions) {
    !IsCommentLine(line, o) && RStripSpace(line) != "" &&
    !(o.hostsMode && Contains(HostsEntry(line, o), "/"))
  }

  /** `format_line` with the template read from `line_format`. */
  function FormatLine(line: string, o: FormatOptions): string {
    if IsCommentLine(line, o) then TranslateComment(line, o)
    else if RStripSpace(line) == "" then line
    else
      var h := HostsEntry(line, o);
      if o.hostsMode && Contains(h, "/") then HostsCommentOut + h
      else Fill(o.lineFormat, Url(h, o))
  }

  /** What `format_line` as written returns, or the `AttributeError` it raises. */
  datatype Rendered = Text(text: string) | MissingFormatAttribute

  /** `format_line` as written: the last step reads `format_options.format`, a field
      `FormatOptions` does not have, so every line that reaches the template raises. */
  function FormatLineAsWritten(line: string, o: FormatOptions): (r: Rendered)
    ensures r.MissingFormatAttribute? <==> ReachesTemplate(line, o)
    ensures r.Text? ==> r.text == FormatLine(line, o)
  {
    if IsCommentLine(line, o) then Text(TranslateComment(line, o))
    else if RStripSpace(line) == "" then Text(line)
    else
      var h := HostsEntry(line, o);
      if o.hostsMode && Contains(h, "/") then Text(HostsCommentOut + h)
      else MissingFormatAttribute
  }

  /** As written, every plain hosts entry raises; with the field the dataclass has,
      it becomes a hosts line. */
  lemma HostsEntryRaisesAsWritten(e: string, o: FormatOptions)
    requires PlainDomain(e) && HostsFormat(o, "0.0.0.0 ", "") && !o.applyPrefix
    ensures FormatLineAsWritten(e + "\n", o) == MissingFormatAttribute
    ensures FormatLine(e + "\n", o) == "0.0.0.0 " + e + "" + "\n"
  {
    HostsDomain(e, e + "\n", o, "0.0.0.0 ", "");
  }

  // Header and comment lines.

  /** A comment line without `{engine}` keeps everything after its marker, behind the
      engine's marker; the template plays no part. */
  lemma CommentMarkerReplaced(line: string, o: FormatOptions, template: string)
    requires StartsWith(line, o.commentPrefix) && '{' !in line
    ensures FormatLine(line, o) == o.commentReplacement + line[|o.commentPrefix|..]
    ensures FormatLine(line, o.(lineFormat := template)) == FormatLine(line, o)
  {
    AbsentFirstChar(line, EnginePlaceholder);
    ReplaceAllAbsent(line, EnginePlaceholder, o.engine);
    ReplaceFirstAtStart(line, o.commentPrefix, o.commentReplacement);
  }

  /** Header and comment lines are translated and nothing else happens to them. */
  lemma CommentLineTranslated(line: string, o: FormatOptions)
    requires IsCommentLine(line, o)
    ensures FormatLine(line, o) == TranslateComment(line, o)
  {
  }

  /** Every `{engine}` in a comment naming it once is filled in. */
  lemma EngineReplaced(marker: string, a: string, b: string, engine: string)
    requires '{' !in marker + a && '{' !in b
    ensures ReplaceAll(marker + a + EnginePlaceholder + b, EnginePlaceholder, engine) == marker + (a + engine + b)
  {
    ReplaceAllSingle(marker + a, EnginePlaceholder, b, engine);
    Regroup(marker, a, engine, b);
  }

  lemma Regroup(w: string, x: string, y: string, z: string)
    ensures (w + x) + y + z == w + (x + y + z)
  {
  }

  /** `{engine}` named once in a comment gets the engine's name. */
  lemma EngineTranslated(marker: string, a: string, b: string, o: FormatOptions)
    requires marker == o.commentPrefix && '{' !in marker + a && '{' !in b
    ensures TranslateComment(marker + a + EnginePlaceholder + b, o) == o.commentReplacement + (a + o.engine + b)
  {
    EngineReplaced(marker, a, b, o.engine);
    ReplaceFirstOfPrefix(marker, a + o.engine + b, o.commentReplacement);
  }

  /** A comment line naming `{engine}` once gets the engine's name there and the
      engine's marker in front. */
  lemma EngineFilledIn(marker: string, a: string, b: string, o: FormatOptions)
    requires marker == o.commentPrefix && '{' !in marker + a && '{' !in b
    ensures FormatLine(marker + a + EnginePlaceholder + b, o) == o.commentReplacement + (a + o.engine + b)
  {
    var line := marker + a + EnginePlaceholder + b;
    assert StartsWith(line, marker) by { assert line[..|marker|] == marker; }
    CommentLineTranslated(line, o);
    EngineTranslated(marker, a, b, o);
  }

  // Blank lines and hosts mode.

  /** A line that is blank once trailing whitespace is gone, and is not a comment,
      comes back unchanged, whatever the template. */
  lemma BlankLineUnchanged(line: string, o: FormatOptions)
    requires !IsCommentLine(line, o) && RStripSpace(line) == ""
    ensures FormatLine(line, o) == line
    ensures FormatLine(line, o) == FormatLine(line, o.(lineFormat := ""))
  {
  }

  /** In hosts mode an entry that names a path is commented out, trimmed, and the
      template is not used. */
  lemma HostsPathCommentedOut(line: string, o: FormatOptions)
    requires o.hostsMode && !IsCommentLine(line, o) && RStripSpace(line) != ""
    requires Contains(StripChars(line, HostsTrim), "/")
    ensures FormatLine(line, o) == HostsCommentOut + StripChars(line, HostsTrim)
    ensures StartsWith(FormatLine(line, o), "#")
  {
  }

  // Prefix and suffix.

  /** The same settings as a line configuration of the current reader, whose entry
      normalisation runs the same prefix and suffix steps. */
  function AffixConfig(o: FormatOptions): GetLineList.LineConfig {
    GetLineList.DefaultConfig.(urlPrefix := o.linePrefix, applyUrlPrefix := o.applyPrefix,
                               urlSuffix := o.lineSuffix, applyUrlSuffix := o.applySuffix)
  }

  /** The URL starts with the prefix the format asks for, and an entry that already
      has the prefix gets no second one. */
  lemma UrlPrefix(line: string, o: FormatOptions)
    ensures NoTrailingSpace(Url(line, o))
    ensures o.applyPrefix && NoTrailingSpace(o.linePrefix) ==> StartsWith(Url(line, o), o.linePrefix)
    ensures o.applyPrefix && StartsWith(line, o.linePrefix) && !o.applySuffix ==> Url(line, o) == RStripSpace(line)
  {
    var p, q := o.linePrefix, o.lineSuffix;
    var prefixed := if o.applyPrefix && !StartsWith(line, p) then p + line else line;
    if o.applyPrefix && NoTrailingSpace(p) {
      GetLineList.PrefixSurvives(line, p, prefixed);
      if o.applySuffix {
        var t := RStripSpace(prefixed);
        RStripKeepsPrefix(prefixed, p);
        GetLineList.SuffixKeepsPrefix(t, p, q, Affixed(line, o));
      }
      RStripKeepsPrefix(Affixed(line, o), p);
    }
  }

  /** The URL ends with the suffix the format asks for. */
  lemma UrlSuffix(line: string, o: FormatOptions)
    requires o.applySuffix && NoTrailingSpace(o.lineSuffix)
    ensures EndsWith(Url(line, o), o.lineSuffix)
  {
    var q := o.lineSuffix;
    var prefixed := if o.applyPrefix && !StartsWith(line, o.linePrefix) then o.linePrefix + line else line;
    var t := RStripSpace(prefixed);
    var u := if EndsWith(t, q) then t else t + q;
    assert Affixed(line, o) == u + "\n";
    GetLineList.SuffixAppended(t, q, u);
    RStripNewline(u);
  }

  /** Prefix and suffix enforcement is idempotent: the URL, treated as an entry again,
      gives itself. */
  lemma UrlIdempotent(line: string, o: FormatOptions)
    requires NoTrailingSpace(o.linePrefix) && NoTrailingSpace(o.lineSuffix)
    ensures Url(Url(line, o), o) == Url(line, o)
  {
    var u := Url(line, o);
    UrlPrefix(line, o);
    RStripNoTrailingSpace(u);
    if o.applySuffix {
      UrlSuffix(line, o);
      assert Affixed(u, o) == u + "\n";
      RStripNewline(u);
    }
  }

  // The template.

  /** The filled template always ends in a newline: the placeholder cannot reach it. */
  lemma FillEndsInNewline(template: string, url: string)
    ensures Fill(template, url) == ReplaceAll(RStripSpace(template), UrlPlaceholder, url) + "\n"
  {
    ReplaceAllSnoc(RStripSpace(template), UrlPlaceholder, url, '\n');
  }

  /** A template without `{url}` comes back as it is, with one newline at the end. */
  lemma FillWithoutPlaceholder(template: string, url: string)
    requires !Contains(template, UrlPlaceholder)
    ensures Fill(template, url) == RStripSpace(template) + "\n"
  {
    var t := RStripSpace(template);
    if Find(t, UrlPlaceholder).Some? {
      var k := Find(t, UrlPlaceholder).value;
      assert template[k..k + |UrlPlaceholder|] == t[k..k + |UrlPlaceholder|];
      assert OccursAt(template, UrlPlaceholder, k);
      assert false;
    }
    ReplaceAllAbsent(t, UrlPlaceholder, url);
    FillEndsInNewline(template, url);
  }

  /** A template holding `{url}` once, with no other `{` and no trailing whitespace,
      puts the URL in its place. */
  lemma FillSingle(a: string, b: string, url: string)
    requires '{' !in a && '{' !in b && NoTrailingSpace(b)
    ensures Fill(a + UrlPlaceholder + b, url) == a + url + b + "\n"
  {
    var t := a + UrlPlaceholder + b;
    assert NoTrailingSpace(t) by {
      if b == [] { assert t[|t| - 1] == '}'; } else { assert t[|t| - 1] == b[|b| - 1]; }
    }
    RStripNoTrailingSpace(t);
    FillEndsInNewline(t, url);
    ReplaceAllSingle(a, UrlPlaceholder, b, url);
  }

  /** An entry that reaches a single-placeholder template becomes the template with
      the entry's URL in place of `{url}`: prefixed and suffixed as asked, and ending
      in exactly one newline. */
  lemma EntryFilled(line: string, o: FormatOptions, a: string, b: string)
    requires ReachesTemplate(line, o)
    requires o.lineFormat == a + UrlPlaceholder + b && '{' !in a && '{' !in b && NoTrailingSpace(b)
    ensures var u := Url(HostsEntry(line, o), o);
            FormatLine(line, o) == a + u + b + "\n" && NoTrailingSpace(u) &&
            (o.applyPrefix && NoTrailingSpace(o.linePrefix) ==> StartsWith(u, o.linePrefix)) &&
            (o.applySuffix && NoTrailingSpace(o.lineSuffix) ==> EndsWith(u, o.lineSuffix))
  {
    UrlPrefix(HostsEntry(line, o), o);
    if o.applySuffix && NoTrailingSpace(o.lineSuffix) {
      UrlSuffix(HostsEntry(line, o), o);
    }
    FillSingle(a, b, Url(HostsEntry(line, o), o));
  }

  // The generator's own formats.

  /** An occurrence found anywhere makes `in` true. */
  lemma ContainsAt(s: string, p: string, k: nat)
    requires OccursAt(s, p, k)
    ensures Contains(s, p)
  {
  }

  /** A string cannot start with a pattern whose first character differs from its own. */
  lemma FirstCharDiffers(s: string, p: string)
    requires |s| > 0 && |p| > 0 && s[0] != p[0]
    ensures !StartsWith(s, p)
  {
    if |p| <= |s| {
      assert s[..|p|][0] == s[0];
    }
  }

  /** A line whose first character is not `!` is not a header or comment line under
      the default markers. */
  lemma NotMarked(line: string, o: FormatOptions)
    requires o.headerPrefix == "! //" && o.commentPrefix == "!" && |line| > 0 && line[0] != '!'
    ensures !IsCommentLine(line, o)
  {
    assert o.headerPrefix[0] == '!' && o.commentPrefix[0] == '!';
    FirstCharDiffers(line, o.headerPrefix);
    FirstCharDiffers(line, o.commentPrefix);
  }

  /** A bare domain as the lists hold it: not starting like a comment, a dot or a
      space, without a path, and without trailing whitespace. */
  predicate PlainDomain(e: string) {
    |e| > 0 && e[0] !in {'!', '.', ' '} && '/' !in e && e[|e| - 1] !in Whitespace
  }

  /** A plain domain's line starts with none of the markers and is not blank. */
  lemma PlainDomainLine(e: string, o: FormatOptions)
    requires PlainDomain(e) && o.headerPrefix == "! //" && o.commentPrefix == "!"
    ensures !IsCommentLine(e + "\n", o) && RStripSpace(e + "\n") == e && e != ""
    ensures !StartsWith(e + "\n", ".")
  {
    var line := e + "\n";
    assert line[0] == e[0];
    NotMarked(line, o);
    FirstCharDiffers(line, ".");
    RStripNewline(e);
  }

  /** Options that read the default markers, leave a line's start alone and
      enforce the suffix `q` with a template holding `{url}` once, between `a` and `b`. */
  predicate SuffixingFormat(o: FormatOptions, a: string, b: string) {
    o.headerPrefix == "! //" && o.commentPrefix == "!" && !o.hostsMode &&
    o.applyPrefix && o.linePrefix == "." && o.applySuffix && o.lineSuffix == "/" &&
    o.lineFormat == a + UrlPlaceholder + b && '{' !in a && '{' !in b && NoTrailingSpace(b)
  }

  /** The URL of a plain domain under such options: the dot and the slash added. */
  lemma DottedSlashedUrl(e: string, o: FormatOptions)
    requires PlainDomain(e) && o.applyPrefix && o.linePrefix == "." && o.applySuffix && o.lineSuffix == "/"
    ensures Url(e + "\n", o) == "." + e + "/"
  {
    var line := e + "\n";
    assert line[0] == e[0];
    FirstCharDiffers(line, ".");
    var t := "." + e;
    assert "." + line == t + "\n";
    RStripNewline(t);
    assert !EndsWith(t, "/") by { assert t[|t| - 1] == e[|e| - 1]; }
    assert Affixed(line, o) == t + "/" + "\n";
    RStripNewline(t + "/");
  }

  /** A plain domain is placed into the template with a dot before it and a slash
      after it, as uBlacklist's wildcard pattern needs. */
  lemma DottedSlashedDomain(e: string, o: FormatOptions, a: string, b: string)
    requires PlainDomain(e) && SuffixingFormat(o, a, b)
    ensures FormatLine(e + "\n", o) == a + ("." + e + "/") + b + "\n"
  {
    PlainDomainLine(e, o);
    DottedSlashedUrl(e, o);
    EntryFilled(e + "\n", o, a, b);
  }

  /** Hosts mode trims a plain domain's leading dots. */
  lemma HostsTrimsDots(e: string, line: string)
    requires PlainDomain(e) && (line == e + "\n" || line == "." + e + "\n")
    ensures StripChars(line, HostsTrim) == e + "\n" && !Contains(e + "\n", "/")
  {
    var k := if line == e + "\n" then 0 else 1;
    assert line[k..] == e + "\n";
    assert LeadingEnd(line, HostsTrim, k) == k;
    assert LeadingEnd(line, HostsTrim, 0) == k;
    assert TrailingStart(line[k..], HostsTrim, |line[k..]|) == |line[k..]|;
    AbsentFirstChar(e + "\n", "/");
  }

  /** Hosts-mode options with the default markers, no suffix, and a template
      holding `{url}` once, between `a` and `b`. */
  predicate HostsFormat(o: FormatOptions, a: string, b: string) {
    o.headerPrefix == "! //" && o.commentPrefix == "!" && o.hostsMode && !o.applySuffix &&
    o.lineFormat == a + UrlPlaceholder + b && '{' !in a && '{' !in b && NoTrailingSpace(b)
  }

  /** In hosts mode, a plain domain's line, with or without a leading dot, reaches
      the template as the domain alone. */
  lemma HostsDomainReaches(e: string, line: string, o: FormatOptions)
    requires PlainDomain(e) && (line == e + "\n" || line == "." + e + "\n")
    requires o.hostsMode && o.headerPrefix == "! //" && o.commentPrefix == "!"
    ensures ReachesTemplate(line, o) && HostsEntry(line, o) == e + "\n"
  {
    HostsTrimsDots(e, line);
    assert line[0] == '.' || line[0] == e[0];
    NotMarked(line, o);
    assert RStripSpace(line) != "" by {
      if line == e + "\n" {
        RStripNewline(e);
      } else {
        assert line == ("." + e) + "\n";
        RStripNewline("." + e);
      }
    }
  }

  /** The hosts-mode URL of a plain domain: the domain, behind a dot when the
      format enforces that prefix. */
  lemma HostsUrl(e: string, o: FormatOptions)
    requires PlainDomain(e) && !o.applySuffix && (o.applyPrefix ==> o.linePrefix == ".")
    ensures Url(e + "\n", o) == if o.applyPrefix then "." + e else e
  {
    var h := e + "\n";
    RStripNewline(e);
    assert h[0] == e[0];
    FirstCharDiffers(h, ".");
    if o.applyPrefix {
      assert Affixed(h, o) == ("." + e) + "\n";
      RStripNewline("." + e);
    }
  }

  /** A hosts format turns a plain domain, with or without a leading dot, into the
      template with the domain in place of `{url}` (`0.0.0.0 example.com`), behind
      the dot when the format enforces it (`0.0.0.0 www.example.com`). */
  lemma HostsDomain(e: string, line: string, o: FormatOptions, a: string, b: string)
    requires PlainDomain(e) && (line == e + "\n" || line == "." + e + "\n")
    requires HostsFormat(o, a, b) && (o.applyPrefix ==> o.linePrefix == ".")
    ensures ReachesTemplate(line, o)
    ensures FormatLine(line, o) == a + (if o.applyPrefix then "." + e else e) + b + "\n"
  {
    HostsDomainReaches(e, line, o);
    HostsUrl(e, o);
    EntryFilled(line, o, a, b);
  }

  /** The generator's formats are of the shapes above. */
  lemma GeneratorFormats()
    ensures SuffixingFormat(UBlacklist, "*://*", "*")
    ensures HostsFormat(Hosts, "0.0.0.0 ", "") && !Hosts.applyPrefix
    ensures HostsFormat(HostsWww, "0.0.0.0 www", "") && HostsWww.applyPrefix && HostsWww.linePrefix == "."
  {
  }
}
