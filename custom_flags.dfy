/** The custom-flag script: every `.svg` file of the custom-flag directory
    becomes a three-size flag component in the flags directory, the flags
    index gains one export line per component, and a GB flag is copied from
    the globe flag when there is none. The file system is a value the script
    reads and returns changed. */
module CustomFlags {
  import opened JsString
  import opened SvgRewrite

  // ---------------------------------------------------------------------------
  // The file system as the script sees it
  // ---------------------------------------------------------------------------

  /** `listing` is what `readdirSync` returns for the custom-flag directory, in
      its order; `custom` holds the files of that directory that can be read,
      with their text; `outputs` the files of the flags directory other than
      `index.ts`; `index` the text of `index.ts` if it exists; `writeFails`
      the names in the flags directory whose write throws. */
  datatype Disk = Disk(
    customDirExists: bool,
    outputDirExists: bool,
    listing: seq<string>,
    custom: map<string, string>,
    outputs: map<string, string>,
    index: Optional<string>,
    writeFails: set<string>)

  /** How the script ends: after its last statement, at `process.exit`, or at
      an exception nothing catches. */
  datatype Status = Completed | Exited(code: int) | Crashed

  datatype Outcome = Outcome(disk: Disk, status: Status)

  /** The record `addedFlags` keeps per generated component. */
  datatype AddedFlag = AddedFlag(code: string, sanitizedCode: string)

  // ---------------------------------------------------------------------------
  // File names and codes
  // ---------------------------------------------------------------------------

  /** `file.endsWith('.svg')`, case-sensitive. */
  predicate HasSvgSuffix(f: string) {
    |f| >= 4 && f[|f| - 4..] == ".svg"
  }

  /** `customFlagFiles`: the `.svg` entries of the listing, in listing order. */
  function SvgFiles(listing: seq<string>): (r: seq<string>)
    ensures forall f :: f in r <==> f in listing && HasSvgSuffix(f)
    ensures |r| <= |listing|
  {
    if listing == [] then []
    else
      var init := listing[..|listing| - 1];
      var last := listing[|listing| - 1];
      assert listing == init + [last];
      SvgFiles(init) + (if HasSvgSuffix(last) then [last] else [])
  }

  /** The filter keeps the listing's order: the files of two runs of entries
      are those of each run, in order. */
  lemma {:induction false} SvgFilesAppend(a: seq<string>, b: seq<string>)
    ensures SvgFiles(a + b) == SvgFiles(a) + SvgFiles(b)
    decreases |b|
  {
    if b == [] {
      assert a + b == a;
    } else {
      var init := b[..|b| - 1];
      var last := b[|b| - 1];
      assert (a + b)[..|a + b| - 1] == a + init;
      assert (a + b)[|a + b| - 1] == last;
      SvgFilesAppend(a, init);
    }
  }

  /** One entry is kept exactly when it ends in `.svg`. */
  lemma SvgFilesOfOne(f: string)
    ensures SvgFiles([f]) == (if HasSvgSuffix(f) then [f] else [])
  {
    assert [f][..0] == [];
  }

  /** `path.basename(filename, '.svg')` for a directory entry, which holds no
      `/`: the suffix is cut off when present; the name that is only the
      suffix gives "". */
  function CodeOf(f: string): string {
    if HasSvgSuffix(f) then f[..|f| - 4] else f
  }

  /** The code and the suffix give back the file name. */
  lemma CodeRoundTrip(f: string)
    requires HasSvgSuffix(f)
    ensures CodeOf(f) + ".svg" == f
    ensures |CodeOf(f)| == |f| - 4
  {
    assert f == f[..|f| - 4] + f[|f| - 4..];
  }

  /** The characters `/[-\s.]/` matches. */
  predicate IsSeparator(c: char) {
    c == '-' || c == '.' || IsWhitespace(c)
  }

  /** `code.replace(/[-\s.]/g, '_')`. */
  function Sanitize(code: string): (r: string)
    ensures |r| == |code|
  {
    seq(|code|, i requires 0 <= i < |code| => if IsSeparator(code[i]) then '_' else code[i])
  }

  /** Every separator becomes an underscore and every other character stays:
      the result has no separator, and in particular no line break. */
  lemma SanitizeSpec(code: string)
    ensures forall i | 0 <= i < |code| :: IsSeparator(code[i]) ==> Sanitize(code)[i] == '_'
    ensures forall i | 0 <= i < |code| :: !IsSeparator(code[i]) ==> Sanitize(code)[i] == code[i]
    ensures forall i | 0 <= i < |code| :: !IsSeparator(Sanitize(code)[i])
    ensures '\n' !in Sanitize(code)
  {
    var r := Sanitize(code);
    assert forall i | 0 <= i < |r| :: !IsSeparator(r[i]);
  }

  /** A code is left as it is exactly when it has no separator. */
  lemma SanitizeFixedPoints(code: string)
    ensures Sanitize(code) == code <==> forall i | 0 <= i < |code| :: !IsSeparator(code[i])
  {
    if Sanitize(code) == code {
      forall i | 0 <= i < |code| ensures !IsSeparator(code[i]) {
        assert Sanitize(code)[i] == code[i];
      }
    }
  }

  lemma SanitizeIdempotent(code: string)
    ensures Sanitize(Sanitize(code)) == Sanitize(code)
  {
    SanitizeSpec(code);
    SanitizeFixedPoints(Sanitize(code));
  }

  /** Different codes can share a sanitized name: "a-b", "a.b", "a b" and
      "a_b" all give "a_b". */
  lemma SanitizeCollides(x: string, y: string, z: string, w: string)
    requires x == "a-b" && y == "a.b" && z == "a b" && w == "a_b"
    ensures Sanitize(x) == w && Sanitize(y) == w && Sanitize(z) == w && Sanitize(w) == w
  {
  }

  /** A character that may follow the first one of an ASCII identifier. */
  predicate IsAsciiIdentifierPart(c: char) {
    ('a' <= c <= 'z') || ('A' <= c <= 'Z') || ('0' <= c <= '9') || c == '_' || c == '$'
  }

  /** Text made only of ASCII identifier characters. ECMAScript identifiers
      also admit other Unicode ID_Continue characters, which are not modelled. */
  predicate AsciiIdentifierText(s: string) {
    forall i | 0 <= i < |s| :: IsAsciiIdentifierPart(s[i])
  }

  /** The sanitized code is ASCII identifier text exactly when every character
      of the code is a separator or already such a character: the replacement
      does nothing about any other character. */
  lemma SanitizedIdentifierExactly(code: string)
    ensures AsciiIdentifierText(Sanitize(code))
        <==> forall i | 0 <= i < |code| :: IsSeparator(code[i]) || IsAsciiIdentifierPart(code[i])
  {
    SanitizeSpec(code);
    if AsciiIdentifierText(Sanitize(code)) {
      forall i | 0 <= i < |code| ensures IsSeparator(code[i]) || IsAsciiIdentifierPart(code[i]) {
        assert IsAsciiIdentifierPart(Sanitize(code)[i]);
      }
    }
  }

  /** A file "001 (1).svg", as a download manager names a second copy, gives
      the sanitized code "001_(1)", whose parenthesis cannot be part of the
      component's identifiers. */
  lemma SanitizedCodeNotIdentifier(code: string, sanitized: string)
    requires code == "001 (1)" && sanitized == "001_(1)"
    ensures Sanitize(code) == sanitized
    ensures !AsciiIdentifierText(sanitized)
  {
    assert !IsAsciiIdentifierPart(sanitized[4]);
  }

  // ---------------------------------------------------------------------------
  // Generated text
  // ---------------------------------------------------------------------------

  /** `Flag${sanitizedCode}.ts`. */
  function ComponentFile(sanitized: string): string {
    "Flag" + sanitized + ".ts"
  }

  /** No component can overwrite the index. */
  lemma ComponentIsNotIndex(sanitized: string)
    ensures ComponentFile(sanitized) != "index.ts"
  {
    assert ComponentFile(sanitized)[0] == 'F';
  }

  /** Component files have one name per sanitized code. */
  lemma ComponentFileInjective(a: string, b: string)
    ensures ComponentFile(a) == ComponentFile(b) <==> a == b
  {
    if ComponentFile(a) == ComponentFile(b) {
      assert a == ComponentFile(a)[4..|ComponentFile(a)| - 3];
      assert b == ComponentFile(b)[4..|ComponentFile(b)| - 3];
    }
  }

  /** The component module up to the opening backtick of `svgSmall`. */
  const ComponentHeader := "import createFlagComponent from '../createFlagComponent';\n\nconst svgSmall = `"

  const MediumOpening := ";\n\nconst svgMedium = `"
  const LargeOpening := ";\n\nconst svgLarge = `"

  /** The three exports and the default export of a component module. */
  function ComponentExports(code: string, sanitized: string): string {
    ";\n\nexport const Flag" + sanitized + "Small = createFlagComponent('" + code + "', 'small', svgSmall);\n"
    + "export const Flag" + sanitized + "Medium = createFlagComponent('" + code + "', 'medium', svgMedium);\n"
    + "export const Flag" + sanitized + "Large = createFlagComponent('" + code + "', 'large', svgLarge);\n\n"
    + "export default Flag" + sanitized + "Medium;\n"
  }

  /** `componentCode`: the three escaped variants in template literals, then
      the exports. */
  function ComponentSource(code: string, sanitized: string, small: string, medium: string, large: string): string {
    ComponentHeader + (small + ("`" + (MediumOpening + (medium + ("`" + (LargeOpening + (large + ("`" + ComponentExports(code, sanitized)))))))))
  }

  /** A flag's component module, from the raw text of its SVG file: declarations
      stripped and trimmed once, then the same content rewritten per size. */
  function FlagComponent(code: string, sanitized: string, raw: string): string {
    var svg := CleanSvg(raw);
    ComponentSource(code, sanitized, ProcessSvgForSize(svg, Small), ProcessSvgForSize(svg, Medium), ProcessSvgForSize(svg, Large))
  }

  /** The SVG of a size variant, ids and references renamed. */
  function Renamed(svg: string, size: Size): string {
    SuffixUrls(SuffixIds(svg, size), size)
  }

  /** An escaped variant inside backticks evaluates to the renamed SVG, with
      its line ends normalised. */
  lemma VariantReadsBack(svg: string, size: Size, rest: string)
    ensures ReadTemplate(ProcessSvgForSize(svg, size) + ("`" + rest))
         == Defined(TemplateRead(NormalizeLineEnds(Renamed(svg, size)), rest))
  {
    PassesAreOneEscape(Renamed(svg, size));
    TemplateRoundTrip(Renamed(svg, size), rest);
  }

  /** In the generated module, each of the three template literals evaluates
      to the cleaned SVG renamed for its size, line ends normalised, and each
      literal ends where the next declaration begins. */
  lemma ComponentHoldsThreeVariants(code: string, sanitized: string, raw: string)
    ensures var src := FlagComponent(code, sanitized, raw);
      var svg := CleanSvg(raw);
      var afterLarge := ComponentExports(code, sanitized);
      var afterMedium := LargeOpening + (ProcessSvgForSize(svg, Large) + ("`" + afterLarge));
      var afterSmall := MediumOpening + (ProcessSvgForSize(svg, Medium) + ("`" + afterMedium));
      && ComponentHeader <= src
      && ReadTemplate(src[|ComponentHeader|..]) == Defined(TemplateRead(NormalizeLineEnds(Renamed(svg, Small)), afterSmall))
      && ReadTemplate(afterSmall[|MediumOpening|..]) == Defined(TemplateRead(NormalizeLineEnds(Renamed(svg, Medium)), afterMedium))
      && ReadTemplate(afterMedium[|LargeOpening|..]) == Defined(TemplateRead(NormalizeLineEnds(Renamed(svg, Large)), afterLarge))
  {
    var svg := CleanSvg(raw);
    var afterLarge := ComponentExports(code, sanitized);
    var afterMedium := LargeOpening + (ProcessSvgForSize(svg, Large) + ("`" + afterLarge));
    var afterSmall := MediumOpening + (ProcessSvgForSize(svg, Medium) + ("`" + afterMedium));
    var src := FlagComponent(code, sanitized, raw);
    assert src == ComponentHeader + (ProcessSvgForSize(svg, Small) + ("`" + afterSmall));
    VariantReadsBack(svg, Small, afterSmall);
    VariantReadsBack(svg, Medium, afterMedium);
    VariantReadsBack(svg, Large, afterLarge);
  }

  /** The export statement for one component, as the loop over `addedFlags`
      writes it. */
  function ExportStatement(sanitized: string): string {
    "export { Flag" + sanitized + "Small, Flag" + sanitized + "Medium, Flag" + sanitized
    + "Large, default as Flag" + sanitized + " } from './Flag" + sanitized + "';"
  }

  /** The index line for one component. */
  function ExportLine(sanitized: string): string {
    ExportStatement(sanitized) + "\n"
  }

  const CustomExportsHeader := "\n// Custom flags\n"

  /** `customExports` once the loop over `flags` has run: the header, then one
      export line per flag, in order. */
  function CustomExports(flags: seq<AddedFlag>): string {
    if flags == [] then CustomExportsHeader
    else CustomExports(flags[..|flags| - 1]) + ExportLine(flags[|flags| - 1].sanitizedCode)
  }

  function CountChar(s: string, c: char): nat {
    if s == [] then 0 else (if s[0] == c then 1 else 0) + CountChar(s[1..], c)
  }

  lemma {:induction false} CountCharAppend(a: string, b: string, c: char)
    ensures CountChar(a + b, c) == CountChar(a, c) + CountChar(b, c)
    decreases |a|
  {
    if a == [] {
      assert a + b == b;
    } else {
      assert (a + b)[1..] == a[1..] + b;
      CountCharAppend(a[1..], b, c);
    }
  }

  lemma {:induction false} CountCharAbsent(s: string, c: char)
    requires c !in s
    ensures CountChar(s, c) == 0
    decreases |s|
  {
    if s != [] {
      assert s[0] != c;
      assert forall k | 0 <= k < |s[1..]| :: s[1..][k] == s[k + 1];
      CountCharAbsent(s[1..], c);
    }
  }

  /** An export line is exactly one line when the name has no line break. */
  lemma ExportLineIsOneLine(s: string)
    requires '\n' !in s
    ensures CountChar(ExportLine(s), '\n') == 1
    ensures ExportLine(s)[|ExportLine(s)| - 1] == '\n'
  {
    CountCharAbsent(ExportStatement(s), '\n');
    CountCharAppend(ExportStatement(s), "\n", '\n');
  }

  /** A line of text between two line breaks holds two of them. */
  lemma TwoLineBreaks(nl: string, line: string)
    requires nl == ['\n'] && '\n' !in line
    ensures CountChar(nl + line + nl, '\n') == 2
  {
    CountCharAbsent(line, '\n');
    CountCharAppend(nl, line, '\n');
    CountCharAppend(nl + line, nl, '\n');
  }

  lemma HeaderLines()
    ensures CountChar(CustomExportsHeader, '\n') == 2
  {
    var nl, comment := "\n", "// Custom flags";
    assert CustomExportsHeader == nl + comment + nl;
    TwoLineBreaks(nl, comment);
  }

  /** The block is the header's two lines and one line per added flag. */
  lemma {:induction false} CustomExportsLines(flags: seq<AddedFlag>)
    requires forall k | 0 <= k < |flags| :: '\n' !in flags[k].sanitizedCode
    ensures CountChar(CustomExports(flags), '\n') == |flags| + 2
    decreases |flags|
  {
    if flags == [] {
      HeaderLines();
    } else {
      var init := flags[..|flags| - 1];
      CustomExportsLines(init);
      ExportLineIsOneLine(flags[|flags| - 1].sanitizedCode);
      CountCharAppend(CustomExports(init), ExportLine(flags[|flags| - 1].sanitizedCode), '\n');
    }
  }

  /** The block starts with its header, whatever the flags. */
  lemma {:induction false} CustomExportsStartWithHeader(flags: seq<AddedFlag>)
    ensures CustomExportsHeader <= CustomExports(flags)
    decreases |flags|
  {
    if flags != [] {
      var init := flags[..|flags| - 1];
      CustomExportsStartWithHeader(init);
      var prev := CustomExports(init);
      assert CustomExports(flags) == prev + ExportLine(flags[|flags| - 1].sanitizedCode);
      assert CustomExports(flags)[..|CustomExportsHeader|] == prev[..|CustomExportsHeader|];
    }
  }

  lemma CustomExportsSnoc(flags: seq<AddedFlag>, i: nat)
    requires i < |flags|
    ensures CustomExports(flags[..i + 1]) == CustomExports(flags[..i]) + ExportLine(flags[i].sanitizedCode)
  {
    assert flags[..i + 1][..i] == flags[..i];
  }

  /** The `+=` loop that builds `customExports` and the final append to the index. */
  method AppendCustomExports(indexContent: string, addedFlags: seq<AddedFlag>) returns (updated: string)
    ensures updated == indexContent + CustomExports(addedFlags)
  {
    var customExports := CustomExportsHeader;
    for i := 0 to |addedFlags|
      invariant customExports == CustomExports(addedFlags[..i])
    {
      CustomExportsSnoc(addedFlags, i);
      customExports := customExports + ExportLine(addedFlags[i].sanitizedCode);
    }
    assert addedFlags[..|addedFlags|] == addedFlags;
    updated := indexContent + customExports;
  }

  // ---------------------------------------------------------------------------
  // The per-file loop
  // ---------------------------------------------------------------------------

  /** A listed file gets a component: it can be read and its component can be
      written; otherwise the `catch` skips it. */
  predicate Processed(f: string, disk: Disk) {
    f in disk.custom && ComponentFile(Sanitize(CodeOf(f))) !in disk.writeFails
  }

  function FlagOf(f: string): AddedFlag {
    AddedFlag(CodeOf(f), Sanitize(CodeOf(f)))
  }

  /** `addedFlags` after the loop over `files`. */
  function Added(files: seq<string>, disk: Disk): seq<AddedFlag> {
    if files == [] then []
    else
      var last := files[|files| - 1];
      Added(files[..|files| - 1], disk) + (if Processed(last, disk) then [FlagOf(last)] else [])
  }

  /** The flags directory after the loop over `files`. */
  function Written(files: seq<string>, disk: Disk): map<string, string> {
    if files == [] then disk.outputs
    else
      var last := files[|files| - 1];
      var before := Written(files[..|files| - 1], disk);
      if Processed(last, disk) then
        before[ComponentFile(Sanitize(CodeOf(last))) := FlagComponent(CodeOf(last), Sanitize(CodeOf(last)), disk.custom[last])]
      else before
  }

  /** The loop of the script over `customFlagFiles`. */
  method ProcessCustomFlags(files: seq<string>, disk: Disk)
    returns (addedFlags: seq<AddedFlag>, addedCount: nat, outputs: map<string, string>)
    ensures addedFlags == Added(files, disk)
    ensures addedCount == |addedFlags|
    ensures outputs == Written(files, disk)
  {
    addedCount := 0;
    addedFlags := [];
    outputs := disk.outputs;
    for i := 0 to |files|
      invariant addedFlags == Added(files[..i], disk)
      invariant addedCount == |addedFlags|
      invariant outputs == Written(files[..i], disk)
    {
      var filename := files[i];
      var code := CodeOf(filename);
      assert files[..i + 1][..i] == files[..i];
      if filename in disk.custom {
        var svgContent := CleanSvg(disk.custom[filename]);
        var sanitizedCode := Sanitize(code);
        var svgSmall := ProcessSvgForSize(svgContent, Small);
        var svgMedium := ProcessSvgForSize(svgContent, Medium);
        var svgLarge := ProcessSvgForSize(svgContent, Large);
        var componentCode := ComponentSource(code, sanitizedCode, svgSmall, svgMedium, svgLarge);
        var componentPath := ComponentFile(sanitizedCode);
        if componentPath !in disk.writeFails {
          outputs := outputs[componentPath := componentCode];
          addedCount := addedCount + 1;
          addedFlags := addedFlags + [AddedFlag(code, sanitizedCode)];
        }
      }
    }
    assert files[..|files|] == files;
  }

  lemma {:induction false} AddedAppend(a: seq<string>, b: seq<string>, disk: Disk)
    ensures Added(a + b, disk) == Added(a, disk) + Added(b, disk)
    decreases |b|
  {
    if b == [] {
      assert a + b == a;
    } else {
      var init := b[..|b| - 1];
      assert (a + b)[..|a + b| - 1] == a + init;
      assert (a + b)[|a + b| - 1] == b[|b| - 1];
      AddedAppend(a, init, disk);
    }
  }

  /** `addedFlags` holds exactly the flags of the processed files. */
  lemma {:induction false} AddedSpec(files: seq<string>, disk: Disk)
    ensures |Added(files, disk)| <= |files|
    ensures forall x :: x in Added(files, disk) <==>
      exists i | 0 <= i < |files| :: Processed(files[i], disk) && x == FlagOf(files[i])
    decreases |files|
  {
    if files != [] {
      var init := files[..|files| - 1];
      var last := files[|files| - 1];
      AddedSpec(init, disk);
      forall x ensures x in Added(files, disk) <==>
        exists i | 0 <= i < |files| :: Processed(files[i], disk) && x == FlagOf(files[i])
      {
        if x in Added(files, disk) {
          if x in Added(init, disk) {
            var i :| 0 <= i < |init| && Processed(init[i], disk) && x == FlagOf(init[i]);
            assert files[i] == init[i];
          } else {
            assert Processed(files[|files| - 1], disk) && x == FlagOf(files[|files| - 1]);
          }
        }
        if exists i | 0 <= i < |files| :: Processed(files[i], disk) && x == FlagOf(files[i]) {
          var i :| 0 <= i < |files| && Processed(files[i], disk) && x == FlagOf(files[i]);
          if i < |init| {
            assert files[i] == init[i];
          }
        }
      }
    }
  }

  /** When every file can be read and written, each gets a component, in order. */
  lemma {:induction false} AllProcessedAllAdded(files: seq<string>, disk: Disk)
    requires forall i | 0 <= i < |files| :: Processed(files[i], disk)
    ensures |Added(files, disk)| == |files|
    ensures forall i | 0 <= i < |files| :: Added(files, disk)[i] == FlagOf(files[i])
    decreases |files|
  {
    if files != [] {
      var init := files[..|files| - 1];
      AllProcessedAllAdded(init, disk);
    }
  }

  /** A processed file's component holds its own text unless a later processed
      file has the same sanitized name, whose component replaces it. */
  lemma {:induction false} WrittenComponent(files: seq<string>, disk: Disk, i: nat)
    requires i < |files| && Processed(files[i], disk)
    requires forall j | i < j < |files| :: Processed(files[j], disk) ==> Sanitize(CodeOf(files[j])) != Sanitize(CodeOf(files[i]))
    ensures var f := files[i];
      && ComponentFile(Sanitize(CodeOf(f))) in Written(files, disk)
      && Written(files, disk)[ComponentFile(Sanitize(CodeOf(f)))] == FlagComponent(CodeOf(f), Sanitize(CodeOf(f)), disk.custom[f])
    decreases |files|
  {
    var init := files[..|files| - 1];
    if i < |init| {
      assert files[i] == init[i];
      WrittenComponent(init, disk, i);
      var last := files[|files| - 1];
      if Processed(last, disk) {
        ComponentFileInjective(Sanitize(CodeOf(last)), Sanitize(CodeOf(files[i])));
      }
    }
  }

  /** The loop writes nothing but component files of processed names. */
  lemma {:induction false} WrittenOnlyComponents(files: seq<string>, disk: Disk, name: string)
    requires name in Written(files, disk) && (name !in disk.outputs || Written(files, disk)[name] != disk.outputs[name])
    ensures exists i | 0 <= i < |files| :: Processed(files[i], disk) && name == ComponentFile(Sanitize(CodeOf(files[i])))
    decreases |files|
  {
    var init := files[..|files| - 1];
    var last := files[|files| - 1];
    if Processed(last, disk) && name == ComponentFile(Sanitize(CodeOf(last))) {
    } else {
      WrittenOnlyComponents(init, disk, name);
      var i :| 0 <= i < |init| && Processed(init[i], disk) && name == ComponentFile(Sanitize(CodeOf(init[i])));
      assert files[i] == init[i];
    }
  }

  /** The loop removes nothing from the flags directory: every name there
      before is still there after it. */
  lemma {:induction false} WrittenKeepsNames(files: seq<string>, disk: Disk)
    ensures disk.outputs.Keys <= Written(files, disk).Keys
    decreases |files|
  {
    if files != [] {
      WrittenKeepsNames(files[..|files| - 1], disk);
    }
  }

  /** Two listed files whose codes sanitize alike share one component file,
      and the later one's text is what it holds. */
  lemma CollidingNamesShareComponent(f: string, g: string, disk: Disk)
    requires Processed(f, disk) && Processed(g, disk)
    requires Sanitize(CodeOf(f)) == Sanitize(CodeOf(g))
    ensures ComponentFile(Sanitize(CodeOf(f))) in Written([f, g], disk)
    ensures Written([f, g], disk)[ComponentFile(Sanitize(CodeOf(f)))] == FlagComponent(CodeOf(g), Sanitize(CodeOf(g)), disk.custom[g])
  {
    assert [f, g][..1] == [f];
  }

  lemma AddedPair(f: string, g: string, disk: Disk)
    requires Processed(f, disk) && Processed(g, disk)
    ensures Added([f, g], disk) == [FlagOf(f), FlagOf(g)]
  {
    assert [f, g][..1] == [f];
    assert [f][..0] == [];
    assert Added([f], disk) == Added([], disk) + [FlagOf(f)];
    assert Added([f, g], disk) == Added([f], disk) + [FlagOf(g)];
  }

  lemma CustomExportsPair(x: AddedFlag, y: AddedFlag)
    ensures CustomExports([x, y]) == CustomExportsHeader + ExportLine(x.sanitizedCode) + ExportLine(y.sanitizedCode)
  {
    assert [x, y][..1] == [x];
    assert [x][..0] == [];
    assert CustomExports([x]) == CustomExports([]) + ExportLine(x.sanitizedCode);
    assert CustomExports([x, y]) == CustomExports([x]) + ExportLine(y.sanitizedCode);
  }

  /** Both colliding files are counted, and the index gets the same export
      line twice. */
  lemma CollidingNamesExportTwice(f: string, g: string, disk: Disk)
    requires Processed(f, disk) && Processed(g, disk)
    requires Sanitize(CodeOf(f)) == Sanitize(CodeOf(g))
    ensures Added([f, g], disk) == [FlagOf(f), FlagOf(g)]
    ensures CustomExports(Added([f, g], disk)) == CustomExportsHeader + ExportLine(Sanitize(CodeOf(f))) + ExportLine(Sanitize(CodeOf(f)))
  {
    AddedPair(f, g, disk);
    CustomExportsPair(FlagOf(f), FlagOf(g));
  }

  // ---------------------------------------------------------------------------
  // The index update and the GB copy
  // ---------------------------------------------------------------------------

  /** `index.ts` after the loop: the custom exports are appended when at least
      one flag was added and the index exists. */
  function UpdatedIndex(index: Optional<string>, addedFlags: seq<AddedFlag>): Optional<string> {
    if |addedFlags| > 0 && index.Defined? then Defined(index.value + CustomExports(addedFlags)) else index
  }

  /** The index only ever grows at its end, and only when flags were added. */
  lemma IndexOnlyGrows(index: Optional<string>, addedFlags: seq<AddedFlag>)
    ensures UpdatedIndex(index, addedFlags).Defined? <==> index.Defined?
    ensures index.Defined? ==> index.value <= UpdatedIndex(index, addedFlags).value
    ensures UpdatedIndex(index, addedFlags) != index <==> |addedFlags| > 0 && index.Defined?
  {
    if |addedFlags| > 0 && index.Defined? {
      var u := index.value + CustomExports(addedFlags);
      assert index.value == u[..|index.value|];
      assert |u| > |index.value|;
    }
  }

  /** The line the GB step appends, with no header of its own. */
  const GbExportLine := "export { FlagGBSmall, FlagGBMedium, FlagGBLarge, default as FlagGB } from './FlagGB';\n"

  lemma GbLineIsExportLine()
    ensures GbExportLine == ExportLine("GB")
  {
    GbStatement("GB");
  }

  /** The loop's export statement for "GB", assembled literal by literal in
      three steps: joining all the literals at once is beyond the solver's
      budget. */
  lemma GbStatement(s: string)
    requires s == "GB"
    ensures ExportStatement(s) == "export { FlagGBSmall, FlagGBMedium, FlagGBLarge, default as FlagGB } from './FlagGB';"
  {
    var h1 := GbStatementStart(s);
    var h2 := GbStatementMiddle(s, h1);
    GbStatementEnd(s, h2);
  }

  lemma GbStatementStart(s: string) returns (h: string)
    requires s == "GB"
    ensures h == "export { Flag" + s + "Small, Flag" + s
    ensures h == "export { FlagGBSmall, FlagGB"
  {
    var a := "export { Flag" + s;
    assert a == "export { FlagGB";
    var b := a + "Small, Flag";
    assert b == "export { FlagGBSmall, Flag";
    h := b + s;
  }

  lemma GbStatementMiddle(s: string, h: string) returns (h': string)
    requires s == "GB" && h == "export { FlagGBSmall, FlagGB"
    ensures h' == h + "Medium, Flag" + s + "Large, default as Flag" + s
    ensures h' == "export { FlagGBSmall, FlagGBMedium, FlagGBLarge, default as FlagGB"
  {
    var d := h + "Medium, Flag";
    assert d == "export { FlagGBSmall, FlagGBMedium, Flag";
    var e := d + s;
    assert e == "export { FlagGBSmall, FlagGBMedium, FlagGB";
    var f := e + "Large, default as Flag";
    assert f == "export { FlagGBSmall, FlagGBMedium, FlagGBLarge, default as Flag";
    h' := f + s;
  }

  lemma GbStatementEnd(s: string, h: string)
    requires s == "GB" && h == "export { FlagGBSmall, FlagGBMedium, FlagGBLarge, default as FlagGB"
    ensures h + " } from './Flag" + s + "';" == "export { FlagGBSmall, FlagGBMedium, FlagGBLarge, default as FlagGB } from './FlagGB';"
  {
    var g := h + " } from './Flag";
    assert g == "export { FlagGBSmall, FlagGBMedium, FlagGBLarge, default as FlagGB } from './Flag";
    var i := g + s;
    assert i == "export { FlagGBSmall, FlagGBMedium, FlagGBLarge, default as FlagGB } from './FlagGB";
  }

  /** The GB step of the script: when the custom-flag directory has 001.svg
      and no GB.svg, GB.svg is copied from 001.svg outside any `try`, so an
      unreadable 001.svg ends the script. The copy is then processed with the
      code "GB" and its export line appended to the index on its own. */
  function GbStep(d: Disk): Outcome {
    if "GB.svg" in d.listing || "001.svg" !in d.listing then Outcome(d, Completed)
    else if "001.svg" !in d.custom then Outcome(d, Crashed)
    else
      var text := d.custom["001.svg"];
      var copied := d.(listing := d.listing + ["GB.svg"], custom := d.custom["GB.svg" := text]);
      if ComponentFile("GB") in d.writeFails then Outcome(copied, Completed)
      else
        var index := if d.index.Defined? then Defined(d.index.value + GbExportLine) else d.index;
        Outcome(copied.(outputs := d.outputs[ComponentFile("GB") := FlagComponent("GB", "GB", text)], index := index), Completed)
  }

  /** The GB component is the one the loop would have made for a file GB.svg
      holding the globe flag's text. */
  lemma GbMatchesLoop(d: Disk)
    requires "001.svg" in d.custom
    ensures CodeOf("GB.svg") == "GB" && Sanitize("GB") == "GB"
    ensures FlagOf("GB.svg") == AddedFlag("GB", "GB")
    ensures FlagComponent("GB", "GB", d.custom["001.svg"])
         == FlagComponent(CodeOf("GB.svg"), Sanitize(CodeOf("GB.svg")), d.custom["001.svg"])
  {
    assert "GB.svg"[..2] == "GB";
  }

  /** What the GB step does, case by case. */
  lemma GbStepSpec(d: Disk)
    ensures var o := GbStep(d);
      && (("GB.svg" in d.listing || "001.svg" !in d.listing) ==> o == Outcome(d, Completed))
      && ("GB.svg" !in d.listing && "001.svg" in d.listing && "001.svg" !in d.custom ==> o.status == Crashed && o.disk == d)
      && ("GB.svg" !in d.listing && "001.svg" in d.custom && "001.svg" in d.listing ==>
            && o.status == Completed
            && o.disk.custom == d.custom["GB.svg" := d.custom["001.svg"]]
            && o.disk.listing == d.listing + ["GB.svg"]
            && o.disk.customDirExists == d.customDirExists && o.disk.outputDirExists == d.outputDirExists
            && o.disk.writeFails == d.writeFails
            && (ComponentFile("GB") !in d.writeFails ==>
                  && o.disk.outputs[ComponentFile("GB")] == FlagComponent("GB", "GB", d.custom["001.svg"])
                  && o.disk.outputs == d.outputs[ComponentFile("GB") := FlagComponent("GB", "GB", d.custom["001.svg"])]
                  && (d.index.Defined? ==> o.disk.index == Defined(d.index.value + ExportLine("GB")))
                  && (d.index.Undefined? ==> o.disk.index == Undefined))
            && (ComponentFile("GB") in d.writeFails ==> o.disk.outputs == d.outputs && o.disk.index == d.index))
  {
    GbLineIsExportLine();
    if "GB.svg" !in d.listing && "001.svg" in d.custom && "001.svg" in d.listing {
      var text := d.custom["001.svg"];
      var copied := d.(listing := d.listing + ["GB.svg"], custom := d.custom["GB.svg" := text]);
      if ComponentFile("GB") in d.writeFails {
        assert GbStep(d) == Outcome(copied, Completed);
      } else {
        var index := if d.index.Defined? then Defined(d.index.value + GbExportLine) else d.index;
        var outputs := d.outputs[ComponentFile("GB") := FlagComponent("GB", "GB", text)];
        assert GbStep(d) == Outcome(copied.(outputs := outputs, index := index), Completed);
      }
    }
  }

  // ---------------------------------------------------------------------------
  // The whole script
  // ---------------------------------------------------------------------------

  /** What the script leaves behind. */
  function ScriptOutcome(d: Disk): Outcome {
    if !d.customDirExists || !d.outputDirExists then Outcome(d, Exited(1))
    else
      var files := SvgFiles(d.listing);
      if |files| == 0 then Outcome(d, Exited(0))
      else
        var addedFlags := Added(files, d);
        GbStep(d.(outputs := Written(files, d), index := UpdatedIndex(d.index, addedFlags)))
  }

  /** The script, statement by statement. */
  method Run(d: Disk) returns (o: Outcome)
    ensures o == ScriptOutcome(d)
  {
    if !d.customDirExists {
      return Outcome(d, Exited(1));
    }
    if !d.outputDirExists {
      return Outcome(d, Exited(1));
    }
    var customFlagFiles := SvgFiles(d.listing);
    if |customFlagFiles| == 0 {
      return Outcome(d, Exited(0));
    }
    var addedFlags, addedCount, outputs := ProcessCustomFlags(customFlagFiles, d);
    var index := d.index;
    if addedCount > 0 && index.Defined? {
      var indexContent := AppendCustomExports(index.value, addedFlags);
      index := Defined(indexContent);
    }
    o := GbStep(d.(outputs := outputs, index := index));
  }

  /** Without both directories, or without any `.svg` file, nothing changes. */
  lemma EarlyExitsChangeNothing(d: Disk)
    ensures !d.customDirExists || !d.outputDirExists ==> ScriptOutcome(d) == Outcome(d, Exited(1))
    ensures d.customDirExists && d.outputDirExists && (forall f | f in d.listing :: !HasSvgSuffix(f))
      ==> ScriptOutcome(d) == Outcome(d, Exited(0))
  {
    if d.customDirExists && d.outputDirExists && (forall f | f in d.listing :: !HasSvgSuffix(f)) {
      var files := SvgFiles(d.listing);
      if files != [] {
        assert files[0] in d.listing;
      }
    }
  }

  /** A run that does not take the GB step leaves the index as it was plus the
      custom exports of the added flags, and the flags directory as the loop
      wrote it. */
  lemma RunWithoutGbStep(d: Disk)
    requires d.customDirExists && d.outputDirExists && SvgFiles(d.listing) != []
    requires "GB.svg" in d.listing || "001.svg" !in d.listing
    ensures var files := SvgFiles(d.listing);
      var o := ScriptOutcome(d);
      && o.status == Completed
      && o.disk.outputs == Written(files, d)
      && o.disk.index == UpdatedIndex(d.index, Added(files, d))
      && o.disk.listing == d.listing && o.disk.custom == d.custom
  {
  }

  /** With the GB step, the index gains the custom block first and the GB line
      after it: the GB line is outside the "// Custom flags" block's loop but
      lands right after it. */
  lemma RunIndexWithGbStep(d: Disk)
    requires d.customDirExists && d.outputDirExists
    requires "GB.svg" !in d.listing && "001.svg" in d.listing && "001.svg" in d.custom
    requires ComponentFile("GB") !in d.writeFails && d.index.Defined?
    ensures var files := SvgFiles(d.listing);
      var added := Added(files, d);
      var o := ScriptOutcome(d);
      && o.status == Completed
      && o.disk.index == Defined(d.index.value + (if |added| > 0 then CustomExports(added) else []) + ExportLine("GB"))
  {
    var files := SvgFiles(d.listing);
    assert "001.svg" in files by { assert HasSvgSuffix("001.svg"); }
    GbLineIsExportLine();
    if |Added(files, d)| == 0 {
      assert d.index.value + [] == d.index.value;
    }
  }
}
