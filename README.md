# vue-flagpack: flag-code resolution and the custom-flag generator

This project is a Dafny model of three parts of vue-flagpack, a Vue flag-icon library, with proofs about each:

- **`isoToAlpha2` / `isValidIsoCode`** (module `IsoCode`): maps an ISO 3166-1 code to an alpha-2 code. The code may be alpha-2, alpha-3 or numeric, in any letter case and with surrounding whitespace. The result is the alpha-2 code of the first record of the country table that has the code.
- **`resolveFlagAlias`** (module `FlagAlias`): maps an informal flag name ("Earth", "UK", …) to its canonical flag code. It returns the input unchanged when the name is not an alias.
- **The custom-flag generator script** (modules `SvgRewrite` and `CustomFlags`). Every `.svg` file in the custom-flag directory becomes a TypeScript component module with three size variants. The script:
  - removes XML declarations and trims the text;
  - suffixes `id="…"` and `url(#…)` names with the size;
  - escapes the SVG for a template literal;
  - appends one export line per generated component to the flags index;
  - copies the globe flag `001.svg` to `GB.svg` when there is no GB flag.

The module `JsString` holds the ECMAScript behaviour the others rely on:

- `T | undefined` is modelled as `Optional<T>`.
- Truthiness is modelled.
- `trim()` removes the WhiteSpace and LineTerminator code points.
- `toUpperCase()` is modelled on ASCII letters only.

The country table of `isoToAlpha2` is a parameter (`table: seq<CountryCode>`), because the JSON file is not part of this model. Properties that depend on the table hold under `WellFormedTable`: every record has two and three upper-case letters and three digits, and no code is repeated.

The file system is a value, `CustomFlags.Disk`. Its fields:

- whether each of the two directories exists;
- the directory listing, in order;
- the readable files of the custom-flag directory;
- the component files of the flags directory;
- the text of `index.ts`, if it exists;
- the component paths whose write throws.

The script is `CustomFlags.Run`. It is a method that follows the script statement by statement and returns the new disk and how the script ended: completed, `process.exit(code)`, or an uncaught exception. Its specification is the function `CustomFlags.ScriptOutcome`.

The three regular-expression replacements share one model: a left-to-right, non-overlapping scanner, `SvgRewrite.ReplaceAll`, over patterns of the form `open [^stop]{min,} stop rest`.

Two results state what the rewrite is for:

- On an SVG document made of markup, id attributes and `url(#…)` references (`SvgRewrite.Chunk`), the two passes rename exactly the ids and the references. A reference names an id after renaming exactly when it did before.
- Every escaped variant, placed between backticks, reads back as the renamed SVG under the template-literal reader `SvgRewrite.ReadTemplate`, with its line ends normalised as ECMAScript does for template literals: CR LF and a lone CR both become LF. An SVG without CR reads back unchanged.

`isoToAlpha2` short-circuits only on `""` and `undefined` (src/utils/isoToAlpha2.ts:21). A whitespace-only input is trimmed to "" and searched for like any other key, so it resolves when some record has the code "" (`IsoCode.WhitespaceOnlyIsSearched`). With a well-formed table no record has "", so the answer is then absent.

## Model

| member | source | states |
|---|---|---|
| IsoCode.HasCode | src/utils/isoToAlpha2.ts:30-33 | the `find` predicate: a record has a code when its alpha-2, alpha-3 or numeric code equals it |
| IsoCode.FindIndex | src/utils/isoToAlpha2.ts:29-34 | `Array.prototype.find`: the index returned is of a record having the code in one of its three columns, no earlier record has it, and there is no index exactly when no record has it |
| IsoCode.IsoToAlpha2 | src/utils/isoToAlpha2.ts:20-37 | falsy input gives undefined; otherwise the result is defined exactly when some record has the trimmed, upper-cased code, and it is then the alpha-2 code of the first such record |
| IsoCode.IsValidIsoCode | src/utils/isoToAlpha2.ts:44-46 | true exactly when the input is non-empty and some record has its normal form |
| IsoCode.CaseAndWhitespaceInsensitive | src/utils/isoToAlpha2.ts:26 | inputs differing only in ASCII letter case and surrounding whitespace resolve identically, for every table |
| IsoCode.WhitespaceOnlyIsSearched | src/utils/isoToAlpha2.ts:21-26 | the falsy guard only stops ""; a whitespace-only input is normalised to "" and resolves exactly when some record has the code "" |
| IsoCode.NormalFormOfCode | src/utils/isoToAlpha2.ts:26 | a code of upper-case letters or digits is its own normal form |
| IsoCode.NormalFormOfRecord | src/utils/isoToAlpha2.ts:26-34 | the three codes of a well-formed record are their own normal forms |
| IsoCode.OnlyOwnerHasCode | src/utils/isoToAlpha2.ts:29-34 | in a well-formed table only the owning record has any of its codes |
| IsoCode.ResolvesOwnCode | src/utils/isoToAlpha2.ts:29-36 | a record's own normalised code resolves to that record's alpha-2 code |
| IsoCode.ResolvesEveryCode | src/utils/isoToAlpha2.ts:10-19 | each record resolves to its alpha-2 code from its alpha-2, alpha-3 and numeric codes |
| IsoCode.UnitedStatesExamples | src/utils/isoToAlpha2.ts:15-18 | with the United States record in a well-formed table, "USA", "840" and "US" give "US" and "840" is valid |
| IsoCode.PaddedLowerCaseExample | src/utils/isoToAlpha2.ts:26 | " us " resolves to "US" |
| IsoCode.LowerCaseAlpha3Example | src/utils/isoToAlpha2.ts:12-13 | "gbr" resolves to "GB" |
| IsoCode.UnknownCodeIsInvalid | src/utils/isoToAlpha2.ts:36-45 | a code that no record has gives undefined and is not valid |
| JsString.Truthy | src/utils/isoToAlpha2.ts:21 | the guard `!isoCode`: an optional string is falsy exactly when it is undefined or empty |
| JsString.IsWhitespace | src/utils/isoToAlpha2.ts:26 | the WhiteSpace and LineTerminator code points that `trim()` removes and `\s` matches |
| JsString.TrimStart | src/utils/isoToAlpha2.ts:26 | the start of `trim()`: drops the longest all-whitespace prefix (characterised by `TrimStartSpec`) |
| JsString.TrimEnd | src/utils/isoToAlpha2.ts:26 | the end of `trim()`: drops the longest all-whitespace suffix (characterised by `TrimEndSpec`) |
| JsString.Trim | src/utils/isoToAlpha2.ts:26 | `trim()`: both ends trimmed (characterised by `TrimSpec`) |
| JsString.ToUpper | src/utils/isoToAlpha2.ts:26 | `toUpperCase()`, character by character through `UpperChar`; the length is kept |
| JsString.Normalize | src/utils/flagAliases.ts:35 | the lookup key `code.trim().toUpperCase()`, shared with src/utils/isoToAlpha2.ts:26 (characterised by `NormalizeInsensitive` and `NormalizeIdempotent`) |
| JsString.TrimStartSpec | src/utils/isoToAlpha2.ts:26 | `trim()`'s start: the result is a suffix, everything dropped is whitespace, and the result starts with non-whitespace |
| JsString.TrimEndSpec | src/utils/isoToAlpha2.ts:26 | `trim()`'s end: the result is a prefix, everything dropped is whitespace, and the result ends with non-whitespace |
| JsString.TrimSpec | src/utils/isoToAlpha2.ts:26 | the trimmed text neither starts nor ends with whitespace, and it is empty exactly when the input is all whitespace |
| JsString.UpperChar | src/utils/isoToAlpha2.ts:26 | upper-casing keeps whitespace and leaves no lower-case ASCII letter |
| JsString.TrimOfUpper | src/utils/isoToAlpha2.ts:26 | trimming and upper-casing commute |
| JsString.TrimSurrounded | src/utils/flagAliases.ts:35 | whitespace around a text never reaches the trimmed result |
| JsString.NormalizeInsensitive | src/utils/flagAliases.ts:35 | the normalised key ignores letter case and surrounding whitespace |
| JsString.NormalizeIdempotent | src/utils/flagAliases.ts:35 | normalising a normalised key changes nothing |
| JsString.TrimIdempotent | src/utils/isoToAlpha2.ts:26 | trimming twice is trimming once |
| FlagAlias.ResolveFlagAlias | src/utils/flagAliases.ts:32-44 | falsy input gives undefined; a normalised key in the table gives its canonical code; any other input comes back as given, not trimmed or upper-cased |
| FlagAlias.PrototypeNamesHaveLowerCase | src/utils/flagAliases.ts:38 | every name a plain object inherits has a lower-case letter |
| FlagAlias.LookupNeverInherited | src/utils/flagAliases.ts:38-39 | the upper-cased key can never hit an inherited property of the alias object |
| FlagAlias.CanonicalCodesAreFixed | src/utils/flagAliases.ts:15-25 | every canonical code is its own normal form and is not an alias |
| FlagAlias.InputOrCanonical | src/utils/flagAliases.ts:32-44 | the result is undefined, the input, or a canonical code |
| FlagAlias.ResolveIdempotent | src/utils/flagAliases.ts:32-44 | resolving a resolved code changes nothing |
| FlagAlias.AliasesConverge | src/utils/flagAliases.ts:15-25 | every spelling of the five globe names resolves to "001", and every spelling of "UK" to "GB" |
| FlagAlias.NormalizeOfKeyText | src/utils/flagAliases.ts:35 | text without surrounding whitespace is looked up by its upper-case form |
| FlagAlias.EveryAliasReachable | src/utils/flagAliases.ts:15-25 | every key of `FLAG_ALIASES` is its own trimmed, upper-case form, so the lookup reaches every entry and resolves it to its value |
| FlagAlias.UpperTextIsNormal | src/utils/flagAliases.ts:12-24 | a non-empty key of upper-case letters is its own normal form |
| FlagAlias.GlobeExamples | test-alias.mjs:15-18 | "Earth", "EARTH", "earth" and "Globe" give "001" |
| FlagAlias.MoreGlobeExamples | test-alias.mjs:19-21 | "Global", "World" and "International" give "001" |
| FlagAlias.PassthroughExamples | test-alias.mjs:14-25 | "001", "US" and "GB" pass through; "UK" gives "GB"; "us" comes back as "us"; "" and undefined give undefined |
| SvgRewrite.ReplaceAll | scripts/add-custom-flags.js:53 | `replace` with a global regex of the pattern's shape: scanning left to right, each match is replaced and scanning resumes after it, and other characters are kept (characterised step by step by `ReplaceNoMatch` and `FoundStep`) |
| SvgRewrite.IndexOf | scripts/add-custom-flags.js:53 | the position of the first `stop` character at or after the start, or the end of the text |
| SvgRewrite.MatchAtStart | scripts/add-custom-flags.js:53 | a match at the start is the opening, a capture of at least the minimum length holding no `stop`, the `stop`, and the closing rest, all inside the text |
| SvgRewrite.Piece | scripts/add-custom-flags.js:53 | what one step of a global replacement emits: the replaced capture at a match, otherwise the first character |
| SvgRewrite.Resume | scripts/add-custom-flags.js:53 | where a global replacement resumes: after the match, or one character on; always at least one character on |
| SvgRewrite.ReplaceNoMatch | scripts/add-custom-flags.js:53 | where no match starts, the character is kept and the scan moves on by one |
| SvgRewrite.FoundStep | scripts/add-custom-flags.js:53 | where a match starts, the piece emitted is the replaced capture and the scan resumes after the match |
| SvgRewrite.MatchOfCompleteMatch | scripts/add-custom-flags.js:63-64 | `open b stop rest…` matches with the capture `b` when `b` has no `stop` |
| SvgRewrite.CompleteMatchSlices | scripts/add-custom-flags.js:63-64 | the capture and the remainder of a complete match lie where the match says |
| SvgRewrite.ReplaceAtMatch | scripts/add-custom-flags.js:63-64 | a complete match at the start becomes its replacement, followed by the replacement of the rest |
| SvgRewrite.ReplaceAtMatchOf | scripts/add-custom-flags.js:63-64 | the same, for a text and an output given by equalities |
| SvgRewrite.NoMatchAtInert | scripts/add-custom-flags.js:53 | no match starts at the head of text in which the pattern's opening cannot start |
| SvgRewrite.InertTail | scripts/add-custom-flags.js:53 | dropping the first character keeps a text inert |
| SvgRewrite.ReplaceAfterInert | scripts/add-custom-flags.js:53 | inert text passes through a global replacement unchanged, whatever follows it |
| SvgRewrite.InertBy | scripts/add-custom-flags.js:53 | a text lacking one character of the opening, and ending in no partial opening, is inert |
| SvgRewrite.LastCharOutside | scripts/add-custom-flags.js:53 | a text ending in a character the opening lacks ends in no partial opening |
| SvgRewrite.StripXmlDeclarations | scripts/add-custom-flags.js:53 | `replace(/<\?xml[^?]*\?>/g, '')` through `ReplaceAll` |
| SvgRewrite.CleanSvg | scripts/add-custom-flags.js:51-54 | declarations removed, then the text trimmed (characterised by `CleanDeclaredFile`) |
| SvgRewrite.StripLeadingDeclaration | scripts/add-custom-flags.js:51-53 | a leading `<?xml …?>` without `?` inside is removed |
| SvgRewrite.StripKeepsText | scripts/add-custom-flags.js:53 | text without `<` is kept as it is |
| SvgRewrite.CleanDeclaredFile | scripts/add-custom-flags.js:51-54 | a declaration, whitespace, then markup with no declaration leaves the trimmed markup |
| SvgRewrite.NoMatchWhere | scripts/add-custom-flags.js:53 | no match starts where the text differs from the pattern's opening |
| SvgRewrite.KeepsPartialOpen | scripts/add-custom-flags.js:53 | "<?x" followed by "<" starts no declaration and is kept |
| SvgRewrite.StripDeclarationThenText | scripts/add-custom-flags.js:53 | a declaration followed by text without `<` leaves only that text |
| SvgRewrite.StripIsSinglePass | scripts/add-custom-flags.js:53 | the replacement makes one pass: removing a nested declaration can leave a new `<?xml?>` in the output |
| SvgRewrite.SizesNeverCollide | scripts/add-custom-flags.js:61-64 | ids suffixed for two different sizes are never equal |
| SvgRewrite.SuffixIds | scripts/add-custom-flags.js:63 | the id pass through `ReplaceAll`; on a well-formed document `SuffixIdsOfDoc` states the result |
| SvgRewrite.SuffixUrls | scripts/add-custom-flags.js:64 | the reference pass through `ReplaceAll`; on a well-formed document `SuffixUrlsOfDoc` states the result |
| SvgRewrite.RenameIds | scripts/add-custom-flags.js:63 | renaming ids keeps the number of chunks |
| SvgRewrite.RenameUrls | scripts/add-custom-flags.js:64 | renaming references keeps the number of chunks |
| SvgRewrite.NameTextAppend | scripts/add-custom-flags.js:63-64 | name text joined to name text is name text |
| SvgRewrite.SuffixIsName | scripts/add-custom-flags.js:63-64 | each size suffix is non-empty name text |
| SvgRewrite.UrlRefInertForIds | scripts/add-custom-flags.js:63 | a rendered reference cannot start an id attribute |
| SvgRewrite.IdAttrInertForUrls | scripts/add-custom-flags.js:64 | a rendered id attribute cannot start a reference |
| SvgRewrite.IdAttrShape | scripts/add-custom-flags.js:63 | a rendered id attribute is a complete match of the id pattern |
| SvgRewrite.UrlRefShape | scripts/add-custom-flags.js:64 | a rendered reference is a complete match of the reference pattern |
| SvgRewrite.NameExcludes | scripts/add-custom-flags.js:63-64 | name text contains no quote or closing parenthesis |
| SvgRewrite.IdRewrite | scripts/add-custom-flags.js:63 | the replacement string `id="$1_${sizeName}"` |
| SvgRewrite.UrlRewrite | scripts/add-custom-flags.js:64 | the replacement string `url(#$1_${sizeName})` |
| SvgRewrite.IdRewriteApply | scripts/add-custom-flags.js:63 | the replacement of a captured id is the id attribute with the suffixed id |
| SvgRewrite.UrlRewriteApply | scripts/add-custom-flags.js:64 | the replacement of a captured reference is the reference with the suffixed name |
| SvgRewrite.IdPassRenamesId | scripts/add-custom-flags.js:63 | the id pass renames an id attribute and continues after it |
| SvgRewrite.UrlPassRenamesRef | scripts/add-custom-flags.js:64 | the reference pass renames a reference and continues after it |
| SvgRewrite.SuffixIdsOfChunk | scripts/add-custom-flags.js:63 | the id pass over one well-formed chunk renames it if it is an id and keeps it otherwise |
| SvgRewrite.SuffixUrlsOfChunk | scripts/add-custom-flags.js:64 | the reference pass over one well-formed chunk renames it if it is a reference and keeps it otherwise |
| SvgRewrite.SuffixIdsOfDoc | scripts/add-custom-flags.js:63 | on a well-formed document the id pass renders the document with exactly its id attributes renamed |
| SvgRewrite.SuffixUrlsOfDoc | scripts/add-custom-flags.js:64 | on a well-formed document the reference pass renders the document with exactly its references renamed |
| SvgRewrite.RenameIdsWellFormed | scripts/add-custom-flags.js:63-64 | renaming ids keeps a document well formed, so the reference pass still applies |
| SvgRewrite.RenameBothOfDoc | scripts/add-custom-flags.js:61-64 | both passes together give the document with every id and reference suffixed, and its markup untouched |
| SvgRewrite.RenameAt | scripts/add-custom-flags.js:62-64 | chunk by chunk: an id gets the suffix, a reference gets the suffix, markup stays |
| SvgRewrite.RenamingKeepsReferences | scripts/add-custom-flags.js:62 | a reference names an id after renaming exactly when it did before |
| SvgRewrite.Special | scripts/add-custom-flags.js:66-70 | the three characters the escaping handles: backslash, backtick and dollar |
| SvgRewrite.ReplaceChar | scripts/add-custom-flags.js:68-70 | a global replacement of one character by a fixed text |
| SvgRewrite.EscapeInPasses | scripts/add-custom-flags.js:67-70 | the three chained replacements in the script's order: backslash, backtick, dollar |
| SvgRewrite.Escape | scripts/add-custom-flags.js:66-70 | the intended escape, one character at a time: a backslash before each backslash, backtick and dollar (`PassesAreOneEscape` equates it with the passes) |
| SvgRewrite.ReplaceCharAppend | scripts/add-custom-flags.js:68-70 | a one-character global replacement distributes over concatenation |
| SvgRewrite.PassesAreOneEscape | scripts/add-custom-flags.js:66-70 | the three chained replacements, backslashes first, put exactly one backslash before each backslash, backtick and dollar |
| SvgRewrite.BackslashesMustComeFirst | scripts/add-custom-flags.js:68 | with backslashes escaped after backticks, a backtick would close the literal early |
| SvgRewrite.ReadRaw | scripts/add-custom-flags.js:83-87 | the characters of a template literal with the escapes `\\`, `` \` `` and `\$` decoded, ending at the first unescaped backtick; undefined on `${`, another escape or a missing backtick (characterised by `RawRoundTrip`) |
| SvgRewrite.ReadTemplate | scripts/add-custom-flags.js:83-87 | the value of a template literal: `ReadRaw` with its line ends normalised (characterised by `TemplateRoundTrip` and `CrLfReadsAsLf`) |
| SvgRewrite.NormalizeLineEnds | scripts/add-custom-flags.js:81-87 | the template value's line-end normalisation leaves no CR and never lengthens the text |
| SvgRewrite.NormalizeLineEndsWithoutCr | scripts/add-custom-flags.js:81-87 | text without CR is left as it is by line-end normalisation |
| SvgRewrite.RawRoundTrip | scripts/add-custom-flags.js:66-70 | before line ends are normalised, an escaped text followed by a backtick decodes to the text, and reading stops at that backtick |
| SvgRewrite.TemplateRoundTrip | scripts/add-custom-flags.js:66-70 | an escaped text followed by a backtick reads back as the text with CR LF and lone CR turned into LF, and reading stops at that backtick; a text without CR reads back unchanged |
| SvgRewrite.CrLfReadsAsLf | scripts/add-custom-flags.js:81-87 | a CR LF inside the SVG reads back from the literal as a single LF |
| SvgRewrite.ProcessSvgForSize | scripts/add-custom-flags.js:61-73 | `processSvgForSize`: ids renamed, then references, then the three escapes (characterised by `ProcessedVariantReadsBack`) |
| SvgRewrite.ProcessedVariantReadsBack | scripts/add-custom-flags.js:61-73 | the processed variant of a well-formed document, between backticks, reads back as the document with ids and references suffixed, line ends normalised |
| CustomFlags.HasSvgSuffix | scripts/add-custom-flags.js:28 | `file.endsWith('.svg')` |
| CustomFlags.SvgFiles | scripts/add-custom-flags.js:27-28 | the files kept are exactly the listed names ending in `.svg` |
| CustomFlags.SvgFilesAppend | scripts/add-custom-flags.js:27-28 | the filter keeps the listing's order: filtering a joined listing joins the filtered parts |
| CustomFlags.SvgFilesOfOne | scripts/add-custom-flags.js:27-28 | a single name is kept exactly when it ends in `.svg` |
| CustomFlags.CodeOf | scripts/add-custom-flags.js:44 | `path.basename(filename, '.svg')` for a directory entry (characterised by `CodeRoundTrip`) |
| CustomFlags.CodeRoundTrip | scripts/add-custom-flags.js:44 | the code of a `.svg` file is its name without the suffix, and adding `.svg` gives the name back |
| CustomFlags.IsSeparator | scripts/add-custom-flags.js:58 | the characters of `/[-\s.]/`: hyphen, dot and whitespace |
| CustomFlags.Sanitize | scripts/add-custom-flags.js:58 | sanitizing keeps the length of the code |
| CustomFlags.SanitizeSpec | scripts/add-custom-flags.js:56-58 | each hyphen, whitespace or dot becomes `_`, every other character stays, and the result has no separator or line break |
| CustomFlags.SanitizeFixedPoints | scripts/add-custom-flags.js:58 | a code is unchanged exactly when it has no separator |
| CustomFlags.SanitizeIdempotent | scripts/add-custom-flags.js:58 | sanitizing twice is sanitizing once |
| CustomFlags.SanitizeCollides | scripts/add-custom-flags.js:58 | "a-b", "a.b", "a b" and "a_b" share the sanitized code "a_b" |
| CustomFlags.SanitizedIdentifierExactly | scripts/add-custom-flags.js:56-58 | the sanitized code is ASCII identifier text exactly when every character of the code is a separator or already an ASCII identifier character |
| CustomFlags.SanitizedCodeNotIdentifier | scripts/add-custom-flags.js:56-58 | "001 (1)" sanitizes to "001_(1)", which is not identifier text (a parenthesis is no identifier character in any script), although line 56 says the code is sanitized for use as an identifier |
| CustomFlags.ComponentFile | scripts/add-custom-flags.js:97 | the component path `Flag${sanitizedCode}.ts` (characterised by `ComponentIsNotIndex` and `ComponentFileInjective`) |
| CustomFlags.ComponentIsNotIndex | scripts/add-custom-flags.js:97 | no component path is the index |
| CustomFlags.ComponentFileInjective | scripts/add-custom-flags.js:97 | component paths are equal exactly when the sanitized codes are |
| CustomFlags.ComponentExports | scripts/add-custom-flags.js:89-93 | the three size exports and the default export of a component module |
| CustomFlags.Renamed | scripts/add-custom-flags.js:61-64 | the SVG of one size variant with ids renamed, then references |
| CustomFlags.ComponentSource | scripts/add-custom-flags.js:81-94 | the component module text around its three escaped variants |
| CustomFlags.FlagComponent | scripts/add-custom-flags.js:75-94 | the component module of a flag from its raw SVG: cleaned, then one processed variant per size (characterised by `ComponentHoldsThreeVariants`) |
| CustomFlags.VariantReadsBack | scripts/add-custom-flags.js:61-78 | each escaped size variant, between backticks, reads back as the renamed SVG with its line ends normalised |
| CustomFlags.ComponentHoldsThreeVariants | scripts/add-custom-flags.js:75-94 | the generated module starts with its import; its small, medium and large literals evaluate to the cleaned SVG renamed for that size, line ends normalised |
| CustomFlags.CountCharAppend | scripts/add-custom-flags.js:118-120 | line breaks of a concatenation add up |
| CustomFlags.CountCharAbsent | scripts/add-custom-flags.js:120 | a text without line breaks has none to count |
| CustomFlags.ExportStatement | scripts/add-custom-flags.js:120 | the export statement of one added flag, without its line break |
| CustomFlags.ExportLine | scripts/add-custom-flags.js:120 | the export line of one added flag |
| CustomFlags.CustomExports | scripts/add-custom-flags.js:118-121 | the custom block: the header, then one export line per added flag, in order (characterised by `CustomExportsLines`, `CustomExportsStartWithHeader` and `CustomExportsSnoc`) |
| CustomFlags.ExportLineIsOneLine | scripts/add-custom-flags.js:120 | an export line is one line, ending in its line break |
| CustomFlags.TwoLineBreaks | scripts/add-custom-flags.js:118 | a line between two line breaks holds exactly two |
| CustomFlags.HeaderLines | scripts/add-custom-flags.js:118 | the "// Custom flags" header holds two line breaks |
| CustomFlags.CustomExportsLines | scripts/add-custom-flags.js:118-121 | the custom block has the header's two lines plus one line per added flag |
| CustomFlags.CustomExportsStartWithHeader | scripts/add-custom-flags.js:118 | the custom block starts with its header |
| CustomFlags.CustomExportsSnoc | scripts/add-custom-flags.js:119-121 | one more flag adds its export line at the end of the block |
| CustomFlags.UpdatedIndex | scripts/add-custom-flags.js:112-127 | the index after the update: the custom block appended when a flag was added and the index exists, otherwise as it was (characterised by `IndexOnlyGrows`) |
| CustomFlags.AppendCustomExports | scripts/add-custom-flags.js:115-125 | the new index is the old index followed by the header and one export line per added flag, in order |
| CustomFlags.Processed | scripts/add-custom-flags.js:47-106 | a file passes the loop's `try`: it can be read and its component can be written |
| CustomFlags.FlagOf | scripts/add-custom-flags.js:102 | the record pushed for a file: its code and its sanitized code |
| CustomFlags.Added | scripts/add-custom-flags.js:43-107 | `addedFlags` after the loop: one record per readable file whose component could be written, in order (characterised by `AddedSpec` and `AddedAppend`) |
| CustomFlags.Written | scripts/add-custom-flags.js:43-107 | the flags directory after the loop, each processed file writing its component in order (characterised by `WrittenComponent` and `WrittenOnlyComponents`) |
| CustomFlags.ProcessCustomFlags | scripts/add-custom-flags.js:39-107 | the loop leaves `addedFlags` as one record per processed file, in listing order, and `addedCount` as its length; the flags directory gains those files' components, a later file overwriting an earlier one that shares its component path |
| CustomFlags.AddedAppend | scripts/add-custom-flags.js:43-107 | the records of two runs of files are the records of each, in order |
| CustomFlags.AddedSpec | scripts/add-custom-flags.js:101-106 | `addedFlags` is no longer than the file list, and holds exactly the records of readable files whose component could be written |
| CustomFlags.AllProcessedAllAdded | scripts/add-custom-flags.js:43-102 | when nothing throws, every file gets its record, in order |
| CustomFlags.WrittenComponent | scripts/add-custom-flags.js:81-98 | a processed file's component path holds its component unless a later processed file has the same sanitized code |
| CustomFlags.WrittenOnlyComponents | scripts/add-custom-flags.js:97-98 | the loop writes nothing but component paths of processed files |
| CustomFlags.WrittenKeepsNames | scripts/add-custom-flags.js:97-98 | the loop only writes files: every name in the flags directory before the loop is still there after it |
| CustomFlags.CollidingNamesShareComponent | scripts/add-custom-flags.js:58-98 | two files whose codes sanitize alike share one component path, and the later one wins |
| CustomFlags.AddedPair | scripts/add-custom-flags.js:101-102 | two processed files give two records, in order |
| CustomFlags.CustomExportsPair | scripts/add-custom-flags.js:118-121 | the block for two records is the header and two lines |
| CustomFlags.CollidingNamesExportTwice | scripts/add-custom-flags.js:101-121 | colliding files are both counted, and the index gets the same export line twice |
| CustomFlags.IndexOnlyGrows | scripts/add-custom-flags.js:112-127 | the index exists afterwards exactly when it did before; the old text is a prefix of the new one; it changes exactly when a flag was added and the index exists |
| CustomFlags.GbLineIsExportLine | scripts/add-custom-flags.js:181 | the line the GB step appends is the loop's export line for "GB" |
| CustomFlags.GbStatement | scripts/add-custom-flags.js:181 | the export statement for "GB" spelled out |
| CustomFlags.GbMatchesLoop | scripts/add-custom-flags.js:139-175 | the GB component is what the loop would make for a file GB.svg holding the globe flag's text |
| CustomFlags.GbStep | scripts/add-custom-flags.js:129-188 | the GB step as a function of the disk (characterised by `GbStepSpec`) |
| CustomFlags.GbStepSpec | scripts/add-custom-flags.js:129-188 | with GB.svg present or 001.svg absent nothing happens; an unreadable 001.svg ends the script with nothing changed; otherwise the listing gains GB.svg holding 001.svg's text, and when FlagGB.ts can be written the flags directory changes only there, to the GB component, and the index gains the GB line if it exists and stays absent if not; otherwise the rest of the step is skipped |
| CustomFlags.ScriptOutcome | scripts/add-custom-flags.js:14-188 | the specification of the whole script: the two directory checks, the empty listing, the loop, the index update and the GB step (characterised by `EarlyExitsChangeNothing`, `RunWithoutGbStep` and `RunIndexWithGbStep`) |
| CustomFlags.Run | scripts/add-custom-flags.js:14-188 | the script, statement by statement, ends as `ScriptOutcome` says |
| CustomFlags.EarlyExitsChangeNothing | scripts/add-custom-flags.js:14-33 | a missing directory exits with 1 and no `.svg` file exits with 0, both with nothing changed |
| CustomFlags.RunWithoutGbStep | scripts/add-custom-flags.js:39-133 | without the GB step the script completes with the loop's components and the updated index, and the custom-flag directory unchanged |
| CustomFlags.RunIndexWithGbStep | scripts/add-custom-flags.js:112-183 | with the GB step the index gains the custom block, if any flag was added, and then the GB line outside that block |

## Left out

- File-system I/O, `process.exit`, the console messages and the summary that follows the GB step are not modelled as effects. The file system is an input value and the exit is a status. The summary's count is console output only.
- The directory listing `fs.readdirSync` at scripts/add-custom-flags.js:27, the reads and writes of `index.ts`, the write side of the copy to `GB.svg` (creating it) and the read of `GB.svg` at scripts/add-custom-flags.js:140 are assumed to succeed. The model has no failure case for these. The read side of the copy is modelled: an unreadable `001.svg` ends the script with an uncaught exception (`CustomFlags.GbStep`).
  - The listing at :27, the read at :115, the write at :125 and the copy at :135 are outside any `try`; a failure there would end the script with an uncaught exception.
  - The read at :180 and the write at :182 are inside the GB step's `try` (:139-187). A failure there would be caught: `FlagGB.ts` would stay written and the index would not get the GB line. `CustomFlags.GbStep` always appends that line when the index exists.
- The generated module is valid TypeScript when the sanitized code is ASCII identifier text (`CustomFlags.AsciiIdentifierText`) and the code holds no `'`, `\` or line break. The sanitizing at scripts/add-custom-flags.js:58 ensures neither. Identifiers with other Unicode ID_Continue characters (such as `ç`) are also valid and are not modelled (`CustomFlags.SanitizedCodeNotIdentifier`, `CustomFlags.SanitizedIdentifierExactly`). The model produces the module text the script writes and does not check that it parses.
- `CustomFlags.CodeOf` models `path.basename(name, '.svg')` only for directory entries. These hold no `/`, so the directory part of `basename` never applies.
- `JsString.UpperChar`: `toUpperCase()` is modelled on ASCII letters only. Full Unicode case mapping (for example `ß` to `SS`, which changes the length) is not modelled.
- `SvgRewrite.ReadTemplate` reads only the escapes `\\`, `` \` `` and `\$`. Other escapes, and a bare `${`, make it give up. The escaped text never contains either, so the round trip does not depend on them. Line ends in the literal are normalised as ECMAScript requires (the template value rule, "Static Semantics: TV", of ECMA-262), and the round-trip lemmas state the normalised text.
- The rename lemmas about whole documents assume ids and references made of ASCII letters, digits, `_`, `-`, `.` and `:` (`SvgRewrite.NameText`). Markup is assumed to be a `SvgRewrite.Chunk` that neither starts nor partly forms `id="` or `url(#`. Text outside this shape is handled by `SvgRewrite.ReplaceAll` in general, but the "exactly the ids" statement is made only for this shape.
- The country table (`countryCodeList.json`) is not part of this model; it is a parameter.
- The rest of the repository is not part of this model: the Vue components, the icon registry, size configuration and the build scripts.
