/** The text transforms the custom-flag script applies to an SVG file: removal
    of XML declarations, per-size renaming of `id="…"` attributes and
    `url(#…)` references, and escaping for an ECMAScript template literal. */
module SvgRewrite {
  import opened JsString

  // ---------------------------------------------------------------------------
  // Global regular-expression replacement
  // ---------------------------------------------------------------------------

  /** A global regex of the shape `open [^stop]{minBody,} stop closeRest`,
      whose one capture group is the run of non-`stop` characters. The three
      expressions of the script have this shape:
      `/<\?xml[^?]*\?>/g`, `/id="([^"]+)"/g` and `/url\(#([^)]+)\)/g`. */
  datatype Pattern = Pattern(open: string, stop: char, closeRest: string, minBody: nat)

  const XmlDeclaration := Pattern("<?xml", '?', ">", 0)
  const IdAttribute := Pattern("id=\"", '"', "", 1)
  const UrlReference := Pattern("url(#", ')', "", 1)

  /** What a match is replaced with: the capture between two fixed strings,
      or nothing. */
  datatype Replacement = Wrap(before: string, after: string) | Drop

  function Apply(rep: Replacement, capture: string): string {
    match rep
    case Wrap(before, after) => before + capture + after
    case Drop => []
  }

  /** Position of the first `c` at or after `from`, or `|s|` when there is none. */
  function IndexOf(s: string, c: char, from: nat): (r: nat)
    requires from <= |s|
    ensures from <= r <= |s|
    ensures forall k | from <= k < r :: s[k] != c
    ensures r < |s| ==> s[r] == c
    decreases |s| - from
  {
    if from == |s| || s[from] == c then from else IndexOf(s, c, from + 1)
  }

  /** Whether the pattern matches at the start of `s`; if so, the position of
      the `stop` character that ends the capture. The greedy `[^stop]*` run
      can only end at the first `stop`, so no other match is possible. */
  function MatchAtStart(s: string, pat: Pattern): (r: Optional<nat>)
    ensures r.Defined? ==> |pat.open| + pat.minBody <= r.value && r.value + 1 + |pat.closeRest| <= |s|
    ensures r.Defined? ==>
      && pat.open <= s && s[r.value] == pat.stop && pat.stop !in s[|pat.open|..r.value]
      && pat.closeRest <= s[r.value + 1..]
  {
    if pat.open <= s then
      var q := IndexOf(s, pat.stop, |pat.open|);
      if q < |s| && q - |pat.open| >= pat.minBody && pat.closeRest <= s[q + 1..] then Defined(q) else Undefined
    else Undefined
  }

  /** What one step of the scan emits at the start of `s`: the replaced
      capture where a match starts, otherwise the first character. */
  function Piece(s: string, pat: Pattern, rep: Replacement): string
    requires s != []
  {
    match MatchAtStart(s, pat)
    case Defined(q) => Apply(rep, s[|pat.open|..q])
    case Undefined => [s[0]]
  }

  /** Where the scan resumes after one step: past the match, or one character on. */
  function Resume(s: string, pat: Pattern): (k: nat)
    requires s != []
    ensures 0 < k <= |s|
  {
    match MatchAtStart(s, pat)
    case Defined(q) => q + 1 + |pat.closeRest|
    case Undefined => 1
  }

  /** `s.replace(regex, replacement)` with the `g` flag: left to right, a match
      is replaced and scanning resumes after it; where no match starts, the
      character is kept and scanning moves one character on. */
  function ReplaceAll(s: string, pat: Pattern, rep: Replacement): string
    decreases |s|
  {
    if s == [] then [] else Piece(s, pat, rep) + ReplaceAll(s[Resume(s, pat)..], pat, rep)
  }

  /** Text in which the word `w` can start nowhere, not even running on into
      whatever text follows. */
  predicate Inert(t: string, w: string) {
    forall p | 0 <= p < |t| :: !(w <= t[p..]) && !(t[p..] <= w)
  }

  /** One step of the scan where no match starts: the first character is kept. */
  lemma ReplaceNoMatch(s: string, pat: Pattern, rep: Replacement)
    requires s != [] && MatchAtStart(s, pat) == Undefined
    ensures ReplaceAll(s, pat, rep) == [s[0]] + ReplaceAll(s[1..], pat, rep)
  {
  }

  /** One step of the scan: what it emits, then the scan of what is left. */
  lemma ScanStep(s: string, pat: Pattern, rep: Replacement)
    requires s != []
    ensures ReplaceAll(s, pat, rep) == Piece(s, pat, rep) + ReplaceAll(s[Resume(s, pat)..], pat, rep)
  {
  }

  /** The step where a match starts: its capture is replaced and the scan
      resumes after it. */
  lemma FoundStep(s: string, pat: Pattern, rep: Replacement, q: nat)
    requires MatchAtStart(s, pat) == Defined(q)
    ensures s != [] && q + 1 + |pat.closeRest| <= |s| && |pat.open| <= q
    ensures Piece(s, pat, rep) == Apply(rep, s[|pat.open|..q])
    ensures Resume(s, pat) == q + 1 + |pat.closeRest|
  {
  }

  /** A complete match at the start is found, its capture ending at the `stop`
      after `b`. */
  lemma MatchOfCompleteMatch(pat: Pattern, b: string, rest: string)
    requires |b| >= pat.minBody && pat.stop !in b
    ensures MatchAtStart(pat.open + b + [pat.stop] + pat.closeRest + rest, pat) == Defined(|pat.open| + |b|)
  {
    var s := pat.open + b + [pat.stop] + pat.closeRest + rest;
    var n := |pat.open|;
    assert pat.open <= s;
    assert forall k | n <= k < n + |b| :: s[k] == b[k - n];
    assert s[n + |b|] == pat.stop;
    assert IndexOf(s, pat.stop, n) == n + |b|;
    assert s[n + |b| + 1..] == pat.closeRest + rest;
  }

  lemma CompleteMatchSlices(pat: Pattern, b: string, rest: string)
    ensures var s := pat.open + b + [pat.stop] + pat.closeRest + rest;
      var q := |pat.open| + |b|;
      && q + 1 + |pat.closeRest| <= |s|
      && s[|pat.open|..q] == b
      && s[q + 1 + |pat.closeRest|..] == rest
  {
  }

  /** A complete match at the start is replaced, and scanning goes on after it. */
  lemma ReplaceAtMatch(pat: Pattern, rep: Replacement, b: string, rest: string)
    requires |b| >= pat.minBody && pat.stop !in b
    ensures ReplaceAll(pat.open + b + [pat.stop] + pat.closeRest + rest, pat, rep)
         == Apply(rep, b) + ReplaceAll(rest, pat, rep)
  {
    var s := pat.open + b + [pat.stop] + pat.closeRest + rest;
    MatchOfCompleteMatch(pat, b, rest);
    CompleteMatchSlices(pat, b, rest);
    FoundStep(s, pat, rep, |pat.open| + |b|);
    ScanStep(s, pat, rep);
  }

  /** `ReplaceAtMatch` for a text and a replacement given by equalities. */
  lemma ReplaceAtMatchOf(s: string, out: string, pat: Pattern, rep: Replacement, b: string, rest: string)
    requires s == pat.open + b + [pat.stop] + pat.closeRest + rest
    requires |b| >= pat.minBody && pat.stop !in b && out == Apply(rep, b)
    ensures ReplaceAll(s, pat, rep) == out + ReplaceAll(rest, pat, rep)
  {
    ReplaceAtMatch(pat, rep, b, rest);
  }

  /** No match starts at the head of inert text, whatever follows it. */
  lemma NoMatchAtInert(pat: Pattern, t: string, rest: string)
    requires t != [] && Inert(t, pat.open)
    ensures MatchAtStart(t + rest, pat) == Undefined
  {
    assert t[0..] == t;
  }

  lemma InertTail(t: string, w: string)
    requires t != [] && Inert(t, w)
    ensures Inert(t[1..], w)
  {
    forall p | 0 <= p < |t[1..]| ensures !(w <= t[1..][p..]) && !(t[1..][p..] <= w) {
      assert t[1..][p..] == t[p + 1..];
    }
  }

  /** Inert text passes through unchanged. */
  lemma {:induction false} ReplaceAfterInert(pat: Pattern, rep: Replacement, t: string, rest: string)
    requires Inert(t, pat.open)
    ensures ReplaceAll(t + rest, pat, rep) == t + ReplaceAll(rest, pat, rep)
    decreases |t|
  {
    if t == [] {
      assert t + rest == rest;
    } else {
      var s, r := t + rest, ReplaceAll(rest, pat, rep);
      NoMatchAtInert(pat, t, rest);
      ReplaceNoMatch(s, pat, rep);
      assert s[1..] == t[1..] + rest;
      InertTail(t, pat.open);
      ReplaceAfterInert(pat, rep, t[1..], rest);
      assert ReplaceAll(s, pat, rep) == [t[0]] + (t[1..] + r);
      assert [t[0]] + (t[1..] + r) == ([t[0]] + t[1..]) + r;
      assert [t[0]] + t[1..] == t;
    }
  }

  /** No non-empty tail of `t` is a proper beginning of `w`. */
  predicate NoPartialAtEnd(t: string, w: string) {
    forall j | 1 <= j < |w| && j <= |t| :: t[|t| - j..] != w[..j]
  }

  /** A sufficient test for inertness: some character of `w` never occurs in
      `t`, and `t` does not end in a beginning of `w`. */
  lemma InertBy(t: string, w: string, k: nat)
    requires k < |w| && forall i | 0 <= i < |t| :: t[i] != w[k]
    requires NoPartialAtEnd(t, w)
    ensures Inert(t, w)
  {
    forall p | 0 <= p < |t| ensures !(w <= t[p..]) && !(t[p..] <= w) {
      assert !(w <= t[p..]) by {
        if p + k < |t| { assert t[p..][k] == t[p + k]; }
      }
      var j := |t| - p;
      assert t[|t| - j..] == t[p..];
      if j < |w| { assert w[..j] != t[p..]; }
    }
  }

  /** Ending in a character that `w` does not contain rules out a partial `w`. */
  lemma LastCharOutside(t: string, w: string)
    requires t != [] && forall m | 0 <= m < |w| :: w[m] != t[|t| - 1]
    ensures NoPartialAtEnd(t, w)
  {
    forall j | 1 <= j < |w| && j <= |t| ensures t[|t| - j..] != w[..j] {
      assert t[|t| - j..][j - 1] == t[|t| - 1];
      assert w[..j][j - 1] == w[j - 1];
    }
  }

  // ---------------------------------------------------------------------------
  // XML declarations and cleaning
  // ---------------------------------------------------------------------------

  /** `svg.replace(/<\?xml[^?]*\?>/g, '')`. */
  function StripXmlDeclarations(svg: string): string {
    ReplaceAll(svg, XmlDeclaration, Drop)
  }

  /** The content every size variant starts from: declarations removed, then
      `trim()`. */
  function CleanSvg(raw: string): string {
    Trim(StripXmlDeclarations(raw))
  }

  /** A leading declaration `<?xml …?>` (with no `?` inside) is removed. */
  lemma StripLeadingDeclaration(body: string, rest: string)
    requires '?' !in body
    ensures StripXmlDeclarations("<?xml" + body + "?>" + rest) == StripXmlDeclarations(rest)
  {
    assert "<?xml" + body + "?>" + rest == XmlDeclaration.open + body + [XmlDeclaration.stop] + XmlDeclaration.closeRest + rest;
    ReplaceAtMatch(XmlDeclaration, Drop, body, rest);
  }

  /** Text without `<` is kept as it is. */
  lemma StripKeepsText(t: string, rest: string)
    requires '<' !in t
    ensures StripXmlDeclarations(t + rest) == t + StripXmlDeclarations(rest)
  {
    forall p | 0 <= p < |t| ensures !(XmlDeclaration.open <= t[p..]) && !(t[p..] <= XmlDeclaration.open) {
      assert t[p..][0] == t[p];
    }
    ReplaceAfterInert(XmlDeclaration, Drop, t, rest);
  }

  /** The usual file: a declaration, whitespace, then markup without further
      declarations. Cleaning leaves the trimmed markup. */
  lemma CleanDeclaredFile(body: string, ws: string, markup: string)
    requires '?' !in body && AllWhitespace(ws) && '<' !in ws
    requires Inert(markup, XmlDeclaration.open)
    ensures CleanSvg("<?xml" + body + "?>" + ws + markup) == Trim(markup)
  {
    assert "<?xml" + body + "?>" + ws + markup == "<?xml" + body + "?>" + (ws + markup);
    StripLeadingDeclaration(body, ws + markup);
    StripKeepsText(ws, markup);
    ReplaceAfterInert(XmlDeclaration, Drop, markup, []);
    assert markup + [] == markup;
    assert ws + markup + [] == ws + markup;
    TrimSurrounded(ws, markup, []);
  }

  /** No match starts where the text differs from the opening of the pattern. */
  lemma NoMatchWhere(s: string, pat: Pattern, i: nat)
    requires i < |pat.open| && i < |s| && s[i] != pat.open[i]
    ensures MatchAtStart(s, pat) == Undefined
  {
  }

  /** "<?x" followed by "<" starts no declaration, so its three characters stay. */
  lemma KeepsPartialOpen(u: string, d: string)
    requires u == ['<', '?', 'x'] && d != [] && d[0] == '<'
    ensures StripXmlDeclarations(u + d) == u + StripXmlDeclarations(d)
  {
    var s := u + d;
    NoMatchWhere(s, XmlDeclaration, 3);
    ReplaceNoMatch(s, XmlDeclaration, Drop);
    assert s[1..] == u[1..] + d;
    NoMatchWhere(s[1..], XmlDeclaration, 0);
    ReplaceNoMatch(s[1..], XmlDeclaration, Drop);
    assert s[1..][1..] == u[2..] + d;
    NoMatchWhere(s[1..][1..], XmlDeclaration, 0);
    ReplaceNoMatch(s[1..][1..], XmlDeclaration, Drop);
    assert s[1..][1..][1..] == d;
  }

  /** A declaration followed by text without `<`: only the text stays. */
  lemma StripDeclarationThenText(v: string, w: string)
    requires v == ['<', '?', 'x', 'm', 'l', '?', '>'] && '<' !in w
    ensures StripXmlDeclarations(v + w) == w
  {
    ReplaceAtMatchOf(v + w, [], XmlDeclaration, Drop, [], w);
    assert w == w + [];
    StripKeepsText(w, []);
  }

  /** The replacement makes one pass: removing the declaration `v` from
      `u + v + w` joins `u` and `w` into a new declaration, which stays. So
      stripping is not idempotent. */
  lemma StripIsSinglePass(u: string, v: string, w: string)
    requires u == ['<', '?', 'x'] && v == ['<', '?', 'x', 'm', 'l', '?', '>'] && w == ['m', 'l', '?', '>']
    ensures StripXmlDeclarations(u + v + w) == u + w
    ensures u + w == v
    ensures StripXmlDeclarations(v) == []
  {
    assert u + v + w == u + (v + w);
    KeepsPartialOpen(u, v + w);
    StripDeclarationThenText(v, w);
    StripDeclarationThenText(v, []);
    assert v + [] == v;
  }

  // ---------------------------------------------------------------------------
  // Per-size renaming of ids and references
  // ---------------------------------------------------------------------------

  /** The three component sizes. */
  datatype Size = Small | Medium | Large {
    function Name(): string {
      match this
      case Small => "small"
      case Medium => "medium"
      case Large => "large"
    }
  }

  function SizeSuffix(size: Size): string {
    "_" + size.Name()
  }

  /** `svg.replace(/id="([^"]+)"/g, `id="$1_${size}"`)`. */
  function SuffixIds(svg: string, size: Size): string {
    ReplaceAll(svg, IdAttribute, IdRewrite(size))
  }

  /** `svg.replace(/url\(#([^)]+)\)/g, `url(#$1_${size})`)`. */
  function SuffixUrls(svg: string, size: Size): string {
    ReplaceAll(svg, UrlReference, UrlRewrite(size))
  }

  /** Ids of different sizes never collide, whatever the names: the three
      suffixes end in different letters. So the three variants of one flag can
      share a page. */
  lemma SizesNeverCollide(a: string, b: string, s1: Size, s2: Size)
    requires s1 != s2
    ensures a + SizeSuffix(s1) != b + SizeSuffix(s2)
  {
    var x, y := a + SizeSuffix(s1), b + SizeSuffix(s2);
    assert x[|x| - 1] == SizeSuffix(s1)[|SizeSuffix(s1)| - 1];
    assert y[|y| - 1] == SizeSuffix(s2)[|SizeSuffix(s2)| - 1];
  }

  /** Characters of the XML names this model gives ids and references. */
  predicate IsNameChar(c: char) {
    ('a' <= c <= 'z') || ('A' <= c <= 'Z') || ('0' <= c <= '9') || c == '-' || c == '_' || c == '.' || c == ':'
  }

  predicate NameText(x: string) {
    forall i | 0 <= i < |x| :: IsNameChar(x[i])
  }

  /** An SVG document seen as markup interleaved with id attributes and
      `url(#…)` references. */
  datatype Chunk = Markup(text: string) | IdAttr(id: string) | UrlRef(target: string)

  function RenderChunk(c: Chunk): string {
    match c
    case Markup(t) => t
    case IdAttr(x) => "id=\"" + x + "\""
    case UrlRef(x) => "url(#" + x + ")"
  }

  function Render(doc: seq<Chunk>): string {
    if doc == [] then [] else RenderChunk(doc[0]) + Render(doc[1..])
  }

  /** Markup in which neither an id attribute nor a reference starts, and
      names that are non-empty XML names. */
  predicate WellFormedChunk(c: Chunk) {
    match c
    case Markup(t) => Inert(t, IdAttribute.open) && Inert(t, UrlReference.open)
    case IdAttr(x) => x != [] && NameText(x)
    case UrlRef(x) => x != [] && NameText(x)
  }

  predicate WellFormedDoc(doc: seq<Chunk>) {
    forall i | 0 <= i < |doc| :: WellFormedChunk(doc[i])
  }

  function RenameId(c: Chunk, sfx: string): Chunk {
    if c.IdAttr? then IdAttr(c.id + sfx) else c
  }

  function RenameUrl(c: Chunk, sfx: string): Chunk {
    if c.UrlRef? then UrlRef(c.target + sfx) else c
  }

  function RenameIds(doc: seq<Chunk>, sfx: string): (r: seq<Chunk>)
    ensures |r| == |doc|
  {
    if doc == [] then [] else [RenameId(doc[0], sfx)] + RenameIds(doc[1..], sfx)
  }

  function RenameUrls(doc: seq<Chunk>, sfx: string): (r: seq<Chunk>)
    ensures |r| == |doc|
  {
    if doc == [] then [] else [RenameUrl(doc[0], sfx)] + RenameUrls(doc[1..], sfx)
  }

  /** Both kinds of name renamed with the same suffix. */
  function Rename(doc: seq<Chunk>, sfx: string): seq<Chunk> {
    RenameUrls(RenameIds(doc, sfx), sfx)
  }

  lemma NameTextAppend(a: string, b: string)
    requires NameText(a) && NameText(b)
    ensures NameText(a + b)
  {
    forall i | 0 <= i < |a + b| ensures IsNameChar((a + b)[i]) {
      if i >= |a| { assert (a + b)[i] == b[i - |a|]; }
    }
  }

  lemma SuffixIsName(size: Size)
    ensures NameText(SizeSuffix(size)) && SizeSuffix(size) != []
  {
  }

  /** A rendered reference cannot start an id attribute. */
  lemma UrlRefInertForIds(x: string)
    requires NameText(x)
    ensures Inert(RenderChunk(UrlRef(x)), IdAttribute.open)
  {
    var t := RenderChunk(UrlRef(x));
    forall i | 0 <= i < |t| ensures t[i] != IdAttribute.open[2] {
      if 5 <= i < |t| - 1 { assert t[i] == x[i - 5]; }
    }
    LastCharOutside(t, IdAttribute.open);
    InertBy(t, IdAttribute.open, 2);
  }

  /** A rendered id attribute cannot start a reference. */
  lemma IdAttrInertForUrls(x: string)
    requires NameText(x)
    ensures Inert(RenderChunk(IdAttr(x)), UrlReference.open)
  {
    var t := RenderChunk(IdAttr(x));
    forall i | 0 <= i < |t| ensures t[i] != UrlReference.open[3] {
      if 4 <= i < |t| - 1 { assert t[i] == x[i - 4]; }
    }
    LastCharOutside(t, UrlReference.open);
    InertBy(t, UrlReference.open, 3);
  }

  function IdRewrite(size: Size): Replacement {
    Wrap("id=\"", SizeSuffix(size) + "\"")
  }

  function UrlRewrite(size: Size): Replacement {
    Wrap("url(#", SizeSuffix(size) + ")")
  }

  /** A rendered id attribute is a complete match of the id pattern. */
  lemma IdAttrShape(x: string, tail: string)
    ensures RenderChunk(IdAttr(x)) + tail == IdAttribute.open + x + [IdAttribute.stop] + IdAttribute.closeRest + tail
  {
  }

  /** A rendered reference is a complete match of the reference pattern. */
  lemma UrlRefShape(x: string, tail: string)
    ensures RenderChunk(UrlRef(x)) + tail == UrlReference.open + x + [UrlReference.stop] + UrlReference.closeRest + tail
  {
  }

  lemma NameExcludes(x: string, c: char)
    requires NameText(x) && !IsNameChar(c)
    ensures c !in x
  {
  }

  lemma IdRewriteApply(x: string, size: Size)
    ensures Apply(IdRewrite(size), x) == RenderChunk(IdAttr(x + SizeSuffix(size)))
  {
  }

  lemma UrlRewriteApply(x: string, size: Size)
    ensures Apply(UrlRewrite(size), x) == RenderChunk(UrlRef(x + SizeSuffix(size)))
  {
  }

  /** The id pass renames an id attribute and goes on after it. */
  lemma IdPassRenamesId(x: string, size: Size, tail: string)
    requires x != [] && NameText(x)
    ensures ReplaceAll(RenderChunk(IdAttr(x)) + tail, IdAttribute, IdRewrite(size))
         == RenderChunk(IdAttr(x + SizeSuffix(size))) + ReplaceAll(tail, IdAttribute, IdRewrite(size))
  {
    IdAttrShape(x, tail);
    NameExcludes(x, '"');
    IdRewriteApply(x, size);
    ReplaceAtMatchOf(RenderChunk(IdAttr(x)) + tail, RenderChunk(IdAttr(x + SizeSuffix(size))), IdAttribute, IdRewrite(size), x, tail);
  }

  /** The reference pass renames a reference and goes on after it. */
  lemma UrlPassRenamesRef(x: string, size: Size, tail: string)
    requires x != [] && NameText(x)
    ensures ReplaceAll(RenderChunk(UrlRef(x)) + tail, UrlReference, UrlRewrite(size))
         == RenderChunk(UrlRef(x + SizeSuffix(size))) + ReplaceAll(tail, UrlReference, UrlRewrite(size))
  {
    UrlRefShape(x, tail);
    NameExcludes(x, ')');
    UrlRewriteApply(x, size);
    ReplaceAtMatchOf(RenderChunk(UrlRef(x)) + tail, RenderChunk(UrlRef(x + SizeSuffix(size))), UrlReference, UrlRewrite(size), x, tail);
  }

  /** The id pass over one chunk and whatever follows it. */
  lemma SuffixIdsOfChunk(c: Chunk, size: Size, tail: string)
    requires WellFormedChunk(c)
    ensures ReplaceAll(RenderChunk(c) + tail, IdAttribute, IdRewrite(size))
         == RenderChunk(RenameId(c, SizeSuffix(size))) + ReplaceAll(tail, IdAttribute, IdRewrite(size))
  {
    match c
    case Markup(t) =>
      ReplaceAfterInert(IdAttribute, IdRewrite(size), t, tail);
    case IdAttr(x) =>
      IdPassRenamesId(x, size, tail);
    case UrlRef(x) =>
      UrlRefInertForIds(x);
      ReplaceAfterInert(IdAttribute, IdRewrite(size), RenderChunk(c), tail);
  }

  /** The reference pass over one chunk and whatever follows it. */
  lemma SuffixUrlsOfChunk(c: Chunk, size: Size, tail: string)
    requires WellFormedChunk(c)
    ensures ReplaceAll(RenderChunk(c) + tail, UrlReference, UrlRewrite(size))
         == RenderChunk(RenameUrl(c, SizeSuffix(size))) + ReplaceAll(tail, UrlReference, UrlRewrite(size))
  {
    match c
    case Markup(t) =>
      ReplaceAfterInert(UrlReference, UrlRewrite(size), t, tail);
    case UrlRef(x) =>
      UrlPassRenamesRef(x, size, tail);
    case IdAttr(x) =>
      IdAttrInertForUrls(x);
      ReplaceAfterInert(UrlReference, UrlRewrite(size), RenderChunk(c), tail);
  }

  /** The id pass renames exactly the id attributes of a well-formed document. */
  lemma {:induction false} SuffixIdsOfDoc(doc: seq<Chunk>, size: Size)
    requires WellFormedDoc(doc)
    ensures SuffixIds(Render(doc), size) == Render(RenameIds(doc, SizeSuffix(size)))
    decreases |doc|
  {
    if doc != [] {
      var r := RenameIds(doc, SizeSuffix(size));
      assert WellFormedChunk(doc[0]);
      SuffixIdsOfChunk(doc[0], size, Render(doc[1..]));
      SuffixIdsOfDoc(doc[1..], size);
      assert r[0] == RenameId(doc[0], SizeSuffix(size));
      assert r[1..] == RenameIds(doc[1..], SizeSuffix(size));
    }
  }

  /** The reference pass renames exactly the references of a well-formed document. */
  lemma {:induction false} SuffixUrlsOfDoc(doc: seq<Chunk>, size: Size)
    requires WellFormedDoc(doc)
    ensures SuffixUrls(Render(doc), size) == Render(RenameUrls(doc, SizeSuffix(size)))
    decreases |doc|
  {
    if doc != [] {
      var r := RenameUrls(doc, SizeSuffix(size));
      assert WellFormedChunk(doc[0]);
      SuffixUrlsOfChunk(doc[0], size, Render(doc[1..]));
      SuffixUrlsOfDoc(doc[1..], size);
      assert r[0] == RenameUrl(doc[0], SizeSuffix(size));
      assert r[1..] == RenameUrls(doc[1..], SizeSuffix(size));
    }
  }

  lemma {:induction false} RenameIdsWellFormed(doc: seq<Chunk>, size: Size)
    requires WellFormedDoc(doc)
    ensures WellFormedDoc(RenameIds(doc, SizeSuffix(size)))
    decreases |doc|
  {
    if doc != [] {
      RenameIdsWellFormed(doc[1..], size);
      assert WellFormedChunk(doc[0]);
      var r := RenameIds(doc, SizeSuffix(size));
      if doc[0].IdAttr? {
        SuffixIsName(size);
        NameTextAppend(doc[0].id, SizeSuffix(size));
      }
      assert WellFormedChunk(r[0]);
      assert forall i | 1 <= i < |r| :: r[i] == RenameIds(doc[1..], SizeSuffix(size))[i - 1];
    }
  }

  /** Both renaming passes on a well-formed document: every `id="X"` has become
      `id="X_<size>"`, every `url(#X)` has become `url(#X_<size>)`, and all
      other markup is untouched. */
  lemma RenameBothOfDoc(doc: seq<Chunk>, size: Size)
    requires WellFormedDoc(doc)
    ensures SuffixUrls(SuffixIds(Render(doc), size), size) == Render(Rename(doc, SizeSuffix(size)))
  {
    SuffixIdsOfDoc(doc, size);
    RenameIdsWellFormed(doc, size);
    SuffixUrlsOfDoc(RenameIds(doc, SizeSuffix(size)), size);
  }

  lemma {:induction false} RenameAt(doc: seq<Chunk>, sfx: string, i: nat)
    requires i < |doc|
    ensures doc[i].IdAttr? ==> Rename(doc, sfx)[i] == IdAttr(doc[i].id + sfx)
    ensures doc[i].UrlRef? ==> Rename(doc, sfx)[i] == UrlRef(doc[i].target + sfx)
    ensures doc[i].Markup? ==> Rename(doc, sfx)[i] == doc[i]
    decreases i
  {
    if i > 0 {
      RenameAt(doc[1..], sfx, i - 1);
    }
  }

  /** A reference names an id after renaming exactly when it did before. */
  lemma RenamingKeepsReferences(doc: seq<Chunk>, sfx: string, i: nat, j: nat)
    requires i < |doc| && j < |doc| && doc[i].IdAttr? && doc[j].UrlRef?
    ensures Rename(doc, sfx)[i].IdAttr? && Rename(doc, sfx)[j].UrlRef?
    ensures Rename(doc, sfx)[i].id == Rename(doc, sfx)[j].target <==> doc[i].id == doc[j].target
  {
    RenameAt(doc, sfx, i);
    RenameAt(doc, sfx, j);
    var a, b := doc[i].id, doc[j].target;
    if a + sfx == b + sfx {
      assert |a| == |b|;
      assert a == (a + sfx)[..|a|];
      assert b == (b + sfx)[..|b|];
    }
  }

  // ---------------------------------------------------------------------------
  // Escaping for a template literal
  // ---------------------------------------------------------------------------

  /** The characters a template literal gives meaning to. */
  predicate Special(c: char) {
    c == '\\' || c == '`' || c == '$'
  }

  /** `s.replace(/c/g, by)` for a one-character pattern. */
  function ReplaceChar(s: string, c: char, repl: string): string {
    if s == [] then [] else (if s[0] == c then repl else [s[0]]) + ReplaceChar(s[1..], c, repl)
  }

  /** Backslash, backtick and dollar each get a backslash in front. */
  function Escape(s: string): string {
    if s == [] then [] else (if Special(s[0]) then ['\\', s[0]] else [s[0]]) + Escape(s[1..])
  }

  /** The three chained replacements, in the script's order. */
  function EscapeInPasses(s: string): string {
    ReplaceChar(ReplaceChar(ReplaceChar(s, '\\', "\\\\"), '`', "\\`"), '$', "\\$")
  }

  lemma {:induction false} ReplaceCharAppend(a: string, b: string, c: char, repl: string)
    ensures ReplaceChar(a + b, c, repl) == ReplaceChar(a, c, repl) + ReplaceChar(b, c, repl)
    decreases |a|
  {
    if a != [] {
      assert (a + b)[1..] == a[1..] + b;
      ReplaceCharAppend(a[1..], b, c, repl);
    } else {
      assert a + b == b;
    }
  }

  /** Escaping backslashes first makes the three passes one character-wise
      escape: a later pass never meets a character an earlier one added
      except the backslashes, which it leaves alone. */
  lemma {:induction false} PassesAreOneEscape(s: string)
    ensures EscapeInPasses(s) == Escape(s)
    decreases |s|
  {
    if s != [] {
      var c := s[0];
      PassesAreOneEscape(s[1..]);
      var p1 := ReplaceChar([c], '\\', "\\\\");
      ReplaceCharAppend([c], s[1..], '\\', "\\\\");
      assert s == [c] + s[1..];
      var r1 := ReplaceChar(s[1..], '\\', "\\\\");
      ReplaceCharAppend(p1, r1, '`', "\\`");
      var p2 := ReplaceChar(p1, '`', "\\`");
      var r2 := ReplaceChar(r1, '`', "\\`");
      ReplaceCharAppend(p2, r2, '$', "\\$");
      var p3 := ReplaceChar(p2, '$', "\\$");
      assert p3 == (if Special(c) then ['\\', c] else [c]) by {
        if c == '\\' {
          assert p1 == "\\\\";
          assert p2 == ReplaceChar("\\\\", '`', "\\`") == "\\\\";
          assert p3 == "\\\\";
        } else if c == '`' {
          assert p1 == [c];
          assert p2 == "\\`";
          assert p3 == ReplaceChar("\\`", '$', "\\$") == "\\`";
        } else if c == '$' {
          assert p1 == [c] && p2 == [c];
          assert p3 == "\\$";
        } else {
          assert p1 == [c] && p2 == [c] && p3 == [c];
        }
      }
    }
  }

  /** Escaping the backslashes last, after the backticks, would double the
      backslash just added to a backtick, and the backtick would then end the
      literal. */
  lemma BackslashesMustComeFirst(s: string)
    requires s == ['`']
    ensures ReplaceChar(ReplaceChar(s, '`', "\\`"), '\\', "\\\\") == ['\\', '\\', '`']
    ensures ReadTemplate(['\\', '\\', '`'] + ['`']) == Defined(TemplateRead(['\\'], ['`']))
  {
    assert ReplaceChar(s, '`', "\\`") == ['\\', '`'];
    var t := ['\\', '\\', '`'] + ['`'];
    assert t[2..] == ['`', '`'];
    assert ReadRaw(t[2..]) == Defined(TemplateRead([], ['`']));
    assert t[0] == '\\' && |t| >= 2 && Special(t[1]);
    assert ReadRaw(t) == Prepend('\\', ReadRaw(t[2..]));
    assert ['\\'] + [] == ['\\'];
    NormalizeLineEndsWithoutCr(['\\']);
  }

  /** What reading a template literal yields: the characters of the literal
      and the source text after its closing backtick. */
  datatype TemplateRead = TemplateRead(cooked: string, rest: string)

  /** The line ends of a template literal's value: CR LF and a lone CR each
      become LF (the template value rule, "Static Semantics: TV", of
      ECMA-262). */
  function NormalizeLineEnds(s: string): (r: string)
    ensures '\r' !in r
    ensures |r| <= |s|
  {
    if s == [] then []
    else if s[0] == '\r' then
      ['\n'] + NormalizeLineEnds(if |s| >= 2 && s[1] == '\n' then s[2..] else s[1..])
    else [s[0]] + NormalizeLineEnds(s[1..])
  }

  /** Text without CR keeps its line ends. */
  lemma {:induction false} NormalizeLineEndsWithoutCr(s: string)
    requires '\r' !in s
    ensures NormalizeLineEnds(s) == s
  {
    if s != [] {
      assert s[0] in s;
      assert forall k | 0 <= k < |s[1..]| :: s[1..][k] == s[k + 1];
      NormalizeLineEndsWithoutCr(s[1..]);
      assert [s[0]] + s[1..] == s;
    }
  }

  /** Reads the body of a template literal, the opening backtick already
      consumed, decoding escapes: `\\`, `\`` and `\$` stand for the character
      after the backslash and an unescaped backtick ends the literal.
      Undefined when the literal does not end, when `${` opens a
      substitution, or at any other escape sequence, which this model does
      not read. */
  function ReadRaw(t: string): Optional<TemplateRead>
    decreases |t|
  {
    if t == [] then Undefined
    else if t[0] == '`' then Defined(TemplateRead([], t[1..]))
    else if t[0] == '\\' then
      if |t| >= 2 && Special(t[1]) then Prepend(t[1], ReadRaw(t[2..])) else Undefined
    else if t[0] == '$' && |t| >= 2 && t[1] == '{' then Undefined
    else Prepend(t[0], ReadRaw(t[1..]))
  }

  function Prepend(c: char, r: Optional<TemplateRead>): Optional<TemplateRead> {
    match r
    case Undefined => Undefined
    case Defined(TemplateRead(cooked, rest)) => Defined(TemplateRead([c] + cooked, rest))
  }

  /** The value of a template literal: the decoded characters with their line
      ends normalised. The three escapes read here never stand for CR or LF,
      so normalising after decoding changes exactly the line ends written
      in the literal, as the language does. */
  function ReadTemplate(t: string): Optional<TemplateRead> {
    match ReadRaw(t)
    case Undefined => Undefined
    case Defined(TemplateRead(cooked, rest)) => Defined(TemplateRead(NormalizeLineEnds(cooked), rest))
  }

  /** An escaped text between backticks decodes to the text itself and the
      literal ends at the intended backtick: no character of the SVG can end
      the literal early or open a substitution. */
  lemma {:induction false} RawRoundTrip(x: string, rest: string)
    ensures ReadRaw(Escape(x) + ("`" + rest)) == Defined(TemplateRead(x, rest))
    decreases |x|
  {
    var t := Escape(x) + ("`" + rest);
    if x == [] {
      assert t == "`" + rest;
    } else {
      RawRoundTrip(x[1..], rest);
      var tail := Escape(x[1..]) + ("`" + rest);
      var head := if Special(x[0]) then ['\\', x[0]] else [x[0]];
      assert t == head + tail;
      if Special(x[0]) {
        assert t[2..] == tail;
      } else {
        assert t[1..] == tail;
      }
      assert [x[0]] + x[1..] == x;
    }
  }

  /** The value of the literal is the text with its line ends normalised,
      and the text itself when it holds no CR. */
  lemma TemplateRoundTrip(x: string, rest: string)
    ensures ReadTemplate(Escape(x) + ("`" + rest)) == Defined(TemplateRead(NormalizeLineEnds(x), rest))
    ensures '\r' !in x ==> ReadTemplate(Escape(x) + ("`" + rest)) == Defined(TemplateRead(x, rest))
  {
    RawRoundTrip(x, rest);
    if '\r' !in x {
      NormalizeLineEndsWithoutCr(x);
    }
  }

  /** A CR LF line end written into the literal reads back as LF. */
  lemma CrLfReadsAsLf(x: string, y: string)
    requires x == ['>', '\r', '\n', '<'] && y == ['>', '\n', '<']
    ensures ReadTemplate(Escape(x) + "`") == Defined(TemplateRead(y, []))
  {
    TemplateRoundTrip(x, []);
    assert Escape(x) + "`" == Escape(x) + ("`" + []);
    var z := ['<'];
    assert NormalizeLineEnds(z) == z;
    assert x[1..][0] == '\r' && x[1..][1] == '\n' && x[1..][2..] == z;
    assert NormalizeLineEnds(x[1..]) == ['\n'] + z;
    assert NormalizeLineEnds(x) == ['>'] + NormalizeLineEnds(x[1..]);
    assert ['>'] + (['\n'] + z) == y;
  }

  /** The per-size rewrite of the script: rename ids and references, then
      escape for the template literal. */
  function ProcessSvgForSize(svg: string, size: Size): string {
    EscapeInPasses(SuffixUrls(SuffixIds(svg, size), size))
  }

  /** On a well-formed document, the variant of one size reads back, inside a
      template literal, as the document with every id and every reference
      carrying that size's suffix, and with its line ends normalised. */
  lemma ProcessedVariantReadsBack(doc: seq<Chunk>, size: Size, rest: string)
    requires WellFormedDoc(doc)
    ensures ReadTemplate(ProcessSvgForSize(Render(doc), size) + ("`" + rest))
         == Defined(TemplateRead(NormalizeLineEnds(Render(Rename(doc, SizeSuffix(size)))), rest))
  {
    RenameBothOfDoc(doc, size);
    var renamed := SuffixUrls(SuffixIds(Render(doc), size), size);
    PassesAreOneEscape(renamed);
    TemplateRoundTrip(renamed, rest);
  }
}
