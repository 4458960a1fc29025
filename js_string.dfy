/** The handful of ECMAScript string operations the flag resolvers rely on:
    `string | undefined` values, truthiness, `trim()` and `toUpperCase()`. */
module JsString {

  /** A value of the TypeScript type `T | undefined`. */
  datatype Optional<+T> = Undefined | Defined(value: T)

  /** `!x` is false exactly for `undefined` and the empty string. */
  predicate Truthy(s: Optional<string>) {
    s.Defined? && s.value != ""
  }

  /** ECMAScript WhiteSpace and LineTerminator code points: what
      `String.prototype.trim` removes and what the regex class `\s` matches. */
  predicate IsWhitespace(c: char) {
    || c == '\t' || c == '\n' || c == '\U{B}' || c == '\U{C}' || c == '\r' || c == ' '
    || c == '\U{A0}' || c == '\U{1680}' || ('\U{2000}' <= c <= '\U{200A}')
    || c == '\U{2028}' || c == '\U{2029}' || c == '\U{202F}' || c == '\U{205F}'
    || c == '\U{3000}' || c == '\U{FEFF}'
  }

  predicate AllWhitespace(s: string) {
    forall i | 0 <= i < |s| :: IsWhitespace(s[i])
  }

  /** Drops the longest all-whitespace prefix. */
  function TrimStart(s: string): string {
    if s != [] && IsWhitespace(s[0]) then TrimStart(s[1..]) else s
  }

  /** Drops the longest all-whitespace suffix. */
  function TrimEnd(s: string): string {
    if s != [] && IsWhitespace(s[|s| - 1]) then TrimEnd(s[..|s| - 1]) else s
  }

  /** `s.trim()`. */
  function Trim(s: string): string {
    TrimEnd(TrimStart(s))
  }

  /** TrimStart removes exactly the leading whitespace. */
  lemma {:induction false} TrimStartSpec(s: string)
    ensures var r := TrimStart(s);
      && |r| <= |s| && r == s[|s| - |r|..]
      && AllWhitespace(s[..|s| - |r|])
      && (r == [] || !IsWhitespace(r[0]))
    decreases |s|
  {
    if s != [] && IsWhitespace(s[0]) {
      TrimStartSpec(s[1..]);
      var r := TrimStart(s);
      assert s[..|s| - |r|] == [s[0]] + s[1..][..|s| - 1 - |r|];
    }
  }

  /** TrimEnd removes exactly the trailing whitespace. */
  lemma {:induction false} TrimEndSpec(s: string)
    ensures var r := TrimEnd(s);
      && |r| <= |s| && r == s[..|r|]
      && AllWhitespace(s[|r|..])
      && (r == [] || !IsWhitespace(r[|r| - 1]))
    decreases |s|
  {
    if s != [] && IsWhitespace(s[|s| - 1]) {
      TrimEndSpec(s[..|s| - 1]);
      var r := TrimEnd(s);
      assert s[|r|..] == s[..|s| - 1][|r|..] + [s[|s| - 1]];
    }
  }

  /** `trim()` leaves text that neither starts nor ends with whitespace, and
      leaves nothing exactly when the input is all whitespace. */
  lemma TrimSpec(s: string)
    ensures var r := Trim(s);
      && (r == [] || (!IsWhitespace(r[0]) && !IsWhitespace(r[|r| - 1])))
      && (r == [] <==> AllWhitespace(s))
  {
    var t := TrimStart(s);
    TrimStartSpec(s);
    TrimEndSpec(t);
    var r := TrimEnd(t);
    if r != [] {
      assert r[0] == t[0];
    } else {
      assert s == s[..|s| - |t|] + t;
    }
  }

  /** `toUpperCase()` on one character; only the ASCII letters change. */
  function UpperChar(c: char): (u: char)
    ensures IsWhitespace(u) <==> IsWhitespace(c)
    ensures !('a' <= u <= 'z')
  {
    if 'a' <= c <= 'z' then (c as int - 32) as char else c
  }

  /** `s.toUpperCase()`, character by character. */
  function ToUpper(s: string): (r: string)
    ensures |r| == |s|
  {
    seq(|s|, i requires 0 <= i < |s| => UpperChar(s[i]))
  }

  /** The key both resolvers look up: `s.trim().toUpperCase()`. */
  function Normalize(s: string): string {
    ToUpper(Trim(s))
  }

  lemma UpperCharIdempotent(c: char)
    ensures UpperChar(UpperChar(c)) == UpperChar(c)
  {
  }

  lemma {:induction false} TrimStartOfUpper(s: string)
    ensures TrimStart(ToUpper(s)) == ToUpper(TrimStart(s))
    decreases |s|
  {
    if s != [] {
      assert ToUpper(s)[1..] == ToUpper(s[1..]);
      TrimStartOfUpper(s[1..]);
    }
  }

  lemma {:induction false} TrimEndOfUpper(s: string)
    ensures TrimEnd(ToUpper(s)) == ToUpper(TrimEnd(s))
    decreases |s|
  {
    if s != [] {
      assert ToUpper(s)[..|s| - 1] == ToUpper(s[..|s| - 1]);
      TrimEndOfUpper(s[..|s| - 1]);
    }
  }

  /** Trimming and upper-casing commute, so the order the source applies them in
      does not matter for the model. */
  lemma TrimOfUpper(s: string)
    ensures Trim(ToUpper(s)) == ToUpper(Trim(s))
  {
    TrimStartOfUpper(s);
    TrimEndOfUpper(TrimStart(s));
  }

  lemma {:induction false} TrimStartAppend(s: string, q: string)
    requires !AllWhitespace(s)
    ensures TrimStart(s + q) == TrimStart(s) + q
    decreases |s|
  {
    if IsWhitespace(s[0]) {
      assert (s + q)[1..] == s[1..] + q;
      assert !AllWhitespace(s[1..]) by {
        var i :| 0 <= i < |s| && !IsWhitespace(s[i]);
        assert s[1..][i - 1] == s[i];
      }
      TrimStartAppend(s[1..], q);
    }
  }

  lemma {:induction false} TrimStartPrepend(p: string, s: string)
    requires AllWhitespace(p)
    ensures TrimStart(p + s) == TrimStart(s)
    decreases |p|
  {
    if p != [] {
      assert IsWhitespace((p + s)[0]) by { assert (p + s)[0] == p[0]; }
      assert (p + s)[1..] == p[1..] + s;
      assert TrimStart(p + s) == TrimStart(p[1..] + s);
      TrimStartPrepend(p[1..], s);
    } else {
      assert p + s == s;
    }
  }

  lemma {:induction false} TrimEndAppend(s: string, q: string)
    requires AllWhitespace(q)
    ensures TrimEnd(s + q) == TrimEnd(s)
    decreases |q|
  {
    if q != [] {
      assert IsWhitespace((s + q)[|s + q| - 1]) by { assert (s + q)[|s + q| - 1] == q[|q| - 1]; }
      assert (s + q)[..|s + q| - 1] == s + q[..|q| - 1];
      assert TrimEnd(s + q) == TrimEnd(s + q[..|q| - 1]);
      TrimEndAppend(s, q[..|q| - 1]);
      assert TrimEnd(s + q[..|q| - 1]) == TrimEnd(s);
    } else {
      assert s + q == s;
    }
  }

  lemma AllWhitespaceTrimStart(s: string)
    requires AllWhitespace(s)
    ensures TrimStart(s) == []
  {
  }

  /** Surrounding whitespace never reaches the trimmed text. */
  lemma TrimSurrounded(p: string, s: string, q: string)
    requires AllWhitespace(p) && AllWhitespace(q)
    ensures Trim(p + s + q) == Trim(s)
  {
    assert p + s + q == p + (s + q);
    TrimStartPrepend(p, s + q);
    if AllWhitespace(s) {
      assert AllWhitespace(s + q) by {
        forall i | 0 <= i < |s + q| ensures IsWhitespace((s + q)[i]) {
          if i >= |s| { assert (s + q)[i] == q[i - |s|]; }
        }
      }
      AllWhitespaceTrimStart(s + q);
      AllWhitespaceTrimStart(s);
    } else {
      TrimStartAppend(s, q);
      TrimEndAppend(TrimStart(s), q);
    }
  }

  /** The normalised key ignores letter case and surrounding whitespace. */
  lemma NormalizeInsensitive(p: string, a: string, q: string, b: string)
    requires AllWhitespace(p) && AllWhitespace(q)
    requires ToUpper(a) == ToUpper(b)
    ensures Normalize(p + a + q) == Normalize(b)
  {
    TrimSurrounded(p, a, q);
    TrimOfUpper(a);
    TrimOfUpper(b);
  }

  /** Normalising an already normalised key changes nothing. */
  lemma NormalizeIdempotent(s: string)
    ensures Normalize(Normalize(s)) == Normalize(s)
  {
    var t := Trim(s);
    TrimOfUpper(t);
    TrimIdempotent(s);
    forall i | 0 <= i < |t| ensures ToUpper(ToUpper(t))[i] == ToUpper(t)[i] {
      UpperCharIdempotent(t[i]);
    }
  }

  lemma TrimIdempotent(s: string)
    ensures Trim(Trim(s)) == Trim(s)
  {
    var r := Trim(s);
    TrimSpec(s);
    if r != [] {
      assert TrimStart(r) == r;
      assert TrimEnd(r) == r;
    }
  }
}
