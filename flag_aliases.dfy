/** The alias table: informal names that share a flag with a canonical code. */
module FlagAlias {
  import opened JsString

  /** `FLAG_ALIASES`: upper-case alias to canonical flag code. "001" is the
      globe flag (the UN M.49 code of the world). */
  const FlagAliases: map<string, string> := map[
    "EARTH" := "001",
    "GLOBE" := "001",
    "GLOBAL" := "001",
    "WORLD" := "001",
    "INTERNATIONAL" := "001",
    "UK" := "GB"
  ]

  /** `resolveFlagAlias`: falsy input gives undefined; otherwise the trimmed,
      upper-cased input is looked up, a truthy entry is returned as it is, and
      on a miss the ORIGINAL input comes back, neither trimmed nor upper-cased. */
  function ResolveFlagAlias(code: Optional<string>): (r: Optional<string>)
    ensures !Truthy(code) ==> r == Undefined
    ensures Truthy(code) && Normalize(code.value) in FlagAliases ==> r == Defined(FlagAliases[Normalize(code.value)])
    ensures Truthy(code) && Normalize(code.value) !in FlagAliases ==> r == code
  {
    if !Truthy(code) then Undefined
    else
      var key := Normalize(code.value);
      if key in FlagAliases && FlagAliases[key] != "" then Defined(FlagAliases[key]) else code
  }

  /** Names a plain JavaScript object inherits from `Object.prototype`. */
  const ObjectPrototypeNames: set<string> := {
    "constructor", "__proto__", "hasOwnProperty", "isPrototypeOf",
    "propertyIsEnumerable", "toString", "toLocaleString", "valueOf",
    "__defineGetter__", "__defineSetter__", "__lookupGetter__", "__lookupSetter__"
  }

  predicate HasLowerCase(s: string) {
    exists k | 0 <= k < |s| :: 'a' <= s[k] <= 'z'
  }

  lemma PrototypeNamesHaveLowerCase()
    ensures forall n | n in ObjectPrototypeNames :: HasLowerCase(n)
  {
    assert HasLowerCase("constructor") by { assert "constructor"[0] == 'c'; }
    assert HasLowerCase("__proto__") by { assert "__proto__"[2] == 'p'; }
    assert HasLowerCase("hasOwnProperty") by { assert "hasOwnProperty"[0] == 'h'; }
    assert HasLowerCase("isPrototypeOf") by { assert "isPrototypeOf"[0] == 'i'; }
    assert HasLowerCase("propertyIsEnumerable") by { assert "propertyIsEnumerable"[0] == 'p'; }
    assert HasLowerCase("toString") by { assert "toString"[0] == 't'; }
    assert HasLowerCase("toLocaleString") by { assert "toLocaleString"[0] == 't'; }
    assert HasLowerCase("valueOf") by { assert "valueOf"[0] == 'v'; }
    assert HasLowerCase("__defineGetter__") by { assert "__defineGetter__"[2] == 'd'; }
    assert HasLowerCase("__defineSetter__") by { assert "__defineSetter__"[2] == 'd'; }
    assert HasLowerCase("__lookupGetter__") by { assert "__lookupGetter__"[2] == 'l'; }
    assert HasLowerCase("__lookupSetter__") by { assert "__lookupSetter__"[2] == 'l'; }
  }

  /** An upper-cased lookup key can never hit an inherited property, so the
      own entries of the table are the only ones that can answer. */
  lemma LookupNeverInherited(s: string)
    ensures Normalize(s) !in ObjectPrototypeNames
  {
    PrototypeNamesHaveLowerCase();
    var key := Normalize(s);
    assert !HasLowerCase(key) by {
      forall k | 0 <= k < |key| ensures !('a' <= key[k] <= 'z') {
        assert key[k] == UpperChar(Trim(s)[k]);
      }
    }
  }

  /** The canonical codes are their own normal form and are not aliases. */
  lemma CanonicalCodesAreFixed()
    ensures forall v | v in FlagAliases.Values :: Normalize(v) == v && v !in FlagAliases
  {
    forall v | v in FlagAliases.Values ensures v == "001" || v == "GB" {
      var k :| k in FlagAliases && FlagAliases[k] == v;
    }
    assert TrimStart("001") == "001" && TrimEnd("001") == "001";
    assert ToUpper("001") == "001";
    assert TrimStart("GB") == "GB" && TrimEnd("GB") == "GB";
    assert ToUpper("GB") == "GB";
  }

  /** The result is either the input itself or one of the canonical codes. */
  lemma InputOrCanonical(code: Optional<string>)
    ensures var r := ResolveFlagAlias(code);
      r == code || (r.Defined? && r.value in FlagAliases.Values) || r == Undefined
  {
  }

  /** Resolving twice is resolving once: no canonical code is itself an alias. */
  lemma ResolveIdempotent(code: Optional<string>)
    ensures ResolveFlagAlias(ResolveFlagAlias(code)) == ResolveFlagAlias(code)
  {
    var r := ResolveFlagAlias(code);
    if Truthy(code) && Normalize(code.value) in FlagAliases {
      CanonicalCodesAreFixed();
      assert r.value in FlagAliases.Values;
    }
  }

  /** Every spelling whose normal form is one of the five globe aliases
      converges on "001", and every spelling of "UK" on "GB". */
  lemma AliasesConverge(s: string)
    ensures Normalize(s) in {"EARTH", "GLOBE", "GLOBAL", "WORLD", "INTERNATIONAL"}
      ==> ResolveFlagAlias(Defined(s)) == Defined("001")
    ensures Normalize(s) == "UK" ==> ResolveFlagAlias(Defined(s)) == Defined("GB")
  {
    if s == "" {
      assert Normalize(s) == "";
    }
  }

  /** Text with no surrounding whitespace is looked up by its upper-case form. */
  lemma NormalizeOfKeyText(s: string)
    requires s != [] && !IsWhitespace(s[0]) && !IsWhitespace(s[|s| - 1])
    ensures Normalize(s) == ToUpper(s)
  {
    assert TrimStart(s) == s;
    assert TrimEnd(s) == s;
  }

  /** Every key of the alias table is written in its normal form, trimmed and
      upper-case, so the lookup of `resolveFlagAlias` reaches each entry. */
  lemma EveryAliasReachable()
    ensures forall k | k in FlagAliases :: Normalize(k) == k
    ensures forall k | k in FlagAliases :: ResolveFlagAlias(Defined(k)) == Defined(FlagAliases[k])
  {
    forall k | k in FlagAliases ensures Normalize(k) == k {
      UpperTextIsNormal(k);
    }
  }

  /** Non-empty text of upper-case letters is its own normal form. */
  lemma UpperTextIsNormal(k: string)
    requires k != [] && forall i | 0 <= i < |k| :: 'A' <= k[i] <= 'Z'
    ensures Normalize(k) == k
  {
    NormalizeOfKeyText(k);
    assert ToUpper(k) == k;
  }

  /** The globe aliases of the alias test script, in the spellings it uses. */
  lemma GlobeExamples()
    ensures ResolveFlagAlias(Defined("Earth")) == Defined("001")
    ensures ResolveFlagAlias(Defined("EARTH")) == Defined("001")
    ensures ResolveFlagAlias(Defined("earth")) == Defined("001")
    ensures ResolveFlagAlias(Defined("Globe")) == Defined("001")
  {
    NormalizeOfKeyText("Earth");
    assert ToUpper("Earth") == "EARTH";
    NormalizeOfKeyText("EARTH");
    assert ToUpper("EARTH") == "EARTH";
    NormalizeOfKeyText("earth");
    assert ToUpper("earth") == "EARTH";
    NormalizeOfKeyText("Globe");
    assert ToUpper("Globe") == "GLOBE";
  }

  /** The other three globe aliases of the alias test script. */
  lemma MoreGlobeExamples()
    ensures ResolveFlagAlias(Defined("Global")) == Defined("001")
    ensures ResolveFlagAlias(Defined("World")) == Defined("001")
    ensures ResolveFlagAlias(Defined("International")) == Defined("001")
  {
    NormalizeOfKeyText("Global");
    assert ToUpper("Global") == "GLOBAL";
    NormalizeOfKeyText("World");
    assert ToUpper("World") == "WORLD";
    NormalizeOfKeyText("International");
    assert ToUpper("International") == "INTERNATIONAL";
  }

  /** The remaining cases of the alias test script, plus "UK" and the
      lower-case passthrough. */
  lemma PassthroughExamples()
    ensures ResolveFlagAlias(Defined("UK")) == Defined("GB")
    ensures ResolveFlagAlias(Defined("001")) == Defined("001")
    ensures ResolveFlagAlias(Defined("US")) == Defined("US")
    ensures ResolveFlagAlias(Defined("us")) == Defined("us")
    ensures ResolveFlagAlias(Defined("GB")) == Defined("GB")
    ensures ResolveFlagAlias(Defined("")) == Undefined
    ensures ResolveFlagAlias(Undefined) == Undefined
  {
    CanonicalCodesAreFixed();
    NormalizeOfKeyText("UK");
    assert ToUpper("UK") == "UK";
    NormalizeOfKeyText("US");
    assert ToUpper("US") == "US";
    NormalizeOfKeyText("us");
    assert ToUpper("us") == "US";
  }
}
