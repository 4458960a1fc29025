/** Resolution of any ISO 3166-1 code form (alpha-2, alpha-3 or numeric) to
    the alpha-2 code of the matching record of an ordered country table. */
module IsoCode {
  import opened JsString

  /** One record of the packaged country table. */
  datatype CountryCode = CountryCode(countryName: string, alpha2: string, alpha3: string, numeric: string)

  /** The record answers to `code` in one of its three code columns. */
  predicate HasCode(c: CountryCode, code: string) {
    c.alpha2 == code || c.alpha3 == code || c.numeric == code
  }

  predicate SomeRecordHas(table: seq<CountryCode>, code: string) {
    exists i | 0 <= i < |table| :: HasCode(table[i], code)
  }

  /** The position at which `Array.prototype.find` stops: the first record
      answering to `code`, or undefined when none does. */
  function FindIndex(table: seq<CountryCode>, code: string): (r: Optional<nat>)
    ensures r.Defined? ==> r.value < |table| && HasCode(table[r.value], code)
    ensures r.Defined? ==> forall j | 0 <= j < r.value :: !HasCode(table[j], code)
    ensures r.Undefined? <==> !SomeRecordHas(table, code)
  {
    if table == [] then Undefined
    else if HasCode(table[0], code) then Defined(0)
    else
      match FindIndex(table[1..], code)
      case Undefined =>
        assert forall j | 1 <= j < |table| :: table[j] == table[1..][j - 1];
        Undefined
      case Defined(k) =>
        assert table[k + 1] == table[1..][k];
        assert forall j | 1 <= j <= k :: table[j] == table[1..][j - 1];
        Defined(k + 1)
  }

  /** `isoToAlpha2`: falsy input short-circuits without looking at the table;
      any other input is trimmed and upper-cased and the first record answering
      to it gives its alpha-2 code. */
  function IsoToAlpha2(table: seq<CountryCode>, isoCode: Optional<string>): (r: Optional<string>)
    ensures !Truthy(isoCode) ==> r == Undefined
    ensures Truthy(isoCode) ==> (r.Defined? <==> SomeRecordHas(table, Normalize(isoCode.value)))
    ensures r.Defined? ==> exists i | 0 <= i < |table| ::
      && r.value == table[i].alpha2
      && HasCode(table[i], Normalize(isoCode.value))
      && forall j | 0 <= j < i :: !HasCode(table[j], Normalize(isoCode.value))
  {
    if !Truthy(isoCode) then Undefined
    else
      match FindIndex(table, Normalize(isoCode.value))
      case Undefined => Undefined
      case Defined(i) => Defined(table[i].alpha2)
  }

  /** `isValidIsoCode`: the input is non-empty and some record answers to its
      normalised form. */
  function IsValidIsoCode(table: seq<CountryCode>, isoCode: Optional<string>): (b: bool)
    ensures b <==> Truthy(isoCode) && SomeRecordHas(table, Normalize(isoCode.value))
  {
    IsoToAlpha2(table, isoCode).Defined?
  }

  /** Inputs that differ only in ASCII letter case and surrounding whitespace
      resolve identically, whatever the table. */
  lemma CaseAndWhitespaceInsensitive(table: seq<CountryCode>, p: string, a: string, q: string, b: string)
    requires AllWhitespace(p) && AllWhitespace(q)
    requires a != [] && ToUpper(a) == ToUpper(b)
    ensures IsoToAlpha2(table, Defined(p + a + q)) == IsoToAlpha2(table, Defined(b))
  {
    NormalizeInsensitive(p, a, q, b);
  }

  /** The guard only catches "": a whitespace-only input is normalised to ""
      and searched for like any other key. */
  lemma WhitespaceOnlyIsSearched(table: seq<CountryCode>, s: string)
    requires s != [] && AllWhitespace(s)
    ensures IsoToAlpha2(table, Defined(s)).Defined? <==> SomeRecordHas(table, "")
  {
    TrimSpec(s);
  }

  predicate IsUpperLetter(c: char) { 'A' <= c <= 'Z' }
  predicate IsDigit(c: char) { '0' <= c <= '9' }

  predicate AllLetters(s: string) { forall k | 0 <= k < |s| :: IsUpperLetter(s[k]) }
  predicate AllDigits(s: string) { forall k | 0 <= k < |s| :: IsDigit(s[k]) }

  /** A record as the ISO 3166-1 table has them: two and three upper-case
      letters and a three-digit numeric code. */
  predicate WellFormed(c: CountryCode) {
    && |c.alpha2| == 2 && AllLetters(c.alpha2)
    && |c.alpha3| == 3 && AllLetters(c.alpha3)
    && |c.numeric| == 3 && AllDigits(c.numeric)
  }

  /** Every record well formed, and no two records share a code in any column. */
  predicate WellFormedTable(table: seq<CountryCode>) {
    && (forall i | 0 <= i < |table| :: WellFormed(table[i]))
    && (forall i, j | 0 <= i < j < |table| ::
          && table[i].alpha2 != table[j].alpha2
          && table[i].alpha3 != table[j].alpha3
          && table[i].numeric != table[j].numeric)
  }

  /** A well-formed code is its own normal form. */
  lemma NormalFormOfCode(code: string)
    requires |code| > 0 && (AllLetters(code) || AllDigits(code))
    ensures Normalize(code) == code
  {
    assert !IsWhitespace(code[0]) && !IsWhitespace(code[|code| - 1]);
    assert TrimStart(code) == code;
    assert TrimEnd(code) == code;
    assert ToUpper(code) == code;
  }

  lemma NormalFormOfRecord(c: CountryCode)
    requires WellFormed(c)
    ensures Normalize(c.alpha2) == c.alpha2
    ensures Normalize(c.alpha3) == c.alpha3
    ensures Normalize(c.numeric) == c.numeric
  {
    NormalFormOfCode(c.alpha2);
    NormalFormOfCode(c.alpha3);
    NormalFormOfCode(c.numeric);
  }

  /** In a well-formed table each code of a record answers only for that record. */
  lemma OnlyOwnerHasCode(table: seq<CountryCode>, i: nat, j: nat, code: string)
    requires WellFormedTable(table) && i < |table| && j < |table|
    requires code == table[i].alpha2 || code == table[i].alpha3 || code == table[i].numeric
    requires HasCode(table[j], code)
    ensures j == i
  {
    assert WellFormed(table[i]) && WellFormed(table[j]);
  }

  /** A record's own code leads the search to that record. */
  lemma ResolvesOwnCode(table: seq<CountryCode>, i: nat, code: string)
    requires WellFormedTable(table) && i < |table|
    requires code == table[i].alpha2 || code == table[i].alpha3 || code == table[i].numeric
    requires Normalize(code) == code
    ensures IsoToAlpha2(table, Defined(code)) == Defined(table[i].alpha2)
  {
    assert HasCode(table[i], code);
    var r := FindIndex(table, code);
    OnlyOwnerHasCode(table, i, r.value, code);
  }

  /** Every record resolves to itself from each of its three codes. */
  lemma ResolvesEveryCode(table: seq<CountryCode>, i: nat)
    requires WellFormedTable(table) && i < |table|
    ensures IsoToAlpha2(table, Defined(table[i].alpha2)) == Defined(table[i].alpha2)
    ensures IsoToAlpha2(table, Defined(table[i].alpha3)) == Defined(table[i].alpha2)
    ensures IsoToAlpha2(table, Defined(table[i].numeric)) == Defined(table[i].alpha2)
  {
    NormalFormOfRecord(table[i]);
    ResolvesOwnCode(table, i, table[i].alpha2);
    ResolvesOwnCode(table, i, table[i].alpha3);
    ResolvesOwnCode(table, i, table[i].numeric);
  }

  /** The examples of the source's documentation: with the United States record
      in a well-formed table, "USA", "840" and "US" all resolve to "US". */
  lemma UnitedStatesExamples(table: seq<CountryCode>, i: nat)
    requires WellFormedTable(table) && i < |table|
    requires table[i] == CountryCode("United States", "US", "USA", "840")
    ensures IsoToAlpha2(table, Defined("USA")) == Defined("US")
    ensures IsoToAlpha2(table, Defined("840")) == Defined("US")
    ensures IsoToAlpha2(table, Defined("US")) == Defined("US")
    ensures IsValidIsoCode(table, Defined("840"))
  {
    ResolvesEveryCode(table, i);
  }

  /** A padded lower-case spelling resolves like the code: " us " gives "US". */
  lemma PaddedLowerCaseExample(table: seq<CountryCode>, i: nat)
    requires WellFormedTable(table) && i < |table|
    requires table[i] == CountryCode("United States", "US", "USA", "840")
    ensures IsoToAlpha2(table, Defined(" us ")) == Defined("US")
  {
    NormalFormOfRecord(table[i]);
    ResolvesOwnCode(table, i, "US");
    assert AllWhitespace(" ");
    assert ToUpper("us") == "US" by {
      assert UpperChar('u') == 'U' && UpperChar('s') == 'S';
    }
    assert " us " == " " + "us" + " ";
    CaseAndWhitespaceInsensitive(table, " ", "us", " ", "US");
  }

  /** A lower-case alpha-3 code resolves like the code: "gbr" gives "GB". */
  lemma LowerCaseAlpha3Example(table: seq<CountryCode>, i: nat)
    requires WellFormedTable(table) && i < |table|
    requires table[i] == CountryCode("United Kingdom", "GB", "GBR", "826")
    ensures IsoToAlpha2(table, Defined("gbr")) == Defined("GB")
  {
    NormalFormOfRecord(table[i]);
    ResolvesOwnCode(table, i, "GBR");
    assert ToUpper("gbr") == "GBR" by {
      assert UpperChar('g') == 'G' && UpperChar('b') == 'B' && UpperChar('r') == 'R';
    }
    assert "gbr" == [] + "gbr" + [];
    CaseAndWhitespaceInsensitive(table, [], "gbr", [], "GBR");
  }

  /** A code that no record carries is not resolved and not valid. */
  lemma UnknownCodeIsInvalid(table: seq<CountryCode>, s: string)
    requires !SomeRecordHas(table, Normalize(s))
    ensures IsoToAlpha2(table, Defined(s)) == Undefined
    ensures !IsValidIsoCode(table, Defined(s))
  {
  }
}
