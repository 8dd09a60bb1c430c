/** Values the end-to-end tests send, and the facts about them the scenarios need. */
module Fixtures {
  import JsStrings
  import opened Validation

  /** A run of `n` digit-one characters, as the tests build with `new Array(n).fill('1').join('')`. */
  function Ones(n: nat): (r: string)
    ensures |r| == n && forall i :: 0 <= i < n ==> r[i] == '1'
  {
    seq(n, _ => '1')
  }

  /** A run of ones is its own trim and `isLength` counts each of its characters. */
  lemma OnesMeasure(n: nat)
    ensures JsStrings.Trim(Ones(n)) == Ones(n) && Length(Ones(n)) == n
  {
    assert Length(Ones(n)) == n by { LengthWithoutSelectors(Ones(n)); }
    JsStrings.TrimKeepsUnpadded(Ones(n));
  }

  /** The long URL of the tests: 20 characters of prefix and 81 ones. */
  function LongUrl(): string {
    "http://www.test.com/" + Ones(81)
  }

  lemma LongUrlMeasure()
    ensures Length(LongUrl()) == 101
  {
    var url := LongUrl();
    forall i | 0 <= i < |url| ensures !IsVariationSelector(url[i]) {
      if i >= 20 { assert url[i] == Ones(81)[i - 20]; }
    }
    LengthWithoutSelectors(url);
  }

  /**
   * A printable ASCII string with no space at either end is its own trim,
   * and `isLength` counts each of its characters.
   */
  lemma AsciiMeasure(s: string)
    requires forall i :: 0 <= i < |s| ==> ' ' <= s[i] <= '~'
    requires s == [] || (s[0] != ' ' && s[|s| - 1] != ' ')
    ensures JsStrings.Trim(s) == s && Length(s) == |s|
  {
    assert Length(s) == |s| by { LengthWithoutSelectors(s); }
    JsStrings.TrimKeepsUnpadded(s);
  }

  lemma TestMeasure()
    ensures JsStrings.Trim("test") == "test" && Length("test") == 4
  {
    AsciiMeasure("test");
  }

  lemma TestUrlMeasure()
    ensures Length("http://www.test.com/") == 20
  {
    AsciiMeasure("http://www.test.com/");
  }

  lemma TitleMeasure()
    ensures JsStrings.Trim("title") == "title" && Length("title") == 5
  {
    AsciiMeasure("title");
  }

  lemma AuthorMeasure()
    ensures JsStrings.Trim("author") == "author" && Length("author") == 6
  {
    AsciiMeasure("author");
  }

  lemma HelloTitleMeasure()
    ensures JsStrings.Trim("hello title") == "hello title" && Length("hello title") == 11
  {
    AsciiMeasure("hello title");
  }

  lemma HelloAuthorMeasure()
    ensures JsStrings.Trim("hello author") == "hello author" && Length("hello author") == 12
  {
    AsciiMeasure("hello author");
  }
}
