/**
 * The parsed page, as the crawler queries it with CSS selectors: the text of
 * each <title>, the tag name of every element, the forms with the type
 * attribute of each input inside them, and the href of every anchor that has
 * one. The HTML parser that produces it is not part of this model.
 */
module Document {
  import opened Outcomes

  /** A <form>: the type attribute of each <input> inside it (None when the attribute is absent). */
  datatype Form = Form(inputTypes: seq<Option<string>>)

  datatype Page = Page(
    titleTexts: seq<string>,  // text content of each <title>, in document order
    tags: seq<string>,        // lower-case tag name of every element, in document order
    forms: seq<Form>,         // every <form>, in document order
    hrefs: seq<string>        // raw href value of every <a href>, in document order
  )

  // ----- Title -----

  /** unicode.IsSpace: the Latin-1 spaces and the other White_Space characters. */
  predicate IsSpace(c: char) {
    var n := c as int;
    n == 0x09 || n == 0x0A || n == 0x0B || n == 0x0C || n == 0x0D || n == 0x20
    || n == 0x85 || n == 0xA0 || n == 0x1680 || (0x2000 <= n <= 0x200A)
    || n == 0x2028 || n == 0x2029 || n == 0x202F || n == 0x205F || n == 0x3000
  }

  /** Every character of s at an index in [lo, hi) is a space. */
  predicate AllSpace(s: string, lo: int, hi: int) {
    forall k :: lo <= k < hi && 0 <= k < |s| ==> IsSpace(s[k])
  }

  /** The end of the run of spaces that starts at index i. */
  function SpacesEnd(s: string, i: nat): (n: nat)
    requires i <= |s|
    ensures i <= n <= |s|
    ensures AllSpace(s, i, n)
    ensures n < |s| ==> !IsSpace(s[n])
    decreases |s| - i
  {
    if i < |s| && IsSpace(s[i]) then SpacesEnd(s, i + 1) else i
  }

  /** The start of the run of spaces that ends at index j, not going below lo. */
  function SpacesStart(s: string, lo: nat, j: nat): (m: nat)
    requires lo <= j <= |s|
    ensures lo <= m <= j
    ensures AllSpace(s, m, j)
    ensures m > lo ==> !IsSpace(s[m - 1])
    decreases j
  {
    if j > lo && IsSpace(s[j - 1]) then SpacesStart(s, lo, j - 1) else j
  }

  /** strings.TrimSpace: the longest slice of s that neither starts nor ends with a space. */
  function TrimSpace(s: string): (r: string)
    ensures exists i, j :: 0 <= i <= j <= |s| && r == s[i..j] && AllSpace(s, 0, i) && AllSpace(s, j, |s|)
    ensures |r| > 0 ==> !IsSpace(r[0]) && !IsSpace(r[|r| - 1])
  {
    var i := SpacesEnd(s, 0);
    var j := SpacesStart(s, i, |s|);
    assert AllSpace(s, 0, i) && AllSpace(s, j, |s|);
    s[i..j]
  }

  /** Trimming a trimmed string changes nothing. */
  lemma TrimSpaceIdempotent(s: string)
    ensures TrimSpace(TrimSpace(s)) == TrimSpace(s)
  {
  }

  /** The page title: the trimmed text of the first <title>, or "" when there is none. */
  function Title(page: Page): (title: string)
    ensures |page.titleTexts| == 0 ==> title == ""
    ensures |page.titleTexts| > 0 ==> |title| <= |page.titleTexts[0]|
    ensures |title| > 0 ==> !IsSpace(title[0]) && !IsSpace(title[|title| - 1])
  {
    if |page.titleTexts| == 0 then "" else TrimSpace(page.titleTexts[0])
  }

  // ----- Headings -----

  /** Number of elements with the given tag name (doc.Find(name).Length()). */
  function CountTag(tags: seq<string>, name: string): (n: nat)
    ensures n <= |tags|
  {
    if |tags| == 0 then 0
    else CountTag(tags[..|tags| - 1], name) + (if tags[|tags| - 1] == name then 1 else 0)
  }

  predicate IsHeading(tag: string) {
    tag in {"h1", "h2", "h3", "h4", "h5", "h6"}
  }

  /** The heading elements of the page, in document order. */
  function Headings(tags: seq<string>): seq<string> {
    if |tags| == 0 then []
    else Headings(tags[..|tags| - 1]) + (if IsHeading(tags[|tags| - 1]) then [tags[|tags| - 1]] else [])
  }

  /** The six per-level counts together account for every heading element exactly once. */
  lemma {:induction false} HeadingCountsCoverHeadings(tags: seq<string>)
    ensures CountTag(tags, "h1") + CountTag(tags, "h2") + CountTag(tags, "h3")
          + CountTag(tags, "h4") + CountTag(tags, "h5") + CountTag(tags, "h6")
          == |Headings(tags)|
  {
    if |tags| > 0 {
      HeadingCountsCoverHeadings(tags[..|tags| - 1]);
    }
  }

  // ----- Login form -----

  /** Some input of the form has a type attribute equal to value. */
  predicate HasInputOfType(form: Form, value: string) {
    exists k :: 0 <= k < |form.inputTypes| && form.inputTypes[k] == Some(value)
  }

  /**
   * The form scan: visit the forms in order and stop at the first one that
   * has an input whose type attribute equals value.
   */
  function AnyFormHasInputOfType(forms: seq<Form>, value: string): (found: bool)
    ensures found <==> exists i :: 0 <= i < |forms| && HasInputOfType(forms[i], value)
  {
    if |forms| == 0 then false
    else if HasInputOfType(forms[0], value) then true
    else
      var rest := AnyFormHasInputOfType(forms[1..], value);
      assert forall i :: 1 <= i < |forms| ==> forms[i] == forms[1..][i - 1];
      rest
  }

  /** The type value a password input carries. */
  const PasswordType := "password"

  /**
   * The attribute value the selector at crawler.go:80 actually asks for. The
   * selector is written in a Go raw string, so its backslashes reach the CSS
   * parser, which reads \" as an escaped quote character: the value it compares
   * against is the ten characters "password" including both quotes.
   */
  const PasswordTypeAsWritten := "\"password\""

  /** Login detection as intended: some form contains a password input. */
  function HasLoginForm(forms: seq<Form>): (found: bool)
    ensures found <==> exists i, k :: 0 <= i < |forms| && 0 <= k < |forms[i].inputTypes|
                                     && forms[i].inputTypes[k] == Some("password")
  {
    AnyFormHasInputOfType(forms, PasswordType)
  }

  /** Login detection as written: some form contains an input whose type is literally "password" in quotes. */
  function HasLoginFormAsWritten(forms: seq<Form>): (found: bool)
    ensures found <==> exists i, k :: 0 <= i < |forms| && 0 <= k < |forms[i].inputTypes|
                                     && forms[i].inputTypes[k] == Some("\"password\"")
  {
    AnyFormHasInputOfType(forms, PasswordTypeAsWritten)
  }

  /**
   * The detection as written misses an ordinary login form
   * <form><input type="text"><input type="password"></form>, which the
   * intended detection finds.
   */
  lemma LoginSelectorAsWrittenMissesPasswordInput()
    ensures var forms := [Form([Some("text"), Some("password")])];
      HasLoginForm(forms) && !HasLoginFormAsWritten(forms)
  {
    var forms := [Form([Some("text"), Some("password")])];
    assert forms[0].inputTypes[1] == Some("password");
    assert "password" != "\"password\"" by {
      assert |"password"| != |"\"password\""|;
    }
  }

  /** As written, an input counts only if its type value carries the quote characters, so no
    * input whose type is an identifier without quotes (such as password) ever counts. */
  lemma AsWrittenNeverSeesUnquotedTypes(forms: seq<Form>)
    requires forall i, k :: 0 <= i < |forms| && 0 <= k < |forms[i].inputTypes| && forms[i].inputTypes[k].Some?
               ==> '"' !in forms[i].inputTypes[k].value
    ensures !HasLoginFormAsWritten(forms)
  {
  }
}
