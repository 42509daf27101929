/**
 * detectHTMLVersion: classification of a response body by the doctype found
 * in its first kilobyte.
 */
module Doctype {
  import opened Bytes

  /** The body is read through a limit of this many bytes. */
  const ScanLimit: nat := 1024

  /** One position of a search pattern: a literal character, or the regex dot. */
  datatype Atom = Lit(c: char) | AnyButNewline

  type Pattern = seq<Atom>

  /** The dot of Go's regexp syntax matches any character except a newline. */
  predicate AtomMatches(a: Atom, b: Byte) {
    match a
    case Lit(c) => b as int == c as int
    case AnyButNewline => b != Newline
  }

  /** p matches the bytes of s that start at offset i. */
  predicate MatchesAt(p: Pattern, s: seq<Byte>, i: nat) {
    i + |p| <= |s| && forall k :: 0 <= k < |p| ==> AtomMatches(p[k], s[i + k])
  }

  /** Unanchored search: p matches somewhere in s. */
  predicate Occurs(p: Pattern, s: seq<Byte>) {
    exists i: nat | i <= |s| :: MatchesAt(p, s, i)
  }

  /** The pattern strings.Contains looks for: every character literal. */
  function Literal(text: string): Pattern {
    seq(|text|, i requires 0 <= i < |text| => Lit(text[i]))
  }

  /** A regexp whose only metacharacter is '.'. */
  function DotRegex(text: string): Pattern {
    seq(|text|, i requires 0 <= i < |text| =>
      if text[i] == '.' then AnyButNewline else Lit(text[i]))
  }

  const Html5Text := "<!doctype html>"

  /** The two HTML 4.01 patterns share everything up to the dot of "4.01". */
  const Html4Head := "<!doctype html public \"-//w3c//dtd html 4"
  const StrictTail := "01//en\""
  const TransitionalTail := "01 transitional//en\""

  const StrictText := Html4Head + "." + StrictTail
  const TransitionalText := Html4Head + "." + TransitionalTail

  const Html5Marker: Pattern := Literal(Html5Text)
  const StrictRegex: Pattern := DotRegex(StrictText)
  const TransitionalRegex: Pattern := DotRegex(TransitionalText)

  datatype HtmlVersion = Html5 | Html401Strict | Html401Transitional | Unknown {
    /** The string detectHTMLVersion returns for this version. */
    function Name(): string {
      match this
      case Html5 => "HTML5"
      case Html401Strict => "HTML 4.01 Strict"
      case Html401Transitional => "HTML 4.01 Transitional"
      case Unknown => "Unknown"
    }
  }

  /** The part of the body the detector reads. */
  function Window(body: seq<Byte>): seq<Byte> {
    if |body| <= ScanLimit then body else body[..ScanLimit]
  }

  /** The lower-cased window that the three patterns are searched in. */
  function Scanned(body: seq<Byte>): seq<Byte> {
    LowerAll(Window(body))
  }

  /** Reference classification: the first pattern, in priority order, that occurs. */
  function Detect(body: seq<Byte>): HtmlVersion {
    var s := Scanned(body);
    if Occurs(Html5Marker, s) then Html5
    else if Occurs(StrictRegex, s) then Html401Strict
    else if Occurs(TransitionalRegex, s) then Html401Transitional
    else Unknown
  }

  /** Left-to-right search, as regexp.MatchString and strings.Contains perform it. */
  method Search(p: Pattern, s: seq<Byte>) returns (found: bool)
    ensures found <==> Occurs(p, s)
  {
    var i := 0;
    while i + |p| <= |s|
      invariant forall j: nat :: j < i ==> !MatchesAt(p, s, j)
      decreases |s| - i
    {
      var k := 0;
      while k < |p| && AtomMatches(p[k], s[i + k])
        invariant 0 <= k <= |p|
        invariant forall m :: 0 <= m < k ==> AtomMatches(p[m], s[i + m])
      {
        k := k + 1;
      }
      if k == |p| {
        assert MatchesAt(p, s, i);
        return true;
      }
      assert !AtomMatches(p[k], s[i + k]);
      i := i + 1;
    }
    return false;
  }

  /**
   * detectHTMLVersion: read at most ScanLimit bytes, lower-case them, then
   * test the HTML5 marker, the Strict pattern and the Transitional pattern in
   * that order.
   */
  method DetectHTMLVersion(body: seq<Byte>) returns (name: string)
    ensures name in {"HTML5", "HTML 4.01 Strict", "HTML 4.01 Transitional", "Unknown"}
    ensures name == "HTML5" <==> Occurs(Html5Marker, Scanned(body))
    ensures name == "HTML 4.01 Strict" <==>
      !Occurs(Html5Marker, Scanned(body)) && Occurs(StrictRegex, Scanned(body))
    ensures name == "HTML 4.01 Transitional" <==>
      !Occurs(Html5Marker, Scanned(body)) && !Occurs(StrictRegex, Scanned(body))
      && Occurs(TransitionalRegex, Scanned(body))
    ensures name == "Unknown" <==>
      !Occurs(Html5Marker, Scanned(body)) && !Occurs(StrictRegex, Scanned(body))
      && !Occurs(TransitionalRegex, Scanned(body))
    ensures name == Detect(body).Name()
  {
    var text: seq<Byte> := [];
    var i := 0;
    while i < |body| && i < ScanLimit
      invariant 0 <= i <= |body| && i <= ScanLimit
      invariant |text| == i
      invariant forall j :: 0 <= j < i ==> text[j] == Lower(body[j])
    {
      text := text + [Lower(body[i])];
      i := i + 1;
    }
    assert text == Scanned(body);
    var html5 := Search(Html5Marker, text);
    if html5 {
      return "HTML5";
    }
    var strict := Search(StrictRegex, text);
    if strict {
      return "HTML 4.01 Strict";
    }
    var transitional := Search(TransitionalRegex, text);
    if transitional {
      return "HTML 4.01 Transitional";
    }
    return "Unknown";
  }

  /** Bytes past the first ScanLimit never change the classification. */
  lemma DetectReadsOnlyWindow(head: seq<Byte>, tail: seq<Byte>)
    requires |head| >= ScanLimit
    ensures Detect(head + tail) == Detect(head)
  {
    if |tail| > 0 {
      assert (head + tail)[..ScanLimit] == head[..ScanLimit];
    } else {
      assert head + tail == head;
    }
  }

  /** Two bodies equal up to ASCII case are classified alike. */
  lemma DetectIgnoresCase(a: seq<Byte>, b: seq<Byte>)
    requires LowerAll(a) == LowerAll(b)
    ensures Detect(a) == Detect(b)
  {
    assert |a| == |LowerAll(a)| == |b|;
    if |a| > ScanLimit {
      LowerAllPrefix(a, ScanLimit);
      LowerAllPrefix(b, ScanLimit);
    }
    assert Scanned(a) == Scanned(b);
  }

  /** In particular, a body and its lower-cased form are classified alike. */
  lemma DetectOfLowered(body: seq<Byte>)
    ensures Detect(LowerAll(body)) == Detect(body)
  {
    LowerAllIdempotent(body);
    DetectIgnoresCase(LowerAll(body), body);
  }

  /** The HTML5 marker in any capitalisation, anywhere in the window, makes the result HTML5. */
  lemma Html5MarkerInAnyCase(body: seq<Byte>, i: nat)
    requires i + |Html5Text| <= |body| && i + |Html5Text| <= ScanLimit
    requires forall k :: 0 <= k < |Html5Text| ==> Lower(body[i + k]) as int == Html5Text[k] as int
    ensures Detect(body) == Html5
  {
    var s := Scanned(body);
    forall k | 0 <= k < |Html5Marker|
      ensures AtomMatches(Html5Marker[k], s[i + k])
    {
      assert Window(body)[i + k] == body[i + k];
    }
    assert MatchesAt(Html5Marker, s, i);
  }

  lemma MatchesAtConcat(a: Pattern, b: Pattern, s: seq<Byte>, i: nat)
    ensures MatchesAt(a + b, s, i) <==> MatchesAt(a, s, i) && MatchesAt(b, s, i + |a|)
  {
    if MatchesAt(a, s, i) && MatchesAt(b, s, i + |a|) {
      forall k | 0 <= k < |a + b|
        ensures AtomMatches((a + b)[k], s[i + k])
      {
        if k >= |a| {
          assert AtomMatches(b[k - |a|], s[i + |a| + (k - |a|)]);
        }
      }
    }
    if MatchesAt(a + b, s, i) {
      forall k | 0 <= k < |a|
        ensures AtomMatches(a[k], s[i + k])
      {
        assert AtomMatches((a + b)[k], s[i + k]);
      }
      forall k | 0 <= k < |b|
        ensures AtomMatches(b[k], s[i + |a| + k])
      {
        assert AtomMatches((a + b)[|a| + k], s[i + (|a| + k)]);
      }
    }
  }

  lemma WildcardMatchesAt(s: seq<Byte>, j: nat)
    ensures MatchesAt([AnyButNewline], s, j) <==> j < |s| && s[j] != Newline
  {
    if j < |s| && s[j] != Newline {
      assert AtomMatches([AnyButNewline][0], s[j + 0]);
    }
    if MatchesAt([AnyButNewline], s, j) {
      assert AtomMatches([AnyButNewline][0], s[j + 0]);
    }
  }

  /** Around a single dot, a dot-regex is the literal text before it, the wildcard, and the literal text after it. */
  lemma DotRegexSplit(head: string, tail: string)
    requires '.' !in head && '.' !in tail
    ensures DotRegex(head + "." + tail) == Literal(head) + [AnyButNewline] + Literal(tail)
  {
    var t := head + "." + tail;
    var r := Literal(head) + [AnyButNewline] + Literal(tail);
    assert |DotRegex(t)| == |r|;
    forall k | 0 <= k < |t|
      ensures DotRegex(t)[k] == r[k]
    {
      if k < |head| {
        assert t[k] == head[k];
      } else if k > |head| {
        assert t[k] == tail[k - |head| - 1];
      }
    }
  }

  /**
   * The version dot of the Strict pattern is its only wildcard: it matches
   * exactly the literal text around the dot, with any byte but a newline in
   * the dot's place.
   */
  lemma StrictPatternShape(s: seq<Byte>, i: nat)
    ensures MatchesAt(StrictRegex, s, i) <==>
      && MatchesAt(Literal(Html4Head), s, i)
      && i + |Html4Head| < |s| && s[i + |Html4Head|] != Newline
      && MatchesAt(Literal(StrictTail), s, i + |Html4Head| + 1)
  {
    DotRegexSplit(Html4Head, StrictTail);
    MatchesAtConcat(Literal(Html4Head) + [AnyButNewline], Literal(StrictTail), s, i);
    MatchesAtConcat(Literal(Html4Head), [AnyButNewline], s, i);
    assert |Literal(Html4Head)| == |Html4Head|;
    WildcardMatchesAt(s, i + |Html4Head|);
  }

  /** The same holds for the Transitional pattern. */
  lemma TransitionalPatternShape(s: seq<Byte>, i: nat)
    ensures MatchesAt(TransitionalRegex, s, i) <==>
      && MatchesAt(Literal(Html4Head), s, i)
      && i + |Html4Head| < |s| && s[i + |Html4Head|] != Newline
      && MatchesAt(Literal(TransitionalTail), s, i + |Html4Head| + 1)
  {
    DotRegexSplit(Html4Head, TransitionalTail);
    MatchesAtConcat(Literal(Html4Head) + [AnyButNewline], Literal(TransitionalTail), s, i);
    MatchesAtConcat(Literal(Html4Head), [AnyButNewline], s, i);
    assert |Literal(Html4Head)| == |Html4Head|;
    WildcardMatchesAt(s, i + |Html4Head|);
  }
}
