/**
 * The wikitext line tokeniser of libs/wikitext/src/parsers/block.rs.
 *
 * A line is scanned left to right; the character under the cursor picks a
 * parser, the parser returns an element and a step count, and the cursor
 * moves `steps + 1` characters on (the source's `iter.nth(steps)`).
 * Strings are ASCII, so byte and character offsets coincide and none of
 * the source's slicing calls can fail.
 *
 * `Parse` and its helpers are the specification; the methods below them
 * are the source's scanning loops, each proved equal to its specification.
 */
module BlockParser {
  import opened Strings

  datatype Element =
    | Heading(children: seq<Element>)
    | PageLink(link: string)
    | Quote(children: seq<Element>)
    | EmptySpace(space: string)
    | Text(text: string)
    | HyperLink(url: string)
    | IndentationLevel(level: nat)

  /** What a parser returns: the element and how many further characters it used. */
  datatype Parsed = Parsed(elem: Element, steps: nat)

  /** The characters that end a word. */
  const Breaks: set<char> := {' ', '\t', '\r', '\n'}
  /** The characters skipped after a heading or quote marker. */
  const Blanks: set<char> := {' ', '\t'}

  /** Length of the longest prefix of `s` made of characters in `cs`. */
  function Span(s: string, cs: set<char>): (n: nat)
    ensures n <= |s|
    ensures forall j :: 0 <= j < n ==> s[j] in cs
    ensures n < |s| ==> s[n] !in cs
  {
    if s != [] && s[0] in cs then 1 + Span(s[1..], cs) else 0
  }

  /** Length of the longest prefix of `s` with no character in `cs`. */
  function SpanNot(s: string, cs: set<char>): (n: nat)
    ensures n <= |s|
    ensures forall j :: 0 <= j < n ==> s[j] !in cs
    ensures n < |s| ==> s[n] in cs
  {
    if s != [] && s[0] !in cs then 1 + SpanNot(s[1..], cs) else 0
  }

  /**
   * The lines the model accepts.  A line that is a single tab, or whose
   * scan reaches a slice that is exactly "[[" (such as "x [["), makes the
   * source subtract below zero.  The second kind is excluded by asking
   * that the line not end in "[[", which also excludes lines the source
   * parses without trouble, such as "x[[" and "[[a[[".
   */
  predicate Parsable(s: string) {
    s != "\t" && !EndsWith(s, "[[")
  }

  /** Where `until_empty_space` ends the word: one past its last character, and at least 1. */
  function WordEnd(slice: string): (n: nat)
    requires slice != []
    ensures 1 <= n <= |slice|
    ensures n > 1 ==> forall j :: 0 <= j < n ==> slice[j] !in Breaks
    ensures n < |slice| && slice[0] !in Breaks ==> slice[n] in Breaks
  {
    var w := SpanNot(slice, Breaks);
    if w == 0 then 1 else w
  }

  /**
   * `content.starts_with("http://") || content.starts_with("https://")`,
   * spelled out character by character (`IsUrlPrefixes` proves the two agree).
   */
  predicate IsUrl(content: string) {
    |content| >= 7 && content[0] == 'h' && content[1] == 't' && content[2] == 't' && content[3] == 'p' &&
    ((content[4] == ':' && content[5] == '/' && content[6] == '/') ||
     (|content| >= 8 && content[4] == 's' && content[5] == ':' && content[6] == '/' && content[7] == '/'))
  }

  /** The character-level `IsUrl` is exactly the two `starts_with` tests. */
  lemma IsUrlPrefixes(content: string)
    ensures IsUrl(content) <==> StartsWith(content, "http://") || StartsWith(content, "https://")
  {
    if StartsWith(content, "http://") {
      assert content[..7][4] == ':';
    }
    if StartsWith(content, "https://") {
      assert content[..8][4] == 's';
    }
    if IsUrl(content) && content[4] == ':' {
      assert content[..7] == "http://";
    } else if IsUrl(content) {
      assert content[..8] == "https://";
    }
  }

  /** `parse_text`. */
  function TextToken(slice: string): Parsed
    requires slice != []
  {
    var end := WordEnd(slice);
    var content := slice[..end];
    if IsUrl(content) then
      if content[end - 1] == ')' || content[end - 1] == ']' then
        Parsed(HyperLink(content[..end - 1]), end - 2)
      else
        Parsed(HyperLink(content), end - 1)
    else if content[0] == '(' then
      Parsed(Text("("), 0)
    else
      Parsed(Text(content), end - 1)
  }

  /** `parse_empty_space`. */
  function SpaceToken(): Parsed {
    Parsed(EmptySpace(" "), 0)
  }

  /** `parse_indentation`: the level is the index of the first non-tab (the last index when all are tabs). */
  function IndentToken(slice: string): (p: Parsed)
    requires slice != [] && slice[0] == '\t' && slice != "\t"
    ensures p.elem.IndentationLevel? && p.elem.level >= 1 && p.steps == p.elem.level - 1
  {
    var n := Span(slice, {'\t'});
    assert |slice| == 1 ==> slice == "\t";
    var level := if n == |slice| then n - 1 else n;
    Parsed(IndentationLevel(level), level - 1)
  }

  /**
   * `parse_link`: "[[" scans to the first ']' (to the last character when
   * there is none) and the link text lies between; any other '[' is text.
   */
  function LinkToken(slice: string): Parsed
    requires slice != [] && slice[0] == '[' && slice != "[["
  {
    if StartsWith(slice, "[[") then
      assert |slice| == 2 ==> slice == "[[";
      var close := 2 + SpanNot(slice[2..], {']'});
      var idx := if close == |slice| then |slice| - 1 else close;
      Parsed(PageLink(slice[2..idx]), idx + 1)
    else
      Parsed(Text("["), 0)
  }

  /** Index of the first character after a heading or quote marker and its blanks. */
  function BodyStart(s: string): (k: nat)
    requires s != []
    ensures 1 <= k <= |s|
    ensures k < |s| ==> s[k] !in Blanks
  {
    1 + Span(s[1..], Blanks)
  }

  lemma {:induction false} SuffixParsable(s: string, k: nat)
    requires Parsable(s) && 1 <= k < |s| && s[k] !in Blanks
    ensures Parsable(s[k..])
  {
    assert |s[k..]| >= 2 ==> s[k..][|s[k..]| - 2..] == s[|s| - 2..];
  }

  /** The children of a heading or quote: the parse of what follows the marker and its blanks. */
  function Nested(s: string): seq<Element>
    requires Parsable(s) && s != []
    decreases |s|, 0
  {
    var k := BodyStart(s);
    if k < |s| then
      SuffixParsable(s, k);
      Parse(s[k..])
    else []
  }

  /** The parser `iterate_slice` picks for the character at index `i`, applied to `s[i..]`. */
  function Dispatch(s: string, i: nat): Parsed
    requires Parsable(s) && i < |s|
    decreases |s|, 1
  {
    var c := s[i];
    if c == '#' && i == 0 then Parsed(Heading(Nested(s)), |s|)
    else if c == '[' then
      assert i + 2 == |s| ==> s[i..] == s[|s| - 2..];
      LinkToken(s[i..])
    else if c == ' ' then SpaceToken()
    else if c == '\t' then
      if i == 0 then IndentToken(s) else SpaceToken()
    else if c == '>' && i == 0 then Parsed(Quote(Nested(s)), |s|)
    else TextToken(s[i..])
  }

  /** The elements `iterate_slice` collects from index `i` on. */
  function ParseFrom(s: string, i: nat): seq<Element>
    requires Parsable(s)
    decreases |s|, 2, |s| - i
  {
    if i >= |s| then []
    else
      var p := Dispatch(s, i);
      [p.elem] + ParseFrom(s, i + p.steps + 1)
  }

  /** `parse_block`: the elements of one line. */
  function Parse(s: string): seq<Element>
    requires Parsable(s)
    decreases |s|, 3
  {
    ParseFrom(s, 0)
  }

  // ---------------------------------------------------------------------
  // The source's loops

  /** `until_empty_space`: the leading word (at least one character) and its step count. */
  method UntilEmptySpace(slice: string) returns (content: string, steps: nat)
    requires slice != []
    ensures content == slice[..WordEnd(slice)] && steps == WordEnd(slice) - 1
  {
    var index := 0;
    var end := 0;
    while index < |slice| && slice[index] !in Breaks
      invariant index <= |slice|
      invariant forall j :: 0 <= j < index ==> slice[j] !in Breaks
      invariant end == if index == 0 then 0 else index - 1
      decreases |slice| - index
    {
      end := index;
      index := index + 1;
    }
    assert SpanNot(slice, Breaks) == index;
    end := end + 1;
    content := slice[..end];
    steps := end - 1;
  }

  method ParseText(slice: string) returns (p: Parsed)
    requires slice != []
    ensures p == TextToken(slice)
  {
    var content, firstEmptySpace := UntilEmptySpace(slice);
    if IsUrl(content) {
      if content[|content| - 1] == ')' || content[|content| - 1] == ']' {
        return Parsed(HyperLink(content[..|content| - 1]), firstEmptySpace - 1);
      }
      return Parsed(HyperLink(content), firstEmptySpace);
    }
    if content[0] == '(' {
      p := Parsed(Text("("), 0);
    } else {
      p := Parsed(Text(content), firstEmptySpace);
    }
  }

  method ParseIndentation(slice: string) returns (p: Parsed)
    requires slice != [] && slice[0] == '\t' && slice != "\t"
    ensures p == IndentToken(slice)
  {
    var index := 0;
    var level := 0;
    while index < |slice| && slice[index] == '\t'
      invariant index <= |slice|
      invariant forall j :: 0 <= j < index ==> slice[j] == '\t'
      invariant level == if index == 0 then 0 else index - 1
      decreases |slice| - index
    {
      level := index;
      index := index + 1;
    }
    if index < |slice| {
      level := index;
    }
    assert Span(slice, {'\t'}) == index;
    p := Parsed(IndentationLevel(level), level - 1);
  }

  method ParseLink(slice: string) returns (p: Parsed)
    requires slice != [] && slice[0] == '[' && slice != "[["
    ensures p == LinkToken(slice)
  {
    if StartsWith(slice, "[[") {
      var index := 2;
      var idx := 0;
      while index < |slice| && slice[index] != ']'
        invariant 2 <= index <= |slice|
        invariant forall j :: 2 <= j < index ==> slice[j] != ']'
        invariant idx == if index == 2 then 0 else index - 1
        decreases |slice| - index
      {
        idx := index;
        index := index + 1;
      }
      if index < |slice| {
        idx := index;
      }
      assert SpanNot(slice[2..], {']'}) == index - 2;
      assert |slice| == 2 ==> slice == "[[";
      return Parsed(PageLink(slice[2..idx]), idx + 1);
    }
    p := Parsed(Text("["), 0);
  }

  /** Skips the marker and the blanks after it, as `parse_heading` and `parse_quote` do. */
  method SkipMarker(slice: string) returns (index: nat)
    requires slice != []
    ensures index == BodyStart(slice)
  {
    index := 1;
    while index < |slice| && slice[index] in Blanks
      invariant 1 <= index <= |slice|
      invariant forall j :: 1 <= j < index ==> slice[j] in Blanks
      decreases |slice| - index
    {
      index := index + 1;
    }
    assert Span(slice[1..], Blanks) == index - 1;
  }

  method ParseHeading(slice: string) returns (p: Parsed)
    requires Parsable(slice) && slice != []
    ensures p == Parsed(Heading(Nested(slice)), |slice|)
    decreases |slice|, 0
  {
    var index := SkipMarker(slice);
    var elements := [];
    if index < |slice| {
      SuffixParsable(slice, index);
      elements := IterateSlice(slice[index..]);
    }
    p := Parsed(Heading(elements), |slice|);
  }

  method ParseQuote(slice: string) returns (p: Parsed)
    requires Parsable(slice) && slice != []
    ensures p == Parsed(Quote(Nested(slice)), |slice|)
    decreases |slice|, 0
  {
    var index := SkipMarker(slice);
    var elements := [];
    if index < |slice| {
      SuffixParsable(slice, index);
      elements := IterateSlice(slice[index..]);
    }
    p := Parsed(Quote(elements), |slice|);
  }

  /** The body of one `iterate_slice` step: pick the parser for the character at `index` and run it. */
  method ParseAt(input: string, index: nat) returns (p: Parsed)
    requires Parsable(input) && index < |input|
    ensures p == Dispatch(input, index)
    decreases |input|, 1
  {
    var token := input[index];
    if token == '#' && index == 0 {
      p := ParseHeading(input);
    } else if token == '[' {
      assert index + 2 == |input| ==> input[index..] == input[|input| - 2..];
      p := ParseLink(input[index..]);
    } else if token == ' ' {
      p := SpaceToken();
    } else if token == '\t' {
      if index == 0 {
        p := ParseIndentation(input);
      } else {
        p := SpaceToken();
      }
    } else if token == '>' && index == 0 {
      p := ParseQuote(input);
    } else {
      p := ParseText(input[index..]);
    }
  }

  /** `iterate_slice`: the loop that picks a parser per position and skips what it used. */
  method IterateSlice(input: string) returns (elements: seq<Element>)
    requires Parsable(input)
    ensures elements == Parse(input)
    decreases |input|, 2
  {
    elements := [];
    var index := 0;
    while index < |input|
      invariant elements + ParseFrom(input, index) == Parse(input)
      decreases |input| - index
    {
      var p := ParseAt(input, index);
      var next := index + p.steps + 1;
      ParseFromStep(input, index, next);
      assert (elements + [p.elem]) + ParseFrom(input, next) == elements + ([p.elem] + ParseFrom(input, next));
      elements := elements + [p.elem];
      index := next;
    }
  }

  // ---------------------------------------------------------------------
  // Properties of the tokeniser

  /** The scan from index `i` yields `e` first and then continues at index `next`. */
  predicate StepsTo(s: string, i: nat, e: Element, next: nat)
    requires Parsable(s)
  {
    ParseFrom(s, i) == [e] + ParseFrom(s, next)
  }

  /** One step of the scan: the element the dispatched parser returns, then the rest. */
  lemma {:induction false} StepOver(s: string, i: nat, e: Element, n: nat, next: nat)
    requires Parsable(s) && i < |s| && Dispatch(s, i) == Parsed(e, n) && next == i + n + 1
    ensures StepsTo(s, i, e, next)
  {
    ParseFromStep(s, i, next);
  }


  lemma {:induction false} ParseFromStep(s: string, i: nat, next: nat)
    requires Parsable(s) && i < |s| && next == i + Dispatch(s, i).steps + 1
    ensures ParseFrom(s, i) == [Dispatch(s, i).elem] + ParseFrom(s, next)
  {
  }

  /** Only the first element of a line can be a heading, a quote or an indentation level. */
  lemma {:induction false} LaterFlat(s: string, i: nat)
    requires Parsable(s) && i >= 1
    ensures forall e :: e in ParseFrom(s, i) ==> e.PageLink? || e.EmptySpace? || e.Text? || e.HyperLink?
    decreases |s| - i
  {
    if i < |s| {
      var p := Dispatch(s, i);
      assert p.elem.PageLink? || p.elem.EmptySpace? || p.elem.Text? || p.elem.HyperLink? by {
        assert s[i] == '#' || s[i] == '>' ==> p == TextToken(s[i..]);
      }
      LaterFlat(s, i + p.steps + 1);
      ParseFromStep(s, i, i + p.steps + 1);
    }
  }

  /** '#' opens a heading only at index 0; everywhere else no element is a heading. */
  lemma {:induction false} HeadingOnlyAtStart(s: string)
    requires Parsable(s) && s != []
    ensures Parse(s) != []
    ensures Parse(s)[0].Heading? <==> s[0] == '#'
    ensures forall j :: 1 <= j < |Parse(s)| ==> !Parse(s)[j].Heading?
  {
    var p := Dispatch(s, 0);
    FirstHeading(s);
    LaterFlat(s, p.steps + 1);
    var rest := ParseFrom(s, p.steps + 1);
    ParseFromStep(s, 0, p.steps + 1);
    assert Parse(s) == [p.elem] + rest;
    forall j | 1 <= j < |Parse(s)|
      ensures !Parse(s)[j].Heading?
    {
      assert Parse(s)[j] == rest[j - 1] && rest[j - 1] in rest;
    }
  }

  /** The word and link parsers never yield an indentation marker. */
  lemma TokensFlat(slice: string)
    requires slice != []
    ensures !TextToken(slice).elem.IndentationLevel?
    ensures slice[0] == '[' && slice != "[[" ==> !LinkToken(slice).elem.IndentationLevel?
  {
  }

  lemma {:induction false} FirstIndent(s: string)
    requires Parsable(s) && s != []
    ensures Dispatch(s, 0).elem.IndentationLevel? <==> s[0] == '\t'
  {
    TokensFlat(s[0..]);
  }

  lemma {:induction false} FirstHeading(s: string)
    requires Parsable(s) && s != []
    ensures Dispatch(s, 0).elem.Heading? <==> s[0] == '#'
  {
  }

  /**
   * A line starting with '#' or '>' is one heading or one quote, whose
   * children are the parse of the rest after the marker and its blanks.
   */
  lemma {:induction false} MarkerLine(s: string)
    requires Parsable(s) && s != [] && (s[0] == '#' || s[0] == '>')
    ensures BodyStart(s) < |s| ==> Parsable(s[BodyStart(s)..])
    ensures var k := BodyStart(s);
            var kids := if k < |s| then Parse(s[k..]) else [];
            Parse(s) == [if s[0] == '#' then Heading(kids) else Quote(kids)]
  {
    var k := BodyStart(s);
    if k < |s| {
      SuffixParsable(s, k);
    }
    MarkerDispatch(s);
    ParseFromStep(s, 0, |s| + 1);
    assert ParseFrom(s, |s| + 1) == [];
  }

  /** The marker's parser takes the whole line. */
  lemma {:induction false} MarkerDispatch(s: string)
    requires Parsable(s) && s != [] && (s[0] == '#' || s[0] == '>')
    ensures BodyStart(s) < |s| ==> Parsable(s[BodyStart(s)..])
    ensures var k := BodyStart(s);
            var kids := if k < |s| then Parse(s[k..]) else [];
            Dispatch(s, 0) == Parsed(if s[0] == '#' then Heading(kids) else Quote(kids), |s|)
  {
    var k := BodyStart(s);
    if k < |s| {
      SuffixParsable(s, k);
    }
  }

  /** A word the tokeniser returns as it is: no break characters and no link, parenthesis or URL start. */
  predicate Word(w: string) {
    w != [] && (forall j :: 0 <= j < |w| ==> w[j] !in Breaks) && w[0] != '[' && w[0] != '(' && !IsUrl(w)
  }

  /** Text elements for the words with an EmptySpace between neighbours. */
  function Spaced(words: seq<string>): (r: seq<Element>)
    ensures |words| > 0 ==> |r| == 2 * |words| - 1
  {
    if |words| == 0 then []
    else if |words| == 1 then [Text(words[0])]
    else [Text(words[0]), EmptySpace(" ")] + Spaced(words[1..])
  }

  /** A word at index `i`, ended by a break or the end of the line, is one Text element. */
  lemma {:induction false} TextAt(s: string, i: nat, w: string)
    requires Parsable(s) && Word(w) && i + |w| <= |s| && s[i..i + |w|] == w
    requires i + |w| == |s| || s[i + |w|] in Breaks
    requires i > 0 || (w[0] != '#' && w[0] != '>')
    ensures StepsTo(s, i, Text(w), i + |w|)
  {
    TextDispatch(s, i, w);
    StepOver(s, i, Text(w), |w| - 1, i + |w|);
  }

  lemma {:induction false} TextDispatch(s: string, i: nat, w: string)
    requires Parsable(s) && Word(w) && i + |w| <= |s| && s[i..i + |w|] == w
    requires i + |w| == |s| || s[i + |w|] in Breaks
    requires i > 0 || (w[0] != '#' && w[0] != '>')
    ensures Dispatch(s, i) == Parsed(Text(w), |w| - 1)
  {
    var slice := s[i..];
    assert slice[..|w|] == w;
    assert s[i] == w[0];
    PlainDispatch(s, i);
    WordToken(slice, w);
  }

  /** `parse_text` on a slice that starts with the word `w`. */
  lemma {:induction false} WordToken(slice: string, w: string)
    requires Word(w) && |w| <= |slice| && slice[..|w|] == w
    requires |w| == |slice| || slice[|w|] in Breaks
    ensures TextToken(slice) == Parsed(Text(w), |w| - 1)
  {
    assert SpanNot(slice, Breaks) == |w|;
  }

  /** A space at index `i` is one EmptySpace(" ") element. */
  lemma {:induction false} SpaceAt(s: string, i: nat)
    requires Parsable(s) && i < |s| && s[i] == ' '
    ensures StepsTo(s, i, EmptySpace(" "), i + 1)
  {
    assert Dispatch(s, i) == Parsed(EmptySpace(" "), 0);
    StepOver(s, i, EmptySpace(" "), 0, i + 1);
  }

  /** Words joined by single spaces from index `i` on become alternating Text and EmptySpace elements. */
  lemma {:induction false} SpacedAt(s: string, i: nat, words: seq<string>)
    requires Parsable(s) && i <= |s| && s[i..] == Join(words, " ")
    requires forall k :: 0 <= k < |words| ==> Word(words[k])
    requires i > 0 || |words| == 0 || (words[0] != [] && words[0][0] != '#' && words[0][0] != '>')
    ensures ParseFrom(s, i) == Spaced(words)
    decreases |words|
  {
    if |words| == 1 {
      LastWord(s, i, words[0]);
    } else if |words| > 1 {
      var w := words[0];
      SpacedShape(s, i, words);
      WordsTail(words);
      SpacedAt(s, i + |w| + 1, words[1..]);
      WordAndSpace(s, i, w, Spaced(words[1..]));
    }
  }

  /** A word that ends the line is its last element. */
  lemma {:induction false} LastWord(s: string, i: nat, w: string)
    requires Parsable(s) && i <= |s| && s[i..] == w && Word(w)
    requires i > 0 || (w[0] != '#' && w[0] != '>')
    ensures ParseFrom(s, i) == [Text(w)]
  {
    assert s[i..i + |w|] == w;
    TextAt(s, i, w);
  }

  /** A word and one space ahead of `rest`. */
  lemma {:induction false} WordAndSpace(s: string, i: nat, w: string, rest: seq<Element>)
    requires Parsable(s) && Word(w) && i + |w| + 1 <= |s| && s[i..i + |w|] == w && s[i + |w|] == ' '
    requires i > 0 || (w[0] != '#' && w[0] != '>')
    requires ParseFrom(s, i + |w| + 1) == rest
    ensures ParseFrom(s, i) == [Text(w), EmptySpace(" ")] + rest
  {
    TextAt(s, i, w);
    SpaceAt(s, i + |w|);
    TwoSteps(s, i, Text(w), i + |w|, EmptySpace(" "), i + |w| + 1, rest);
  }

  lemma {:induction false} WordsTail(words: seq<string>)
    requires |words| > 0 && forall k :: 0 <= k < |words| ==> Word(words[k])
    ensures forall k :: 0 <= k < |words[1..]| ==> Word(words[1..][k])
  {
    forall k | 0 <= k < |words[1..]|
      ensures Word(words[1..][k])
    {
      assert words[1..][k] == words[k + 1];
    }
  }

  /** Two scan steps followed by `rest`. */
  lemma {:induction false} TwoSteps(s: string, i: nat, e1: Element, j: nat, e2: Element, k: nat, rest: seq<Element>)
    requires Parsable(s) && StepsTo(s, i, e1, j) && StepsTo(s, j, e2, k) && ParseFrom(s, k) == rest
    ensures ParseFrom(s, i) == [e1, e2] + rest
  {
    ConsAppend(e1, [e2], rest);
  }

  /** Where the first word, its space and the remaining words lie. */
  lemma {:induction false} SpacedShape(s: string, i: nat, words: seq<string>)
    requires i <= |s| && s[i..] == Join(words, " ") && |words| > 1
    ensures var w := words[0];
            i + |w| + 1 <= |s| && s[i..i + |w|] == w && s[i + |w|] == ' ' &&
            s[i + |w| + 1..] == Join(words[1..], " ")
  {
    var w := words[0];
    assert s[i..] == w + " " + Join(words[1..], " ");
    assert s[i..i + |w|] == s[i..][..|w|];
    assert s[i + |w| + 1..] == s[i..][|w| + 1..];
  }

  /** A line of words and single spaces parses to alternating Text and EmptySpace(" ") elements. */
  lemma {:induction false} WordsAlternate(words: seq<string>)
    requires Parsable(Join(words, " "))
    requires forall k :: 0 <= k < |words| ==> Word(words[k])
    requires |words| == 0 || (words[0] != [] && words[0][0] != '#' && words[0][0] != '>')
    ensures Parse(Join(words, " ")) == Spaced(words)
  {
    SpacedAt(Join(words, " "), 0, words);
  }

  /** "[[x]]" at index `i`, with no ']' in x, is one PageLink(x) and is consumed whole. */
  lemma {:induction false} PageLinkAt(s: string, i: nat, x: string)
    requires Parsable(s) && ']' !in x && i + |x| + 4 <= |s| && s[i..i + |x| + 4] == "[[" + x + "]]"
    ensures StepsTo(s, i, PageLink(x), i + |x| + 4)
  {
    var slice := s[i..];
    assert slice[..|x| + 4] == s[i..i + |x| + 4];
    assert s[i] == '[' by {
      assert s[i] == s[i..i + |x| + 4][0];
    }
    assert Dispatch(s, i) == Parsed(PageLink(x), |x| + 3) by {
      LinkTokenOf(slice, x);
    }
    StepOver(s, i, PageLink(x), |x| + 3, i + |x| + 4);
  }

  /** A slice that starts with "[[x]]" is the page link `x`. */
  lemma {:induction false} LinkTokenOf(slice: string, x: string)
    requires ']' !in x && |x| + 4 <= |slice| && slice[..|x| + 4] == "[[" + x + "]]"
    ensures slice != [] && slice[0] == '[' && slice != "[["
    ensures LinkToken(slice) == Parsed(PageLink(x), |x| + 3)
  {
    assert slice[0] == slice[..|x| + 4][0];
    assert StartsWith(slice, "[[") by {
      assert slice[..2] == slice[..|x| + 4][..2];
    }
    var rest := slice[2..];
    assert rest[..|x|] == x && rest[|x|] == ']' by {
      assert rest[..|x|] == slice[..|x| + 4][2..|x| + 2];
      assert rest[|x|] == slice[..|x| + 4][|x| + 2];
    }
    SpanUpTo(rest, x);
    assert slice[2..2 + |x|] == rest[..|x|];
  }

  /** The span before the first ']' of `x + "]" + ...` is `x` when `x` has no ']'. */
  lemma {:induction false} SpanUpTo(rest: string, x: string)
    requires ']' !in x && |x| < |rest| && rest[..|x|] == x && rest[|x|] == ']'
    ensures SpanNot(rest, {']'}) == |x|
  {
    forall j | 0 <= j < |x|
      ensures rest[j] != ']'
    {
      assert rest[j] == x[j];
    }
  }

  /** A '[' not followed by another '[' is the one-character Text "[". */
  lemma {:induction false} LoneBracketAt(s: string, i: nat)
    requires Parsable(s) && i < |s| && s[i] == '[' && (i + 1 == |s| || s[i + 1] != '[')
    ensures StepsTo(s, i, Text("["), i + 1)
  {
    assert Dispatch(s, i) == Parsed(Text("["), 0) by {
      assert !StartsWith(s[i..], "[[");
    }
  }

  /** A word starting with '(' yields just the Text "(". */
  lemma {:induction false} OpenParenAt(s: string, i: nat)
    requires Parsable(s) && i < |s| && s[i] == '('
    ensures StepsTo(s, i, Text("("), i + 1)
  {
    assert Dispatch(s, i) == Parsed(Text("("), 0) by {
      var slice := s[i..];
      PlainDispatch(s, i);
      assert !IsUrl(slice[..WordEnd(slice)]);
    }
  }

  /** A URL word: ends at a break or the end of the line. */
  predicate UrlWord(u: string) {
    IsUrl(u) && forall j :: 0 <= j < |u| ==> u[j] !in Breaks
  }

  /** A URL followed by ')' or ']' is a HyperLink without that character, which is left for the next step. */
  lemma {:induction false} HyperLinkCloseAt(s: string, i: nat, u: string, c: char)
    requires Parsable(s) && UrlWord(u) && (c == ')' || c == ']')
    requires i + |u| + 1 <= |s| && s[i..i + |u| + 1] == u + [c]
    requires i + |u| + 1 == |s| || s[i + |u| + 1] in Breaks
    ensures StepsTo(s, i, HyperLink(u), i + |u|)
  {
    UrlCloseDispatch(s, i, u, c);
    StepOver(s, i, HyperLink(u), |u| - 1, i + |u|);
  }

  lemma {:induction false} UrlCloseDispatch(s: string, i: nat, u: string, c: char)
    requires Parsable(s) && UrlWord(u) && (c == ')' || c == ']')
    requires i + |u| + 1 <= |s| && s[i..i + |u| + 1] == u + [c]
    requires i + |u| + 1 == |s| || s[i + |u| + 1] in Breaks
    ensures Dispatch(s, i) == Parsed(HyperLink(u), |u| - 1)
  {
    var slice, v := s[i..], u + [c];
    assert slice[..|v|] == v by {
      assert slice[..|v|] == s[i..i + |u| + 1];
    }
    assert |v| == |slice| || slice[|v|] in Breaks by {
      if |v| < |slice| {
        assert slice[|v|] == s[i + |u| + 1];
      }
    }
    UrlStart(u);
    assert s[i] == slice[..|v|][0] == v[0] == u[0];
    PlainDispatch(s, i);
    UrlExtend(u, c);
    UrlToken(slice, v);
    assert v[|v| - 1] == c && v[..|v| - 1] == u;
  }

  /** A character with no parser of its own goes to `parse_text`. */
  lemma {:induction false} PlainDispatch(s: string, i: nat)
    requires Parsable(s) && i < |s| && s[i] !in {'[', ' ', '\t'}
    requires i > 0 || s[i] !in {'#', '>'}
    ensures Dispatch(s, i) == TextToken(s[i..])
  {
  }

  /** A URL word with one more non-break character is still a URL word. */
  lemma {:induction false} UrlExtend(u: string, c: char)
    requires UrlWord(u) && c !in Breaks
    ensures UrlWord(u + [c]) && (u + [c])[..|u|] == u && (u + [c])[|u|] == c
  {
    var v := u + [c];
    forall j | 0 <= j < |u|
      ensures v[j] == u[j]
    {
    }
  }

  lemma {:induction false} UrlStart(u: string)
    requires IsUrl(u)
    ensures u[0] == 'h'
  {
    assert u[0] == u[..7][0];
  }

  /** `parse_text` on a slice that starts with the URL word `u`. */
  lemma {:induction false} UrlToken(slice: string, u: string)
    requires UrlWord(u) && |u| <= |slice| && slice[..|u|] == u
    requires |u| == |slice| || slice[|u|] in Breaks
    ensures var last := u[|u| - 1];
            TextToken(slice) == if last == ')' || last == ']' then Parsed(HyperLink(u[..|u| - 1]), |u| - 2)
                                else Parsed(HyperLink(u), |u| - 1)
  {
    assert SpanNot(slice, Breaks) == |u|;
    assert IsUrl(slice[..|u|]);
  }

  /** A URL not ending in ')' or ']' is one HyperLink of the whole word. */
  lemma {:induction false} HyperLinkAt(s: string, i: nat, u: string)
    requires Parsable(s) && UrlWord(u) && u[|u| - 1] != ')' && u[|u| - 1] != ']'
    requires i + |u| <= |s| && s[i..i + |u|] == u
    requires i + |u| == |s| || s[i + |u|] in Breaks
    ensures StepsTo(s, i, HyperLink(u), i + |u|)
  {
    UrlDispatch(s, i, u);
    StepOver(s, i, HyperLink(u), |u| - 1, i + |u|);
  }

  lemma {:induction false} UrlDispatch(s: string, i: nat, u: string)
    requires Parsable(s) && UrlWord(u) && u[|u| - 1] != ')' && u[|u| - 1] != ']'
    requires i + |u| <= |s| && s[i..i + |u|] == u
    requires i + |u| == |s| || s[i + |u|] in Breaks
    ensures Dispatch(s, i) == Parsed(HyperLink(u), |u| - 1)
  {
    var slice := s[i..];
    assert slice[..|u|] == u;
    UrlStart(u);
    PlainDispatch(s, i);
    UrlToken(slice, u);
  }

  /** Leading tabs ahead of other text give IndentationLevel(number of tabs), then the rest. */
  lemma {:induction false} LeadingTabs(s: string, n: nat)
    requires Parsable(s) && 1 <= n < |s| && s[n] != '\t'
    requires forall j :: 0 <= j < n ==> s[j] == '\t'
    ensures Parse(s) == [IndentationLevel(n)] + ParseFrom(s, n)
  {
    assert Dispatch(s, 0) == Parsed(IndentationLevel(n), n - 1) by {
      assert Span(s, {'\t'}) == n;
    }
  }

  // ---------------------------------------------------------------------
  // Line shapes from the unit tests of block.rs

  /** "#" followed by spaced words is one heading holding those words. */
  lemma {:induction false} HeadingOfWords(words: seq<string>)
    requires |words| >= 1 && forall k :: 0 <= k < |words| ==> Word(words[k])
    requires words[0] != [] && words[0][0] != '#' && words[0][0] != '>'
    requires Parsable("#" + Join(words, " "))
    ensures Parse("#" + Join(words, " ")) == [Heading(Spaced(words))]
  {
    var s := "#" + Join(words, " ");
    assert Join(words, " ")[0] == words[0][0] by { JoinHead(words); }
    assert BodyStart(s) == 1;
    assert s[1..] == Join(words, " ");
    SuffixParsable(s, 1);
    MarkerLine(s);
    WordsAlternate(words);
  }

  /** "> " followed by spaced words is one quote holding those words. */
  lemma {:induction false} QuoteOfWords(words: seq<string>)
    requires |words| >= 1 && forall k :: 0 <= k < |words| ==> Word(words[k])
    requires words[0] != [] && words[0][0] != '#' && words[0][0] != '>'
    requires Parsable("> " + Join(words, " "))
    ensures Parse("> " + Join(words, " ")) == [Quote(Spaced(words))]
  {
    var s := "> " + Join(words, " ");
    assert Join(words, " ")[0] == words[0][0] by { JoinHead(words); }
    assert BodyStart(s) == 2 by {
      assert s[1..][0] == ' ' && s[1..][1] == words[0][0];
      assert Span(s[1..], Blanks) == 1;
    }
    assert s[2..] == Join(words, " ");
    SuffixParsable(s, 2);
    MarkerLine(s);
    WordsAlternate(words);
  }

  lemma {:induction false} JoinHead(words: seq<string>)
    requires |words| >= 1 && words[0] != []
    ensures Join(words, " ") != [] && Join(words, " ")[0] == words[0][0]
  {
  }

  /** Three scan steps that use up the line. */
  lemma {:induction false} ThreeSteps(s: string, e1: Element, e2: Element, e3: Element, i1: nat, i2: nat)
    requires Parsable(s)
    requires StepsTo(s, 0, e1, i1)
    requires StepsTo(s, i1, e2, i2)
    requires StepsTo(s, i2, e3, |s|)
    ensures Parse(s) == [e1, e2, e3]
  {
    assert ParseFrom(s, |s|) == [];
  }

  /** `n` tabs followed by spaced words: the indentation level `n`, then the words. */
  lemma {:induction false} IndentedWords(s: string, n: nat, words: seq<string>)
    requires n >= 1 && |words| >= 1 && forall k :: 0 <= k < |words| ==> Word(words[k])
    requires Parsable(s) && n <= |s| && (forall j :: 0 <= j < n ==> s[j] == '\t') && s[n..] == Join(words, " ")
    ensures Parse(s) == [IndentationLevel(n)] + Spaced(words)
  {
    assert n < |s| && s[n] != '\t' by {
      JoinHead(words);
      assert s[n..][0] == s[n];
    }
    assert Parse(s) == [IndentationLevel(n)] + ParseFrom(s, n) by {
      LeadingTabs(s, n);
    }
    assert ParseFrom(s, n) == Spaced(words) by {
      SpacedAt(s, n, words);
    }
  }

  /** A word, a space and "[[x]]": Text, EmptySpace and the PageLink holding x verbatim. */
  lemma {:induction false} WordThenLink(w: string, x: string)
    requires Word(w) && w[0] != '#' && w[0] != '>' && ']' !in x
    ensures Parsable(w + " [[" + x + "]]")
    ensures Parse(w + " [[" + x + "]]") == [Text(w), EmptySpace(" "), PageLink(x)]
  {
    var s := w + " [[" + x + "]]";
    WordLinkShape(w, x);
    TextAt(s, 0, w);
    SpaceAt(s, |w|);
    PageLinkAt(s, |w| + 1, x);
    ThreeSteps(s, Text(w), EmptySpace(" "), PageLink(x), |w|, |w| + 1);
  }

  /** Where the parts of `w + " [[" + x + "]]"` lie. */
  lemma {:induction false} WordLinkShape(w: string, x: string)
    ensures var s := w + " [[" + x + "]]";
            |s| == |w| + 1 + |x| + 4 && s[..|w|] == s[0..|w|] == w && s[|w|] == ' ' &&
            s[|w| + 1..|w| + 1 + |x| + 4] == "[[" + x + "]]" && Parsable(s)
  {
    var s := w + " [[" + x + "]]";
    assert s[|s| - 2..] == "]]";
    assert s[..|w|] == w;
  }

  /** A line that is a URL wrapped in "(…)" or "[…]": the opening character, the HyperLink, the closing character. */
  lemma {:induction false} WrappedUrl(s: string, u: string)
    requires Parsable(s) && UrlWord(u) && u[|u| - 1] != ')' && u[|u| - 1] != ']'
    requires |s| == |u| + 2 && s[1..|u| + 1] == u
    requires (s[0] == '(' && s[|u| + 1] == ')') || (s[0] == '[' && s[|u| + 1] == ']')
    ensures Parse(s) == [Text([s[0]]), HyperLink(u), Text([s[|u| + 1]])]
  {
    var close := s[|u| + 1];
    UrlOpener(s, u);
    assert s[1..1 + |u| + 1] == u + [close];
    HyperLinkCloseAt(s, 1, u, close);
    CloserAt(s, |u| + 1);
    ThreeSteps(s, Text([s[0]]), HyperLink(u), Text([close]), 1, |u| + 1);
  }

  lemma {:induction false} UrlOpener(s: string, u: string)
    requires Parsable(s) && UrlWord(u) && |s| == |u| + 2 && s[1..|u| + 1] == u
    requires s[0] == '(' || s[0] == '['
    ensures StepsTo(s, 0, Text([s[0]]), 1)
  {
    UrlStart(u);
    assert s[1] == u[0];
    if s[0] == '(' {
      OpenParenAt(s, 0);
    } else {
      LoneBracketAt(s, 0);
    }
  }

  /** A closing ')' or ']' at the end of the line is the Text of that character. */
  lemma {:induction false} CloserAt(s: string, i: nat)
    requires Parsable(s) && i + 1 == |s| && i > 0 && (s[i] == ')' || s[i] == ']')
    ensures StepsTo(s, i, Text([s[i]]), |s|)
  {
    assert s[i..i + 1] == [s[i]];
    assert Word([s[i]]);
    TextAt(s, i, [s[i]]);
  }

  /** A line "([[x]])": Text "(", PageLink(x), Text ")". */
  lemma {:induction false} ParenthesisedLink(s: string, x: string)
    requires Parsable(s) && ']' !in x
    requires |s| == |x| + 6 && s[0] == '(' && s[1..|x| + 5] == "[[" + x + "]]" && s[|x| + 5] == ')'
    ensures Parse(s) == [Text("("), PageLink(x), Text(")")]
  {
    OpenParenAt(s, 0);
    PageLinkAt(s, 1, x);
    CloserAt(s, |x| + 5);
    ThreeSteps(s, Text("("), PageLink(x), Text(")"), 1, |x| + 5);
  }

  // ---------------------------------------------------------------------
  // The unit tests of block.rs, as lemmas

  lemma {:induction false} HeadingExample()
    ensures Parse("#hello world") == [Heading([Text("hello"), EmptySpace(" "), Text("world")])]
  {
    assert "#hello world" == "#" + Join(["hello", "world"], " ");
    assert Word("hello") && Word("world");
    HeadingOfWords(["hello", "world"]);
    assert Spaced(["hello", "world"]) == [Text("hello"), EmptySpace(" "), Text("world")];
  }

  lemma {:induction false} MidLineHashExample()
    ensures Parse("testing #again") == [Text("testing"), EmptySpace(" "), Text("#again")]
  {
    assert "testing #again" == Join(["testing", "#again"], " ");
    WordsAlternate(["testing", "#again"]);
  }

  lemma {:induction false} PageLinkExample()
    ensures Parse("parsing [[another link|some page]]")
         == [Text("parsing"), EmptySpace(" "), PageLink("another link|some page")]
  {
    assert "parsing [[another link|some page]]" == "parsing" + " [[" + "another link|some page" + "]]";
    WordThenLink("parsing", "another link|some page");
  }

  lemma {:induction false} ParenLinkExample()
    ensures Parse("([[testing again]])") == [Text("("), PageLink("testing again"), Text(")")]
  {
    var s := "([[testing again]])";
    assert s[1..18] == "[[" + "testing again" + "]]";
    ParenthesisedLink(s, "testing again");
  }

  /** The URL of the two wrapped-URL tests. */
  lemma {:induction false} ExampleUrl(u: string)
    requires u == "https://example.com"
    ensures UrlWord(u) && u[|u| - 1] != ')' && u[|u| - 1] != ']'
  {
  }

  /** A URL wrapped in a matching pair of parentheses or brackets. */
  lemma {:induction false} WrappedPair(o: char, u: string, c: char)
    requires UrlWord(u) && u[|u| - 1] != ')' && u[|u| - 1] != ']'
    requires (o == '(' && c == ')') || (o == '[' && c == ']')
    ensures Parsable([o] + u + [c])
    ensures Parse([o] + u + [c]) == [Text([o]), HyperLink(u), Text([c])]
  {
    var s := [o] + u + [c];
    assert s[1..|u| + 1] == u;
    assert s[0] == o && s[|u| + 1] == c;
    assert Parsable(s) by {
      assert s[|s| - 2..][1] == c;
    }
    WrappedUrl(s, u);
  }

  lemma {:induction false} ParenUrlExample(s: string, u: string)
    requires s == "(https://example.com)" && u == "https://example.com"
    ensures Parse(s) == [Text("("), HyperLink(u), Text(")")]
  {
    ExampleUrl(u);
    assert s == ['('] + u + [')'];
    WrappedPair('(', u, ')');
  }

  lemma {:induction false} BracketUrlExample(s: string, u: string)
    requires s == "[https://example.com]" && u == "https://example.com"
    ensures Parse(s) == [Text("["), HyperLink(u), Text("]")]
  {
    ExampleUrl(u);
    assert s == ['['] + u + [']'];
    WrappedPair('[', u, ']');
  }

  /** The two words of the quote and indentation tests. */
  lemma {:induction false} TestingExamples(a: string, b: string)
    requires a == "testing" && b == "examples"
    ensures Word(a) && Word(b) && a[0] != '#' && a[0] != '>'
    ensures Parsable("> " + a + " " + b) && Parsable("\t\t" + a + " " + b)
  {
    PlainEnd("> " + a + " " + b);
    PlainEnd("\t\t" + a + " " + b);
  }

  /** A line of two or more characters whose last one is not '[' is accepted. */
  lemma {:induction false} PlainEnd(s: string)
    requires |s| >= 2 && s[|s| - 1] != '['
    ensures Parsable(s)
  {
    assert s[|s| - 2..][1] == s[|s| - 1];
  }

  /** A marker `m` followed by two words joined by a space. */
  lemma {:induction false} PairJoin(m: string, a: string, b: string)
    ensures m + Join([a, b], " ") == m + a + " " + b
    ensures Spaced([a, b]) == [Text(a), EmptySpace(" "), Text(b)]
  {
    assert [a, b][1..] == [b];
    assert Join([a, b], " ") == a + " " + b;
    AppendAssoc(m, a + " ", b);
    AppendAssoc(m, a, " ");
  }

  lemma {:induction false} QuoteExample(a: string, b: string)
    requires a == "testing" && b == "examples"
    ensures Parsable("> " + a + " " + b)
    ensures Parse("> " + a + " " + b) == [Quote([Text(a), EmptySpace(" "), Text(b)])]
  {
    TestingExamples(a, b);
    PairJoin("> ", a, b);
    QuoteOfWords([a, b]);
  }

  lemma {:induction false} IndentationExample(a: string, b: string)
    requires a == "testing" && b == "examples"
    ensures Parsable("\t\t" + a + " " + b)
    ensures Parse("\t\t" + a + " " + b) == [IndentationLevel(2), Text(a), EmptySpace(" "), Text(b)]
  {
    TestingExamples(a, b);
    var s := "\t\t" + a + " " + b;
    PairJoin("\t\t", a, b);
    assert s[2..] == Join([a, b], " ");
    IndentedWords(s, 2, [a, b]);
  }
}
