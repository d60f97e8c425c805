/**
 * Page rendering, after libs/wikitext/src/parsers/html.rs: every line of a
 * page is tokenised, every non-empty line becomes one `text-block` div
 * carrying the line's indentation level, and the targets of the line's
 * page links are collected as the page's outlinks.
 */
module WikiHtml {
  import opened Strings
  import opened BlockParser
  import opened Wrappers
  import opened Formatters

  datatype Html = Html(outlinks: seq<string>, body: string)

  function Digit(d: nat): (c: char)
    requires d < 10
    ensures '0' <= c <= '9'
  {
    ('0' as int + d) as char
  }

  /** An integer in decimal, as Rust's `{}` writes it. */
  function Decimal(n: nat): (r: string)
    ensures r != []
    ensures forall k :: 0 <= k < |r| ==> '0' <= r[k] <= '9'
    ensures n < 10 <==> |r| == 1
  {
    if n < 10 then [Digit(n)] else Decimal(n / 10) + [Digit(n % 10)]
  }

  /** The value of a string of decimal digits. */
  function DecimalValue(s: string): nat
    requires forall k :: 0 <= k < |s| ==> '0' <= s[k] <= '9'
  {
    if s == [] then 0 else DecimalValue(s[..|s| - 1]) * 10 + (s[|s| - 1] as int - '0' as int)
  }

  /** The data-indent attribute reads back as the level written into it, with no leading zero. */
  lemma {:induction false} DecimalRoundTrip(n: nat)
    ensures DecimalValue(Decimal(n)) == n
    ensures Decimal(n)[0] == '0' ==> n == 0
  {
    if n >= 10 {
      DecimalRoundTrip(n / 10);
      var r := Decimal(n);
      assert r[..|r| - 1] == Decimal(n / 10);
      assert r[0] == Decimal(n / 10)[0];
    }
  }

  /** The div `Block::close` writes. */
  function Div(level: nat, text: string): string {
    "<div data-indent=\"" + Decimal(level) + "\" class=\"text-block\">" + text + "</div>"
  }

  /** A div opens with the indentation attribute and closes around the text. */
  lemma {:induction false} DivShape(level: nat, text: string)
    ensures StartsWith(Div(level, text), "<div data-indent=\"" + Decimal(level) + "\"")
    ensures EndsWith(Div(level, text), text + "</div>")
  {
    var open := "<div data-indent=\"" + Decimal(level) + "\"";
    var d := Div(level, text);
    assert d == open + " class=\"text-block\">" + text + "</div>";
    AppendAffixes(open, " class=\"text-block\">" + text + "</div>");
    AppendAssoc(open + " class=\"text-block\">", text, "</div>");
    AppendAffixes(open + " class=\"text-block\">", text + "</div>");
  }

  /** `html::Block`: the text of one line's div and the indentation it will carry. */
  class Block {
    var indentationLevel: nat
    var text: string

    constructor()
      ensures indentationLevel == 0 && text == ""
    {
      text := "";
      indentationLevel := 0;
    }

    function Close(): (html: string)
      reads this
      ensures html == Div(indentationLevel, text)
    {
      "<div data-indent=\"" + Decimal(indentationLevel) + "\" class=\"text-block\">" + text + "</div>"
    }

    method UpdateIndentation(level: nat)
      modifies this`indentationLevel
      ensures indentationLevel == level
    {
      indentationLevel := level;
    }
  }

  predicate AllRenderable(es: seq<Element>) {
    forall k :: 0 <= k < |es| ==> Renderable(es[k])
  }

  /** The targets of the page links among `es` itself (links nested in a heading or quote are not looked at). */
  function LinkTargets(es: seq<Element>): seq<string> {
    if es == [] then []
    else
      var last := es[|es| - 1];
      LinkTargets(es[..|es| - 1]) + (if last.PageLink? then [LinkTarget(last.link)] else [])
  }

  /** The level of the last indentation marker in `es`, or 0 when there is none. */
  function Indent(es: seq<Element>): nat {
    if es == [] then 0
    else if es[|es| - 1].IndentationLevel? then es[|es| - 1].level
    else Indent(es[..|es| - 1])
  }

  /** The div of one non-empty line. */
  function BlockHtml(es: seq<Element>): string
    requires AllRenderable(es)
  {
    Div(Indent(es), RenderAll(es))
  }

  /** A line the tokeniser and the link formatter both accept. */
  predicate LineOk(line: string) {
    Parsable(line) && AllRenderable(Parse(line))
  }

  /** Every line of the page is acceptable. */
  predicate PageOk(lines: seq<string>) {
    forall k :: 0 <= k < |lines| ==> LineOk(lines[k])
  }

  predicate BlocksOk(blocks: seq<seq<Element>>) {
    forall b :: 0 <= b < |blocks| ==> AllRenderable(blocks[b])
  }

  /** The tokens of every line: the `page_blocks` of `to_html`. */
  function Blocks(lines: seq<string>): (bs: seq<seq<Element>>)
    requires PageOk(lines)
    ensures |bs| == |lines| && BlocksOk(bs)
    ensures forall k :: 0 <= k < |lines| ==> bs[k] == Parse(lines[k])
  {
    seq(|lines|, k requires 0 <= k < |lines| => Parse(lines[k]))
  }

  /** The divs of the non-empty blocks, in order. */
  function Divs(blocks: seq<seq<Element>>): (ds: seq<string>)
    requires BlocksOk(blocks)
    ensures |ds| <= |blocks|
  {
    if blocks == [] then []
    else
      var last := blocks[|blocks| - 1];
      Divs(blocks[..|blocks| - 1]) + (if last == [] then [] else [BlockHtml(last)])
  }

  /** The outlinks of a page, block by block. */
  function Outlinks(blocks: seq<seq<Element>>): seq<string> {
    if blocks == [] then [] else Outlinks(blocks[..|blocks| - 1]) + LinkTargets(blocks[|blocks| - 1])
  }

  /** The `filter_map` closure of `to_html`: an empty block is dropped, any other closed into a div. */
  method BlockDiv(block: seq<Element>, outlinks: seq<string>) returns (div: Option<string>, links: seq<string>)
    requires AllRenderable(block)
    ensures block == [] ==> div == None
    ensures block != [] ==> div == Some(BlockHtml(block))
    ensures links == outlinks + LinkTargets(block)
  {
    links := outlinks;
    if block == [] {
      return None, links;
    }
    var finalBlock := new Block();
    var j := 0;
    while j < |block|
      invariant j <= |block|
      invariant finalBlock.text == RenderAll(block[..j])
      invariant finalBlock.indentationLevel == Indent(block[..j])
      invariant links == outlinks + LinkTargets(block[..j])
    {
      LinkTargetsSnoc(block, j);
      IndentSnoc(block, j);
      RenderAllSnoc(block, j);
      var e := block[j];
      assert Renderable(e);
      var text := finalBlock.text;
      links := Absorb(finalBlock, e, links);
      assert finalBlock.text == text + Render(e);
      assert finalBlock.text == RenderAll(block[..j + 1]);
      assert finalBlock.indentationLevel == Indent(block[..j + 1]);
      assert links == outlinks + LinkTargets(block[..j + 1]);
      j := j + 1;
    }
    assert block[..j] == block;
    div := Some(finalBlock.Close());
  }

  /** One pass of the loop over a block's elements: record a page link's target, take an indentation level, then render the element. */
  method Absorb(finalBlock: Block, entity: Element, links: seq<string>) returns (links': seq<string>)
    requires Renderable(entity)
    modifies finalBlock
    ensures links' == links + (if entity.PageLink? then [LinkTarget(entity.link)] else [])
    ensures finalBlock.indentationLevel == if entity.IndentationLevel? then entity.level else old(finalBlock.indentationLevel)
    ensures finalBlock.text == old(finalBlock.text) + Render(entity)
  {
    links' := links;
    match entity {
      case PageLink(outlink) =>
        var aliases := Split(outlink, "|");
        if |aliases| > 1 {
          links' := links' + [aliases[1]];
        } else {
          links' := links' + [aliases[0]];
        }
      case IndentationLevel(level) =>
        finalBlock.UpdateIndentation(level);
      case _ =>
    }
    var collapsed := CollapseTo(entity, finalBlock.text);
    finalBlock.text := collapsed;
  }

  lemma LinkTargetsSnoc(es: seq<Element>, j: nat)
    requires j < |es|
    ensures LinkTargets(es[..j + 1]) == LinkTargets(es[..j]) + (if es[j].PageLink? then [LinkTarget(es[j].link)] else [])
  {
    assert es[..j + 1][..j] == es[..j];
  }

  lemma IndentSnoc(es: seq<Element>, j: nat)
    requires j < |es|
    ensures Indent(es[..j + 1]) == if es[j].IndentationLevel? then es[j].level else Indent(es[..j])
  {
    assert es[..j + 1][..j] == es[..j];
  }

  /** `to_html`. */
  method ToHtml(text: string) returns (h: Html)
    requires PageOk(Lines(text))
    ensures h.outlinks == Outlinks(Blocks(Lines(text)))
    ensures h.body == Join(Divs(Blocks(Lines(text))), "")
  {
    var lines := Lines(text);
    var pageBlocks: seq<seq<Element>> := [];
    var i := 0;
    while i < |lines|
      invariant i <= |lines|
      invariant |pageBlocks| == i
      invariant forall k :: 0 <= k < i ==> pageBlocks[k] == Parse(lines[k])
    {
      var blocks := IterateSlice(lines[i]);
      pageBlocks := pageBlocks + [blocks];
      i := i + 1;
    }
    assert pageBlocks == Blocks(lines);

    var outlinks: seq<string> := [];
    var pieces: seq<string> := [];
    var b := 0;
    while b < |pageBlocks|
      invariant b <= |pageBlocks|
      invariant outlinks == Outlinks(pageBlocks[..b])
      invariant pieces == Divs(pageBlocks[..b])
    {
      DivsStep(pageBlocks, b);
      OutlinksStep(pageBlocks, b);
      var div;
      div, outlinks := BlockDiv(pageBlocks[b], outlinks);
      if div.Some? {
        pieces := pieces + [div.value];
      }
      b := b + 1;
    }
    assert pageBlocks[..b] == pageBlocks;
    h := Html(outlinks, Join(pieces, ""));
  }

  /** One more block adds its div, when it is not empty. */
  lemma {:induction false} DivsStep(blocks: seq<seq<Element>>, b: nat)
    requires BlocksOk(blocks) && b < |blocks|
    ensures BlocksOk(blocks[..b]) && BlocksOk(blocks[..b + 1]) && AllRenderable(blocks[b])
    ensures Divs(blocks[..b + 1]) == Divs(blocks[..b]) + (if blocks[b] == [] then [] else [BlockHtml(blocks[b])])
  {
    assert blocks[..b + 1][..b] == blocks[..b];
  }

  /** One more block adds its link targets. */
  lemma {:induction false} OutlinksStep(blocks: seq<seq<Element>>, b: nat)
    requires b < |blocks|
    ensures Outlinks(blocks[..b + 1]) == Outlinks(blocks[..b]) + LinkTargets(blocks[b])
  {
    assert blocks[..b + 1][..b] == blocks[..b];
  }

  // ---------------------------------------------------------------------
  // Properties

  /** Only the blank line yields no elements. */
  lemma {:induction false} EmptyLineNoBlock(line: string)
    requires Parsable(line)
    ensures Parse(line) == [] <==> line == []
  {
    if line != [] {
      HeadingOnlyAtStart(line);
    }
  }

  /** The lines that are not empty. */
  function NonEmpty(lines: seq<string>): (ne: seq<string>)
    ensures |ne| <= |lines|
    ensures forall k :: 0 <= k < |ne| ==> ne[k] != []
  {
    if lines == [] then []
    else NonEmpty(lines[..|lines| - 1]) + (if lines[|lines| - 1] == [] then [] else [lines[|lines| - 1]])
  }

  /** Every non-empty line gives exactly one div, and the empty ones none. */
  lemma {:induction false} OneDivPerLine(lines: seq<string>)
    requires PageOk(lines)
    ensures |Divs(Blocks(lines))| == |NonEmpty(lines)|
  {
    if lines != [] {
      var init := lines[..|lines| - 1];
      OneDivPerLine(init);
      assert Blocks(lines)[..|lines| - 1] == Blocks(init);
      EmptyLineNoBlock(lines[|lines| - 1]);
    }
  }

  /** Outlinks gather block by block, in line order. */
  lemma {:induction false} OutlinksAppend(xs: seq<seq<Element>>, ys: seq<seq<Element>>)
    ensures Outlinks(xs + ys) == Outlinks(xs) + Outlinks(ys)
    decreases |ys|
  {
    if ys == [] {
      assert xs + ys == xs;
    } else {
      var zs := xs + ys;
      assert zs[..|zs| - 1] == xs + ys[..|ys| - 1];
      OutlinksAppend(xs, ys[..|ys| - 1]);
    }
  }

  lemma {:induction false} IndentFlatTail(es: seq<Element>, rest: seq<Element>)
    requires forall k :: 0 <= k < |rest| ==> !rest[k].IndentationLevel?
    ensures Indent(es + rest) == Indent(es)
    decreases |rest|
  {
    if rest == [] {
      assert es + rest == es;
    } else {
      assert (es + rest)[..|es + rest| - 1] == es + rest[..|rest| - 1];
      IndentFlatTail(es, rest[..|rest| - 1]);
    }
  }

  /** The first element of a line is an indentation marker exactly when the line starts with a tab. */
  lemma {:induction false} FirstElement(s: string)
    requires Parsable(s) && s != []
    ensures Parse(s) == [Dispatch(s, 0).elem] + ParseFrom(s, Dispatch(s, 0).steps + 1)
    ensures Dispatch(s, 0).elem.IndentationLevel? <==> s[0] == '\t'
  {
    var p := Dispatch(s, 0);
    ParseFromStep(s, 0, p.steps + 1);
    FirstIndent(s);
  }

  /** Only the first element of a line can be an indentation marker, so it alone decides the indent. */
  lemma {:induction false} IndentOfLine(s: string)
    requires Parsable(s) && s != []
    ensures Indent(Parse(s)) == (if Dispatch(s, 0).elem.IndentationLevel? then Dispatch(s, 0).elem.level else 0)
  {
    var p := Dispatch(s, 0);
    FirstElement(s);
    var rest := ParseFrom(s, p.steps + 1);
    assert forall k :: 0 <= k < |rest| ==> !rest[k].IndentationLevel? by {
      LaterFlat(s, p.steps + 1);
      forall k | 0 <= k < |rest|
        ensures !rest[k].IndentationLevel?
      {
        assert rest[k] in rest;
      }
    }
    IndentFlatTail([p.elem], rest);
    assert [p.elem][..0] == [];
  }

  /**
   * The data-indent of a line's div: the number of leading tabs when the line
   * starts with tabs followed by something else, and 0 when it starts with
   * anything but a tab.
   */
  lemma {:induction false} LineIndent(s: string, n: nat)
    requires Parsable(s) && s != []
    requires n < |s| && s[n] != '\t' && forall j :: 0 <= j < n ==> s[j] == '\t'
    ensures Indent(Parse(s)) == n
  {
    IndentOfLine(s);
    FirstElement(s);
    if n >= 1 {
      assert Dispatch(s, 0).elem == IndentationLevel(n) by {
        LeadingTabs(s, n);
        FirstElement(s);
      }
    }
  }

  /** A heading line is one element, so its page links never reach the outlinks. */
  lemma {:induction false} HeadingLinksNotCollected(s: string)
    requires Parsable(s) && s != [] && (s[0] == '#' || s[0] == '>')
    ensures LinkTargets(Parse(s)) == []
  {
    MarkerLine(s);
    var e := Parse(s)[0];
    assert Parse(s) == [e];
    assert [e][..0] == [];
  }

  /** A line that is one page link `[[x]]`. */
  lemma {:induction false} LinkLine(x: string)
    requires ']' !in x && '\n' !in x && '\r' !in x
    ensures Lines("[[" + x + "]]") == ["[[" + x + "]]"]
    ensures Parsable("[[" + x + "]]") && Parse("[[" + x + "]]") == [PageLink(x)]
  {
    var s := "[[" + x + "]]";
    assert '\n' !in s && '\r' !in s && s != "";
    assert Join([s], "\n") == s;
    LinesOfJoin([s]);
    assert Parsable(s) by {
      assert s[|s| - 2..] == "]]";
    }
    assert s[0..|x| + 4] == s;
    PageLinkAt(s, 0, x);
    assert ParseFrom(s, |x| + 4) == [];
  }

  /** A link that is not an "http", "https" or "files" one is a page of the wiki. */
  lemma {:induction false} PageHref(link: string)
    requires link != [] && link[0] != 'h' && link[0] != 'f'
    ensures link != "files" && FormatLinks(link) == "/" + Encode(link)
  {
    NotStartsWith(link, "http:");
    NotStartsWith(link, "https:");
    NotStartsWith(link, "files:");
    assert link != "http" && link != "https" && link != "files" by {
      assert "http"[0] == 'h' && "https"[0] == 'h' && "files"[0] == 'f';
    }
  }

  /** Two words joined by a blank: the blank is encoded as "%20". */
  lemma {:induction false} TwoWordHref(w: string, v: string)
    requires w != [] && w[0] != 'h' && w[0] != 'f'
    requires forall k :: 0 <= k < |w| ==> Unreserved(w[k])
    requires forall k :: 0 <= k < |v| ==> Unreserved(v[k])
    ensures w + " " + v != "files"
    ensures FormatLinks(w + " " + v) == "/" + w + "%20" + v
  {
    var link := w + " " + v;
    assert link[0] == w[0];
    PageHref(link);
    EncodeWordSpace(w, v);
    EncodeUnreserved(v);
  }

  lemma {:induction false} SomePageWords(w: string, v: string)
    requires w == "Some" && v == "Page"
    ensures w != [] && w[0] != 'h' && w[0] != 'f'
    ensures forall k :: 0 <= k < |w| ==> Unreserved(w[k])
    ensures forall k :: 0 <= k < |v| ==> Unreserved(v[k])
    ensures ']' !in w && '\n' !in w && '\r' !in w && '|' !in w
    ensures ']' !in v && '\n' !in v && '\r' !in v && '|' !in v
  {
  }

  /** The page link "Some Page" points at "/Some%20Page". */
  lemma {:induction false} SomePageHref(w: string, v: string)
    requires w == "Some" && v == "Page"
    ensures w + " " + v != "files" && FormatLinks(w + " " + v) == "/" + w + "%20" + v
  {
    SomePageWords(w, v);
    TwoWordHref(w, v);
  }

  /** The single div and outlink of a page whose one block is one page link. */
  lemma {:induction false} OneLinkPage(x: string)
    requires Renderable(PageLink(x))
    ensures BlocksOk([[PageLink(x)]])
    ensures Outlinks([[PageLink(x)]]) == [LinkTarget(x)]
    ensures Divs([[PageLink(x)]]) == [Div(0, Render(PageLink(x)))]
  {
    var e := PageLink(x);
    assert [[e]][..0] == [] && [[e]][0] == [e];
    assert [e][..0] == [] && [e][0] == e;
    assert LinkTargets([e]) == [LinkTarget(x)];
    assert Indent([e]) == 0;
    assert BlockHtml([e]) == Div(0, Render(e)) by {
      RenderOne(e);
    }
  }

  /** A page that is one plain page link `[[x]]`. */
  lemma {:induction false} LinkPage(x: string)
    requires ']' !in x && '\n' !in x && '\r' !in x && '|' !in x && x != "files"
    ensures PageOk(Lines("[[" + x + "]]"))
    ensures Outlinks(Blocks(Lines("[[" + x + "]]"))) == [x]
    ensures Join(Divs(Blocks(Lines("[[" + x + "]]"))), "") == Div(0, Anchor(FormatLinks(x), x))
  {
    var text := "[[" + x + "]]";
    LinkLine(x);
    PlainPageLinkRender(x);
    assert PageOk(Lines(text)) by {
      assert Lines(text) == [text];
    }
    assert Blocks(Lines(text)) == [[PageLink(x)]];
    assert LinkTarget(x) == x by {
      ContainsChar(x, '|');
      NoOccurrenceSplit(x, "|");
    }
    OneLinkPage(x);
    assert Join([Div(0, Render(PageLink(x)))], "") == Div(0, Render(PageLink(x)));
  }

  /** A page that is one link to a two-word page: one outlink and one div around the link's anchor. */
  lemma {:induction false} TwoWordPage(w: string, v: string)
    requires w != [] && w[0] != 'h' && w[0] != 'f'
    requires forall k :: 0 <= k < |w| ==> Unreserved(w[k])
    requires forall k :: 0 <= k < |v| ==> Unreserved(v[k])
    requires ']' !in w && '\n' !in w && '\r' !in w && '|' !in w
    requires ']' !in v && '\n' !in v && '\r' !in v && '|' !in v
    ensures var x := w + " " + v;
      PageOk(Lines("[[" + x + "]]")) &&
      Outlinks(Blocks(Lines("[[" + x + "]]"))) == [x] &&
      Join(Divs(Blocks(Lines("[[" + x + "]]"))), "") == Div(0, Anchor("/" + w + "%20" + v, x))
  {
    var x := w + " " + v;
    assert ']' !in x && '\n' !in x && '\r' !in x && '|' !in x;
    TwoWordHref(w, v);
    LinkPage(x);
  }

  /** The page "[[Some Page]]". */
  lemma {:induction false} SomePageExample(w: string, v: string)
    requires w == "Some" && v == "Page"
    ensures var x := w + " " + v;
      PageOk(Lines("[[" + x + "]]")) &&
      Outlinks(Blocks(Lines("[[" + x + "]]"))) == [x] &&
      Join(Divs(Blocks(Lines("[[" + x + "]]"))), "") == Div(0, Anchor("/" + w + "%20" + v, x))
  {
    SomePageWords(w, v);
    TwoWordPage(w, v);
  }
}
