/**
 * The wiki-link state machine of the markdown parser: `send` takes the
 * machine and a message (itself a state) and returns the next machine and
 * the event to emit. Pairs the table forbids abort; here they are `Err`.
 */
module LinkMachine {
  import opened Wrappers
  import opened Strings
  import Formatters

  datatype ParserState =
    | LinkStart                       // [
    | LocationParsing(text: string)   // [[
    | LinkEnd                         // ]
    | TranscludeStart                 // {
    | TranscludeParsing(title: string) // {{
    | TranscludeEnd                   // }
    | Accept

  datatype Context = Context(linkLocation: string, outlinks: seq<string>)

  datatype Machine = Machine(state: ParserState, context: Context)

  datatype Event = Text(text: string) | Html(html: string)

  /** What a `send` that does not abort returns. */
  datatype Step = Step(machine: Machine, event: Event)

  /** The variant of a state, without its payload. */
  datatype Kind = KLinkStart | KLocationParsing | KLinkEnd | KTranscludeStart | KTranscludeParsing | KTranscludeEnd | KAccept

  function KindOf(s: ParserState): Kind {
    match s
    case LinkStart => KLinkStart
    case LocationParsing(_) => KLocationParsing
    case LinkEnd => KLinkEnd
    case TranscludeStart => KTranscludeStart
    case TranscludeParsing(_) => KTranscludeParsing
    case TranscludeEnd => KTranscludeEnd
    case Accept => KAccept
  }

  /** The (message, current state) pairs whose arm is a `panic!`, listed message by message. */
  const Panics: set<(Kind, Kind)> := {
    (KAccept, KLocationParsing), (KAccept, KTranscludeParsing),
    (KLinkStart, KLocationParsing), (KLinkStart, KLinkEnd), (KLinkStart, KTranscludeEnd),
    (KLocationParsing, KAccept), (KLocationParsing, KLinkEnd), (KLocationParsing, KTranscludeStart),
    (KLocationParsing, KTranscludeParsing), (KLocationParsing, KTranscludeEnd),
    (KLinkEnd, KLinkStart), (KLinkEnd, KTranscludeStart), (KLinkEnd, KTranscludeParsing), (KLinkEnd, KTranscludeEnd),
    (KTranscludeStart, KLinkEnd), (KTranscludeStart, KTranscludeParsing), (KTranscludeStart, KTranscludeEnd),
    (KTranscludeParsing, KAccept), (KTranscludeParsing, KLinkStart), (KTranscludeParsing, KLocationParsing),
    (KTranscludeParsing, KLinkEnd), (KTranscludeParsing, KTranscludeEnd),
    (KTranscludeEnd, KAccept), (KTranscludeEnd, KLinkEnd)
  }

  function Go(m: Machine, state: ParserState): Result<Step> {
    Ok(Step(Machine(state, m.context), Text("")))
  }

  /**
   * Closing a link: "text|loc" shows `text` and links to `loc`, a location
   * without '|' is both; a second '|' fails the `assert!`, and a bare
   * "files" location fails inside `format_links`.
   */
  function CloseLink(c: Context): (r: Result<Step>)
    ensures r.Ok? ==> r.value.machine.state == Accept && r.value.machine.context.linkLocation == ""
    ensures r.Ok? ==> exists loc :: r.value.machine.context.outlinks == c.outlinks + [loc]
  {
    var loc := c.linkLocation;
    if '|' in loc then
      var parts := Aliases(loc);
      if |parts| >= 3 then Err("Malformed wiki link")
      else Link(c, parts[1], parts[0])
    else Link(c, loc, loc)
  }

  /** The pieces of a location that holds a '|'. */
  function Aliases(loc: string): (parts: seq<string>)
    requires '|' in loc
    ensures |parts| >= 2 && parts == Split(loc, "|")
  {
    ContainsChar(loc, '|');
    Split(loc, "|")
  }

  /** Emitting the anchor and recording the target; `format_links` fails on a bare "files". */
  function Link(c: Context, location: string, text: string): (r: Result<Step>)
    ensures r.Ok? <==> location != "files"
    ensures r.Ok? ==> r.value == Step(Machine(Accept, Context("", c.outlinks + [location])),
      Html(Formatters.Anchor(Formatters.FormatLinks(location), text)))
  {
    if location == "files" then Err("files link without a path")
    else Ok(Step(Machine(Accept, Context("", c.outlinks + [location])), Html(Formatters.Anchor(Formatters.FormatLinks(location), text))))
  }

  /** `ParserMachine::send`. */
  function Send(m: Machine, message: ParserState): (r: Result<Step>)
    ensures r.Ok? && !(message.LocationParsing? && m.state.LocationParsing?) && !(message == LinkEnd && m.state == LinkEnd)
      ==> r.value.machine.context == m.context
  {
    match message
    case Accept =>
      (match m.state
       case LocationParsing(_) => Err("Unclosed link")
       case TranscludeParsing(_) => Err("Unclosed transclusion")
       case _ => Go(m, Accept))
    case LinkStart =>
      (match m.state
       case Accept => Go(m, LinkStart)
       case LinkStart => Go(m, LocationParsing(""))
       case LocationParsing(_) => Err("Link parsing has already started")
       case LinkEnd => Err("Can't start link immediately from ending")
       case TranscludeStart => Go(m, LinkStart)
       case TranscludeParsing(_) => Go(m, LinkStart)
       case TranscludeEnd => Err("Can't start link immediately from transclude ending"))
    case LocationParsing(text) =>
      (match m.state
       case Accept => Err("must start parsing a link first")
       case LinkStart => Ok(Step(Machine(LocationParsing(text), m.context), Text(text)))
       case LocationParsing(_) =>
         var c := m.context.(linkLocation := m.context.linkLocation + text);
         Ok(Step(Machine(LocationParsing(text), c), Text("")))
       case _ => Err("Must start parsing a link first"))
    case LinkEnd =>
      (match m.state
       case Accept => Ok(Step(Machine(Accept, m.context), Text("]")))
       case LinkStart => Err("must start parsing a link before ending")
       case LocationParsing(_) => Go(m, LinkEnd)
       case LinkEnd => CloseLink(m.context)
       case _ => Err("Must start parsing a link first"))
    case TranscludeStart =>
      (match m.state
       case Accept => Go(m, TranscludeStart)
       case LinkStart => Go(m, Accept)
       case LocationParsing(_) => Go(m, LocationParsing(""))
       case LinkEnd => Err("Must close existing link")
       case TranscludeStart => Go(m, TranscludeParsing("asdf"))
       case _ => Err("Must finish current transclusion first"))
    case TranscludeParsing(_) =>
      (match m.state
       case TranscludeStart => Go(m, message)
       case TranscludeParsing(title) => Go(m, TranscludeParsing(title))
       case _ => Err("Must start transclusion first"))
    case TranscludeEnd =>
      (match m.state
       case Accept => Err("Must start transclusion first")
       case LinkStart => Go(m, Accept)
       case LocationParsing(_) => Go(m, LocationParsing(""))
       case LinkEnd => Err("must close the link!")
       case TranscludeStart => Go(m, Accept)
       case TranscludeParsing(_) => Go(m, message)
       case TranscludeEnd => Go(m, message))
  }

  /** `send` aborts exactly on the `panic!` arms of the table, and when closing a link fails. */
  lemma SendFails(m: Machine, message: ParserState)
    ensures Send(m, message).Err? <==>
      (KindOf(message), KindOf(m.state)) in Panics || (message == LinkEnd && m.state == LinkEnd && CloseLink(m.context).Err?)
  {
    var k := (KindOf(message), KindOf(m.state));
    if message == LinkEnd && m.state == LinkEnd {
      assert k !in Panics;
    } else if k in Panics {
      assert Send(m, message).Err?;
    } else {
      assert Send(m, message).Ok?;
    }
  }

  /** Text received while a location is being parsed is appended to it. */
  lemma LocationAppends(m: Machine, text: string)
    requires m.state.LocationParsing?
    ensures Send(m, LocationParsing(text)) ==
      Ok(Step(Machine(LocationParsing(text), Context(m.context.linkLocation + text, m.context.outlinks)), Text("")))
  {
  }

  /** A ']' outside a link is passed through as text. */
  lemma StrayLinkEnd(m: Machine)
    requires m.state == Accept
    ensures Send(m, LinkEnd) == Ok(Step(Machine(Accept, m.context), Text("]")))
  {
  }

  /** The location "text|loc" becomes a link to `loc` showing `text`, and `loc` is recorded. */
  lemma AliasedLink(m: Machine, text: string, loc: string)
    requires m.state == LinkEnd && m.context.linkLocation == text + "|" + loc
    requires '|' !in text && '|' !in loc && loc != "files"
    ensures Send(m, LinkEnd) == Ok(Step(
      Machine(Accept, Context("", m.context.outlinks + [loc])),
      Html(Formatters.Anchor(Formatters.FormatLinks(loc), text))))
  {
    var c := m.context.linkLocation;
    assert c[|text|] == '|';
    ContainsChar(text, '|');
    ContainsChar(loc, '|');
    CharSepFirst(text, '|', loc);
    NoOccurrenceSplit(loc, "|");
    assert Split(c, "|") == [text, loc];
  }

  /** A location without '|' is both the link text and its target. */
  lemma PlainLink(m: Machine)
    requires m.state == LinkEnd && '|' !in m.context.linkLocation && m.context.linkLocation != "files"
    ensures var loc := m.context.linkLocation;
      Send(m, LinkEnd) == Ok(Step(
        Machine(Accept, Context("", m.context.outlinks + [loc])),
        Html(Formatters.Anchor(Formatters.FormatLinks(loc), loc))))
  {
  }

  /** A location with two '|'s is a malformed link. */
  lemma MalformedLink(m: Machine, a: string, b: string, c: string)
    requires m.state == LinkEnd && m.context.linkLocation == a + "|" + b + "|" + c
    ensures Send(m, LinkEnd).Err?
  {
    var s := m.context.linkLocation;
    assert s == a + ['|'] + (b + ['|'] + c);
    assert s[|a|] == '|';
    SplitCharAppend(a, '|', b + ['|'] + c);
    SplitCharAppend(b, '|', c);
  }

  // ---------------------------------------------------------------------
  // Sequences of messages

  /** The states and events a sequence of messages produces, or the first abort. */
  function Run(m: Machine, messages: seq<ParserState>): (r: Result<(Machine, seq<(ParserState, Event)>)>)
    ensures r.Ok? ==> |r.value.1| == |messages|
    decreases |messages|
  {
    if messages == [] then Ok((m, []))
    else match Send(m, messages[0])
      case Err(e) => Err(e)
      case Ok(step) =>
        match Run(step.machine, messages[1..])
        case Err(e) => Err(e)
        case Ok(rest) => Ok((rest.0, [(step.machine.state, step.event)] + rest.1))
  }

  /** One step of a run. */
  lemma RunStep(m: Machine, x: ParserState, rest: seq<ParserState>, step: Step, last: Machine, trace: seq<(ParserState, Event)>)
    requires Send(m, x) == Ok(step) && Run(step.machine, rest) == Ok((last, trace))
    ensures Run(m, [x] + rest) == Ok((last, [(step.machine.state, step.event)] + trace))
  {
    assert ([x] + rest)[1..] == rest;
  }

  /** A successful `send` keeps the outlinks recorded so far as a prefix. */
  lemma SendOutlinks(m: Machine, x: ParserState)
    requires Send(m, x).Ok?
    ensures var o := Send(m, x).value.machine.context.outlinks;
      |m.context.outlinks| <= |o| && o[..|m.context.outlinks|] == m.context.outlinks
  {
    if x == LinkEnd && m.state == LinkEnd {
      var step := CloseLink(m.context).value;
      var loc :| step.machine.context.outlinks == m.context.outlinks + [loc];
    } else if x.LocationParsing? && m.state.LocationParsing? {
      LocationAppends(m, x.text);
    }
  }

  /** Outlinks are only ever appended to. */
  lemma {:induction false} OutlinksGrow(m: Machine, messages: seq<ParserState>)
    requires Run(m, messages).Ok?
    ensures var o := Run(m, messages).value.0.context.outlinks;
      |m.context.outlinks| <= |o| && o[..|m.context.outlinks|] == m.context.outlinks
    decreases |messages|
  {
    if messages != [] {
      var step := Send(m, messages[0]).value;
      SendOutlinks(m, messages[0]);
      OutlinksGrow(step.machine, messages[1..]);
      var o1 := step.machine.context.outlinks;
      var o := Run(m, messages).value.0.context.outlinks;
      assert o == Run(step.machine, messages[1..]).value.0.context.outlinks;
      assert o[..|o1|] == o1;
      assert o[..|m.context.outlinks|] == o1[..|m.context.outlinks|];
    }
  }

  function Start(): Machine {
    Machine(Accept, Context("", []))
  }

  /** `[[`, the location `t`, `]` and a final message, followed by any run from the accepting state. */
  lemma LinkPrefix(t: string, rest: seq<ParserState>, last: Machine, trace: seq<(ParserState, Event)>)
    requires Run(Machine(Accept, Context(t, [])), rest) == Ok((last, trace))
    ensures Run(Start(), [LinkStart] + ([LinkStart] + ([LocationParsing(t)] + ([LinkEnd] + ([Accept] + rest)))))
      == Ok((last, [(LinkStart, Text(""))] + ([(LocationParsing(""), Text(""))] + ([(LocationParsing(t), Text(""))]
         + ([(LinkEnd, Text(""))] + ([(Accept, Text(""))] + trace))))))
  {
    var c := Context(t, []);
    var m1 := Machine(LinkStart, Context("", []));
    var m2 := Machine(LocationParsing(""), Context("", []));
    var m3 := Machine(LocationParsing(t), c);
    var m4 := Machine(LinkEnd, c);
    var m5 := Machine(Accept, c);
    var e := Text("");
    RunStep(m4, Accept, rest, Step(m5, e), last, trace);
    var ms4, tr4 := [Accept] + rest, [(Accept, e)] + trace;
    RunStep(m3, LinkEnd, ms4, Step(m4, e), last, tr4);
    var ms3, tr3 := [LinkEnd] + ms4, [(LinkEnd, e)] + tr4;
    assert Send(m2, LocationParsing(t)) == Ok(Step(m3, e)) by {
      assert "" + t == t;
    }
    RunStep(m2, LocationParsing(t), ms3, Step(m3, e), last, tr3);
    var ms2, tr2 := [LocationParsing(t)] + ms3, [(LocationParsing(t), e)] + tr3;
    RunStep(m1, LinkStart, ms2, Step(m2, e), last, tr2);
    var ms1, tr1 := [LinkStart] + ms2, [(LocationParsing(""), e)] + tr2;
    RunStep(Start(), LinkStart, ms1, Step(m1, e), last, tr1);
  }

  lemma FlatFive<T>(a: T, b: T, c: T, d: T, e: T, rest: seq<T>)
    ensures [a] + ([b] + ([c] + ([d] + ([e] + rest)))) == [a, b, c, d, e] + rest
  {
  }

  /** `[[`, the location, `]` and a final message: the states and empty events of the link test. */
  lemma ValidTransitions(t: string)
    requires t == "Testing!"
    ensures var r := Run(Start(), [LinkStart, LinkStart, LocationParsing(t), LinkEnd, Accept]);
      r.Ok? && r.value.1 == [
        (LinkStart, Text("")), (LocationParsing(""), Text("")), (LocationParsing(t), Text("")),
        (LinkEnd, Text("")), (Accept, Text(""))]
  {
    var e := Text("");
    LinkPrefix(t, [], Machine(Accept, Context(t, [])), []);
    FlatFive(LinkStart, LinkStart, LocationParsing(t), LinkEnd, Accept, []);
    FlatFive((LinkStart, e), (LocationParsing(""), e), (LocationParsing(t), e), (LinkEnd, e), (Accept, e), []);
    NoRest([LinkStart, LinkStart, LocationParsing(t), LinkEnd, Accept]);
    NoRest([(LinkStart, e), (LocationParsing(""), e), (LocationParsing(t), e), (LinkEnd, e), (Accept, e)]);
  }

  lemma NoRest<T>(s: seq<T>)
    ensures s + [] == s
  {
  }

  lemma FiveThree<T>(a: T, b: T, c: T, d: T, e: T, f: T, g: T, h: T)
    ensures [a, b, c, d, e] + [f, g, h] == [a, b, c, d, e, f, g, h]
  {
  }

  /** `{{`, `{` and more text from the accepting state: the transclusion part of the test. */
  lemma TranscludeTail(c: Context)
    ensures var m7 := Machine(TranscludeParsing("asdf"), c);
      Run(Machine(Accept, c), [TranscludeStart, TranscludeStart, TranscludeParsing("asdf")])
      == Ok((m7, [(TranscludeStart, Text("")), (TranscludeParsing("asdf"), Text("")), (TranscludeParsing("asdf"), Text(""))]))
  {
    var m5 := Machine(Accept, c);
    var m6 := Machine(TranscludeStart, c);
    var m7 := Machine(TranscludeParsing("asdf"), c);
    var e := Text("");
    RunStep(m7, TranscludeParsing("asdf"), [], Step(m7, e), m7, []);
    var ms7, tr7 := [TranscludeParsing("asdf")] + [], [(TranscludeParsing("asdf"), e)] + [];
    RunStep(m6, TranscludeStart, ms7, Step(m7, e), m7, tr7);
    var ms6, tr6 := [TranscludeStart] + ms7, [(TranscludeParsing("asdf"), e)] + tr7;
    RunStep(m5, TranscludeStart, ms6, Step(m6, e), m7, tr6);
    assert [TranscludeStart] + ms6 == [TranscludeStart, TranscludeStart, TranscludeParsing("asdf")];
    assert [(TranscludeStart, e)] + tr6 == [(TranscludeStart, e), (TranscludeParsing("asdf"), e), (TranscludeParsing("asdf"), e)];
  }

  /** The transclusion test: its eight checked steps. */
  lemma ValidTranscludeTransitions(t: string)
    requires t == "Testing!"
    ensures var r := Run(Start(), [LinkStart, LinkStart, LocationParsing(t), LinkEnd, Accept,
        TranscludeStart, TranscludeStart, TranscludeParsing("asdf")]);
      r.Ok? && r.value.1 == [
        (LinkStart, Text("")), (LocationParsing(""), Text("")), (LocationParsing(t), Text("")),
        (LinkEnd, Text("")), (Accept, Text("")), (TranscludeStart, Text("")),
        (TranscludeParsing("asdf"), Text("")), (TranscludeParsing("asdf"), Text(""))]
  {
    var c := Context(t, []);
    var e := Text("");
    var rest := [TranscludeStart, TranscludeStart, TranscludeParsing("asdf")];
    var trace := [(TranscludeStart, e), (TranscludeParsing("asdf"), e), (TranscludeParsing("asdf"), e)];
    TranscludeTail(c);
    LinkPrefix(t, rest, Machine(TranscludeParsing("asdf"), c), trace);
    FlatFive(LinkStart, LinkStart, LocationParsing(t), LinkEnd, Accept, rest);
    FlatFive((LinkStart, e), (LocationParsing(""), e), (LocationParsing(t), e), (LinkEnd, e), (Accept, e), trace);
    FiveThree(LinkStart, LinkStart, LocationParsing(t), LinkEnd, Accept, TranscludeStart, TranscludeStart, TranscludeParsing("asdf"));
    FiveThree((LinkStart, e), (LocationParsing(""), e), (LocationParsing(t), e), (LinkEnd, e), (Accept, e),
      (TranscludeStart, e), (TranscludeParsing("asdf"), e), (TranscludeParsing("asdf"), e));
  }

  /** `[` in the middle of a location aborts, as the invalid-sequence test expects. */
  lemma InvalidTransitions(t: string)
    requires t == "Testing!"
    ensures Run(Start(), [LinkStart, LinkStart, LocationParsing(t), LinkStart, Accept]).Err?
  {
    var c := Context(t, []);
    var m1 := Machine(LinkStart, Context("", []));
    var m2 := Machine(LocationParsing(""), Context("", []));
    var m3 := Machine(LocationParsing(t), c);
    var e := Text("");
    var msgs := [LinkStart, LinkStart, LocationParsing(t), LinkStart, Accept];
    assert Send(m3, LinkStart).Err?;
    assert Run(m3, msgs[3..]).Err?;
    assert Send(m2, LocationParsing(t)) == Ok(Step(m3, e)) by {
      assert "" + t == t;
    }
    assert msgs[2..][1..] == msgs[3..];
    assert Run(m2, msgs[2..]).Err?;
    assert msgs[1..][1..] == msgs[2..];
    assert Run(m1, msgs[1..]).Err?;
  }

  /** `[[t]]` emits the anchor for `t` and records it as an outlink. */
  lemma WholeLink(t: string)
    requires '|' !in t && t != "files"
    ensures var r := Run(Start(), [LinkStart, LinkStart, LocationParsing(t), LinkEnd, LinkEnd]);
      r.Ok? && r.value.0 == Machine(Accept, Context("", [t]))
      && r.value.1[4] == (Accept, Html(Formatters.Anchor(Formatters.FormatLinks(t), t)))
  {
    var e := Text("");
    var m1 := Machine(LinkStart, Context("", []));
    var m2 := Machine(LocationParsing(""), Context("", []));
    var m3 := Machine(LocationParsing(t), Context(t, []));
    var m5 := Machine(Accept, Context("", [t]));
    var tr3 := [(LinkEnd, e), (Accept, Html(Formatters.Anchor(Formatters.FormatLinks(t), t)))];
    LinkTail(t);
    assert Send(m2, LocationParsing(t)) == Ok(Step(m3, e)) by {
      assert "" + t == t;
    }
    RunStep(m2, LocationParsing(t), [LinkEnd, LinkEnd], Step(m3, e), m5, tr3);
    var ms2, tr2 := [LocationParsing(t)] + [LinkEnd, LinkEnd], [(LocationParsing(t), e)] + tr3;
    RunStep(m1, LinkStart, ms2, Step(m2, e), m5, tr2);
    var ms1, tr1 := [LinkStart] + ms2, [(LocationParsing(""), e)] + tr2;
    RunStep(Start(), LinkStart, ms1, Step(m1, e), m5, tr1);
    assert [LinkStart] + ms1 == [LinkStart, LinkStart, LocationParsing(t), LinkEnd, LinkEnd];
    assert ([(LinkStart, e)] + tr1)[4] == tr3[1];
  }

  /** The closing `]]` of `[[t]]`: the anchor for `t`, with `t` recorded as an outlink. */
  lemma LinkTail(t: string)
    requires '|' !in t && t != "files"
    ensures Run(Machine(LocationParsing(t), Context(t, [])), [LinkEnd, LinkEnd]) ==
              Ok((Machine(Accept, Context("", [t])),
                  [(LinkEnd, Text("")), (Accept, Html(Formatters.Anchor(Formatters.FormatLinks(t), t)))]))
  {
    var c := Context(t, []);
    var m3 := Machine(LocationParsing(t), c);
    var m4 := Machine(LinkEnd, c);
    var m5 := Machine(Accept, Context("", [t]));
    var h := Html(Formatters.Anchor(Formatters.FormatLinks(t), t));
    PlainLink(m4);
    assert c.outlinks + [t] == [t];
    RunStep(m4, LinkEnd, [], Step(m5, h), m5, []);
    assert [LinkEnd] + [] == [LinkEnd] && [(Accept, h)] + [] == [(Accept, h)];
    RunStep(m3, LinkEnd, [LinkEnd], Step(m4, Text("")), m5, [(Accept, h)]);
    assert [LinkEnd] + [LinkEnd] == [LinkEnd, LinkEnd];
    assert [(LinkEnd, Text(""))] + [(Accept, h)] == [(LinkEnd, Text("")), (Accept, h)];
  }
}
