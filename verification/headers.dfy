/**
 * Notes and their header block: `parse_meta` reads "key: value" lines up to
 * the first empty line and joins the remaining lines into the content; a
 * note is written back as its header lines, a blank line and the content.
 * Also the page a note renders to (`to_template`) and the edit it becomes
 * (`Into<PatchData>`).
 */
module Headers {
  import opened Wrappers
  import opened Strings
  import opened BlockParser
  import opened WikiHtml
  import Tags
  import opened Patch

  datatype MetaState = Parsing | End

  /** The two-state machine `parse_meta` drives. */
  class HeaderParserMachine {
    var state: MetaState

    constructor()
      ensures state == Parsing
    {
      state := Parsing;
    }

    method Send(next: MetaState)
      modifies this
      ensures state == next
    {
      state := next;
    }

    function CurrentState(): MetaState
      reads this
    {
      state
    }
  }

  datatype Note = Note(header: map<string, string>, content: string)

  /** What the `assert!` on a header line without ": " reports. */
  const HeaderAbort: string := "header line without a \": \" separator"

  /** A header line `parse_meta` accepts: it holds at least one ": ". */
  predicate HeaderLine(line: string) {
    |Split(line, ": ")| > 1
  }

  function HeaderKey(line: string): string {
    Split(line, ": ")[0]
  }

  /** The pieces after the first ": ", joined again when there are several. */
  function HeaderValue(line: string): string
    requires HeaderLine(line)
  {
    var values := Split(line, ": ");
    if |values| > 2 then Join(values[1..], ": ") else values[1]
  }

  /** `parse_meta`'s loop body on one line. */
  function Feed(state: MetaState, note: Note, line: string): Result<(MetaState, Note)> {
    if line == "" then Ok((End, note))
    else match state
      case Parsing =>
        if !HeaderLine(line) then Err(HeaderAbort)
        else Ok((Parsing, note.(header := note.header[HeaderKey(line) := HeaderValue(line)])))
      case End =>
        Ok((End, note.(content := if note.content == "" then line else note.content + "\n" + line)))
  }

  /** The loop from a given state onwards. */
  function Run(lines: seq<string>, state: MetaState, note: Note): Result<Note>
    decreases |lines|
  {
    if lines == [] then Ok(note)
    else match Feed(state, note, lines[0])
      case Err(e) => Err(e)
      case Ok(next) => Run(lines[1..], next.0, next.1)
  }

  function Empty(): Note {
    Note(map[], "")
  }

  /** `parse_meta`: the machine starts in `Parsing` with an empty note. */
  method ParseMeta(lines: seq<string>) returns (r: Result<Note>)
    ensures r == Run(lines, Parsing, Empty())
  {
    var parser := new HeaderParserMachine();
    var header: map<string, string> := map[];
    var content := "";
    var i := 0;
    while i < |lines|
      invariant 0 <= i <= |lines|
      invariant Run(lines, Parsing, Empty()) == Run(lines[i..], parser.state, Note(header, content))
    {
      var line := lines[i];
      assert lines[i..][0] == line && lines[i..][1..] == lines[i + 1..];
      if line == "" {
        if parser.CurrentState() == Parsing {
          parser.Send(End);
        }
      } else if parser.CurrentState() == Parsing {
        var values := Split(line, ": ");
        if |values| <= 1 {
          return Err(HeaderAbort);
        }
        var vals := if |values| > 2 then Join(values[1..], ": ") else values[1];
        header := header[values[0] := vals];
      } else {
        if content == "" {
          content := line;
        } else {
          content := content + "\n" + line;
        }
      }
      i := i + 1;
    }
    return Ok(Note(header, content));
  }

  /** `From<String> for Note`. */
  function NoteFromString(s: string): Result<Note> {
    Run(Lines(s), Parsing, Empty())
  }

  // ---------------------------------------------------------------------
  // The shape of a parsed note

  /** The index of the first empty line, or the number of lines. */
  function FirstBlank(lines: seq<string>): (k: nat)
    ensures k <= |lines|
    ensures k < |lines| ==> lines[k] == ""
    ensures forall j :: 0 <= j < k ==> lines[j] != ""
  {
    if lines == [] || lines[0] == "" then 0 else 1 + FirstBlank(lines[1..])
  }

  /** The lines after the first empty line. */
  function BodyLines(lines: seq<string>): seq<string> {
    var k := FirstBlank(lines);
    if k < |lines| then lines[k + 1..] else []
  }

  function NonEmptyLines(lines: seq<string>): (ne: seq<string>)
    ensures forall l :: l in ne ==> l in lines && l != ""
  {
    if lines == [] then []
    else (if lines[0] == "" then [] else [lines[0]]) + NonEmptyLines(lines[1..])
  }

  /** Inserting the header lines into `h`, in order. */
  function Insert(h: map<string, string>, lines: seq<string>): map<string, string>
    requires forall l :: l in lines ==> HeaderLine(l)
    decreases |lines|
  {
    if lines == [] then h else Insert(h[HeaderKey(lines[0]) := HeaderValue(lines[0])], lines[1..])
  }

  /** A repeated key overwrites: the last header line wins. */
  lemma {:induction false} InsertLast(h: map<string, string>, lines: seq<string>, line: string)
    requires forall l :: l in lines ==> HeaderLine(l)
    requires HeaderLine(line)
    ensures Insert(h, lines + [line]) == Insert(h, lines)[HeaderKey(line) := HeaderValue(line)]
    decreases |lines|
  {
    if lines != [] {
      assert (lines + [line])[1..] == lines[1..] + [line];
      InsertLast(h[HeaderKey(lines[0]) := HeaderValue(lines[0])], lines[1..], line);
    }
  }

  /** The content the `End` state builds from lines after `c`. */
  function Glue(c: string, lines: seq<string>): string {
    if lines == [] then c else if c == "" then Join(lines, "\n") else c + "\n" + Join(lines, "\n")
  }

  lemma {:induction false} EndPhase(lines: seq<string>, note: Note)
    ensures Run(lines, End, note) == Ok(note.(content := Glue(note.content, NonEmptyLines(lines))))
    decreases |lines|
  {
    if lines != [] {
      var x := lines[0];
      var c := note.content;
      var next := Feed(End, note, x).value.1;
      assert Run(lines, End, note) == Run(lines[1..], End, next);
      EndPhase(lines[1..], next);
      var rest := NonEmptyLines(lines[1..]);
      if x != "" {
        assert NonEmptyLines(lines) == [x] + rest;
        if rest != [] {
          assert Join([x] + rest, "\n") == x + "\n" + Join(rest, "\n") by {
            assert ([x] + rest)[1..] == rest;
          }
          if c != "" {
            assert Glue(c, [x] + rest) == (c + "\n" + x) + "\n" + Join(rest, "\n");
          }
        } else {
          assert Join([x], "\n") == x;
        }
      } else {
        assert NonEmptyLines(lines) == rest;
      }
    }
  }

  lemma {:induction false} ParsingPhase(lines: seq<string>, h: map<string, string>)
    ensures var hs := lines[..FirstBlank(lines)];
      Run(lines, Parsing, Note(h, "")) ==
        if forall l :: l in hs ==> HeaderLine(l)
        then Ok(Note(Insert(h, hs), Join(NonEmptyLines(BodyLines(lines)), "\n")))
        else Err(HeaderAbort)
    decreases |lines|
  {
    if lines == [] {
    } else if lines[0] == "" {
      EndPhase(lines[1..], Note(h, ""));
    } else if !HeaderLine(lines[0]) {
      assert lines[0] in lines[..FirstBlank(lines)];
    } else {
      var x := lines[0];
      var h' := h[HeaderKey(x) := HeaderValue(x)];
      ParsingPhase(lines[1..], h');
      var hs := lines[..FirstBlank(lines)];
      assert hs == [x] + lines[1..][..FirstBlank(lines[1..])];
      assert BodyLines(lines) == BodyLines(lines[1..]);
    }
  }

  /**
   * What `parse_meta` computes: the lines before the first empty line are
   * the header (each must hold ": "), and the non-empty lines after it,
   * joined with '\n', are the content. Later empty lines never reach it.
   */
  lemma ParseMetaShape(lines: seq<string>)
    ensures var hs := lines[..FirstBlank(lines)];
      Run(lines, Parsing, Empty()) ==
        if forall l :: l in hs ==> HeaderLine(l)
        then Ok(Note(Insert(map[], hs), Join(NonEmptyLines(BodyLines(lines)), "\n")))
        else Err(HeaderAbort)
  {
    ParsingPhase(lines, map[]);
  }

  // ---------------------------------------------------------------------
  // Writing a note

  function Entry(key: string, value: string): string {
    key + ": " + value
  }

  /** The header lines for `keys`, each followed by '\n'. */
  function HeaderText(keys: seq<string>, header: map<string, string>): string
    requires forall k :: k in keys ==> k in header
  {
    if keys == [] then "" else Entry(keys[0], header[keys[0]]) + "\n" + HeaderText(keys[1..], header)
  }

  /** `Into<String>` with the header keys visited in the order `keys`. */
  function Serialized(note: Note, keys: seq<string>): string
    requires forall k :: k in keys ==> k in note.header
  {
    HeaderText(keys, note.header) + "\n" + note.content
  }

  /** `keys` lists every key of `header` exactly once. */
  ghost predicate Enumerates(keys: seq<string>, header: map<string, string>) {
    (forall k :: k in keys <==> k in header) && (forall i, j :: 0 <= i < j < |keys| ==> keys[i] != keys[j])
  }

  lemma {:induction false} HeaderTextSnoc(keys: seq<string>, key: string, header: map<string, string>)
    requires forall k :: k in keys ==> k in header
    requires key in header
    ensures HeaderText(keys + [key], header) == HeaderText(keys, header) + Entry(key, header[key]) + "\n"
  {
    if keys != [] {
      assert (keys + [key])[1..] == keys[1..] + [key];
      HeaderTextSnoc(keys[1..], key, header);
    }
  }

  /** `Into<String>`: the header map is visited in an arbitrary order. */
  method NoteToString(note: Note) returns (s: string, ghost keys: seq<string>)
    ensures Enumerates(keys, note.header)
    ensures s == Serialized(note, keys)
  {
    s := "";
    keys := [];
    var pending := note.header.Keys;
    while pending != {}
      invariant pending <= note.header.Keys
      invariant forall k :: k in keys <==> k in note.header && k !in pending
      invariant forall i, j :: 0 <= i < j < |keys| ==> keys[i] != keys[j]
      invariant s == HeaderText(keys, note.header)
      decreases |pending|
    {
      var key :| key in pending;
      HeaderTextSnoc(keys, key, note.header);
      s := s + key + ": " + note.header[key] + "\n";
      keys := keys + [key];
      pending := pending - {key};
    }
    s := s + "\n" + note.content;
  }

  // ---------------------------------------------------------------------
  // Round trip

  function EntryLines(keys: seq<string>, header: map<string, string>): (ls: seq<string>)
    requires forall k :: k in keys ==> k in header
    ensures |ls| == |keys|
    ensures forall i :: 0 <= i < |keys| ==> ls[i] == Entry(keys[i], header[keys[i]])
  {
    seq(|keys|, i requires 0 <= i < |keys| => Entry(keys[i], header[keys[i]]))
  }

  /** A key without ": " is split off at the separator `Entry` puts after it. */
  lemma EntryParts(key: string, value: string)
    requires !Contains(key, ": ")
    ensures HeaderLine(Entry(key, value))
    ensures HeaderKey(Entry(key, value)) == key && HeaderValue(Entry(key, value)) == value
  {
    var s := key + ": " + value;
    forall j | 0 <= j < |key|
      ensures !OccursAt(s, ": ", j)
    {
      if j + 2 <= |key| {
        assert s[j..j + 2] == key[j..j + 2];
        assert !OccursAt(key, ": ", j);
      } else {
        assert s[j + 1] == ':';
      }
    }
    SplitAtFirst(key, ": ", value);
    JoinSplit(value, ": ");
    var values := Split(s, ": ");
    assert values[1..] == Split(value, ": ");
    if |values| == 2 {
      assert Join(values[1..], ": ") == values[1];
    }
  }

  /** The lines of a written note, as `lines()` reads them back. */
  function WrittenLines(note: Note, keys: seq<string>): seq<string>
    requires forall k :: k in keys ==> k in note.header
  {
    EntryLines(keys, note.header) + [""] + (if note.content == "" then [] else Split(note.content, "\n"))
  }

  lemma {:induction false} HeaderTextJoin(keys: seq<string>, header: map<string, string>, tail: seq<string>)
    requires forall k :: k in keys ==> k in header
    requires tail != []
    ensures HeaderText(keys, header) + Join(tail, "\n") == Join(EntryLines(keys, header) + tail, "\n")
    decreases |keys|
  {
    if keys != [] {
      var e := Entry(keys[0], header[keys[0]]);
      var more := EntryLines(keys[1..], header) + tail;
      HeaderTextJoin(keys[1..], header, tail);
      assert HeaderText(keys[1..], header) + Join(tail, "\n") == Join(more, "\n");
      assert EntryLines(keys, header) == [e] + EntryLines(keys[1..], header);
      var all := EntryLines(keys, header) + tail;
      assert all == [e] + more;
      assert Join(all, "\n") == e + "\n" + Join(more, "\n") by {
        assert all[1..] == more;
      }
      assert HeaderText(keys, header) == e + "\n" + HeaderText(keys[1..], header);
    } else {
      assert EntryLines(keys, header) + tail == tail;
    }
  }

  /** A safe note: keys without ": ", no line breaks in keys and values, content without blank lines. */
  predicate Writable(note: Note) {
    && (forall k :: k in note.header ==>
          !Contains(k, ": ") && '\n' !in k && '\r' !in k && '\n' !in note.header[k] && '\r' !in note.header[k])
    && '\r' !in note.content
    && (note.content != "" ==> forall k :: 0 <= k < |Split(note.content, "\n")| ==> Split(note.content, "\n")[k] != "")
  }

  lemma EntryChars(key: string, value: string, c: char)
    requires c !in key && c !in value && c != ':' && c != ' '
    ensures c !in Entry(key, value)
  {
  }

  /** The written text is the entry lines, an empty line and the content's lines, joined by '\n'. */
  lemma SerializedJoin(note: Note, keys: seq<string>)
    requires forall k :: k in keys ==> k in note.header
    ensures Serialized(note, keys) == Join(EntryLines(keys, note.header) + [""] + Split(note.content, "\n"), "\n")
  {
    var el := EntryLines(keys, note.header);
    var c := note.content;
    var cl := Split(c, "\n");
    var ht := HeaderText(keys, note.header);
    var tail := [""] + cl;
    assert Join(tail, "\n") == "\n" + c by {
      JoinSplit(c, "\n");
      assert tail[1..] == cl;
    }
    assert ht + Join(tail, "\n") == Join(el + tail, "\n") by {
      HeaderTextJoin(keys, note.header, tail);
    }
    assert el + tail == el + [""] + cl;
    assert Serialized(note, keys) == ht + ("\n" + c);
  }

  lemma EntryLinesFree(note: Note, keys: seq<string>)
    requires Enumerates(keys, note.header) && Writable(note)
    ensures forall k :: 0 <= k < |EntryLines(keys, note.header)| ==>
      '\n' !in EntryLines(keys, note.header)[k] && '\r' !in EntryLines(keys, note.header)[k]
  {
    var el := EntryLines(keys, note.header);
    forall k | 0 <= k < |el|
      ensures '\n' !in el[k] && '\r' !in el[k]
    {
      var key := keys[k];
      EntryChars(key, note.header[key], '\n');
      EntryChars(key, note.header[key], '\r');
    }
  }

  /** `lines` reads back header lines, the empty line and content without '\r' or blank lines. */
  lemma LinesOfWritten(el: seq<string>, c: string)
    requires forall k :: 0 <= k < |el| ==> '\n' !in el[k] && '\r' !in el[k]
    requires '\r' !in c
    requires c != "" ==> forall k :: 0 <= k < |Split(c, "\n")| ==> Split(c, "\n")[k] != ""
    ensures Lines(Join(el + [""] + Split(c, "\n"), "\n")) == el + [""] + (if c == "" then [] else Split(c, "\n"))
  {
    if c == "" {
      assert Split(c, "\n") == [""];
      assert el + [""] + [""] == (el + [""]) + [""];
      assert Lines(Join((el + [""]) + [""], "\n")) == el + [""] by {
        LinesOfJoinTrailing(el + [""]);
      }
      assert el + [""] + [] == el + [""];
    } else {
      LinesOfContent(el, c);
    }
  }

  lemma LinesOfContent(el: seq<string>, c: string)
    requires forall k :: 0 <= k < |el| ==> '\n' !in el[k] && '\r' !in el[k]
    requires '\r' !in c && c != ""
    requires forall k :: 0 <= k < |Split(c, "\n")| ==> Split(c, "\n")[k] != ""
    ensures Lines(Join(el + [""] + Split(c, "\n"), "\n")) == el + [""] + Split(c, "\n")
  {
    var cl := Split(c, "\n");
    var all := el + [""] + cl;
    assert forall k :: 0 <= k < |cl| ==> '\n' !in cl[k] && '\r' !in cl[k] by {
      SplitChars(c, "\n", '\r');
      SplitPiecesFree(c, "\n");
      forall k | 0 <= k < |cl|
        ensures '\n' !in cl[k]
      {
        ContainsChar(cl[k], '\n');
      }
    }
    assert forall k :: 0 <= k < |all| ==> '\n' !in all[k] && '\r' !in all[k] by {
      forall k | 0 <= k < |all|
        ensures '\n' !in all[k] && '\r' !in all[k]
      {
        if k < |el| {
          assert all[k] == el[k];
        } else if k > |el| {
          assert all[k] == cl[k - |el| - 1];
        }
      }
    }
    assert all[|all| - 1] == cl[|cl| - 1] != "";
    LinesOfJoin(all);
  }

  lemma WrittenLinesRead(note: Note, keys: seq<string>)
    requires Enumerates(keys, note.header) && Writable(note)
    ensures Lines(Serialized(note, keys)) == WrittenLines(note, keys)
  {
    SerializedJoin(note, keys);
    EntryLinesFree(note, keys);
    LinesOfWritten(EntryLines(keys, note.header), note.content);
  }

  lemma {:induction false} InsertEntries(h: map<string, string>, keys: seq<string>, header: map<string, string>)
    requires forall k :: k in keys ==> k in header && !Contains(k, ": ")
    requires forall l :: l in EntryLines(keys, header) ==> HeaderLine(l)
    ensures forall k :: k in Insert(h, EntryLines(keys, header)) <==> k in h || k in keys
    ensures forall k :: k in keys ==> Insert(h, EntryLines(keys, header))[k] == header[k]
    ensures forall k :: k in h && k !in keys ==> Insert(h, EntryLines(keys, header))[k] == h[k]
    decreases |keys|
  {
    if keys != [] {
      var el := EntryLines(keys, header);
      var k0 := keys[0];
      EntryParts(k0, header[k0]);
      assert el[1..] == EntryLines(keys[1..], header);
      InsertEntries(h[k0 := header[k0]], keys[1..], header);
    }
  }

  /** The written lines parse back to the note. */
  lemma ParseWritten(note: Note, keys: seq<string>)
    requires Enumerates(keys, note.header) && Writable(note)
    ensures Run(WrittenLines(note, keys), Parsing, Empty()) == Ok(note)
  {
    var el := EntryLines(keys, note.header);
    var c := note.content;
    var cl := if c == "" then [] else Split(c, "\n");
    var lines := WrittenLines(note, keys);
    assert lines == el + [""] + cl;
    assert forall l :: l in el ==> HeaderLine(l) && l != "" by {
      forall l | l in el
        ensures HeaderLine(l) && l != ""
      {
        var i :| 0 <= i < |keys| && l == el[i];
        EntryParts(keys[i], note.header[keys[i]]);
      }
    }
    assert FirstBlank(lines) == |el| by {
      FirstBlankAt(lines, |el|);
    }
    assert lines[..|el|] == el;
    assert BodyLines(lines) == cl by {
      assert lines[|el| + 1..] == cl;
    }
    assert Join(NonEmptyLines(cl), "\n") == c by {
      NonEmptyKeep(cl);
      if c != "" {
        JoinSplit(c, "\n");
      }
    }
    assert Insert(map[], el) == note.header by {
      InsertEntries(map[], keys, note.header);
    }
    ParseMetaShape(lines);
  }

  /**
   * Writing a note and parsing the text back gives the same note, when no
   * key holds ": ", no key or value holds a line break, and the content has
   * no '\r', no blank line and no trailing newline.
   */
  lemma RoundTrip(note: Note, keys: seq<string>)
    requires Enumerates(keys, note.header) && Writable(note)
    ensures NoteFromString(Serialized(note, keys)) == Ok(note)
  {
    WrittenLinesRead(note, keys);
    ParseWritten(note, keys);
  }

  lemma FirstBlankAt(lines: seq<string>, k: nat)
    requires k < |lines| && lines[k] == ""
    requires forall j :: 0 <= j < k ==> lines[j] != ""
    ensures FirstBlank(lines) == k
  {
  }

  lemma {:induction false} NonEmptyKeep(lines: seq<string>)
    requires forall k :: 0 <= k < |lines| ==> lines[k] != ""
    ensures NonEmptyLines(lines) == lines
  {
    if lines != [] {
      NonEmptyKeep(lines[1..]);
      assert lines == [lines[0]] + lines[1..];
    }
  }

  // ---------------------------------------------------------------------
  // The rendered page and the edit a note becomes

  datatype TemplattedPage = TemplattedPage(
    title: string,
    body: string,
    tags: seq<string>,
    desc: string,
    metadata: map<string, string>)

  datatype ParsedTemplate = ParsedTemplate(outlinks: seq<string>, page: TemplattedPage)

  function ContentType(note: Note): string {
    if "content-type" in note.header then note.header["content-type"] else "text"
  }

  /** `parse_tags`: the note's "tags" header, read by `TagsArray::new`. */
  function ParseTags(note: Note): seq<string>
    requires "tags" in note.header ==> Tags.WellFormed(note.header["tags"])
  {
    if "tags" in note.header then Tags.New(note.header["tags"]).values else []
  }

  /**
   * The description: long text notes are cut to 80 characters and "...",
   * long html notes use the title, short notes keep their content.
   */
  function Description(content: string, contentType: string, title: string): (desc: string)
    ensures |content| < 100 ==> desc == content
    ensures |content| >= 100 && contentType != "html" ==> |desc| == 83 && desc == content[..80] + "..."
    ensures |content| >= 100 && contentType == "html" ==> desc == title
    ensures |desc| < 100 || desc == title
  {
    if |content| >= 100 then
      if contentType != "html" then content[..80] + "..." else title
    else content
  }

  /** What `to_template` needs: a title, a readable tag string, and renderable text. */
  predicate TemplateReady(note: Note) {
    && "title" in note.header
    && ("tags" in note.header ==> Tags.WellFormed(note.header["tags"]))
    && (ContentType(note) != "html" ==> PageOk(Lines(note.content)))
  }

  /** `Note::to_template`. */
  method ToTemplate(note: Note) returns (t: ParsedTemplate)
    requires TemplateReady(note)
    ensures t.page.title == note.header["title"]
    ensures t.page.tags == ParseTags(note)
    ensures forall k :: k in t.page.metadata <==> k in note.header && k != "title" && k != "tags"
    ensures forall k :: k in t.page.metadata ==> t.page.metadata[k] == note.header[k]
    ensures t.page.desc == Description(note.content, ContentType(note), note.header["title"])
    ensures ContentType(note) == "html" ==> t.page.body == note.content && t.outlinks == []
    ensures ContentType(note) != "html" ==>
      t.page.body == Join(Divs(Blocks(Lines(note.content))), "") && t.outlinks == Outlinks(Blocks(Lines(note.content)))
  {
    var contentType := ContentType(note);
    var html;
    if contentType == "html" {
      html := Html([], note.content);
    } else {
      html := ToHtml(note.content);
    }
    var title := note.header["title"];
    var tags := ParseTags(note);
    var rendered := note.header - {"title", "tags"};
    var desc := Description(note.content, contentType, title);
    var page := TemplattedPage(title, html.body, tags, desc, rendered);
    t := ParsedTemplate(html.outlinks, page);
  }

  /** What `Into<PatchData>` needs: the title and a readable "tags" header. */
  predicate PatchReady(note: Note) {
    "title" in note.header && "tags" in note.header && Tags.WellFormed(note.header["tags"])
  }

  /** `Into<PatchData> for Note`: the whole header stays as metadata, title and tags included. */
  function ToPatch(note: Note): (p: PatchData)
    requires PatchReady(note)
    ensures p.title == note.header["title"] && p.oldTitle == p.title
    ensures p.metadata == note.header && p.body == note.content
    ensures p.tags == Tags.New(note.header["tags"]).values
  {
    var title := note.header["title"];
    PatchData(note.content, Tags.New(note.header["tags"]).values, title, title, note.header)
  }

  /** Tags written by `TagsArray::write` come back unchanged in the edit. */
  lemma PatchTags(note: Note, values: seq<string>)
    requires "title" in note.header
    requires forall k :: 0 <= k < |values| ==> Tags.Plain(values[k])
    requires "tags" in note.header && note.header["tags"] == Tags.TagsArray(values).Write()
    ensures PatchReady(note) && ToPatch(note).tags == values
  {
    Tags.WriteRoundTrip(values);
  }
}
