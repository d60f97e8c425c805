/**
 * `PatchData`, the edit of a note as the web form submits it, and its
 * decoding from the form's key/value map (`From<HashMap<String, String>>`).
 */
module Patch {
  import opened Strings

  datatype PatchData = PatchData(
    body: string,
    tags: seq<string>,
    title: string,
    oldTitle: string,
    metadata: map<string, string>)

  /** The key of a metadata line: the text before its first ':' (all of it when there is none). */
  function MetaKey(line: string): string {
    Split(line, ":")[0]
  }

  /** The value of a metadata line: everything after its first ':', later ':'s included. */
  function MetaValue(line: string): string {
    Join(Split(line, ":")[1..], ":")
  }

  /** Inserting the metadata lines in order: a later line with the same key overwrites. */
  function MetaMap(lines: seq<string>): (m: map<string, string>)
    ensures forall k :: k in m <==> exists i :: 0 <= i < |lines| && MetaKey(lines[i]) == k
  {
    if lines == [] then map[]
    else
      var last := lines[|lines| - 1];
      var m := MetaMap(lines[..|lines| - 1])[MetaKey(last) := MetaValue(last)];
      assert forall i :: 0 <= i < |lines| - 1 ==> lines[..|lines| - 1][i] == lines[i];
      m
  }

  /** No line after line `i` has line `i`'s key. */
  predicate LastOfKey(lines: seq<string>, i: nat)
    requires i < |lines|
  {
    forall j :: i < j < |lines| ==> MetaKey(lines[j]) != MetaKey(lines[i])
  }

  /** Each key maps to the value of the last line that has it. */
  lemma {:induction false} MetaMapLast(lines: seq<string>, i: nat)
    requires i < |lines| && LastOfKey(lines, i)
    ensures MetaMap(lines)[MetaKey(lines[i])] == MetaValue(lines[i])
  {
    var n := |lines| - 1;
    if i < n {
      var init := lines[..n];
      assert init[i] == lines[i];
      assert LastOfKey(init, i) by {
        forall j | i < j < |init|
          ensures MetaKey(init[j]) != MetaKey(init[i])
        {
          assert init[j] == lines[j];
        }
      }
      MetaMapLast(init, i);
      assert MetaKey(lines[n]) != MetaKey(lines[i]);
    }
  }

  /** The "metadata" field: one entry per '\n'-separated line, nothing for an empty field. */
  function Metadata(field: string): (m: map<string, string>)
    ensures field == "" ==> m == map[]
  {
    if field == "" then map[] else MetaMap(Split(field, "\n"))
  }

  /** What decoding a form gives, whatever order its keys are visited in. */
  function FormPatch(form: map<string, string>): PatchData {
    PatchData(
      if "body" in form then form["body"] else "",
      if "tags" in form then Split(form["tags"], ",") else [],
      if "title" in form then Trim(form["title"]) else "",
      if "old_title" in form then form["old_title"] else "",
      if "metadata" in form then Metadata(form["metadata"]) else map[])
  }

  /** The loop over the "metadata" lines, inserting each pair into an empty map. */
  method InsertPairs(pairs: seq<string>) returns (metadata: map<string, string>)
    ensures metadata == MetaMap(pairs)
  {
    metadata := map[];
    var i := 0;
    while i < |pairs|
      invariant 0 <= i <= |pairs|
      invariant metadata == MetaMap(pairs[..i])
    {
      assert MetaMap(pairs[..i + 1]) == MetaMap(pairs[..i])[MetaKey(pairs[i]) := MetaValue(pairs[i])] by {
        assert pairs[..i + 1][..i] == pairs[..i];
        assert pairs[..i + 1][i] == pairs[i];
      }
      metadata := metadata[MetaKey(pairs[i]) := MetaValue(pairs[i])];
      i := i + 1;
    }
    assert pairs[..i] == pairs;
  }

  /**
   * `PatchData::from`: visits the form's keys in an arbitrary order (a hash
   * map's) and fills the field each known key names.
   */
  method FromForm(form: map<string, string>) returns (p: PatchData)
    ensures p == FormPatch(form)
  {
    var title, oldTitle, tags, body, metadata := "", "", [], "", map[];
    var pending := form.Keys;
    while pending != {}
      invariant pending <= form.Keys
      invariant PatchData(body, tags, title, oldTitle, metadata) == FormPatch(form - pending)
      decreases pending
    {
      var key :| key in pending;
      VisitKey(form, pending, key);
      FieldUpdate(form - pending, key, form[key]);
      if key == "title" {
        title := Trim(form[key]);
      } else if key == "old_title" {
        oldTitle := form[key];
      } else if key == "tags" {
        tags := Split(form[key], ",");
      } else if key == "body" {
        body := form[key];
      } else if key == "metadata" {
        var field := form[key];
        if field != "" {
          metadata := InsertPairs(Split(field, "\n"));
        }
      }
      pending := pending - {key};
    }
    assert form - pending == form;
    p := PatchData(body, tags, title, oldTitle, metadata);
  }

  /** Setting one key of the form changes at most the field that key names. */
  lemma FieldUpdate(form: map<string, string>, key: string, v: string)
    ensures var p := FormPatch(form);
            FormPatch(form[key := v]) ==
              if key == "title" then p.(title := Trim(v))
              else if key == "old_title" then p.(oldTitle := v)
              else if key == "tags" then p.(tags := Split(v, ","))
              else if key == "body" then p.(body := v)
              else if key == "metadata" then p.(metadata := Metadata(v))
              else p
  {
  }

  /** Visiting one more key of the form adds that key to the part already decoded. */
  lemma VisitKey(form: map<string, string>, pending: set<string>, key: string)
    requires key in pending && pending <= form.Keys
    ensures form - (pending - {key}) == (form - pending)[key := form[key]]
  {
  }

  /** A metadata line `k:v` whose key has no ':' maps `k` to `v`, whatever ':'s `v` holds. */
  lemma MetaLineSplit(k: string, v: string)
    requires ':' !in k
    ensures MetaKey(k + ":" + v) == k && MetaValue(k + ":" + v) == v
  {
    ContainsChar(k, ':');
    CharSepFirst(k, ':', v);
    JoinSplit(v, ":");
  }

  /** A metadata line without ':' maps to the empty value. */
  lemma MetaLineBare(line: string)
    requires ':' !in line
    ensures MetaKey(line) == line && MetaValue(line) == ""
  {
    ContainsChar(line, ':');
    NoOccurrenceSplit(line, ":");
  }

  /** Keys other than the five the decoder knows are ignored. */
  lemma UnknownKeyIgnored(form: map<string, string>, k: string, v: string)
    requires k !in {"title", "old_title", "tags", "body", "metadata"}
    ensures FormPatch(form[k := v]) == FormPatch(form)
  {
  }

  /** An empty form leaves every field at its empty default. */
  lemma EmptyForm()
    ensures FormPatch(map[]) == PatchData("", [], "", "", map[])
  {
  }

  /** Tags are split on ',' and kept as they are, blanks included. */
  lemma TagsNotTrimmed(form: map<string, string>, a: string, b: string)
    requires "tags" in form && form["tags"] == a + "," + b
    requires ',' !in a && ',' !in b
    ensures FormPatch(form).tags == [a, b]
  {
    ContainsChar(a, ',');
    ContainsChar(b, ',');
    CharSepFirst(a, ',', b);
    NoOccurrenceSplit(b, ",");
  }
}
