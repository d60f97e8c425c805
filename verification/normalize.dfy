/**
 * `normalize_title` of the bookmark runner: the file-name form of a page
 * title. Every character a file system may object to is deleted, and a
 * title that stays much longer than fifty characters is cut at fifty,
 * trimmed and marked with "...". Titles are ASCII, so bytes and characters
 * coincide.
 */
module Bookmark {
  import opened Strings

  /** The characters `TITLE_RGX` matches: ? \ / | : ; > < , . newline $ &. */
  predicate TitleChar(c: char) {
    c == '?' || c == '\\' || c == '/' || c == '|' || c == ':' || c == ';' || c == '>'
    || c == '<' || c == ',' || c == '.' || c == '\n' || c == '$' || c == '&'
  }

  /** `TITLE_RGX.replace_all(title, "")`: the title without those characters, in order. */
  function Clean(s: string): (r: string)
    ensures |r| <= |s|
    ensures forall i :: 0 <= i < |r| ==> !TitleChar(r[i])
  {
    if s == [] then []
    else (if TitleChar(s[0]) then [] else [s[0]]) + Clean(s[1..])
  }

  /** Exactly the characters that are not deleted survive. */
  lemma {:induction false} CleanChars(s: string)
    ensures forall c :: c in Clean(s) <==> c in s && !TitleChar(c)
    decreases |s|
  {
    if s != [] {
      CleanChars(s[1..]);
      assert s == [s[0]] + s[1..];
    }
  }

  /** A title without deleted characters is left as it is. */
  lemma {:induction false} FreeClean(s: string)
    requires forall i :: 0 <= i < |s| ==> !TitleChar(s[i])
    ensures Clean(s) == s
    decreases |s|
  {
    if s != [] {
      FreeClean(s[1..]);
      assert s == [s[0]] + s[1..];
    }
  }

  lemma {:induction false} CleanAppend(s: string, t: string)
    ensures Clean(s + t) == Clean(s) + Clean(t)
    decreases |s|
  {
    if s == [] {
      assert s + t == t;
    } else {
      assert (s + t)[1..] == s[1..] + t;
      CleanAppend(s[1..], t);
    }
  }

  /** The length kept when a title is cut. */
  const Cut: nat := 50
  /** A cut happens only when more than this many characters would be dropped. */
  const Slack: nat := 10

  /** Every character of a trimmed string comes from the string. */
  lemma TrimFrom(s: string)
    ensures forall i :: 0 <= i < |Trim(s)| ==> Trim(s)[i] in s
  {
    var a, b := TrimSlice(s);
    forall i | 0 <= i < |Trim(s)|
      ensures Trim(s)[i] in s
    {
      assert Trim(s)[i] == s[a + i];
    }
  }

  /** `normalize_title`. */
  function NormalizeTitle(title: string): (r: string)
    ensures var n := Clean(title);
      (|n| <= Cut + Slack ==> r == n) &&
      (|n| > Cut + Slack ==> 3 <= |r| <= Cut + 3 && r[|r| - 3..] == "..." && Trimmed(r[..|r| - 3]))
    ensures forall i :: 0 <= i < |r| && TitleChar(r[i]) ==> |Clean(title)| > Cut + Slack && |r| - 3 <= i
  {
    var n := Clean(title);
    if |n| > Cut then
      var shortened := n[..Cut];
      var rest := n[Cut..];
      if |rest| > Slack then
        var t := Trim(shortened);
        TrimFrom(shortened);
        assert forall i :: 0 <= i < |shortened| ==> shortened[i] == n[i];
        var r := t + "...";
        assert r[..|r| - 3] == t;
        r
      else n
    else n
  }

  /** When the title is cut, what precedes "..." is the trimmed slice of its first fifty characters. */
  lemma CutSlice(title: string) returns (a: nat, b: nat)
    requires |Clean(title)| > Cut + Slack
    ensures a <= b <= Cut && NormalizeTitle(title) == Clean(title)[a..b] + "..."
    ensures NormalizeTitle(title) == Trim(Clean(title)[..Cut]) + "..."
  {
    var n := Clean(title);
    a, b := TrimSlice(n[..Cut]);
    assert n[..Cut][a..b] == n[a..b];
  }

  /** A title of at most fifty characters, without any deleted character, is kept as it is. */
  lemma ShortTitleKept(title: string)
    requires |title| <= Cut
    requires forall i :: 0 <= i < |title| ==> !TitleChar(title[i])
    ensures NormalizeTitle(title) == title
  {
    FreeClean(title);
  }

  /** Normalising a result that was not cut changes nothing. */
  lemma UncutIdempotent(title: string)
    requires |Clean(title)| <= Cut + Slack
    ensures NormalizeTitle(NormalizeTitle(title)) == NormalizeTitle(title)
  {
    FreeClean(Clean(title));
  }

  /** Letters, blanks and '-' are never deleted. */
  predicate Kept(c: char) {
    ('a' <= c <= 'z') || ('A' <= c <= 'Z') || c == ' ' || c == '-'
  }

  lemma KeptClean(s: string)
    requires forall i :: 0 <= i < |s| ==> Kept(s[i])
    ensures Clean(s) == s
  {
    FreeClean(s);
  }

  /** A deleted character between two pieces just joins them. */
  lemma CleanDrop(a: string, c: char, b: string)
    requires TitleChar(c)
    ensures Clean(a + [c] + b) == Clean(a) + Clean(b)
  {
    CleanAppend(a + [c], b);
    CleanAppend(a, [c]);
    assert Clean([c]) == [];
    assert Clean(a) + [] == Clean(a);
  }

  /** Pieces made of kept characters only. */
  predicate AllKept(s: string) {
    forall i :: 0 <= i < |s| ==> Kept(s[i])
  }

  /** A short title with one deleted character: the two pieces are joined and nothing is cut. */
  lemma DropOne(a: string, c: char, b: string)
    requires AllKept(a) && AllKept(b) && TitleChar(c) && |a| + |b| <= Cut + Slack
    ensures NormalizeTitle(a + [c] + b) == a + b
  {
    CleanDrop(a, c, b);
    KeptClean(a);
    KeptClean(b);
  }

  /** "testing: a neat thing" loses its colon. */
  lemma NeatThingExample(a: string, b: string)
    requires a == "testing" && b == " a neat thing"
    ensures NormalizeTitle(a + ":" + b) == "testing a neat thing"
  {
    DropOne(a, ':', b);
  }

  /** A kept piece followed by a deleted character. */
  lemma KeptDrop(p: string, c: char, t: string)
    requires AllKept(p) && TitleChar(c)
    ensures Clean(p + [c] + t) == p + Clean(t)
  {
    CleanDrop(p, c, t);
    KeptClean(p);
  }

  lemma FourText(p1: string, p2: string, p3: string, p4: string, p5: string, c1: char, c2: char, c3: char, c4: char)
    ensures p1 + [c1] + p2 + [c2] + p3 + [c3] + p4 + [c4] + p5 == p1 + [c1] + (p2 + [c2] + (p3 + [c3] + (p4 + [c4] + p5)))
  {
  }

  /** Four deleted characters between five kept pieces. */
  lemma CleanFour(p1: string, p2: string, p3: string, p4: string, p5: string, c1: char, c2: char, c3: char, c4: char)
    requires AllKept(p1) && AllKept(p2) && AllKept(p3) && AllKept(p4) && AllKept(p5)
    requires TitleChar(c1) && TitleChar(c2) && TitleChar(c3) && TitleChar(c4)
    ensures Clean(p1 + [c1] + p2 + [c2] + p3 + [c3] + p4 + [c4] + p5) == p1 + (p2 + (p3 + (p4 + p5)))
  {
    var t5 := p4 + [c4] + p5;
    var t4 := p3 + [c3] + t5;
    var t3 := p2 + [c2] + t4;
    FourText(p1, p2, p3, p4, p5, c1, c2, c3, c4);
    KeptClean(p5);
    KeptDrop(p4, c4, p5);
    KeptDrop(p3, c3, t5);
    KeptDrop(p2, c2, t4);
    KeptDrop(p1, c1, t3);
  }

  /**
   * A cleaned title of 73 characters is cut at fifty, and the blank the cut
   * ends with is trimmed.
   */
  lemma CutAtBlank(title: string, p1: string, p2: string, p3: string, p4: string, p5: string)
    requires Clean(title) == p1 + (p2 + (p3 + (p4 + p5)))
    requires |p1| + |p2| == 38 && |p3| == 17 && |p4| + |p5| == 18
    requires |p1| > 0 && !IsSpace(p1[0]) && p3[11] == ' ' && !IsSpace(p3[10])
    ensures NormalizeTitle(title) == p1 + p2 + p3[..11] + "..."
  {
    var n := Clean(title);
    var y := p1 + p2 + p3[..11];
    var x := n[..Cut];
    assert x == y + [p3[11]] by {
      assert n == (p1 + p2) + (p3 + (p4 + p5));
      assert p3[..11] + [p3[11]] == p3[..12];
    }
    assert TrimStart(x) == x by { assert x[0] == p1[0]; }
    assert TrimEnd(x) == TrimEnd(y) by { assert x[..|x| - 1] == y; }
    assert TrimEnd(y) == y by { assert y[|y| - 1] == p3[10]; }
    var _, _ := CutSlice(title);
  }

  lemma LongKept(p1: string, p2: string, p3: string, p4: string, p5: string)
    requires p1 == "lots of characters" && p2 == " A really long title" && p3 == " Maybe with some "
    requires p4 == " and " && p5 == " and -- chars"
    ensures AllKept(p1) && AllKept(p2) && AllKept(p3) && AllKept(p4) && AllKept(p5)
  {
    assert AllKept(p1);
    assert AllKept(p2);
    assert AllKept(p3);
    assert AllKept(p4);
  }

  lemma LongShape(p1: string, p2: string, p3: string, p4: string, p5: string)
    requires p1 == "lots of characters" && p2 == " A really long title" && p3 == " Maybe with some "
    requires p4 == " and " && p5 == " and -- chars"
    ensures |p1| == 18 && |p2| == 20 && |p3| == 17 && |p4| + |p5| == 18
    ensures !IsSpace(p1[0]) && p3[11] == ' ' && !IsSpace(p3[10])
  {
  }

  lemma LongResult(p1: string, p2: string, p3: string)
    requires p1 == "lots of characters" && p2 == " A really long title" && p3 == " Maybe with some "
    ensures p1 + p2 + p3[..11] + "..." == "lots of characters A really long title Maybe with..."
  {
    assert p3[..11] == " Maybe with";
  }

  /** The long example loses its punctuation, then is cut after "with" and marked. */
  lemma LongTitleExample(p1: string, p2: string, p3: string, p4: string, p5: string)
    requires p1 == "lots of characters" && p2 == " A really long title" && p3 == " Maybe with some "
    requires p4 == " and " && p5 == " and -- chars"
    ensures NormalizeTitle(p1 + "." + p2 + "." + p3 + "/" + p4 + "\\" + p5)
      == "lots of characters A really long title Maybe with..."
  {
    LongKept(p1, p2, p3, p4, p5);
    LongShape(p1, p2, p3, p4, p5);
    LongResult(p1, p2, p3);
    var t := p1 + "." + p2 + "." + p3 + "/" + p4 + "\\" + p5;
    CleanFour(p1, p2, p3, p4, p5, '.', '.', '/', '\\');
    CutAtBlank(t, p1, p2, p3, p4, p5);
  }
}
