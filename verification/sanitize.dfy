/**
 * `sanitize_html`: for each forbidden element name that occurs in the text,
 * its opening and closing tag forms are escaped with `&lt;` and `&gt;`.
 */
module Sanitize {
  import opened Strings

  /** The element names that are escaped, in the order they are processed. */
  const Forbidden: seq<string> := ["noscript", "script", "object", "embed", "link"]

  /** The five rewrites for one name, applied one after the other. */
  function Escape(s: string, t: string): string {
    var s1 := ReplaceAll(s, "<" + t + ">", "&lt;" + t + "&gt;");
    var s2 := ReplaceAll(s1, "</" + t + ">", "&lt;/" + t + "&gt;");
    var s3 := ReplaceAll(s2, t + ">", t + "&gt;");
    var s4 := ReplaceAll(s3, "<" + t, "&lt;" + t);
    ReplaceAll(s4, "</" + t, "&lt;/" + t)
  }

  /** One iteration of the loop: the rewrites run only when the name occurs. */
  function Step(s: string, t: string): string {
    if Contains(s, t) then Escape(s, t) else s
  }

  /** The loop over `names`, left to right. */
  function Fold(s: string, names: seq<string>): string
    decreases |names|
  {
    if names == [] then s else Fold(Step(s, names[0]), names[1..])
  }

  /** `sanitize_html`. */
  method SanitizeHtml(html: string) returns (sanitized: string)
    ensures sanitized == Fold(html, Forbidden)
    ensures forall t :: t in Forbidden ==>
              !Contains(sanitized, "<" + t) && !Contains(sanitized, "</" + t) && !Contains(sanitized, t + ">")
  {
    sanitized := html;
    var i := 0;
    while i < |Forbidden|
      invariant 0 <= i <= |Forbidden|
      invariant Fold(html, Forbidden) == Fold(sanitized, Forbidden[i..])
    {
      var tag := Forbidden[i];
      assert Forbidden[i..][1..] == Forbidden[i + 1..];
      if Contains(sanitized, tag) {
        sanitized := ReplaceAll(sanitized, "<" + tag + ">", "&lt;" + tag + "&gt;");
        sanitized := ReplaceAll(sanitized, "</" + tag + ">", "&lt;/" + tag + "&gt;");
        sanitized := ReplaceAll(sanitized, tag + ">", tag + "&gt;");
        sanitized := ReplaceAll(sanitized, "<" + tag, "&lt;" + tag);
        sanitized := ReplaceAll(sanitized, "</" + tag, "&lt;/" + tag);
      }
      i := i + 1;
    }
    Escaped(html);
  }

  /** Text in which no forbidden name occurs (matching is case-sensitive) is returned as it is. */
  lemma {:induction false} NoNameUnchanged(s: string, names: seq<string>)
    requires forall k :: 0 <= k < |names| ==> !Contains(s, names[k])
    ensures Fold(s, names) == s
    decreases |names|
  {
    if names != [] {
      NoNameUnchanged(s, names[1..]);
    }
  }

  /** A name counts only when it occurs verbatim: "<SCRIPT>" is not escaped. */
  lemma CaseSensitive()
    ensures Fold("<SCRIPT>", Forbidden) == "<SCRIPT>"
  {
    forall k | 0 <= k < |Forbidden|
      ensures !Contains("<SCRIPT>", Forbidden[k])
    {
      AbsentCharPattern("<SCRIPT>", Forbidden[k], Forbidden[k][0]);
    }
    NoNameUnchanged("<SCRIPT>", Forbidden);
  }

  /** The characters the replacement texts are made of, besides the name itself. */
  predicate EscapeChar(c: char) {
    c in "&lt;/gt"
  }

  /** No rewrite brings in a character that is not in the text, the name or the entities. */
  lemma EscapeChars(s: string, t: string, c: char)
    requires c !in s && c !in t && !EscapeChar(c)
    ensures c !in Escape(s, t)
  {
    var s1 := ReplaceAll(s, "<" + t + ">", "&lt;" + t + "&gt;");
    ReplaceChars(s, "<" + t + ">", "&lt;" + t + "&gt;", c);
    var s2 := ReplaceAll(s1, "</" + t + ">", "&lt;/" + t + "&gt;");
    ReplaceChars(s1, "</" + t + ">", "&lt;/" + t + "&gt;", c);
    var s3 := ReplaceAll(s2, t + ">", t + "&gt;");
    ReplaceChars(s2, t + ">", t + "&gt;", c);
    var s4 := ReplaceAll(s3, "<" + t, "&lt;" + t);
    ReplaceChars(s3, "<" + t, "&lt;" + t, c);
    ReplaceChars(s4, "</" + t, "&lt;/" + t, c);
  }

  lemma {:induction false} FoldChars(s: string, names: seq<string>, c: char)
    requires c !in s && !EscapeChar(c)
    requires forall k :: 0 <= k < |names| ==> c !in names[k]
    ensures c !in Fold(s, names)
    decreases |names|
  {
    if names != [] {
      if Contains(s, names[0]) {
        EscapeChars(s, names[0], c);
      }
      FoldChars(Step(s, names[0]), names[1..], c);
    }
  }

  /** Sanitising never introduces a '<' or a '>'. */
  lemma NoNewBrackets(s: string)
    ensures '<' !in s ==> '<' !in Fold(s, Forbidden)
    ensures '>' !in s ==> '>' !in Fold(s, Forbidden)
  {
    if '<' !in s {
      FoldChars(s, Forbidden, '<');
    }
    if '>' !in s {
      FoldChars(s, Forbidden, '>');
    }
  }

  /** Every rewrite looks for a '<' or a '>', so text without either is left alone. */
  lemma {:induction false} BracketFreeUnchanged(s: string, names: seq<string>)
    requires '<' !in s && '>' !in s
    ensures Fold(s, names) == s
    decreases |names|
  {
    if names != [] {
      var t := names[0];
      AbsentCharPattern(s, "<" + t + ">", '<');
      ReplaceAllAbsent(s, "<" + t + ">", "&lt;" + t + "&gt;");
      AbsentCharPattern(s, "</" + t + ">", '<');
      ReplaceAllAbsent(s, "</" + t + ">", "&lt;/" + t + "&gt;");
      assert '>' in t + ">";
      AbsentCharPattern(s, t + ">", '>');
      ReplaceAllAbsent(s, t + ">", t + "&gt;");
      AbsentCharPattern(s, "<" + t, '<');
      ReplaceAllAbsent(s, "<" + t, "&lt;" + t);
      AbsentCharPattern(s, "</" + t, '<');
      ReplaceAllAbsent(s, "</" + t, "&lt;/" + t);
      assert Step(s, t) == s;
      BracketFreeUnchanged(s, names[1..]);
    }
  }

  /** Sanitising text without '<' and '>' is the identity, so it is idempotent there. */
  lemma BracketFreeIdempotent(s: string)
    requires '<' !in s && '>' !in s
    ensures Fold(s, Forbidden) == s && Fold(Fold(s, Forbidden), Forbidden) == Fold(s, Forbidden)
  {
    BracketFreeUnchanged(s, Forbidden);
  }

  // ---------------------------------------------------------------------
  // What escaping achieves. A '<' is "open for q" when the text right after
  // it starts with q, and a '>' is "closed by q" when the text right before
  // it ends with q. No rewrite brings in a bracket, and every rewrite keeps
  // whether each surviving bracket is open for (closed by) a name, because
  // its pattern and its replacement agree up to a character that no name
  // holds ('<', '>', '&' or ';').

  /** A lower-case ASCII element name, like every forbidden one. */
  predicate Name(t: string) {
    forall i :: 0 <= i < |t| ==> 'a' <= t[i] <= 'z'
  }

  /** The characters of a name or of a closing "/name". */
  predicate WordChar(c: char) {
    ('a' <= c <= 'z') || c == '/'
  }

  predicate Word(q: string) {
    forall i :: 0 <= i < |q| ==> WordChar(q[i])
  }

  /** Every '<' is followed by `q1` or by `q2` exactly when `tag` holds. */
  predicate OpenGood(s: string, q1: string, q2: string, tag: bool) {
    forall i :: 0 <= i < |s| && s[i] == '<' ==> (StartsWith(s[i + 1..], q1) || StartsWith(s[i + 1..], q2)) == tag
  }

  /** Every '>' is preceded by `q` exactly when `tag` holds. */
  predicate CloseGood(s: string, q: string, tag: bool) {
    forall i :: 0 <= i < |s| && s[i] == '>' ==> EndsWith(s[..i], q) == tag
  }

  /** None of "<t", "</t" and "t>" is left. */
  predicate Clean(s: string, t: string) {
    OpenGood(s, t, t, false) && OpenGood(s, "/" + t, "/" + t, false) && CloseGood(s, t, false)
  }

  /** Every bracket belongs to a tag of `t`: "<t", "</t" or "t>". */
  predicate Tagged(s: string, t: string) {
    OpenGood(s, t, "/" + t, true) && CloseGood(s, t, true)
  }

  lemma ForbiddenNames()
    ensures forall t :: t in Forbidden ==> Name(t) && t != []
  {
  }

  lemma NameWords(t: string)
    requires Name(t)
    ensures Word(t) && Word("/" + t) && '<' !in t && '>' !in t
  {
    assert forall i :: 1 <= i < |"/" + t| ==> ("/" + t)[i] == t[i - 1];
  }

  /** No '<' is followed by `q` exactly when "<q" does not occur. */
  lemma OpenFreeIff(s: string, q: string)
    ensures OpenGood(s, q, q, false) <==> !Contains(s, "<" + q)
  {
    if Contains(s, "<" + q) {
      var i :| 0 <= i <= |s| && OccursAt(s, "<" + q, i);
      var w := s[i..i + |q| + 1];
      assert w == "<" + q;
      assert s[i] == w[0] == '<';
      assert s[i + 1..][..|q|] == w[1..] == q;
      assert StartsWith(s[i + 1..], q);
    }
    if !OpenGood(s, q, q, false) {
      var i :| 0 <= i < |s| && s[i] == '<' && StartsWith(s[i + 1..], q);
      assert s[i..i + |q| + 1] == [s[i]] + s[i + 1..][..|q|];
      assert OccursAt(s, "<" + q, i);
    }
  }

  /** No '>' is preceded by `q` exactly when "q>" does not occur. */
  lemma CloseFreeIff(s: string, q: string)
    ensures CloseGood(s, q, false) <==> !Contains(s, q + ">")
  {
    if Contains(s, q + ">") {
      var i :| 0 <= i <= |s| && OccursAt(s, q + ">", i);
      var j := i + |q|;
      assert s[i..j + 1] == q + ">";
      assert s[j] == '>' && s[..j][j - |q|..] == s[i..j + 1][..|q|];
    }
    if !CloseGood(s, q, false) {
      var j :| 0 <= j < |s| && s[j] == '>' && EndsWith(s[..j], q);
      var i := j - |q|;
      assert s[i..j + 1] == s[..j][i..] + [s[j]];
      assert OccursAt(s, q + ">", i);
    }
  }

  /** What follows a bracket: the rewrite's pattern and replacement agree on their first `k` characters. */
  lemma StartsIff(w: string, from: string, to: string, x: string, y: string, q: string, k: nat)
    requires Word(q)
    requires k < |from| && k < |to| && from[..k] == to[..k] && !WordChar(from[k]) && !WordChar(to[k])
    ensures StartsWith(w + to + x, q) <==> StartsWith(w + from + y, q)
  {
    if |q| <= |w| {
      assert (w + to + x)[..|q|] == w[..|q|] == (w + from + y)[..|q|];
    } else if |q| - |w| <= k {
      var m := |q| - |w|;
      assert to[..m] == to[..k][..m] == from[..k][..m] == from[..m];
      assert (w + to + x)[..|q|] == w + to[..m];
      assert (w + from + y)[..|q|] == w + from[..m];
    } else {
      assert (w + to + x)[|w| + k] == to[k];
      assert (w + from + y)[|w| + k] == from[k];
    }
  }

  /** What precedes a bracket: the pattern and replacement agree on their last `k` characters. */
  lemma EndsIff(w: string, from: string, to: string, x: string, y: string, q: string, k: nat)
    requires Word(q)
    requires k < |from| && k < |to| && from[|from| - k..] == to[|to| - k..]
    requires !WordChar(from[|from| - 1 - k]) && !WordChar(to[|to| - 1 - k])
    ensures EndsWith(x + to + w, q) <==> EndsWith(y + from + w, q)
  {
    var a, b := x + to + w, y + from + w;
    if |q| <= |w| {
      assert a[|a| - |q|..] == w[|w| - |q|..] == b[|b| - |q|..];
    } else if |q| - |w| <= k {
      var m := |q| - |w|;
      assert to[|to| - m..] == to[|to| - k..][k - m..] == from[|from| - k..][k - m..] == from[|from| - m..];
      assert a[|a| - |q|..] == to[|to| - m..] + w;
      assert b[|b| - |q|..] == from[|from| - m..] + w;
    } else {
      var p := |q| - |w| - k - 1;
      assert a[|a| - |w| - k - 1] == to[|to| - 1 - k];
      assert b[|b| - |w| - k - 1] == from[|from| - 1 - k];
    }
  }

  lemma OpenSuffix(s: string, n: nat, q1: string, q2: string, tag: bool)
    requires n <= |s| && OpenGood(s, q1, q2, tag)
    ensures OpenGood(s[n..], q1, q2, tag)
  {
    forall i | 0 <= i < |s[n..]| && s[n..][i] == '<'
      ensures (StartsWith(s[n..][i + 1..], q1) || StartsWith(s[n..][i + 1..], q2)) == tag
    {
      assert s[n + i] == '<' && s[n..][i + 1..] == s[n + i + 1..];
    }
  }

  lemma ClosePrefix(s: string, n: nat, q: string, tag: bool)
    requires n <= |s| && CloseGood(s, q, tag)
    ensures CloseGood(s[..n], q, tag)
  {
    forall i | 0 <= i < |s[..n]| && s[..n][i] == '>'
      ensures EndsWith(s[..n][..i], q) == tag
    {
      assert s[i] == '>' && s[..n][..i] == s[..i];
    }
  }

  /** Putting `to` instead of `from` between the pieces keeps what follows each '<'. */
  lemma {:induction false} OpenJoin(ps: seq<string>, from: string, to: string, q1: string, q2: string, tag: bool, k: nat)
    requires Word(q1) && Word(q2) && '<' !in to
    requires k < |from| && k < |to| && from[..k] == to[..k] && !WordChar(from[k]) && !WordChar(to[k])
    requires OpenGood(Join(ps, from), q1, q2, tag)
    ensures OpenGood(Join(ps, to), q1, q2, tag)
    decreases |ps|
  {
    if |ps| >= 2 {
      var p, rest := ps[0], ps[1..];
      assert ps == [p] + rest;
      JoinCons(p, rest, from);
      JoinCons(p, rest, to);
      var o, n := Join(ps, from), Join(ps, to);
      var jo, jn := Join(rest, from), Join(rest, to);
      OpenSuffix(o, |p| + |from|, q1, q2, tag);
      assert o[|p| + |from|..] == jo;
      OpenJoin(rest, from, to, q1, q2, tag, k);
      forall i | 0 <= i < |n| && n[i] == '<'
        ensures (StartsWith(n[i + 1..], q1) || StartsWith(n[i + 1..], q2)) == tag
      {
        if i < |p| {
          assert o[i] == '<';
          assert n[i + 1..] == p[i + 1..] + to + jn;
          assert o[i + 1..] == p[i + 1..] + from + jo;
          StartsIff(p[i + 1..], from, to, jn, jo, q1, k);
          StartsIff(p[i + 1..], from, to, jn, jo, q2, k);
        } else if i >= |p| + |to| {
          var j := i - |p| - |to|;
          assert jn[j] == '<' && n[i + 1..] == jn[j + 1..];
        }
      }
    }
  }

  /** Putting `to` instead of `from` between the pieces keeps what precedes each '>'. */
  lemma {:induction false} CloseJoin(ps: seq<string>, from: string, to: string, q: string, tag: bool, k: nat)
    requires Word(q) && '>' !in to
    requires k < |from| && k < |to| && from[|from| - k..] == to[|to| - k..]
    requires !WordChar(from[|from| - 1 - k]) && !WordChar(to[|to| - 1 - k])
    requires CloseGood(Join(ps, from), q, tag)
    ensures CloseGood(Join(ps, to), q, tag)
    decreases |ps|
  {
    if |ps| >= 2 {
      var init, p := ps[..|ps| - 1], ps[|ps| - 1];
      assert ps == init + [p];
      JoinAppend(init, [p], from);
      JoinAppend(init, [p], to);
      var o, n := Join(ps, from), Join(ps, to);
      var jo, jn := Join(init, from), Join(init, to);
      ClosePrefix(o, |jo|, q, tag);
      assert o[..|jo|] == jo;
      CloseJoin(init, from, to, q, tag, k);
      forall i | 0 <= i < |n| && n[i] == '>'
        ensures EndsWith(n[..i], q) == tag
      {
        if i < |jn| {
          assert jn[i] == '>' && n[..i] == jn[..i];
        } else if i >= |jn| + |to| {
          var j := i - |jn| - |to|;
          var io := |jo| + |from| + j;
          assert o[io] == '>';
          assert n[..i] == jn + to + p[..j];
          assert o[..io] == jo + from + p[..j];
          EndsIff(p[..j], from, to, jn, jo, q, k);
        }
      }
    }
  }

  /** Between pieces without "<q", a replacement that starts with no name character leaves no "<q". */
  lemma {:induction false} OpenEstablish(ps: seq<string>, to: string, q: string)
    requires Word(q) && '<' !in to && to != [] && !WordChar(to[0])
    requires forall j :: 0 <= j < |ps| ==> !Contains(ps[j], "<" + q)
    ensures OpenGood(Join(ps, to), q, q, false)
    decreases |ps|
  {
    if |ps| == 1 {
      OpenFreeIff(ps[0], q);
    } else if |ps| >= 2 {
      var p, rest := ps[0], ps[1..];
      assert ps == [p] + rest;
      JoinCons(p, rest, to);
      var n, jn := Join(ps, to), Join(rest, to);
      OpenFreeIff(p, q);
      OpenEstablish(rest, to, q);
      forall i | 0 <= i < |n| && n[i] == '<'
        ensures !StartsWith(n[i + 1..], q)
      {
        if i < |p| {
          var w := p[i + 1..];
          assert n[i + 1..] == w + to + jn;
          if |q| <= |w| {
            assert (w + to + jn)[..|q|] == w[..|q|];
          } else {
            assert n[i + 1..][|w|] == to[0];
          }
        } else if i >= |p| + |to| {
          var j := i - |p| - |to|;
          assert jn[j] == '<' && n[i + 1..] == jn[j + 1..];
        }
      }
    }
  }

  /** Between pieces without "q>", a replacement that ends in no name character leaves no "q>". */
  lemma {:induction false} CloseEstablish(ps: seq<string>, to: string, q: string)
    requires Word(q) && '>' !in to && to != [] && !WordChar(to[|to| - 1])
    requires forall j :: 0 <= j < |ps| ==> !Contains(ps[j], q + ">")
    ensures CloseGood(Join(ps, to), q, false)
    decreases |ps|
  {
    if |ps| == 1 {
      CloseFreeIff(ps[0], q);
    } else if |ps| >= 2 {
      var init, p := ps[..|ps| - 1], ps[|ps| - 1];
      assert ps == init + [p];
      JoinAppend(init, [p], to);
      var n, jn := Join(ps, to), Join(init, to);
      CloseFreeIff(p, q);
      assert forall j :: 0 <= j < |init| ==> init[j] == ps[j];
      CloseEstablish(init, to, q);
      forall i | 0 <= i < |n| && n[i] == '>'
        ensures !EndsWith(n[..i], q)
      {
        if i < |jn| {
          assert jn[i] == '>' && n[..i] == jn[..i];
        } else if i >= |jn| + |to| {
          var j := i - |jn| - |to|;
          var w := p[..j];
          assert p[j] == '>';
          assert n[..i] == jn + to + w;
          if |q| <= |w| {
            assert (jn + to + w)[|jn + to + w| - |q|..] == w[|w| - |q|..];
          } else {
            assert n[..i][|jn| + |to| - 1] == to[|to| - 1];
          }
        }
      }
    }
  }

  lemma ReplaceOpen(s: string, from: string, to: string, q1: string, q2: string, tag: bool, k: nat)
    requires Word(q1) && Word(q2) && '<' !in to
    requires k < |from| && k < |to| && from[..k] == to[..k] && !WordChar(from[k]) && !WordChar(to[k])
    requires OpenGood(s, q1, q2, tag)
    ensures OpenGood(ReplaceAll(s, from, to), q1, q2, tag)
  {
    JoinSplit(s, from);
    OpenJoin(Split(s, from), from, to, q1, q2, tag, k);
  }

  lemma ReplaceClose(s: string, from: string, to: string, q: string, tag: bool, k: nat)
    requires Word(q) && '>' !in to
    requires k < |from| && k < |to| && from[|from| - k..] == to[|to| - k..]
    requires !WordChar(from[|from| - 1 - k]) && !WordChar(to[|to| - 1 - k])
    requires CloseGood(s, q, tag)
    ensures CloseGood(ReplaceAll(s, from, to), q, tag)
  {
    JoinSplit(s, from);
    CloseJoin(Split(s, from), from, to, q, tag, k);
  }

  lemma ReplaceOpenFree(s: string, q: string, to: string)
    requires Word(q) && '<' !in to && to != [] && !WordChar(to[0])
    ensures OpenGood(ReplaceAll(s, "<" + q, to), q, q, false)
  {
    SplitPiecesFree(s, "<" + q);
    OpenEstablish(Split(s, "<" + q), to, q);
  }

  lemma ReplaceCloseFree(s: string, q: string, to: string)
    requires Word(q) && '>' !in to && to != [] && !WordChar(to[|to| - 1])
    ensures CloseGood(ReplaceAll(s, q + ">", to), q, false)
  {
    SplitPiecesFree(s, q + ">");
    CloseEstablish(Split(s, q + ">"), to, q);
  }

  /** Each of the five rewrites for any name keeps what follows each '<'. */
  lemma OpenRewrites(s: string, u: string, q1: string, q2: string, tag: bool)
    requires Name(u) && Word(q1) && Word(q2) && OpenGood(s, q1, q2, tag)
    ensures OpenGood(ReplaceAll(s, "<" + u + ">", "&lt;" + u + "&gt;"), q1, q2, tag)
    ensures OpenGood(ReplaceAll(s, "</" + u + ">", "&lt;/" + u + "&gt;"), q1, q2, tag)
    ensures OpenGood(ReplaceAll(s, u + ">", u + "&gt;"), q1, q2, tag)
    ensures OpenGood(ReplaceAll(s, "<" + u, "&lt;" + u), q1, q2, tag)
    ensures OpenGood(ReplaceAll(s, "</" + u, "&lt;/" + u), q1, q2, tag)
  {
    NameWords(u);
    ReplaceOpen(s, "<" + u + ">", "&lt;" + u + "&gt;", q1, q2, tag, 0);
    ReplaceOpen(s, "</" + u + ">", "&lt;/" + u + "&gt;", q1, q2, tag, 0);
    assert (u + ">")[..|u|] == u == (u + "&gt;")[..|u|];
    ReplaceOpen(s, u + ">", u + "&gt;", q1, q2, tag, |u|);
    ReplaceOpen(s, "<" + u, "&lt;" + u, q1, q2, tag, 0);
    ReplaceOpen(s, "</" + u, "&lt;/" + u, q1, q2, tag, 0);
  }

  /** Each of the five rewrites for any name keeps what precedes each '>'. */
  lemma CloseRewrites(s: string, u: string, q: string, tag: bool)
    requires Name(u) && Word(q) && CloseGood(s, q, tag)
    ensures CloseGood(ReplaceAll(s, "<" + u + ">", "&lt;" + u + "&gt;"), q, tag)
    ensures CloseGood(ReplaceAll(s, "</" + u + ">", "&lt;/" + u + "&gt;"), q, tag)
    ensures CloseGood(ReplaceAll(s, u + ">", u + "&gt;"), q, tag)
    ensures CloseGood(ReplaceAll(s, "<" + u, "&lt;" + u), q, tag)
    ensures CloseGood(ReplaceAll(s, "</" + u, "&lt;/" + u), q, tag)
  {
    NameWords(u);
    ReplaceClose(s, "<" + u + ">", "&lt;" + u + "&gt;", q, tag, 0);
    ReplaceClose(s, "</" + u + ">", "&lt;/" + u + "&gt;", q, tag, 0);
    ReplaceClose(s, u + ">", u + "&gt;", q, tag, 0);
    CloseRewriteAfter(s, "<", "&lt;", u, q, tag);
    CloseRewriteAfter(s, "</", "&lt;/", u, q, tag);
  }

  /** Rewriting "<" + u to "&lt;" + u, or "</" + u to "&lt;/" + u, keeps what precedes each '>'. */
  lemma CloseRewriteAfter(s: string, a: string, b: string, u: string, q: string, tag: bool)
    requires Name(u) && Word(q) && CloseGood(s, q, tag)
    requires (a == "<" && b == "&lt;") || (a == "</" && b == "&lt;/")
    ensures CloseGood(ReplaceAll(s, a + u, b + u), q, tag)
  {
    var f, t := a + u, b + u;
    var k := |f| - 1;
    assert f[1..] == a[1..] + u == t[4..];
    assert f[0] == '<' && t[3] == ';';
    ReplaceClose(s, f, t, q, tag, k);
  }

  /** The five rewrites for any name keep what follows each '<'. */
  lemma EscapeKeepsOpen(s: string, u: string, q1: string, q2: string, tag: bool)
    requires Name(u) && Word(q1) && Word(q2) && OpenGood(s, q1, q2, tag)
    ensures OpenGood(Escape(s, u), q1, q2, tag)
  {
    var s1 := ReplaceAll(s, "<" + u + ">", "&lt;" + u + "&gt;");
    OpenRewrites(s, u, q1, q2, tag);
    var s2 := ReplaceAll(s1, "</" + u + ">", "&lt;/" + u + "&gt;");
    OpenRewrites(s1, u, q1, q2, tag);
    var s3 := ReplaceAll(s2, u + ">", u + "&gt;");
    OpenRewrites(s2, u, q1, q2, tag);
    var s4 := ReplaceAll(s3, "<" + u, "&lt;" + u);
    OpenRewrites(s3, u, q1, q2, tag);
    OpenRewrites(s4, u, q1, q2, tag);
  }

  /** The five rewrites for any name keep what precedes each '>'. */
  lemma EscapeKeepsClose(s: string, u: string, q: string, tag: bool)
    requires Name(u) && Word(q) && CloseGood(s, q, tag)
    ensures CloseGood(Escape(s, u), q, tag)
  {
    var s1 := ReplaceAll(s, "<" + u + ">", "&lt;" + u + "&gt;");
    CloseRewrites(s, u, q, tag);
    var s2 := ReplaceAll(s1, "</" + u + ">", "&lt;/" + u + "&gt;");
    CloseRewrites(s1, u, q, tag);
    var s3 := ReplaceAll(s2, u + ">", u + "&gt;");
    CloseRewrites(s2, u, q, tag);
    var s4 := ReplaceAll(s3, "<" + u, "&lt;" + u);
    CloseRewrites(s3, u, q, tag);
    CloseRewrites(s4, u, q, tag);
  }

  /** Escaping `t` leaves no "<t", "</t" or "t>". */
  lemma EscapeCleans(s: string, t: string)
    requires Name(t)
    ensures Clean(Escape(s, t), t)
  {
    NameWords(t);
    var s1 := ReplaceAll(s, "<" + t + ">", "&lt;" + t + "&gt;");
    var s2 := ReplaceAll(s1, "</" + t + ">", "&lt;/" + t + "&gt;");
    var s3 := ReplaceAll(s2, t + ">", t + "&gt;");
    ReplaceCloseFree(s2, t, t + "&gt;");
    var s4 := ReplaceAll(s3, "<" + t, "&lt;" + t);
    CloseRewrites(s3, t, t, false);
    ReplaceOpenFree(s3, t, "&lt;" + t);
    CloseRewrites(s4, t, t, false);
    OpenRewrites(s4, t, t, t, false);
    assert "<" + ("/" + t) == "</" + t;
    ReplaceOpenFree(s4, "/" + t, "&lt;/" + t);
  }

  /** A text holding `a + t + b` holds `t`. */
  lemma ContainsPart(s: string, a: string, t: string, b: string)
    requires Contains(s, a + t + b)
    ensures Contains(s, t)
  {
    var i :| 0 <= i <= |s| && OccursAt(s, a + t + b, i);
    var n := |a| + |t| + |b|;
    assert s[i..i + n] == a + t + b;
    assert forall j :: 0 <= j < |t| ==> s[i + |a| + j] == s[i..i + n][|a| + j] == t[j];
    assert s[i + |a|..i + |a| + |t|] == t;
    assert OccursAt(s, t, i + |a|);
  }

  /** A name that does not occur leaves none of its tags behind. */
  lemma AbsentClean(s: string, t: string)
    requires !Contains(s, t)
    ensures Clean(s, t)
  {
    if Contains(s, "<" + t) {
      assert "<" + t == "<" + t + "";
      ContainsPart(s, "<", t, "");
    }
    if Contains(s, "</" + t) {
      assert "</" + t == "</" + t + "";
      ContainsPart(s, "</", t, "");
    }
    if Contains(s, t + ">") {
      assert t + ">" == "" + t + ">";
      ContainsPart(s, "", t, ">");
    }
    OpenFreeIff(s, t);
    assert "<" + ("/" + t) == "</" + t;
    OpenFreeIff(s, "/" + t);
    CloseFreeIff(s, t);
  }

  lemma {:induction false} FoldKeepsOpen(s: string, names: seq<string>, q1: string, q2: string, tag: bool)
    requires forall k :: 0 <= k < |names| ==> Name(names[k])
    requires Word(q1) && Word(q2) && OpenGood(s, q1, q2, tag)
    ensures OpenGood(Fold(s, names), q1, q2, tag)
    decreases |names|
  {
    if names != [] {
      if Contains(s, names[0]) {
        EscapeKeepsOpen(s, names[0], q1, q2, tag);
      }
      FoldKeepsOpen(Step(s, names[0]), names[1..], q1, q2, tag);
    }
  }

  lemma {:induction false} FoldKeepsClose(s: string, names: seq<string>, q: string, tag: bool)
    requires forall k :: 0 <= k < |names| ==> Name(names[k])
    requires Word(q) && CloseGood(s, q, tag)
    ensures CloseGood(Fold(s, names), q, tag)
    decreases |names|
  {
    if names != [] {
      if Contains(s, names[0]) {
        EscapeKeepsClose(s, names[0], q, tag);
      }
      FoldKeepsClose(Step(s, names[0]), names[1..], q, tag);
    }
  }

  /** Once its turn has come, a name's tags stay escaped through the rest of the loop. */
  lemma {:induction false} FoldCleans(s: string, names: seq<string>, t: string)
    requires forall k :: 0 <= k < |names| ==> Name(names[k])
    requires t in names
    ensures Clean(Fold(s, names), t)
    decreases |names|
  {
    var s' := Step(s, names[0]);
    if names[0] == t {
      if Contains(s, t) {
        EscapeCleans(s, t);
      } else {
        AbsentClean(s, t);
      }
      NameWords(t);
      FoldKeepsOpen(s', names[1..], t, t, false);
      FoldKeepsOpen(s', names[1..], "/" + t, "/" + t, false);
      FoldKeepsClose(s', names[1..], t, false);
    } else {
      FoldCleans(s', names[1..], t);
    }
  }

  /** `sanitize_html` leaves no "<t", "</t" or "t>" for any forbidden name t. */
  lemma Escaped(s: string)
    ensures forall t :: t in Forbidden ==>
              !Contains(Fold(s, Forbidden), "<" + t) && !Contains(Fold(s, Forbidden), "</" + t) &&
              !Contains(Fold(s, Forbidden), t + ">")
  {
    ForbiddenNames();
    var r := Fold(s, Forbidden);
    forall t | t in Forbidden
      ensures !Contains(r, "<" + t) && !Contains(r, "</" + t) && !Contains(r, t + ">")
    {
      FoldCleans(s, Forbidden, t);
      OpenFreeIff(r, t);
      OpenFreeIff(r, "/" + t);
      assert "<" + ("/" + t) == "</" + t;
      CloseFreeIff(r, t);
    }
  }

  /** A name none of whose tag forms occurs is left alone by its step of the loop. */
  lemma CleanStepUnchanged(s: string, t: string)
    requires t != []
    requires !Contains(s, "<" + t) && !Contains(s, "</" + t) && !Contains(s, t + ">")
    ensures Step(s, t) == s
  {
    if Contains(s, t) {
      if Contains(s, "<" + t + ">") {
        assert "<" + t + ">" == "" + ("<" + t) + ">";
        ContainsPart(s, "", "<" + t, ">");
      }
      ReplaceAllAbsent(s, "<" + t + ">", "&lt;" + t + "&gt;");
      if Contains(s, "</" + t + ">") {
        assert "</" + t + ">" == "" + ("</" + t) + ">";
        ContainsPart(s, "", "</" + t, ">");
      }
      ReplaceAllAbsent(s, "</" + t + ">", "&lt;/" + t + "&gt;");
      ReplaceAllAbsent(s, t + ">", t + "&gt;");
      ReplaceAllAbsent(s, "<" + t, "&lt;" + t);
      ReplaceAllAbsent(s, "</" + t, "&lt;/" + t);
    }
  }

  /** Text holding no tag form of any of `names` goes through the loop unchanged. */
  lemma {:induction false} CleanFoldUnchanged(s: string, names: seq<string>)
    requires forall k :: 0 <= k < |names| ==>
               (names[k] != [] && !Contains(s, "<" + names[k]) && !Contains(s, "</" + names[k]) &&
                !Contains(s, names[k] + ">"))
    ensures Fold(s, names) == s
    decreases |names|
  {
    if names != [] {
      CleanStepUnchanged(s, names[0]);
      CleanFoldUnchanged(s, names[1..]);
    }
  }

  /** Sanitising twice is sanitising once: the first pass leaves no tag form for the second to rewrite. */
  lemma Idempotent(s: string)
    ensures Fold(Fold(s, Forbidden), Forbidden) == Fold(s, Forbidden)
  {
    Escaped(s);
    ForbiddenNames();
    CleanFoldUnchanged(Fold(s, Forbidden), Forbidden);
  }

  /** Text whose every bracket belongs to a tag of `t` has no bracket left once those tags are gone. */
  lemma CleanTaggedFree(s: string, t: string)
    requires Clean(s, t) && Tagged(s, t)
    ensures '<' !in s && '>' !in s
  {
  }

  /** A forbidden name's own tags are the only brackets in a test string: escaping removes them all. */
  lemma TaggedSanitized(s: string, t: string)
    requires t in Forbidden && Tagged(s, t) && ('<' in s || '>' in s)
    ensures var r := Fold(s, Forbidden); r != s && '<' !in r && '>' !in r
  {
    ForbiddenNames();
    NameWords(t);
    var r := Fold(s, Forbidden);
    FoldKeepsOpen(s, Forbidden, t, "/" + t, true);
    FoldKeepsClose(s, Forbidden, t, true);
    FoldCleans(s, Forbidden, t);
    CleanTaggedFree(r, t);
  }

  /** In the strings of the source's test every '<' opens a tag of t. */
  lemma OpenShape(pre: string, t: string, mid: string)
    requires Name(t) && (pre == "" || pre == "<") && '<' !in mid
    ensures OpenGood(pre + t + mid + "</" + t + ">", t, "/" + t, true)
  {
    var s := pre + t + mid + "</" + t + ">";
    var p, n, m := |pre|, |t|, |mid|;
    var c := p + n + m;
    assert |s| == c + n + 3;
    forall i | 0 <= i < |s|
      ensures s[i] == '<' ==> StartsWith(s[i + 1..], t) || StartsWith(s[i + 1..], "/" + t)
    {
      if i < p {
        assert s[i + 1..][..n] == t;
      } else if i < p + n {
        assert s[i] == t[i - p];
      } else if i < c {
        assert s[i] == mid[i - p - n];
      } else if i == c {
        assert s[i + 1..][..n + 1] == "/" + t;
      } else if i < c + 2 + n {
        assert i == c + 1 || s[i] == t[i - c - 2];
      }
    }
  }

  /** In the strings of the source's test every '>' closes a tag of t. */
  lemma CloseShape(pre: string, t: string, mid: string)
    requires Name(t) && (pre == "" || pre == "<")
    requires forall j :: 0 < j < |mid| ==> mid[j] != '>'
    ensures CloseGood(pre + t + mid + "</" + t + ">", t, true)
  {
    var s := pre + t + mid + "</" + t + ">";
    var p, n, m := |pre|, |t|, |mid|;
    var c := p + n + m;
    assert |s| == c + n + 3;
    forall i | 0 <= i < |s|
      ensures s[i] == '>' ==> EndsWith(s[..i], t)
    {
      if i < p + n {
        assert i < p || s[i] == t[i - p];
      } else if i == p + n {
        assert s[..i][i - n..] == t;
      } else if i < c {
        assert s[i] == mid[i - p - n];
      } else if i < c + 2 + n {
        assert i <= c + 1 || s[i] == t[i - c - 2];
      } else {
        assert s[..i][i - n..] == t;
      }
    }
  }

  /**
   * The strings of the source's test: `pre` + t + `mid` + "</" + t + ">",
   * where `pre` is "<" or nothing and `mid` may open with '>'. Every bracket
   * in them belongs to a tag of t.
   */
  lemma TaggedShape(pre: string, t: string, mid: string)
    requires Name(t) && (pre == "" || pre == "<")
    requires '<' !in mid && forall j :: 0 < j < |mid| ==> mid[j] != '>'
    ensures Tagged(pre + t + mid + "</" + t + ">", t)
  {
    OpenShape(pre, t, mid);
    CloseShape(pre, t, mid);
  }

  /** The test's well-formed tags, "<t>asdf</t>": the result differs and holds no bracket. */
  lemma SanitizesTags(t: string)
    requires t in Forbidden
    ensures var s := "<" + t + ">asdf" + "</" + t + ">";
            Fold(s, Forbidden) != s && '<' !in Fold(s, Forbidden) && '>' !in Fold(s, Forbidden)
  {
    ForbiddenNames();
    TaggedShape("<", t, ">asdf");
    var s := "<" + t + ">asdf" + "</" + t + ">";
    assert s[0] == '<';
    TaggedSanitized(s, t);
  }

  /** The test's broken opening tag, "<tasdf</t>". */
  lemma SanitizesBrokenOpen(t: string)
    requires t in Forbidden
    ensures var s := "<" + t + "asdf" + "</" + t + ">";
            Fold(s, Forbidden) != s && '<' !in Fold(s, Forbidden) && '>' !in Fold(s, Forbidden)
  {
    ForbiddenNames();
    TaggedShape("<", t, "asdf");
    var s := "<" + t + "asdf" + "</" + t + ">";
    assert s[0] == '<';
    TaggedSanitized(s, t);
  }

  /** The test's missing '<', "t>asdf</t>". */
  lemma SanitizesMissingOpen(t: string)
    requires t in Forbidden
    ensures var s := t + ">asdf" + "</" + t + ">";
            Fold(s, Forbidden) != s && '<' !in Fold(s, Forbidden) && '>' !in Fold(s, Forbidden)
  {
    ForbiddenNames();
    TaggedShape("", t, ">asdf");
    var s := t + ">asdf" + "</" + t + ">";
    assert "" + t == t;
    assert s[|s| - 1] == '>';
    TaggedSanitized(s, t);
  }
}
