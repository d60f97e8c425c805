/**
 * ASCII string helpers with the semantics of the Rust standard library
 * operations the wiki code uses: `contains`, `starts_with`, `split`, `join`,
 * `replace`, `replacen(.., 1)`, `trim` and `lines`.  Strings are restricted
 * to ASCII, so byte offsets and character offsets coincide.
 */
module Strings {
  import opened Wrappers

  predicate IsAscii(s: string) {
    forall i :: 0 <= i < |s| ==> s[i] as int < 128
  }

  predicate StartsWith(s: string, p: string) {
    |p| <= |s| && s[..|p|] == p
  }

  predicate EndsWith(s: string, p: string) {
    |p| <= |s| && s[|s| - |p|..] == p
  }

  /** `p` occurs in `s` starting at index `i`. */
  predicate OccursAt(s: string, p: string, i: int) {
    0 <= i && i + |p| <= |s| && s[i..i + |p|] == p
  }

  predicate Contains(s: string, p: string) {
    exists i :: 0 <= i <= |s| && OccursAt(s, p, i)
  }

  /** The first occurrence of `p` in `s` at or after index `i`. */
  function FindFrom(s: string, p: string, i: nat): (r: Option<nat>)
    requires i <= |s|
    ensures r.Some? ==> i <= r.value && OccursAt(s, p, r.value)
    ensures r.Some? ==> forall j :: i <= j < r.value ==> !OccursAt(s, p, j)
    ensures r.None? ==> forall j :: i <= j ==> !OccursAt(s, p, j)
    decreases |s| - i
  {
    if i + |p| > |s| then None
    else if s[i..i + |p|] == p then Some(i)
    else FindFrom(s, p, i + 1)
  }

  /** The first occurrence of `p` in `s`, like Rust's `str::find`. */
  function Find(s: string, p: string): (r: Option<nat>)
    ensures r.Some? ==> OccursAt(s, p, r.value) && forall j :: 0 <= j < r.value ==> !OccursAt(s, p, j)
    ensures r.None? <==> !Contains(s, p)
  {
    FindFrom(s, p, 0)
  }

  lemma FindIs(s: string, p: string, k: nat)
    requires OccursAt(s, p, k)
    requires forall j :: 0 <= j < k ==> !OccursAt(s, p, j)
    ensures Find(s, p) == Some(k)
  {
  }

  /** Rust's `s.split(sep)` for a non-empty separator. */
  function Split(s: string, sep: string): (parts: seq<string>)
    requires sep != []
    ensures |parts| >= 1
    decreases |s|
  {
    match Find(s, sep)
    case None => [s]
    case Some(i) => [s[..i]] + Split(s[i + |sep|..], sep)
  }

  /** Rust's `parts.join(sep)`. */
  function Join(parts: seq<string>, sep: string): string
  {
    if |parts| == 0 then ""
    else if |parts| == 1 then parts[0]
    else parts[0] + sep + Join(parts[1..], sep)
  }

  /** Rust's `s.replace(from, to)`: every non-overlapping occurrence, left to right. */
  function ReplaceAll(s: string, from: string, to: string): string
    requires from != []
  {
    Join(Split(s, from), to)
  }

  /** Rust's `s.replacen(from, to, 1)`. */
  function ReplaceFirst(s: string, from: string, to: string): (r: string)
    ensures !Contains(s, from) ==> r == s
    ensures Contains(s, from) ==> exists i :: OccursAt(s, from, i) && r == s[..i] + to + s[i + |from|..]
  {
    match Find(s, from)
    case None => s
    case Some(i) => s[..i] + to + s[i + |from|..]
  }

  lemma {:induction false} JoinSplit(s: string, sep: string)
    requires sep != []
    ensures Join(Split(s, sep), sep) == s
    decreases |s|
  {
    match Find(s, sep)
    case None =>
    case Some(i) =>
      var rest := s[i + |sep|..];
      calc {
        Join(Split(s, sep), sep);
        Join([s[..i]] + Split(rest, sep), sep);
        { JoinCons(s[..i], Split(rest, sep), sep); }
        s[..i] + sep + Join(Split(rest, sep), sep);
        { JoinSplit(rest, sep); }
        s[..i] + sep + rest;
        { SliceThree(s, i, i + |sep|); }
        s;
      }
  }

  lemma SliceThree<T>(s: seq<T>, i: int, j: int)
    requires 0 <= i <= j <= |s|
    ensures s == s[..i] + s[i..j] + s[j..]
  {
  }

  /** Joining a list with one more piece at its front. */
  lemma JoinCons(x: string, ps: seq<string>, sep: string)
    requires ps != []
    ensures Join([x] + ps, sep) == x + sep + Join(ps, sep)
  {
    assert ([x] + ps)[1..] == ps;
  }

  lemma OccursInPrefix(s: string, p: string, k: nat, j: int)
    requires k <= |s| && OccursAt(s[..k], p, j)
    ensures OccursAt(s, p, j)
  {
    assert s[..k][j..j + |p|] == s[j..j + |p|];
  }

  /** No piece produced by `Split` contains the separator. */
  lemma {:induction false} SplitPiecesFree(s: string, sep: string)
    requires sep != []
    ensures forall k :: 0 <= k < |Split(s, sep)| ==> !Contains(Split(s, sep)[k], sep)
    decreases |s|
  {
    match Find(s, sep)
    case None =>
    case Some(i) =>
      SplitPiecesFree(s[i + |sep|..], sep);
      if Contains(s[..i], sep) {
        var j :| OccursAt(s[..i], sep, j);
        OccursInPrefix(s, sep, i, j);
      }
      assert Split(s, sep) == [s[..i]] + Split(s[i + |sep|..], sep);
  }

  lemma NoOccurrenceSplit(s: string, sep: string)
    requires sep != [] && !Contains(s, sep)
    ensures Split(s, sep) == [s]
  {
  }

  /** Replacing a pattern that does not occur leaves the string unchanged. */
  lemma ReplaceAllAbsent(s: string, from: string, to: string)
    requires from != [] && !Contains(s, from)
    ensures ReplaceAll(s, from, to) == s
  {
    NoOccurrenceSplit(s, from);
  }

  /** Splitting at the first occurrence: `a + sep + b` where `a` has no earlier occurrence. */
  lemma SplitAtFirst(a: string, sep: string, b: string)
    requires sep != []
    requires forall j :: 0 <= j < |a| ==> !OccursAt(a + sep + b, sep, j)
    ensures Split(a + sep + b, sep) == [a] + Split(b, sep)
  {
    var s := a + sep + b;
    assert s[|a|..|a| + |sep|] == sep;
    FindIs(s, sep, |a|);
    assert s[..|a|] == a;
    assert s[|a| + |sep|..] == b;
  }

  /** A one-character separator cannot straddle the end of `a`. */
  lemma CharSepFirst(a: string, c: char, b: string)
    requires !Contains(a, [c])
    ensures Split(a + [c] + b, [c]) == [a] + Split(b, [c])
  {
    var s := a + [c] + b;
    forall j | 0 <= j < |a|
      ensures !OccursAt(s, [c], j)
    {
      if OccursAt(s, [c], j) {
        assert a[j..j + 1] == s[j..j + 1];
        assert OccursAt(a, [c], j);
      }
    }
    SplitAtFirst(a, [c], b);
  }

  /** `split` undoes `join` for a one-character separator no piece contains. */
  lemma {:induction false} SplitJoinChar(parts: seq<string>, c: char)
    requires |parts| >= 1
    requires forall k :: 0 <= k < |parts| ==> !Contains(parts[k], [c])
    ensures Split(Join(parts, [c]), [c]) == parts
  {
    if |parts| == 1 {
      NoOccurrenceSplit(parts[0], [c]);
    } else {
      SplitJoinChar(parts[1..], c);
      CharSepFirst(parts[0], c, Join(parts[1..], [c]));
      assert Join(parts, [c]) == parts[0] + [c] + Join(parts[1..], [c]);
    }
  }

  lemma ContainsChar(s: string, c: char)
    ensures Contains(s, [c]) <==> c in s
  {
    if c in s {
      var i :| 0 <= i < |s| && s[i] == c;
      assert OccursAt(s, [c], i);
    }
    if Contains(s, [c]) {
      var i :| 0 <= i <= |s| && OccursAt(s, [c], i);
      assert s[i..i + 1] == [c];
      assert s[i] == c;
    }
  }

  lemma AppendAssoc(a: string, b: string, c: string)
    ensures (a + b) + c == a + (b + c)
  {
  }

  /** A concatenation starts with its first part and ends with its second. */
  lemma AppendAffixes(x: string, y: string)
    ensures StartsWith(x + y, x) && EndsWith(x + y, y)
  {
    assert (x + y)[..|x|] == x;
    assert (x + y)[|x + y| - |y|..] == y;
  }

  lemma StartsWithExtend(x: string, p: string, y: string)
    requires StartsWith(x, p)
    ensures StartsWith(x + y, p)
  {
    assert (x + y)[..|p|] == x[..|p|];
  }

  /** `join` of two non-empty lists puts one separator between them. */
  lemma {:induction false} JoinAppend(xs: seq<string>, ys: seq<string>, sep: string)
    requires xs != [] && ys != []
    ensures Join(xs + ys, sep) == Join(xs, sep) + sep + Join(ys, sep)
  {
    if |xs| == 1 {
      assert (xs + ys)[1..] == ys;
    } else {
      JoinAppend(xs[1..], ys, sep);
      assert (xs + ys)[1..] == xs[1..] + ys;
    }
  }

  /** A one-character separator splits a concatenation into the splits of its two sides. */
  lemma {:induction false} SplitCharAppend(a: string, c: char, b: string)
    ensures Split(a + [c] + b, [c]) == Split(a, [c]) + Split(b, [c])
    decreases |a|
  {
    match Find(a, [c])
    case None =>
      CharSepFirst(a, c, b);
    case Some(i) =>
      var s := a + [c] + b;
      assert OccursAt(s, [c], i) by { assert s[i..i + 1] == a[i..i + 1]; }
      forall j | 0 <= j < i
        ensures !OccursAt(s, [c], j)
      {
        assert !OccursAt(a, [c], j);
        assert s[j..j + 1] == a[j..j + 1];
      }
      FindIs(s, [c], i);
      assert s[..i] == a[..i];
      var rest := a[i + 1..];
      assert s[i + 1..] == rest + [c] + b;
      assert Split(s, [c]) == [a[..i]] + Split(rest + [c] + b, [c]);
      assert Split(a, [c]) == [a[..i]] + Split(rest, [c]);
      SplitCharAppend(rest, c, b);
      ConsAppend(a[..i], Split(rest, [c]), Split(b, [c]));
  }

  /** A prefix is the shorter prefix and its last element. */
  lemma TakeSnoc<T>(s: seq<T>, n: nat)
    requires 0 < n <= |s|
    ensures s[..n] == s[..n - 1] + [s[n - 1]]
  {
  }

  lemma HeadTail<T>(s: seq<T>)
    requires s != []
    ensures [s[0]] + s[1..] == s
  {
  }

  lemma ConsAppend<T>(x: T, p: seq<T>, q: seq<T>)
    ensures [x] + (p + q) == ([x] + p) + q
  {
  }

  lemma StripCRFree(line: string)
    requires '\r' !in line
    ensures StripCR(line) == line
  {
    if line != [] {
      assert line[|line| - 1] in line;
    }
  }

  /** `lines` of a non-empty text whose `split("\n")` pieces carry no '\r'. */
  lemma LinesOfSplit(s: string, kept: seq<string>)
    requires s != []
    requires forall k :: 0 <= k < |kept| ==> '\r' !in kept[k]
    requires (kept == Split(s, "\n") && (|kept| > 1 ==> kept[|kept| - 1] != ""))
          || (kept + [""] == Split(s, "\n") && kept != [])
    ensures Lines(s) == kept
  {
    var parts := Split(s, "\n");
    DroppedIs(parts, kept);
    LinesAt(s);
    StripNone(Lines(s), kept, |parts| - 1);
  }

  lemma DroppedIs(parts: seq<string>, kept: seq<string>)
    requires (kept == parts && (|kept| > 1 ==> kept[|kept| - 1] != ""))
          || (kept + [""] == parts && kept != [])
    ensures kept == if |parts| > 1 && parts[|parts| - 1] == "" then parts[..|parts| - 1] else parts
  {
    if kept + [""] == parts && kept != [] {
      assert parts[..|parts| - 1] == kept;
    }
  }

  /** Lines without '\r' are not changed by stripping a '\r'. */
  lemma StripNone(ls: seq<string>, kept: seq<string>, n: int)
    requires |ls| == |kept|
    requires forall k :: 0 <= k < |kept| ==> '\r' !in kept[k]
    requires forall i :: 0 <= i < |kept| ==> ls[i] == if i < n then StripCR(kept[i]) else kept[i]
    ensures ls == kept
  {
    forall k | 0 <= k < |kept|
      ensures ls[k] == kept[k]
    {
      StripCRFree(kept[k]);
    }
  }

  /** The lines of a non-empty text, one by one. */
  lemma LinesAt(s: string)
    requires s != []
    ensures var parts := Split(s, "\n");
            var kept := if |parts| > 1 && parts[|parts| - 1] == "" then parts[..|parts| - 1] else parts;
            |Lines(s)| == |kept| &&
            forall i :: 0 <= i < |kept| ==> Lines(s)[i] == if i < |parts| - 1 then StripCR(kept[i]) else kept[i]
  {
  }

  /** `lines` undoes `join("\n")` of lines without line breaks whose last line is not empty. */
  lemma LinesOfJoin(parts: seq<string>)
    requires forall k :: 0 <= k < |parts| ==> '\n' !in parts[k] && '\r' !in parts[k]
    requires parts != [] ==> parts[|parts| - 1] != ""
    ensures Lines(Join(parts, "\n")) == parts
  {
    if parts != [] {
      forall k | 0 <= k < |parts|
        ensures !Contains(parts[k], ['\n'])
      {
        ContainsChar(parts[k], '\n');
      }
      SplitJoinChar(parts, '\n');
      LinesOfSplit(Join(parts, "\n"), parts);
    }
  }

  /** A trailing "\n" after such lines is absorbed by `lines`. */
  lemma LinesOfJoinTrailing(parts: seq<string>)
    requires parts != []
    requires forall k :: 0 <= k < |parts| ==> '\n' !in parts[k] && '\r' !in parts[k]
    ensures Lines(Join(parts + [""], "\n")) == parts
  {
    var ps := parts + [""];
    var s := Join(ps, "\n");
    assert Split(s, "\n") == ps by {
      forall k | 0 <= k < |ps|
        ensures !Contains(ps[k], ['\n'])
      {
        ContainsChar(ps[k], '\n');
      }
      SplitJoinChar(ps, '\n');
    }
    assert s != [] by {
      JoinAppend(parts, [""], "\n");
    }
    LinesOfSplit(s, parts);
  }

  /** Every character of a trimmed string comes from the original. */
  lemma TrimChars(s: string, c: char)
    requires c !in s
    ensures c !in Trim(s)
  {
    var t := TrimStart(s);
    assert t == s[|s| - |t|..];
    assert Trim(s) == t[..|Trim(s)|];
  }

  /** A character absent from `s` is absent from every piece of its split. */
  lemma {:induction false} SplitChars(s: string, sep: string, c: char)
    requires sep != [] && c !in s
    ensures forall k :: 0 <= k < |Split(s, sep)| ==> c !in Split(s, sep)[k]
    decreases |s|
  {
    match Find(s, sep)
    case None =>
    case Some(i) =>
      assert c !in s[..i] by { assert forall j :: 0 <= j < i ==> s[..i][j] == s[j]; }
      var rest := s[i + |sep|..];
      assert c !in rest by { assert forall j :: 0 <= j < |rest| ==> rest[j] == s[i + |sep| + j]; }
      SplitChars(rest, sep, c);
      assert Split(s, sep) == [s[..i]] + Split(rest, sep);
  }

  /** A character in neither the parts nor the separator is not in their join. */
  lemma {:induction false} JoinChars(parts: seq<string>, sep: string, c: char)
    requires forall k :: 0 <= k < |parts| ==> c !in parts[k]
    requires c !in sep
    ensures c !in Join(parts, sep)
    decreases |parts|
  {
    if |parts| > 1 {
      JoinChars(parts[1..], sep, c);
    }
  }

  /** `replace` brings in no character that neither the input nor the replacement holds. */
  lemma ReplaceChars(s: string, from: string, to: string, c: char)
    requires from != [] && c !in s && c !in to
    ensures c !in ReplaceAll(s, from, to)
  {
    SplitChars(s, from, c);
    JoinChars(Split(s, from), to, c);
  }

  /** A pattern holding a character the string lacks does not occur in it. */
  lemma AbsentCharPattern(s: string, p: string, c: char)
    requires c in p && c !in s
    ensures !Contains(s, p)
  {
    var j :| 0 <= j < |p| && p[j] == c;
    forall i | 0 <= i <= |s|
      ensures !OccursAt(s, p, i)
    {
      if i + |p| <= |s| {
        assert s[i..i + |p|][j] == s[i + j] != c;
      }
    }
  }

  /** Whitespace as Rust's `char::is_whitespace` decides it on ASCII. */
  predicate IsSpace(c: char) {
    c == ' ' || ('\t' <= c <= '\r')
  }

  function TrimStart(s: string): (r: string)
    ensures |r| <= |s| && r == s[|s| - |r|..]
    ensures r != [] ==> !IsSpace(r[0])
    ensures s != [] && !IsSpace(s[0]) ==> r == s
  {
    if s != [] && IsSpace(s[0]) then TrimStart(s[1..]) else s
  }

  function TrimEnd(s: string): (r: string)
    ensures |r| <= |s| && r == s[..|r|]
    ensures r != [] ==> !IsSpace(r[|r| - 1])
    ensures s != [] && !IsSpace(s[|s| - 1]) ==> r == s
  {
    if s != [] && IsSpace(s[|s| - 1]) then TrimEnd(s[..|s| - 1]) else s
  }

  /** Rust's `str::trim`. */
  function Trim(s: string): (r: string)
    ensures r != [] ==> !IsSpace(r[0]) && !IsSpace(r[|r| - 1])
  {
    TrimEnd(TrimStart(s))
  }

  /** A string with no surrounding whitespace (empty strings included). */
  predicate Trimmed(s: string) {
    s != [] ==> !IsSpace(s[0]) && !IsSpace(s[|s| - 1])
  }

  lemma TrimIdentity(s: string)
    requires Trimmed(s)
    ensures Trim(s) == s
  {
  }

  /** `Trim(s)` is one contiguous slice of `s`. */
  lemma TrimSlice(s: string) returns (a: nat, b: nat)
    ensures a <= b <= |s| && Trim(s) == s[a..b]
  {
    var ts := TrimStart(s);
    var r := TrimEnd(ts);
    a := |s| - |ts|;
    b := a + |r|;
    assert ts == s[a..];
    assert r == ts[..|r|];
    assert s[a..][..|r|] == s[a..b];
  }

  function StripCR(line: string): string {
    if line != [] && line[|line| - 1] == '\r' then line[..|line| - 1] else line
  }

  /**
   * Rust's `str::lines`: the pieces between '\n's, without a final empty
   * piece after a trailing '\n'; a piece that a '\n' ends loses one
   * trailing '\r' ("\r\n" is a line ending), a bare '\r' at the very end
   * is kept.
   */
  function Lines(s: string): (ls: seq<string>)
    ensures s == [] <==> ls == []
  {
    if s == [] then []
    else
      var parts := Split(s, "\n");
      var kept := if |parts| > 1 && parts[|parts| - 1] == "" then parts[..|parts| - 1] else parts;
      seq(|kept|, i requires 0 <= i < |kept| => if i < |parts| - 1 then StripCR(kept[i]) else kept[i])
  }

  /** No line holds a '\n', nor a character absent from the text. */
  lemma LinesFree(s: string, c: char)
    requires c == '\n' || c !in s
    ensures forall k :: 0 <= k < |Lines(s)| ==> c !in Lines(s)[k]
  {
    if s != [] {
      var parts := Split(s, "\n");
      SplitPiecesFree(s, "\n");
      if c != '\n' {
        SplitChars(s, "\n", c);
      }
      forall k | 0 <= k < |parts|
        ensures c !in parts[k]
      {
        ContainsChar(parts[k], '\n');
      }
      var ls := Lines(s);
      forall k | 0 <= k < |ls|
        ensures c !in ls[k]
      {
        var p := parts[k];
        assert ls[k] == p || ls[k] == StripCR(p);
        assert StripCR(p) == p[..|StripCR(p)|];
      }
    }
  }

  function LowerChar(c: char): char {
    if 'A' <= c <= 'Z' then (c as int + 32) as char else c
  }

  /** Rust's `to_lowercase` on ASCII. */
  function Lower(s: string): (r: string)
    ensures |r| == |s|
    ensures forall i :: 0 <= i < |s| ==> r[i] == LowerChar(s[i])
  {
    seq(|s|, i requires 0 <= i < |s| => LowerChar(s[i]))
  }

  /** Every character of `s` except those equal to `c`, in order. */
  function RemoveChar(s: string, c: char): (r: string)
    ensures c !in r
    ensures forall x :: x != c ==> (x in r <==> x in s)
  {
    if s == [] then [] else (if s[0] == c then [] else [s[0]]) + RemoveChar(s[1..], c)
  }

  lemma {:induction false} RemoveAbsent(s: string, c: char)
    requires c !in s
    ensures RemoveChar(s, c) == s
  {
    if s != [] {
      RemoveAbsent(s[1..], c);
      assert s == [s[0]] + s[1..];
    }
  }
}
