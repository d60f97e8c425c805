/**
 * `tokenize` of the search engine: ASCII punctuation becomes blanks, the
 * text is split on single blanks, every word is lower-cased and loses its
 * newlines, and stop words, empty words and words longer than 80 bytes are
 * dropped. Text is ASCII, so bytes and characters coincide.
 */
module Tokenizer {
  import opened Strings

  /** `STOP_WORDS`, the 51 words never indexed, in the four rows the table is written in. */
  const StopRow1: seq<string> := ["a", "about", "an", "are", "and", "as", "at", "be", "but", "by", "co", "com", "do", "don't"]
  const StopRow2: seq<string> := ["for", "from", "has", "have", "he", "his", "her", "hers", "http", "https", "i", "i'm", "in"]
  const StopRow3: seq<string> := ["is", "it", "it's", "just", "like", "me", "my", "not", "of", "on", "or", "so", "that", "the"]
  const StopRow4: seq<string> := ["they", "this", "to", "was", "www", "we", "were", "with", "you", "your"]
  const StopWords: seq<string> := StopRow1 + StopRow2 + StopRow3 + StopRow4

  /** The longest word kept. */
  const MaxWord: nat := 80

  /** `[[:punct:]]`: the 32 ASCII punctuation characters. */
  predicate IsPunct(c: char) {
    ('!' <= c <= '/') || (':' <= c <= '@') || ('[' <= c <= '`') || ('{' <= c <= '~')
  }

  /** `PUNCT_RGX.replace_all(slice, " ")`. */
  function PunctToSpace(s: string): (r: string)
    ensures |r| == |s|
    ensures forall i :: 0 <= i < |s| ==> !IsPunct(r[i]) && (r[i] == s[i] || (IsPunct(s[i]) && r[i] == ' '))
  {
    seq(|s|, i requires 0 <= i < |s| => if IsPunct(s[i]) then ' ' else s[i])
  }

  /** The map step: lower-cased, with every '\n' removed. */
  function Normalize(w: string): (r: string)
    ensures '\n' !in r
    ensures forall c :: c in r ==> !('A' <= c <= 'Z')
  {
    var l := Lower(w);
    assert forall c :: c in l ==> !('A' <= c <= 'Z') by {
      forall c | c in l
        ensures !('A' <= c <= 'Z')
      {
        var i :| 0 <= i < |l| && l[i] == c;
      }
    }
    RemoveChar(l, '\n')
  }

  /** The filter step. */
  predicate Keep(w: string) {
    w !in StopWords && w != "" && |w| <= MaxWord
  }

  /** Map then filter over the words, in order. */
  function Tokens(words: seq<string>): (r: seq<string>)
    ensures |r| <= |words|
  {
    if words == [] then []
    else
      var w := Normalize(words[0]);
      (if Keep(w) then [w] else []) + Tokens(words[1..])
  }

  /** `tokenize`. */
  function Tokenize(s: string): seq<string> {
    Tokens(Split(PunctToSpace(s), " "))
  }

  /** Only words that pass the filter are kept. */
  lemma {:induction false} TokensKeep(words: seq<string>)
    ensures forall k :: 0 <= k < |Tokens(words)| ==> Keep(Tokens(words)[k])
    decreases |words|
  {
    if words != [] {
      TokensKeep(words[1..]);
    }
  }

  /** No token is a stop word, empty, or longer than 80 characters. */
  lemma TokenizeKeep(s: string)
    ensures forall k :: 0 <= k < |Tokenize(s)| ==> Keep(Tokenize(s)[k])
  {
    TokensKeep(Split(PunctToSpace(s), " "));
  }

  /** Map and filter work word by word: order is kept and duplicates stay. */
  lemma {:induction false} TokensAppend(a: seq<string>, b: seq<string>)
    ensures Tokens(a + b) == Tokens(a) + Tokens(b)
    decreases |a|
  {
    if a == [] {
      assert a + b == b;
    } else {
      var ab := a + b;
      assert ab[0] == a[0] && ab[1..] == a[1..] + b;
      var w := Normalize(a[0]);
      var head := if Keep(w) then [w] else [];
      TokensAppend(a[1..], b);
      calc {
        Tokens(ab);
        head + Tokens(a[1..] + b);
        head + (Tokens(a[1..]) + Tokens(b));
        (head + Tokens(a[1..])) + Tokens(b);
      }
    }
  }

  /** Normalising cannot bring in a character that is not a lower-case letter. */
  lemma NormalizeChars(w: string, c: char)
    requires c !in w && !('a' <= c <= 'z')
    ensures c !in Normalize(w)
  {
    var l := Lower(w);
    forall i | 0 <= i < |l|
      ensures l[i] != c
    {
      assert w[i] in w;
    }
  }

  lemma {:induction false} TokensChars(words: seq<string>, c: char)
    requires forall k :: 0 <= k < |words| ==> c !in words[k]
    requires !('a' <= c <= 'z')
    ensures forall k :: 0 <= k < |Tokens(words)| ==> c !in Tokens(words)[k]
    decreases |words|
  {
    if words != [] {
      NormalizeChars(words[0], c);
      TokensChars(words[1..], c);
    }
  }

  /** No token holds a blank, a newline, a punctuation character or an upper-case letter. */
  lemma TokenChars(s: string, c: char)
    requires c == ' ' || c == '\n' || IsPunct(c) || ('A' <= c <= 'Z')
    ensures forall k :: 0 <= k < |Tokenize(s)| ==> c !in Tokenize(s)[k]
  {
    var p := PunctToSpace(s);
    var words := Split(p, " ");
    if c == ' ' {
      SplitPiecesFree(p, " ");
      forall k | 0 <= k < |words|
        ensures c !in words[k]
      {
        ContainsChar(words[k], ' ');
      }
      TokensChars(words, c);
    } else if IsPunct(c) {
      assert c !in p by {
        forall i | 0 <= i < |p|
          ensures p[i] != c
        {
        }
      }
      SplitChars(p, " ", c);
      TokensChars(words, c);
    } else {
      forall k | 0 <= k < |Tokenize(s)|
        ensures c !in Tokenize(s)[k]
      {
        TokenNormalized(words, k);
      }
    }
  }

  /** Every token is the normal form of some word. */
  lemma {:induction false} TokenNormalized(words: seq<string>, k: nat)
    requires k < |Tokens(words)|
    ensures exists j :: 0 <= j < |words| && Tokens(words)[k] == Normalize(words[j])
    decreases |words|
  {
    var w := Normalize(words[0]);
    var head := if Keep(w) then [w] else [];
    if k < |head| {
      assert Tokens(words)[k] == Normalize(words[0]);
    } else {
      TokenNormalized(words[1..], k - |head|);
      var j :| 0 <= j < |words[1..]| && Tokens(words[1..])[k - |head|] == Normalize(words[1..][j]);
      assert Tokens(words)[k] == Normalize(words[j + 1]);
    }
  }

  /** A blank or a punctuation character separates: the two sides tokenize independently. */
  lemma TokenizeSep(s: string, c: char, t: string)
    requires c == ' ' || IsPunct(c)
    ensures Tokenize(s + [c] + t) == Tokenize(s) + Tokenize(t)
  {
    var u := s + [c] + t;
    assert PunctToSpace(u) == PunctToSpace(s) + [' '] + PunctToSpace(t);
    SplitCharAppend(PunctToSpace(s), ' ', PunctToSpace(t));
    TokensAppend(Split(PunctToSpace(s), " "), Split(PunctToSpace(t), " "));
  }

  /** A repeated word is indexed once per occurrence. */
  lemma DuplicatesKept(w: string)
    ensures Tokenize(w + " " + w) == Tokenize(w) + Tokenize(w)
  {
    TokenizeSep(w, ' ', w);
  }

  /** A single word without blanks or punctuation gives its normal form, unless the filter drops it. */
  lemma TokenizeWord(w: string)
    requires forall i :: 0 <= i < |w| ==> w[i] != ' ' && !IsPunct(w[i])
    ensures Tokenize(w) == if Keep(Normalize(w)) then [Normalize(w)] else []
  {
    assert PunctToSpace(w) == w;
    ContainsChar(w, ' ');
    NoOccurrenceSplit(w, " ");
    assert [w][1..] == [];
  }

  /** The empty text has no tokens. */
  lemma TokenizeEmpty()
    ensures Tokenize("") == []
  {
    TokenizeWord("");
  }

  /** A word of lower-case letters only. */
  predicate LowerWord(w: string) {
    forall i :: 0 <= i < |w| ==> 'a' <= w[i] <= 'z'
  }

  /** A lower-case word that is not a stop word is its own single token. */
  lemma KeptWord(w: string)
    requires LowerWord(w) && Keep(w)
    ensures Tokenize(w) == [w]
  {
    assert Lower(w) == w;
    assert '\n' !in w by {
      forall i | 0 <= i < |w|
        ensures w[i] != '\n'
      {
      }
    }
    RemoveAbsent(w, '\n');
    TokenizeWord(w);
  }

  /** A word whose lower-case form is a stop word gives no token. */
  lemma DroppedWord(w: string)
    requires forall i :: 0 <= i < |w| ==> ('a' <= w[i] <= 'z' || 'A' <= w[i] <= 'Z')
    requires Lower(w) in StopWords
    ensures Tokenize(w) == []
  {
    assert '\n' !in Lower(w) by {
      forall i | 0 <= i < |w|
        ensures Lower(w)[i] != '\n'
      {
      }
    }
    RemoveAbsent(Lower(w), '\n');
    TokenizeWord(w);
  }

  /** A leading separator is dropped. */
  lemma SepFront(c: char, t: string)
    requires c == ' ' || IsPunct(c)
    ensures Tokenize([c] + t) == Tokenize(t)
  {
    TokenizeSep([], c, t);
    TokenizeEmpty();
    assert [] + [c] + t == [c] + t;
  }

  /** No stop word is longer than five letters. */
  lemma StopWordsShort(w: string)
    requires |w| > 5
    ensures w !in StopWords
  {
    assert w !in StopRow1 && w !in StopRow2 && w !in StopRow3 && w !in StopRow4;
  }

  lemma ShortKept(w: string)
    requires w == "link" || w == "tech"
    ensures w !in StopWords
  {
  }

  lemma ShortKept2(w: string)
    requires w == "html" || w == "note"
    ensures w !in StopWords
  {
  }

  lemma ShortKept3(w: string)
    requires w == "could" || w == "idea"
    ensures w !in StopWords
  {
  }

  lemma LinkWords(a: string, b: string, c: string, d: string, e: string, f: string)
    requires a == "link" && b == "https" && c == "teukka" && d == "tech" && e == "luanvim" && f == "html"
    ensures LowerWord(a) && Keep(a) && LowerWord(c) && Keep(c) && LowerWord(d) && Keep(d)
    ensures LowerWord(e) && Keep(e) && LowerWord(f) && Keep(f)
    ensures LowerWord(b) && Lower(b) == b && b in StopWords
  {
    ShortKept(a);
    ShortKept(d);
    ShortKept2(f);
    StopWordsShort(c);
    StopWordsShort(e);
    assert b in StopRow2;
  }

  /** A kept word before a separator. */
  lemma SepKept(w: string, c: char, t: string)
    requires c == ' ' || IsPunct(c)
    requires LowerWord(w) && Keep(w)
    ensures Tokenize(w + [c] + t) == [w] + Tokenize(t)
  {
    TokenizeSep(w, c, t);
    KeptWord(w);
  }

  /** A stop word before a separator. */
  lemma SepDropped(w: string, c: char, t: string)
    requires c == ' ' || IsPunct(c)
    requires forall i :: 0 <= i < |w| ==> ('a' <= w[i] <= 'z' || 'A' <= w[i] <= 'Z')
    requires Lower(w) in StopWords
    ensures Tokenize(w + [c] + t) == Tokenize(t)
  {
    TokenizeSep(w, c, t);
    DroppedWord(w);
    assert [] + Tokenize(t) == Tokenize(t);
  }

  /** The end `d/e.f]]` of the link. */
  lemma LinkTail(d: string, e: string, f: string)
    requires LowerWord(d) && Keep(d) && LowerWord(e) && Keep(e) && LowerWord(f) && Keep(f)
    ensures Tokenize(d + ['/'] + (e + ['.'] + (f + [']'] + [']']))) == [d, e, f]
  {
    assert Tokenize(f + [']'] + [']']) == [f] by {
      SepKept(f, ']', [']']);
      SepFront(']', []);
      assert [']'] + [] == [']'];
      TokenizeEmpty();
    }
    SepKept(e, '.', f + [']'] + [']']);
    SepKept(d, '/', e + ['.'] + (f + [']'] + [']']));
  }

  /** The middle `b://c.` of the link, with a stop word `b`. */
  lemma LinkMiddle(b: string, c: string, tail: string)
    requires LowerWord(b) && Lower(b) in StopWords
    requires LowerWord(c) && Keep(c)
    ensures Tokenize(b + [':'] + (['/'] + (['/'] + (c + ['.'] + tail)))) == [c] + Tokenize(tail)
  {
    SepKept(c, '.', tail);
    SepFront('/', c + ['.'] + tail);
    SepFront('/', ['/'] + (c + ['.'] + tail));
    SepDropped(b, ':', ['/'] + (['/'] + (c + ['.'] + tail)));
  }

  /** The start `[[a|` of the link. */
  lemma LinkHead(a: string, rest: string)
    requires LowerWord(a) && Keep(a)
    ensures Tokenize(['['] + (['['] + (a + ['|'] + rest))) == [a] + Tokenize(rest)
  {
    SepKept(a, '|', rest);
    SepFront('[', a + ['|'] + rest);
    SepFront('[', ['['] + (a + ['|'] + rest));
  }

  /** The link's text, regrouped around its separators. */
  lemma LinkText(a: string, b: string, c: string, d: string, e: string, f: string)
    ensures "[[" + a + "|" + b + "://" + c + "." + d + "/" + e + "." + f + "]]"
      == ['['] + (['['] + (a + ['|'] + (b + [':'] + (['/'] + (['/'] + (c + ['.'] + (d + ['/'] + (e + ['.'] + (f + [']'] + [']'])))))))))
  {
  }

  /** A link `[[a|b://c.d/e.f]]`: the brackets, '|', "://", '.' and '/' all separate words. */
  lemma LinkShape(a: string, b: string, c: string, d: string, e: string, f: string)
    requires LowerWord(a) && Keep(a) && LowerWord(c) && Keep(c) && LowerWord(d) && Keep(d)
    requires LowerWord(e) && Keep(e) && LowerWord(f) && Keep(f)
    requires LowerWord(b) && Lower(b) in StopWords
    ensures Tokenize("[[" + a + "|" + b + "://" + c + "." + d + "/" + e + "." + f + "]]") == [a, c, d, e, f]
  {
    var tail := d + ['/'] + (e + ['.'] + (f + [']'] + [']']));
    var rest := b + [':'] + (['/'] + (['/'] + (c + ['.'] + tail)));
    LinkText(a, b, c, d, e, f);
    LinkTail(d, e, f);
    LinkMiddle(b, c, tail);
    LinkHead(a, rest);
    assert [a] + ([c] + [d, e, f]) == [a, c, d, e, f];
  }

  /** The wiki link "[[link|https://teukka.tech/luanvim.html]]": "https" is a stop word. */
  lemma LinkExample(a: string, b: string, c: string, d: string, e: string, f: string)
    requires a == "link" && b == "https" && c == "teukka" && d == "tech" && e == "luanvim" && f == "html"
    ensures Tokenize("[[" + a + "|" + b + "://" + c + "." + d + "/" + e + "." + f + "]]") == ["link", "teukka", "tech", "luanvim", "html"]
  {
    LinkWords(a, b, c, d, e, f);
    LinkShape(a, b, c, d, e, f);
  }

  /** Words whose lower-case form is a stop word. */
  lemma StopFacts(w: string)
    requires w == "A" || w == "This"
    ensures forall i :: 0 <= i < |w| ==> ('a' <= w[i] <= 'z' || 'A' <= w[i] <= 'Z')
    ensures Lower(w) in StopWords
  {
    if w == "A" {
      assert Lower(w) == "a";
      assert Lower(w) in StopRow1;
    } else {
      assert Lower(w) == "this";
      assert Lower(w) in StopRow4;
    }
  }

  lemma LowerStop(w: string)
    requires w == "a" || w == "or" || w == "an"
    ensures LowerWord(w) && Lower(w) == w && w in StopWords
  {
    assert w in StopRow1 + StopRow3;
  }

  /** The first sentence `A b, c d.` with a stop word `A`. */
  lemma FirstSentence(w1: string, w2: string, w3: string, w4: string)
    requires forall i :: 0 <= i < |w1| ==> ('a' <= w1[i] <= 'z' || 'A' <= w1[i] <= 'Z')
    requires Lower(w1) in StopWords
    requires LowerWord(w2) && Keep(w2) && LowerWord(w3) && Keep(w3) && LowerWord(w4) && Keep(w4)
    ensures Tokenize(w1 + " " + w2 + ", " + w3 + " " + w4 + ".") == [w2, w3, w4]
  {
    var t4 := w4 + ['.'] + [];
    var t3 := w3 + [' '] + t4;
    var t2 := w2 + [','] + ([' '] + t3);
    FirstText(w1, w2, w3, w4);
    assert Tokenize(t4) == [w4] by {
      SepKept(w4, '.', []);
      TokenizeEmpty();
    }
    SepKept(w3, ' ', t4);
    SepFront(' ', t3);
    SepKept(w2, ',', [' '] + t3);
    SepDropped(w1, ' ', t2);
  }

  /** The first sentence's text, regrouped around its separators. */
  lemma FirstText(w1: string, w2: string, w3: string, w4: string)
    ensures w1 + " " + w2 + ", " + w3 + " " + w4 + "."
      == w1 + [' '] + (w2 + [','] + ([' '] + (w3 + [' '] + (w4 + ['.'] + []))))
  {
  }

  /** `d e.` with a stop word `d`. */
  lemma StopThenLast(v8: string, v9: string)
    requires LowerWord(v8) && Lower(v8) in StopWords && LowerWord(v9) && Keep(v9)
    ensures Tokenize(v8 + [' '] + (v9 + ['.'] + [])) == [v9]
  {
    assert Tokenize(v9 + ['.'] + []) == [v9] by {
      SepKept(v9, '.', []);
      TokenizeEmpty();
    }
    SepDropped(v8, ' ', v9 + ['.'] + []);
  }

  /** The end `a b, c d e.` of the second sentence, with stop words `a`, `c` and `d`. */
  lemma SecondTail(v4: string, v6: string, v7: string, v8: string, v9: string)
    requires LowerWord(v4) && Lower(v4) in StopWords && LowerWord(v7) && Lower(v7) in StopWords
    requires LowerWord(v8) && Lower(v8) in StopWords
    requires LowerWord(v6) && Keep(v6) && LowerWord(v9) && Keep(v9)
    ensures Tokenize(v4 + [' '] + (v6 + [','] + ([' '] + (v7 + [' '] + (v8 + [' '] + (v9 + ['.'] + [])))))) == [v6, v9]
  {
    var t4 := v8 + [' '] + (v9 + ['.'] + []);
    var t3 := v7 + [' '] + t4;
    StopThenLast(v8, v9);
    assert Tokenize(t3) == [v9] by {
      SepDropped(v7, ' ', t4);
    }
    assert Tokenize(v6 + [','] + ([' '] + t3)) == [v6, v9] by {
      SepFront(' ', t3);
      SepKept(v6, ',', [' '] + t3);
    }
    SepDropped(v4, ' ', v6 + [','] + ([' '] + t3));
  }

  /** A kept word followed by ", ". */
  lemma KeptComma(w: string, rest: string)
    requires LowerWord(w) && Keep(w)
    ensures Tokenize(w + [','] + ([' '] + rest)) == [w] + Tokenize(rest)
  {
    SepFront(' ', rest);
    SepKept(w, ',', [' '] + rest);
  }

  /** `c a e, ` followed by `rest`, with a stop word `a`. */
  lemma SecondMiddle(v3: string, v4: string, v5: string, rest: string)
    requires LowerWord(v4) && Lower(v4) in StopWords
    requires LowerWord(v3) && Keep(v3) && LowerWord(v5) && Keep(v5)
    ensures Tokenize(v3 + [' '] + (v4 + [' '] + (v5 + [','] + ([' '] + rest)))) == [v3] + ([v5] + Tokenize(rest))
  {
    var t5 := v5 + [','] + ([' '] + rest);
    KeptComma(v5, rest);
    SepDropped(v4, ' ', t5);
    SepKept(v3, ' ', v4 + [' '] + t5);
  }

  /** The start `T b ` of the second sentence, with a stop word `T`. */
  lemma SecondHead(v1: string, v2: string, rest: string)
    requires forall i :: 0 <= i < |v1| ==> ('a' <= v1[i] <= 'z' || 'A' <= v1[i] <= 'Z')
    requires Lower(v1) in StopWords && LowerWord(v2) && Keep(v2)
    ensures Tokenize(v1 + [' '] + (v2 + [' '] + rest)) == [v2] + Tokenize(rest)
  {
    SepKept(v2, ' ', rest);
    SepDropped(v1, ' ', v2 + [' '] + rest);
  }

  /** The second sentence `T b c a e, a f, g h i.`. */
  lemma SecondSentence(v1: string, v2: string, v3: string, v4: string, v5: string, v6: string, v7: string, v8: string, v9: string)
    requires forall i :: 0 <= i < |v1| ==> ('a' <= v1[i] <= 'z' || 'A' <= v1[i] <= 'Z')
    requires Lower(v1) in StopWords
    requires LowerWord(v4) && Lower(v4) in StopWords && LowerWord(v7) && Lower(v7) in StopWords
    requires LowerWord(v8) && Lower(v8) in StopWords
    requires LowerWord(v2) && Keep(v2) && LowerWord(v3) && Keep(v3) && LowerWord(v5) && Keep(v5)
    requires LowerWord(v6) && Keep(v6) && LowerWord(v9) && Keep(v9)
    ensures Tokenize(v1 + " " + v2 + " " + v3 + " " + v4 + " " + v5 + ", " + v4 + " " + v6 + ", " + v7 + " " + v8 + " " + v9 + ".")
      == [v2, v3, v5, v6, v9]
  {
    var tail := v4 + [' '] + (v6 + [','] + ([' '] + (v7 + [' '] + (v8 + [' '] + (v9 + ['.'] + [])))));
    var middle := v3 + [' '] + (v4 + [' '] + (v5 + [','] + ([' '] + tail)));
    SecondText(v1, v2, v3, v4, v5, v6, v7, v8, v9);
    SecondTail(v4, v6, v7, v8, v9);
    SecondMiddle(v3, v4, v5, tail);
    SecondHead(v1, v2, middle);
    FlatFive(v2, v3, v5, v6, v9);
  }

  /** The second sentence's text, regrouped around its separators. */
  lemma SecondText(v1: string, v2: string, v3: string, v4: string, v5: string, v6: string, v7: string, v8: string, v9: string)
    ensures v1 + " " + v2 + " " + v3 + " " + v4 + " " + v5 + ", " + v4 + " " + v6 + ", " + v7 + " " + v8 + " " + v9 + "."
      == v1 + [' '] + (v2 + [' '] + (v3 + [' '] + (v4 + [' '] + (v5 + [','] + ([' '] +
           (v4 + [' '] + (v6 + [','] + ([' '] + (v7 + [' '] + (v8 + [' '] + (v9 + ['.'] + [])))))))))))
  {
  }

  lemma FlatFive<T>(a: T, b: T, c: T, d: T, e: T)
    ensures [a] + ([b] + ([c] + [d, e])) == [a, b, c, d, e]
  {
  }

  lemma FlatEight<T>(a: T, b: T, c: T, d: T, e: T, f: T, g: T, h: T)
    ensures [a, b, c] + [d, e, f, g, h] == [a, b, c, d, e, f, g, h]
  {
  }

  /** The two sentences joined by one blank. */
  lemma SentenceText(w1: string, w2: string, w3: string, w4: string,
                     v1: string, v2: string, v3: string, v4: string, v5: string, v6: string, v7: string, v8: string, v9: string)
    ensures w1 + " " + w2 + ", " + w3 + " " + w4 + ". "
            + v1 + " " + v2 + " " + v3 + " " + v4 + " " + v5 + ", " + v4 + " " + v6 + ", " + v7 + " " + v8 + " " + v9 + "."
      == (w1 + " " + w2 + ", " + w3 + " " + w4 + ".") + [' ']
         + (v1 + " " + v2 + " " + v3 + " " + v4 + " " + v5 + ", " + v4 + " " + v6 + ", " + v7 + " " + v8 + " " + v9 + ".")
  {
  }

  lemma SentenceWords(w2: string, w3: string, w4: string, v2: string, v3: string, v5: string, v6: string, v9: string)
    requires w2 == "tested" && w3 == "tokenized" && w4 == "string" && v2 == "could" && v3 == "represent"
    requires v5 == "note" && v6 == "bookmark" && v9 == "idea"
    ensures LowerWord(w2) && Keep(w2) && LowerWord(w3) && Keep(w3) && LowerWord(w4) && Keep(w4)
    ensures LowerWord(v2) && Keep(v2) && LowerWord(v3) && Keep(v3) && LowerWord(v5) && Keep(v5)
    ensures LowerWord(v6) && Keep(v6) && LowerWord(v9) && Keep(v9)
  {
    StopWordsShort(w2);
    StopWordsShort(w3);
    StopWordsShort(w4);
    StopWordsShort(v3);
    StopWordsShort(v6);
    ShortKept3(v2);
    ShortKept2(v5);
    ShortKept3(v9);
  }

  /**
   * The sentence "A tested, tokenized string. This could represent a note,
   * a bookmark, or an idea.", assembled from its words.
   */
  lemma SentenceExample(w1: string, w2: string, w3: string, w4: string,
                        v1: string, v2: string, v3: string, v4: string, v5: string, v6: string, v7: string, v8: string, v9: string)
    requires w1 == "A" && w2 == "tested" && w3 == "tokenized" && w4 == "string"
    requires v1 == "This" && v2 == "could" && v3 == "represent" && v4 == "a" && v5 == "note"
    requires v6 == "bookmark" && v7 == "or" && v8 == "an" && v9 == "idea"
    ensures Tokenize(w1 + " " + w2 + ", " + w3 + " " + w4 + ". "
                     + v1 + " " + v2 + " " + v3 + " " + v4 + " " + v5 + ", " + v4 + " " + v6 + ", " + v7 + " " + v8 + " " + v9 + ".")
      == ["tested", "tokenized", "string", "could", "represent", "note", "bookmark", "idea"]
  {
    SentenceWords(w2, w3, w4, v2, v3, v5, v6, v9);
    StopFacts(w1);
    StopFacts(v1);
    LowerStop(v4);
    LowerStop(v7);
    LowerStop(v8);
    var x := w1 + " " + w2 + ", " + w3 + " " + w4 + ".";
    var y := v1 + " " + v2 + " " + v3 + " " + v4 + " " + v5 + ", " + v4 + " " + v6 + ", " + v7 + " " + v8 + " " + v9 + ".";
    SentenceText(w1, w2, w3, w4, v1, v2, v3, v4, v5, v6, v7, v8, v9);
    FirstSentence(w1, w2, w3, w4);
    SecondSentence(v1, v2, v3, v4, v5, v6, v7, v8, v9);
    TokenizeSep(x, ' ', y);
    FlatEight(w2, w3, w4, v2, v3, v5, v6, v9);
  }
}
