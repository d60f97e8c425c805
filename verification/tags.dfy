/**
 * The tag list of a note: `TagsArray::new` reads either the bracketed,
 * comma-separated form `[a, b]` or the space-separated form `a b`, and
 * `write` produces the bracketed form again.
 */
module Tags {
  import opened Strings

  /**
   * The strings `TagsArray::new` accepts: once a '[' occurs anywhere, the
   * string must start with '[' and, after that, end with ']' (otherwise
   * `strip_prefix(..).unwrap()` or `strip_suffix(..).unwrap()` aborts).
   */
  predicate WellFormed(s: string) {
    '[' in s ==> 2 <= |s| && s[0] == '[' && s[|s| - 1] == ']'
  }

  /** Pieces of the bracketed form: "" and " " are dropped, the others trimmed. */
  function BracketTags(pieces: seq<string>): (tags: seq<string>)
    ensures |tags| <= |pieces|
  {
    if pieces == [] then []
    else (if pieces[0] == "" || pieces[0] == " " then [] else [Trim(pieces[0])]) + BracketTags(pieces[1..])
  }

  /** Every tag of the bracketed form is trimmed. */
  lemma {:induction false} BracketTagsTrimmed(pieces: seq<string>)
    ensures forall k :: 0 <= k < |BracketTags(pieces)| ==> Trimmed(BracketTags(pieces)[k])
  {
    if pieces != [] {
      BracketTagsTrimmed(pieces[1..]);
      var head := if pieces[0] == "" || pieces[0] == " " then [] else [Trim(pieces[0])];
      var rest := BracketTags(pieces[1..]);
      assert BracketTags(pieces) == head + rest;
      forall k | 0 <= k < |head + rest|
        ensures Trimmed((head + rest)[k])
      {
        if k >= |head| {
          assert (head + rest)[k] == rest[k - |head|];
        }
      }
    }
  }

  /** Pieces of the space-separated form: empty pieces are dropped, nothing is trimmed. */
  function WordTags(pieces: seq<string>): (tags: seq<string>)
    ensures |tags| <= |pieces|
    ensures forall t :: t in tags ==> t in pieces && t != ""
  {
    if pieces == [] then []
    else (if pieces[0] == "" then [] else [pieces[0]]) + WordTags(pieces[1..])
  }

  datatype TagsArray = TagsArray(values: seq<string>)
  {
    /** `write`: the values joined by ',' inside one pair of brackets. */
    function Write(): (r: string)
      ensures 2 <= |r| && r[0] == '[' && r[|r| - 1] == ']'
      ensures WellFormed(r)
    {
      "[" + Join(values, ",") + "]"
    }

    function Len(): (n: nat)
      ensures n == 0 <==> values == []
    {
      |values|
    }

    predicate IsEmpty()
      ensures IsEmpty() <==> Len() == 0
    {
      values == []
    }
  }

  /** `TagsArray::new`. */
  function New(tagStr: string): (t: TagsArray)
    requires WellFormed(tagStr)
    ensures '[' in tagStr ==> forall k :: 0 <= k < |t.values| ==> Trimmed(t.values[k])
    ensures '[' !in tagStr ==> forall v :: v in t.values ==> v != "" && ' ' !in v
  {
    if '[' in tagStr then
      var pieces := Split(tagStr[1..|tagStr| - 1], ",");
      BracketTagsTrimmed(pieces);
      TagsArray(BracketTags(pieces))
    else
      var pieces := Split(tagStr, " ");
      assert forall v :: v in pieces ==> ' ' !in v by {
        SplitPiecesFree(tagStr, " ");
        forall v | v in pieces
          ensures ' ' !in v
        {
          ContainsChar(v, ' ');
        }
      }
      TagsArray(WordTags(pieces))
  }

  /** A tag `write` can carry through a round trip. */
  predicate Plain(tag: string) {
    tag != "" && ',' !in tag && Trimmed(tag)
  }

  lemma {:induction false} BracketTagsKeep(pieces: seq<string>)
    requires forall k :: 0 <= k < |pieces| ==> Plain(pieces[k])
    ensures BracketTags(pieces) == pieces
  {
    if pieces != [] {
      var p := pieces[0];
      assert Plain(p);
      assert p != " " by {
        if |p| == 1 {
          assert !IsSpace(p[0]);
        }
      }
      TrimIdentity(p);
      BracketTagsKeep(pieces[1..]);
      assert BracketTags(pieces) == [p] + pieces[1..];
      HeadTail(pieces);
    }
  }

  /** `new(write(v))` gives back `v` when no tag is empty, holds a ',' or has surrounding blanks. */
  lemma WriteRoundTrip(values: seq<string>)
    requires forall k :: 0 <= k < |values| ==> Plain(values[k])
    ensures New(TagsArray(values).Write()).values == values
  {
    var s := TagsArray(values).Write();
    assert '[' in s by { assert s[0] == '['; }
    var inner := Join(values, ",");
    assert s[1..|s| - 1] == inner;
    if values == [] {
      assert Split(inner, ",") == [""];
    } else {
      forall k | 0 <= k < |values|
        ensures !Contains(values[k], [','])
      {
        ContainsChar(values[k], ',');
      }
      SplitJoinChar(values, ',');
      BracketTagsKeep(values);
    }
  }

  /** The stripped inside of a bracketed string. */
  lemma Unbracket(x: string)
    ensures WellFormed("[" + x + "]") && '[' in "[" + x + "]"
    ensures var s := "[" + x + "]"; s[1..|s| - 1] == x
  {
    var s := "[" + x + "]";
    assert s[0] == '[';
  }

  /** Splitting two pieces joined by one ','. */
  lemma TwoPieces(a: string, b: string)
    requires ',' !in a && ',' !in b
    ensures Split(a + "," + b, ",") == [a, b]
  {
    ContainsChar(a, ',');
    ContainsChar(b, ',');
    CharSepFirst(a, ',', b);
    NoOccurrenceSplit(b, [',']);
  }

  /** A piece that is neither "" nor " " is kept, trimmed. */
  lemma BracketCons(p: string, rest: seq<string>)
    requires p != "" && p != " "
    ensures BracketTags([p] + rest) == [Trim(p)] + BracketTags(rest)
  {
    assert ([p] + rest)[1..] == rest;
  }

  /** Two pieces that are neither "" nor " " are both kept, trimmed. */
  lemma BracketTwo(a: string, b: string)
    requires a != "" && a != " " && b != "" && b != " "
    ensures BracketTags([a, b]) == [Trim(a), Trim(b)]
  {
    BracketCons(b, []);
    assert [b] + [] == [b];
    BracketCons(a, [b]);
    assert [a] + [b] == [a, b];
  }

  /** A bracketed pair of tags. */
  lemma BracketPair(a: string, b: string)
    requires ',' !in a && ',' !in b
    requires a != "" && a != " " && b != "" && b != " "
    ensures New("[" + a + "," + b + "]").values == [Trim(a), Trim(b)]
  {
    var s := "[" + a + "," + b + "]";
    assert '[' in s && WellFormed(s) && s[1..|s| - 1] == a + "," + b by {
      Unbracket(a + "," + b);
      assert s == "[" + (a + "," + b) + "]";
    }
    assert Split(s[1..|s| - 1], ",") == [a, b] by {
      TwoPieces(a, b);
    }
    assert New(s).values == BracketTags([a, b]);
    BracketTwo(a, b);
  }

  /** Three words separated by single blanks. */
  lemma ThreeWords(a: string, b: string, c: string)
    requires ' ' !in a && ' ' !in b && ' ' !in c
    requires '[' !in a && '[' !in b && '[' !in c
    requires a != "" && b != "" && c != ""
    ensures New(a + " " + b + " " + c).values == [a, b, c]
  {
    var s := a + " " + b + " " + c;
    assert s == a + [' '] + (b + [' '] + c);
    assert '[' !in s;
    ContainsChar(a, ' ');
    ContainsChar(b, ' ');
    ContainsChar(c, ' ');
    CharSepFirst(a, ' ', b + [' '] + c);
    CharSepFirst(b, ' ', c);
    NoOccurrenceSplit(c, [' ']);
    var pieces := Split(s, " ");
    assert pieces == [a, b, c];
    assert New(s).values == WordTags(pieces);
    assert [a, b, c][1..] == [b, c];
    assert [b, c][1..] == [c];
    assert WordTags([c]) == [c];
    assert WordTags([b, c]) == [b] + WordTags([c]);
    assert WordTags([a, b, c]) == [a] + WordTags([b, c]);
  }

  /** One leading blank is trimmed away. */
  lemma TrimLeadingBlank(x: string)
    requires x != [] && Trimmed(x)
    ensures Trim(" " + x) == x
  {
    assert (" " + x)[1..] == x;
    assert TrimStart(" " + x) == TrimStart(x) == x;
  }

  lemma ExampleTagFacts(a: string, b: string)
    requires (a == "reality building" && b == "Article") || (a == "Tools Article" && b == "project-management")
    ensures ',' !in a && ',' !in b && a != "" && b != ""
    ensures Trimmed(a) && Trimmed(b) && |a| > 1
  {
  }

  /** The bracketed example: "[reality building, Article]". */
  lemma WikilinkTagsExample(a: string, b: string)
    requires a == "reality building" && b == "Article"
    ensures New("[" + a + ", " + b + "]").values == [a, b]
  {
    ExampleTagFacts(a, b);
    SpacedPair(a, b);
  }

  /** "[a, b]" with plain tags `a` and `b` reads back as `[a, b]`. */
  lemma SpacedPair(a: string, b: string)
    requires ',' !in a && ',' !in b && a != "" && b != ""
    requires Trimmed(a) && Trimmed(b) && |a| > 1
    ensures New("[" + a + ", " + b + "]").values == [a, b]
  {
    var s := "[" + a + ", " + b + "]";
    var t := "[" + a + "," + (" " + b) + "]";
    assert s == t;
    assert Trim(a) == a by { TrimIdentity(a); }
    assert Trim(" " + b) == b by { TrimLeadingBlank(b); }
    assert New(t).values == [Trim(a), Trim(" " + b)] by { BracketPair(a, " " + b); }
  }
  lemma ExampleWordFacts(a: string, b: string, c: string)
    requires a == "Tools" && b == "Article" && c == "project-management"
    ensures ' ' !in a && ' ' !in b && ' ' !in c
    ensures '[' !in a && '[' !in b && '[' !in c
  {
  }

  /** The space-separated example: "Tools Article project-management" gives three tags. */
  lemma SpaceTagsExample(a: string, b: string, c: string)
    requires a == "Tools" && b == "Article" && c == "project-management"
    ensures New(a + " " + b + " " + c).values == ["Tools", "Article", "project-management"]
  {
    ExampleWordFacts(a, b, c);
    ThreeWords(a, b, c);
  }

  /** `write` drops the blank after the comma: "[Tools Article, project-management]". */
  lemma WriteExample(a: string, b: string)
    requires a == "Tools Article" && b == "project-management"
    ensures New("[" + a + ", " + b + "]").Write() == "[" + a + "," + b + "]"
  {
    ExampleTagFacts(a, b);
    SpacedPairWrite(a, b);
  }

  /** Reading "[a, b]" and writing it back drops the blank after the comma. */
  lemma SpacedPairWrite(a: string, b: string)
    requires ',' !in a && ',' !in b && a != "" && b != ""
    requires Trimmed(a) && Trimmed(b) && |a| > 1
    ensures New("[" + a + ", " + b + "]").Write() == "[" + a + "," + b + "]"
  {
    SpacedPair(a, b);
    assert Join([a, b], ",") == a + "," + b;
  }
}
