/**
 * The recently-used list as the task runners keep it: the cache text is
 * read with `lines`, filtered, and written back joined with '\n'.
 */
module TaskCache {
  import opened Strings
  import opened Mru

  /** `filter_cache_file`: the cache's lines other than `title`, in order. */
  function FilterCacheFile(recent: string, title: string): (r: seq<string>)
    ensures title !in r
    ensures forall y :: y != title ==> (y in r <==> y in Lines(recent))
  {
    Without(Lines(recent), title)
  }

  /** `purge_mru_cache` removes exactly the lines equal to `title`; every other line keeps its count. */
  lemma PurgeExact(recent: string, title: string, y: string)
    ensures multiset(FilterCacheFile(recent, title))[y] == if y == title then 0 else multiset(Lines(recent))[y]
  {
    WithoutCount(Lines(recent), title, y);
  }

  /**
   * `update_mru_cache` as written: the list filtered of the current title
   * is joined with '\n' and read again with `lines` before the old title is
   * filtered out.
   */
  function UpdateMruCache(recent: string, oldTitle: string, current: string): (r: seq<string>)
    ensures |r| >= 1 && r[0] == current
    ensures forall i :: 1 <= i < |r| ==> r[i] != oldTitle
  {
    var filtered := FilterCacheFile(recent, current);
    var filtered' := FilterCacheFile(Join(filtered, "\n"), oldTitle);
    var kept := if |filtered'| >= Capacity then filtered'[..|filtered'| - 1] else filtered';
    assert forall i :: 0 <= i < |kept| ==> kept[i] in filtered';
    [current] + kept
  }

  /** Two lines joined by one '\n': the first loses a trailing '\r', the second is kept whole. */
  lemma TwoLines(a: string, b: string)
    requires '\n' !in a && '\n' !in b && b != ""
    ensures Lines(a + "\n" + b) == [StripCR(a), b]
  {
    var s := a + "\n" + b;
    assert s == a + ['\n'] + b;
    ContainsChar(a, '\n');
    ContainsChar(b, '\n');
    CharSepFirst(a, '\n', b);
    NoOccurrenceSplit(b, "\n");
    assert Split(s, "\n") == [a, b];
    var ls := Lines(s);
    assert |ls| == 2 && ls[0] == StripCR(a) && ls[1] == b;
  }

  lemma JoinTwo(a: string, b: string)
    ensures Join([a, b], "\n") == a + "\n" + b
  {
    assert [a, b][1..] == [b];
  }

  lemma WithoutTwo(a: string, b: string, x: string)
    requires a != x && b != x
    ensures Without([a, b], x) == [a, b]
  {
    assert [a, b][1..] == [b];
    assert Without([b], x) == [b] + Without([], x);
  }

  /**
   * An entry "c\r" survives the first filter, and reading the joined text
   * back turns it into "c": the current title then appears twice.
   */
  lemma CurrentTitleTwice(c: string, x: string, oldTitle: string)
    requires c != "" && '\n' !in c && '\r' !in c && '\n' !in x && '\r' !in x && x != ""
    requires oldTitle != c && oldTitle != x && x != c
    ensures UpdateMruCache(c + "\r\r\n" + x, oldTitle, c) == [c, c, x]
  {
    var cr := c + "\r";
    var crr := c + "\r\r";
    assert c + "\r\r\n" + x == crr + "\n" + x;
    assert '\n' !in crr && '\n' !in cr;
    assert Lines(crr + "\n" + x) == [cr, x] by {
      TwoLines(crr, x);
      assert StripCR(crr) == cr;
    }
    assert cr != c by {
      assert |cr| == |c| + 1;
    }
    WithoutTwo(cr, x, c);
    JoinTwo(cr, x);
    assert Lines(cr + "\n" + x) == [c, x] by {
      TwoLines(cr, x);
      assert StripCR(cr) == c;
    }
    WithoutTwo(c, x, oldTitle);
  }

  /**
   * Without '\r' and empty lines in the cache the extra round trip through
   * `join` and `lines` changes nothing, and the update is the intended one.
   */
  lemma UpdateAgrees(recent: string, oldTitle: string, current: string)
    requires '\r' !in recent
    requires forall k :: 0 <= k < |Lines(recent)| ==> Lines(recent)[k] != ""
    ensures UpdateMruCache(recent, oldTitle, current) == Update(Lines(recent), oldTitle, current)
  {
    var f := FilterCacheFile(recent, current);
    RereadFiltered(recent, current);
    assert FilterCacheFile(Join(f, "\n"), oldTitle) == Without(Without(Lines(recent), current), oldTitle);
  }

  /** The filtered lines survive being joined with '\n' and read again. */
  lemma RereadFiltered(recent: string, current: string)
    requires '\r' !in recent
    requires forall k :: 0 <= k < |Lines(recent)| ==> Lines(recent)[k] != ""
    ensures Lines(Join(FilterCacheFile(recent, current), "\n")) == FilterCacheFile(recent, current)
  {
    var ls := Lines(recent);
    var f := FilterCacheFile(recent, current);
    LinesFree(recent, '\n');
    LinesFree(recent, '\r');
    assert forall k :: 0 <= k < |f| ==> f[k] in ls;
    LinesOfJoin(f);
  }
}
