/**
 * The build step's shared tables: the backlink/tag map, in which every
 * outlink and tag of a page names the pages that point at it, and the
 * recently-used list as the build library updates it.
 */
module References {
  import opened Strings
  import opened Mru
  import TaskCache

  /** The list kept under `key` so far, empty when the key is new. */
  function ListOf(m: map<string, seq<string>>, key: string): seq<string> {
    if key in m then m[key] else []
  }

  /** Appending `title` under each key in turn, creating `[title]` for new keys. */
  function AddAll(m: map<string, seq<string>>, keys: seq<string>, title: string): (r: map<string, seq<string>>)
    ensures forall k :: k in r <==> k in m || k in keys
    decreases |keys|
  {
    if keys == [] then m
    else AddAll(m[keys[0] := ListOf(m, keys[0]) + [title]], keys[1..], title)
  }

  lemma {:induction false} AddAllAppend(m: map<string, seq<string>>, xs: seq<string>, ys: seq<string>, title: string)
    ensures AddAll(m, xs + ys, title) == AddAll(AddAll(m, xs, title), ys, title)
    decreases |xs|
  {
    if xs == [] {
      assert xs + ys == ys;
    } else {
      assert (xs + ys)[1..] == xs[1..] + ys;
      AddAllAppend(m[xs[0] := ListOf(m, xs[0]) + [title]], xs[1..], ys, title);
    }
  }

  /** Adding under one key. */
  lemma AddOne(m: map<string, seq<string>>, key: string, title: string)
    ensures AddAll(m, [key], title) == m[key := ListOf(m, key) + [title]]
  {
    assert [key][1..] == [];
  }

  /** Adding under one more key of a list. */
  lemma AddNext(m: map<string, seq<string>>, keys: seq<string>, i: nat, title: string)
    requires i < |keys|
    ensures var p := AddAll(m, keys[..i], title);
            AddAll(m, keys[..i + 1], title) == p[keys[i] := ListOf(p, keys[i]) + [title]]
  {
    TakeSnoc(keys, i + 1);
    AddAllAppend(m, keys[..i], [keys[i]], title);
    AddOne(AddAll(m, keys[..i], title), keys[i], title);
  }

  /** `n` copies of `t`. */
  function Repeat(t: string, n: nat): (r: seq<string>)
    ensures |r| == n && forall i :: 0 <= i < n ==> r[i] == t
  {
    seq(n, _ => t)
  }

  /**
   * No deduplication: the list under `k` grows by `title` once per
   * occurrence of `k` among the keys, and a key not among them keeps its list.
   */
  lemma {:induction false} AddAllCount(m: map<string, seq<string>>, keys: seq<string>, title: string, k: string)
    ensures ListOf(AddAll(m, keys, title), k) == ListOf(m, k) + Repeat(title, multiset(keys)[k])
    decreases |keys|
  {
    if keys == [] {
      assert ListOf(m, k) + [] == ListOf(m, k);
    } else {
      var m' := m[keys[0] := ListOf(m, keys[0]) + [title]];
      AddAllCount(m', keys[1..], title, k);
      CountCons(keys, k);
      if keys[0] == k {
        assert ListOf(m', k) == ListOf(m, k) + [title];
        RepeatCons(title, multiset(keys[1..])[k]);
      } else {
        assert ListOf(m', k) == ListOf(m, k);
      }
    }
  }

  /** The occurrences of `k` in a list: those in its tail, and one more when it heads the list. */
  lemma CountCons<T>(s: seq<T>, k: T)
    requires s != []
    ensures multiset(s)[k] == multiset(s[1..])[k] + (if s[0] == k then 1 else 0)
  {
    assert s == [s[0]] + s[1..];
  }

  /** One more copy in front. */
  lemma RepeatCons(t: string, n: nat)
    ensures Repeat(t, n + 1) == [t] + Repeat(t, n)
  {
  }

  /** Keys named by no outlink and no tag keep their entry exactly. */
  lemma {:induction false} AddAllOthers(m: map<string, seq<string>>, keys: seq<string>, title: string, k: string)
    requires k !in keys
    ensures k in AddAll(m, keys, title) <==> k in m
    ensures k in m ==> AddAll(m, keys, title)[k] == m[k]
    decreases |keys|
  {
    if keys != [] {
      AddAllOthers(m[keys[0] := ListOf(m, keys[0]) + [title]], keys[1..], title, k);
    }
  }

  /** The global backlink map, shared by every page the build processes. */
  class Backlinks {
    var links: map<string, seq<string>>

    constructor()
      ensures links == map[]
    {
      links := map[];
    }

    /** The `match get_mut` of `build_global_store`: push onto the key's list, or insert `[title]` when the key is new. */
    method Push(key: string, title: string)
      modifies this`links
      ensures links == old(links)[key := ListOf(old(links), key) + [title]]
    {
      if key in links {
        links := links[key := links[key] + [title]];
      } else {
        assert ListOf(links, key) + [title] == [title];
        links := links[key := [title]];
      }
    }

    /** `build_global_store`: `title` is appended under each outlink, then under each tag. */
    method BuildGlobalStore(title: string, outlinks: seq<string>, tags: seq<string>)
      modifies this`links
      ensures links == AddAll(old(links), outlinks + tags, title)
    {
      var i := 0;
      while i < |outlinks|
        invariant 0 <= i <= |outlinks|
        invariant links == AddAll(old(links), outlinks[..i], title)
      {
        AddNext(old(links), outlinks, i, title);
        Push(outlinks[i], title);
        i := i + 1;
      }
      assert outlinks[..i] == outlinks;
      var j := 0;
      while j < |tags|
        invariant 0 <= j <= |tags|
        invariant links == AddAll(AddAll(old(links), outlinks, title), tags[..j], title)
      {
        AddNext(AddAll(old(links), outlinks, title), tags, j, title);
        Push(tags[j], title);
        j := j + 1;
      }
      assert tags[..j] == tags;
      AddAllAppend(old(links), outlinks, tags, title);
    }
  }

  /**
   * `update_mru_cache`: the current and old titles are filtered out of the
   * cache's lines, the last entry is popped when eight or more remain, and
   * the current title is inserted in front.
   */
  method UpdateMruCache(recent: string, oldTitle: string, current: string) returns (filtered: seq<string>)
    ensures filtered == Update(Lines(recent), oldTitle, current)
  {
    filtered := TaskCache.FilterCacheFile(recent, current);
    filtered := Without(filtered, oldTitle);
    if |filtered| >= Capacity {
      filtered := filtered[..|filtered| - 1];
    }
    filtered := [current] + filtered;
  }
}
