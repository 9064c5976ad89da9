/**
 * Tables as maps from primary key to row, and the scan / filter / project
 * pipeline that every SELECT of the library store is built from.
 */
module Relational {
  import opened Ordering

  /** A result row together with the primary key of the table row it came from. */
  datatype Keyed<R> = Keyed(id: int, row: R)

  /** Every key of `t` lies in 1..last: the ids an AUTOINCREMENT counter has handed out. */
  ghost predicate KeysUpTo<T>(t: map<int, T>, last: int)
  {
    forall k :: k in t ==> 1 <= k <= last
  }

  /** `e` is the projection of a row of `t` that passes `keep`. */
  ghost predicate Picked<T, R>(e: Keyed<R>, t: map<int, T>, keep: (int, T) -> bool, proj: (int, T) -> R)
  {
    e.id in t && keep(e.id, t[e.id]) && e.row == proj(e.id, t[e.id])
  }

  /**
   * `r` lists the rows of `t` that pass `keep`, each exactly once, projected by
   * `proj`: the result of `SELECT proj FROM t WHERE keep` in some order.
   */
  ghost predicate Lists<T, R>(r: seq<Keyed<R>>, t: map<int, T>, keep: (int, T) -> bool, proj: (int, T) -> R)
  {
    && (forall i :: 0 <= i < |r| ==> Picked(r[i], t, keep, proj))
    && (forall k :: k in t && keep(k, t[k]) ==> exists i :: 0 <= i < |r| && r[i].id == k)
    && (forall i, j :: 0 <= i < j < |r| ==> r[i].id != r[j].id)
  }

  /** A scan of the keys lo..hi of `t` in ascending key order (a rowid scan), keeping and projecting rows. */
  function Select<T, R>(t: map<int, T>, lo: int, hi: int, keep: (int, T) -> bool, proj: (int, T) -> R): (r: seq<Keyed<R>>)
    ensures forall i :: 0 <= i < |r| ==> lo <= r[i].id <= hi && Picked(r[i], t, keep, proj)
    ensures forall k :: lo <= k <= hi && k in t && keep(k, t[k]) ==> exists i :: 0 <= i < |r| && r[i].id == k
    ensures forall i, j :: 0 <= i < j < |r| ==> r[i].id < r[j].id
    decreases hi - lo
  {
    if hi < lo then []
    else
      var rest := Select(t, lo, hi - 1, keep, proj);
      if hi in t && keep(hi, t[hi]) then
        var r := rest + [Keyed(hi, proj(hi, t[hi]))];
        assert forall i :: 0 <= i < |rest| ==> r[i] == rest[i];
        assert r[|rest|].id == hi;
        r
      else rest
  }

  lemma {:induction false} CountAtMostOne<T>(s: seq<T>)
    requires forall i, j :: 0 <= i < j < |s| ==> s[i] != s[j]
    ensures forall x :: multiset(s)[x] <= 1
  {
    if |s| != 0 {
      CountAtMostOne(s[1..]);
      assert s == [s[0]] + s[1..];
      assert s[0] !in s[1..];
    }
  }

  lemma CountAtLeastTwo<T>(s: seq<T>, i: int, j: int)
    requires 0 <= i < j < |s| && s[i] == s[j]
    ensures multiset(s)[s[i]] >= 2
  {
    assert s == s[..i] + [s[i]] + s[i + 1..j] + [s[j]] + s[j + 1..];
  }

  /** A listing stays a listing under any reordering of its rows. */
  lemma {:induction false} PermutedLists<T, R>(r: seq<Keyed<R>>, r': seq<Keyed<R>>, t: map<int, T>,
                                               keep: (int, T) -> bool, proj: (int, T) -> R)
    requires Lists(r, t, keep, proj)
    requires multiset(r') == multiset(r)
    ensures Lists(r', t, keep, proj)
  {
    forall i | 0 <= i < |r'|
      ensures Picked(r'[i], t, keep, proj)
    {
      assert r'[i] in multiset(r);
      var k :| 0 <= k < |r| && r[k] == r'[i];
    }
    forall k | k in t && keep(k, t[k])
      ensures exists i :: 0 <= i < |r'| && r'[i].id == k
    {
      var i :| 0 <= i < |r| && r[i].id == k;
      assert r[i] in multiset(r');
      var i' :| 0 <= i' < |r'| && r'[i'] == r[i];
    }
    assert forall i, j :: 0 <= i < j < |r| ==> r[i] != r[j];
    CountAtMostOne(r);
    forall i, j | 0 <= i < j < |r'|
      ensures r'[i].id != r'[j].id
    {
      if r'[i].id == r'[j].id {
        assert Picked(r'[i], t, keep, proj) && Picked(r'[j], t, keep, proj);
        assert r'[i] == r'[j];
        CountAtLeastTwo(r', i, j);
        assert false;
      }
    }
  }

  /** The keys a listing mentions. */
  function IdsOf<R>(r: seq<Keyed<R>>): set<int>
  {
    set i | 0 <= i < |r| :: r[i].id
  }

  lemma {:induction false} DistinctIdsCount<R>(r: seq<Keyed<R>>)
    requires forall i, j :: 0 <= i < j < |r| ==> r[i].id != r[j].id
    ensures |IdsOf(r)| == |r|
  {
    if |r| != 0 {
      var p := r[..|r| - 1];
      DistinctIdsCount(p);
      assert IdsOf(r) == IdsOf(p) + {r[|r| - 1].id};
      assert r[|r| - 1].id !in IdsOf(p);
    }
  }

  /** Rows with distinct keys that name exactly the keys in `ids` number |ids|. */
  lemma {:induction false} ListingSize<R>(r: seq<Keyed<R>>, ids: set<int>)
    requires forall i :: 0 <= i < |r| ==> r[i].id in ids
    requires forall k :: k in ids ==> exists i :: 0 <= i < |r| && r[i].id == k
    requires forall i, j :: 0 <= i < j < |r| ==> r[i].id != r[j].id
    ensures IdsOf(r) == ids
    ensures |r| == |ids|
  {
    forall k | k in ids
      ensures k in IdsOf(r)
    {
      var i :| 0 <= i < |r| && r[i].id == k;
    }
    DistinctIdsCount(r);
  }

  /**
   * `SELECT proj FROM t WHERE keep ORDER BY le`: the scan over 1..last, sorted.
   * Rows that tie under `le` stay in key order.
   */
  function OrderedSelect<T, R(!new)>(t: map<int, T>, last: int, keep: (int, T) -> bool, proj: (int, T) -> R,
                                     le: (Keyed<R>, Keyed<R>) -> bool): (r: seq<Keyed<R>>)
    requires KeysUpTo(t, last)
    ensures Lists(r, t, keep, proj)
    ensures TotalPreorder(le) ==> Sorted(r, le)
  {
    var rows := Select(t, 1, last, keep, proj);
    var r := SortBy(rows, le);
    PermutedLists(rows, r, t, keep, proj);
    SortBySorted(rows, le);
    r
  }
}
