/** The D* Lite open list: a Python list of (key1, key2, point) tuples,
    compared lexicographically, kept with heapq and list.remove. */
module DStarQueue {
  import opened ExtReal
  import opened GridModel

  /** A priority (key1, key2). */
  datatype Key = Key(k1: Ext, k2: Ext)

  /** One queue item, the tuple (key1, key2, point). */
  datatype Entry = Entry(key: Key, point: Point)

  /** The key an empty queue reports: (inf, inf). */
  const TopOfEmpty := Key(Inf, Inf)

  /** Tuple order (a1, a2) < (b1, b2). */
  predicate KeyLt(a: Key, b: Key) {
    Lt(a.k1, b.k1) || (a.k1 == b.k1 && Lt(a.k2, b.k2))
  }

  /** Tuple order on (row, column). */
  predicate PointLt(p: Point, q: Point) {
    p.0 < q.0 || (p.0 == q.0 && p.1 < q.1)
  }

  /** Tuple order (k1, k2, point) <= (k1', k2', point'). */
  predicate EntryLe(a: Entry, b: Entry) {
    KeyLt(a.key, b.key) || (a.key == b.key && (PointLt(a.point, b.point) || a.point == b.point))
  }

  lemma EntryLeTotal(a: Entry, b: Entry)
    ensures EntryLe(a, b) || EntryLe(b, a)
  {
    LtTrichotomy(a.key.k1, b.key.k1);
    LtTrichotomy(a.key.k2, b.key.k2);
  }

  lemma EntryLeTransitive(a: Entry, b: Entry, c: Entry)
    requires EntryLe(a, b) && EntryLe(b, c)
    ensures EntryLe(a, c)
  {
  }

  /** The first element of the sorted list: the least entry. */
  function MinEntry(q: seq<Entry>): (e: Entry)
    requires q != []
    ensures e in q
    ensures forall x :: x in q ==> EntryLe(e, x)
  {
    if |q| == 1 then q[0]
    else
      var m := MinEntry(q[1..]);
      EntryLeTotal(q[0], m);
      assert q == [q[0]] + q[1..];
      if EntryLe(q[0], m) then
        assert forall x :: x in q[1..] ==> EntryLe(m, x) && EntryLe(q[0], x) by {
          forall x | x in q[1..] ensures EntryLe(q[0], x) { EntryLeTransitive(q[0], m, x); }
        }
        q[0]
      else
        m
  }

  /** [item for item in queue if item[2] == p] */
  function Entries(q: seq<Entry>, p: Point): (r: seq<Entry>)
    ensures |r| <= |q|
  {
    if q == [] then []
    else (if q[0].point == p then [q[0]] else []) + Entries(q[1..], p)
  }

  /** The entries of p are the members of q at point p. */
  lemma {:induction false} EntriesMembers(q: seq<Entry>, p: Point)
    ensures forall e {:trigger e in Entries(q, p)} :: e in Entries(q, p) <==> e in q && e.point == p
  {
    if q != [] {
      EntriesMembers(q[1..], p);
      assert q == [q[0]] + q[1..];
    }
  }

  /** list.remove(x): drop the first element equal to x. */
  function RemoveFirst(q: seq<Entry>, x: Entry): (r: seq<Entry>)
    requires x in q
    ensures |r| == |q| - 1
    ensures forall e {:trigger e in r} :: e in r ==> e in q
  {
    if q[0] == x then q[1..]
    else [q[0]] + RemoveFirst(q[1..], x)
  }

  /** list.remove(x) takes exactly one copy of x out of the queue. */
  lemma {:induction false} RemoveFirstMultiset(q: seq<Entry>, x: Entry)
    requires x in q
    ensures multiset(RemoveFirst(q, x)) == multiset(q) - multiset{x}
  {
    assert q == [q[0]] + q[1..];
    if q[0] != x {
      RemoveFirstMultiset(q[1..], x);
    }
  }

  lemma {:induction false} EntriesAppend(a: seq<Entry>, b: seq<Entry>, p: Point)
    ensures Entries(a + b, p) == Entries(a, p) + Entries(b, p)
  {
    if a == [] {
      assert a + b == b;
    } else {
      assert (a + b)[1..] == a[1..] + b;
      EntriesAppend(a[1..], b, p);
    }
  }

  /** heappush appends: the pushed entry joins the entries of its own point. */
  lemma EntriesPush(q: seq<Entry>, e: Entry, p: Point)
    ensures Entries(q + [e], p) == Entries(q, p) + (if e.point == p then [e] else [])
  {
    EntriesAppend(q, [e], p);
    assert [e][1..] == [];
  }

  /** Removing one entry leaves the entries of every other point as they were,
      and removes that entry among the entries of its own point. */
  lemma {:induction false} EntriesRemoveFirst(q: seq<Entry>, x: Entry, p: Point)
    requires x in q
    ensures x.point == p ==> x in Entries(q, p)
    ensures Entries(RemoveFirst(q, x), p) ==
            if x.point == p then RemoveFirst(Entries(q, p), x) else Entries(q, p)
  {
    EntriesMembers(q, p);
    var r := RemoveFirst(q, x);
    var head := if q[0].point == p then [q[0]] else [];
    assert Entries(q, p) == head + Entries(q[1..], p);
    if q[0] == x {
      assert r == q[1..];
      if x.point == p {
        assert Entries(q, p) == [x] + Entries(q[1..], p);
        assert RemoveFirst([x] + Entries(q[1..], p), x) == Entries(q[1..], p);
      }
    } else {
      var t := RemoveFirst(q[1..], x);
      EntriesRemoveFirst(q[1..], x, p);
      assert r == [q[0]] + t;
      assert r[1..] == t;
      assert Entries(r, p) == head + Entries(t, p);
      if x.point == p {
        var eq := Entries(q[1..], p);
        EntriesMembers(q[1..], p);
        assert x in eq;
        if q[0].point == p {
          assert Entries(q, p) == [q[0]] + eq;
          assert RemoveFirst([q[0]] + eq, x) == [q[0]] + RemoveFirst(eq, x);
        } else {
          assert Entries(q, p) == eq;
        }
      }
    }
  }

  /** Every queue entry carries a finite key. */
  ghost predicate FiniteKeys(q: seq<Entry>) {
    forall e :: e in q ==> e.key.k1.Fin? && e.key.k2.Fin?
  }

  /** top_key(): the least key, or (inf, inf) for an empty queue. */
  function TopKey(q: seq<Entry>): (k: Key)
    ensures q == [] ==> k == TopOfEmpty
    ensures q != [] ==> exists e :: e in q && e.key == k
    ensures forall e :: e in q ==> !KeyLt(e.key, k)
    ensures FiniteKeys(q) ==> (k == TopOfEmpty <==> q == [])
  {
    if q == [] then TopOfEmpty else MinEntry(q).key
  }
}
