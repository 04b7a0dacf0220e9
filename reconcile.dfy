/** The key-level core of expansion, shared by the collection, patient and series
    levels: the duplicate check on a listing, the split of natural keys into new,
    existing and retired, and the keys of a parent's children afterwards. */
module Reconcile {
  import opened Common
  import opened Sorting

  function Elems<T>(s: seq<T>): set<T>
  {
    set x | x in s
  }

  predicate Distinct<T(==)>(s: seq<T>)
  {
    forall i, j :: 0 <= i < j < |s| ==> s[i] != s[j]
  }

  function Filter<T>(s: seq<T>, f: T -> bool): seq<T>
  {
    if s == [] then [] else (if f(s[0]) then [s[0]] else []) + Filter(s[1..], f)
  }

  function Map<A, B>(s: seq<A>, g: A -> B): (r: seq<B>)
    ensures |r| == |s| && forall i :: 0 <= i < |s| ==> r[i] == g(s[i])
  {
    seq(|s|, i requires 0 <= i < |s| => g(s[i]))
  }

  lemma DistinctCons<T>(s: seq<T>)
    requires s != []
    ensures Distinct(s) <==> s[0] !in s[1..] && Distinct(s[1..])
  {
    if s[0] in s[1..] {
      var k :| 0 <= k < |s[1..]| && s[1..][k] == s[0];
      assert s[k + 1] == s[0];
    }
    if s[0] !in s[1..] && Distinct(s[1..]) {
      forall i, j | 0 <= i < j < |s|
        ensures s[i] != s[j]
      {
        if i > 0 {
          assert s[i] == s[1..][i - 1] && s[j] == s[1..][j - 1];
        } else {
          assert s[j] == s[1..][j - 1];
        }
      }
    }
  }

  lemma {:induction false} CardinalityBound<T>(s: seq<T>)
    ensures |Elems(s)| <= |s|
  {
    if s != [] {
      CardinalityBound(s[1..]);
      assert Elems(s) == {s[0]} + Elems(s[1..]);
    }
  }

  /** `len(ids) != len(set(ids))` is exactly "some key is repeated". */
  lemma {:induction false} DistinctIffCardinality<T>(s: seq<T>)
    ensures Distinct(s) <==> |Elems(s)| == |s|
  {
    if s != [] {
      DistinctIffCardinality(s[1..]);
      DistinctCons(s);
      CardinalityBound(s[1..]);
      assert Elems(s) == {s[0]} + Elems(s[1..]);
      if s[0] in s[1..] {
        assert Elems(s) == Elems(s[1..]);
      } else {
        assert s[0] !in Elems(s[1..]);
      }
    }
  }

  /** The duplicate check every expand_* runs on the listing before touching anything. */
  function HasDuplicates(ids: seq<Key>): (r: bool)
    ensures r <==> exists i, j :: 0 <= i < j < |ids| && ids[i] == ids[j]
  {
    DistinctIffCardinality(ids);
    |ids| != |Elems(ids)|
  }

  lemma {:induction false} FilterMembers<T>(s: seq<T>, f: T -> bool)
    ensures forall x :: x in Filter(s, f) <==> x in s && f(x)
  {
    if s != [] {
      FilterMembers(s[1..], f);
      assert s == [s[0]] + s[1..];
    }
  }

  lemma {:induction false} FilterDistinct<T>(s: seq<T>, f: T -> bool)
    requires Distinct(s)
    ensures Distinct(Filter(s, f))
  {
    if s != [] {
      DistinctCons(s);
      FilterDistinct(s[1..], f);
      FilterMembers(s[1..], f);
      var t := Filter(s[1..], f);
      if f(s[0]) {
        assert Filter(s, f) == [s[0]] + t;
        DistinctCons([s[0]] + t);
        assert ([s[0]] + t)[1..] == t;
      }
    }
  }

  lemma {:induction false} FilterAll<T>(s: seq<T>, f: T -> bool)
    requires forall x :: x in s ==> f(x)
    ensures Filter(s, f) == s
  {
    if s != [] {
      FilterAll(s[1..], f);
      assert s == [s[0]] + s[1..];
    }
  }

  lemma {:induction false} FilterCongruent<T>(s: seq<T>, f: T -> bool, g: T -> bool)
    requires forall x :: x in s ==> f(x) == g(x)
    ensures Filter(s, f) == Filter(s, g)
  {
    if s != [] {
      FilterCongruent(s[1..], f, g);
    }
  }

  /** Filtering, then reading a field, is reading the field, then filtering on it. */
  lemma {:induction false} MapFilter<A, B>(s: seq<A>, f: A -> bool, g: A -> B, h: B -> bool)
    requires forall x :: x in s ==> f(x) == h(g(x))
    ensures Map(Filter(s, f), g) == Filter(Map(s, g), h)
  {
    if s != [] {
      var head: seq<A> := if f(s[0]) then [s[0]] else [];
      var ms := Map(s, g);
      MapFilter(s[1..], f, g, h);
      assert Filter(s, f) == head + Filter(s[1..], f);
      MapConcat(head, Filter(s[1..], f), g);
      assert Map(head, g) == if h(ms[0]) then [ms[0]] else [];
      assert ms[1..] == Map(s[1..], g);
      assert Filter(ms, h) == (if h(ms[0]) then [ms[0]] else []) + Filter(ms[1..], h);
    }
  }

  lemma DistinctConcat<T>(a: seq<T>, b: seq<T>)
    ensures Distinct(a + b) <==> Distinct(a) && Distinct(b) && Elems(a) !! Elems(b)
  {
    if Distinct(a + b) {
      assert a == (a + b)[..|a|];
      forall i, j | 0 <= i < j < |b|
        ensures b[i] != b[j]
      {
        assert b[i] == (a + b)[|a| + i] && b[j] == (a + b)[|a| + j];
      }
      forall i, j | 0 <= i < |a| && 0 <= j < |b|
        ensures a[i] != b[j]
      {
        assert a[i] == (a + b)[i] && b[j] == (a + b)[|a| + j];
      }
    }
    if Distinct(a) && Distinct(b) && Elems(a) !! Elems(b) {
      forall i, j | 0 <= i < j < |a + b|
        ensures (a + b)[i] != (a + b)[j]
      {
        if j < |a| {
        } else if i >= |a| {
          assert (a + b)[i] == b[i - |a|] && (a + b)[j] == b[j - |a|];
        } else {
          assert (a + b)[i] in Elems(a) && (a + b)[j] in Elems(b);
        }
      }
    }
  }

  /** Sorting keeps the elements, the length and distinctness. */
  lemma SortKeeps(s: seq<Key>)
    ensures Elems(Sort(s)) == Elems(s) && |Sort(s)| == |s|
    ensures Distinct(Sort(s)) <==> Distinct(s)
    ensures SortedBy(Sort(s), Ident)
  {
    SortBySortsAndPermutes(s, Ident);
    var t := Sort(s);
    assert |t| == |multiset(t)| == |multiset(s)| == |s|;
    forall x
      ensures x in t <==> x in s
    {
      assert x in t <==> x in multiset(t);
      assert x in s <==> x in multiset(s);
    }
    DistinctIffCardinality(s);
    DistinctIffCardinality(t);
  }

  /** `s.index(x)`: the first position holding x. */
  function IndexOf<T(==)>(s: seq<T>, x: T): (i: nat)
    requires x in s
    ensures i < |s| && s[i] == x && forall j :: 0 <= j < i ==> s[j] != x
  {
    if s[0] == x then 0 else 1 + IndexOf(s[1..], x)
  }

  /** `list.remove(x)`: drops the first occurrence of x (the model leaves the list
      unchanged where Python raises, which no caller reaches). */
  function RemoveFirst<T(==)>(s: seq<T>, x: T): seq<T>
  {
    if s == [] then [] else if s[0] == x then s[1..] else [s[0]] + RemoveFirst(s[1..], x)
  }

  /** The children of s that are not in R, in order. */
  function Without<T(==)>(s: seq<T>, R: set<T>): seq<T>
  {
    Filter(s, x => x !in R)
  }

  /** The elements of s that are in `keep`, in order. */
  function Among<T(==)>(s: seq<T>, keep: set<T>): seq<T>
  {
    Filter(s, x => x in keep)
  }

  lemma AmongSnoc<T>(s: seq<T>, x: T, keep: set<T>)
    ensures Among(s + [x], keep) == Among(s, keep) + (if x in keep then [x] else [])
  {
    FilterSnoc(s, x, y => y in keep);
  }

  /** Walking a repeat-free key list one key further adds that key to the keys
      handled and, when it is in `changed`, to the changed keys seen. */
  lemma PrefixStep(keys: seq<Key>, k: nat, changed: set<Key>)
    requires Distinct(keys) && k < |keys|
    ensures keys[k] !in Elems(keys[..k]) && Elems(keys[..k + 1]) == Elems(keys[..k]) + {keys[k]}
    ensures Among(keys[..k + 1], changed) == Among(keys[..k], changed) + (if keys[k] in changed then [keys[k]] else [])
  {
    assert keys[..k + 1] == keys[..k] + [keys[k]];
    AmongSnoc(keys[..k], keys[k], changed);
  }

  lemma WithoutMember<T>(s: seq<T>, R: set<T>, x: T)
    ensures x in Without(s, R) <==> x in s && x !in R
  {
    FilterMembers(s, x => x !in R);
  }

  lemma {:induction false} WithoutNothing<T>(s: seq<T>)
    ensures Without(s, {}) == s
  {
    if s != [] {
      WithoutNothing(s[1..]);
    }
  }

  lemma {:induction false} FilterSnoc<T>(s: seq<T>, x: T, f: T -> bool)
    ensures Filter(s + [x], f) == Filter(s, f) + (if f(x) then [x] else [])
  {
    if s == [] {
      assert [x][1..] == [];
    } else {
      FilterSnoc(s[1..], x, f);
      assert (s + [x])[1..] == s[1..] + [x];
    }
  }

  lemma MapConcat<A, B>(a: seq<A>, b: seq<A>, g: A -> B)
    ensures Map(a + b, g) == Map(a, g) + Map(b, g)
  {
  }

  /** Removing a child that is still in the list, after the children that stay and
      before the appended ones, is adding it to the removed set. */
  lemma {:induction false} RemoveFirstWithout<T>(held: seq<T>, R: set<T>, tail: seq<T>, x: T)
    requires Distinct(held) && x in held && x !in R && x !in tail
    ensures RemoveFirst(Without(held, R) + tail, x) == Without(held, R + {x}) + tail
  {
    DistinctCons(held);
    var w := Without(held, R);
    if held[0] == x {
      FilterCongruent(held[1..], y => y !in R + {x}, y => y !in R);
      assert w + tail == [x] + (Without(held[1..], R) + tail);
    } else {
      RemoveFirstWithout(held[1..], R, tail, x);
      if held[0] in R {
        assert w == Without(held[1..], R);
      } else {
        assert w + tail == [held[0]] + (Without(held[1..], R) + tail);
      }
    }
  }

  /** Children with distinct natural keys are distinct rows. */
  lemma DistinctKeysDistinctRows<T>(s: seq<T>, key: T -> Key)
    requires Distinct(Map(s, key))
    ensures Distinct(s)
    ensures forall i, j :: 0 <= i < |s| && 0 <= j < |s| && key(s[i]) == key(s[j]) ==> i == j
  {
    var m := Map(s, key);
    forall i, j | 0 <= i < |s| && 0 <= j < |s| && key(s[i]) == key(s[j])
      ensures i == j
    {
      assert m[i] == m[j];
    }
  }

  /** The rows of `held` whose keys are in `keys`. */
  ghost function RowsKeyedBy<T>(held: seq<T>, key: T -> Key, keys: set<Key>): set<T>
  {
    set x | x in held && key(x) in keys
  }

  lemma RowsKeyedByUnion<T>(held: seq<T>, key: T -> Key, a: set<Key>, b: set<Key>)
    ensures RowsKeyedBy(held, key, a) + RowsKeyedBy(held, key, b) == RowsKeyedBy(held, key, a + b)
  {
  }

  /** The held rows the revising pass has replaced so far: handled and revised. */
  ghost function SupersededRows<T>(held: seq<T>, key: T -> Key, handled: set<Key>, changed: set<Key>): set<T>
  {
    set x | x in held && key(x) in handled && key(x) in changed
  }

  /** Dropping the rows of two key sets one after the other drops the rows of their union. */
  lemma WithoutRowsKeyedBy<T>(held: seq<T>, key: T -> Key, a: set<Key>, b: set<Key>)
    ensures Without(held, RowsKeyedBy(held, key, a) + RowsKeyedBy(held, key, b))
         == Without(held, RowsKeyedBy(held, key, b + a))
  {
    RowsKeyedByUnion(held, key, a, b);
    assert a + b == b + a;
  }

  lemma SupersededAll<T>(held: seq<T>, key: T -> Key, handled: set<Key>, changed: set<Key>)
    requires changed <= handled
    ensures SupersededRows(held, key, handled, changed) == RowsKeyedBy(held, key, changed)
  {
  }

  lemma SupersededStep<T>(held: seq<T>, key: T -> Key, handled: set<Key>, changed: set<Key>, s: T)
    requires Distinct(Map(held, key)) && s in held && key(s) !in handled
    ensures s !in SupersededRows(held, key, handled, changed)
    ensures SupersededRows(held, key, handled + {key(s)}, changed)
            == SupersededRows(held, key, handled, changed) + (if key(s) in changed then {s} else {})
  {
    DistinctKeysDistinctRows(held, key);
  }

  /** Dropping a revised held row from the list adds it to the superseded rows. */
  lemma SupersedeShape<T>(held: seq<T>, key: T -> Key, handled: set<Key>, changed: set<Key>, s: T, rest: seq<T>)
    requires Distinct(Map(held, key)) && s in held && s !in rest
    requires key(s) !in handled && key(s) in changed
    ensures RemoveFirst(Without(held, SupersededRows(held, key, handled, changed)) + rest, s)
            == Without(held, SupersededRows(held, key, handled + {key(s)}, changed)) + rest
  {
    SupersededStep(held, key, handled, changed, s);
    DistinctKeysDistinctRows(held, key);
    RemoveFirstWithout(held, SupersededRows(held, key, handled, changed), rest, s);
  }

  /** The three groups expand_* walks: keys to create, keys held and reported
      (compared), and keys held but no longer reported (retired); each sorted. */
  datatype Split = Split(created: seq<Key>, existing: seq<Key>, retired: seq<Key>)

  /** If the parent is new every reported key is new and nothing is compared or
      retired; otherwise the listing is split against the keys held. */
  function Partition(isNew: bool, held: seq<Key>, reported: seq<Key>): Split
  {
    if isNew then Split(Sort(reported), [], [])
    else
      Split(Sort(Filter(reported, k => k !in held)),
            Sort(Filter(held, k => k in reported)),
            Sort(Filter(held, k => k !in reported)))
  }

  /** new = reported \ held, existing = held ∩ reported, retired = held \ reported:
      pairwise disjoint, covering both, each sorted and free of repeats. */
  lemma PartitionSplits(held: seq<Key>, reported: seq<Key>)
    requires Distinct(held) && Distinct(reported)
    ensures var sp := Partition(false, held, reported);
      && Elems(sp.created) == Elems(reported) - Elems(held)
      && Elems(sp.existing) == Elems(held) * Elems(reported)
      && Elems(sp.retired) == Elems(held) - Elems(reported)
      && Elems(sp.created) !! Elems(sp.existing) && Elems(sp.created) !! Elems(sp.retired)
      && Elems(sp.existing) !! Elems(sp.retired)
      && Elems(sp.created) + Elems(sp.existing) + Elems(sp.retired) == Elems(reported) + Elems(held)
      && Distinct(sp.created) && Distinct(sp.existing) && Distinct(sp.retired)
      && SortedBy(sp.created, Ident) && SortedBy(sp.existing, Ident) && SortedBy(sp.retired, Ident)
  {
    var fn := (k: Key) => k !in held;
    var fe := (k: Key) => k in reported;
    var fr := (k: Key) => k !in reported;
    FilterMembers(reported, fn);
    FilterMembers(held, fe);
    FilterMembers(held, fr);
    FilterDistinct(reported, fn);
    FilterDistinct(held, fe);
    FilterDistinct(held, fr);
    SortKeeps(Filter(reported, fn));
    SortKeeps(Filter(held, fe));
    SortKeeps(Filter(held, fr));
    var sp := Partition(false, held, reported);
    assert sp == Split(Sort(Filter(reported, fn)), Sort(Filter(held, fe)), Sort(Filter(held, fr)));
    assert Elems(sp.created) == Elems(reported) - Elems(held);
    assert Elems(sp.existing) == Elems(held) * Elems(reported);
    assert Elems(sp.retired) == Elems(held) - Elems(reported);
    SplitSets(Elems(held), Elems(reported), Elems(sp.created), Elems(sp.existing), Elems(sp.retired));
  }

  /** Set algebra of the key split: the three parts are disjoint and cover both lists. */
  lemma SplitSets(held: set<Key>, reported: set<Key>, created: set<Key>, existing: set<Key>,
                  retired: set<Key>)
    requires created == reported - held && existing == held * reported && retired == held - reported
    ensures created !! existing && created !! retired && existing !! retired
    ensures created + existing + retired == reported + held
  {
  }

  /** For a new parent the whole listing, sorted, is new. */
  lemma PartitionOfNew(held: seq<Key>, reported: seq<Key>)
    requires Distinct(reported)
    ensures var sp := Partition(true, held, reported);
      && sp.existing == [] && sp.retired == []
      && Elems(sp.created) == Elems(reported) && Distinct(sp.created) && SortedBy(sp.created, Ident)
  {
    SortKeeps(reported);
  }

  /** Whatever the parent's state, existing and vanished keys are held keys, occur
      once each and are disjoint. */
  lemma PartitionHeld(isNew: bool, held: seq<Key>, reported: seq<Key>)
    requires Distinct(held) && Distinct(reported)
    ensures var sp := Partition(isNew, held, reported);
      && (forall k :: k in sp.existing ==> k in held)
      && (forall k :: k in sp.retired ==> k in held)
      && Distinct(sp.existing) && Distinct(sp.retired) && Elems(sp.existing) !! Elems(sp.retired)
  {
    if isNew {
      PartitionOfNew(held, reported);
    } else {
      PartitionSplits(held, reported);
      var sp := Partition(isNew, held, reported);
      forall k | k in sp.existing ensures k in held {
        assert k in Elems(sp.existing);
      }
      forall k | k in sp.retired ensures k in held {
        assert k in Elems(sp.retired);
      }
    }
  }

  /** The natural keys of the parent's children after expansion, in list order: the
      children kept (old order), then the new ones, then the clones of the revised
      ones; `changed` holds the existing keys whose hashes differ from the source. */
  function Reconciled(held: seq<Key>, sp: Split, changed: set<Key>): seq<Key>
  {
    Filter(held, k => k !in sp.retired && !(k in sp.existing && k in changed))
      + sp.created
      + Among(sp.existing, changed)
  }

  /** After expanding a parent that is not new, its children carry exactly the
      reported keys, each once, whatever was revised. */
  lemma ReconciledMatchesListing(held: seq<Key>, reported: seq<Key>, changed: set<Key>)
    requires Distinct(held) && Distinct(reported)
    ensures var r := Reconciled(held, Partition(false, held, reported), changed);
      Distinct(r) && Elems(r) == Elems(reported)
  {
    var sp := Partition(false, held, reported);
    PartitionSplits(held, reported);
    var fk := (k: Key) => k !in sp.retired && !(k in sp.existing && k in changed);
    var fc := (k: Key) => k in changed;
    assert Among(sp.existing, changed) == Filter(sp.existing, fc);
    assert Reconciled(held, sp, changed) == Filter(held, fk) + sp.created + Filter(sp.existing, fc);
    ReconciledDistinct(held, reported, sp, changed, fk, fc);
    ReconciledElems(held, reported, sp, changed, fk, fc);
  }

  lemma ReconciledDistinct(held: seq<Key>, reported: seq<Key>, sp: Split, changed: set<Key>,
                           fk: Key -> bool, fc: Key -> bool)
    requires Distinct(held) && Distinct(sp.created) && Distinct(sp.existing)
    requires Elems(sp.created) == Elems(reported) - Elems(held)
    requires Elems(sp.existing) == Elems(held) * Elems(reported)
    requires forall k :: fk(k) == (k !in sp.retired && !(k in sp.existing && k in changed))
    requires forall k :: fc(k) == (k in changed)
    ensures Distinct(Filter(held, fk) + sp.created + Filter(sp.existing, fc))
  {
    var kept := Filter(held, fk);
    var revised := Filter(sp.existing, fc);
    FilterMembers(held, fk);
    FilterMembers(sp.existing, fc);
    FilterDistinct(held, fk);
    FilterDistinct(sp.existing, fc);
    assert Elems(kept) <= Elems(held) && Elems(kept) !! Elems(sp.existing) * changed;
    assert Elems(revised) <= Elems(sp.existing) * changed;
    DistinctConcat(kept, sp.created);
    assert Distinct(kept + sp.created);
    ElemsConcat(kept, sp.created);
    assert Elems(kept + sp.created) !! Elems(revised);
    DistinctConcat(kept + sp.created, revised);
  }

  lemma ReconciledElems(held: seq<Key>, reported: seq<Key>, sp: Split, changed: set<Key>,
                        fk: Key -> bool, fc: Key -> bool)
    requires Elems(sp.created) == Elems(reported) - Elems(held)
    requires Elems(sp.existing) == Elems(held) * Elems(reported)
    requires Elems(sp.retired) == Elems(held) - Elems(reported)
    requires forall k :: fk(k) == (k !in sp.retired && !(k in sp.existing && k in changed))
    requires forall k :: fc(k) == (k in changed)
    ensures Elems(Filter(held, fk) + sp.created + Filter(sp.existing, fc)) == Elems(reported)
  {
    var kept := Filter(held, fk);
    var revised := Filter(sp.existing, fc);
    FilterMembers(held, fk);
    FilterMembers(sp.existing, fc);
    assert Elems(kept) == Elems(held) - Elems(sp.retired) - Elems(sp.existing) * changed;
    assert Elems(revised) == Elems(sp.existing) * changed;
    ElemsConcat(kept, sp.created);
    ElemsConcat(kept + sp.created, revised);
    CoverReported(Elems(held), Elems(reported), Elems(sp.created), Elems(sp.existing), Elems(sp.retired), changed);
  }

  lemma ElemsConcat<T>(a: seq<T>, b: seq<T>)
    ensures Elems(a + b) == Elems(a) + Elems(b)
  {
  }

  /** Set algebra of the key split: kept, new and revised keys make up the listing. */
  lemma CoverReported(held: set<Key>, reported: set<Key>, created: set<Key>, existing: set<Key>,
                      retired: set<Key>, changed: set<Key>)
    requires created == reported - held && existing == held * reported && retired == held - reported
    ensures (held - retired - existing * changed) + created + existing * changed == reported
  {
  }

  /** After expanding a new parent, the children are the ones it held followed by
      the whole listing, sorted; no key repeats when it held none of them. */
  lemma ReconciledWhenNew(held: seq<Key>, reported: seq<Key>, changed: set<Key>)
    requires Distinct(held) && Distinct(reported) && Elems(held) !! Elems(reported)
    ensures var r := Reconciled(held, Partition(true, held, reported), changed);
      r == held + Sort(reported) && Distinct(r) && Elems(r) == Elems(held) + Elems(reported)
  {
    var sp := Partition(true, held, reported);
    PartitionOfNew(held, reported);
    FilterAll(held, k => k !in sp.retired && !(k in sp.existing && k in changed));
    assert Among(sp.existing, changed) == [];
    DistinctConcat(held, sp.created);
  }

  /** The keys of the list expansion leaves behind: the held children not removed,
      then the created ones, then the clones, are the keys Reconciled describes. */
  lemma KeysAfterExpand<T>(held: seq<T>, key: T -> Key, removed: set<T>, created: seq<T>,
                           clones: seq<T>, sp: Split, changed: set<Key>)
    requires forall x :: x in held ==>
      (x in removed <==> key(x) in sp.retired || (key(x) in sp.existing && key(x) in changed))
    requires Map(created, key) == sp.created
    requires Map(clones, key) == Among(sp.existing, changed)
    ensures Map(Without(held, removed) + created + clones, key) == Reconciled(Map(held, key), sp, changed)
  {
    var h := (k: Key) => k !in sp.retired && !(k in sp.existing && k in changed);
    MapFilter(held, x => x !in removed, key, h);
    MapConcat(Without(held, removed), created, key);
    MapConcat(Without(held, removed) + created, clones, key);
    FilterCongruent(Map(held, key), h, k => k !in sp.retired && !(k in sp.existing && k in changed));
  }

  /** The rows the three passes leave carry exactly the reconciled keys, and each is
      a held row, a created one or a clone. */
  lemma ReconciledRows<T>(held: seq<T>, key: T -> Key, sp: Split, changed: set<Key>,
                          created: seq<T>, clones: seq<T>)
    requires changed <= Elems(sp.existing)
    requires Map(created, key) == sp.created && Map(clones, key) == Among(sp.existing, changed)
    ensures var rows := Without(held, RowsKeyedBy(held, key, Elems(sp.retired) + changed)) + (created + clones);
      && rows == Without(held, RowsKeyedBy(held, key, Elems(sp.retired) + changed)) + created + clones
      && Map(rows, key) == Reconciled(Map(held, key), sp, changed)
      && forall x :: x in rows ==> x in held || x in created || x in clones
  {
    var removed := RowsKeyedBy(held, key, Elems(sp.retired) + changed);
    assert Without(held, removed) + (created + clones) == Without(held, removed) + created + clones;
    KeysAfterExpand(held, key, removed, created, clones, sp, changed);
    forall x | x in Without(held, removed) + (created + clones)
      ensures x in held || x in created || x in clones
    {
      WithoutMember(held, removed, x);
    }
  }
}
