/** The series level of the per-version reconciliation: a series row owns its
    instance rows, the leaves of the hierarchy. Expansion reconciles them with
    what the sources report; the build finishes the instances that are not done
    and then the series itself. */
module SeriesLevel {
  import opened Common
  import opened Reconcile

  /** The `instance_source` enumeration: where an instance's blob comes from. */
  datatype Source = Tcia | Path

  /** The mutable columns of an `instance` row. */
  datatype InstanceCols = InstanceCols(
    hash: Option<string>,
    size: int,
    revised: bool,
    done: bool,
    isNew: bool,
    expanded: bool,
    initIdcVersion: int,
    revIdcVersion: int,
    finalIdcVersion: int,
    source: Source,
    timestamp: Timestamp)

  class Instance {
    const sopInstanceUid: Key
    const uuid: Uuid
    var cols: InstanceCols

    constructor (sopInstanceUid: Key, uuid: Uuid, cols: InstanceCols)
      ensures this.sopInstanceUid == sopInstanceUid && this.uuid == uuid && this.cols == cols
    {
      this.sopInstanceUid := sopInstanceUid;
      this.uuid := uuid;
      this.cols := cols;
    }
  }

  function InstanceUid(x: Instance): Key
  {
    x.sopInstanceUid
  }

  /** The mutable columns of a `series` row. */
  datatype SeriesCols = SeriesCols(
    seriesInstances: Option<int>,
    minTimestamp: Option<Timestamp>,
    maxTimestamp: Option<Timestamp>,
    initIdcVersion: int,
    revIdcVersion: int,
    finalIdcVersion: int,
    done: bool,
    isNew: bool,
    expanded: bool,
    sources: Option<Flags>,
    hashes: Option<Hashes>)

  class Series {
    const seriesInstanceUid: Key
    const uuid: Uuid
    var cols: SeriesCols
    var instances: seq<Instance>

    constructor (seriesInstanceUid: Key, uuid: Uuid, cols: SeriesCols, instances: seq<Instance>)
      ensures this.seriesInstanceUid == seriesInstanceUid && this.uuid == uuid
      ensures this.cols == cols && this.instances == instances
    {
      this.seriesInstanceUid := seriesInstanceUid;
      this.uuid := uuid;
      this.cols := cols;
      this.instances := instances;
    }

    /** No two instances share a SOPInstanceUID, and a new series that has not been
        expanded has no instances yet. */
    ghost predicate Valid()
      reads this
    {
      WellFormed(cols, instances)
    }
  }

  /** A series row with these columns may own these instances. */
  ghost predicate WellFormed(c: SeriesCols, instances: seq<Instance>)
  {
    && Distinct(InstanceKeys(instances))
    && (c.isNew && !c.expanded ==> instances == [])
  }

  function InstanceKeys(s: seq<Instance>): seq<Key>
  {
    Map(s, InstanceUid)
  }

  /** The instance with the given SOPInstanceUID (the `idc_objects` lookup). */
  function FindInstance(s: seq<Instance>, k: Key): (r: Option<Instance>)
    ensures r.Some? <==> k in InstanceKeys(s)
    ensures r.Some? ==> r.value in s && r.value.sopInstanceUid == k
  {
    if k in InstanceKeys(s) then
      var i := IndexOf(InstanceKeys(s), k);
      Some(s[i])
    else None
  }

  /** `idc_hash != src_hash`: an instance is revised when its stored hash is not the
      one the source reports, which includes having no stored hash at all. */
  predicate InstanceRevised(c: InstanceCols, srcHash: string)
  {
    c.hash != Some(srcHash)
  }

  /** The row of an instance first seen in this version: no hash and no size yet. */
  function NewInstanceCols(source: Source, args: Args, now: Timestamp): InstanceCols
  {
    InstanceCols(None, 0, true, false, true, false, args.version, args.version, 0, source, now)
  }

  /** The clone of a revised instance: stamped with this version and the reported
      source, with no hash and no size, and (unlike the clone of a revised study)
      already done and expanded. */
  function RevisedInstanceCols(c: InstanceCols, source: Source, args: Args, now: Timestamp): InstanceCols
  {
    c.(revised := true, done := true, isNew := false, expanded := true, timestamp := now,
       source := source, hash := None, size := 0, revIdcVersion := args.version)
  }

  /** An instance the source did not change: checked now, nothing left to build. */
  function UnchangedInstanceCols(c: InstanceCols, now: Timestamp): InstanceCols
  {
    c.(timestamp := now, done := true, expanded := true)
  }

  /** The keys of existing instances the source revised. */
  ghost function ChangedInstances(held: seq<Instance>, existing: seq<Key>, src: Key -> string): set<Key>
    reads held
  {
    set k | k in existing && FindInstance(held, k).Some?
                          && InstanceRevised(FindInstance(held, k).value.cols, src(k))
  }

  /** With `orig` a snapshot of the held instances' columns, the changed keys are the
      existing keys whose snapshot the source revised. */
  lemma ChangedFromSnapshot(held: seq<Instance>, existing: seq<Key>, src: Key -> string,
                            orig: map<Instance, InstanceCols>)
    requires forall k :: k in existing ==> k in InstanceKeys(held)
    requires forall x :: x in held ==> x in orig && x.cols == orig[x]
    ensures ChangedInstances(held, existing, src) <= Elems(existing)
    ensures forall k :: k in existing ==>
      FindInstance(held, k).Some? && (k in ChangedInstances(held, existing, src)
                                      <==> InstanceRevised(orig[FindInstance(held, k).value], src(k)))
  {
  }

  /** The first error the walk over the existing instances (in the given order)
      raises: a revised instance must be reported with this version as its revision. */
  function ExistingInstanceError(held: seq<Instance>, existing: seq<Key>, listing: Listing<Source>,
                                 src: Key -> string, args: Args): (r: Option<Error>)
    reads held
    ensures r.None? <==> forall k :: k in existing && FindInstance(held, k).Some? ==>
      InstanceRevised(FindInstance(held, k).value.cols, src(k)) ==> listing.revVersion(k) == args.version
    ensures r.Some? ==> r.value == RevisionMismatch
  {
    if existing == [] then None
    else
      var k := existing[0];
      var o := FindInstance(held, k);
      if o.Some? && InstanceRevised(o.value.cols, src(k)) && listing.revVersion(k) != args.version
      then Some(RevisionMismatch)
      else ExistingInstanceError(held, existing[1..], listing, src, args)
  }

  /** The same walk as the source writes it. Outside the many-to-many build the
      listing value of an instance is its `instance_source` (what a new instance
      stores as `source`), and the revision check subscripts that value by
      `'rev_idc_version'`, which fails for every revised instance. */
  function ExistingInstanceErrorAsWritten(held: seq<Instance>, existing: seq<Key>, src: Key -> string): (r: Option<Error>)
    reads held
    ensures r.None? <==> forall k :: k in existing && FindInstance(held, k).Some? ==>
      !InstanceRevised(FindInstance(held, k).value.cols, src(k))
    ensures r.Some? ==> r.value == BadSubscript
  {
    if existing == [] then None
    else
      var k := existing[0];
      var o := FindInstance(held, k);
      if o.Some? && InstanceRevised(o.value.cols, src(k)) then Some(BadSubscript)
      else ExistingInstanceErrorAsWritten(held, existing[1..], src)
  }

  /** As written, expanding a series fails as soon as one of its existing instances
      is revised, even where every revision is reported under this version and the
      walk the source intends goes through. */
  lemma RevisionAbortsAsWritten(held: seq<Instance>, existing: seq<Key>, listing: Listing<Source>,
                                src: Key -> string, args: Args)
    requires forall k :: k in existing ==> listing.revVersion(k) == args.version
    requires exists k :: k in existing && FindInstance(held, k).Some?
                         && InstanceRevised(FindInstance(held, k).value.cols, src(k))
    ensures ExistingInstanceError(held, existing, listing, src, args).None?
    ensures ExistingInstanceErrorAsWritten(held, existing, src) == Some(BadSubscript)
  {
    var k :| k in existing && FindInstance(held, k).Some?
             && InstanceRevised(FindInstance(held, k).value.cols, src(k));
    assert ExistingInstanceErrorAsWritten(held, existing, src).Some?;
  }

  /** Where a held instance stands after the expansion has handled the keys in
      `handled`: untouched if not handled yet, checked-and-done if unchanged, final in
      the version before this one if superseded, final in the previous version if
      retired. */
  function SettledInstance(c: InstanceCols, k: Key, handled: set<Key>, existing: seq<Key>,
                           changed: set<Key>, args: Args, now: Timestamp): InstanceCols
  {
    if k !in handled then c
    else if k in existing && k !in changed then UnchangedInstanceCols(c, now)
    else if k in existing then c.(finalIdcVersion := args.version - 1)
    else c.(finalIdcVersion := args.previousVersion)
  }

  /** `clone_instance`: a new row under the given uuid with every column copied. */
  method CloneInstance(x: Instance, uuid: Uuid) returns (c: Instance)
    ensures fresh(c)
    ensures c.sopInstanceUid == x.sopInstanceUid && c.uuid == uuid && c.cols == x.cols
  {
    c := new Instance(x.sopInstanceUid, uuid, x.cols);
  }

  /** The clone of a revised instance, stamped with the listing's source. */
  method ReviseClone(x: Instance, uuid: Uuid, source: Source, args: Args, now: Timestamp) returns (c: Instance)
    ensures fresh(c)
    ensures c.sopInstanceUid == x.sopInstanceUid && c.uuid == uuid
    ensures c.cols == RevisedInstanceCols(x.cols, source, args, now)
  {
    c := CloneInstance(x, uuid);
    c.cols := RevisedInstanceCols(c.cols, source, args, now);
  }

  /** `clone_series`: a new row under the given uuid with every column copied, and the
      same instances in the same order. */
  method CloneSeries(s: Series, uuid: Uuid) returns (c: Series)
    ensures fresh(c)
    ensures c.seriesInstanceUid == s.seriesInstanceUid && c.uuid == uuid
    ensures c.cols == s.cols && c.instances == s.instances
  {
    c := new Series(s.seriesInstanceUid, uuid, s.cols, s.instances);
  }

  /** `retire_series`: every instance, then the series, stops being current after the
      previous version; nothing below the instances is touched. */
  method RetireSeries(args: Args, s: Series)
    modifies s, s.instances
    ensures s.instances == old(s.instances)
    ensures s.cols == old(s.cols).(finalIdcVersion := args.previousVersion)
    ensures forall x :: x in s.instances ==> x.cols == old(x.cols).(finalIdcVersion := args.previousVersion)
  {
    var i := 0;
    while i < |s.instances|
      invariant 0 <= i <= |s.instances|
      invariant s.instances == old(s.instances) && s.cols == old(s.cols)
      invariant forall x :: x in s.instances ==>
        x.cols == if x in s.instances[..i] then old(x.cols).(finalIdcVersion := args.previousVersion) else old(x.cols)
    {
      var x := s.instances[i];
      assert x in old(s.instances);
      x.cols := x.cols.(finalIdcVersion := args.previousVersion);
      assert s.instances[..i + 1] == s.instances[..i] + [x];
      i := i + 1;
    }
    assert s.instances[..i] == s.instances;
    s.cols := s.cols.(finalIdcVersion := args.previousVersion);
  }

  /** The rows made for the new keys: consecutive uuids from `ids`, each a new
      instance with the source the listing reports for its key. */
  ghost predicate NewRows(created: seq<Instance>, keys: seq<Key>, listing: Listing<Source>, args: Args,
                          now: Timestamp, ids: nat)
    reads created
  {
    |created| == |keys| &&
    forall j :: 0 <= j < |created| ==>
      created[j].uuid == ids + j && created[j].cols == NewInstanceCols(listing.value(keys[j]), args, now)
  }

  /** The first pass of expand_series: a row for each new key, in order, appended. */
  method AppendNewInstances(s: Series, keys: seq<Key>, listing: Listing<Source>, args: Args,
                            now: Timestamp, ids: nat)
    returns (ids': nat, ghost created: seq<Instance>)
    modifies s
    ensures s.instances == old(s.instances) + created && s.cols == old(s.cols)
    ensures ids' == ids + |keys| && InstanceKeys(created) == keys
    ensures (forall x :: x in created ==> fresh(x)) && NewRows(created, keys, listing, args, now, ids)
  {
    ids' := ids;
    created := [];
    var i := 0;
    while i < |keys|
      invariant 0 <= i <= |keys|
      invariant |created| == i && ids' == ids + i
      invariant s.instances == old(s.instances) + created && s.cols == old(s.cols)
      invariant InstanceKeys(created) == keys[..i]
      invariant forall j :: 0 <= j < i ==>
        fresh(created[j]) && created[j].uuid == ids + j
        && created[j].cols == NewInstanceCols(listing.value(keys[j]), args, now)
    {
      var x := new Instance(keys[i], ids', NewInstanceCols(listing.value(keys[i]), args, now));
      s.instances := s.instances + [x];
      created := created + [x];
      ids' := ids' + 1;
      i := i + 1;
    }
    assert keys[..i] == keys;
  }

  /** Where each held instance stands, relative to its columns `orig` before expansion. */
  ghost predicate SettledRows(held: seq<Instance>, orig: map<Instance, InstanceCols>, handled: set<Key>,
                              existing: seq<Key>, changed: set<Key>, args: Args, now: Timestamp)
    reads held
  {
    forall x :: x in held ==>
      x in orig && x.cols == SettledInstance(orig[x], InstanceUid(x), handled, existing, changed, args, now)
  }

  /** The clones appended so far: consecutive uuids from `ids`, each the revised copy
      of the held instance with its key. */
  ghost predicate ClonesOf(clones: seq<Instance>, held: seq<Instance>, orig: map<Instance, InstanceCols>,
                           listing: Listing<Source>, args: Args, now: Timestamp, ids: nat)
    reads clones
  {
    forall j :: 0 <= j < |clones| ==>
      var key := clones[j].sopInstanceUid;
      && clones[j].uuid == ids + j
      && FindInstance(held, key).Some? && FindInstance(held, key).value in orig
      && clones[j].cols == RevisedInstanceCols(orig[FindInstance(held, key).value], listing.value(key), args, now)
  }

  /** Retiring after the second pass settles the union of both passes' keys. */
  lemma SettledThenRetired(c: InstanceCols, k: Key, existing: seq<Key>, retired: seq<Key>,
                           changed: set<Key>, args: Args, now: Timestamp)
    requires Elems(existing) !! Elems(retired)
    ensures var d := SettledInstance(c, k, Elems(existing), existing, changed, args, now);
      (if k in retired then d.(finalIdcVersion := args.previousVersion) else d)
      == SettledInstance(c, k, Elems(existing) + Elems(retired), existing, changed, args, now)
  {
  }

  /** How far the second pass has come after the first k existing keys: the instances
      it superseded are gone from the list and their clones follow `tail`; each held
      instance is settled as far as those keys go. */
  ghost predicate Progress(s: Series, held: seq<Instance>, existing: seq<Key>, k: nat, changed: set<Key>,
                           orig: map<Instance, InstanceCols>, tail: seq<Instance>, clones: seq<Instance>,
                           start: nat, listing: Listing<Source>, args: Args, now: Timestamp, ids: nat)
    reads s, held, clones
  {
    && k <= |existing|
    && s.instances == Without(held, SupersededRows(held, InstanceUid, Elems(existing[..k]), changed)) + (tail + clones)
    && SettledRows(held, orig, Elems(existing[..k]), existing, changed, args, now)
    && ids == start + |clones| && ClonesOf(clones, held, orig, listing, args, now, start)
    && InstanceKeys(clones) == Among(existing[..k], changed)
  }

  /** The k-th existing instance, revised by the source: a clone carrying the new
      revision is appended, the old row is made final in the version before this one
      and dropped. */
  method SupersedeInstance(s: Series, held: seq<Instance>, existing: seq<Key>, k: nat,
                           ghost changed: set<Key>, ghost orig: map<Instance, InstanceCols>,
                           ghost tail: seq<Instance>, ghost clones: seq<Instance>, ghost start: nat,
                           listing: Listing<Source>, args: Args, now: Timestamp, ids: nat)
    returns (ids': nat, c: Instance)
    requires Distinct(InstanceKeys(held)) && Distinct(existing) && k < |existing|
    requires FindInstance(held, existing[k]).Some? && FindInstance(held, existing[k]).value in orig
    requires existing[k] in changed
    requires FindInstance(held, existing[k]).value.cols == orig[FindInstance(held, existing[k]).value]
    requires forall x :: x in tail + clones ==> x !in held
    requires Progress(s, held, existing, k, changed, orig, tail, clones, start, listing, args, now, ids)
    modifies s, FindInstance(held, existing[k]).value
    ensures s.cols == old(s.cols) && fresh(c)
    ensures Progress(s, held, existing, k + 1, changed, orig, tail, clones + [c], start, listing, args, now, ids')
  {
    var key := existing[k];
    PrefixStep(existing, k, changed);
    ghost var handled := Elems(existing[..k]);
    var x := FindInstance(held, key).value;
    DistinctKeysDistinctRows(held, InstanceUid);
    c := ReviseClone(x, ids, listing.value(key), args, now);
    ids' := ids + 1;
    s.instances := s.instances + [c];
    x.cols := x.cols.(finalIdcVersion := args.version - 1);
    assert s.instances == Without(held, SupersededRows(held, InstanceUid, handled, changed)) + (tail + (clones + [c]));
    SupersedeShape(held, InstanceUid, handled, changed, x, tail + (clones + [c]));
    s.instances := RemoveFirst(s.instances, x);
    MapConcat(clones, [c], InstanceUid);
  }

  /** The k-th existing instance, unchanged: checked now and done. */
  method CheckInstance(s: Series, held: seq<Instance>, existing: seq<Key>, k: nat,
                       ghost changed: set<Key>, ghost orig: map<Instance, InstanceCols>,
                       ghost tail: seq<Instance>, ghost clones: seq<Instance>, ghost start: nat,
                       listing: Listing<Source>, args: Args, now: Timestamp, ids: nat)
    requires Distinct(InstanceKeys(held)) && Distinct(existing) && k < |existing|
    requires FindInstance(held, existing[k]).Some? && FindInstance(held, existing[k]).value in orig
    requires existing[k] !in changed
    requires forall x :: x in tail + clones ==> x !in held
    requires Progress(s, held, existing, k, changed, orig, tail, clones, start, listing, args, now, ids)
    modifies FindInstance(held, existing[k]).value
    ensures Progress(s, held, existing, k + 1, changed, orig, tail, clones, start, listing, args, now, ids)
  {
    var key := existing[k];
    PrefixStep(existing, k, changed);
    var x := FindInstance(held, key).value;
    DistinctKeysDistinctRows(held, InstanceUid);
    SupersededStep(held, InstanceUid, Elems(existing[..k]), changed, x);
    assert SupersededRows(held, InstanceUid, Elems(existing[..k + 1]), changed)
        == SupersededRows(held, InstanceUid, Elems(existing[..k]), changed);
    x.cols := UnchangedInstanceCols(x.cols, now);
    assert InstanceKeys(clones) == Among(existing[..k + 1], changed);
  }

  /** The second pass of expand_series: each existing instance, in key order, is
      replaced by a clone if the source revised it, and otherwise marked checked and
      done. */
  method ReviseExistingInstances(s: Series, held: seq<Instance>, existing: seq<Key>,
                                 ghost changed: set<Key>, ghost tail: seq<Instance>,
                                 ghost orig: map<Instance, InstanceCols>,
                                 listing: Listing<Source>, src: Key -> string, args: Args, now: Timestamp, ids: nat)
    returns (ids': nat, ghost clones: seq<Instance>)
    requires Distinct(InstanceKeys(held)) && Distinct(existing)
    requires forall x :: x in held ==> x in orig && x.cols == orig[x]
    requires forall k :: k in existing ==>
      FindInstance(held, k).Some? && (k in changed <==> InstanceRevised(orig[FindInstance(held, k).value], src(k)))
    requires s.instances == held + tail && forall x :: x in tail ==> x !in held
    modifies s, held
    ensures s.cols == old(s.cols)
    ensures s.instances == Without(held, SupersededRows(held, InstanceUid, Elems(existing), changed)) + (tail + clones)
    ensures ids' == ids + |clones| && InstanceKeys(clones) == Among(existing, changed)
    ensures (forall x :: x in clones ==> fresh(x)) && ClonesOf(clones, held, orig, listing, args, now, ids)
    ensures SettledRows(held, orig, Elems(existing), existing, changed, args, now)
  {
    WithoutNothing(held);
    assert Elems(existing[..0]) == {};
    assert SupersededRows(held, InstanceUid, {}, changed) == {};
    ids' := ids;
    clones := [];
    var k := 0;
    while k < |existing|
      invariant 0 <= k <= |existing|
      invariant s.cols == old(s.cols)
      invariant forall x :: x in clones ==> fresh(x)
      invariant Progress(s, held, existing, k, changed, orig, tail, clones, ids, listing, args, now, ids')
    {
      var key := existing[k];
      var x := FindInstance(held, key).value;
      if InstanceRevised(x.cols, src(key)) {
        var c;
        ids', c := SupersedeInstance(s, held, existing, k, changed, orig, tail, clones, ids, listing, args, now, ids');
        clones := clones + [c];
      } else {
        CheckInstance(s, held, existing, k, changed, orig, tail, clones, ids, listing, args, now, ids');
      }
      k := k + 1;
    }
    assert existing[..k] == existing;
  }

  /** The third pass of expand_series: each instance no longer reported is made final
      in the previous version and dropped from the series. */
  method RetireVanishedInstances(s: Series, held: seq<Instance>, retired: seq<Key>,
                                 ghost removed: set<Instance>, ghost tail: seq<Instance>, args: Args,
                                 ghost orig: map<Instance, InstanceCols>, ghost existing: seq<Key>,
                                 ghost changed: set<Key>, ghost now: Timestamp)
    requires Distinct(InstanceKeys(held)) && Distinct(retired)
    requires forall k :: k in retired ==> k in InstanceKeys(held)
    requires forall x :: x in removed ==> x in held && InstanceUid(x) !in retired
    requires s.instances == Without(held, removed) + tail && forall x :: x in tail ==> x !in held
    requires Elems(existing) !! Elems(retired)
    requires SettledRows(held, orig, Elems(existing), existing, changed, args, now)
    modifies s, held
    ensures s.cols == old(s.cols)
    ensures s.instances == Without(held, removed + RowsKeyedBy(held, InstanceUid, Elems(retired))) + tail
    ensures forall x :: x in held ==>
      x.cols == if InstanceUid(x) in retired then old(x.cols).(finalIdcVersion := args.previousVersion)
                else old(x.cols)
    ensures SettledRows(held, orig, Elems(existing) + Elems(retired), existing, changed, args, now)
  {
    DistinctKeysDistinctRows(held, InstanceUid);
    ghost var gone := removed;
    var m := 0;
    while m < |retired|
      invariant 0 <= m <= |retired|
      invariant s.instances == Without(held, gone) + tail && s.cols == old(s.cols)
      invariant forall x :: x in held ==> (x in gone <==> x in removed || InstanceUid(x) in retired[..m])
      invariant forall x :: x in held ==>
        x.cols == if InstanceUid(x) in retired[..m] then old(x.cols).(finalIdcVersion := args.previousVersion)
                  else old(x.cols)
    {
      var key := retired[m];
      var x := FindInstance(held, key).value;
      assert key !in retired[..m];
      x.cols := x.cols.(finalIdcVersion := args.previousVersion);
      RemoveFirstWithout(held, gone, tail, x);
      s.instances := RemoveFirst(s.instances, x);
      gone := gone + {x};
      assert retired[..m + 1] == retired[..m] + [key];
      m := m + 1;
    }
    assert retired[..m] == retired;
    forall x | x in held
      ensures x.cols == SettledInstance(orig[x], InstanceUid(x), Elems(existing) + Elems(retired),
                                        existing, changed, args, now)
    {
      SettledThenRetired(orig[x], InstanceUid(x), existing, retired, changed, args, now);
    }
    FilterCongruent(held, x => x !in gone, x => x !in removed + RowsKeyedBy(held, InstanceUid, Elems(retired)));
  }

  /** The second and third passes of expand_series over the held instances: revised
      ones replaced by clones, unchanged ones marked done, vanished ones retired, all
      dropped ones removed from the list and the clones appended after `tail`. */
  method SupersedeInstances(s: Series, held: seq<Instance>, sp: Split, ghost changed: set<Key>,
                            ghost orig: map<Instance, InstanceCols>, ghost tail: seq<Instance>,
                            listing: Listing<Source>, src: Key -> string, args: Args, now: Timestamp, ids: nat)
    returns (ids': nat, ghost clones: seq<Instance>)
    requires Distinct(InstanceKeys(held)) && s.instances == held + tail && forall x :: x in tail ==> x !in held
    requires Distinct(sp.existing) && Distinct(sp.retired) && Elems(sp.existing) !! Elems(sp.retired)
    requires forall k :: k in sp.retired ==> k in InstanceKeys(held)
    requires forall x :: x in held ==> x in orig && x.cols == orig[x]
    requires changed <= Elems(sp.existing)
    requires forall k :: k in sp.existing ==>
      FindInstance(held, k).Some? && (k in changed <==> InstanceRevised(orig[FindInstance(held, k).value], src(k)))
    modifies s, held
    ensures s.cols == old(s.cols)
    ensures s.instances == Without(held, RowsKeyedBy(held, InstanceUid, Elems(sp.retired) + changed)) + (tail + clones)
    ensures InstanceKeys(clones) == Among(sp.existing, changed) && ids' == ids + |clones|
    ensures (forall x :: x in clones ==> fresh(x)) && ClonesOf(clones, held, orig, listing, args, now, ids)
    ensures SettledRows(held, orig, Elems(sp.existing) + Elems(sp.retired), sp.existing, changed, args, now)
  {
    ids', clones := ReviseExistingInstances(s, held, sp.existing, changed, tail, orig, listing, src, args, now, ids);
    SupersededAll(held, InstanceUid, Elems(sp.existing), changed);
    ghost var revisedRows := RowsKeyedBy(held, InstanceUid, changed);
    assert forall x :: x in tail + clones ==> x !in held;
    RetireVanishedInstances(s, held, sp.retired, revisedRows, tail + clones, args,
                            orig, sp.existing, changed, now);
    RowsKeyedByUnion(held, InstanceUid, changed, Elems(sp.retired));
    assert changed + Elems(sp.retired) == Elems(sp.retired) + changed;
  }

  /** The three passes of expand_series over a listing split into new, existing and
      vanished keys. `orig` holds the columns of the held instances before the passes. */
  method ReconcileInstances(s: Series, held: seq<Instance>, sp: Split, ghost changed: set<Key>,
                            ghost orig: map<Instance, InstanceCols>, listing: Listing<Source>,
                            src: Key -> string, args: Args, now: Timestamp, ids: nat)
    returns (ids': nat, ghost created: seq<Instance>, ghost clones: seq<Instance>)
    requires Distinct(InstanceKeys(held)) && s.instances == held
    requires Distinct(sp.existing) && Distinct(sp.retired) && Elems(sp.existing) !! Elems(sp.retired)
    requires forall k :: k in sp.retired ==> k in InstanceKeys(held)
    requires forall x :: x in held ==> x in orig && x.cols == orig[x]
    requires changed <= Elems(sp.existing)
    requires forall k :: k in sp.existing ==>
      FindInstance(held, k).Some? && (k in changed <==> InstanceRevised(orig[FindInstance(held, k).value], src(k)))
    modifies s, held
    ensures s.cols == old(s.cols)
    ensures s.instances == Without(held, RowsKeyedBy(held, InstanceUid, Elems(sp.retired) + changed))
                           + created + clones
    ensures InstanceKeys(s.instances) == Reconciled(InstanceKeys(held), sp, changed)
    ensures InstanceKeys(created) == sp.created && InstanceKeys(clones) == Among(sp.existing, changed)
    ensures ids' == ids + |created| + |clones|
    ensures (forall x :: x in created ==> fresh(x)) && NewRows(created, sp.created, listing, args, now, ids)
    ensures (forall x :: x in clones ==> fresh(x)) && ClonesOf(clones, held, orig, listing, args, now, ids + |created|)
    ensures SettledRows(held, orig, Elems(sp.existing) + Elems(sp.retired), sp.existing, changed, args, now)
    ensures forall x :: x in s.instances ==> x in held || fresh(x)
  {
    var idsNew;
    idsNew, created := AppendNewInstances(s, sp.created, listing, args, now, ids);
    assert forall x :: x in created ==> x !in held;
    ids', clones := SupersedeInstances(s, held, sp, changed, orig, created, listing, src, args, now, idsNew);
    ReconciledRows(held, InstanceUid, sp, changed, created, clones);
  }

  /** `expand_series` (its non-migration form): reconciles the series' instances with
      the listing the source reports. A repeated key, or a revised instance reported
      under another revision, fails and changes nothing; otherwise the three passes
      run and the series is marked expanded. */
  method ExpandSeries(s: Series, listing: Listing<Source>, src: Key -> string, args: Args,
                      now: Timestamp, ids: nat)
    returns (r: Outcome, ids': nat, ghost created: seq<Instance>, ghost clones: seq<Instance>,
             ghost changed: set<Key>, ghost orig: map<Instance, InstanceCols>)
    requires Distinct(InstanceKeys(s.instances))
    modifies s, s.instances
    ensures forall x :: x in s.instances ==> x in old(s.instances) || fresh(x)
    ensures forall x :: x in old(s.instances) ==> x in orig && orig[x] == old(x.cols)
    ensures var held := old(s.instances);
      var sp := Partition(old(s.cols.isNew), InstanceKeys(held), listing.ids);
      && (r.Fail? <==> HasDuplicates(listing.ids)
                       || old(ExistingInstanceError(held, sp.existing, listing, src, args)).Some?)
      && (r.Fail? ==> r.error == if HasDuplicates(listing.ids) then DuplicateChildren else RevisionMismatch)
      && (r.Fail? ==> s.instances == held && s.cols == old(s.cols) && ids' == ids
                      && forall x :: x in held ==> x.cols == old(x.cols))
      && (r.Ok? ==>
        && changed == old(ChangedInstances(held, sp.existing, src))
        && s.cols == old(s.cols).(expanded := true)
        && InstanceKeys(s.instances) == Reconciled(InstanceKeys(held), sp, changed)
        && s.instances == Without(held, RowsKeyedBy(held, InstanceUid, Elems(sp.retired) + changed))
                          + created + clones
        && InstanceKeys(created) == sp.created
        && InstanceKeys(clones) == Among(sp.existing, changed)
        && ids' == ids + |created| + |clones|
        && (forall x :: x in created ==> fresh(x))
        && NewRows(created, sp.created, listing, args, now, ids)
        && (forall x :: x in clones ==> fresh(x))
        && ClonesOf(clones, held, orig, listing, args, now, ids + |created|)
        && SettledRows(held, orig, Elems(sp.existing) + Elems(sp.retired), sp.existing, changed, args, now))
    ensures r.Ok? && !(old(s.cols.isNew) && old(s.cols.expanded)) && old(s.Valid()) ==> s.Valid()
  {
    var held := s.instances;
    var heldKeys := InstanceKeys(held);
    orig := map x | x in held :: x.cols;
    ids' := ids;
    created := [];
    clones := [];
    changed := {};
    if HasDuplicates(listing.ids) {
      return Fail(DuplicateChildren), ids', created, clones, changed, orig;
    }
    var sp := Partition(s.cols.isNew, heldKeys, listing.ids);
    var err := ExistingInstanceError(held, sp.existing, listing, src, args);
    if err.Some? {
      return Fail(err.value), ids', created, clones, changed, orig;
    }
    PartitionHeld(s.cols.isNew, heldKeys, listing.ids);
    ChangedFromSnapshot(held, sp.existing, src, orig);
    changed := ChangedInstances(held, sp.existing, src);
    // Marking the series expanded before the passes, rather than after, is not
    // observable: none of them reads the flag.
    s.cols := s.cols.(expanded := true);
    ids', created, clones := ReconcileInstances(s, held, sp, changed, orig, listing, src, args, now, ids);
    if !old(s.cols.isNew) {
      ReconciledMatchesListing(heldKeys, listing.ids, changed);
    } else if !old(s.cols.expanded) && old(s.Valid()) {
      ReconciledWhenNew(heldKeys, listing.ids, changed);
    }
    r := Ok;
  }

  /** What the instance builders report for one instance: the columns they set. */
  datatype InstanceBuild = InstanceBuild(done: bool, hash: Option<string>, size: int, timestamp: Timestamp)

  /** An instance's columns once its build has reported. */
  function InstanceBuilt(c: InstanceCols, b: InstanceBuild): (r: InstanceCols)
    ensures r.done == b.done && r.hash == b.hash && r.size == b.size && r.timestamp == b.timestamp
    ensures r.initIdcVersion == c.initIdcVersion && r.revIdcVersion == c.revIdcVersion
    ensures r.finalIdcVersion == c.finalIdcVersion && r.isNew == c.isNew && r.source == c.source
  {
    c.(done := b.done, hash := b.hash, size := b.size, timestamp := b.timestamp)
  }

  /** An instance after the builders ran: built from its report unless already done. */
  function InstanceAfterBuild(c: InstanceCols, b: InstanceBuild): (r: InstanceCols)
    ensures c.done ==> r == c
    ensures !c.done ==> r.done == b.done && r.timestamp == b.timestamp && r.hash == b.hash
                        && r.finalIdcVersion == c.finalIdcVersion
  {
    if c.done then c else InstanceBuilt(c, b)
  }

  /** `all(instance.done for instance in series.instances)` */
  predicate AllInstancesDone(s: seq<Instance>)
    reads s
  {
    forall x :: x in s ==> x.cols.done
  }

  /** The instances' timestamp columns, in order. */
  function InstanceTimes(s: seq<Instance>): (r: seq<Timestamp>)
    reads s
    ensures |r| == |s| && forall i :: 0 <= i < |s| ==> r[i] == s[i].cols.timestamp
  {
    seq(|s|, i requires 0 <= i < |s| reads s => s[i].cols.timestamp)
  }

  /** build_instances_tcia and build_instances_path together: every instance not yet
      done takes the columns its build reports; done ones are left as they are. */
  method BuildPendingInstances(kids: seq<Instance>, feed: Key -> InstanceBuild)
    requires Distinct(InstanceKeys(kids))
    modifies set x | x in kids
    ensures forall x :: x in kids ==> x.cols == InstanceAfterBuild(old(x.cols), feed(InstanceUid(x)))
  {
    DistinctKeysDistinctRows(kids, InstanceUid);
    for i := 0 to |kids|
      invariant forall j :: 0 <= j < i ==>
        kids[j].cols == InstanceAfterBuild(old(kids[j].cols), feed(InstanceUid(kids[j])))
      invariant forall j :: i <= j < |kids| ==> kids[j].cols == old(kids[j].cols)
    {
      var x := kids[i];
      if !x.cols.done {
        x.cols := InstanceBuilt(x.cols, feed(x.sopInstanceUid));
      }
    }
  }

  /** Where the completion of build_series leaves a series with columns `before`:
      nothing happens until every instance is done; then the series takes the latest
      instance timestamp (an empty series fails, as `max` does), and is done, with
      its hashes and instance count, only if the per-source hashes the engine
      computes equal what the sources report. */
  ghost predicate SeriesCompleted(before: SeriesCols, after: SeriesCols, r: Outcome, instances: seq<Instance>,
                                  idcHashes: Hashes, srcHashes: HashPair)
    reads instances
  {
    if !AllInstancesDone(instances) then r == Ok && after == before
    else
      var latest := MaxOf(InstanceTimes(instances));
      if latest.None? then r == Fail(EmptyMax) && after == before
      else
        var stamped := before.(maxTimestamp := latest);
        if PerSource(idcHashes) == srcHashes then
          r == Ok && after == stamped.(hashes := Some(idcHashes), seriesInstances := Some(|instances|), done := true)
        else r == Fail(HashMismatch) && after == stamped
  }

  /** The completion of build_series. */
  method CompleteSeries(s: Series, idcHashes: Hashes, srcHashes: HashPair) returns (r: Outcome)
    modifies s
    ensures s.instances == old(s.instances)
    ensures s.cols.isNew == old(s.cols.isNew) && s.cols.expanded == old(s.cols.expanded)
    ensures SeriesCompleted(old(s.cols), s.cols, r, s.instances, idcHashes, srcHashes)
  {
    if !AllInstancesDone(s.instances) {
      return Ok;
    }
    var latest := MaxOf(InstanceTimes(s.instances));
    if latest.None? {
      return Fail(EmptyMax);
    }
    var cols := s.cols.(maxTimestamp := latest);
    r := Ok;
    if PerSource(idcHashes) == srcHashes {
      cols := cols.(hashes := Some(idcHashes), seriesInstances := Some(|s.instances|), done := true);
    } else {
      r := Fail(HashMismatch);
    }
    SetSeriesCols(s, cols);
  }

  method SetSeriesCols(s: Series, cols: SeriesCols)
    modifies s
    ensures s.cols == cols && s.instances == old(s.instances)
  {
    s.cols := cols;
  }

  /** What the completion promises: it fails exactly when every instance is done and
      the series is empty or its hashes disagree with the sources; a series it newly
      marks done has every instance done, hashes that agree with the sources, its
      instance count, and the latest of its instances' timestamps. */
  lemma {:induction false} SeriesCompletedDone(before: SeriesCols, after: SeriesCols, r: Outcome,
                                               instances: seq<Instance>, idcHashes: Hashes, srcHashes: HashPair)
    requires SeriesCompleted(before, after, r, instances, idcHashes, srcHashes)
    ensures r.Fail? <==> AllInstancesDone(instances) && (instances == [] || PerSource(idcHashes) != srcHashes)
    ensures r == Fail(EmptyMax) <==> AllInstancesDone(instances) && instances == []
    ensures after.done && !before.done ==>
      && r == Ok && AllInstancesDone(instances) && instances != []
      && PerSource(idcHashes) == srcHashes && after.hashes == Some(idcHashes)
      && after.seriesInstances == Some(|instances|)
      && after.maxTimestamp.Some?
      && (exists x :: x in instances && x.cols.timestamp == after.maxTimestamp.value)
      && (forall x :: x in instances ==> x.cols.timestamp <= after.maxTimestamp.value)
  {
    var ts := InstanceTimes(instances);
    assert instances == [] <==> ts == [];
    if after.done && !before.done {
      var m := MaxOf(ts).value;
      forall x | x in instances
        ensures x.cols.timestamp <= m
      {
        var i :| 0 <= i < |instances| && instances[i] == x;
        assert ts[i] in ts;
      }
      var i :| 0 <= i < |ts| && ts[i] == m;
      assert instances[i] in instances;
    }
  }

  /** The first step of build_series: expands the series unless it is expanded
      already. A failed expansion changes nothing. */
  method ExpandSeriesIfNeeded(s: Series, listing: Listing<Source>, src: Key -> string, args: Args,
                              now: Timestamp, ids: nat)
    returns (e: Outcome, ids': nat)
    requires s.Valid()
    modifies s, s.instances
    ensures old(s.cols.expanded) ==> e == Ok && s.instances == old(s.instances) && s.cols == old(s.cols) && ids' == ids
                                     && forall x :: x in s.instances ==> x.cols == old(x.cols)
    ensures e.Fail? ==>
      s.instances == old(s.instances) && s.cols == old(s.cols) && ids' == ids
      && forall x :: x in s.instances ==> x.cols == old(x.cols)
    ensures e.Ok? ==> s.Valid() && s.cols == old(s.cols).(expanded := true)
    ensures forall x :: x in s.instances ==> x in old(s.instances) || fresh(x)
  {
    ids' := ids;
    e := Ok;
    if !s.cols.expanded {
      ghost var created, clones, changed, orig;
      e, ids', created, clones, changed, orig := ExpandSeries(s, listing, src, args, now, ids);
    }
  }

  /** The part of build_series after expansion: the builders run if some instance is
      not done, then the completion. */
  method BuildExpandedSeries(s: Series, feed: Key -> InstanceBuild, idcHashes: Hashes, srcHashes: HashPair)
    returns (r: Outcome, ghost staged: map<Instance, InstanceCols>)
    requires s.Valid()
    modifies s, s.instances
    ensures s.instances == old(s.instances) && s.Valid()
    ensures forall x :: x in s.instances ==>
      x in staged && staged[x] == old(x.cols) && x.cols == InstanceAfterBuild(staged[x], feed(InstanceUid(x)))
    ensures SeriesCompleted(old(s.cols), s.cols, r, s.instances, idcHashes, srcHashes)
  {
    staged := map x | x in s.instances :: x.cols;
    if !AllInstancesDone(s.instances) {
      BuildPendingInstances(s.instances, feed);
    } else {
      assert forall x :: x in s.instances ==> x.cols == InstanceAfterBuild(staged[x], feed(InstanceUid(x)));
    }
    r := CompleteSeries(s, idcHashes, srcHashes);
  }

  /** `build_series`: expands the series if it is not expanded yet (failing as the
      expansion fails), builds the instances not yet done, then completes the series.
      `staged` holds the instances' columns between expansion and the builders. */
  method BuildSeries(s: Series, listing: Listing<Source>, src: Key -> string, args: Args,
                     now: Timestamp, ids: nat, feed: Key -> InstanceBuild,
                     idcHashes: Hashes, srcHashes: HashPair)
    returns (r: Outcome, ids': nat, ghost expansion: Outcome, ghost staged: map<Instance, InstanceCols>)
    requires s.Valid()
    modifies s, s.instances
    ensures old(s.cols.expanded) ==> expansion == Ok && s.instances == old(s.instances) && ids' == ids
    ensures expansion.Fail? ==>
      r == expansion && s.instances == old(s.instances) && s.cols == old(s.cols) && ids' == ids
      && forall x :: x in s.instances ==> x.cols == old(x.cols)
    ensures expansion.Ok? ==>
      && s.Valid() && s.cols.expanded
      && (forall x :: x in s.instances ==>
            x in staged && x.cols == InstanceAfterBuild(staged[x], feed(InstanceUid(x))))
      && (old(s.cols.expanded) ==> forall x :: x in s.instances ==> staged[x] == old(x.cols))
      && SeriesCompleted(old(s.cols).(expanded := true), s.cols, r, s.instances, idcHashes, srcHashes)
  {
    var e;
    e, ids' := ExpandSeriesIfNeeded(s, listing, src, args, now, ids);
    expansion := e;
    if e.Fail? {
      return e, ids', expansion, map[];
    }
    assert forall i :: 0 <= i < |s.instances| ==> s.instances[i] in s.instances;
    r, staged := BuildExpandedSeries(s, feed, idcHashes, srcHashes);
  }
}
