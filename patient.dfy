/** The patient level of the per-version reconciliation: a patient row owns its
    study rows; expansion reconciles them with what the sources report, and the
    build finishes the studies that are not done and then the patient itself. */
module PatientLevel {
  import opened Common
  import opened Sorting
  import opened Reconcile
  import opened StudyLevel

  /** The mutable columns of a `patient` row. */
  datatype PatientCols = PatientCols(
    idcCaseId: Uuid,
    minTimestamp: Option<Timestamp>,
    maxTimestamp: Option<Timestamp>,
    initIdcVersion: int,
    revIdcVersion: int,
    finalIdcVersion: int,
    done: bool,
    isNew: bool,
    expanded: bool,
    sources: Option<Flags>,
    hashes: Option<Hashes>,
    revised: Option<Flags>)

  class Patient {
    const submitterCaseId: Key
    const uuid: Uuid
    var cols: PatientCols
    var studies: seq<Study>

    constructor (submitterCaseId: Key, uuid: Uuid, cols: PatientCols, studies: seq<Study>)
      ensures this.submitterCaseId == submitterCaseId && this.uuid == uuid
      ensures this.cols == cols && this.studies == studies
    {
      this.submitterCaseId := submitterCaseId;
      this.uuid := uuid;
      this.cols := cols;
      this.studies := studies;
    }

    /** No two studies share a StudyInstanceUID, and a new patient that has not been
        expanded has no studies yet. */
    ghost predicate Valid()
      reads this
    {
      WellFormed(cols, studies)
    }
  }

  /** A patient row with these columns may own these studies. */
  ghost predicate WellFormed(c: PatientCols, studies: seq<Study>)
  {
    && Distinct(StudyKeys(studies))
    && (c.isNew && !c.expanded ==> studies == [])
  }

  function SubmitterCaseId(p: Patient): Key
  {
    p.submitterCaseId
  }

  function StudyKeys(s: seq<Study>): seq<Key>
  {
    Map(s, StudyUid)
  }

  /** The study with the given StudyInstanceUID (the `idc_objects` lookup). */
  function FindStudy(s: seq<Study>, k: Key): (r: Option<Study>)
    ensures r.Some? <==> k in StudyKeys(s)
    ensures r.Some? ==> r.value in s && r.value.studyInstanceUid == k
  {
    if k in StudyKeys(s) then
      var i := IndexOf(StudyKeys(s), k);
      Some(s[i])
    else None
  }

  /** Which sources changed a study since it was stored (no source, when it has no
      hashes to compare). */
  function StudyRevision(c: StudyCols, src: HashPair): Flags
  {
    if c.hashes.Some? then RevisedFlags(c.hashes.value, src) else NoSources
  }

  /** The row of a study first seen in this version. */
  function NewStudyCols(revised: Flags, args: Args, now: Timestamp): StudyCols
  {
    StudyCols(0, Some(now), Some(now), args.version, args.version, 0,
              false, true, false, None, None, Some(revised))
  }

  /** The clone of a revised study: to be rebuilt, stamped with this version. */
  function RevisedStudyCols(c: StudyCols, src: HashPair, args: Args): StudyCols
  {
    c.(revised := Some(StudyRevision(c, src)), done := false, isNew := false, expanded := false,
       hashes := None, revIdcVersion := args.version)
  }

  /** A study the sources did not change: checked now, nothing left to build. */
  function UnchangedStudyCols(c: StudyCols, now: Timestamp): StudyCols
  {
    c.(minTimestamp := Some(now), maxTimestamp := Some(now), done := true, expanded := true)
  }

  /** The keys of existing studies some source revised. */
  ghost function ChangedStudies(held: seq<Study>, existing: seq<Key>, src: Key -> HashPair): set<Key>
    reads held
  {
    set k | k in existing && FindStudy(held, k).Some?
                          && AnyRevised(StudyRevision(FindStudy(held, k).value.cols, src(k)))
  }

  /** With `orig` a snapshot of the held studies' columns, the changed keys are the
      existing keys whose snapshot some source revised. */
  lemma ChangedFromSnapshot(held: seq<Study>, existing: seq<Key>, src: Key -> HashPair,
                            orig: map<Study, StudyCols>)
    requires forall k :: k in existing ==> k in StudyKeys(held)
    requires forall x :: x in held ==> x in orig && x.cols == orig[x]
    ensures ChangedStudies(held, existing, src) <= Elems(existing)
    ensures forall k :: k in existing ==>
      FindStudy(held, k).Some? && (k in ChangedStudies(held, existing, src)
                                   <==> AnyRevised(StudyRevision(orig[FindStudy(held, k).value], src(k))))
  {
  }

  /** The first error the walk over the existing studies (in the given order) raises:
      a study with no stored hashes cannot be compared, and a revised study must be
      reported with this version as its revision. */
  function ExistingStudyError(held: seq<Study>, existing: seq<Key>, listing: Listing<Flags>,
                              src: Key -> HashPair, args: Args): (r: Option<Error>)
    reads held
    ensures r.None? <==> forall k :: k in existing && FindStudy(held, k).Some? ==>
      var c := FindStudy(held, k).value.cols;
      c.hashes.Some? && (AnyRevised(StudyRevision(c, src(k))) ==> listing.revVersion(k) == args.version)
  {
    if existing == [] then None
    else
      var k := existing[0];
      var o := FindStudy(held, k);
      if o.Some? && o.value.cols.hashes.None? then Some(MissingHashes)
      else if o.Some? && AnyRevised(StudyRevision(o.value.cols, src(k)))
              && listing.revVersion(k) != args.version then Some(RevisionMismatch)
      else ExistingStudyError(held, existing[1..], listing, src, args)
  }

  /** The walk over the existing studies as `expand_patient` writes it. Outside the
      many-to-many build the listing value of a study is its pair of revision flags
      (what a new study stores as `revised`), and the revision check subscripts that
      pair by `'rev_idc_version'`, which fails for every revised study. */
  function ExistingStudyErrorAsWritten(held: seq<Study>, existing: seq<Key>, src: Key -> HashPair): (r: Option<Error>)
    reads held
    ensures r.None? <==> forall k :: k in existing && FindStudy(held, k).Some? ==>
      var c := FindStudy(held, k).value.cols;
      c.hashes.Some? && !AnyRevised(StudyRevision(c, src(k)))
    ensures r.Some? ==> r.value == MissingHashes || r.value == BadSubscript
  {
    if existing == [] then None
    else
      var k := existing[0];
      var o := FindStudy(held, k);
      if o.Some? && o.value.cols.hashes.None? then Some(MissingHashes)
      else if o.Some? && AnyRevised(StudyRevision(o.value.cols, src(k))) then Some(BadSubscript)
      else ExistingStudyErrorAsWritten(held, existing[1..], src)
  }

  /** As written, expanding a patient whose existing studies all carry hashes fails as
      soon as one of them is revised, even where every revision is reported under this
      version and the walk the source intends goes through. */
  lemma RevisionAbortsAsWritten(held: seq<Study>, existing: seq<Key>, listing: Listing<Flags>,
                                src: Key -> HashPair, args: Args)
    requires forall k :: k in existing ==> listing.revVersion(k) == args.version
    requires forall k :: k in existing && FindStudy(held, k).Some? ==> FindStudy(held, k).value.cols.hashes.Some?
    requires exists k :: k in existing && FindStudy(held, k).Some?
                         && AnyRevised(StudyRevision(FindStudy(held, k).value.cols, src(k)))
    ensures ExistingStudyError(held, existing, listing, src, args).None?
    ensures ExistingStudyErrorAsWritten(held, existing, src) == Some(BadSubscript)
  {
    var r := ExistingStudyErrorAsWritten(held, existing, src);
    assert r.Some?;
    if r.value == MissingHashes {
      MissingHashesNeedsNone(held, existing, src);
    }
  }

  /** The walk as written reports missing hashes only for a held study without them. */
  lemma {:induction false} MissingHashesNeedsNone(held: seq<Study>, existing: seq<Key>, src: Key -> HashPair)
    requires ExistingStudyErrorAsWritten(held, existing, src) == Some(MissingHashes)
    ensures exists k :: k in existing && FindStudy(held, k).Some? && FindStudy(held, k).value.cols.hashes.None?
  {
    var k := existing[0];
    var o := FindStudy(held, k);
    if o.Some? && o.value.cols.hashes.None? {
      assert k in existing;
    } else {
      MissingHashesNeedsNone(held, existing[1..], src);
      var j :| j in existing[1..] && FindStudy(held, j).Some? && FindStudy(held, j).value.cols.hashes.None?;
      assert j in existing;
    }
  }

  /** Where a held study stands after the expansion has handled the keys in `handled`:
      untouched if not handled yet, checked-and-done if unchanged, and superseded or
      retired (final version set) otherwise. */
  function SettledStudy(c: StudyCols, k: Key, handled: set<Key>, existing: seq<Key>,
                        changed: set<Key>, args: Args, now: Timestamp): StudyCols
  {
    if k !in handled then c
    else if k in existing && k !in changed then UnchangedStudyCols(c, now)
    else c.(finalIdcVersion := args.previousVersion)
  }

  /** `clone_patient`: a new row under the given uuid with every column copied, and the
      same studies in the same order. */
  method ClonePatient(p: Patient, uuid: Uuid) returns (c: Patient)
    ensures fresh(c)
    ensures c.submitterCaseId == p.submitterCaseId && c.uuid == uuid
    ensures c.cols == p.cols && c.studies == p.studies
  {
    c := new Patient(p.submitterCaseId, uuid, p.cols, p.studies);
  }

  /** `retire_patient`: every study, then the patient, stops being current after the
      previous version. */
  method RetirePatient(args: Args, p: Patient)
    modifies p, p.studies
    ensures p.studies == old(p.studies)
    ensures p.cols == old(p.cols).(finalIdcVersion := args.previousVersion)
    ensures forall x :: x in p.studies ==> x.cols == old(x.cols).(finalIdcVersion := args.previousVersion)
  {
    var i := 0;
    while i < |p.studies|
      invariant 0 <= i <= |p.studies|
      invariant p.studies == old(p.studies) && p.cols == old(p.cols)
      invariant forall x :: x in p.studies ==>
        x.cols == if x in p.studies[..i] then old(x.cols).(finalIdcVersion := args.previousVersion) else old(x.cols)
    {
      var s := p.studies[i];
      assert s in old(p.studies);
      RetireStudy(args, s);
      assert p.studies[..i + 1] == p.studies[..i] + [s];
      i := i + 1;
    }
    assert p.studies[..i] == p.studies;
    p.cols := p.cols.(finalIdcVersion := args.previousVersion);
  }

  /** The rows made for the new keys: consecutive uuids from `ids`, each a new study
      with the flags the listing reports for its key. */
  ghost predicate NewRows(created: seq<Study>, keys: seq<Key>, listing: Listing<Flags>, args: Args,
                          now: Timestamp, ids: nat)
    reads created
  {
    |created| == |keys| &&
    forall j :: 0 <= j < |created| ==>
      created[j].uuid == ids + j && created[j].cols == NewStudyCols(listing.value(keys[j]), args, now)
  }

  /** The first pass of expand_patient: a row for each new key, in order, appended. */
  method AppendNewStudies(p: Patient, keys: seq<Key>, listing: Listing<Flags>, args: Args,
                          now: Timestamp, ids: nat)
    returns (ids': nat, ghost created: seq<Study>)
    modifies p
    ensures p.studies == old(p.studies) + created && p.cols == old(p.cols)
    ensures ids' == ids + |keys| && StudyKeys(created) == keys
    ensures (forall x :: x in created ==> fresh(x)) && NewRows(created, keys, listing, args, now, ids)
  {
    ids' := ids;
    created := [];
    var i := 0;
    while i < |keys|
      invariant 0 <= i <= |keys|
      invariant |created| == i && ids' == ids + i
      invariant p.studies == old(p.studies) + created && p.cols == old(p.cols)
      invariant StudyKeys(created) == keys[..i]
      invariant forall j :: 0 <= j < i ==>
        fresh(created[j]) && created[j].uuid == ids + j
        && created[j].cols == NewStudyCols(listing.value(keys[j]), args, now)
    {
      var s := new Study(keys[i], ids', NewStudyCols(listing.value(keys[i]), args, now));
      p.studies := p.studies + [s];
      created := created + [s];
      ids' := ids' + 1;
      i := i + 1;
    }
    assert keys[..i] == keys;
  }

  /** Where each held study stands, relative to its columns `orig` before expansion. */
  ghost predicate SettledRows(held: seq<Study>, orig: map<Study, StudyCols>, handled: set<Key>,
                              existing: seq<Key>, changed: set<Key>, args: Args, now: Timestamp)
    reads held
  {
    forall x :: x in held ==>
      x in orig && x.cols == SettledStudy(orig[x], StudyUid(x), handled, existing, changed, args, now)
  }

  /** The clones appended so far: consecutive uuids from `ids`, each the revised copy
      of the held study with its key. */
  ghost predicate ClonesOf(clones: seq<Study>, held: seq<Study>, orig: map<Study, StudyCols>,
                           src: Key -> HashPair, args: Args, ids: nat)
    reads clones
  {
    forall j :: 0 <= j < |clones| ==>
      var key := clones[j].studyInstanceUid;
      && clones[j].uuid == ids + j
      && FindStudy(held, key).Some? && FindStudy(held, key).value in orig
      && clones[j].cols == RevisedStudyCols(orig[FindStudy(held, key).value], src(key), args)
  }

  /** Retiring after the second pass settles the union of both passes' keys. */
  lemma SettledThenRetired(c: StudyCols, k: Key, existing: seq<Key>, retired: seq<Key>,
                           changed: set<Key>, args: Args, now: Timestamp)
    requires Elems(existing) !! Elems(retired)
    ensures var d := SettledStudy(c, k, Elems(existing), existing, changed, args, now);
      (if k in retired then d.(finalIdcVersion := args.previousVersion) else d)
      == SettledStudy(c, k, Elems(existing) + Elems(retired), existing, changed, args, now)
  {
  }

  /** How far the second pass has come after the first k existing keys: the studies
      it superseded are gone from the list and their clones follow `tail`; each held
      study is settled as far as those keys go. */
  ghost predicate Progress(p: Patient, held: seq<Study>, existing: seq<Key>, k: nat, changed: set<Key>,
                           orig: map<Study, StudyCols>, tail: seq<Study>, clones: seq<Study>,
                           start: nat, src: Key -> HashPair, args: Args, now: Timestamp, ids: nat)
    reads p, held, clones
  {
    && k <= |existing|
    && p.studies == Without(held, SupersededRows(held, StudyUid, Elems(existing[..k]), changed)) + (tail + clones)
    && SettledRows(held, orig, Elems(existing[..k]), existing, changed, args, now)
    && ids == start + |clones| && ClonesOf(clones, held, orig, src, args, start)
    && StudyKeys(clones) == Among(existing[..k], changed)
  }

  /** The clone of a revised study: every column copied, then this version's
      revision columns set. */
  method ReviseClone(x: Study, uuid: Uuid, hashes: HashPair, args: Args) returns (c: Study)
    ensures fresh(c)
    ensures c.studyInstanceUid == x.studyInstanceUid && c.uuid == uuid
    ensures c.cols == RevisedStudyCols(x.cols, hashes, args)
  {
    c := CloneStudy(x, uuid);
    c.cols := RevisedStudyCols(c.cols, hashes, args);
  }

  /** The k-th existing study, revised by some source: a clone carrying the new
      revision is appended, the old row stamped final and dropped. */
  method SupersedeStudy(p: Patient, held: seq<Study>, existing: seq<Key>, k: nat,
                        ghost changed: set<Key>, ghost orig: map<Study, StudyCols>,
                        ghost tail: seq<Study>, ghost clones: seq<Study>, ghost start: nat,
                        src: Key -> HashPair, args: Args, now: Timestamp, ids: nat)
    returns (ids': nat, c: Study)
    requires Distinct(StudyKeys(held)) && Distinct(existing) && k < |existing|
    requires FindStudy(held, existing[k]).Some? && FindStudy(held, existing[k]).value in orig
    requires existing[k] in changed
    requires FindStudy(held, existing[k]).value.cols == orig[FindStudy(held, existing[k]).value]
    requires forall x :: x in tail + clones ==> x !in held
    requires Progress(p, held, existing, k, changed, orig, tail, clones, start, src, args, now, ids)
    modifies p, FindStudy(held, existing[k]).value
    ensures p.cols == old(p.cols) && fresh(c)
    ensures Progress(p, held, existing, k + 1, changed, orig, tail, clones + [c], start, src, args, now, ids')
  {
    var key := existing[k];
    PrefixStep(existing, k, changed);
    ghost var handled := Elems(existing[..k]);
    var s := FindStudy(held, key).value;
    DistinctKeysDistinctRows(held, StudyUid);
    c := ReviseClone(s, ids, src(key), args);
    ids' := ids + 1;
    p.studies := p.studies + [c];
    s.cols := s.cols.(finalIdcVersion := args.previousVersion);
    assert p.studies == Without(held, SupersededRows(held, StudyUid, handled, changed)) + (tail + (clones + [c]));
    SupersedeShape(held, StudyUid, handled, changed, s, tail + (clones + [c]));
    p.studies := RemoveFirst(p.studies, s);
    MapConcat(clones, [c], StudyUid);
  }

  /** The k-th existing study, unchanged in every source: checked now and done. */
  method CheckStudy(p: Patient, held: seq<Study>, existing: seq<Key>, k: nat,
                    ghost changed: set<Key>, ghost orig: map<Study, StudyCols>,
                    ghost tail: seq<Study>, ghost clones: seq<Study>, ghost start: nat,
                    src: Key -> HashPair, args: Args, now: Timestamp, ids: nat)
    requires Distinct(StudyKeys(held)) && Distinct(existing) && k < |existing|
    requires FindStudy(held, existing[k]).Some? && FindStudy(held, existing[k]).value in orig
    requires existing[k] !in changed
    requires forall x :: x in tail + clones ==> x !in held
    requires Progress(p, held, existing, k, changed, orig, tail, clones, start, src, args, now, ids)
    modifies FindStudy(held, existing[k]).value
    ensures Progress(p, held, existing, k + 1, changed, orig, tail, clones, start, src, args, now, ids)
  {
    var key := existing[k];
    PrefixStep(existing, k, changed);
    var s := FindStudy(held, key).value;
    DistinctKeysDistinctRows(held, StudyUid);
    SupersededStep(held, StudyUid, Elems(existing[..k]), changed, s);
    assert SupersededRows(held, StudyUid, Elems(existing[..k + 1]), changed)
        == SupersededRows(held, StudyUid, Elems(existing[..k]), changed);
    s.cols := UnchangedStudyCols(s.cols, now);
    assert StudyKeys(clones) == Among(existing[..k + 1], changed);
  }

  /** The second pass of expand_patient: each existing study, in key order, is replaced
      by a clone if some source revised it, and otherwise marked checked and done. */
  method ReviseExistingStudies(p: Patient, held: seq<Study>, existing: seq<Key>,
                               ghost changed: set<Key>, ghost tail: seq<Study>,
                               ghost orig: map<Study, StudyCols>,
                               src: Key -> HashPair, args: Args, now: Timestamp, ids: nat)
    returns (ids': nat, ghost clones: seq<Study>)
    requires Distinct(StudyKeys(held)) && Distinct(existing)
    requires forall x :: x in held ==> x in orig && x.cols == orig[x]
    requires forall k :: k in existing ==>
      FindStudy(held, k).Some? && (k in changed <==> AnyRevised(StudyRevision(orig[FindStudy(held, k).value], src(k))))
    requires p.studies == held + tail && forall x :: x in tail ==> x !in held
    modifies p, held
    ensures p.cols == old(p.cols)
    ensures p.studies == Without(held, SupersededRows(held, StudyUid, Elems(existing), changed)) + (tail + clones)
    ensures ids' == ids + |clones| && StudyKeys(clones) == Among(existing, changed)
    ensures (forall x :: x in clones ==> fresh(x)) && ClonesOf(clones, held, orig, src, args, ids)
    ensures SettledRows(held, orig, Elems(existing), existing, changed, args, now)
  {
    WithoutNothing(held);
    assert Elems(existing[..0]) == {};
    assert SupersededRows(held, StudyUid, {}, changed) == {};
    ids' := ids;
    clones := [];
    var k := 0;
    while k < |existing|
      invariant 0 <= k <= |existing|
      invariant p.cols == old(p.cols)
      invariant forall x :: x in clones ==> fresh(x)
      invariant Progress(p, held, existing, k, changed, orig, tail, clones, ids, src, args, now, ids')
    {
      var key := existing[k];
      var s := FindStudy(held, key).value;
      if AnyRevised(StudyRevision(s.cols, src(key))) {
        var c;
        ids', c := SupersedeStudy(p, held, existing, k, changed, orig, tail, clones, ids, src, args, now, ids');
        clones := clones + [c];
      } else {
        CheckStudy(p, held, existing, k, changed, orig, tail, clones, ids, src, args, now, ids');
      }
      k := k + 1;
    }
    assert existing[..k] == existing;
  }

  /** The third pass of expand_patient: each study no longer reported is retired and
      dropped from the patient. */
  method RetireVanishedStudies(p: Patient, held: seq<Study>, retired: seq<Key>,
                               ghost removed: set<Study>, ghost tail: seq<Study>, args: Args,
                               ghost orig: map<Study, StudyCols>, ghost existing: seq<Key>,
                               ghost changed: set<Key>, ghost now: Timestamp)
    requires Distinct(StudyKeys(held)) && Distinct(retired)
    requires forall k :: k in retired ==> k in StudyKeys(held)
    requires forall x :: x in removed ==> x in held && StudyUid(x) !in retired
    requires p.studies == Without(held, removed) + tail && forall x :: x in tail ==> x !in held
    requires Elems(existing) !! Elems(retired)
    requires SettledRows(held, orig, Elems(existing), existing, changed, args, now)
    modifies p, held
    ensures p.cols == old(p.cols)
    ensures p.studies == Without(held, removed + RowsKeyedBy(held, StudyUid, Elems(retired))) + tail
    ensures forall x :: x in held ==>
      x.cols == if StudyUid(x) in retired then old(x.cols).(finalIdcVersion := args.previousVersion)
                else old(x.cols)
    ensures SettledRows(held, orig, Elems(existing) + Elems(retired), existing, changed, args, now)
  {
    DistinctKeysDistinctRows(held, StudyUid);
    ghost var gone := removed;
    var m := 0;
    while m < |retired|
      invariant 0 <= m <= |retired|
      invariant p.studies == Without(held, gone) + tail && p.cols == old(p.cols)
      invariant forall x :: x in held ==> (x in gone <==> x in removed || StudyUid(x) in retired[..m])
      invariant forall x :: x in held ==>
        x.cols == if StudyUid(x) in retired[..m] then old(x.cols).(finalIdcVersion := args.previousVersion)
                  else old(x.cols)
    {
      var key := retired[m];
      var s := FindStudy(held, key).value;
      assert key !in retired[..m];
      RetireStudy(args, s);
      RemoveFirstWithout(held, gone, tail, s);
      p.studies := RemoveFirst(p.studies, s);
      gone := gone + {s};
      assert retired[..m + 1] == retired[..m] + [key];
      m := m + 1;
    }
    assert retired[..m] == retired;
    forall x | x in held
      ensures x.cols == SettledStudy(orig[x], StudyUid(x), Elems(existing) + Elems(retired),
                                     existing, changed, args, now)
    {
      SettledThenRetired(orig[x], StudyUid(x), existing, retired, changed, args, now);
    }
    FilterCongruent(held, x => x !in gone, x => x !in removed + RowsKeyedBy(held, StudyUid, Elems(retired)));
  }

  /** The second and third passes of expand_patient over the held studies: revised
      ones replaced by clones, unchanged ones marked done, vanished ones retired, all
      dropped ones removed from the list and the clones appended after `tail`. */
  method SupersedeStudies(p: Patient, held: seq<Study>, sp: Split, ghost changed: set<Key>,
                          ghost orig: map<Study, StudyCols>, ghost tail: seq<Study>,
                          src: Key -> HashPair, args: Args, now: Timestamp, ids: nat)
    returns (ids': nat, ghost clones: seq<Study>)
    requires Distinct(StudyKeys(held)) && p.studies == held + tail && forall x :: x in tail ==> x !in held
    requires Distinct(sp.existing) && Distinct(sp.retired) && Elems(sp.existing) !! Elems(sp.retired)
    requires forall k :: k in sp.retired ==> k in StudyKeys(held)
    requires forall x :: x in held ==> x in orig && x.cols == orig[x]
    requires changed <= Elems(sp.existing)
    requires forall k :: k in sp.existing ==>
      FindStudy(held, k).Some? && (k in changed <==> AnyRevised(StudyRevision(orig[FindStudy(held, k).value], src(k))))
    modifies p, held
    ensures p.cols == old(p.cols)
    ensures p.studies == Without(held, RowsKeyedBy(held, StudyUid, Elems(sp.retired) + changed)) + (tail + clones)
    ensures StudyKeys(clones) == Among(sp.existing, changed) && ids' == ids + |clones|
    ensures (forall x :: x in clones ==> fresh(x)) && ClonesOf(clones, held, orig, src, args, ids)
    ensures SettledRows(held, orig, Elems(sp.existing) + Elems(sp.retired), sp.existing, changed, args, now)
  {
    ids', clones := ReviseExistingStudies(p, held, sp.existing, changed, tail, orig, src, args, now, ids);
    SupersededAll(held, StudyUid, Elems(sp.existing), changed);
    ghost var revisedRows := RowsKeyedBy(held, StudyUid, changed);
    assert forall x :: x in tail + clones ==> x !in held;
    RetireVanishedStudies(p, held, sp.retired, revisedRows, tail + clones, args,
                          orig, sp.existing, changed, now);
    RowsKeyedByUnion(held, StudyUid, changed, Elems(sp.retired));
    assert changed + Elems(sp.retired) == Elems(sp.retired) + changed;
  }

  /** The three passes of expand_patient over a listing split into new, existing and
      vanished keys. `orig` holds the columns of the held studies before the passes. */
  method ReconcileStudies(p: Patient, held: seq<Study>, sp: Split, ghost changed: set<Key>,
                          ghost orig: map<Study, StudyCols>, listing: Listing<Flags>,
                          src: Key -> HashPair, args: Args, now: Timestamp, ids: nat)
    returns (ids': nat, ghost created: seq<Study>, ghost clones: seq<Study>)
    requires Distinct(StudyKeys(held)) && p.studies == held
    requires Distinct(sp.existing) && Distinct(sp.retired) && Elems(sp.existing) !! Elems(sp.retired)
    requires forall k :: k in sp.retired ==> k in StudyKeys(held)
    requires forall x :: x in held ==> x in orig && x.cols == orig[x]
    requires changed <= Elems(sp.existing)
    requires forall k :: k in sp.existing ==>
      FindStudy(held, k).Some? && (k in changed <==> AnyRevised(StudyRevision(orig[FindStudy(held, k).value], src(k))))
    modifies p, held
    ensures p.cols == old(p.cols)
    ensures p.studies == Without(held, RowsKeyedBy(held, StudyUid, Elems(sp.retired) + changed))
                         + created + clones
    ensures StudyKeys(p.studies) == Reconciled(StudyKeys(held), sp, changed)
    ensures StudyKeys(created) == sp.created && StudyKeys(clones) == Among(sp.existing, changed)
    ensures ids' == ids + |created| + |clones|
    ensures (forall x :: x in created ==> fresh(x)) && NewRows(created, sp.created, listing, args, now, ids)
    ensures (forall x :: x in clones ==> fresh(x)) && ClonesOf(clones, held, orig, src, args, ids + |created|)
    ensures SettledRows(held, orig, Elems(sp.existing) + Elems(sp.retired), sp.existing, changed, args, now)
    ensures forall x :: x in p.studies ==> x in held || fresh(x)
  {
    var idsNew;
    idsNew, created := AppendNewStudies(p, sp.created, listing, args, now, ids);
    assert forall x :: x in created ==> x !in held;
    ids', clones := SupersedeStudies(p, held, sp, changed, orig, created, src, args, now, idsNew);
    ReconciledRows(held, StudyUid, sp, changed, created, clones);
  }

  /** `expand_patient`: reconciles the patient's studies with the listing the sources
      report. A repeated key, a study without stored hashes, or a revised study reported
      under another revision fails and changes nothing; otherwise the three passes run
      and the patient is marked expanded. */
  method ExpandPatient(p: Patient, listing: Listing<Flags>, src: Key -> HashPair, args: Args,
                       now: Timestamp, ids: nat)
    returns (r: Outcome, ids': nat, ghost created: seq<Study>, ghost clones: seq<Study>,
             ghost changed: set<Key>, ghost orig: map<Study, StudyCols>)
    requires Distinct(StudyKeys(p.studies))
    modifies p, p.studies
    ensures forall x :: x in p.studies ==> x in old(p.studies) || fresh(x)
    ensures forall x :: x in old(p.studies) ==> x in orig && orig[x] == old(x.cols)
    ensures var held := old(p.studies);
      var sp := Partition(old(p.cols.isNew), StudyKeys(held), listing.ids);
      && (r.Fail? <==> HasDuplicates(listing.ids)
                       || old(ExistingStudyError(held, sp.existing, listing, src, args)).Some?)
      && (r.Fail? ==> r.error == if HasDuplicates(listing.ids) then DuplicateChildren
                                 else old(ExistingStudyError(held, sp.existing, listing, src, args)).value)
      && (r.Fail? ==> p.studies == held && p.cols == old(p.cols) && ids' == ids
                      && forall x :: x in held ==> x.cols == old(x.cols))
      && (r.Ok? ==>
        && changed == old(ChangedStudies(held, sp.existing, src))
        && p.cols == old(p.cols).(expanded := true)
        && StudyKeys(p.studies) == Reconciled(StudyKeys(held), sp, changed)
        && p.studies == Without(held, RowsKeyedBy(held, StudyUid, Elems(sp.retired) + changed))
                        + created + clones
        && StudyKeys(created) == sp.created
        && StudyKeys(clones) == Among(sp.existing, changed)
        && ids' == ids + |created| + |clones|
        && (forall x :: x in created ==> fresh(x))
        && NewRows(created, sp.created, listing, args, now, ids)
        && (forall x :: x in clones ==> fresh(x))
        && ClonesOf(clones, held, orig, src, args, ids + |created|)
        && SettledRows(held, orig, Elems(sp.existing) + Elems(sp.retired), sp.existing, changed, args, now))
    ensures r.Ok? && !(old(p.cols.isNew) && old(p.cols.expanded)) && old(p.Valid()) ==> p.Valid()
  {
    var held := p.studies;
    var heldKeys := StudyKeys(held);
    orig := map x | x in held :: x.cols;
    ids' := ids;
    created := [];
    clones := [];
    changed := {};
    if HasDuplicates(listing.ids) {
      return Fail(DuplicateChildren), ids', created, clones, changed, orig;
    }
    var sp := Partition(p.cols.isNew, heldKeys, listing.ids);
    var err := ExistingStudyError(held, sp.existing, listing, src, args);
    if err.Some? {
      return Fail(err.value), ids', created, clones, changed, orig;
    }
    PartitionHeld(p.cols.isNew, heldKeys, listing.ids);
    ChangedFromSnapshot(held, sp.existing, src, orig);
    changed := ChangedStudies(held, sp.existing, src);
    // Marking the patient expanded before the passes, rather than after, is not
    // observable: none of them reads the flag.
    p.cols := p.cols.(expanded := true);
    ids', created, clones := ReconcileStudies(p, held, sp, changed, orig, listing, src, args, now, ids);
    if !old(p.cols.isNew) {
      ReconciledMatchesListing(heldKeys, listing.ids, changed);
    } else if !old(p.cols.expanded) && old(p.Valid()) {
      ReconciledWhenNew(heldKeys, listing.ids, changed);
    }
    r := Ok;
  }

  /** A study after the build loop: built from its report unless already done. */
  function AfterBuild(c: StudyCols, b: StudyBuild): (r: StudyCols)
    ensures c.done ==> r == c
    ensures !c.done ==> r.done == b.done && r.maxTimestamp == b.maxTimestamp
                        && r.finalIdcVersion == c.finalIdcVersion
  {
    if c.done then c else Built(c, b)
  }

  /** `all([study.done for study in patient.studies])` */
  predicate AllStudiesDone(s: seq<Study>)
    reads s
  {
    forall x :: x in s ==> x.cols.done
  }

  /** The studies' max_timestamp columns, in order. */
  function StudyMaxes(s: seq<Study>): (r: seq<Option<Timestamp>>)
    reads s
    ensures |r| == |s| && forall i :: 0 <= i < |s| ==> r[i] == s[i].cols.maxTimestamp
  {
    seq(|s|, i requires 0 <= i < |s| reads s => s[i].cols.maxTimestamp)
  }

  /** The build loop of build_patient: every study not yet done is built from what
      its build reports; done ones are left as they are. */
  method BuildPendingStudies(kids: seq<Study>, feed: Key -> StudyBuild)
    requires Distinct(StudyKeys(kids))
    modifies set x | x in kids
    ensures forall x :: x in kids ==> x.cols == AfterBuild(old(x.cols), feed(StudyUid(x)))
  {
    DistinctKeysDistinctRows(kids, StudyUid);
    for i := 0 to |kids|
      invariant forall j :: 0 <= j < i ==> kids[j].cols == AfterBuild(old(kids[j].cols), feed(StudyUid(kids[j])))
      invariant forall j :: i <= j < |kids| ==> kids[j].cols == old(kids[j].cols)
    {
      var s := kids[i];
      if !s.cols.done {
        BuildStudy(s, feed(s.studyInstanceUid));
      }
    }
  }

  /** The completion of build_patient: once every study is done, the patient takes the
      latest study timestamp (failing where none has one), and is marked done with its
      hashes and sources only if the per-source hashes the engine computes equal what
      the sources report; a mismatch fails and leaves it not done. */
  method CompletePatient(p: Patient, idcHashes: Hashes, srcHashes: HashPair, accum: Flags)
    returns (r: Outcome)
    modifies p
    ensures p.studies == old(p.studies)
    ensures !AllStudiesDone(p.studies) ==> r == Ok && p.cols == old(p.cols)
    ensures AllStudiesDone(p.studies) && LatestTimestamp(StudyMaxes(p.studies)).None? ==>
      r == Fail(EmptyMax) && p.cols == old(p.cols)
    ensures AllStudiesDone(p.studies) && LatestTimestamp(StudyMaxes(p.studies)).Some? ==>
      var stamped := old(p.cols).(maxTimestamp := LatestTimestamp(StudyMaxes(p.studies)));
      if PerSource(idcHashes) == srcHashes then
        r == Ok && p.cols == stamped.(hashes := Some(idcHashes), sources := Some(accum), done := true)
      else r == Fail(HashMismatch) && p.cols == stamped
  {
    if !AllStudiesDone(p.studies) {
      return Ok;
    }
    var latest := LatestTimestamp(StudyMaxes(p.studies));
    if latest.None? {
      return Fail(EmptyMax);
    }
    var cols := p.cols.(maxTimestamp := latest);
    r := Ok;
    if PerSource(idcHashes) == srcHashes {
      cols := cols.(hashes := Some(idcHashes), sources := Some(accum), done := true);
    } else {
      r := Fail(HashMismatch);
    }
    SetPatientCols(p, cols);
  }

  method SetPatientCols(p: Patient, cols: PatientCols)
    modifies p
    ensures p.cols == cols && p.studies == old(p.studies)
  {
    p.cols := cols;
  }

  /** The first step of build_patient: expands the patient unless it is expanded
      already. A failed expansion changes nothing. */
  method ExpandIfNeeded(p: Patient, listing: Listing<Flags>, src: Key -> HashPair, args: Args,
                        now: Timestamp, ids: nat)
    returns (e: Outcome, ids': nat)
    requires p.Valid()
    modifies p, p.studies
    ensures old(p.cols.expanded) ==> e == Ok && p.studies == old(p.studies) && p.cols == old(p.cols) && ids' == ids
                                     && forall x :: x in p.studies ==> x.cols == old(x.cols)
    ensures e.Fail? ==>
      p.studies == old(p.studies) && p.cols == old(p.cols) && ids' == ids
      && forall x :: x in p.studies ==> x.cols == old(x.cols)
    ensures e.Ok? ==> p.Valid() && p.cols.expanded && p.cols.done == old(p.cols.done)
    ensures forall x :: x in p.studies ==> x in old(p.studies) || fresh(x)
  {
    ids' := ids;
    e := Ok;
    if !p.cols.expanded {
      ghost var created, clones, changed, orig;
      e, ids', created, clones, changed, orig := ExpandPatient(p, listing, src, args, now, ids);
    }
  }

  /** `build_patient`: expands the patient if it is not expanded yet (failing as the
      expansion fails), builds the studies not yet done, then completes the patient.
      `staged` holds the studies' columns between expansion and the build loop. */
  method BuildPatient(p: Patient, listing: Listing<Flags>, src: Key -> HashPair, args: Args,
                      now: Timestamp, ids: nat, feed: Key -> StudyBuild,
                      idcHashes: Hashes, srcHashes: HashPair, accum: Flags)
    returns (r: Outcome, ids': nat, ghost expansion: Outcome, ghost staged: map<Study, StudyCols>)
    requires p.Valid()
    modifies p, p.studies
    ensures old(p.cols.expanded) ==> expansion == Ok && p.studies == old(p.studies) && ids' == ids
    ensures expansion.Fail? ==>
      r == expansion && p.studies == old(p.studies) && p.cols == old(p.cols) && ids' == ids
      && forall x :: x in p.studies ==> x.cols == old(x.cols)
    ensures expansion.Ok? ==>
      && p.Valid() && p.cols.expanded
      && (forall x :: x in p.studies ==> x in staged && x.cols == AfterBuild(staged[x], feed(StudyUid(x))))
      && (old(p.cols.expanded) ==> forall x :: x in p.studies ==> staged[x] == old(x.cols))
      && (r == Fail(EmptyMax) <==> AllStudiesDone(p.studies) && LatestTimestamp(StudyMaxes(p.studies)).None?)
      && (r == Fail(HashMismatch) <==>
            AllStudiesDone(p.studies) && LatestTimestamp(StudyMaxes(p.studies)).Some?
            && PerSource(idcHashes) != srcHashes)
      && (r.Fail? ==> r == Fail(EmptyMax) || r == Fail(HashMismatch))
      && (p.cols.done <==> old(p.cols.done) || (r.Ok? && AllStudiesDone(p.studies)))
      && (p.cols.done && !old(p.cols.done) ==>
            PerSource(idcHashes) == srcHashes && p.cols.hashes == Some(idcHashes) && p.cols.sources == Some(accum))
      && (AllStudiesDone(p.studies) && LatestTimestamp(StudyMaxes(p.studies)).Some? ==>
            p.cols.maxTimestamp == LatestTimestamp(StudyMaxes(p.studies)))
  {
    var e;
    e, ids' := ExpandIfNeeded(p, listing, src, args, now, ids);
    expansion := e;
    if e.Fail? {
      return e, ids', expansion, map[];
    }
    staged := map x | x in p.studies :: x.cols;
    BuildPendingStudies(p.studies, feed);
    r := CompletePatient(p, idcHashes, srcHashes, accum);
  }
}
