/** The collection level of the per-version reconciliation: a collection row owns
    its patient rows; expansion reconciles them with what the sources report, and
    the (sequential) build finishes the patients that are not done and then the
    collection itself. */
module CollectionLevel {
  import opened Common
  import opened Reconcile
  import opened StudyLevel
  import opened PatientLevel

  /** The mutable columns of a `collection` row. */
  datatype CollectionCols = CollectionCols(
    idcCollectionId: Key,
    minTimestamp: Option<Timestamp>,
    maxTimestamp: Option<Timestamp>,
    initIdcVersion: int,
    revIdcVersion: int,
    finalIdcVersion: int,
    done: bool,
    isNew: bool,
    expanded: bool,
    sources: Option<Flags>,
    hashes: Option<Hashes>,
    revised: Option<Flags>)

  class Collection {
    const collectionId: Key
    const uuid: Uuid
    var cols: CollectionCols
    var patients: seq<Patient>

    constructor (collectionId: Key, uuid: Uuid, cols: CollectionCols, patients: seq<Patient>)
      ensures this.collectionId == collectionId && this.uuid == uuid
      ensures this.cols == cols && this.patients == patients
    {
      this.collectionId := collectionId;
      this.uuid := uuid;
      this.cols := cols;
      this.patients := patients;
    }

    /** No two patients share a submitter_case_id, a new collection that has not been
        expanded has no patients yet, and every patient is well formed. */
    ghost predicate Valid()
      reads this, patients
    {
      && Distinct(PatientKeys(patients))
      && (cols.isNew && !cols.expanded ==> patients == [])
      && forall x :: x in patients ==> WellFormed(x.cols, x.studies)
    }
  }

  function PatientKeys(s: seq<Patient>): seq<Key>
  {
    Map(s, SubmitterCaseId)
  }

  /** The patient with the given submitter_case_id (the `idc_objects` lookup). */
  function FindPatient(s: seq<Patient>, k: Key): (r: Option<Patient>)
    ensures r.Some? <==> k in PatientKeys(s)
    ensures r.Some? ==> r.value in s && r.value.submitterCaseId == k
  {
    if k in PatientKeys(s) then
      var i := IndexOf(PatientKeys(s), k);
      Some(s[i])
    else None
  }

  /** Which sources changed a patient since it was stored. */
  function PatientRevision(c: PatientCols, src: HashPair): Flags
  {
    if c.hashes.Some? then RevisedFlags(c.hashes.value, src) else NoSources
  }

  /** The row of a patient first seen in this version; `caseId` is its idc_case_id. */
  function NewPatientCols(revised: Flags, args: Args, now: Timestamp, caseId: Uuid): PatientCols
  {
    PatientCols(caseId, Some(now), Some(now), args.version, args.version, 0,
                false, true, false, Some(NoSources), None, Some(revised))
  }

  /** The clone of a revised patient: to be rebuilt from no sources, stamped with
      this version. */
  function RevisedPatientCols(c: PatientCols, src: HashPair, args: Args): PatientCols
  {
    c.(revised := Some(PatientRevision(c, src)), done := false, isNew := false, expanded := false,
       hashes := None, sources := Some(NoSources), revIdcVersion := args.version)
  }

  /** A patient the sources did not change: checked now, nothing left to build. */
  function UnchangedPatientCols(c: PatientCols, now: Timestamp): PatientCols
  {
    c.(minTimestamp := Some(now), maxTimestamp := Some(now), done := true, expanded := true)
  }

  /** The keys of existing patients some source revised. */
  ghost function ChangedPatients(held: seq<Patient>, existing: seq<Key>, src: Key -> HashPair): set<Key>
    reads held
  {
    set k | k in existing && FindPatient(held, k).Some?
                          && AnyRevised(PatientRevision(FindPatient(held, k).value.cols, src(k)))
  }

  lemma ChangedPatientsFromSnapshot(held: seq<Patient>, existing: seq<Key>, src: Key -> HashPair,
                                    orig: map<Patient, PatientCols>)
    requires forall k :: k in existing ==> k in PatientKeys(held)
    requires forall x :: x in held ==> x in orig && x.cols == orig[x]
    ensures ChangedPatients(held, existing, src) <= Elems(existing)
    ensures forall k :: k in existing ==>
      FindPatient(held, k).Some? && (k in ChangedPatients(held, existing, src)
                                     <==> AnyRevised(PatientRevision(orig[FindPatient(held, k).value], src(k))))
  {
  }

  /** The error the walk over the existing patients raises: a patient with no stored
      hashes cannot be compared with the sources. */
  function ExistingPatientError(held: seq<Patient>, existing: seq<Key>): (r: Option<Error>)
    reads held
    ensures r.None? <==> forall k :: k in existing && FindPatient(held, k).Some? ==>
      FindPatient(held, k).value.cols.hashes.Some?
    ensures r.Some? ==> r.value == MissingHashes
  {
    if existing == [] then None
    else
      var o := FindPatient(held, existing[0]);
      if o.Some? && o.value.cols.hashes.None? then Some(MissingHashes)
      else ExistingPatientError(held, existing[1..])
  }

  /** Where a held patient stands after the expansion has handled the keys in
      `handled`: untouched, checked-and-done, or superseded or retired. */
  function SettledPatient(c: PatientCols, k: Key, handled: set<Key>, existing: seq<Key>,
                          changed: set<Key>, args: Args, now: Timestamp): PatientCols
  {
    if k !in handled then c
    else if k in existing && k !in changed then UnchangedPatientCols(c, now)
    else c.(finalIdcVersion := args.previousVersion)
  }

  /** Expansion keeps every patient it leaves in place, or clones, well formed. */
  lemma SettledKeepsWellFormed(c: PatientCols, studies: seq<Study>, k: Key, handled: set<Key>,
                               existing: seq<Key>, changed: set<Key>, src: HashPair, args: Args,
                               now: Timestamp)
    requires WellFormed(c, studies)
    ensures WellFormed(SettledPatient(c, k, handled, existing, changed, args, now), studies)
    ensures WellFormed(RevisedPatientCols(c, src, args), studies)
  {
  }

  /** `clone_collection`: a new row under the given uuid with every column copied,
      and the same patients in the same order. */
  method CloneCollection(c: Collection, uuid: Uuid) returns (n: Collection)
    ensures fresh(n)
    ensures n.collectionId == c.collectionId && n.uuid == uuid
    ensures n.cols == c.cols && n.patients == c.patients
  {
    n := new Collection(c.collectionId, uuid, c.cols, c.patients);
  }

  /** The studies of the given patients, as the patients hold them. */
  ghost function StudiesOf(ps: seq<Patient>): set<Study>
    reads ps
  {
    if ps == [] then {} else StudiesOf(ps[..|ps| - 1]) + Elems(ps[|ps| - 1].studies)
  }

  /** The studies of the given patients, as the snapshot `kids` records them. */
  ghost function StudiesIn(ps: seq<Patient>, kids: map<Patient, seq<Study>>): set<Study>
  {
    if ps == [] then {}
    else StudiesIn(ps[..|ps| - 1], kids) + (if ps[|ps| - 1] in kids then Elems(kids[ps[|ps| - 1]]) else {})
  }

  lemma PrefixSnoc<T>(s: seq<T>, i: nat)
    requires i < |s|
    ensures s[..i + 1] == s[..i] + [s[i]]
  {
  }

  lemma StudiesInSnoc(ps: seq<Patient>, x: Patient, kids: map<Patient, seq<Study>>)
    requires x in kids
    ensures StudiesIn(ps + [x], kids) == StudiesIn(ps, kids) + Elems(kids[x])
  {
    assert (ps + [x])[..|ps|] == ps;
  }

  lemma {:induction false} StudiesInSnapshot(ps: seq<Patient>, kids: map<Patient, seq<Study>>)
    requires forall x :: x in ps ==> x in kids && kids[x] == x.studies
    ensures StudiesIn(ps, kids) == StudiesOf(ps)
  {
    if ps != [] {
      StudiesInSnapshot(ps[..|ps| - 1], kids);
    }
  }

  lemma {:induction false} StudiesInMember(ps: seq<Patient>, kids: map<Patient, seq<Study>>, x: Patient)
    requires x in ps && x in kids
    ensures Elems(kids[x]) <= StudiesIn(ps, kids)
  {
    if ps[|ps| - 1] != x {
      assert ps == ps[..|ps| - 1] + [ps[|ps| - 1]];
      StudiesInMember(ps[..|ps| - 1], kids, x);
    }
  }

  /** Patients with distinct submitter case ids are distinct rows. */
  lemma OtherRow(ps: seq<Patient>, i: int, j: int)
    requires Distinct(PatientKeys(ps)) && 0 <= i < |ps| && 0 <= j < |ps| && i != j
    ensures ps[i] != ps[j]
  {
    assert PatientKeys(ps)[i] != PatientKeys(ps)[j];
  }

  /** How far retire_collection has come: the patients in `retired` and the studies in
      `stamped` carry the previous version as their final one; the rest are as the
      snapshots `origP` and `origS` record them. */
  ghost predicate RetiredSoFar(ps: seq<Patient>, kids: map<Patient, seq<Study>>, all: set<Study>,
                               origP: map<Patient, PatientCols>, origS: map<Study, StudyCols>,
                               retired: seq<Patient>, stamped: set<Study>, args: Args)
    reads ps, all
  {
    && (forall x :: x in ps ==>
          && x in kids && x.studies == kids[x] && x in origP
          && x.cols == if x in retired then origP[x].(finalIdcVersion := args.previousVersion) else origP[x])
    && (forall s :: s in all ==>
          s in origS && s.cols == if s in stamped then origS[s].(finalIdcVersion := args.previousVersion) else origS[s])
  }

  /** One patient of a retiring walk: it and its studies are stamped. */
  method RetireOneOf(args: Args, ps: seq<Patient>, p: Patient, ghost kids: map<Patient, seq<Study>>,
                     ghost all: set<Study>,
                     ghost origP: map<Patient, PatientCols>, ghost origS: map<Study, StudyCols>,
                     ghost retired: seq<Patient>, ghost stamped: set<Study>, ghost others: seq<Patient>)
    requires p in ps && RetiredSoFar(ps, kids, all, origP, origS, retired, stamped, args)
    requires forall s :: s in p.studies ==> s in all
    requires p !in others
    modifies p, p.studies
    ensures RetiredSoFar(ps, kids, all, origP, origS, retired + [p], stamped + Elems(kids[p]), args)
    ensures forall x :: x in others ==> x.cols == old(x.cols) && x.studies == old(x.studies)
  {
    RetirePatient(args, p);
  }

  /** The loop of retire_collection: each patient in turn, with its studies, stamped. */
  method RetireAllPatients(args: Args, ps: seq<Patient>, ghost kids: map<Patient, seq<Study>>,
                           ghost all: set<Study>, ghost origP: map<Patient, PatientCols>,
                           ghost origS: map<Study, StudyCols>)
    requires all == StudiesIn(ps, kids)
    requires RetiredSoFar(ps, kids, all, origP, origS, [], {}, args)
    modifies ps, all
    ensures RetiredSoFar(ps, kids, all, origP, origS, ps, all, args)
  {
    ghost var retired: seq<Patient> := [];
    ghost var stamped: set<Study> := {};
    var i := 0;
    while i < |ps|
      invariant 0 <= i <= |ps|
      invariant retired == ps[..i] && stamped == StudiesIn(retired, kids)
      invariant RetiredSoFar(ps, kids, all, origP, origS, retired, stamped, args)
    {
      PrefixSnoc(ps, i);
      StudiesInSnoc(retired, ps[i], kids);
      StudiesInMember(ps, kids, ps[i]);
      RetireOneOf(args, ps, ps[i], kids, all, origP, origS, retired, stamped, []);
      retired := retired + [ps[i]];
      stamped := stamped + Elems(kids[ps[i]]);
      i := i + 1;
    }
    assert retired == ps;
  }

  /** `retire_collection`: every patient with its studies, then the collection, stops
      being current after the previous version. */
  method RetireCollection(args: Args, c: Collection)
    modifies c, c.patients, StudiesOf(c.patients)
    ensures c.patients == old(c.patients)
    ensures c.cols == old(c.cols).(finalIdcVersion := args.previousVersion)
    ensures forall x :: x in c.patients ==>
      x.studies == old(x.studies) && x.cols == old(x.cols).(finalIdcVersion := args.previousVersion)
    ensures forall x, s :: x in c.patients && s in old(x.studies) ==>
      s.cols == old(s.cols).(finalIdcVersion := args.previousVersion)
  {
    RetireEveryPatient(args, c.patients);
    SetFinalVersion(c, args.previousVersion);
  }

  /** The patient loop of retire_collection: every patient and every study of it get
      the previous version as their final one. */
  method RetireEveryPatient(args: Args, ps: seq<Patient>)
    modifies ps, StudiesOf(ps)
    ensures forall x :: x in ps ==>
      x.studies == old(x.studies) && x.cols == old(x.cols).(finalIdcVersion := args.previousVersion)
    ensures forall x, s :: x in ps && s in old(x.studies) ==>
      s.cols == old(s.cols).(finalIdcVersion := args.previousVersion)
  {
    ghost var kids: map<Patient, seq<Study>> := map x: Patient | x in ps :: x.studies;
    ghost var all: set<Study> := StudiesIn(ps, kids);
    StudiesInSnapshot(ps, kids);
    ghost var origP: map<Patient, PatientCols> := map x: Patient | x in ps :: x.cols;
    ghost var origS: map<Study, StudyCols> := map s: Study | s in all :: s.cols;
    RetireAllPatients(args, ps, kids, all, origP, origS);
    forall x, s | x in ps && s in kids[x]
      ensures s in all
    {
      StudiesInMember(ps, kids, x);
    }
  }

  method SetFinalVersion(c: Collection, version: int)
    modifies c
    ensures c.cols == old(c.cols).(finalIdcVersion := version) && c.patients == old(c.patients)
  {
    c.cols := c.cols.(finalIdcVersion := version);
  }

  /** The rows made for the new keys: each takes two ids from `ids`, first its
      idc_case_id and then its uuid, and starts with no studies. */
  ghost predicate NewPatientRows(created: seq<Patient>, keys: seq<Key>, listing: Listing<Flags>,
                                 args: Args, now: Timestamp, ids: nat)
    reads created
  {
    |created| == |keys| &&
    forall j :: 0 <= j < |created| ==>
      && created[j].uuid == ids + 2 * j + 1 && created[j].studies == []
      && created[j].cols == NewPatientCols(listing.value(keys[j]), args, now, ids + 2 * j)
  }

  /** The first pass of expand_collection: a row for each new key, in order, appended
      to the collection's list of patients `list`. */
  method AppendNewPatients(list: seq<Patient>, keys: seq<Key>, listing: Listing<Flags>, args: Args,
                           now: Timestamp, ids: nat)
    returns (list': seq<Patient>, ids': nat, ghost created: seq<Patient>)
    ensures list' == list + created
    ensures ids' == ids + 2 * |keys| && PatientKeys(created) == keys
    ensures (forall x :: x in created ==> fresh(x)) && NewPatientRows(created, keys, listing, args, now, ids)
  {
    list' := list;
    ids' := ids;
    created := [];
    var i := 0;
    while i < |keys|
      invariant 0 <= i <= |keys|
      invariant |created| == i && ids' == ids + 2 * i
      invariant list' == list + created
      invariant PatientKeys(created) == keys[..i]
      invariant forall j :: 0 <= j < i ==>
        && fresh(created[j]) && created[j].uuid == ids + 2 * j + 1 && created[j].studies == []
        && created[j].cols == NewPatientCols(listing.value(keys[j]), args, now, ids + 2 * j)
    {
      var x := new Patient(keys[i], ids' + 1, NewPatientCols(listing.value(keys[i]), args, now, ids'), []);
      list' := list' + [x];
      created := created + [x];
      ids' := ids' + 2;
      i := i + 1;
    }
    assert keys[..i] == keys;
  }

  /** Where each held patient stands, relative to its columns `orig` before expansion;
      none of them has its list of studies changed. */
  ghost predicate SettledPatients(held: seq<Patient>, orig: map<Patient, PatientCols>,
                                  kids: map<Patient, seq<Study>>, handled: set<Key>,
                                  existing: seq<Key>, changed: set<Key>, args: Args, now: Timestamp)
    reads held
  {
    forall x :: x in held ==>
      && x in orig && x in kids && x.studies == kids[x]
      && x.cols == SettledPatient(orig[x], SubmitterCaseId(x), handled, existing, changed, args, now)
  }

  /** The clones appended so far, one for each held patient in `froms`: consecutive
      uuids from `ids`, each the revised copy of its patient, under its key and sharing
      its studies. */
  ghost predicate PatientClonesOf(clones: seq<Patient>, froms: seq<Patient>, held: seq<Patient>,
                                  orig: map<Patient, PatientCols>, kids: map<Patient, seq<Study>>,
                                  src: Key -> HashPair, args: Args, ids: nat)
    reads clones
  {
    |clones| == |froms| &&
    forall j :: 0 <= j < |clones| ==>
      && froms[j] in held && froms[j] in orig && froms[j] in kids
      && clones[j].submitterCaseId == froms[j].submitterCaseId && clones[j].uuid == ids + j
      && clones[j].cols == RevisedPatientCols(orig[froms[j]], src(froms[j].submitterCaseId), args)
      && clones[j].studies == kids[froms[j]]
  }

  /** How far the second pass has come after the first k existing keys. */
  ghost predicate PatientProgress(list: seq<Patient>, held: seq<Patient>, existing: seq<Key>, k: nat,
                                  changed: set<Key>, orig: map<Patient, PatientCols>,
                                  kids: map<Patient, seq<Study>>, tail: seq<Patient>,
                                  clones: seq<Patient>, froms: seq<Patient>, start: nat,
                                  src: Key -> HashPair, args: Args, now: Timestamp, ids: nat)
    reads held, clones
  {
    && k <= |existing|
    && list == Without(held, SupersededRows(held, SubmitterCaseId, Elems(existing[..k]), changed)) + (tail + clones)
    && SettledPatients(held, orig, kids, Elems(existing[..k]), existing, changed, args, now)
    && ids == start + |clones| && PatientClonesOf(clones, froms, held, orig, kids, src, args, start)
    && PatientKeys(clones) == Among(existing[..k], changed)
  }

  /** The k-th existing patient, revised by some source: a clone carrying the new
      revision and the same studies is appended, the old row stamped final and dropped. */
  method SupersedePatient(list: seq<Patient>, held: seq<Patient>, existing: seq<Key>, k: nat,
                          ghost changed: set<Key>, ghost orig: map<Patient, PatientCols>,
                          ghost kids: map<Patient, seq<Study>>,
                          ghost tail: seq<Patient>, ghost clones: seq<Patient>, ghost froms: seq<Patient>,
                          ghost start: nat, src: Key -> HashPair, args: Args, now: Timestamp, ids: nat)
    returns (list': seq<Patient>, ids': nat, n: Patient)
    requires Distinct(PatientKeys(held)) && Distinct(existing) && k < |existing|
    requires FindPatient(held, existing[k]).Some? && FindPatient(held, existing[k]).value in orig
    requires existing[k] in changed
    requires FindPatient(held, existing[k]).value.cols == orig[FindPatient(held, existing[k]).value]
    requires forall x :: x in tail + clones ==> x !in held
    requires PatientProgress(list, held, existing, k, changed, orig, kids, tail, clones, froms, start, src, args, now, ids)
    modifies FindPatient(held, existing[k]).value
    ensures fresh(n)
    ensures PatientProgress(list', held, existing, k + 1, changed, orig, kids, tail, clones + [n],
                            froms + [FindPatient(held, existing[k]).value], start, src, args, now, ids')
  {
    var key := existing[k];
    PrefixStep(existing, k, changed);
    ghost var handled := Elems(existing[..k]);
    var p := FindPatient(held, key).value;
    DistinctKeysDistinctRows(held, SubmitterCaseId);
    n := ClonePatient(p, ids);
    n.cols := RevisedPatientCols(n.cols, src(key), args);
    ids' := ids + 1;
    list' := list + [n];
    p.cols := p.cols.(finalIdcVersion := args.previousVersion);
    assert list' == Without(held, SupersededRows(held, SubmitterCaseId, handled, changed)) + (tail + (clones + [n]));
    SupersedeShape(held, SubmitterCaseId, handled, changed, p, tail + (clones + [n]));
    list' := RemoveFirst(list', p);
    MapConcat(clones, [n], SubmitterCaseId);
  }

  /** The k-th existing patient, unchanged in every source: checked now and done. */
  method CheckPatient(list: seq<Patient>, held: seq<Patient>, existing: seq<Key>, k: nat,
                      ghost changed: set<Key>, ghost orig: map<Patient, PatientCols>,
                      ghost kids: map<Patient, seq<Study>>,
                      ghost tail: seq<Patient>, ghost clones: seq<Patient>, ghost froms: seq<Patient>,
                      ghost start: nat, src: Key -> HashPair, args: Args, now: Timestamp, ids: nat)
    requires Distinct(PatientKeys(held)) && Distinct(existing) && k < |existing|
    requires FindPatient(held, existing[k]).Some? && FindPatient(held, existing[k]).value in orig
    requires existing[k] !in changed
    requires forall x :: x in tail + clones ==> x !in held
    requires PatientProgress(list, held, existing, k, changed, orig, kids, tail, clones, froms, start, src, args, now, ids)
    modifies FindPatient(held, existing[k]).value
    ensures PatientProgress(list, held, existing, k + 1, changed, orig, kids, tail, clones, froms, start, src, args, now, ids)
  {
    var key := existing[k];
    PrefixStep(existing, k, changed);
    var p := FindPatient(held, key).value;
    DistinctKeysDistinctRows(held, SubmitterCaseId);
    SupersededStep(held, SubmitterCaseId, Elems(existing[..k]), changed, p);
    assert SupersededRows(held, SubmitterCaseId, Elems(existing[..k + 1]), changed)
        == SupersededRows(held, SubmitterCaseId, Elems(existing[..k]), changed);
    p.cols := UnchangedPatientCols(p.cols, now);
    assert PatientKeys(clones) == Among(existing[..k + 1], changed);
  }

  /** The k-th existing patient of the second pass: superseded by a clone when some
      source revised it, otherwise checked and done. */
  method RevisePatientAt(list: seq<Patient>, held: seq<Patient>, existing: seq<Key>, k: nat,
                         ghost changed: set<Key>, ghost orig: map<Patient, PatientCols>,
                         ghost kids: map<Patient, seq<Study>>,
                         ghost tail: seq<Patient>, ghost clones: seq<Patient>, ghost froms: seq<Patient>,
                         ghost start: nat, src: Key -> HashPair, args: Args, now: Timestamp, ids: nat)
    returns (list': seq<Patient>, ids': nat, ghost clones': seq<Patient>, ghost froms': seq<Patient>)
    requires Distinct(PatientKeys(held)) && Distinct(existing) && k < |existing|
    requires FindPatient(held, existing[k]).Some? && FindPatient(held, existing[k]).value in orig
    requires existing[k] in changed <==> AnyRevised(PatientRevision(orig[FindPatient(held, existing[k]).value], src(existing[k])))
    requires forall x :: x in tail + clones ==> x !in held
    requires PatientProgress(list, held, existing, k, changed, orig, kids, tail, clones, froms, start, src, args, now, ids)
    modifies FindPatient(held, existing[k]).value
    ensures forall x :: x in clones' ==> x in clones || fresh(x)
    ensures PatientProgress(list', held, existing, k + 1, changed, orig, kids, tail, clones', froms', start, src, args, now, ids')
  {
    var key := existing[k];
    var p := FindPatient(held, key).value;
    PrefixStep(existing, k, changed);
    assert p.cols == orig[p];
    if AnyRevised(PatientRevision(p.cols, src(key))) {
      var n;
      list', ids', n := SupersedePatient(list, held, existing, k, changed, orig, kids, tail, clones, froms, start, src, args, now, ids);
      clones' := clones + [n];
      froms' := froms + [p];
    } else {
      CheckPatient(list, held, existing, k, changed, orig, kids, tail, clones, froms, start, src, args, now, ids);
      list', ids', clones', froms' := list, ids, clones, froms;
    }
  }

  /** The second pass of expand_collection: each existing patient, in key order, is
      replaced by a clone if some source revised it, and otherwise marked checked and done. */
  method ReviseExistingPatients(list: seq<Patient>, held: seq<Patient>, existing: seq<Key>,
                                ghost changed: set<Key>, ghost tail: seq<Patient>,
                                ghost orig: map<Patient, PatientCols>, ghost kids: map<Patient, seq<Study>>,
                                src: Key -> HashPair, args: Args, now: Timestamp, ids: nat)
    returns (list': seq<Patient>, ids': nat, ghost clones: seq<Patient>, ghost froms: seq<Patient>)
    requires Distinct(PatientKeys(held)) && Distinct(existing)
    requires forall x :: x in held ==> x in orig && x.cols == orig[x] && x in kids && x.studies == kids[x]
    requires forall k :: k in existing ==>
      FindPatient(held, k).Some? && (k in changed <==> AnyRevised(PatientRevision(orig[FindPatient(held, k).value], src(k))))
    requires list == held + tail && forall x :: x in tail ==> x !in held
    modifies held
    ensures list' == Without(held, SupersededRows(held, SubmitterCaseId, Elems(existing), changed)) + (tail + clones)
    ensures ids' == ids + |clones| && PatientKeys(clones) == Among(existing, changed)
    ensures (forall x :: x in clones ==> fresh(x)) && PatientClonesOf(clones, froms, held, orig, kids, src, args, ids)
    ensures SettledPatients(held, orig, kids, Elems(existing), existing, changed, args, now)
    ensures forall x :: x in tail ==> x.cols == old(x.cols) && x.studies == old(x.studies)
  {
    WithoutNothing(held);
    assert Elems(existing[..0]) == {};
    assert SupersededRows(held, SubmitterCaseId, {}, changed) == {};
    list' := list;
    ids' := ids;
    clones := [];
    froms := [];
    var k := 0;
    while k < |existing|
      invariant 0 <= k <= |existing|
      invariant forall x :: x in clones ==> fresh(x)
      invariant PatientProgress(list', held, existing, k, changed, orig, kids, tail, clones, froms, ids, src, args, now, ids')
    {
      list', ids', clones, froms := RevisePatientAt(list', held, existing, k, changed, orig, kids, tail, clones, froms, ids, src, args, now, ids');
      k := k + 1;
    }
    assert existing[..k] == existing;
  }

  /** The patients with the given keys, in the order of the keys. */
  function PatientsKeyed(held: seq<Patient>, keys: seq<Key>): (r: seq<Patient>)
    requires forall k :: k in keys ==> k in PatientKeys(held)
    ensures |r| == |keys| && forall j :: 0 <= j < |keys| ==> r[j] in held && r[j].submitterCaseId == keys[j]
  {
    if keys == [] then [] else PatientsKeyed(held, keys[..|keys| - 1]) + [FindPatient(held, keys[|keys| - 1]).value]
  }

  /** A held patient is among the ones keyed by `keys` exactly when its key is. */
  lemma PatientsKeyedMembers(held: seq<Patient>, keys: seq<Key>, x: Patient)
    requires Distinct(PatientKeys(held)) && x in held
    requires forall k :: k in keys ==> k in PatientKeys(held)
    ensures x in PatientsKeyed(held, keys) <==> x.submitterCaseId in keys
  {
    var r := PatientsKeyed(held, keys);
    DistinctKeysDistinctRows(held, SubmitterCaseId);
    if x.submitterCaseId in keys {
      var j :| 0 <= j < |keys| && keys[j] == x.submitterCaseId;
      var a, b := IndexOf(held, r[j]), IndexOf(held, x);
      assert SubmitterCaseId(held[a]) == SubmitterCaseId(held[b]);
    }
  }

  /** Retiring after the second pass settles the union of both passes' keys. */
  lemma SettledPatientThenRetired(c: PatientCols, k: Key, existing: seq<Key>, retired: seq<Key>,
                                  changed: set<Key>, args: Args, now: Timestamp)
    requires Elems(existing) !! Elems(retired)
    ensures var d := SettledPatient(c, k, Elems(existing), existing, changed, args, now);
      (if k in retired then d.(finalIdcVersion := args.previousVersion) else d)
      == SettledPatient(c, k, Elems(existing) + Elems(retired), existing, changed, args, now)
  {
  }

  /** The rows `tail` after the held ones keep the columns and studies `tailCols` and
      `tailKids` record. */
  ghost predicate RowsAsRecorded(tail: seq<Patient>, tailCols: map<Patient, PatientCols>,
                                 tailKids: map<Patient, seq<Study>>)
    reads tail
  {
    forall x :: x in tail ==> x in tailCols && x.cols == tailCols[x] && x in tailKids && x.studies == tailKids[x]
  }

  /** The bookkeeping of the third pass that does not depend on the heap: where the
      list, the set of dropped rows, the retired patients and their studies stand. */
  ghost predicate RetireListed(list: seq<Patient>, held: seq<Patient>, retired: seq<Key>, m: nat,
                               removed: set<Patient>, gone: set<Patient>, tail: seq<Patient>,
                               kids: map<Patient, seq<Study>>, rs: seq<Patient>, stamped: set<Study>)
  {
    && m <= |retired| && (forall k :: k in retired ==> k in PatientKeys(held))
    && list == Without(held, gone) + tail
    && (forall x :: x in held ==> (x in gone <==> x in removed || x in rs))
    && rs == PatientsKeyed(held, retired[..m]) && stamped == StudiesIn(rs, kids)
  }

  /** One step of that bookkeeping: the patient with the m-th vanished key is dropped. */
  lemma RetireListedStep(list: seq<Patient>, held: seq<Patient>, retired: seq<Key>, m: nat,
                         removed: set<Patient>, gone: set<Patient>, tail: seq<Patient>,
                         kids: map<Patient, seq<Study>>, rs: seq<Patient>, stamped: set<Study>, p: Patient)
    requires Distinct(PatientKeys(held)) && Distinct(retired) && m < |retired|
    requires forall x :: x in removed ==> x in held && SubmitterCaseId(x) !in retired
    requires forall x :: x in tail ==> x !in held
    requires p in kids && RetireListed(list, held, retired, m, removed, gone, tail, kids, rs, stamped)
    requires p == FindPatient(held, retired[m]).value
    ensures RetireListed(RemoveFirst(list, p), held, retired, m + 1, removed, gone + {p}, tail, kids,
                         rs + [p], stamped + Elems(kids[p]))
  {
    DistinctKeysDistinctRows(held, SubmitterCaseId);
    PrefixSnoc(retired, m);
    PatientsKeyedMembers(held, retired[..m], p);
    StudiesInSnoc(rs, p, kids);
    RemoveFirstWithout(held, gone, tail, p);
  }

  /** The m-th vanished key of the third pass: its patient and that patient's studies
      are retired, and the patient dropped from `list`. */
  method RetirePatientAt(list: seq<Patient>, held: seq<Patient>, retired: seq<Key>, m: nat,
                         ghost removed: set<Patient>, ghost gone: set<Patient>, ghost tail: seq<Patient>,
                         args: Args, ghost kids: map<Patient, seq<Study>>, ghost all: set<Study>,
                         ghost origR: map<Patient, PatientCols>, ghost origS: map<Study, StudyCols>,
                         ghost tailCols: map<Patient, PatientCols>, ghost tailKids: map<Patient, seq<Study>>,
                         ghost rs: seq<Patient>, ghost stamped: set<Study>)
    returns (list': seq<Patient>, ghost gone': set<Patient>, ghost rs': seq<Patient>, ghost stamped': set<Study>)
    requires Distinct(PatientKeys(held)) && Distinct(retired) && m < |retired|
    requires forall x :: x in removed ==> x in held && SubmitterCaseId(x) !in retired
    requires forall x :: x in tail ==> x !in held
    requires all == StudiesIn(held, kids)
    requires RetireListed(list, held, retired, m, removed, gone, tail, kids, rs, stamped)
    requires RetiredSoFar(held, kids, all, origR, origS, rs, stamped, args)
    requires RowsAsRecorded(tail, tailCols, tailKids)
    modifies held, all
    ensures RetireListed(list', held, retired, m + 1, removed, gone', tail, kids, rs', stamped')
    ensures RetiredSoFar(held, kids, all, origR, origS, rs', stamped', args)
    ensures RowsAsRecorded(tail, tailCols, tailKids)
  {
    var p := FindPatient(held, retired[m]).value;
    RetireListedStep(list, held, retired, m, removed, gone, tail, kids, rs, stamped, p);
    StudiesInMember(held, kids, p);
    list', gone', rs', stamped' := RemoveFirst(list, p), gone + {p}, rs + [p], stamped + Elems(kids[p]);
    RetireOneOf(args, held, p, kids, all, origR, origS, rs, stamped, tail);
  }

  /** At the end of the third pass, its bookkeeping names the rows dropped and the
      patients retired by their keys. */
  lemma RetireListedDone(list: seq<Patient>, held: seq<Patient>, retired: seq<Key>,
                         removed: set<Patient>, gone: set<Patient>, tail: seq<Patient>,
                         kids: map<Patient, seq<Study>>, rs: seq<Patient>, stamped: set<Study>)
    requires Distinct(PatientKeys(held))
    requires RetireListed(list, held, retired, |retired|, removed, gone, tail, kids, rs, stamped)
    ensures list == Without(held, removed + RowsKeyedBy(held, SubmitterCaseId, Elems(retired))) + tail
    ensures rs == PatientsKeyed(held, retired) && stamped == StudiesIn(rs, kids)
    ensures forall x :: x in held ==> (x in rs <==> SubmitterCaseId(x) in retired)
  {
    assert retired[..|retired|] == retired;
    forall x | x in held
      ensures x in rs <==> SubmitterCaseId(x) in retired
    {
      PatientsKeyedMembers(held, retired, x);
    }
    FilterCongruent(held, x => x !in gone, x => x !in removed + RowsKeyedBy(held, SubmitterCaseId, Elems(retired)));
  }

  /** The loop of the third pass, over the vanished keys in order. */
  method RetireEachVanished(list: seq<Patient>, held: seq<Patient>, retired: seq<Key>,
                            ghost removed: set<Patient>, ghost tail: seq<Patient>, args: Args,
                            ghost kids: map<Patient, seq<Study>>, ghost all: set<Study>,
                            ghost origR: map<Patient, PatientCols>, ghost origS: map<Study, StudyCols>,
                            ghost tailCols: map<Patient, PatientCols>, ghost tailKids: map<Patient, seq<Study>>)
    returns (list': seq<Patient>, ghost gone: set<Patient>, ghost rs: seq<Patient>, ghost stamped: set<Study>)
    requires Distinct(PatientKeys(held)) && Distinct(retired)
    requires forall x :: x in removed ==> x in held && SubmitterCaseId(x) !in retired
    requires forall x :: x in tail ==> x !in held
    requires all == StudiesIn(held, kids)
    requires RetireListed(list, held, retired, 0, removed, removed, tail, kids, [], {})
    requires RetiredSoFar(held, kids, all, origR, origS, [], {}, args)
    requires RowsAsRecorded(tail, tailCols, tailKids)
    modifies held, all
    ensures RetireListed(list', held, retired, |retired|, removed, gone, tail, kids, rs, stamped)
    ensures RetiredSoFar(held, kids, all, origR, origS, rs, stamped, args)
    ensures RowsAsRecorded(tail, tailCols, tailKids)
  {
    list', gone, rs, stamped := list, removed, [], {};
    var m := 0;
    while m < |retired|
      invariant 0 <= m
      invariant RetireListed(list', held, retired, m, removed, gone, tail, kids, rs, stamped)
      invariant RetiredSoFar(held, kids, all, origR, origS, rs, stamped, args)
      invariant RowsAsRecorded(tail, tailCols, tailKids)
    {
      list', gone, rs, stamped := RetirePatientAt(list', held, retired, m, removed, gone, tail, args, kids, all,
                                                 origR, origS, tailCols, tailKids, rs, stamped);
      assert RetireListed(list', held, retired, m + 1, removed, gone, tail, kids, rs, stamped);
      m := m + 1;
    }
  }

  /** The third pass of expand_collection: each patient no longer reported is retired,
      with its studies, and dropped from the collection's list of patients, `list`.
      `rs` are those patients; the studies they hold, and only those, are stamped. */
  method RetireVanishedPatients(list: seq<Patient>, held: seq<Patient>, retired: seq<Key>,
                                ghost removed: set<Patient>, ghost tail: seq<Patient>, args: Args,
                                ghost orig: map<Patient, PatientCols>, ghost kids: map<Patient, seq<Study>>, ghost all: set<Study>,
                                ghost origS: map<Study, StudyCols>, ghost existing: seq<Key>,
                                ghost changed: set<Key>, ghost now: Timestamp)
    returns (list': seq<Patient>, ghost rs: seq<Patient>)
    requires Distinct(PatientKeys(held)) && Distinct(retired)
    requires forall k :: k in retired ==> k in PatientKeys(held)
    requires forall x :: x in removed ==> x in held && SubmitterCaseId(x) !in retired
    requires list == Without(held, removed) + tail && forall x :: x in tail ==> x !in held
    requires Elems(existing) !! Elems(retired)
    requires SettledPatients(held, orig, kids, Elems(existing), existing, changed, args, now)
    requires all == StudiesIn(held, kids) && forall s :: s in all ==> s in origS && s.cols == origS[s]
    modifies held, all
    ensures list' == Without(held, removed + RowsKeyedBy(held, SubmitterCaseId, Elems(retired))) + tail
    ensures SettledPatients(held, orig, kids, Elems(existing) + Elems(retired), existing, changed, args, now)
    ensures rs == PatientsKeyed(held, retired)
    ensures forall s :: s in all ==>
      s.cols == if s in StudiesIn(rs, kids) then origS[s].(finalIdcVersion := args.previousVersion) else origS[s]
    ensures forall x :: x in tail ==> x.cols == old(x.cols) && x.studies == old(x.studies)
  {
    ghost var origR: map<Patient, PatientCols> := map x: Patient | x in held :: x.cols;
    ghost var tailCols: map<Patient, PatientCols> := map x: Patient | x in tail :: x.cols;
    ghost var tailKids: map<Patient, seq<Study>> := map x: Patient | x in tail :: x.studies;
    assert PatientsKeyed(held, retired[..0]) == [];
    ghost var gone, stamped;
    list', gone, rs, stamped := RetireEachVanished(list, held, retired, removed, tail, args, kids, all,
                                                   origR, origS, tailCols, tailKids);
    RetireListedDone(list', held, retired, removed, gone, tail, kids, rs, stamped);
    forall x | x in held
      ensures x.cols == SettledPatient(orig[x], SubmitterCaseId(x), Elems(existing) + Elems(retired),
                                       existing, changed, args, now)
    {
      SettledPatientThenRetired(orig[x], SubmitterCaseId(x), existing, retired, changed, args, now);
    }
  }

  /** The third pass of expand_collection, run on the list the second pass left:
      the vanished patients are retired and dropped while the clones keep what the
      second pass made of them. */
  method RetireAfterRevision(revised: seq<Patient>, held: seq<Patient>, sp: Split, ghost changed: set<Key>,
                             ghost orig: map<Patient, PatientCols>, ghost kids: map<Patient, seq<Study>>, ghost all: set<Study>,
                             ghost origS: map<Study, StudyCols>, ghost tail: seq<Patient>,
                             ghost clones: seq<Patient>, ghost froms: seq<Patient>,
                             ghost src: Key -> HashPair, args: Args, ghost now: Timestamp, ghost ids: nat)
    returns (list': seq<Patient>, ghost rs: seq<Patient>)
    requires Distinct(PatientKeys(held)) && forall x :: x in tail + clones ==> x !in held
    requires Distinct(sp.retired) && Elems(sp.existing) !! Elems(sp.retired) && changed <= Elems(sp.existing)
    requires forall k :: k in sp.retired ==> k in PatientKeys(held)
    requires revised == Without(held, RowsKeyedBy(held, SubmitterCaseId, changed)) + (tail + clones)
    requires PatientClonesOf(clones, froms, held, orig, kids, src, args, ids)
    requires SettledPatients(held, orig, kids, Elems(sp.existing), sp.existing, changed, args, now)
    requires all == StudiesIn(held, kids) && forall s :: s in all ==> s in origS && s.cols == origS[s]
    modifies held, all
    ensures list' == Without(held, RowsKeyedBy(held, SubmitterCaseId, changed) +
                                   RowsKeyedBy(held, SubmitterCaseId, Elems(sp.retired))) + (tail + clones)
    ensures PatientClonesOf(clones, froms, held, orig, kids, src, args, ids)
    ensures SettledPatients(held, orig, kids, Elems(sp.existing) + Elems(sp.retired), sp.existing, changed, args, now)
    ensures rs == PatientsKeyed(held, sp.retired)
    ensures forall s :: s in all ==>
      s.cols == if s in StudiesIn(rs, kids) then origS[s].(finalIdcVersion := args.previousVersion) else origS[s]
    ensures forall x :: x in tail ==> x.cols == old(x.cols) && x.studies == old(x.studies)
  {
    list', rs := RetireVanishedPatients(revised, held, sp.retired, RowsKeyedBy(held, SubmitterCaseId, changed),
                                       tail + clones, args, orig, kids, all, origS, sp.existing, changed, now);
    forall j | 0 <= j < |clones|
      ensures clones[j].cols == old(clones[j].cols) && clones[j].studies == old(clones[j].studies)
    {
      assert clones[j] in tail + clones;
    }
  }

  /** The second and third passes of expand_collection over the held patients: revised
      ones replaced by clones, unchanged ones marked done, vanished ones retired with
      their studies, all dropped ones removed and the clones appended after `tail`. */
  method SupersedePatients(list: seq<Patient>, held: seq<Patient>, sp: Split, ghost changed: set<Key>,
                           ghost orig: map<Patient, PatientCols>, ghost kids: map<Patient, seq<Study>>, ghost all: set<Study>,
                           ghost origS: map<Study, StudyCols>, ghost tail: seq<Patient>,
                           src: Key -> HashPair, args: Args, now: Timestamp, ids: nat)
    returns (list': seq<Patient>, ids': nat, ghost clones: seq<Patient>, ghost froms: seq<Patient>,
             ghost rs: seq<Patient>)
    requires Distinct(PatientKeys(held)) && list == held + tail && forall x :: x in tail ==> x !in held
    requires Distinct(sp.existing) && Distinct(sp.retired) && Elems(sp.existing) !! Elems(sp.retired)
    requires forall k :: k in sp.retired ==> k in PatientKeys(held)
    requires forall x :: x in held ==> x in orig && x.cols == orig[x] && x in kids && x.studies == kids[x]
    requires all == StudiesIn(held, kids) && forall s :: s in all ==> s in origS && s.cols == origS[s]
    requires changed <= Elems(sp.existing)
    requires forall k :: k in sp.existing ==>
      FindPatient(held, k).Some? && (k in changed <==> AnyRevised(PatientRevision(orig[FindPatient(held, k).value], src(k))))
    modifies held, all
    ensures list' == Without(held, RowsKeyedBy(held, SubmitterCaseId, Elems(sp.retired) + changed)) + (tail + clones)
    ensures PatientKeys(clones) == Among(sp.existing, changed) && ids' == ids + |clones|
    ensures (forall x :: x in clones ==> fresh(x)) && PatientClonesOf(clones, froms, held, orig, kids, src, args, ids)
    ensures SettledPatients(held, orig, kids, Elems(sp.existing) + Elems(sp.retired), sp.existing, changed, args, now)
    ensures rs == PatientsKeyed(held, sp.retired)
    ensures forall s :: s in all ==>
      s.cols == if s in StudiesIn(rs, kids) then origS[s].(finalIdcVersion := args.previousVersion) else origS[s]
    ensures forall x :: x in tail ==> x.cols == old(x.cols) && x.studies == old(x.studies)
  {
    var revised;
    revised, ids', clones, froms := ReviseExistingPatients(list, held, sp.existing, changed, tail, orig, kids, src, args, now, ids);
    SupersededAll(held, SubmitterCaseId, Elems(sp.existing), changed);
    list', rs := RetireAfterRevision(revised, held, sp, changed, orig, kids, all, origS, tail, clones, froms,
                                     src, args, now, ids);
    WithoutRowsKeyedBy(held, SubmitterCaseId, changed, Elems(sp.retired));
  }

  /** The second and third passes run after the first: the new rows `created` sit
      after the held patients and keep what the first pass made of them. */
  method SupersedeAfterNew(list: seq<Patient>, held: seq<Patient>, sp: Split, ghost changed: set<Key>,
                           ghost orig: map<Patient, PatientCols>, ghost kids: map<Patient, seq<Study>>, ghost all: set<Study>,
                           ghost origS: map<Study, StudyCols>, ghost created: seq<Patient>, ghost listing: Listing<Flags>,
                           src: Key -> HashPair, args: Args, now: Timestamp, ghost ids: nat, idsNew: nat)
    returns (list': seq<Patient>, ids': nat, ghost clones: seq<Patient>, ghost froms: seq<Patient>,
             ghost rs: seq<Patient>)
    requires Distinct(PatientKeys(held)) && list == held + created && forall x :: x in created ==> x !in held
    requires NewPatientRows(created, sp.created, listing, args, now, ids)
    requires Distinct(sp.existing) && Distinct(sp.retired) && Elems(sp.existing) !! Elems(sp.retired)
    requires forall k :: k in sp.retired ==> k in PatientKeys(held)
    requires forall x :: x in held ==> x in orig && x.cols == orig[x] && x in kids && x.studies == kids[x]
    requires all == StudiesIn(held, kids) && forall s :: s in all ==> s in origS && s.cols == origS[s]
    requires changed <= Elems(sp.existing)
    requires forall k :: k in sp.existing ==>
      FindPatient(held, k).Some? && (k in changed <==> AnyRevised(PatientRevision(orig[FindPatient(held, k).value], src(k))))
    modifies held, all
    ensures list' == Without(held, RowsKeyedBy(held, SubmitterCaseId, Elems(sp.retired) + changed)) + (created + clones)
    ensures PatientKeys(clones) == Among(sp.existing, changed) && ids' == idsNew + |clones|
    ensures NewPatientRows(created, sp.created, listing, args, now, ids)
    ensures (forall x :: x in clones ==> fresh(x)) && PatientClonesOf(clones, froms, held, orig, kids, src, args, idsNew)
    ensures SettledPatients(held, orig, kids, Elems(sp.existing) + Elems(sp.retired), sp.existing, changed, args, now)
    ensures rs == PatientsKeyed(held, sp.retired)
    ensures forall s :: s in all ==>
      s.cols == if s in StudiesIn(rs, kids) then origS[s].(finalIdcVersion := args.previousVersion) else origS[s]
  {
    list', ids', clones, froms, rs := SupersedePatients(list, held, sp, changed, orig, kids, all, origS, created, src, args, now, idsNew);
    forall j | 0 <= j < |created|
      ensures created[j].uuid == ids + 2 * j + 1 && created[j].studies == []
      ensures created[j].cols == NewPatientCols(listing.value(sp.created[j]), args, now, ids + 2 * j)
    {
      assert created[j] in created;
    }
  }

  /** What the three passes of expand_collection need: distinct keys, a split whose
      vanished keys are held, the snapshots `orig`, `kids` and `origS` of the held
      patients' columns and studies and of those studies' columns, and `changed` as the
      existing keys whose source hashes differ from the stored ones. */
  ghost predicate ReconcileInputs(held: seq<Patient>, sp: Split, changed: set<Key>,
                                  orig: map<Patient, PatientCols>, kids: map<Patient, seq<Study>>, all: set<Study>,
                                  origS: map<Study, StudyCols>, src: Key -> HashPair)
    reads held, all
  {
    && Distinct(PatientKeys(held))
    && Distinct(sp.existing) && Distinct(sp.retired) && Elems(sp.existing) !! Elems(sp.retired)
    && (forall k :: k in sp.retired ==> k in PatientKeys(held))
    && (forall x :: x in held ==> x in orig && x.cols == orig[x] && x in kids && x.studies == kids[x])
    && all == StudiesIn(held, kids) && (forall s :: s in all ==> s in origS && s.cols == origS[s])
    && changed <= Elems(sp.existing)
    && forall k :: k in sp.existing ==>
      FindPatient(held, k).Some? && (k in changed <==> AnyRevised(PatientRevision(orig[FindPatient(held, k).value], src(k))))
  }

  /** What the three passes leave: `list` keeps the held rows whose keys were neither
      revised nor vanished and appends the new rows `created` and the clones `clones` of
      the revised rows `froms`; the held rows are settled (retired or stamped), `rs` are
      the vanished ones, exactly their studies are retired, and when the held rows were
      well formed so is every row of `list`; every row of `list` is held, new or a
      clone, and holds only studies the held rows held. */
  ghost predicate ReconcileOutputs(list: seq<Patient>, held: seq<Patient>, sp: Split, changed: set<Key>,
                                   created: seq<Patient>, clones: seq<Patient>, froms: seq<Patient>, rs: seq<Patient>,
                                   orig: map<Patient, PatientCols>, kids: map<Patient, seq<Study>>, all: set<Study>,
                                   origS: map<Study, StudyCols>, listing: Listing<Flags>,
                                   src: Key -> HashPair, args: Args, now: Timestamp, ids: nat, ids': nat)
    reads list, held, created, clones, all
  {
    && list == Without(held, RowsKeyedBy(held, SubmitterCaseId, Elems(sp.retired) + changed)) + created + clones
    && PatientKeys(list) == Reconciled(PatientKeys(held), sp, changed)
    && PatientKeys(created) == sp.created && PatientKeys(clones) == Among(sp.existing, changed)
    && ids' == ids + 2 * |created| + |clones|
    && NewPatientRows(created, sp.created, listing, args, now, ids)
    && PatientClonesOf(clones, froms, held, orig, kids, src, args, ids + 2 * |created|)
    && SettledPatients(held, orig, kids, Elems(sp.existing) + Elems(sp.retired), sp.existing, changed, args, now)
    && (forall k :: k in sp.retired ==> k in PatientKeys(held)) && rs == PatientsKeyed(held, sp.retired)
    && (forall s :: s in all ==>
          s in origS && s.cols == if s in StudiesIn(rs, kids) then origS[s].(finalIdcVersion := args.previousVersion) else origS[s])
    && (forall x :: x in list ==> x in held || x in created || x in clones)
    && StudiesOf(list) <= StudiesIn(held, kids)
    && ((forall x :: x in held ==> x in orig && x in kids && WellFormed(orig[x], kids[x])) ==>
         forall x :: x in list ==> WellFormed(x.cols, x.studies))
  }

  /** The three passes of expand_collection over a listing split into new, existing
      and vanished keys. */
  method ReconcilePatients(held: seq<Patient>, sp: Split, ghost changed: set<Key>,
                           ghost orig: map<Patient, PatientCols>, ghost kids: map<Patient, seq<Study>>, ghost all: set<Study>,
                           ghost origS: map<Study, StudyCols>, listing: Listing<Flags>,
                           src: Key -> HashPair, args: Args, now: Timestamp, ids: nat)
    returns (list': seq<Patient>, ids': nat, ghost created: seq<Patient>, ghost clones: seq<Patient>,
             ghost froms: seq<Patient>, ghost rs: seq<Patient>)
    requires ReconcileInputs(held, sp, changed, orig, kids, all, origS, src)
    modifies held, all
    ensures (forall x :: x in created ==> fresh(x)) && (forall x :: x in clones ==> fresh(x))
    ensures ReconcileOutputs(list', held, sp, changed, created, clones, froms, rs, orig, kids, all, origS,
                             listing, src, args, now, ids, ids')
  {
    var withNew, idsNew;
    withNew, idsNew, created := AppendNewPatients(held, sp.created, listing, args, now, ids);
    assert forall x :: x in created ==> x !in held;
    list', ids', clones, froms, rs := SupersedeAfterNew(withNew, held, sp, changed, orig, kids, all, origS, created, listing,
                                                        src, args, now, ids, idsNew);
    ReconciledRows(held, SubmitterCaseId, sp, changed, created, clones);
    ReconciledStudies(list', held, sp, changed, created, clones, froms, orig, kids, listing, src, args, now, ids,
                      ids + 2 * |created|);
    if forall x :: x in held ==> x in orig && x in kids && WellFormed(orig[x], kids[x]) {
      ReconciledWellFormed(list', held, sp, changed, created, clones, froms, orig, kids, listing, src, args, now, ids,
                           ids + 2 * |created|);
    }
  }

  /** Every row the expansion leaves in the collection is well formed: the held ones it
      keeps and the clones because the rows they come from were, the new ones because
      they start with no studies. */
  lemma ReconciledWellFormed(list: seq<Patient>, held: seq<Patient>, sp: Split, changed: set<Key>,
                             created: seq<Patient>, clones: seq<Patient>, froms: seq<Patient>,
                             orig: map<Patient, PatientCols>, kids: map<Patient, seq<Study>>,
                             listing: Listing<Flags>, src: Key -> HashPair, args: Args, now: Timestamp,
                             ids: nat, idsClones: nat)
    requires forall x :: x in held ==> x in orig && x in kids && WellFormed(orig[x], kids[x])
    requires list == Without(held, RowsKeyedBy(held, SubmitterCaseId, Elems(sp.retired) + changed))
                     + created + clones
    requires NewPatientRows(created, sp.created, listing, args, now, ids)
    requires PatientClonesOf(clones, froms, held, orig, kids, src, args, idsClones)
    requires SettledPatients(held, orig, kids, Elems(sp.existing) + Elems(sp.retired), sp.existing, changed, args, now)
    ensures forall x :: x in list ==> WellFormed(x.cols, x.studies)
  {
    var kept := Without(held, RowsKeyedBy(held, SubmitterCaseId, Elems(sp.retired) + changed));
    forall x | x in list
      ensures WellFormed(x.cols, x.studies)
    {
      if x in kept {
        WithoutMember(held, RowsKeyedBy(held, SubmitterCaseId, Elems(sp.retired) + changed), x);
        SettledKeepsWellFormed(orig[x], kids[x], SubmitterCaseId(x), Elems(sp.existing) + Elems(sp.retired),
                               sp.existing, changed, src(SubmitterCaseId(x)), args, now);
      } else if x in created {
        var j :| 0 <= j < |created| && created[j] == x;
      } else {
        var j :| 0 <= j < |clones| && clones[j] == x;
        SettledKeepsWellFormed(orig[froms[j]], kids[froms[j]], SubmitterCaseId(x), {}, sp.existing, changed,
                               src(froms[j].submitterCaseId), args, now);
      }
    }
  }

  lemma {:induction false} StudiesOfBound(ps: seq<Patient>, bound: set<Study>)
    requires forall x :: x in ps ==> Elems(x.studies) <= bound
    ensures StudiesOf(ps) <= bound
  {
    if ps != [] {
      StudiesOfBound(ps[..|ps| - 1], bound);
    }
  }

  /** Every row the expansion leaves in the collection is a held row, a new one or a
      clone, and holds only studies some held row held: the new ones hold none, a kept
      row keeps its own and a clone shares those of the row it comes from. */
  lemma ReconciledStudies(list: seq<Patient>, held: seq<Patient>, sp: Split, changed: set<Key>,
                          created: seq<Patient>, clones: seq<Patient>, froms: seq<Patient>,
                          orig: map<Patient, PatientCols>, kids: map<Patient, seq<Study>>,
                          listing: Listing<Flags>, src: Key -> HashPair, args: Args, now: Timestamp,
                          ids: nat, idsClones: nat)
    requires list == Without(held, RowsKeyedBy(held, SubmitterCaseId, Elems(sp.retired) + changed))
                     + created + clones
    requires NewPatientRows(created, sp.created, listing, args, now, ids)
    requires PatientClonesOf(clones, froms, held, orig, kids, src, args, idsClones)
    requires SettledPatients(held, orig, kids, Elems(sp.existing) + Elems(sp.retired), sp.existing, changed, args, now)
    ensures forall x :: x in list ==> x in held || x in created || x in clones
    ensures StudiesOf(list) <= StudiesIn(held, kids)
  {
    var kept := Without(held, RowsKeyedBy(held, SubmitterCaseId, Elems(sp.retired) + changed));
    forall x | x in list
      ensures (x in held || x in created || x in clones) && Elems(x.studies) <= StudiesIn(held, kids)
    {
      if x in kept {
        WithoutMember(held, RowsKeyedBy(held, SubmitterCaseId, Elems(sp.retired) + changed), x);
        StudiesInMember(held, kids, x);
      } else if x in created {
        var j :| 0 <= j < |created| && created[j] == x;
      } else {
        var j :| 0 <= j < |clones| && clones[j] == x;
        StudiesInMember(held, kids, froms[j]);
      }
    }
    StudiesOfBound(list, StudiesIn(held, kids));
  }

  /** The passes of expand_collection once the listing has passed its checks: the
      collection's patients become the reconciled list and it is marked expanded. */
  method ExpandListed(c: Collection, held: seq<Patient>, sp: Split, ghost changed: set<Key>,
                      ghost orig: map<Patient, PatientCols>, ghost kids: map<Patient, seq<Study>>, ghost all: set<Study>,
                      ghost origS: map<Study, StudyCols>, listing: Listing<Flags>,
                      src: Key -> HashPair, args: Args, now: Timestamp, ids: nat)
    returns (ids': nat, ghost created: seq<Patient>, ghost clones: seq<Patient>,
             ghost froms: seq<Patient>, ghost rs: seq<Patient>)
    requires c.patients == held && !HasDuplicates(listing.ids) && sp == Partition(c.cols.isNew, PatientKeys(held), listing.ids)
    requires ReconcileInputs(held, sp, changed, orig, kids, all, origS, src)
    modifies c, held, all
    ensures c.cols == old(c.cols).(expanded := true)
    ensures (forall x :: x in created ==> fresh(x)) && (forall x :: x in clones ==> fresh(x))
    ensures ReconcileOutputs(c.patients, held, sp, changed, created, clones, froms, rs, orig, kids, all, origS,
                             listing, src, args, now, ids, ids')
    ensures !(old(c.cols.isNew) && old(c.cols.expanded)) && old(c.Valid()) ==> c.Valid()
  {
    ghost var wasValid := c.Valid();
    ghost var heldKeys := PatientKeys(held);
    var list;
    list, ids', created, clones, froms, rs := ReconcilePatients(held, sp, changed, orig, kids, all, origS, listing,
                                                                src, args, now, ids);
    if !old(c.cols.isNew) {
      ReconciledMatchesListing(heldKeys, listing.ids, changed);
    } else if !old(c.cols.expanded) && wasValid {
      ReconciledWhenNew(heldKeys, listing.ids, changed);
    }
    InstallPatients(c, list, held, sp, changed, created, clones, froms, rs, orig, kids, all, origS, listing,
                    src, args, now, ids, ids');
  }

  /** The collection takes `list` as its patients and is marked expanded. */
  method AdoptPatients(c: Collection, list: seq<Patient>)
    modifies c
    ensures c.patients == list && c.cols == old(c.cols).(expanded := true)
  {
    c.patients := list;
    c.cols := c.cols.(expanded := true);
  }

  /** Adopting the reconciled list changes no patient and no study, so what the three
      passes left still holds afterwards. */
  method InstallPatients(c: Collection, list: seq<Patient>, ghost held: seq<Patient>, ghost sp: Split,
                         ghost changed: set<Key>, ghost created: seq<Patient>, ghost clones: seq<Patient>,
                         ghost froms: seq<Patient>, ghost rs: seq<Patient>, ghost orig: map<Patient, PatientCols>,
                         ghost kids: map<Patient, seq<Study>>, ghost all: set<Study>, ghost origS: map<Study, StudyCols>,
                         ghost listing: Listing<Flags>, ghost src: Key -> HashPair, ghost args: Args,
                         ghost now: Timestamp, ghost ids: nat, ghost ids': nat)
    requires ReconcileOutputs(list, held, sp, changed, created, clones, froms, rs, orig, kids, all, origS,
                              listing, src, args, now, ids, ids')
    modifies c
    ensures c.patients == list && c.cols == old(c.cols).(expanded := true)
    ensures ReconcileOutputs(list, held, sp, changed, created, clones, froms, rs, orig, kids, all, origS,
                             listing, src, args, now, ids, ids')
  {
    AdoptPatients(c, list);
  }

  /** `expand_collection`: reconciles the collection's patients with the listing the
      sources report. A repeated key, or an existing patient without stored hashes,
      fails and changes nothing; otherwise the three passes run and the collection is
      marked expanded. */
  method ExpandCollection(c: Collection, listing: Listing<Flags>, src: Key -> HashPair, args: Args,
                          now: Timestamp, ids: nat)
    returns (r: Outcome, ids': nat, ghost held: seq<Patient>, ghost sp: Split, ghost changed: set<Key>,
             ghost created: seq<Patient>, ghost clones: seq<Patient>, ghost froms: seq<Patient>,
             ghost rs: seq<Patient>, ghost orig: map<Patient, PatientCols>,
             ghost kids: map<Patient, seq<Study>>, ghost origS: map<Study, StudyCols>)
    requires Distinct(PatientKeys(c.patients))
    modifies c, c.patients, StudiesOf(c.patients)
    ensures held == old(c.patients) && sp == Partition(old(c.cols.isNew), PatientKeys(held), listing.ids)
    ensures forall x :: x in held ==> x in orig && orig[x] == old(x.cols) && x in kids && kids[x] == old(x.studies)
    ensures forall x, s :: x in held && s in old(x.studies) ==> s in origS && origS[s] == old(s.cols)
    ensures r.Fail? <==> HasDuplicates(listing.ids) || old(ExistingPatientError(held, sp.existing)).Some?
    ensures r.Fail? ==> r.error == if HasDuplicates(listing.ids) then DuplicateChildren else MissingHashes
    ensures r.Fail? ==> c.patients == held && c.cols == old(c.cols) && ids' == ids
                        && forall x :: x in held ==> x.cols == old(x.cols) && x.studies == old(x.studies)
    ensures r.Ok? ==> changed == old(ChangedPatients(held, sp.existing, src)) && c.cols == old(c.cols).(expanded := true)
    ensures r.Ok? ==> PatientKeys(c.patients) == Reconciled(PatientKeys(held), sp, changed)
    ensures r.Ok? ==> c.patients == Without(held, RowsKeyedBy(held, SubmitterCaseId, Elems(sp.retired) + changed))
                                    + created + clones
    ensures r.Ok? ==> PatientKeys(created) == sp.created && PatientKeys(clones) == Among(sp.existing, changed)
    ensures r.Ok? ==> ids' == ids + 2 * |created| + |clones|
    ensures r.Ok? ==> (forall x :: x in created ==> fresh(x)) && NewPatientRows(created, sp.created, listing, args, now, ids)
    ensures r.Ok? ==> (forall x :: x in clones ==> fresh(x))
                      && PatientClonesOf(clones, froms, held, orig, kids, src, args, ids + 2 * |created|)
    ensures r.Ok? ==> SettledPatients(held, orig, kids, Elems(sp.existing) + Elems(sp.retired), sp.existing, changed, args, now)
    ensures r.Ok? ==> (forall k :: k in sp.retired ==> k in PatientKeys(held)) && rs == PatientsKeyed(held, sp.retired)
    ensures r.Ok? ==> forall s :: s in StudiesIn(held, kids) ==>
      s in origS && s.cols == if s in StudiesIn(rs, kids) then origS[s].(finalIdcVersion := args.previousVersion) else origS[s]
    ensures r.Ok? && !(old(c.cols.isNew) && old(c.cols.expanded)) && old(c.Valid()) ==> c.Valid()
    ensures forall x :: x in c.patients ==> x in held || x in created || x in clones
    ensures StudiesOf(c.patients) <= old(StudiesOf(c.patients))
  {
    var ps := c.patients;
    held := ps;
    var heldKeys := PatientKeys(ps);
    orig := map x: Patient | x in ps :: x.cols;
    kids := map x: Patient | x in ps :: x.studies;
    ghost var all := StudiesIn(ps, kids);
    StudiesInSnapshot(ps, kids);
    origS := map s: Study | s in all :: s.cols;
    ids' := ids;
    created, clones, froms, rs := [], [], [], [];
    changed := {};
    var split := Partition(c.cols.isNew, heldKeys, listing.ids);
    sp := split;
    forall x, s | x in held && s in x.studies
      ensures s in all
    {
      StudiesInMember(held, kids, x);
    }
    if HasDuplicates(listing.ids) {
      r := Fail(DuplicateChildren);
      return;
    }
    var err := ExistingPatientError(ps, split.existing);
    if err.Some? {
      r := Fail(err.value);
      return;
    }
    PartitionHeld(c.cols.isNew, heldKeys, listing.ids);
    ChangedPatientsFromSnapshot(ps, split.existing, src, orig);
    changed := ChangedPatients(ps, split.existing, src);
    ids', created, clones, froms, rs := ExpandListed(c, ps, split, changed, orig, kids, all, origS, listing,
                                                     src, args, now, ids);
    r := Ok;
  }

  /** The first step of build_collection: expands the collection unless it is
      expanded already. A failed expansion changes nothing. */
  method ExpandCollectionIfNeeded(c: Collection, listing: Listing<Flags>, src: Key -> HashPair, args: Args,
                                  now: Timestamp, ids: nat)
    returns (e: Outcome, ids': nat)
    requires c.Valid()
    modifies c, c.patients, StudiesOf(c.patients)
    ensures old(c.cols.expanded) ==> e == Ok && c.patients == old(c.patients) && c.cols == old(c.cols) && ids' == ids
    ensures e.Fail? ==>
      c.patients == old(c.patients) && c.cols == old(c.cols) && ids' == ids
      && forall x :: x in c.patients ==> x.cols == old(x.cols) && x.studies == old(x.studies)
    ensures e.Ok? ==> c.Valid() && c.cols == old(c.cols).(expanded := true)
    ensures forall x :: x in c.patients ==> x in old(c.patients) || fresh(x)
    ensures StudiesOf(c.patients) <= old(StudiesOf(c.patients))
  {
    ids' := ids;
    e := Ok;
    if !c.cols.expanded {
      ghost var held, sp, changed, created, clones, froms, rs, orig, kids, origS;
      e, ids', held, sp, changed, created, clones, froms, rs, orig, kids, origS :=
        ExpandCollection(c, listing, src, args, now, ids);
    }
  }

  /** What the sources and the build report for one patient: its listing of studies
      and their source hashes, what each study's build reports, and the patient's
      hashes as the engine computes them and as the sources report them, with the
      sources its studies came from. */
  datatype PatientFeed = PatientFeed(listing: Listing<Flags>, src: Key -> HashPair, build: Key -> StudyBuild,
                                     idcHashes: Hashes, srcHashes: HashPair, sources: Flags)

  /** The columns of the given studies, in order. */
  ghost function StudyColsOf(s: seq<Study>): (r: seq<StudyCols>)
    reads s
    ensures |r| == |s| && forall i :: 0 <= i < |s| ==> r[i] == s[i].cols
  {
    seq(|s|, i requires 0 <= i < |s| reads s => s[i].cols)
  }

  /** The max_timestamp columns of a snapshot of studies, in order. */
  function SnapshotMaxes(kids: seq<StudyCols>): (r: seq<Option<Timestamp>>)
    ensures |r| == |kids| && forall i :: 0 <= i < |kids| ==> r[i] == kids[i].maxTimestamp
  {
    seq(|kids|, i requires 0 <= i < |kids| => kids[i].maxTimestamp)
  }

  /** A patient after the build loop of build_collection, relative to its columns
      `before` and to `kids`, its studies' columns as its build left them: well
      formed; left alone if it was done; otherwise expanded, and done exactly when
      every one of its studies is done. A patient that became done has the hashes and
      sources of its feed, its per-source hashes having matched, and the latest of
      its studies' timestamps. */
  ghost predicate PatientBuilt(x: Patient, before: PatientCols, f: PatientFeed, kids: seq<StudyCols>)
    reads x
  {
    && x.Valid()
    && if before.done then x.cols == before
       else
         && x.cols.expanded && |kids| == |x.studies|
         && (x.cols.done <==> forall i :: 0 <= i < |kids| ==> kids[i].done)
         && (x.cols.done ==>
               && PerSource(f.idcHashes) == f.srcHashes && x.cols.hashes == Some(f.idcHashes)
               && x.cols.sources == Some(f.sources)
               && x.cols.maxTimestamp.Some? && x.cols.maxTimestamp == LatestTimestamp(SnapshotMaxes(kids)))
  }

  /** One step of the build loop of build_collection: a patient that is not done is
      built from its feed; a done one is left alone. */
  method BuildIfPending(p: Patient, f: PatientFeed, args: Args, now: Timestamp, ids: nat)
    returns (r: Outcome, ids': nat, ghost kids: seq<StudyCols>)
    requires p.Valid()
    modifies p, p.studies
    ensures r.Fail? ==> !old(p.cols.done) && p.Valid()
    ensures r.Ok? ==> PatientBuilt(p, old(p.cols), f, kids)
  {
    ids' := ids;
    r := Ok;
    kids := [];
    if !p.cols.done {
      ghost var expansion, staged;
      r, ids', expansion, staged := BuildPatient(p, f.listing, f.src, args, now, ids, f.build,
                                                 f.idcHashes, f.srcHashes, f.sources);
      if r.Ok? {
        kids := StudyColsOf(p.studies);
        SnapshotFacts(p.studies, kids);
      }
    }
  }

  lemma SnapshotFacts(s: seq<Study>, kids: seq<StudyCols>)
    requires kids == StudyColsOf(s)
    ensures AllStudiesDone(s) <==> forall i :: 0 <= i < |kids| ==> kids[i].done
    ensures SnapshotMaxes(kids) == StudyMaxes(s)
  {
    if forall i :: 0 <= i < |kids| ==> kids[i].done {
      forall x | x in s
        ensures x.cols.done
      {
        var i :| 0 <= i < |s| && s[i] == x;
        assert kids[i] == x.cols;
      }
    }
  }

  /** Builds the patient at index `i`, leaving every other row of `ps` as it was. */
  method BuildRow(ps: seq<Patient>, i: nat, feed: Key -> PatientFeed, args: Args, now: Timestamp, ids: nat)
    returns (r: Outcome, ids': nat, ghost kids: seq<StudyCols>)
    requires Distinct(PatientKeys(ps)) && i < |ps| && ps[i].Valid()
    modifies ps[i], ps[i].studies
    ensures r.Fail? ==> !old(ps[i].cols.done) && ps[i].Valid()
    ensures r.Ok? ==> PatientBuilt(ps[i], old(ps[i].cols), feed(ps[i].submitterCaseId), kids)
    ensures forall j :: 0 <= j < |ps| && j != i ==> ps[j].cols == old(ps[j].cols) && ps[j].studies == old(ps[j].studies)
  {
    var p := ps[i];
    r, ids', kids := BuildIfPending(p, feed(p.submitterCaseId), args, now, ids);
    forall j | 0 <= j < |ps| && j != i
      ensures ps[j].cols == old(ps[j].cols) && ps[j].studies == old(ps[j].studies)
    {
      OtherRow(ps, i, j);
    }
  }

  /** The build loop of build_collection (its sequential form): each patient that is
      not done is built from its feed, in order; the first failure stops the loop,
      and `failed` is where it stopped. `all` holds the patients' studies. */
  method BuildPendingPatients(ps: seq<Patient>, ghost all: set<Study>, feed: Key -> PatientFeed,
                              args: Args, now: Timestamp, ids: nat)
    returns (r: Outcome, ids': nat, ghost failed: nat, ghost snap: seq<seq<StudyCols>>)
    requires Distinct(PatientKeys(ps))
    requires forall x :: x in ps ==> x.Valid() && Elems(x.studies) <= all
    modifies ps, all
    ensures failed <= |ps| && (r.Ok? <==> failed == |ps|) && |snap| == failed
    ensures forall j :: 0 <= j < failed ==> PatientBuilt(ps[j], old(ps[j].cols), feed(ps[j].submitterCaseId), snap[j])
    ensures r.Fail? ==> !old(ps[failed].cols.done) && ps[failed].Valid()
    ensures forall j :: failed < j < |ps| ==> ps[j].cols == old(ps[j].cols) && ps[j].studies == old(ps[j].studies)
    ensures forall x :: x in ps ==> x.Valid()
  {
    ids' := ids;
    snap := [];
    for i := 0 to |ps|
      invariant |snap| == i
      invariant forall j :: 0 <= j < i ==> PatientBuilt(ps[j], old(ps[j].cols), feed(ps[j].submitterCaseId), snap[j])
      invariant forall j :: i <= j < |ps| ==> ps[j].cols == old(ps[j].cols) && ps[j].studies == old(ps[j].studies)
    {
      var res;
      ghost var kids;
      res, ids', kids := BuildRow(ps, i, feed, args, now, ids');
      if res.Fail? {
        return res, ids', i, snap;
      }
      snap := snap + [kids];
    }
    r, failed := Ok, |ps|;
  }

  lemma {:induction false} StudiesOfMember(ps: seq<Patient>, x: Patient)
    requires x in ps
    ensures Elems(x.studies) <= StudiesOf(ps)
  {
    if ps[|ps| - 1] != x {
      assert ps == ps[..|ps| - 1] + [ps[|ps| - 1]];
      StudiesOfMember(ps[..|ps| - 1], x);
    }
  }

  predicate AllPatientsDone(ps: seq<Patient>)
    reads ps
  {
    forall x :: x in ps ==> x.cols.done
  }

  /** The patients' max_timestamp columns, in order. */
  function PatientMaxes(ps: seq<Patient>): (r: seq<Option<Timestamp>>)
    reads ps
    ensures |r| == |ps| && forall i :: 0 <= i < |ps| ==> r[i] == ps[i].cols.maxTimestamp
  {
    seq(|ps|, i requires 0 <= i < |ps| reads ps => ps[i].cols.maxTimestamp)
  }

  /** How the last step of build_collection leaves the collection's columns, from
      `before`: nothing happens unless every patient is done; then max() over the
      patients' timestamps raises when none has one; otherwise the latest one is
      stamped, and the collection is done with its hashes and sources only when the
      per-source hashes match (a mismatch is logged, not raised). */
  ghost predicate Completed(before: CollectionCols, after: CollectionCols, r: Outcome, ps: seq<Patient>,
                            idcHashes: Hashes, srcHashes: HashPair, accum: Flags)
    reads ps
  {
    var latest := LatestTimestamp(PatientMaxes(ps));
    if !AllPatientsDone(ps) then r == Ok && after == before
    else if latest.None? then r == Fail(EmptyMax) && after == before
    else
      var stamped := before.(maxTimestamp := latest);
      r == Ok
      && after == if PerSource(idcHashes) == srcHashes
                  then stamped.(hashes := Some(idcHashes), sources := Some(accum), done := true)
                  else stamped
  }

  /** The completion step of build_collection. */
  method CompleteCollection(c: Collection, idcHashes: Hashes, srcHashes: HashPair, accum: Flags)
    returns (r: Outcome)
    requires c.Valid()
    modifies c
    ensures c.patients == old(c.patients) && c.Valid()
    ensures Completed(old(c.cols), c.cols, r, c.patients, idcHashes, srcHashes, accum)
  {
    if !AllPatientsDone(c.patients) {
      return Ok;
    }
    var latest := LatestTimestamp(PatientMaxes(c.patients));
    if latest.None? {
      return Fail(EmptyMax);
    }
    var cols := c.cols.(maxTimestamp := latest);
    if PerSource(idcHashes) == srcHashes {
      cols := cols.(hashes := Some(idcHashes), sources := Some(accum), done := true);
    }
    SetCols(c, cols);
    r := Ok;
  }

  /** Writes the collection's columns; keeping `is_new` and `expanded` keeps the
      collection well formed. */
  method SetCols(c: Collection, cols: CollectionCols)
    requires c.Valid() && cols.isNew == c.cols.isNew && cols.expanded == c.cols.expanded
    modifies c
    ensures c.cols == cols && c.patients == old(c.patients) && c.Valid()
  {
    c.cols := cols;
  }

  /** A completed collection is done only when it was done already or when every
      patient is done, the latest patient timestamp exists and is recorded, and the
      per-source hashes match and are recorded. */
  lemma CompletedDone(before: CollectionCols, after: CollectionCols, r: Outcome, ps: seq<Patient>,
                      idcHashes: Hashes, srcHashes: HashPair, accum: Flags)
    requires Completed(before, after, r, ps, idcHashes, srcHashes, accum)
    ensures r.Fail? <==> AllPatientsDone(ps) && forall x :: x in ps ==> x.cols.maxTimestamp.None?
    ensures after.done && !before.done ==>
      && AllPatientsDone(ps) && PerSource(idcHashes) == srcHashes
      && after.hashes == Some(idcHashes) && after.sources == Some(accum)
      && after.maxTimestamp.Some? && forall x :: x in ps && x.cols.maxTimestamp.Some? ==>
           x.cols.maxTimestamp.value <= after.maxTimestamp.value
  {
    var ts := PatientMaxes(ps);
    forall x | x in ps
      ensures x.cols.maxTimestamp in ts
    {
      var i :| 0 <= i < |ps| && ps[i] == x;
      assert ts[i] == x.cols.maxTimestamp;
    }
    if AllPatientsDone(ps) && LatestTimestamp(ts).None? {
      forall x | x in ps
        ensures x.cols.maxTimestamp.None?
      {
      }
    }
    if AllPatientsDone(ps) && forall x :: x in ps ==> x.cols.maxTimestamp.None? {
      forall t | t in ts
        ensures t.None?
      {
        var i :| 0 <= i < |ts| && ts[i] == t;
        assert ps[i] in ps;
      }
    }
  }

  /** build_collection after expansion: builds in order every patient that is not
      done, stopping at the first failure (at index `failed`), then completes the
      collection. `all` holds the patients' studies; `staged` records the patients'
      columns before the build. */
  method BuildExpanded(c: Collection, ghost all: set<Study>, feed: Key -> PatientFeed, args: Args,
                       now: Timestamp, ids: nat, idcHashes: Hashes, srcHashes: HashPair, accum: Flags)
    returns (r: Outcome, ids': nat, ghost staged: map<Patient, PatientCols>, ghost failed: nat,
             ghost snap: seq<seq<StudyCols>>)
    requires c.Valid() && c.cols.expanded && StudiesOf(c.patients) <= all
    modifies c, c.patients, all
    ensures c.patients == old(c.patients) && c.Valid() && failed <= |c.patients| && |snap| == failed
    ensures forall j :: 0 <= j < failed ==>
      c.patients[j] in staged
      && PatientBuilt(c.patients[j], staged[c.patients[j]], feed(c.patients[j].submitterCaseId), snap[j])
    ensures failed < |c.patients| ==>
      r.Fail? && c.cols == old(c.cols) && c.patients[failed] in staged && !staged[c.patients[failed]].done
      && forall j :: failed < j < |c.patients| ==>
           c.patients[j] in staged && c.patients[j].cols == staged[c.patients[j]]
    ensures failed == |c.patients| ==> Completed(old(c.cols), c.cols, r, c.patients, idcHashes, srcHashes, accum)
  {
    assert forall x :: x in c.patients ==> x.Valid();
    r, ids', staged, failed, snap := BuildPatientsOf(c.patients, all, feed, args, now, ids);
    if r.Fail? {
      return;
    }
    r := CompleteCollection(c, idcHashes, srcHashes, accum);
  }

  /** The build loop over a collection's patients, with `staged` recording their
      columns as the loop found them. */
  method BuildPatientsOf(ps: seq<Patient>, ghost all: set<Study>, feed: Key -> PatientFeed, args: Args,
                         now: Timestamp, ids: nat)
    returns (r: Outcome, ids': nat, ghost staged: map<Patient, PatientCols>, ghost failed: nat,
             ghost snap: seq<seq<StudyCols>>)
    requires Distinct(PatientKeys(ps)) && StudiesOf(ps) <= all
    requires forall x :: x in ps ==> x.Valid()
    modifies ps, all
    ensures failed <= |ps| && (r.Ok? <==> failed == |ps|) && |snap| == failed
    ensures forall x :: x in ps ==> x.Valid() && x in staged
    ensures forall j :: 0 <= j < failed ==>
      PatientBuilt(ps[j], staged[ps[j]], feed(ps[j].submitterCaseId), snap[j])
    ensures failed < |ps| ==>
      && !staged[ps[failed]].done
      && forall j :: failed < j < |ps| ==> ps[j].cols == staged[ps[j]]
  {
    staged := map x | x in ps :: x.cols;
    forall x | x in ps
      ensures Elems(x.studies) <= all
    {
      StudiesOfMember(ps, x);
    }
    r, ids', failed, snap := BuildPendingPatients(ps, all, feed, args, now, ids);
  }

  /** `build_collection` (its sequential form): expands the collection unless it is
      expanded (failing as the expansion fails), then builds its patients and
      completes it. `expanded` holds the collection's columns after expansion and
      `staged` the patients' columns then. */
  method BuildCollection(c: Collection, listing: Listing<Flags>, src: Key -> HashPair, args: Args,
                         now: Timestamp, ids: nat, feed: Key -> PatientFeed,
                         idcHashes: Hashes, srcHashes: HashPair, accum: Flags)
    returns (r: Outcome, ids': nat, ghost expansion: Outcome, ghost expanded: CollectionCols,
             ghost staged: map<Patient, PatientCols>, ghost failed: nat, ghost snap: seq<seq<StudyCols>>)
    requires c.Valid()
    modifies c, c.patients, StudiesOf(c.patients)
    ensures expansion.Fail? ==>
      r == expansion && c.cols == old(c.cols) && c.patients == old(c.patients)
      && forall x :: x in c.patients ==> x.cols == old(x.cols) && x.studies == old(x.studies)
    ensures expansion.Ok? ==>
      && c.Valid() && expanded == old(c.cols).(expanded := true) && failed <= |c.patients| && |snap| == failed
      && (forall j :: 0 <= j < failed ==>
            c.patients[j] in staged
            && PatientBuilt(c.patients[j], staged[c.patients[j]], feed(c.patients[j].submitterCaseId), snap[j]))
      && (failed < |c.patients| ==>
            && r.Fail? && c.cols == expanded && c.patients[failed] in staged && !staged[c.patients[failed]].done
            && forall j :: failed < j < |c.patients| ==>
                 c.patients[j] in staged && c.patients[j].cols == staged[c.patients[j]])
      && (failed == |c.patients| ==> Completed(expanded, c.cols, r, c.patients, idcHashes, srcHashes, accum))
    ensures forall x :: x in c.patients ==> x in old(c.patients) || fresh(x)
  {
    var e;
    e, ids' := ExpandCollectionIfNeeded(c, listing, src, args, now, ids);
    expansion := e;
    if e.Fail? {
      return e, ids', expansion, c.cols, map[], 0, [];
    }
    expanded := c.cols;
    assert forall i :: 0 <= i < |c.patients| ==> c.patients[i] in c.patients;
    r, ids', staged, failed, snap := BuildExpanded(c, old(StudiesOf(c.patients)), feed, args, now, ids',
                                             idcHashes, srcHashes, accum);
  }
}
