/** The manifest loader's find-or-create walk over the `idc_collection` →
    `idc_patient` → `idc_study` → `idc_series` → `idc_instance` tables: one manifest
    row names a path of natural keys, and each level reuses the child with that key
    or appends a new one, then descends. */
module Manifest {
  import opened Common
  import opened Reconcile

  /** The `license` argument: a dict with these three entries. */
  datatype License = License(url: string, longName: string, shortName: string)

  /** The parts of `args` the loader reads. */
  datatype LoadArgs = LoadArgs(
    version: int,
    srcBucket: string,
    thirdParty: bool,
    license: License,
    sourceDoi: string,
    sourceUrl: string)

  /** The columns of an `idc_instance` row the loader writes (None: never set). */
  datatype InstanceRow = InstanceRow(
    idcVersion: Option<int>,
    gcsUrl: Option<string>,
    hash: Option<string>,
    excluded: Option<bool>)

  /** The columns of an `idc_series` row the loader writes (None: never set). */
  datatype SeriesRow = SeriesRow(
    thirdParty: Option<bool>,
    licenseUrl: Option<string>,
    licenseLongName: Option<string>,
    licenseShortName: Option<string>,
    sourceDoi: Option<string>,
    sourceUrl: Option<string>,
    excluded: Option<bool>)

  class IdcInstance {
    const sopInstanceUid: Key
    var row: InstanceRow

    constructor (sopInstanceUid: Key)
      ensures this.sopInstanceUid == sopInstanceUid && row == InstanceRow(None, None, None, None)
    {
      this.sopInstanceUid := sopInstanceUid;
      row := InstanceRow(None, None, None, None);
    }
  }

  class IdcSeries {
    const seriesInstanceUid: Key
    var row: SeriesRow
    var instances: seq<IdcInstance>

    constructor (seriesInstanceUid: Key)
      ensures this.seriesInstanceUid == seriesInstanceUid && instances == []
      ensures row == SeriesRow(None, None, None, None, None, None, None)
    {
      this.seriesInstanceUid := seriesInstanceUid;
      row := SeriesRow(None, None, None, None, None, None, None);
      instances := [];
    }
  }

  class IdcStudy {
    const studyInstanceUid: Key
    var seriess: seq<IdcSeries>

    constructor (studyInstanceUid: Key)
      ensures this.studyInstanceUid == studyInstanceUid && seriess == []
    {
      this.studyInstanceUid := studyInstanceUid;
      seriess := [];
    }
  }

  class IdcPatient {
    const submitterCaseId: Key
    var studies: seq<IdcStudy>

    constructor (submitterCaseId: Key)
      ensures this.submitterCaseId == submitterCaseId && studies == []
    {
      this.submitterCaseId := submitterCaseId;
      studies := [];
    }
  }

  class IdcCollection {
    const collectionId: Key
    var patients: seq<IdcPatient>

    constructor (collectionId: Key)
      ensures this.collectionId == collectionId && patients == []
    {
      this.collectionId := collectionId;
      patients := [];
    }
  }

  /** The session's view of the `idc_collection` table. */
  class Db {
    var collections: seq<IdcCollection>

    constructor (collections: seq<IdcCollection>)
      ensures this.collections == collections
    {
      this.collections := collections;
    }
  }

  function InstanceId(x: IdcInstance): Key { x.sopInstanceUid }
  function SeriesId(x: IdcSeries): Key { x.seriesInstanceUid }
  function StudyId(x: IdcStudy): Key { x.studyInstanceUid }
  function PatientId(x: IdcPatient): Key { x.submitterCaseId }
  function CollectionId(x: IdcCollection): Key { x.collectionId }

  function InstanceIds(s: seq<IdcInstance>): seq<Key> { Map(s, InstanceId) }
  function SeriesIds(s: seq<IdcSeries>): seq<Key> { Map(s, SeriesId) }
  function StudyIds(s: seq<IdcStudy>): seq<Key> { Map(s, StudyId) }
  function PatientIds(s: seq<IdcPatient>): seq<Key> { Map(s, PatientId) }
  function CollectionIds(s: seq<IdcCollection>): seq<Key> { Map(s, CollectionId) }

  /** `next(x for x in s if key(x) == k)`: the first child with the key, None where
      `next` raises StopIteration. */
  function FindFirst<T>(s: seq<T>, key: T -> Key, k: Key): (r: Option<T>)
    ensures r.Some? <==> k in Map(s, key)
    ensures r.Some? ==> exists i :: 0 <= i < |s| && s[i] == r.value && key(s[i]) == k
                                    && forall j :: 0 <= j < i ==> key(s[j]) != k
  {
    if k in Map(s, key) then
      var i := IndexOf(Map(s, key), k);
      assert forall j :: 0 <= j < i ==> key(s[j]) == Map(s, key)[j];
      Some(s[i])
    else None
  }

  /** The natural keys of a child list after a find-or-create of `k`. */
  function WithKey(keys: seq<Key>, k: Key): seq<Key>
  {
    if k in keys then keys else keys + [k]
  }

  /** A find-or-create adds the key at most once: afterwards the key is present, no
      other key appears or disappears, the child count grows by one exactly when the
      key was missing, siblings stay unique by key, and doing it again changes
      nothing. */
  lemma {:induction false} WithKeyFacts(keys: seq<Key>, k: Key)
    ensures k in WithKey(keys, k) && Elems(WithKey(keys, k)) == Elems(keys) + {k}
    ensures |WithKey(keys, k)| == |keys| + (if k in keys then 0 else 1)
    ensures Distinct(keys) ==> Distinct(WithKey(keys, k))
    ensures WithKey(WithKey(keys, k), k) == WithKey(keys, k)
  {
    if k !in keys {
      var r := keys + [k];
      assert r[|keys|] == k && r[..|keys|] == keys;
      if Distinct(keys) {
        forall i, j | 0 <= i < j < |r|
          ensures r[i] != r[j]
        {
          if j == |keys| {
            assert r[i] == keys[i];
          }
        }
      }
    }
  }

  /** `f'gs://{src_bucket}/{blob_name}'` */
  function GcsUrl(bucket: string, blob: string): (r: string)
    ensures |r| == 6 + |bucket| + |blob|
  {
    "gs://" + bucket + "/" + blob
  }

  /** The blob name behind a `gs://bucket/` URL: what follows that prefix, None for a
      URL in another bucket. */
  function BlobOf(url: string, bucket: string): (r: Option<string>)
    ensures r.Some? ==> |r.value| + 6 + |bucket| == |url|
  {
    var prefix := "gs://" + bucket + "/";
    if |prefix| <= |url| && url[..|prefix|] == prefix then Some(url[|prefix|..]) else None
  }

  /** The URL the loader stores names the blob in the source bucket, and nothing else. */
  lemma {:induction false} GcsUrlRoundTrip(bucket: string, blob: string)
    ensures BlobOf(GcsUrl(bucket, blob), bucket) == Some(blob)
  {
    var prefix := "gs://" + bucket + "/";
    var url := GcsUrl(bucket, blob);
    assert url == prefix + blob;
    assert url[..|prefix|] == prefix;
    assert url[|prefix|..] == blob;
  }

  /** An instance row as build_instance leaves it: this version, the blob's URL, the
      given hash, not excluded. */
  function Loaded(args: LoadArgs, hash: string, blob: string): InstanceRow
  {
    InstanceRow(Some(args.version), Some(GcsUrl(args.srcBucket, blob)), Some(hash), Some(false))
  }

  /** The columns build_series sets only when it creates the series. */
  function NewSeriesRow(args: LoadArgs): SeriesRow
  {
    SeriesRow(Some(args.thirdParty), Some(args.license.url), Some(args.license.longName),
              Some(args.license.shortName), None, None, None)
  }

  /** The columns build_series sets on every call, found or created. */
  function Refreshed(r: SeriesRow, args: LoadArgs): SeriesRow
  {
    r.(sourceDoi := Some(args.sourceDoi), sourceUrl := Some(args.sourceUrl), excluded := Some(false))
  }

  /** Refreshing a series keeps its third-party and license columns, and takes the
      run's DOI and URL whatever the series held; doing it twice is doing it once. */
  lemma RefreshedKeepsLicense(r: SeriesRow, args: LoadArgs)
    ensures var n := Refreshed(r, args);
      && n.thirdParty == r.thirdParty && n.licenseUrl == r.licenseUrl
      && n.licenseLongName == r.licenseLongName && n.licenseShortName == r.licenseShortName
      && n.sourceDoi == Some(args.sourceDoi) && n.sourceUrl == Some(args.sourceUrl) && n.excluded == Some(false)
      && Refreshed(n, args) == n
  {
  }

  /** The rows a call may touch: the children with the key on the path, and the
      matching descendants of those. */
  ghost function InstancesKeyed(s: seq<IdcInstance>, k: Key): set<IdcInstance>
  {
    set x | x in s && x.sopInstanceUid == k
  }

  ghost function SeriesKeyed(s: seq<IdcSeries>, k: Key): set<IdcSeries>
  {
    set x | x in s && x.seriesInstanceUid == k
  }

  ghost function StudiesKeyed(s: seq<IdcStudy>, k: Key): set<IdcStudy>
  {
    set x | x in s && x.studyInstanceUid == k
  }

  ghost function PatientsKeyed(s: seq<IdcPatient>, k: Key): set<IdcPatient>
  {
    set x | x in s && x.submitterCaseId == k
  }

  ghost function CollectionsKeyed(s: seq<IdcCollection>, k: Key): set<IdcCollection>
  {
    set x | x in s && x.collectionId == k
  }

  ghost function InstancesUnder(ss: set<IdcSeries>, k: Key): set<IdcInstance>
    reads ss
  {
    set s, x | s in ss && x in s.instances && x.sopInstanceUid == k :: x
  }

  ghost function SeriesUnder(ss: set<IdcStudy>, k: Key): set<IdcSeries>
    reads ss
  {
    set s, x | s in ss && x in s.seriess && x.seriesInstanceUid == k :: x
  }

  ghost function StudiesUnder(ss: set<IdcPatient>, k: Key): set<IdcStudy>
    reads ss
  {
    set s, x | s in ss && x in s.studies && x.studyInstanceUid == k :: x
  }

  ghost function PatientsUnder(ss: set<IdcCollection>, k: Key): set<IdcPatient>
    reads ss
  {
    set s, x | s in ss && x in s.patients && x.submitterCaseId == k :: x
  }

  /** `build_instance`: the series' first instance with the SOPInstanceUID, or a new
      one appended to it, takes this version, the blob's URL, the hash and
      `excluded = False`; no other instance changes. */
  method BuildInstance(args: LoadArgs, series: IdcSeries, instanceId: Key, hash: string, blobName: string)
    returns (ghost x: IdcInstance)
    modifies series, InstancesKeyed(series.instances, instanceId)
    ensures series.row == old(series.row)
    ensures InstanceIds(series.instances) == WithKey(old(InstanceIds(series.instances)), instanceId)
    ensures var f := old(FindFirst(series.instances, InstanceId, instanceId));
      if f.Some? then x == f.value && series.instances == old(series.instances)
      else fresh(x) && series.instances == old(series.instances) + [x]
    ensures x in series.instances && x.sopInstanceUid == instanceId && x.row == Loaded(args, hash, blobName)
    ensures forall y :: y in old(series.instances) && y != x ==> y.row == old(y.row)
  {
    var found := FindFirst(series.instances, InstanceId, instanceId);
    var instance: IdcInstance;
    if found.Some? {
      instance := found.value;
    } else {
      instance := new IdcInstance(instanceId);
      MapConcat(series.instances, [instance], InstanceId);
      series.instances := series.instances + [instance];
    }
    instance.row := instance.row.(idcVersion := Some(args.version));
    instance.row := instance.row.(gcsUrl := Some(GcsUrl(args.srcBucket, blobName)));
    instance.row := instance.row.(hash := Some(hash));
    instance.row := instance.row.(idcVersion := Some(args.version));
    instance.row := instance.row.(excluded := Some(false));
    x := instance;
  }

  /** `build_series`: the study's first series with the SeriesInstanceUID, or a new one
      (with the run's third-party flag and license) appended to it, takes the run's
      DOI, URL and `excluded = False`; then the instance is built under it. */
  method BuildSeries(args: LoadArgs, study: IdcStudy, seriesId: Key, instanceId: Key, hash: string,
                     blobName: string)
    returns (ghost se: IdcSeries, ghost x: IdcInstance)
    modifies study, SeriesKeyed(study.seriess, seriesId)
    modifies InstancesUnder(SeriesKeyed(study.seriess, seriesId), instanceId)
    ensures SeriesIds(study.seriess) == WithKey(old(SeriesIds(study.seriess)), seriesId)
    ensures var f := old(FindFirst(study.seriess, SeriesId, seriesId));
      if f.Some? then
        && se == f.value && study.seriess == old(study.seriess)
        && se.row == Refreshed(old(se.row), args)
        && InstanceIds(se.instances) == WithKey(old(InstanceIds(se.instances)), instanceId)
      else
        && fresh(se) && study.seriess == old(study.seriess) + [se]
        && se.row == Refreshed(NewSeriesRow(args), args) && se.instances == [x]
    ensures se in study.seriess && se.seriesInstanceUid == seriesId
    ensures x in se.instances && x.sopInstanceUid == instanceId && x.row == Loaded(args, hash, blobName)
    ensures fresh(se) ==> se.instances == [x]
    ensures !fresh(se) ==> InstanceIds(se.instances) == WithKey(old(InstanceIds(se.instances)), instanceId)
  {
    var found := FindFirst(study.seriess, SeriesId, seriesId);
    var series: IdcSeries;
    if found.Some? {
      series := found.value;
    } else {
      series := new IdcSeries(seriesId);
      series.row := series.row.(thirdParty := Some(args.thirdParty));
      series.row := series.row.(licenseUrl := Some(args.license.url));
      series.row := series.row.(licenseLongName := Some(args.license.longName));
      series.row := series.row.(licenseShortName := Some(args.license.shortName));
      series.row := series.row.(thirdParty := Some(args.thirdParty));
      MapConcat(study.seriess, [series], SeriesId);
      study.seriess := study.seriess + [series];
    }
    series.row := series.row.(sourceDoi := Some(args.sourceDoi));
    series.row := series.row.(sourceUrl := Some(args.sourceUrl));
    series.row := series.row.(excluded := Some(false));
    x := BuildInstance(args, series, instanceId, hash, blobName);
    se := series;
  }

  /** `build_study`: the patient's first study with the StudyInstanceUID, or a new one
      appended to it; then the series is built under it. */
  method BuildStudy(args: LoadArgs, patient: IdcPatient, studyId: Key, seriesId: Key, instanceId: Key,
                    hash: string, blobName: string)
    returns (ghost st: IdcStudy, ghost se: IdcSeries, ghost x: IdcInstance)
    modifies patient, StudiesKeyed(patient.studies, studyId)
    modifies SeriesUnder(StudiesKeyed(patient.studies, studyId), seriesId)
    modifies InstancesUnder(SeriesUnder(StudiesKeyed(patient.studies, studyId), seriesId), instanceId)
    ensures StudyIds(patient.studies) == WithKey(old(StudyIds(patient.studies)), studyId)
    ensures var f := old(FindFirst(patient.studies, StudyId, studyId));
      if f.Some? then
        && st == f.value && patient.studies == old(patient.studies)
        && SeriesIds(st.seriess) == WithKey(old(SeriesIds(st.seriess)), seriesId)
      else fresh(st) && patient.studies == old(patient.studies) + [st] && st.seriess == [se]
    ensures st in patient.studies && st.studyInstanceUid == studyId
    ensures se in st.seriess && se.seriesInstanceUid == seriesId
    ensures x in se.instances && x.sopInstanceUid == instanceId && x.row == Loaded(args, hash, blobName)
    ensures fresh(st) ==> st.seriess == [se]
    ensures !fresh(st) ==> SeriesIds(st.seriess) == WithKey(old(SeriesIds(st.seriess)), seriesId)
    ensures fresh(se) ==> se.instances == [x]
    ensures !fresh(se) ==> InstanceIds(se.instances) == WithKey(old(InstanceIds(se.instances)), instanceId)
  {
    var found := FindFirst(patient.studies, StudyId, studyId);
    var study: IdcStudy;
    if found.Some? {
      study := found.value;
    } else {
      study := new IdcStudy(studyId);
      MapConcat(patient.studies, [study], StudyId);
      patient.studies := patient.studies + [study];
    }
    se, x := BuildSeries(args, study, seriesId, instanceId, hash, blobName);
    st := study;
  }

  /** `build_patient`: the collection's first patient with the submitter case id, or a
      new one appended to it; then the study is built under it. */
  method BuildPatient(args: LoadArgs, collection: IdcCollection, patientId: Key, studyId: Key, seriesId: Key,
                      instanceId: Key, hash: string, blobName: string)
    returns (ghost p: IdcPatient, ghost st: IdcStudy, ghost se: IdcSeries, ghost x: IdcInstance)
    modifies collection, PatientsKeyed(collection.patients, patientId)
    modifies StudiesUnder(PatientsKeyed(collection.patients, patientId), studyId)
    modifies SeriesUnder(StudiesUnder(PatientsKeyed(collection.patients, patientId), studyId), seriesId)
    modifies InstancesUnder(SeriesUnder(StudiesUnder(PatientsKeyed(collection.patients, patientId), studyId),
                                        seriesId), instanceId)
    ensures PatientIds(collection.patients) == WithKey(old(PatientIds(collection.patients)), patientId)
    ensures var f := old(FindFirst(collection.patients, PatientId, patientId));
      if f.Some? then
        && p == f.value && collection.patients == old(collection.patients)
        && StudyIds(p.studies) == WithKey(old(StudyIds(p.studies)), studyId)
      else fresh(p) && collection.patients == old(collection.patients) + [p] && p.studies == [st]
    ensures p in collection.patients && p.submitterCaseId == patientId
    ensures st in p.studies && st.studyInstanceUid == studyId
    ensures se in st.seriess && se.seriesInstanceUid == seriesId
    ensures x in se.instances && x.sopInstanceUid == instanceId && x.row == Loaded(args, hash, blobName)
    ensures fresh(p) ==> p.studies == [st]
    ensures !fresh(p) ==> StudyIds(p.studies) == WithKey(old(StudyIds(p.studies)), studyId)
    ensures fresh(st) ==> st.seriess == [se]
    ensures !fresh(st) ==> SeriesIds(st.seriess) == WithKey(old(SeriesIds(st.seriess)), seriesId)
  {
    var found := FindFirst(collection.patients, PatientId, patientId);
    var patient: IdcPatient;
    if found.Some? {
      patient := found.value;
    } else {
      patient := new IdcPatient(patientId);
      MapConcat(collection.patients, [patient], PatientId);
      collection.patients := collection.patients + [patient];
    }
    st, se, x := BuildStudy(args, patient, studyId, seriesId, instanceId, hash, blobName);
    p := patient;
  }

  /** `build_collection`: the first collection with the id, or a new one added to the
      session; then the patient is built under it. Afterwards the whole path of keys
      exists, the instance at its end holds what the manifest row says, and only rows
      on that path were touched. */
  method BuildCollection(args: LoadArgs, db: Db, collectionId: Key, patientId: Key, studyId: Key,
                         seriesId: Key, instanceId: Key, hash: string, blobName: string)
    returns (ghost c: IdcCollection, ghost p: IdcPatient, ghost st: IdcStudy, ghost se: IdcSeries,
             ghost x: IdcInstance)
    modifies db, CollectionsKeyed(db.collections, collectionId)
    modifies PatientsUnder(CollectionsKeyed(db.collections, collectionId), patientId)
    modifies StudiesUnder(PatientsUnder(CollectionsKeyed(db.collections, collectionId), patientId), studyId)
    modifies SeriesUnder(StudiesUnder(PatientsUnder(CollectionsKeyed(db.collections, collectionId), patientId),
                                      studyId), seriesId)
    modifies InstancesUnder(SeriesUnder(StudiesUnder(PatientsUnder(CollectionsKeyed(db.collections, collectionId),
                                                                   patientId), studyId), seriesId), instanceId)
    ensures CollectionIds(db.collections) == WithKey(old(CollectionIds(db.collections)), collectionId)
    ensures var f := old(FindFirst(db.collections, CollectionId, collectionId));
      if f.Some? then
        && c == f.value && db.collections == old(db.collections)
        && PatientIds(c.patients) == WithKey(old(PatientIds(c.patients)), patientId)
      else fresh(c) && db.collections == old(db.collections) + [c] && c.patients == [p]
    ensures c in db.collections && c.collectionId == collectionId
    ensures p in c.patients && p.submitterCaseId == patientId
    ensures st in p.studies && st.studyInstanceUid == studyId
    ensures se in st.seriess && se.seriesInstanceUid == seriesId
    ensures x in se.instances && x.sopInstanceUid == instanceId && x.row == Loaded(args, hash, blobName)
    ensures fresh(p) ==> p.studies == [st]
    ensures !fresh(p) ==> StudyIds(p.studies) == WithKey(old(StudyIds(p.studies)), studyId)
  {
    var found := FindFirst(db.collections, CollectionId, collectionId);
    var collection: IdcCollection;
    if found.Some? {
      collection := found.value;
    } else {
      collection := new IdcCollection(collectionId);
      MapConcat(db.collections, [collection], CollectionId);
      db.collections := db.collections + [collection];
    }
    label call:
    p, st, se, x := BuildPatient(args, collection, patientId, studyId, seriesId, instanceId, hash, blobName);
    c := collection;
    assert !fresh(p) ==> old@call(p.studies) == old(p.studies);
  }
}
