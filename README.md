# IDC ETL core, modelled in Dafny

This project models the core of the Imaging Data Commons (IDC) ETL in Dafny and proves
properties of that model. The core has four parts.

- **The per-version reconciliation engine** (`ingestion/collection.py`, `ingestion/patient.py`,
  `ingestion/series.py`). Each level works on one parent row: a collection, a patient or a
  series. `expand_*` compares the parent's children with the natural keys the sources report now.
  - New keys get new child rows.
  - A child whose hashes differ from the source's is cloned under a fresh uuid. The old row is
    made final and dropped from the parent.
  - An unchanged child is stamped and marked done.
  - A child the sources no longer report is retired.

  `build_*` then expands the parent if needed and builds the children that are not done. Once
  every child is done, it stamps the parent with the latest child timestamp. The parent is marked
  done only when its per-source hashes agree with the sources. `clone_*` and `retire_*` copy a row
  and end a row's life.
- **The manifest loader's find-or-create walk**
  (`preingestion/populate_idc_metadata_tables_from_manifest`). It walks down
  collection → patient → study → series → instance. At each level it takes the first child with
  the key, or appends a new one. At the end of the path it writes the instance's version, URL,
  hash and exclusion flag.
- **The column-list generator of the BigQuery table comparison** (`gen_select`, `schema_has` and
  `types_match`). It works on the two table schemas.
- **The TCIA pathology metadata transform** (`get_raw_data`). It joins public collection pages
  with pathology-image downloads and normalises the collection id and the URL. The rows are sorted
  by download slug.

## How the model is built

Database rows that the source updates in place are Dafny classes. Their mutable columns sit in one
record field. The `seq` of children is reassigned as the source appends and removes rows. Each
method states the new state it leaves, in terms of spec functions and ghost predicates:
- `Partition` and `Reconciled` say how keys split and what the children's keys become;
- `SettledRows` and `ClonesOf` say what each held row becomes;
- `SeriesCompleted` and `Completed` say how a parent's columns are completed.
Lemmas state what these definitions promise.

The collaborators the source calls are parameters:
- the source listing (`Listing`), with its keys, per-key value and reported revision;
- the source hashes (`src`);
- the engine's own hash computation (`idcHashes`);
- `accum_sources` (`accum`);
- the build results of the level below (`feed`).
`utcnow()` is a timestamp parameter `now`, so columns the source stamps from separate `utcnow()` calls in one operation (an unchanged child's min and max timestamps, say) are equal in the model. `uuid4()` is a counter `ids`: new rows take
consecutive uuids from it.

Modules, one per file:
- `Common`, `Reconcile`, `Sorting`: shared definitions (hashes, Python's `max`, the key split, `list.remove`, Python's stable `sorted` on `str`);
- `StudyLevel`: the study row, as far as the patient level needs it;
- `PatientLevel`, `CollectionLevel`, `SeriesLevel`: the three reconciliation files;
- `Manifest`: the manifest loader;
- `CompareTables`: the BigQuery column selection;
- `Pathology`: the TCIA pathology metadata transform.

## Model

| member | source | states |
|---|---|---|
| Reconcile.HasDuplicates | ingestion/patient.py:51 | the `len(ids) != len(set(ids))` test is true exactly when two positions of the listing hold the same key |
| Reconcile.PartitionSplits | ingestion/patient.py:63-68 | for a parent that is not new, new = reported minus held, existing = held and reported, retired = held minus reported; the three are pairwise disjoint, sorted, repeat-free and cover both lists |
| Reconcile.PartitionOfNew | ingestion/patient.py:57-61 | for a new parent the whole listing, sorted, is new, and nothing is compared or retired |
| Reconcile.PartitionHeld | ingestion/collection.py:122-133 | whatever the parent's state, the existing and retired keys are held keys, occur once each and are disjoint |
| Reconcile.ReconciledMatchesListing | ingestion/series.py:62-150 | after expanding a parent that is not new, its children carry exactly the reported keys, each once, whatever was revised |
| Reconcile.ReconciledWhenNew | ingestion/series.py:56-60 | after expanding a new parent, the children are the ones it held followed by the whole listing in sorted order |
| Reconcile.KeysAfterExpand | ingestion/patient.py:94-142 | the list the three passes leave (kept rows, then new rows, then clones) carries the keys `Reconciled` describes |
| Reconcile.ReconciledRows | ingestion/patient.py:70-142 | the rows the three passes leave carry exactly the reconciled keys, and each is a held row, a new row or a clone |
| Reconcile.RemoveFirstWithout | ingestion/patient.py:126 | `list.remove` of a child still present drops exactly that child and keeps the order of the rest |
| Sorting.SortBySortsAndPermutes | ingestion/patient.py:66-68 | `sorted(..., key=...)` gives a list ordered by key that is a permutation of its input |
| Sorting.SortByStable | bq/generate_tables_and_views/tcia_pathology_metadata.py:84-85 | `sorted(..., key=...)` is stable: the elements sharing a key keep their input order |
| Sorting.SortedKeysUnique | ingestion/patient.py:70 | two ordered lists of `str` keys with the same elements are equal, so the model's sort gives what Python's gives |
| Common.RevisedIffPerSourceDiffers | ingestion/patient.py:101-102 | `any(revised)` holds exactly when some per-source slot of the stored hashes differs from the source's hash |
| Common.MaxOf | ingestion/series.py:179 | Python's `max`: None exactly for an empty list, otherwise a member of the list that bounds every member |
| Common.LatestTimestamp | ingestion/patient.py:162 | `max` over the timestamps that are not None: None exactly when no child has one, otherwise one of them that bounds all of them |
| StudyLevel.CloneStudy | ingestion/patient.py:104 | the clone is a fresh row under the given uuid with every column of the original |
| StudyLevel.RetireStudy | ingestion/patient.py:141 | only the final version changes, to the previous version |
| StudyLevel.BuildStudy | ingestion/patient.py:157-158 | the study takes the columns its build reports |
| PatientLevel.FindStudy | ingestion/patient.py:64 | the `idc_objects` lookup finds a study with the key exactly when one is held |
| PatientLevel.ExistingStudyError | ingestion/patient.py:98-105 | the walk over existing studies fails exactly when a study has no stored hashes (`MissingHashes`) or a revised study is listed under another revision (`RevisionMismatch`) |
| PatientLevel.ExistingStudyErrorAsWritten | ingestion/patient.py:85-105 | the walk as the code is written fails exactly when an existing study has no stored hashes (`MissingHashes`) or is revised (`BadSubscript`, the flag pair subscripted by a column name) |
| PatientLevel.RevisionAbortsAsWritten | ingestion/patient.py:85-105 | when every existing study has hashes, every revision is listed under this version and some study is revised, the intended walk passes and the walk as written fails |
| PatientLevel.MissingHashesNeedsNone | ingestion/patient.py:99-101 | the walk as written reports missing hashes only for an existing study that has none |
| PatientLevel.ChangedFromSnapshot | ingestion/patient.py:99-102 | the revised keys computed on the heap are those computed on the snapshot of the held studies' columns, and are existing keys |
| PatientLevel.ClonePatient | ingestion/patient.py:29-36 | a fresh row under the given uuid, with every column and the same studies in the same order |
| PatientLevel.RetirePatient | ingestion/patient.py:39-44 | every study and then the patient get the previous version as their final one; nothing else in the model changes (the studies' series and instances are not modelled) |
| PatientLevel.AppendNewStudies | ingestion/patient.py:70-94 | one new row per new key, in key order, with consecutive uuids, appended after the held studies |
| PatientLevel.SettledThenRetired | ingestion/patient.py:139-142 | retiring after the revising pass settles the union of both passes' keys |
| PatientLevel.SupersedeStudy | ingestion/patient.py:102-126 | a revised study gets a clone with this version and no hashes appended; the old row is made final and dropped |
| PatientLevel.CheckStudy | ingestion/patient.py:127-136 | an unchanged study is stamped, done and expanded, and stays in place |
| PatientLevel.ReviseExistingStudies | ingestion/patient.py:98-137 | each existing study, in key order, is superseded when revised and checked otherwise; the loop keeps the bookkeeping invariant |
| PatientLevel.RetireVanishedStudies | ingestion/patient.py:139-142 | each study no longer listed is retired and dropped from the patient |
| PatientLevel.SupersedeStudies | ingestion/patient.py:98-142 | the second and third passes together: revised rows replaced by clones, unchanged rows done, vanished rows retired |
| PatientLevel.ReconcileStudies | ingestion/patient.py:70-142 | the three passes together leave kept rows, then new rows, then clones, with every held row settled |
| PatientLevel.ExpandPatient | ingestion/patient.py:47-147 | fails, changing nothing, exactly on a repeated key or an existing-study error; otherwise the children carry the reconciled keys, new rows and clones are fresh and described, held rows are settled, and the patient is expanded |
| PatientLevel.BuildPendingStudies | ingestion/patient.py:155-160 | every study not done takes its build's columns; done ones are left alone |
| PatientLevel.CompletePatient | ingestion/patient.py:161-186 | nothing changes until every study is done; then it fails when no study has a timestamp, and otherwise the patient takes the latest one; it is done, with hashes and sources, only when the per-source hashes agree |
| PatientLevel.ExpandIfNeeded | ingestion/patient.py:152-153 | expands only a patient not yet expanded; a failed expansion changes nothing |
| PatientLevel.BuildPatient | ingestion/patient.py:149-186 | build_patient's outcome: expansion failure passes through; otherwise every study is built, and the patient becomes done exactly when it was or every study is done with agreeing hashes |
| CollectionLevel.FindPatient | ingestion/collection.py:129 | the `idc_objects` lookup finds a patient with the key exactly when one is held |
| CollectionLevel.ExistingPatientError | ingestion/collection.py:164-167 | the walk over existing patients fails (`MissingHashes`) exactly when one of them has no stored hashes |
| CollectionLevel.ChangedPatientsFromSnapshot | ingestion/collection.py:165-168 | the revised keys computed on the heap are those computed on the snapshot, and are existing keys |
| CollectionLevel.SettledKeepsWellFormed | ingestion/collection.py:164-212 | every patient the expansion keeps or clones stays well formed |
| CollectionLevel.CloneCollection | ingestion/collection.py:42-49 | a fresh row under the given uuid, with every column and the same patients in the same order |
| CollectionLevel.RetireCollection | ingestion/collection.py:52-57 | every patient, every study of those patients, and then the collection get the previous version as their final one |
| CollectionLevel.AppendNewPatients | ingestion/collection.py:135-161 | one new row per new key, in key order; each takes an idc_case_id and a uuid from the counter and has no studies |
| CollectionLevel.SupersedePatient | ingestion/collection.py:168-193 | a revised patient gets a clone appended that shares its studies, has no hashes or sources and carries this version; the old row is made final and dropped |
| CollectionLevel.CheckPatient | ingestion/collection.py:195-205 | an unchanged patient is stamped, done and expanded |
| CollectionLevel.ReviseExistingPatients | ingestion/collection.py:164-205 | each existing patient, in key order, is superseded when revised and checked otherwise |
| CollectionLevel.RetireVanishedPatients | ingestion/collection.py:208-212 | each patient no longer listed is retired with its studies and dropped; no other row changes |
| CollectionLevel.ReconcilePatients | ingestion/collection.py:135-212 | the three passes together leave kept rows, then new rows, then clones, with every held row settled |
| CollectionLevel.ReconciledWellFormed | ingestion/collection.py:135-212 | every row the expansion leaves is well formed |
| CollectionLevel.ReconciledStudies | ingestion/collection.py:135-212 | every row left is held, new or a clone, and holds only studies some held row held |
| CollectionLevel.ExpandCollection | ingestion/collection.py:101-217 | fails, changing nothing, exactly on a repeated key or an existing patient without hashes; otherwise the patients carry the reconciled keys and the collection is expanded |
| CollectionLevel.ExpandCollectionIfNeeded | ingestion/collection.py:225-226 | expands only a collection not yet expanded; a failed expansion changes nothing |
| CollectionLevel.BuildPendingPatients | ingestion/collection.py:256-265 | each patient not done is built in order; the first failure stops the loop; a patient before it that was not done is expanded and is done exactly when every study was done at the end of its build, and then its feed's hashes agree and are recorded with its sources and the latest study timestamp; rows after it are unchanged |
| CollectionLevel.CompleteCollection | ingestion/collection.py:327-356 | once every patient is done, the collection takes the latest patient timestamp and is done, with hashes and sources, only when the per-source hashes agree; a mismatch leaves it not done |
| CollectionLevel.CompletedDone | ingestion/collection.py:327-349 | completion fails exactly when every patient is done and none has a timestamp; a collection newly done has every patient done, agreeing hashes recorded, and a timestamp bounding every patient's |
| CollectionLevel.BuildCollection | ingestion/collection.py:221-360 | build_collection's outcome: expansion failure passes through; otherwise patients are built up to the first failure, each built one done exactly when its studies were, with agreeing hashes, its sources and the latest study timestamp; the patients after the failing one keep their columns; the collection is completed only when none failed |
| SeriesLevel.FindInstance | ingestion/series.py:64 | the `idc_objects` lookup finds an instance with the key exactly when one is held |
| SeriesLevel.ExistingInstanceError | ingestion/series.py:102-110 | the walk over existing instances fails exactly when a revised instance is listed under another revision than this version |
| SeriesLevel.ExistingInstanceErrorAsWritten | ingestion/series.py:95-110 | the walk as the code is written fails exactly when some existing instance is revised, always with `BadSubscript` (the `instance_source` value subscripted by a column name) |
| SeriesLevel.RevisionAbortsAsWritten | ingestion/series.py:95-110 | when every revision is listed under this version and some instance is revised, the intended walk passes and the walk as written fails with `BadSubscript` |
| SeriesLevel.ChangedFromSnapshot | ingestion/series.py:103-105 | the revised keys computed on the heap are those computed on the snapshot, and are existing keys |
| SeriesLevel.CloneInstance | ingestion/series.py:109 | the clone is a fresh row under the given uuid with every column of the original |
| SeriesLevel.ReviseClone | ingestion/series.py:109-127 | the clone of a revised instance is done and expanded, with this version, the listed source, no hash and size 0 |
| SeriesLevel.CloneSeries | ingestion/series.py:29-36 | a fresh row under the given uuid, with every column and the same instances in the same order |
| SeriesLevel.RetireSeries | ingestion/series.py:38-44 | every instance and then the series get the previous version as their final one |
| SeriesLevel.AppendNewInstances | ingestion/series.py:70-99 | one new row per new key, in key order, with consecutive uuids, the listed source, no hash, size 0, not done |
| SeriesLevel.SettledThenRetired | ingestion/series.py:147-150 | retiring after the revising pass settles the union of both passes' keys |
| SeriesLevel.SupersedeInstance | ingestion/series.py:107-135 | a revised instance gets its clone appended; the old row gets version-1 as its final version and is dropped |
| SeriesLevel.CheckInstance | ingestion/series.py:137-144 | an unchanged instance is stamped, done and expanded |
| SeriesLevel.ReviseExistingInstances | ingestion/series.py:102-145 | each existing instance, in key order, is superseded when revised and checked otherwise |
| SeriesLevel.RetireVanishedInstances | ingestion/series.py:147-150 | each instance no longer listed gets the previous version as its final one and is dropped |
| SeriesLevel.SupersedeInstances | ingestion/series.py:102-150 | the second and third passes together: revised rows replaced by clones, unchanged rows done, vanished rows retired |
| SeriesLevel.ReconcileInstances | ingestion/series.py:70-150 | the three passes together leave kept rows, then new rows, then clones, with every held row settled |
| SeriesLevel.ExpandSeries | ingestion/series.py:47-156 | fails, changing nothing, exactly on a repeated key or a revision listed under another version; otherwise the instances carry the reconciled keys and the series is expanded |
| SeriesLevel.BuildPendingInstances | ingestion/series.py:170-175 | every instance not done takes what its build reports; done ones are left alone |
| SeriesLevel.CompleteSeries | ingestion/series.py:177-201 | nothing changes until every instance is done; an empty series fails as `max` does; otherwise the series takes the latest timestamp, and is done with hashes and instance count only when the per-source hashes agree |
| SeriesLevel.SeriesCompletedDone | ingestion/series.py:177-198 | completion fails exactly when every instance is done and the series is empty or its hashes disagree; a series newly done has every instance done, agreeing hashes, its instance count, and a timestamp one instance holds and none exceeds |
| SeriesLevel.ExpandSeriesIfNeeded | ingestion/series.py:163-166 | expands only a series not yet expanded; a failed expansion changes nothing and is returned |
| SeriesLevel.BuildExpandedSeries | ingestion/series.py:170-201 | the builders run only when some instance is not done, then the completion |
| SeriesLevel.BuildSeries | ingestion/series.py:160-201 | build_series' outcome: expansion failure passes through; otherwise the instances are built and the series completed from its expanded columns |
| Manifest.FindFirst | preingestion/populate_idc_metadata_tables_from_manifest/populate_idc_metadata_tables_from_manifest.py:51 | `next(...)` finds a child exactly when one has the key, and the one it finds is the first with it |
| Manifest.WithKeyFacts | preingestion/populate_idc_metadata_tables_from_manifest/populate_idc_metadata_tables_from_manifest.py:89-96 | find-or-create leaves the key present once, adds no other key, grows the list by one exactly when the key was missing, keeps keys unique, and is idempotent |
| Manifest.GcsUrlRoundTrip | preingestion/populate_idc_metadata_tables_from_manifest/populate_idc_metadata_tables_from_manifest.py:59 | the stored `gs://bucket/blob` URL gives back the blob name in the source bucket |
| Manifest.RefreshedKeepsLicense | preingestion/populate_idc_metadata_tables_from_manifest/populate_idc_metadata_tables_from_manifest.py:80-83 | refreshing a found series keeps its third-party flag and license and takes the run's DOI and URL; refreshing twice is refreshing once |
| Manifest.BuildInstance | preingestion/populate_idc_metadata_tables_from_manifest/populate_idc_metadata_tables_from_manifest.py:48-63 | the first instance with the key, or a new one appended, takes this version, the blob's URL, the hash and not-excluded; no other instance changes |
| Manifest.BuildSeries | preingestion/populate_idc_metadata_tables_from_manifest/populate_idc_metadata_tables_from_manifest.py:66-85 | the first series with the key, or a new one with the run's third-party flag and license, takes the DOI, URL and not-excluded; the instance is then built under it; the study's series list and the series' instance list each gain their key at most once, and a new series holds just the one instance |
| Manifest.BuildStudy | preingestion/populate_idc_metadata_tables_from_manifest/populate_idc_metadata_tables_from_manifest.py:88-98 | find-or-create of the study, then of the series path under it; the patient's study list, the study's series list and the series' instance list each gain their key at most once, and a new row holds just the one child |
| Manifest.BuildPatient | preingestion/populate_idc_metadata_tables_from_manifest/populate_idc_metadata_tables_from_manifest.py:101-111 | find-or-create of the patient, then of the study path under it; the collection's patient list, the patient's study list and the study's series list each gain their key at most once, and a new row holds just the one child |
| Manifest.BuildCollection | preingestion/populate_idc_metadata_tables_from_manifest/populate_idc_metadata_tables_from_manifest.py:114-125 | find-or-create of the collection in the session; afterwards the whole key path exists and the instance holds what the manifest row says; the session's collection list, the collection's patient list and the patient's study list each gain their key at most once, and a new row holds just the one child |
| CompareTables.FirstNamedIsFirst | bq/restructure_derived_views_tables/validation/Compare_two_tables.py:29 | the field `next` finds has the name, ignoring case, and no earlier field does |
| CompareTables.SchemaHas | bq/restructure_derived_views_tables/validation/Compare_two_tables.py:32-33 | true exactly when some field carries the name, ignoring case |
| CompareTables.SchemaHasIgnoresCase | bq/restructure_derived_views_tables/validation/Compare_two_tables.py:32-33 | names that agree lower-cased are in the schema together or not at all |
| CompareTables.TypesMatch | bq/restructure_derived_views_tables/validation/Compare_two_tables.py:28-30 | None exactly when no field has the name (where `next` raises); otherwise whether the first such field has the type |
| CompareTables.TypesMatchUnique | bq/restructure_derived_views_tables/validation/Compare_two_tables.py:28-30 | in a schema whose names differ ignoring case, the types match exactly when the field of that name has the type |
| CompareTables.Classify | bq/restructure_derived_views_tables/validation/Compare_two_tables.py:46-57 | each verdict of the if/elif chain holds exactly under its condition |
| CompareTables.ExcludedNamesIff | bq/restructure_derived_views_tables/validation/Compare_two_tables.py:46-55 | a name is appended to `excepts` exactly when a field of schema_1 carrying it is absent from schema_2, typed differently there, or a RECORD |
| CompareTables.FlattenClausesCount | bq/restructure_derived_views_tables/validation/Compare_two_tables.py:56-57 | one UNNEST clause per flattened field of schema_1, in schema order |
| CompareTables.FlattenClausesIff | bq/restructure_derived_views_tables/validation/Compare_two_tables.py:56-57 | a clause appears exactly when some field of schema_1 is a REPEATED scalar held with the same type by schema_2 |
| CompareTables.DropEachDistinct | bq/restructure_derived_views_tables/validation/Compare_two_tables.py:65-70 | over names without repeats, the removal loop keeps exactly the names not in `excepts`, in order |
| CompareTables.DropUrls | bq/restructure_derived_views_tables/validation/Compare_two_tables.py:72-76 | removing gcs_url and then aws_url keeps every other name in order |
| CompareTables.SelectedColumns | bq/restructure_derived_views_tables/validation/Compare_two_tables.py:63-76 | when schema_1's names do not repeat, the selects are its names in order, less the caller's excepts, the excluded names and the two URL columns |
| CompareTables.JoinSplit | bq/restructure_derived_views_tables/validation/Compare_two_tables.py:78 | a comma-joined list of names without commas splits back into the same names |
| CompareTables.ClassifyFields | bq/restructure_derived_views_tables/validation/Compare_two_tables.py:46-57 | the loop appends to `excepts` exactly `ExcludedNames` and returns exactly `FlattenClauses` |
| CompareTables.DropExcepts | bq/restructure_derived_views_tables/validation/Compare_two_tables.py:65-70 | the removal loop leaves the list `DropEach` describes |
| CompareTables.GenSelect | bq/restructure_derived_views_tables/validation/Compare_two_tables.py:36-82 | `excepts` grows by the excluded names; the results are the selected columns joined by commas and the clauses joined by a newline and indentation |
| Pathology.PublicCollections | bq/generate_tables_and_views/tcia_pathology_metadata.py:44 | a collection is kept exactly when it is listed and its page is public |
| Pathology.PathologyIndex | bq/generate_tables_and_views/tcia_pathology_metadata.py:46 | the dict's keys are its entries' keys, each once; each entry is keyed by its download's id and has no collection yet |
| Pathology.PathologyIndexKeys | bq/generate_tables_and_views/tcia_pathology_metadata.py:46 | a download id is in the dict exactly when some pathology-image download carries it |
| Pathology.PathologyIndexLast | bq/generate_tables_and_views/tcia_pathology_metadata.py:46 | the entry of an id is the last pathology-image download carrying it |
| Pathology.ParentAfterListed | bq/generate_tables_and_views/tcia_pathology_metadata.py:47-51 | a download listed by several collections ends with the id and slug of the last one |
| Pathology.ParentAfterUnlisted | bq/generate_tables_and_views/tcia_pathology_metadata.py:47-51 | a download no collection lists keeps its entry unchanged |
| Pathology.AttachCollections | bq/generate_tables_and_views/tcia_pathology_metadata.py:47-51 | the nested join loop leaves the dict `Joined` describes |
| Pathology.UnderscoredChars | bq/generate_tables_and_views/tcia_pathology_metadata.py:69 | `replace('-', '_')` keeps the length, turns every dash into an underscore, keeps every other character, and leaves no dash |
| Pathology.UnderscoredIdempotent | bq/generate_tables_and_views/tcia_pathology_metadata.py:69 | replacing twice is replacing once |
| Pathology.FullUrlHttps | bq/generate_tables_and_views/tcia_pathology_metadata.py:79-80 | the URL starts with `https`, ends with the download's URL, is that URL when it starts with `https`, and normalising twice is normalising once |
| Pathology.MakeRowNormalised | bq/generate_tables_and_views/tcia_pathology_metadata.py:67-81 | a row's IDC collection id is its collection slug without dashes, and its URL is the download's URL made absolute |
| Pathology.RowsOfIds | bq/generate_tables_and_views/tcia_pathology_metadata.py:65-82 | the output loop makes a row for a download id exactly when the dict holds that id with a collection |
| Pathology.RowsOfRows | bq/generate_tables_and_views/tcia_pathology_metadata.py:65-82 | each row is built from the entry of its own download id |
| Pathology.RowsOfDistinct | bq/generate_tables_and_views/tcia_pathology_metadata.py:65-82 | no two rows share a download id |
| Pathology.BuildRows | bq/generate_tables_and_views/tcia_pathology_metadata.py:65-82 | the loop builds the rows `RowsOf` describes, in dict order |
| Pathology.GetRawData | bq/generate_tables_and_views/tcia_pathology_metadata.py:43-85 | filter, index, join, build and sort give `PathologyTable` |
| Pathology.JoinedClaimed | bq/generate_tables_and_views/tcia_pathology_metadata.py:44-51 | a download gets a collection exactly when some pathology-image download carries its id and some public collection lists it |
| Pathology.JoinedEntry | bq/generate_tables_and_views/tcia_pathology_metadata.py:44-51 | a claimed entry holds the last such download and the last public collection listing it |
| Pathology.PathologyTableIds | bq/generate_tables_and_views/tcia_pathology_metadata.py:43-85 | the table is sorted by download slug, has one row per download id, and has a row for an id exactly when a pathology-image download carries it and a public collection lists it |
| Pathology.PathologyTableStable | bq/generate_tables_and_views/tcia_pathology_metadata.py:84-85 | rows sharing a download slug keep the order the joined dict gives them |
| Pathology.PathologyTableRows | bq/generate_tables_and_views/tcia_pathology_metadata.py:43-85 | each row joins the last pathology-image download with its id and the last public collection listing it |

## Left out

- `build_mtm_db` branches of every level: only the normal ingestion path is modelled. In particular the migration-database values copied from the listing and the `done` flags that branch sets are not modelled.
- The worker pool, queues, locks and retries of `build_collection` (collection.py:61-99 and 267-325) and the patient retry loop: only the sequential path (`num_processes == 0`) is modelled.
- The DOI lookups and the hard-coded DOI table of `build_collection`, the prestaging bucket, logging, `sess.commit()` and timing: I/O with no effect on the reconciled rows.
- `ingestion/study.py`, `instance.py`, `all_sources` and `accum_sources` are not part of this model. What the sources report is a parameter: the listing, `src`, `idcHashes`, `accum` and `feed`. The study-level operations the patient level calls, `clone_study`, `retire_study` and `build_study`, are stand-in methods (StudyLevel.CloneStudy, StudyLevel.RetireStudy, StudyLevel.BuildStudy) whose contracts state what the patient level relies on, not what study.py does.
- StudyLevel.RetireStudy: stamps the study only; retire_study's effect on the study's series and instances is not modelled.
- An exception raised inside a collaborator (a hash lookup, a source query) is not modelled. A failure the source raises part-way through a loop is modelled as an `Outcome` returned before any change. Where the source would already have changed earlier rows, those partial writes are not described.
- The `breakpoint()` at collection.py:209 is a debugging stop, not modelled.
- PatientLevel.BuildPendingStudies, CollectionLevel.BuildPendingPatients: a child's build is a feed of the columns it reports. The model does not describe the grandchildren the build touches.
- CollectionLevel.BuildPendingPatients, CollectionLevel.BuildCollection: a built patient's `done` and timestamp are stated against its studies' columns as that patient's build left them. A study shared with a patient built later may change afterwards.
- SeriesLevel.BuildPendingInstances: `build_instances_tcia` and `build_instances_path`, chosen by `series.sources`, are folded into one feed. Which source built an instance is not modelled.
- Instance timestamps are never None in the model (series.py:179 takes `max` over them without a None filter).
- Manifest.BuildCollection, Manifest.BuildPatient: each states the child lists down to two levels below the row it is given. Deeper lists (a study's series, a series' instances) are stated by Manifest.BuildStudy, Manifest.BuildSeries and Manifest.BuildInstance and are not restated at the top. The `modifies` clauses bound what may change: only the rows on the key path.
- CompareTables.Lower: `str.lower()` is modelled on ASCII letters only, without Unicode case mapping.
- The manifest loader's `prebuild`, CSV reading, GCS listing and session handling. The license dict's KeyError when a key is missing is not modelled: the license is a record with all three fields. The `size` argument is never stored by the source, so it is not a parameter.
- The BigQuery client calls of `gen_select` (fetching the two schemas) and the logging loop over schema_2 (Compare_two_tables.py:59-61), which changes nothing. The `try/except` around the removal loop never fires on a list of names.
- `get_raw_data`: the TCIA API calls, the diagnostic loop over unclaimed downloads (lines 54-63, output only), the JSON serialisation of each row and the BigQuery load (lines 84-95) are left out. The table is returned as a list of rows. `str()` conversions are identities because fields are strings. Download records are assumed to carry no `collection_slug` field of their own.
- Findings: the model uses the corrected series and patient walks (see below). The source as written cannot revise an instance, nor a study outside the `build_mtm_db` branch.
- SeriesLevel.ExistingInstanceError, SeriesLevel.ExpandSeries: `revVersion` is a listing field that the normal-path listing value (an `instance_source`) does not carry. The corrected walk reads it as the revision the sources report for the instance, which on the normal path is this version.
- PatientLevel.ExistingStudyError, PatientLevel.ExpandPatient: `revVersion` is a listing field that the normal-path listing value (the pair of revision flags) does not carry. The corrected walk reads it as the revision the sources report for the study, which on the normal path is this version.

## Findings

| source | as written | input that shows it | evidently intended | confidence | as-written member | corrected member |
|---|---|---|---|---|---|---|
| ingestion/series.py:95-124 | outside the `build_mtm_db` branch the listing value of an instance is its `instance_source` (what line 95 stores as `source`), yet for a revised instance line 110 subscripts it by `['rev_idc_version']`, which raises; past that, the listing is indexed with the Instance row itself (line 123), and the hash is reset on `new_instance` instead of the clone (line 124) | a series that is not new, holding instance X with stored hash h1, where the source lists X's SOPInstanceUID under this version with hash h2 | the clone takes the listed source for X's SOPInstanceUID and its own hash is reset to None, as `expand_patient` does for studies | high, not executed | SeriesLevel.ExistingInstanceErrorAsWritten, SeriesLevel.RevisionAbortsAsWritten | SeriesLevel.ExistingInstanceError, SeriesLevel.ExpandSeries |
| ingestion/patient.py:105 | outside the `build_mtm_db` branch the listing value of a study is its pair of revision flags (it is what line 85 stores as `revised`), yet line 105 subscripts it by `['rev_idc_version']` for every revised study, which raises | a patient that is not new, holding study S with stored hashes whose per-source part differs from what the sources now report for S | the revision check passes for a study the sources list under this version, and S is superseded by a clone, as the `build_mtm_db` branch does | high, not executed | PatientLevel.ExistingStudyErrorAsWritten, PatientLevel.RevisionAbortsAsWritten | PatientLevel.ExistingStudyError, PatientLevel.ExpandPatient |
