/** The study rows a patient owns. The study level's own expansion and build are
    not part of this model: a study is a leaf here, cloned by copying its columns,
    retired by stamping it, and built by applying what its build reports. */
module StudyLevel {
  import opened Common

  /** The mutable columns of a `study` row. */
  datatype StudyCols = StudyCols(
    studyInstances: int,
    minTimestamp: Option<Timestamp>,
    maxTimestamp: Option<Timestamp>,
    initIdcVersion: int,
    revIdcVersion: int,
    finalIdcVersion: int,
    done: bool,
    isNew: bool,
    expanded: bool,
    sources: Option<Flags>,
    hashes: Option<Hashes>,
    revised: Option<Flags>)

  class Study {
    const studyInstanceUid: Key
    const uuid: Uuid
    var cols: StudyCols

    constructor (studyInstanceUid: Key, uuid: Uuid, cols: StudyCols)
      ensures this.studyInstanceUid == studyInstanceUid && this.uuid == uuid && this.cols == cols
    {
      this.studyInstanceUid := studyInstanceUid;
      this.uuid := uuid;
      this.cols := cols;
    }
  }

  function StudyUid(s: Study): Key
  {
    s.studyInstanceUid
  }

  /** What a build of one study reports back: the columns it sets. */
  datatype StudyBuild = StudyBuild(
    done: bool,
    maxTimestamp: Option<Timestamp>,
    hashes: Option<Hashes>,
    sources: Option<Flags>,
    studyInstances: int)

  /** `clone_study`: a new row under the given uuid with every column copied. */
  method CloneStudy(s: Study, uuid: Uuid) returns (c: Study)
    ensures fresh(c)
    ensures c.studyInstanceUid == s.studyInstanceUid && c.uuid == uuid && c.cols == s.cols
  {
    c := new Study(s.studyInstanceUid, uuid, s.cols);
  }

  /** `retire_study`: the row stops being current after the previous version. */
  method RetireStudy(args: Args, s: Study)
    modifies s
    ensures s.cols == old(s.cols).(finalIdcVersion := args.previousVersion)
  {
    s.cols := s.cols.(finalIdcVersion := args.previousVersion);
  }

  /** `build_study`: the columns the study's build sets, taken from its report. */
  method BuildStudy(s: Study, b: StudyBuild)
    modifies s
    ensures s.cols == Built(old(s.cols), b)
  {
    s.cols := s.cols.(done := b.done, maxTimestamp := b.maxTimestamp, hashes := b.hashes,
                      sources := b.sources, studyInstances := b.studyInstances);
  }

  function Built(c: StudyCols, b: StudyBuild): (r: StudyCols)
    ensures r.done == b.done && r.maxTimestamp == b.maxTimestamp
    ensures r.initIdcVersion == c.initIdcVersion && r.revIdcVersion == c.revIdcVersion
    ensures r.finalIdcVersion == c.finalIdcVersion && r.isNew == c.isNew
  {
    c.(done := b.done, maxTimestamp := b.maxTimestamp, hashes := b.hashes,
       sources := b.sources, studyInstances := b.studyInstances)
  }
}
