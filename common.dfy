/** Shared vocabulary of the IDC ETL model: the composite columns of the versioned
    tables, the values the source collaborators report, and the errors the
    reconciliation engine raises. */
module Common {

  datatype Option<T> = None | Some(value: T)

  /** A natural key: collection_id, submitter_case_id, study/series/sop_instance_uid. */
  type Key = string

  /** A surrogate id handed out by the fresh-id oracle that stands in for uuid4(). */
  type Uuid = nat

  /** An opaque, ordered point in time standing in for datetime.utcnow(). */
  type Timestamp = int

  /** The two-slot `sources` / `revised` composite columns: one flag per source. */
  datatype Flags = Flags(tcia: bool, path: bool)

  const NoSources := Flags(false, false)

  /** The three-slot `hashes` composite column: (tcia, path, all_sources). */
  datatype Hashes = Hashes(tcia: string, path: string, allSources: string)

  /** What the source collaborators report as a node's hashes: one per source. */
  datatype HashPair = HashPair(tcia: string, path: string)

  /** `hashes[:-1]`: the per-source slots, without the derived all_sources slot. */
  function PerSource(h: Hashes): HashPair
  {
    HashPair(h.tcia, h.path)
  }

  /** `[x != y for x, y in zip(idc_hashes[:-1], src_hashes)]`: which sources changed. */
  function RevisedFlags(idc: Hashes, src: HashPair): Flags
  {
    Flags(idc.tcia != src.tcia, idc.path != src.path)
  }

  /** `any(revised)` */
  predicate AnyRevised(f: Flags)
  {
    f.tcia || f.path
  }

  /** The test expansion uses to revise a child and the gate a build uses to set
      `done` are the same comparison: some per-source hash differs. */
  lemma RevisedIffPerSourceDiffers(idc: Hashes, src: HashPair)
    ensures AnyRevised(RevisedFlags(idc, src)) <==> PerSource(idc) != src
  {
  }

  /** `[t for t in ts if t != None]`: the timestamps present, in order. */
  function Present(ts: seq<Option<Timestamp>>): (r: seq<Timestamp>)
    ensures |r| <= |ts|
    ensures forall t :: t in r <==> Some(t) in ts
  {
    if ts == [] then []
    else
      var rest := Present(ts[1..]);
      assert ts == [ts[0]] + ts[1..];
      if ts[0].Some? then [ts[0].value] + rest else rest
  }

  /** Python's `max` over a list of timestamps; None where `max` raises on an empty list. */
  function MaxOf(xs: seq<Timestamp>): (r: Option<Timestamp>)
    ensures r.None? <==> xs == []
    ensures r.Some? ==> r.value in xs && forall x :: x in xs ==> x <= r.value
  {
    if xs == [] then None
    else
      match MaxOf(xs[1..])
      case None => assert xs == [xs[0]]; Some(xs[0])
      case Some(m) =>
        assert xs == [xs[0]] + xs[1..];
        Some(if xs[0] >= m then xs[0] else m)
  }

  /** `max([t for t in ts if t != None])`: the latest timestamp present among the
      children, None when none has one (where `max` raises). */
  function LatestTimestamp(ts: seq<Option<Timestamp>>): (r: Option<Timestamp>)
    ensures r.None? <==> forall t :: t in ts ==> t.None?
    ensures r.Some? ==> Some(r.value) in ts && forall t :: t in ts && t.Some? ==> t.value <= r.value
  {
    MaxOf(Present(ts))
  }

  /** The errors the engine raises; each aborts the operation that raised it. */
  datatype Error =
    | DuplicateChildren     // RuntimeError: the listing repeats a natural key
    | MissingHashes         // TypeError: an existing child's `hashes` is None
    | RevisionMismatch      // AssertionError: the listing's rev_idc_version is not args.version
    | HashMismatch          // Exception('Hash match failed ...') of a build
    | EmptyMax              // ValueError: max() of an empty sequence
    | BadSubscript          // TypeError: a listing value that is not a dict subscripted by a column name

  datatype Outcome = Ok | Fail(error: Error)

  /** What all_sources.patients/studies/instances(parent) reports: the natural keys
      of the children, in order and possibly repeated, and for each key the value
      the source reports with it and the revision it names. */
  datatype Listing<V> = Listing(ids: seq<Key>, value: Key -> V, revVersion: Key -> int)

  /** The parts of `args` the engine reads. */
  datatype Args = Args(version: int, previousVersion: int)
}
