/** The TCIA pathology metadata table: the public collection pages and the
    pathology-image downloads of the TCIA collection manager, joined download by
    download, normalised and ordered by download slug (`get_raw_data`). The two
    listings arrive already fetched; the table is returned rather than loaded. */
module Pathology {
  import opened Common
  import opened Reconcile
  import opened Sorting

  /** A collection page of the collection manager, with the ids of its downloads. */
  datatype Collection = Collection(id: string, slug: string, accessibility: string, downloads: seq<Key>)

  /** A download record of the collection manager. */
  datatype Download = Download(id: Key, slug: string, downloadType: string, dateUpdated: string,
                               title: string, fileType: string, size: string, sizeUnit: string,
                               url: string)

  /** The two fields the join writes into a download's entry. */
  datatype Parent = Parent(collectionId: string, collectionSlug: string)

  /** A download's entry in the dict; `parent` is None until a collection claims it. */
  datatype Entry = Entry(download: Download, parent: Option<Parent>)

  /** A dict keyed by download id: its keys in insertion order and its entries. */
  datatype Dict = Dict(keys: seq<Key>, entries: map<Key, Entry>)

  /** One row of the output table. */
  datatype Row = Row(idcCollectionId: string, downloadId: Key, downloadSlug: string,
                     collectionId: string, collectionSlug: string, dateUpdated: string,
                     downloadTitle: string, fileType: string, downloadSize: string,
                     downloadSizeUnit: string, downloadUrl: string)

  const PathologyImages := "Pathology Images"
  const Https := "https"
  const Host := "https://www.cancerimagingarchive.net"

  predicate IsPublic(c: Collection)
  {
    c.accessibility == "Public"
  }

  predicate IsPathology(d: Download)
  {
    d.downloadType == PathologyImages
  }

  /** The collection list comprehension: public pages only, in listing order. */
  function PublicCollections(cs: seq<Collection>): (r: seq<Collection>)
    ensures forall c :: c in r <==> c in cs && IsPublic(c)
  {
    FilterMembers(cs, IsPublic);
    Filter(cs, IsPublic)
  }

  /** A dict's keys are its entries' keys, each once. */
  predicate Keyed(d: Dict)
  {
    Distinct(d.keys) && Elems(d.keys) == d.entries.Keys
  }

  /** `d[k] = e`: a new key goes last, an existing key keeps its place. */
  function Put(d: Dict, k: Key, e: Entry): (r: Dict)
    requires Keyed(d)
    ensures Keyed(r) && r.entries.Keys == d.entries.Keys + {k} && r.entries[k] == e
    ensures forall j :: j in d.entries && j != k ==> r.entries[j] == d.entries[j]
  {
    Dict(if k in d.entries then d.keys else d.keys + [k], d.entries[k := e])
  }

  /** The dict comprehension over the downloads: pathology downloads only, keyed by
      id, a later download with the same id replacing the earlier one. */
  function PathologyIndex(ds: seq<Download>): (d: Dict)
    ensures Keyed(d)
    ensures forall k :: k in d.entries ==> d.entries[k].download.id == k && d.entries[k].parent == None
  {
    if ds == [] then Dict([], map[])
    else
      var init := PathologyIndex(ds[..|ds| - 1]);
      var x := ds[|ds| - 1];
      if IsPathology(x) then Put(init, x.id, Entry(x, None)) else init
  }

  /** Some pathology download carries id k. */
  predicate HasPathology(ds: seq<Download>, k: Key)
  {
    exists a :: 0 <= a < |ds| && IsPathology(ds[a]) && ds[a].id == k
  }

  /** ds[a] is the last pathology download whose id is k. */
  predicate LastPathology(ds: seq<Download>, a: int, k: Key)
  {
    0 <= a < |ds| && IsPathology(ds[a]) && ds[a].id == k &&
    forall j :: a < j < |ds| ==> !(IsPathology(ds[j]) && ds[j].id == k)
  }

  /** A download id is in the index exactly when some pathology download carries it. */
  lemma {:induction false} PathologyIndexKeys(ds: seq<Download>, k: Key)
    ensures k in PathologyIndex(ds).entries <==> HasPathology(ds, k)
  {
    if ds != [] {
      var n := |ds| - 1;
      PathologyIndexKeys(ds[..n], k);
      if HasPathology(ds, k) && !(IsPathology(ds[n]) && ds[n].id == k) {
        var a :| 0 <= a < |ds| && IsPathology(ds[a]) && ds[a].id == k;
        assert ds[..n][a] == ds[a];
      }
      if HasPathology(ds[..n], k) {
        var a :| 0 <= a < n && IsPathology(ds[..n][a]) && ds[..n][a].id == k;
        assert ds[a] == ds[..n][a];
      }
    }
  }

  /** The entry of a download id is the last pathology download carrying it. */
  lemma {:induction false} PathologyIndexLast(ds: seq<Download>, k: Key)
    requires k in PathologyIndex(ds).entries
    ensures exists a :: LastPathology(ds, a, k) && PathologyIndex(ds).entries[k].download == ds[a]
  {
    var n := |ds| - 1;
    if IsPathology(ds[n]) && ds[n].id == k {
      assert LastPathology(ds, n, k);
    } else {
      var init := ds[..n];
      assert k in PathologyIndex(init).entries;
      PathologyIndexLast(init, k);
      var a :| LastPathology(init, a, k) && PathologyIndex(init).entries[k].download == init[a];
      assert LastPathology(ds, a, k);
    }
  }

  function ParentOf(c: Collection): Parent
  {
    Parent(c.id, c.slug)
  }

  /** The parent a download with id k ends up with after the join over cs, starting
      from p: the last collection listing k, or p when none does. */
  function ParentAfter(cs: seq<Collection>, k: Key, p: Option<Parent>): Option<Parent>
  {
    if cs == [] then p
    else if k in cs[|cs| - 1].downloads then Some(ParentOf(cs[|cs| - 1]))
    else ParentAfter(cs[..|cs| - 1], k, p)
  }

  /** cs[b] is the last collection listing download id k. */
  predicate LastListing(cs: seq<Collection>, b: int, k: Key)
  {
    0 <= b < |cs| && k in cs[b].downloads &&
    forall j :: b < j < |cs| ==> k !in cs[j].downloads
  }

  /** Some collection of cs lists download id k. */
  predicate Listed(cs: seq<Collection>, k: Key)
  {
    exists b :: 0 <= b < |cs| && k in cs[b].downloads
  }

  /** When several collections list a download, the later one wins. */
  lemma {:induction false} ParentAfterListed(cs: seq<Collection>, k: Key, p: Option<Parent>)
    requires Listed(cs, k)
    ensures exists b :: LastListing(cs, b, k) && ParentAfter(cs, k, p) == Some(ParentOf(cs[b]))
  {
    var n := |cs| - 1;
    if k in cs[n].downloads {
      assert LastListing(cs, n, k);
    } else {
      var init := cs[..n];
      var b0 :| 0 <= b0 < |cs| && k in cs[b0].downloads;
      assert b0 < n && init[b0] == cs[b0];
      assert Listed(init, k);
      assert ParentAfter(cs, k, p) == ParentAfter(init, k, p);
      ParentAfterListed(init, k, p);
      var b :| LastListing(init, b, k) && ParentAfter(init, k, p) == Some(ParentOf(init[b]));
      LastListingExtends(cs, b, k);
    }
  }

  /** The last listing of k among all but the last collection stays the last one when
      the last collection does not list k. */
  lemma LastListingExtends(cs: seq<Collection>, b: int, k: Key)
    requires cs != [] && k !in cs[|cs| - 1].downloads
    requires LastListing(cs[..|cs| - 1], b, k)
    ensures LastListing(cs, b, k) && cs[b] == cs[..|cs| - 1][b]
  {
    var init := cs[..|cs| - 1];
    forall j | b < j < |cs|
      ensures k !in cs[j].downloads
    {
      if j < |cs| - 1 {
        assert init[j] == cs[j];
      }
    }
  }

  /** When no collection lists a download, its entry is left as it was. */
  lemma {:induction false} ParentAfterUnlisted(cs: seq<Collection>, k: Key, p: Option<Parent>)
    requires !Listed(cs, k)
    ensures ParentAfter(cs, k, p) == p
  {
    if cs != [] {
      var n := |cs| - 1;
      assert k !in cs[n].downloads;
      forall b | 0 <= b < n
        ensures k !in cs[..n][b].downloads
      {
        assert cs[..n][b] == cs[b];
      }
      ParentAfterUnlisted(cs[..n], k, p);
    }
  }

  /** The dict after the join loop over cs. */
  function Joined(cs: seq<Collection>, d: Dict): (r: Dict)
    ensures r.keys == d.keys && r.entries.Keys == d.entries.Keys
    ensures forall k :: k in r.entries ==> r.entries[k].download == d.entries[k].download
  {
    Dict(d.keys, map k | k in d.entries :: d.entries[k].(parent := ParentAfter(cs, k, d.entries[k].parent)))
  }

  /** The join loop: every download id a collection lists and the dict holds gets
      that collection's id and slug, collection by collection. */
  method AttachCollections(cs: seq<Collection>, index: Dict) returns (d: Dict)
    ensures d == Joined(cs, index)
  {
    d := index;
    for i := 0 to |cs|
      invariant d.keys == index.keys && d.entries.Keys == index.entries.Keys
      invariant forall k :: k in d.entries ==>
        d.entries[k] == index.entries[k].(parent := ParentAfter(cs[..i], k, index.entries[k].parent))
    {
      var c := cs[i];
      for j := 0 to |c.downloads|
        invariant d.keys == index.keys && d.entries.Keys == index.entries.Keys
        invariant forall k :: k in d.entries ==>
          d.entries[k] == index.entries[k].(parent :=
            if k in c.downloads[..j] then Some(ParentOf(c))
            else ParentAfter(cs[..i], k, index.entries[k].parent))
      {
        var id := c.downloads[j];
        assert c.downloads[..j + 1] == c.downloads[..j] + [id];
        if id in d.entries {
          d := d.(entries := d.entries[id := d.entries[id].(parent := Some(ParentOf(c)))]);
        }
      }
      assert c.downloads[..|c.downloads|] == c.downloads;
      assert cs[..i + 1][..i] == cs[..i];
    }
    assert cs[..|cs|] == cs;
  }

  /** `str.replace('-', '_')`. */
  function Underscored(s: string): string
  {
    if s == [] then [] else [if s[0] == '-' then '_' else s[0]] + Underscored(s[1..])
  }

  /** Every dash becomes an underscore, every other character stays in place. */
  lemma {:induction false} UnderscoredChars(s: string)
    ensures |Underscored(s)| == |s| && '-' !in Underscored(s)
    ensures forall i :: 0 <= i < |s| ==> Underscored(s)[i] == (if s[i] == '-' then '_' else s[i])
  {
    if s != [] {
      UnderscoredChars(s[1..]);
    }
  }

  lemma {:induction false} UnderscoredIdempotent(s: string)
    ensures Underscored(Underscored(s)) == Underscored(s)
  {
    var r := Underscored(s);
    UnderscoredChars(s);
    UnderscoredChars(r);
  }

  /** A download URL that does not start with "https" is a path on the TCIA host. */
  function FullUrl(url: string): string
  {
    if Https <= url then url else Host + url
  }

  /** The URL is https, ends with the given one, and an https URL is kept as it is. */
  lemma FullUrlHttps(url: string)
    ensures Https <= FullUrl(url) && |url| <= |FullUrl(url)|
    ensures FullUrl(url)[|FullUrl(url)| - |url|..] == url
    ensures Https <= url ==> FullUrl(url) == url
    ensures FullUrl(FullUrl(url)) == FullUrl(url)
  {
    if !(Https <= url) {
      assert Host[..|Https|] == Https;
      assert (Host + url)[..|Https|] == Https;
    }
  }

  /** The output row of a download with id k claimed by collection p. */
  function MakeRow(k: Key, dl: Download, p: Parent): Row
  {
    Row(Underscored(p.collectionSlug), k, dl.slug, p.collectionId, p.collectionSlug, dl.dateUpdated,
        dl.title, dl.fileType, dl.size, dl.sizeUnit, FullUrl(dl.url))
  }

  /** A row's IDC collection id is its collection slug without dashes, and its URL
      is the download's URL made absolute. */
  lemma MakeRowNormalised(k: Key, dl: Download, p: Parent)
    ensures var r := MakeRow(k, dl, p);
      r.idcCollectionId == Underscored(r.collectionSlug) && '-' !in r.idcCollectionId &&
      Https <= r.downloadUrl && r.downloadUrl[|r.downloadUrl| - |dl.url|..] == dl.url &&
      (Https <= dl.url ==> r.downloadUrl == dl.url)
  {
    UnderscoredChars(p.collectionSlug);
    FullUrlHttps(dl.url);
  }

  function RowOf(k: Key, e: Entry): seq<Row>
  {
    match e.parent
    case None => []
    case Some(p) => [MakeRow(k, e.download, p)]
  }

  /** The output loop: a row per claimed entry, in dict order. */
  function RowsOf(keys: seq<Key>, entries: map<Key, Entry>): seq<Row>
    requires forall i :: 0 <= i < |keys| ==> keys[i] in entries
  {
    if keys == [] then []
    else RowsOf(keys[..|keys| - 1], entries) + RowOf(keys[|keys| - 1], entries[keys[|keys| - 1]])
  }

  /** Some row of rows is for download id k. */
  predicate HasRow(rows: seq<Row>, k: Key)
  {
    exists i :: 0 <= i < |rows| && rows[i].downloadId == k
  }

  /** The dict entry a row stands for: claimed, and the row built from it. */
  predicate RowFor(r: Row, keys: seq<Key>, entries: map<Key, Entry>)
  {
    r.downloadId in keys && r.downloadId in entries && entries[r.downloadId].parent.Some? &&
    r == MakeRow(r.downloadId, entries[r.downloadId].download, entries[r.downloadId].parent.value)
  }

  /** Every claimed entry has a row and every row is for a claimed entry. */
  lemma HasRowConcat(a: seq<Row>, b: seq<Row>, k: Key)
    ensures HasRow(a + b, k) <==> HasRow(a, k) || HasRow(b, k)
  {
    if HasRow(a + b, k) {
      var i :| 0 <= i < |a + b| && (a + b)[i].downloadId == k;
      if i >= |a| {
        assert b[i - |a|] == (a + b)[i];
      }
    }
    if HasRow(a, k) {
      var i :| 0 <= i < |a| && a[i].downloadId == k;
      assert (a + b)[i] == a[i];
    }
    if HasRow(b, k) {
      var i :| 0 <= i < |b| && b[i].downloadId == k;
      assert (a + b)[|a| + i] == b[i];
    }
  }

  /** Reordering the rows keeps the download ids they hold. */
  lemma HasRowPermuted(a: seq<Row>, b: seq<Row>, k: Key)
    requires multiset(a) == multiset(b)
    ensures HasRow(a, k) <==> HasRow(b, k)
  {
    if HasRow(a, k) {
      var i :| 0 <= i < |a| && a[i].downloadId == k;
      assert a[i] in multiset(b);
      var j :| 0 <= j < |b| && b[j] == a[i];
    }
    if HasRow(b, k) {
      var j :| 0 <= j < |b| && b[j].downloadId == k;
      assert b[j] in multiset(a);
      var i :| 0 <= i < |a| && a[i] == b[j];
    }
  }

  /** The row of one entry is for its own key, and exists when the entry is claimed. */
  lemma RowOfIds(key: Key, e: Entry, k: Key)
    ensures HasRow(RowOf(key, e), k) <==> k == key && e.parent.Some?
    ensures forall r :: r in RowOf(key, e) ==> r == MakeRow(key, e.download, e.parent.value)
  {
    if e.parent.Some? {
      assert RowOf(key, e)[0].downloadId == key;
    }
  }

  /** The output loop's rows over a prefix of the keys grow by one entry's row. */
  lemma RowsOfPrefix(keys: seq<Key>, entries: map<Key, Entry>, i: int)
    requires forall j :: 0 <= j < |keys| ==> keys[j] in entries
    requires 0 <= i < |keys|
    ensures RowsOf(keys[..i + 1], entries) == RowsOf(keys[..i], entries) + RowOf(keys[i], entries[keys[i]])
  {
    assert keys[..i + 1][..i] == keys[..i];
  }

  lemma InInitOrLast(keys: seq<Key>, k: Key)
    requires keys != []
    ensures k in keys <==> k in keys[..|keys| - 1] || k == keys[|keys| - 1]
  {
    assert keys == keys[..|keys| - 1] + [keys[|keys| - 1]];
  }

  lemma {:induction false} RowsOfIds(keys: seq<Key>, entries: map<Key, Entry>, k: Key)
    requires forall i :: 0 <= i < |keys| ==> keys[i] in entries
    ensures HasRow(RowsOf(keys, entries), k) <==> k in keys && k in entries && entries[k].parent.Some?
  {
    if keys != [] {
      var n := |keys| - 1;
      var t := RowOf(keys[n], entries[keys[n]]);
      RowsOfIds(keys[..n], entries, k);
      HasRowConcat(RowsOf(keys[..n], entries), t, k);
      RowOfIds(keys[n], entries[keys[n]], k);
      InInitOrLast(keys, k);
    }
  }

  /** Each row is built from the claimed entry of its own download id. */
  lemma {:induction false} RowsOfRows(keys: seq<Key>, entries: map<Key, Entry>)
    requires forall i :: 0 <= i < |keys| ==> keys[i] in entries
    ensures forall r :: r in RowsOf(keys, entries) ==> RowFor(r, keys, entries)
  {
    if keys != [] {
      var n := |keys| - 1;
      var init := RowsOf(keys[..n], entries);
      var t := RowOf(keys[n], entries[keys[n]]);
      RowsOfRows(keys[..n], entries);
      RowOfIds(keys[n], entries[keys[n]], keys[n]);
      assert RowsOf(keys, entries) == init + t;
      assert keys == keys[..n] + [keys[n]];
      forall r | r in init + t
        ensures RowFor(r, keys, entries)
      {
        if r in init {
          assert RowFor(r, keys[..n], entries);
        } else {
          assert r == MakeRow(keys[n], entries[keys[n]].download, entries[keys[n]].parent.value);
        }
      }
    }
  }

  /** No two rows share a download id. */
  lemma {:induction false} RowsOfDistinct(keys: seq<Key>, entries: map<Key, Entry>)
    requires forall i :: 0 <= i < |keys| ==> keys[i] in entries
    requires Distinct(keys)
    ensures var r := RowsOf(keys, entries);
      forall i, j :: 0 <= i < j < |r| ==> r[i].downloadId != r[j].downloadId
  {
    if keys != [] {
      var n := |keys| - 1;
      var r0 := RowsOf(keys[..n], entries);
      var r := RowsOf(keys, entries);
      RowsOfDistinct(keys[..n], entries);
      RowsOfIds(keys[..n], entries, keys[n]);
      assert keys[n] !in keys[..n];
      assert r == r0 + RowOf(keys[n], entries[keys[n]]);
      forall i, j | 0 <= i < j < |r|
        ensures r[i].downloadId != r[j].downloadId
      {
        if j < |r0| {
          assert r[i] == r0[i] && r[j] == r0[j];
        } else {
          assert r[i] == r0[i] && r[j].downloadId == keys[n];
        }
      }
    }
  }

  /** Two positions of b hold elements found at two different positions of a
      reordering of b. */
  lemma PermutationPositions<T>(a: seq<T>, b: seq<T>, i: int, j: int)
    requires multiset(a) == multiset(b) && 0 <= i < j < |b|
    ensures exists p, q :: 0 <= p < |a| && 0 <= q < |a| && p != q && a[p] == b[i] && a[q] == b[j]
  {
    assert b[i] in multiset(a) && b[j] in multiset(a);
    var p :| 0 <= p < |a| && a[p] == b[i];
    if b[i] != b[j] {
      var q :| 0 <= q < |a| && a[q] == b[j];
      assert a[p] == b[i] && a[q] == b[j];
    } else {
      assert b == b[..j] + b[j..];
      assert b[i] in multiset(b[..j]) && b[j] in multiset(b[j..]);
      assert a == a[..p] + [a[p]] + a[p + 1..];
      assert a[p] in multiset(a[..p]) + multiset(a[p + 1..]);
      if a[p] in a[..p] {
        var q :| 0 <= q < p && a[q] == a[p];
        assert a[p] == b[i] && a[q] == b[j];
      } else {
        var r :| 0 <= r < |a[p + 1..]| && a[p + 1..][r] == a[p];
        assert a[p + 1 + r] == b[j];
      }
    }
  }

  /** A reordering keeps download ids distinct. */
  lemma PermutationDistinctIds(a: seq<Row>, b: seq<Row>)
    requires multiset(a) == multiset(b)
    requires forall i, j :: 0 <= i < j < |a| ==> a[i].downloadId != a[j].downloadId
    ensures forall i, j :: 0 <= i < j < |b| ==> b[i].downloadId != b[j].downloadId
  {
    forall i, j | 0 <= i < j < |b|
      ensures b[i].downloadId != b[j].downloadId
    {
      PermutationPositions(a, b, i, j);
      var p, q :| 0 <= p < |a| && 0 <= q < |a| && p != q && a[p] == b[i] && a[q] == b[j];
      if p > q {
        assert a[q].downloadId != a[p].downloadId;
      }
    }
  }

  function DownloadSlug(r: Row): string
  {
    r.downloadSlug
  }

  /** The rows of the joined dict, in dict order, before sorting. */
  function JoinedRows(pub: seq<Collection>, ds: seq<Download>): seq<Row>
  {
    var d := Joined(pub, PathologyIndex(ds));
    assert forall i :: 0 <= i < |d.keys| ==> d.keys[i] in Elems(d.keys);
    RowsOf(d.keys, d.entries)
  }

  /** `get_raw_data`'s table: rows of the claimed pathology downloads, sorted by slug. */
  function PathologyTable(cs: seq<Collection>, ds: seq<Download>): seq<Row>
  {
    SortBy(JoinedRows(PublicCollections(cs), ds), DownloadSlug)
  }

  /** Rows sharing a slug keep the order the joined dict gives them. */
  lemma PathologyTableStable(cs: seq<Collection>, ds: seq<Download>, slug: string)
    ensures WithKey(PathologyTable(cs, ds), DownloadSlug, slug)
         == WithKey(JoinedRows(PublicCollections(cs), ds), DownloadSlug, slug)
  {
    SortByStable(JoinedRows(PublicCollections(cs), ds), DownloadSlug, slug);
  }

  /** The output loop: walks the dict in key order and appends a row per claimed entry. */
  method BuildRows(d: Dict) returns (rows: seq<Row>)
    requires Keyed(d)
    ensures forall i :: 0 <= i < |d.keys| ==> d.keys[i] in d.entries
    ensures rows == RowsOf(d.keys, d.entries)
  {
    assert forall i :: 0 <= i < |d.keys| ==> d.keys[i] in Elems(d.keys);
    rows := [];
    for i := 0 to |d.keys|
      invariant rows == RowsOf(d.keys[..i], d.entries)
    {
      var id := d.keys[i];
      var e := d.entries[id];
      RowsOfPrefix(d.keys, d.entries, i);
      if e.parent.Some? {
        rows := rows + [MakeRow(id, e.download, e.parent.value)];
      }
    }
    assert d.keys[..|d.keys|] == d.keys;
  }

  /** `get_raw_data` up to the load: filter, index, join, build the rows, sort. */
  method GetRawData(cs: seq<Collection>, ds: seq<Download>) returns (rows: seq<Row>)
    ensures rows == PathologyTable(cs, ds)
  {
    var collections := PublicCollections(cs);
    var index := PathologyIndex(ds);
    var d := AttachCollections(collections, index);
    var unsorted := BuildRows(d);
    rows := SortBy(unsorted, DownloadSlug);
  }

  /** A download id is claimed in the joined dict exactly when some pathology
      download carries it and some public collection lists it. */
  lemma JoinedClaimed(ds: seq<Download>, pub: seq<Collection>, k: Key)
    ensures var d := Joined(pub, PathologyIndex(ds));
      k in d.entries && d.entries[k].parent.Some? <==> HasPathology(ds, k) && Listed(pub, k)
  {
    PathologyIndexKeys(ds, k);
    if Listed(pub, k) {
      ParentAfterListed(pub, k, None);
    } else {
      ParentAfterUnlisted(pub, k, None);
    }
  }

  /** A claimed entry holds the last pathology download with its id and the last
      public collection listing it. */
  lemma JoinedEntry(ds: seq<Download>, pub: seq<Collection>, k: Key)
    requires var d := Joined(pub, PathologyIndex(ds)); k in d.entries && d.entries[k].parent.Some?
    ensures exists a, b :: (LastPathology(ds, a, k) && LastListing(pub, b, k) &&
      Joined(pub, PathologyIndex(ds)).entries[k] == Entry(ds[a], Some(ParentOf(pub[b]))))
  {
    PathologyIndexLast(ds, k);
    var a :| LastPathology(ds, a, k) && PathologyIndex(ds).entries[k].download == ds[a];
    if !Listed(pub, k) {
      ParentAfterUnlisted(pub, k, None);
    }
    ParentAfterListed(pub, k, None);
    var b :| LastListing(pub, b, k) && ParentAfter(pub, k, None) == Some(ParentOf(pub[b]));
    assert LastPathology(ds, a, k) && LastListing(pub, b, k);
  }

  /** The unsorted rows have distinct download ids. */
  lemma JoinedRowsDistinct(pub: seq<Collection>, ds: seq<Download>)
    ensures var u := JoinedRows(pub, ds);
      forall i, j :: 0 <= i < j < |u| ==> u[i].downloadId != u[j].downloadId
  {
    var d := Joined(pub, PathologyIndex(ds));
    assert Distinct(d.keys);
    assert forall i :: 0 <= i < |d.keys| ==> d.keys[i] in Elems(d.keys);
    RowsOfDistinct(d.keys, d.entries);
    assert JoinedRows(pub, ds) == RowsOf(d.keys, d.entries);
  }

  /** The unsorted rows hold a row for k exactly when k is claimed. */
  lemma JoinedRowsIds(pub: seq<Collection>, ds: seq<Download>, k: Key)
    ensures HasRow(JoinedRows(pub, ds), k) <==> HasPathology(ds, k) && Listed(pub, k)
  {
    var d := Joined(pub, PathologyIndex(ds));
    assert forall i :: 0 <= i < |d.keys| ==> d.keys[i] in Elems(d.keys);
    JoinedClaimed(ds, pub, k);
    RowsOfIds(d.keys, d.entries, k);
  }

  /** The table is sorted by download slug, has one row per download id, and holds a
      row for k exactly when some pathology download has id k and some public
      collection lists k. */
  lemma PathologyTableIds(cs: seq<Collection>, ds: seq<Download>, pub: seq<Collection>, rows: seq<Row>)
    requires pub == PublicCollections(cs) && rows == PathologyTable(cs, ds)
    ensures SortedBy(rows, DownloadSlug)
    ensures forall i, j :: 0 <= i < j < |rows| ==> rows[i].downloadId != rows[j].downloadId
    ensures forall k :: HasRow(rows, k) <==> HasPathology(ds, k) && Listed(pub, k)
  {
    var u := JoinedRows(pub, ds);
    SortBySortsAndPermutes(u, DownloadSlug);
    JoinedRowsDistinct(pub, ds);
    PermutationDistinctIds(u, rows);
    forall k
      ensures HasRow(rows, k) <==> HasPathology(ds, k) && Listed(pub, k)
    {
      JoinedRowsIds(pub, ds, k);
      HasRowPermuted(u, rows, k);
    }
  }

  /** A row built from the joined dict joins the last pathology download with its id
      and the last public collection listing it. */
  lemma RowFromJoined(ds: seq<Download>, pub: seq<Collection>, r: Row)
    requires var d := Joined(pub, PathologyIndex(ds)); RowFor(r, d.keys, d.entries)
    ensures JoinsLast(ds, pub, r)
  {
    JoinedEntry(ds, pub, r.downloadId);
  }

  /** Row r is built from the last pathology download with its id and the last
      collection of pub listing that id. */
  ghost predicate JoinsLast(ds: seq<Download>, pub: seq<Collection>, r: Row)
  {
    exists a, b :: (LastPathology(ds, a, r.downloadId) && LastListing(pub, b, r.downloadId) &&
      r == MakeRow(r.downloadId, ds[a], ParentOf(pub[b])))
  }

  /** Each unsorted row joins the last pathology download with its id and the last
      public collection listing it. */
  lemma JoinedRowJoinsLast(pub: seq<Collection>, ds: seq<Download>, r: Row)
    requires r in JoinedRows(pub, ds)
    ensures JoinsLast(ds, pub, r)
  {
    var d := Joined(pub, PathologyIndex(ds));
    assert forall i :: 0 <= i < |d.keys| ==> d.keys[i] in Elems(d.keys);
    assert JoinedRows(pub, ds) == RowsOf(d.keys, d.entries);
    RowsOfRows(d.keys, d.entries);
    RowFromJoined(ds, pub, r);
  }

  /** Each row joins the last pathology download with its id and the last public
      collection listing it. */
  lemma PathologyTableRows(cs: seq<Collection>, ds: seq<Download>, pub: seq<Collection>, rows: seq<Row>)
    requires pub == PublicCollections(cs) && rows == PathologyTable(cs, ds)
    ensures forall r :: r in rows ==> JoinsLast(ds, pub, r)
  {
    var u := JoinedRows(pub, ds);
    SortBySortsAndPermutes(u, DownloadSlug);
    forall r | r in rows
      ensures JoinsLast(ds, pub, r)
    {
      assert r in multiset(u);
      JoinedRowJoinsLast(pub, ds, r);
    }
  }

}
