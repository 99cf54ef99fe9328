/** Saved analysis reports and how the report store lists them: every
    backend turns its entries into records carrying their key as "id",
    sorts them newest first by "created_at" (0 when absent), and keeps the
    first `limit`. */
module Reports {

  import opened Wrappers
  import Store
  import Sorting

  /** The record `save_report` builds. `createdAt` is None for a record
      that has no "created_at" field. */
  datatype Report = Report(
    id: string,
    title: string,
    description: string,
    imagePath: Option<string>,
    query: string,
    metrics: string,
    createdAt: Option<real>)

  /** The sort key `x.get("created_at", 0)`. */
  function CreatedKey(r: Report): real {
    r.createdAt.GetOr(0.0)
  }

  /** Each entry's record with `report_data['id'] = key`, in dict order. */
  function WithIds(s: Store.Entries<Report>): (rs: seq<Report>)
    ensures |rs| == |s|
    ensures forall i :: 0 <= i < |s| ==> rs[i] == s[i].1.(id := s[i].0)
  {
    seq(|s|, i requires 0 <= i < |s| => s[i].1.(id := s[i].0))
  }

  /** `reports[:limit]` for a non-negative limit. */
  function Take<T>(s: seq<T>, n: nat): (r: seq<T>)
    ensures |r| == if n <= |s| then n else |s|
    ensures r <= s
  {
    if n <= |s| then s[..n] else s
  }

  /** `reports.sort(key=created_at, reverse=True)` then `reports[:limit]`. */
  function Listing(rs: seq<Report>, limit: nat): (r: seq<Report>)
    ensures r <= Sorting.SortDesc(rs, CreatedKey)
  {
    Take(Sorting.SortDesc(rs, CreatedKey), limit)
  }

  /** The listing has `min(limit, |rs|)` records drawn from `rs`, newest
      first, and no record left out is newer than one kept. */
  lemma ListingCorrect(rs: seq<Report>, limit: nat)
    ensures var r := Listing(rs, limit);
      && |r| == (if limit <= |rs| then limit else |rs|)
      && Sorting.SortedDesc(r, CreatedKey)
      && multiset(r) <= multiset(rs)
      && (forall x, y :: x in multiset(rs) - multiset(r) && y in r ==> CreatedKey(y) >= CreatedKey(x))
  {
    var full := Sorting.SortDesc(rs, CreatedKey);
    Sorting.SortDescCorrect(rs, CreatedKey);
    var n := if limit <= |rs| then limit else |rs|;
    Sorting.PrefixOfSorted(full, CreatedKey, n);
    assert Listing(rs, limit) == full[..n];
  }

  /** Records with the same "created_at" are listed in dict order: for
      every creation time, the listing holds a prefix of the stored records
      with that time, all of them when nothing is cut. */
  lemma ListingStable(rs: seq<Report>, limit: nat, k: real)
    ensures Sorting.WithKey(Listing(rs, limit), CreatedKey, k) <= Sorting.WithKey(rs, CreatedKey, k)
    ensures limit >= |rs| ==>
      Sorting.WithKey(Listing(rs, limit), CreatedKey, k) == Sorting.WithKey(rs, CreatedKey, k)
  {
    var full := Sorting.SortDesc(rs, CreatedKey);
    Sorting.SortDescCorrect(rs, CreatedKey);
    if limit < |rs| {
      Sorting.WithKeyPrefix(full, CreatedKey, k, limit);
      assert Listing(rs, limit) == full[..limit];
    } else {
      assert Listing(rs, limit) == full;
    }
  }

  /** A child of the remote "reports" node: a report record, or any other
      JSON value such as the "initialized" flag. */
  datatype Node = Record(report: Report) | Leaf(truthy: bool)

  const Marker: string := "initialized"

  /** The records a remote listing keeps: the "initialized" child and
      non-dict children are dropped, and each record gets its key as id. */
  function RemoteRecords(tree: Store.Entries<Node>): (rs: seq<Report>)
    ensures |rs| <= |tree|
    decreases |tree|
  {
    if |tree| == 0 then []
    else
      var rest := RemoteRecords(tree[1..]);
      if tree[0].0 != Marker && tree[0].1.Record? then [tree[0].1.report.(id := tree[0].0)] + rest
      else rest
  }

  /** A report is listed exactly when some child other than the marker
      holds it under the key it now carries as id. */
  lemma {:induction false} RemoteRecordsMembers(tree: Store.Entries<Node>, x: Report)
    ensures x in RemoteRecords(tree) <==>
      exists i :: 0 <= i < |tree| && tree[i].0 != Marker && tree[i].1.Record?
                  && x == tree[i].1.report.(id := tree[i].0)
    decreases |tree|
  {
    if |tree| > 0 {
      RemoteRecordsMembers(tree[1..], x);
      if x in RemoteRecords(tree[1..]) {
        var i :| 0 <= i < |tree[1..]| && tree[1..][i].0 != Marker && tree[1..][i].1.Record?
                 && x == tree[1..][i].1.report.(id := tree[1..][i].0);
        assert tree[i + 1] == tree[1..][i];
      }
      if exists i :: 0 <= i < |tree| && tree[i].0 != Marker && tree[i].1.Record?
                     && x == tree[i].1.report.(id := tree[i].0) {
        var i :| 0 <= i < |tree| && tree[i].0 != Marker && tree[i].1.Record?
                 && x == tree[i].1.report.(id := tree[i].0);
        if i > 0 { assert tree[1..][i - 1] == tree[i]; }
      }
    }
  }
}
