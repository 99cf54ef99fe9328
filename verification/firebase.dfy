/** The report store of `FirebaseAPI`: a remote "reports" node reached
    through Pyrebase or the REST API, and a local JSON file used as the
    fallback. The network and the file system are parameters: each remote
    attempt's outcome, whether the file can be written, the generated id
    and the clock. */
module Firebase {

  import opened Wrappers
  import Store
  import opened Reports
  import Sorting

  type LocalReports = Store.Entries<Report>
  type Tree = Store.Entries<Node>

  /** The local JSON file: absent, not valid JSON, or parsed; a parsed file
      may lack the "reports" key. */
  datatype LocalFile = NoFile | Unparsable | Parsed(reports: Option<LocalReports>)

  /** `_load_local_data()["reports"]`: a file that cannot be read counts as
      `{"reports": {}}`; None when the key is missing (a KeyError). */
  function LoadLocal(f: LocalFile): (r: Option<LocalReports>)
    ensures !f.Parsed? ==> r == Some([])
    ensures f.Parsed? ==> r == f.reports
  {
    match f
    case Parsed(rs) => rs
    case _ => Some([])
  }

  /** A file the fallback may write: every parsed dict has distinct keys. */
  predicate ValidFile(f: LocalFile) {
    f.Parsed? && f.reports.Some? ==> Store.Keyed(f.reports.value)
  }

  /** `_get_report_local`: the stored record, or None when the id is absent
      or the file has no "reports" key. */
  function GetReportLocal(f: LocalFile, id: string): (r: Option<Report>)
    ensures r.Some? <==> LoadLocal(f).Some? && id in Store.Keys(LoadLocal(f).value)
    ensures r.Some? ==> (id, r.value) in LoadLocal(f).value
  {
    match LoadLocal(f)
    case None => None
    case Some(rs) => Store.Find(rs, id)
  }

  /** The reports a file holds, as a map (empty when none can be read). */
  function Contents(f: LocalFile): map<string, Report> {
    match LoadLocal(f)
    case None => map[]
    case Some(rs) => Store.AsMap(rs)
  }

  /** A lookup returns exactly what the file's dict maps the id to. */
  lemma GetReportLocalAgrees(f: LocalFile, id: string)
    ensures GetReportLocal(f, id) == if id in Contents(f) then Some(Contents(f)[id]) else None
  {
    if LoadLocal(f).Some? {
      Store.FindAgrees(LoadLocal(f).value, id);
    }
  }

  /** `_get_all_reports_local`: every stored record with its key as id,
      newest first, at most `limit` of them; `[]` without a "reports" key. */
  function GetAllReportsLocal(f: LocalFile, limit: nat): (r: seq<Report>)
    ensures LoadLocal(f).None? ==> r == []
    ensures LoadLocal(f).Some? ==> r == Listing(WithIds(LoadLocal(f).value), limit)
  {
    match LoadLocal(f)
    case None => []
    case Some(rs) => Listing(WithIds(rs), limit)
  }

  /** `_delete_report_local`: False, and no write, when the id is absent;
      otherwise the entry is deleted and True returned, even when writing
      the file back fails (that error is only logged). */
  function DeleteReportLocal(f: LocalFile, id: string, writable: bool): (r: (bool, LocalFile))
    ensures r.0 <==> GetReportLocal(f, id).Some?
    ensures !r.0 || !writable ==> r.1 == f
    ensures r.0 && writable ==> r.1 == Parsed(Some(Store.Remove(LoadLocal(f).value, id)))
  {
    match LoadLocal(f)
    case None => (false, f)
    case Some(rs) =>
      if id !in Store.Keys(rs) then (false, f)
      else (true, if writable then Parsed(Some(Store.Remove(rs, id))) else f)
  }

  /** After a delete that reports success and is written back, the id is
      gone and every other report is still there. */
  lemma DeleteThenGet(f: LocalFile, id: string, other: string)
    requires ValidFile(f)
    requires other != id
    ensures var (ok, g) := DeleteReportLocal(f, id, true);
      && ValidFile(g)
      && GetReportLocal(g, id) == None
      && GetReportLocal(g, other) == GetReportLocal(f, other)
      && (ok ==> Contents(g) == Contents(f) - {id})
  {
    var (ok, g) := DeleteReportLocal(f, id, true);
    if ok {
      var rs := LoadLocal(f).value;
      Store.RemoveAsMap(rs, id);
      GetReportLocalAgrees(f, other);
      GetReportLocalAgrees(g, other);
    }
  }

  /** The local part of the `save_report` fallback: the record is stored
      under `docId` in the file's "reports" dict (created when missing; an
      unreadable file starts from `{"reports": {}}`, a missing one is
      created first) and `docId` is returned; None when the file cannot be
      written. */
  function SaveLocal(f: LocalFile, docId: string, rec: Report, writable: bool): (r: (Option<string>, LocalFile))
    ensures r.0.Some? <==> writable
    ensures r.0.Some? ==> r.0.value == docId
    ensures !writable ==> r.1 == f
  {
    if !writable then (None, f)
    else
      var rs := LoadLocal(f).GetOr([]);
      (Some(docId), Parsed(Some(Store.Put(rs, docId, rec))))
  }

  /** A saved report is found again under its id; every other id finds
      what it found before, except when the file had no "reports" key. */
  lemma SaveThenGet(f: LocalFile, docId: string, rec: Report, other: string)
    requires ValidFile(f)
    requires other != docId
    ensures var g := SaveLocal(f, docId, rec, true).1;
      && ValidFile(g)
      && GetReportLocal(g, docId) == Some(rec)
      && (LoadLocal(f).Some? ==> GetReportLocal(g, other) == GetReportLocal(f, other))
      && (LoadLocal(f).Some? ==> Contents(g) == Contents(f)[docId := rec])
  {
    var rs := LoadLocal(f).GetOr([]);
    var g := SaveLocal(f, docId, rec, true).1;
    Store.PutAsMap(rs, docId, rec);
    GetReportLocalAgrees(g, docId);
    GetReportLocalAgrees(g, other);
    GetReportLocalAgrees(f, other);
  }

  /** How far one remote write got: the "initialized" marker write, the
      record write, and the read-back that confirms it. */
  datatype Attempt = Attempt(marker: bool, record: bool, confirmed: bool)

  /** The Pyrebase write: the marker, then the record, then a read-back; an
      exception at any step ends the attempt. True when confirmed. */
  function PyrebaseWrite(t: Tree, docId: string, rec: Report, a: Attempt): (bool, Tree) {
    if !a.marker then (false, t)
    else
      var t1 := Store.Put(t, Marker, Leaf(true));
      if !a.record then (false, t1)
      else (a.confirmed, Store.Put(t1, docId, Record(rec)))
  }

  /** The REST write: the marker's status is ignored; the record must be
      accepted and then read back. True when confirmed. */
  function RestWrite(t: Tree, docId: string, rec: Report, a: Attempt): (bool, Tree) {
    var t1 := if a.marker then Store.Put(t, Marker, Leaf(true)) else t;
    if !a.record then (false, t1)
    else (a.confirmed, Store.Put(t1, docId, Record(rec)))
  }

  /** The store's state: the flags `__init__` leaves, the remote node's
      children and the local file. `dbReady` says whether a database handle
      exists or can be re-created. */
  datatype Api = Api(connected: bool, usingLocal: bool, dbReady: bool, remote: Tree, local: LocalFile)

  /** The fields the caller passes to `save_report`. */
  datatype Draft = Draft(title: string, description: string, imagePath: Option<string>, query: string, metrics: string)

  /** The record saved for a draft under `docId` at time `now`. */
  function NewRecord(d: Draft, docId: string, now: real): (r: Report)
    ensures r.id == docId && r.createdAt == Some(now)
  {
    Report(docId, d.title, d.description, d.imagePath, d.query, d.metrics, Some(now))
  }

  /** The remote and local effect of one save. */
  datatype Saved = Saved(id: Option<string>, api: Api)

  /** The Pyrebase, then REST, then local chain, all under one `docId`. */
  function SaveChain(api: Api, rec: Report, docId: string, py: Attempt, rest: Attempt, writable: bool): Saved {
    var (ok1, t1) := PyrebaseWrite(api.remote, docId, rec, py);
    if ok1 then Saved(Some(docId), api.(remote := t1))
    else
      var (ok2, t2) := RestWrite(t1, docId, rec, rest);
      if ok2 then Saved(Some(docId), api.(remote := t2))
      else
        var (id, f) := SaveLocal(api.local, docId, rec, writable);
        Saved(id, api.(remote := t2, local := f))
  }

  /** `save_report` as written. Without a database handle the exception is
      raised before `doc_id` is assigned, so the local fallback fails on
      the unbound name and returns None; before failing it has created a
      missing file. */
  function SaveReport(api: Api, d: Draft, docId: string, now: real, py: Attempt, rest: Attempt, writable: bool): (s: Saved)
    ensures s.id.Some? ==> s.id.value == docId
    ensures !api.dbReady ==> s.id.None? && s.api.remote == api.remote
  {
    if !api.dbReady then
      Saved(None, api.(local := if api.local.NoFile? && writable then Parsed(Some([])) else api.local))
    else SaveChain(api, NewRecord(d, docId, now), docId, py, rest, writable)
  }

  /** `save_report` with `doc_id` assigned before the first attempt, as the
      local fallback expects: without a handle it goes straight to the
      local file. */
  function SaveReportFixed(api: Api, d: Draft, docId: string, now: real, py: Attempt, rest: Attempt, writable: bool): (s: Saved)
    ensures s.id.Some? ==> s.id.value == docId
  {
    var rec := NewRecord(d, docId, now);
    if !api.dbReady then
      var (id, f) := SaveLocal(api.local, docId, rec, writable);
      Saved(id, api.(local := f))
    else SaveChain(api, rec, docId, py, rest, writable)
  }

  /** Writing `v` under `k` changes no other key's lookup. */
  lemma PutFindOther<V>(s: Store.Entries<V>, k: string, v: V, x: string)
    requires Store.Keyed(s)
    requires x != k
    ensures Store.Keyed(Store.Put(s, k, v))
    ensures Store.Find(Store.Put(s, k, v), x) == Store.Find(s, x)
  {
    Store.PutAsMap(s, k, v);
    Store.FindAgrees(s, x);
    Store.FindAgrees(Store.Put(s, k, v), x);
  }

  /** Writing `v` under `k` makes `k` find `v`. */
  lemma PutFindSame<V>(s: Store.Entries<V>, k: string, v: V)
    requires Store.Keyed(s)
    ensures Store.Find(Store.Put(s, k, v), k) == Some(v)
  {
    Store.PutAsMap(s, k, v);
    Store.FindAgrees(Store.Put(s, k, v), k);
  }

  /** `t2` differs from `t1` at most in the marker and in `docId`, which
      can only come to hold the record `rec`. */
  ghost predicate OnlyWrites(t1: Tree, t2: Tree, docId: string, rec: Report) {
    && Store.Keyed(t2)
    && (forall x :: x != Marker && x != docId ==> Store.Find(t2, x) == Store.Find(t1, x))
    && (Store.Find(t2, docId) == Store.Find(t1, docId) || Store.Find(t2, docId) == Some(Reports.Record(rec)))
  }

  lemma PutMarker(t: Tree, docId: string, rec: Report)
    requires Store.Keyed(t)
    requires docId != Marker
    ensures OnlyWrites(t, Store.Put(t, Marker, Leaf(true)), docId, rec)
  {
    Store.PutKeyed(t, Marker, Leaf(true));
    forall x | x != Marker
      ensures Store.Find(Store.Put(t, Marker, Leaf(true)), x) == Store.Find(t, x)
    {
      PutFindOther(t, Marker, Leaf(true), x);
    }
  }

  lemma PutRecord(t: Tree, docId: string, rec: Report)
    requires Store.Keyed(t)
    ensures OnlyWrites(t, Store.Put(t, docId, Reports.Record(rec)), docId, rec)
  {
    var t2 := Store.Put(t, docId, Reports.Record(rec));
    Store.PutKeyed(t, docId, Reports.Record(rec));
    forall x | x != docId
      ensures Store.Find(t2, x) == Store.Find(t, x)
    {
      PutFindOther(t, docId, Reports.Record(rec), x);
    }
    PutFindSame(t, docId, Reports.Record(rec));
  }

  lemma OnlyWritesTrans(t1: Tree, t2: Tree, t3: Tree, docId: string, rec: Report)
    requires OnlyWrites(t1, t2, docId, rec) && OnlyWrites(t2, t3, docId, rec)
    ensures OnlyWrites(t1, t3, docId, rec)
  {
  }

  lemma PyrebaseWriteOnlyWrites(t: Tree, docId: string, rec: Report, a: Attempt)
    requires Store.Keyed(t)
    requires docId != Marker
    ensures OnlyWrites(t, PyrebaseWrite(t, docId, rec, a).1, docId, rec)
  {
    var tm := Store.Put(t, Marker, Leaf(true));
    PutMarker(t, docId, rec);
    PutRecord(tm, docId, rec);
    OnlyWritesTrans(t, tm, Store.Put(tm, docId, Reports.Record(rec)), docId, rec);
  }

  lemma RestWriteOnlyWrites(t: Tree, docId: string, rec: Report, a: Attempt)
    requires Store.Keyed(t)
    requires docId != Marker
    ensures OnlyWrites(t, RestWrite(t, docId, rec, a).1, docId, rec)
  {
    var t1 := if a.marker then Store.Put(t, Marker, Leaf(true)) else t;
    PutMarker(t, docId, rec);
    PutRecord(t1, docId, rec);
    OnlyWritesTrans(t, t1, Store.Put(t1, docId, Reports.Record(rec)), docId, rec);
  }

  /** One id for every backend: the remote writes of a save touch only the
      marker and `docId`, `docId` can only come to hold the record (whose
      id is `docId`), and the local file changes only at `docId`. */
  lemma SaveReportOneId(api: Api, d: Draft, docId: string, now: real, py: Attempt, rest: Attempt, writable: bool)
    requires Store.Keyed(api.remote) && ValidFile(api.local)
    requires docId != Marker
    ensures var s := SaveReport(api, d, docId, now, py, rest, writable);
      && OnlyWrites(api.remote, s.api.remote, docId, NewRecord(d, docId, now))
      && ValidFile(s.api.local)
      && (forall x :: x != docId && LoadLocal(api.local).Some? ==>
            GetReportLocal(s.api.local, x) == GetReportLocal(api.local, x))
      && (GetReportLocal(s.api.local, docId) == GetReportLocal(api.local, docId)
          || GetReportLocal(s.api.local, docId) == Some(NewRecord(d, docId, now)))
  {
    var rec := NewRecord(d, docId, now);
    if api.dbReady {
      var (ok1, t1) := PyrebaseWrite(api.remote, docId, rec, py);
      PyrebaseWriteOnlyWrites(api.remote, docId, rec, py);
      RestWriteOnlyWrites(t1, docId, rec, rest);
      OnlyWritesTrans(api.remote, t1, RestWrite(t1, docId, rec, rest).1, docId, rec);
      forall x | x != docId && LoadLocal(api.local).Some?
        ensures GetReportLocal(SaveLocal(api.local, docId, rec, writable).1, x) == GetReportLocal(api.local, x)
      {
        if writable { SaveThenGet(api.local, docId, rec, x); }
      }
      if writable {
        SaveThenGet(api.local, docId, rec, docId + "x");
      }
    }
  }

  /** Some remote attempt wrote the record and read it back. */
  predicate RemoteConfirmed(py: Attempt, rest: Attempt) {
    (py.marker && py.record && py.confirmed) || (rest.record && rest.confirmed)
  }

  /** As written: with no database handle the save returns None even though
      the local file could take the report, and nothing is stored under
      the id. */
  lemma SaveReportLosesLocalFallback(api: Api, d: Draft, docId: string, now: real, py: Attempt, rest: Attempt)
    requires !api.dbReady
    requires ValidFile(api.local)
    ensures SaveReport(api, d, docId, now, py, rest, true).id == None
    ensures GetReportLocal(SaveReport(api, d, docId, now, py, rest, true).api.local, docId) == GetReportLocal(api.local, docId)
    ensures SaveReportFixed(api, d, docId, now, py, rest, true).id == Some(docId)
  {
  }

  /** Corrected: the save succeeds exactly when a remote attempt confirmed
      the write or the local file is writable, and the report can then be
      read back under the returned id from the backend that took it. */
  lemma SaveReportFixedStores(api: Api, d: Draft, docId: string, now: real, py: Attempt, rest: Attempt, writable: bool)
    requires Store.Keyed(api.remote) && ValidFile(api.local)
    ensures var s := SaveReportFixed(api, d, docId, now, py, rest, writable);
      && (s.id.Some? <==> writable || (api.dbReady && RemoteConfirmed(py, rest)))
      && (s.id.Some? ==>
            Store.Find(s.api.remote, docId) == Some(Reports.Record(NewRecord(d, docId, now)))
            || GetReportLocal(s.api.local, docId) == Some(NewRecord(d, docId, now)))
  {
    var rec := NewRecord(d, docId, now);
    var s := SaveReportFixed(api, d, docId, now, py, rest, writable);
    if s.id.Some? {
      if api.dbReady {
        var (ok1, t1) := PyrebaseWrite(api.remote, docId, rec, py);
        var tm := Store.Put(api.remote, Marker, Leaf(true));
        Store.PutKeyed(api.remote, Marker, Leaf(true));
        if ok1 {
          PutFindSame(tm, docId, Reports.Record(rec));
        } else {
          Store.PutKeyed(tm, docId, Reports.Record(rec));
          assert Store.Keyed(t1);
          var t1m := if rest.marker then Store.Put(t1, Marker, Leaf(true)) else t1;
          Store.PutKeyed(t1, Marker, Leaf(true));
          if RestWrite(t1, docId, rec, rest).0 {
            PutFindSame(t1m, docId, Reports.Record(rec));
          } else {
            SaveThenGet(api.local, docId, rec, docId + "x");
          }
        }
      } else {
        SaveThenGet(api.local, docId, rec, docId + "x");
      }
    }
  }

  /** With a database handle the corrected save is the save as written. */
  lemma SaveReportFixedAgrees(api: Api, d: Draft, docId: string, now: real, py: Attempt, rest: Attempt, writable: bool)
    requires api.dbReady
    ensures SaveReportFixed(api, d, docId, now, py, rest, writable) == SaveReport(api, d, docId, now, py, rest, writable)
  {
  }

  /** The outcome of one REST request: an exception, or an HTTP status. */
  datatype Fetch = Raised | Status(code: int)

  /** Python truthiness of what a remote read returns. */
  predicate Truthy(n: Option<Node>) {
    match n
    case None => false
    case Some(Record(_)) => true
    case Some(Leaf(b)) => b
  }

  /** `get_report`: local mode reads the file; otherwise Pyrebase (when it
      is up and finds a truthy value), then REST (status 200 answers,
      possibly None), then the file. `pyUp` says whether the Pyrebase call
      returns. */
  function GetReport(api: Api, id: string, pyUp: bool, rest: Fetch): (r: Option<Node>)
    ensures !api.connected ==> r.None?
    ensures r.Some? ==> Truthy(r)
    ensures r.Some? ==> r == Store.Find(api.remote, id)
                        || (GetReportLocal(api.local, id).Some? && r == Some(Reports.Record(GetReportLocal(api.local, id).value)))
  {
    var local := match GetReportLocal(api.local, id)
                 case Some(rep) => Some(Reports.Record(rep))
                 case None => None;
    var found := Store.Find(api.remote, id);
    if !api.connected then None
    else if api.usingLocal then local
    else if pyUp && Truthy(found) then found
    else if rest == Status(200) then (if Truthy(found) then found else None)
    else local
  }

  /** `get_all_reports`: local mode lists the file; otherwise Pyrebase
      (when it is up and the node has children), then REST (status 200
      lists the node, `[]` when it is empty), then the file. Remote
      listings drop the marker and non-record children. */
  function GetAllReports(api: Api, limit: nat, pyUp: bool, rest: Fetch): (r: seq<Report>)
    ensures !api.connected ==> r == []
  {
    if !api.connected then []
    else if api.usingLocal then GetAllReportsLocal(api.local, limit)
    else if pyUp && |api.remote| > 0 then Listing(RemoteRecords(api.remote), limit)
    else if rest == Status(200) then (if |api.remote| > 0 then Listing(RemoteRecords(api.remote), limit) else [])
    else GetAllReportsLocal(api.local, limit)
  }

  /** `delete_report`: local mode deletes from the file; otherwise a
      Pyrebase remove that returns, or a REST delete answered 200, removes
      the child and reports True (whether or not it existed); failing both,
      the file. */
  function DeleteReport(api: Api, id: string, pyUp: bool, rest: Fetch, writable: bool): (r: (bool, Api))
    ensures !api.connected ==> r == (false, api)
  {
    if !api.connected then (false, api)
    else if api.usingLocal || (!pyUp && rest != Status(200)) then
      var (ok, f) := DeleteReportLocal(api.local, id, writable);
      (ok, api.(local := f))
    else (true, api.(remote := Store.Remove(api.remote, id)))
  }

  /** In local-storage mode get, list and delete use only the file,
      whatever the remote would have done. */
  lemma LocalModeUsesFile(api: Api, id: string, limit: nat, pyUp: bool, rest: Fetch, writable: bool)
    requires api.connected && api.usingLocal
    ensures GetReport(api, id, pyUp, rest).Some? <==> GetReportLocal(api.local, id).Some?
    ensures GetReport(api, id, pyUp, rest).Some? ==>
              GetReport(api, id, pyUp, rest) == Some(Reports.Record(GetReportLocal(api.local, id).value))
    ensures GetAllReports(api, limit, pyUp, rest) == GetAllReportsLocal(api.local, limit)
    ensures DeleteReport(api, id, pyUp, rest, writable).0 == DeleteReportLocal(api.local, id, writable).0
    ensures DeleteReport(api, id, pyUp, rest, writable).1 == api.(local := DeleteReportLocal(api.local, id, writable).1)
  {
  }

  /** A listing answered by Pyrebase (node not empty) or by REST is the
      node's records, each carrying its key as id, the marker and non-dict
      children dropped, newest first and cut at the limit: it holds
      `min(limit, n)` of the `n` records and none left out is newer than
      one kept. */
  lemma RemoteListing(api: Api, limit: nat, pyUp: bool, rest: Fetch)
    requires api.connected && !api.usingLocal
    requires (pyUp && |api.remote| > 0) || rest == Status(200)
    ensures var r := GetAllReports(api, limit, pyUp, rest);
      var all := RemoteRecords(api.remote);
      && r == (if |api.remote| > 0 then Listing(all, limit) else [])
      && |r| == (if limit <= |all| then limit else |all|)
      && multiset(r) <= multiset(all)
      && (forall x, y :: x in multiset(all) - multiset(r) && y in r ==> CreatedKey(y) >= CreatedKey(x))
      && Sorting.SortedDesc(r, CreatedKey)
      && |r| <= limit
      && forall x :: x in r ==>
           x.id != Marker
           && exists i :: 0 <= i < |api.remote| && api.remote[i].0 == x.id && api.remote[i].1.Record?
                          && x == api.remote[i].1.report.(id := x.id)
  {
    var rs := RemoteRecords(api.remote);
    var r := GetAllReports(api, limit, pyUp, rest);
    ListingCorrect(rs, limit);
    assert r == if |api.remote| > 0 then Listing(rs, limit) else [];
    forall x | x in r
      ensures x.id != Marker
      ensures exists i :: 0 <= i < |api.remote| && api.remote[i].0 == x.id && api.remote[i].1.Record?
                          && x == api.remote[i].1.report.(id := x.id)
    {
      assert r == Listing(rs, limit);
      assert x in multiset(Listing(rs, limit));
      assert x in rs;
      RemoteRecordsMembers(api.remote, x);
    }
  }

  /** Remote reads: a truthy child that Pyrebase returns is the answer,
      and a REST answer with status 200 is final, the child or None,
      without consulting the file. */
  lemma RemoteGet(api: Api, id: string, pyUp: bool, rest: Fetch)
    requires api.connected && !api.usingLocal
    ensures pyUp && Truthy(Store.Find(api.remote, id)) ==>
      GetReport(api, id, pyUp, rest) == Store.Find(api.remote, id)
    ensures rest == Status(200) ==>
      GetReport(api, id, pyUp, rest) == (if Truthy(Store.Find(api.remote, id)) then Store.Find(api.remote, id) else None)
  {
  }

  /** A get that Pyrebase did not answer with a truthy child, and whose
      REST request did not come back with status 200, gives the file's
      answer. */
  lemma RemoteGetFallsBack(api: Api, id: string, pyUp: bool, rest: Fetch)
    requires api.connected && !api.usingLocal && rest != Status(200)
    requires !(pyUp && Truthy(Store.Find(api.remote, id)))
    ensures GetReport(api, id, pyUp, rest).Some? <==> GetReportLocal(api.local, id).Some?
    ensures GetReport(api, id, pyUp, rest).Some? ==>
      GetReport(api, id, pyUp, rest) == Some(Reports.Record(GetReportLocal(api.local, id).value))
  {
  }

  /** A listing that Pyrebase did not answer with a non-empty node, and
      whose REST request did not come back with status 200, is the file's
      listing. */
  lemma RemoteListingFallsBack(api: Api, limit: nat, pyUp: bool, rest: Fetch)
    requires api.connected && !api.usingLocal && rest != Status(200)
    requires !(pyUp && |api.remote| > 0)
    ensures GetAllReports(api, limit, pyUp, rest) == GetAllReportsLocal(api.local, limit)
  {
  }

  /** A delete that Pyrebase did not carry out, and whose REST request did
      not come back with status 200, is the file's delete. */
  lemma RemoteDeleteFallsBack(api: Api, id: string, pyUp: bool, rest: Fetch, writable: bool)
    requires api.connected && !api.usingLocal && rest != Status(200) && !pyUp
    ensures DeleteReport(api, id, pyUp, rest, writable)
      == (DeleteReportLocal(api.local, id, writable).0, api.(local := DeleteReportLocal(api.local, id, writable).1))
  {
  }

  /** A remote delete that goes through removes exactly the id, and reports
      True even when the id was not there. */
  lemma RemoteDelete(api: Api, id: string, pyUp: bool, rest: Fetch, writable: bool)
    requires api.connected && !api.usingLocal && Store.Keyed(api.remote)
    requires pyUp || rest == Status(200)
    ensures var (ok, after) := DeleteReport(api, id, pyUp, rest, writable);
      && ok
      && Store.Find(after.remote, id) == None
      && Store.AsMap(after.remote) == Store.AsMap(api.remote) - {id}
      && after.local == api.local
  {
    Store.RemoveAsMap(api.remote, id);
  }
}
