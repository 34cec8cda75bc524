/**
 * The log service: `LogController` over an in-memory `LogEntryRepository`.
 * The repository is a MongoDB collection, kept here as a sequence in its
 * natural (insertion) order; `save` is an upsert on the document id. The
 * clock (`LocalDateTime.now()`) and the generator of fresh document ids are
 * parameters.
 */
module Logs {
  import opened Wrappers

  /** `LogEntry`; a field the client left out is `None` (Java `null`). The timestamp is an abstract instant. */
  datatype LogEntry = LogEntry(id: Option<string>, service: Option<string>, message: Option<string>, timestamp: Option<int>)

  /** Where the document with `id` sits, if it is stored; the first such position. */
  function Find(logs: seq<LogEntry>, id: string): (r: Option<nat>)
    ensures r.Some? ==> r.value < |logs| && logs[r.value].id == Some(id)
    ensures r.Some? ==> forall k :: 0 <= k < r.value ==> logs[k].id != Some(id)
    ensures r.None? ==> forall k :: 0 <= k < |logs| ==> logs[k].id != Some(id)
  {
    if logs == [] then None
    else if logs[0].id == Some(id) then Some(0)
    else match Find(logs[1..], id)
      case None => None
      case Some(k) => Some(k + 1)
  }

  /** Every stored document has an id, and no two share one. */
  predicate UniqueIds(logs: seq<LogEntry>)
  {
    && (forall k :: 0 <= k < |logs| ==> logs[k].id.Some?)
    && (forall i, j :: 0 <= i < j < |logs| ==> logs[i].id != logs[j].id)
  }

  /** `MongoRepository.save` of a document with an id: replace the stored one with that id, or insert. */
  function Upsert(logs: seq<LogEntry>, x: LogEntry): (r: seq<LogEntry>)
    requires x.id.Some?
    ensures x in r
    ensures |logs| <= |r| <= |logs| + 1
  {
    match Find(logs, x.id.value)
    case None => logs + [x]
    case Some(i) => assert logs[i := x][i] == x; logs[i := x]
  }

  /**
   * The document `addLog` saves: the request body with the timestamp set to
   * `now`, whatever the client sent, and, when the body has no id, the id
   * MongoDB assigns on insert.
   */
  function Stamped(entry: LogEntry, now: int, freshId: string): (r: LogEntry)
    ensures r.timestamp == Some(now)
    ensures r.service == entry.service && r.message == entry.message
    ensures r.id == if entry.id.Some? then entry.id else Some(freshId)
  {
    entry.(id := if entry.id.Some? then entry.id else Some(freshId), timestamp := Some(now))
  }

  /** `findByService(service)`: the stored entries whose service equals `service`, in store order. */
  function ByService(logs: seq<LogEntry>, service: string): (r: seq<LogEntry>)
    ensures |r| <= |logs|
  {
    if logs == [] then []
    else (if logs[0].service == Some(service) then [logs[0]] else []) + ByService(logs[1..], service)
  }

  /** Whether `readLogs` filters: the request parameter is present and not empty. */
  predicate Filters(service: Option<string>)
    ensures !Filters(service) <==> service.None? || service == Some("")
  {
    service.Some? && service.value != ""
  }

  // ---------------------------------------------------------------------------
  // Lemmas about the repository queries

  /** `findByService` returns exactly the entries whose service matches. */
  lemma {:induction false} ByServiceMembers(logs: seq<LogEntry>, service: string)
    ensures forall e :: e in ByService(logs, service) <==> e in logs && e.service == Some(service)
  {
    if logs != [] {
      ByServiceMembers(logs[1..], service);
      assert forall e :: e in logs <==> e == logs[0] || e in logs[1..];
    }
  }

  /** Each entry comes back from `findByService` as often as it is stored, and never more often. */
  lemma {:induction false} ByServiceSubMultiset(logs: seq<LogEntry>, service: string)
    ensures multiset(ByService(logs, service)) <= multiset(logs)
  {
    if logs != [] {
      ByServiceSubMultiset(logs[1..], service);
      assert logs == [logs[0]] + logs[1..];
      assert multiset(logs) == multiset([logs[0]]) + multiset(logs[1..]);
    }
  }

  /** Saving stores the document, and every stored document with another id stays stored. */
  lemma UpsertStores(logs: seq<LogEntry>, x: LogEntry)
    requires UniqueIds(logs) && x.id.Some?
    ensures x in Upsert(logs, x)
    ensures forall e :: e in logs && e.id != x.id ==> e in Upsert(logs, x)
    ensures forall e :: e in Upsert(logs, x) ==> e == x || (e in logs && e.id != x.id)
  {
    match Find(logs, x.id.value)
    case None =>
      assert Upsert(logs, x) == logs + [x];
    case Some(i) =>
      var r := logs[i := x];
      assert r[i] == x;
      forall e | e in logs && e.id != x.id
        ensures e in r
      {
        var k :| 0 <= k < |logs| && logs[k] == e;
        assert r[k] == e;
      }
      forall e | e in r
        ensures e == x || (e in logs && e.id != x.id)
      {
        var k :| 0 <= k < |r| && r[k] == e;
        if k != i {
          assert logs[k] == e && logs[k].id != logs[i].id;
        }
      }
  }

  /** A save inserts one document exactly when its id is new; otherwise the store keeps its size. */
  lemma UpsertSize(logs: seq<LogEntry>, x: LogEntry)
    requires x.id.Some?
    ensures |Upsert(logs, x)| == if Find(logs, x.id.value).None? then |logs| + 1 else |logs|
  {
  }

  /** Saving keeps ids unique. */
  lemma UpsertKeepsUniqueIds(logs: seq<LogEntry>, x: LogEntry)
    requires UniqueIds(logs) && x.id.Some?
    ensures UniqueIds(Upsert(logs, x))
  {
    match Find(logs, x.id.value)
    case None =>
      var r := logs + [x];
      assert forall k :: 0 <= k < |logs| ==> r[k] == logs[k];
    case Some(i) =>
      var r := logs[i := x];
      assert forall k :: 0 <= k < |logs| && k != i ==> r[k] == logs[k];
  }

  /** Saving the same stamped document twice stores it once. */
  lemma UpsertIdempotent(logs: seq<LogEntry>, x: LogEntry)
    requires UniqueIds(logs) && x.id.Some?
    ensures Upsert(Upsert(logs, x), x) == Upsert(logs, x)
  {
    var r := Upsert(logs, x);
    UpsertKeepsUniqueIds(logs, x);
    match Find(logs, x.id.value)
    case None =>
      assert r[|logs|] == x;
      var j := Find(r, x.id.value).value;
      assert j == |logs|;
      assert r[j := x] == r;
    case Some(i) =>
      assert r[i] == x;
      var j := Find(r, x.id.value).value;
      assert j == i;
      assert r[i := x] == r;
  }

  // ---------------------------------------------------------------------------

  class LogController {
    /** The `logs` collection, in natural order. */
    var logs: seq<LogEntry>

    ghost predicate Valid()
      reads this
    {
      UniqueIds(logs)
    }

    constructor ()
      ensures Valid() && logs == []
    {
      logs := [];
    }

    /**
     * `addLog`: stamps the entry with the current time and saves it. `freshId`
     * is the id MongoDB would assign, unused by any stored document; it is
     * used only when the body carries no id.
     */
    method AddLog(entry: LogEntry, now: int, freshId: string) returns (saved: LogEntry)
      requires Valid()
      requires entry.id.None? ==> forall k :: 0 <= k < |logs| ==> logs[k].id != Some(freshId)
      modifies this
      ensures Valid()
      ensures saved == Stamped(entry, now, freshId)
      ensures logs == Upsert(old(logs), saved)
    {
      saved := Stamped(entry, now, freshId);
      UpsertKeepsUniqueIds(logs, saved);
      logs := Upsert(logs, saved);
    }

    /**
     * `readLogs`: a non-empty service filters by it; a missing or empty one
     * returns everything. It only reads the store.
     */
    function ReadLogs(service: Option<string>): (r: seq<LogEntry>)
      reads this
      ensures !Filters(service) ==> r == logs
      ensures Filters(service) ==> forall e :: e in r <==> e in logs && e.service == service
      ensures multiset(r) <= multiset(logs)
    {
      if Filters(service) then
        ByServiceMembers(logs, service.value);
        ByServiceSubMultiset(logs, service.value);
        ByService(logs, service.value)
      else logs
    }
  }

  /** The filtered listing never holds more of an entry than the unfiltered one. */
  lemma FilteredWithinAll(c: LogController, service: string)
    ensures multiset(c.ReadLogs(Some(service))) <= multiset(c.ReadLogs(None))
  {
  }

  /**
   * Right after `addLog`, reading with no filter, or with the saved entry's
   * own service, returns the saved entry; entries under other ids are still
   * returned by any read that returned them before.
   */
  lemma AddThenRead(logs: seq<LogEntry>, entry: LogEntry, now: int, freshId: string, service: Option<string>)
    requires UniqueIds(logs)
    requires !Filters(service) || Stamped(entry, now, freshId).service == service
    ensures var saved := Stamped(entry, now, freshId);
      var after := Upsert(logs, saved);
      && saved in (if Filters(service) then ByService(after, service.value) else after)
      && forall e :: e in logs && e.id != saved.id ==> e in after
  {
    var saved := Stamped(entry, now, freshId);
    UpsertStores(logs, saved);
    if Filters(service) {
      ByServiceMembers(Upsert(logs, saved), service.value);
    }
  }
}
