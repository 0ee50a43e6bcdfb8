/**
 * `BusinessLeadFinder`: the object that owns the lead table and runs the
 * harvest. The table lives in the object's fields (`rows`, the logical
 * `clock` stamping each write, and `nextId`, the AUTOINCREMENT counter),
 * and each method is proved against the value-level functions of the
 * `Table` and `Harvest` modules.
 */
module Finder {
  import opened Listing
  import opened Harvest
  import SearchUrl
  import Table

  class LeadFinder {
    var rows: seq<Table.Row>
    var clock: nat
    var nextId: nat

    /** The table as a value. */
    function State(): Table.LeadTable
      reads this
    {
      Table.LeadTable(rows, clock, nextId)
    }

    /** The table's invariant: one row per key, rows in write order, clock and counter ahead of every row. */
    predicate Valid()
      reads this
    {
      Table.Valid(State())
    }

    /**
     * `setup_database`: `CREATE TABLE IF NOT EXISTS` on the persistent database
     * file keeps the rows an earlier run left there, given as `persisted`
     * (`Table.Empty` for a new file).
     */
    constructor (persisted: Table.LeadTable)
      requires Table.Valid(persisted)
      ensures Valid()
      ensures State() == persisted
    {
      rows := persisted.rows;
      clock := persisted.clock;
      nextId := persisted.nextId;
    }

    /**
     * `INSERT OR REPLACE` of the lead's columns, keyed by `(business_name, city)`:
     * a row with the same key is deleted, then a new row with a fresh id and the
     * current time is appended. `engineOk` is whether the database accepts the
     * statement; the binding of a review count outside 64 bits fails as well.
     * On failure nothing changes and the result is `False`.
     */
    method SaveLeadToDb(lead: Lead, engineOk: bool) returns (saved: bool)
      requires Valid()
      modifies this
      ensures Valid()
      ensures saved == (engineOk && Table.Bindable(lead))
      ensures State() == if saved then Table.Upsert(old(State()), lead) else old(State())
    {
      if !engineOk || !Table.Bindable(lead) {
        return false;
      }
      ghost var before := State();
      Table.UpsertValid(before, lead);
      rows := Table.WithoutKey(rows, Table.LeadKey(lead));
      rows := rows + [Table.Row(nextId, Table.ColumnsOf(lead), clock)];
      clock := clock + 1;
      nextId := nextId + 1;
      return true;
    }

    /**
     * `SELECT * FROM leads ORDER BY timestamp DESC LIMIT limit`, fetched row by row;
     * a negative `limit` fetches every row. When the query fails (`engineOk` false,
     * or a `limit` outside 64 bits that cannot be bound) the result is empty. The rows come back newest first, and every row left out
     * is older than every row returned.
     */
    method GetLeadsFromDb(limit: int, engineOk: bool) returns (leads: seq<Table.Row>)
      requires Valid()
      ensures leads == if engineOk && Table.InInt64(limit) then Table.NewestFirst(rows, limit) else []
      ensures engineOk && Table.InInt64(limit) ==> |leads| == Table.LimitCount(limit, |rows|)
      ensures limit >= 0 ==> |leads| <= limit
      ensures forall x :: x in leads ==> x in rows
      ensures forall i, j :: 0 <= i < j < |leads| ==> leads[i].timestamp > leads[j].timestamp
      ensures engineOk && Table.InInt64(limit) ==>
        forall x, y :: x in rows && x !in leads && y in leads ==> x.timestamp < y.timestamp
    {
      leads := [];
      if !engineOk || !Table.InInt64(limit) {
        return;
      }
      var n := Table.LimitCount(limit, |rows|);
      var m := 0;
      while m < n
        invariant 0 <= m <= n
        invariant |leads| == m
        invariant forall k :: 0 <= k < m ==> leads[k] == rows[|rows| - 1 - k]
      {
        leads := leads + [rows[|rows| - 1 - m]];
        m := m + 1;
      }
      Table.NewestFirstAt(rows, limit);
      Table.NewestFirstOrdered(rows, limit);
      Table.NewestFirstNewest(rows, limit);
    }

    /**
     * One harvest: load the search page for the query, and for each of the first
     * `maxLeads` result elements (Python slice) extract a record, stamp it with the
     * city, append it to the results and save it. `load` is the browser's answer for
     * the URL, `extract` the outcome of the extraction for an element, and
     * `dbAccepts(k)` whether the database accepts the save of the `k`-th result.
     */
    method SearchBusiness<E>(niche: string, city: string, province: string, maxLeads: int,
                             load: string -> PageLoad<E>, extract: E -> Extraction,
                             dbAccepts: nat -> bool)
      returns (results: seq<Lead>)
      requires Valid()
      modifies this
      ensures Valid()
      ensures results == HarvestResult(load(SearchUrl.SearchUrl(niche, city, province)), maxLeads, extract, city)
      ensures State() == SaveAll(old(State()), results, dbAccepts)
    {
      var url := SearchUrl.SearchUrl(niche, city, province);
      results := [];
      var page := load(url);
      match page {
        case LoadFailed =>
          return [];
        case ResultsTimedOut =>
          return results;
        case Listed(elements) =>
          var todo := PySliceHead(elements, maxLeads);
          var i := 0;
          while i < |todo|
            invariant 0 <= i <= |todo|
            invariant Valid()
            invariant results == Harvested(todo[..i], extract, city)
            invariant State() == SaveAll(old(State()), results, dbAccepts)
          {
            var element := todo[i];
            assert todo[..i + 1][..i] == todo[..i];
            assert todo[..i + 1][i] == element;
            match extract(element) {
              case Extracted(info) =>
                var lead := Stamp(info, city);
                results := results + [lead];
                var _ := SaveLeadToDb(lead, dbAccepts(|results| - 1));
              case NoInfo =>
              case Failed =>
            }
            i := i + 1;
          }
          assert todo[..i] == todo;
      }
    }
  }
}
