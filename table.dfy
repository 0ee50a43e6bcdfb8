/**
 * The `leads` table as values: its rows, the `UNIQUE(business_name, city)` key,
 * `INSERT OR REPLACE` as a function from table to table, and the rows
 * `ORDER BY timestamp DESC LIMIT ?` selects. The `timestamp` column is a
 * logical clock and `id` the `AUTOINCREMENT` counter.
 */
module Table {
  import opened Wrappers
  import opened Listing

  /** The natural key `(business_name, city)`. */
  datatype Key = Key(businessName: string, city: string)

  /**
   * The columns of a row other than `id` and `timestamp`. `hasWebsite` and
   * `businessHours` are never written, so they hold `NULL` (`None`).
   */
  datatype Columns = Columns(
    businessName: string,
    phone: string,
    hasWebsite: Option<string>,
    websiteUrl: Option<string>,
    googleMapsUrl: string,
    businessHours: Option<string>,
    rating: Option<real>,
    reviewCount: Option<nat>,
    city: string)

  datatype Row = Row(id: nat, cols: Columns, timestamp: nat)

  function KeyOf(r: Row): Key {
    Key(r.cols.businessName, r.cols.city)
  }

  /** The values `save_lead_to_db` binds, with `lead.get('city', '')` for the city. */
  function ColumnsOf(lead: Lead): (c: Columns)
    ensures c.businessName == lead.businessName && c.city == lead.city.GetOr("")
    ensures c.hasWebsite.None? && c.businessHours.None?
    ensures c.phone == lead.phone && c.websiteUrl == lead.websiteUrl && c.googleMapsUrl == lead.googleMapsUrl
    ensures c.rating == lead.rating && c.reviewCount == lead.reviewCount
  {
    Columns(lead.businessName, lead.phone, None, lead.websiteUrl, lead.googleMapsUrl, None,
            lead.rating, lead.reviewCount, lead.city.GetOr(""))
  }

  /**
   * The range of SQLite's 64-bit `INTEGER`. Python's `sqlite3` binds an `int`
   * as one, and `execute` raises `OverflowError` for an `int` outside it.
   */
  const Int64Min: int := -0x8000_0000_0000_0000
  const Int64Max: int := 0x7FFF_FFFF_FFFF_FFFF

  predicate InInt64(n: int) {
    Int64Min <= n <= Int64Max
  }

  /** The lead's values can be bound: its one integer value, the review count, fits in 64 bits. */
  predicate Bindable(lead: Lead) {
    lead.reviewCount.None? || InInt64(lead.reviewCount.value)
  }

  function LeadKey(lead: Lead): Key {
    Key(lead.businessName, lead.city.GetOr(""))
  }

  /** The table's rows in insertion order, the next timestamp and the next id. */
  datatype LeadTable = LeadTable(rows: seq<Row>, clock: nat, nextId: nat)

  const Empty: LeadTable := LeadTable([], 0, 1)

  /** A new database file holds the empty table, which satisfies the invariant. */
  lemma EmptyValid()
    ensures Valid(Empty) && Empty.rows == []
  {
  }

  predicate KeysUnique(rows: seq<Row>) {
    forall i, j :: 0 <= i < j < |rows| ==> KeyOf(rows[i]) != KeyOf(rows[j])
  }

  /** Rows are stored in order of strictly increasing timestamp and id. */
  predicate Chronological(rows: seq<Row>) {
    forall i, j :: 0 <= i < j < |rows| ==> rows[i].timestamp < rows[j].timestamp && rows[i].id < rows[j].id
  }

  /** The table invariant: the key is unique, rows are chronological, the counters are fresh. */
  predicate Valid(t: LeadTable) {
    && KeysUnique(t.rows)
    && Chronological(t.rows)
    && forall i :: 0 <= i < |t.rows| ==> t.rows[i].timestamp < t.clock && t.rows[i].id < t.nextId
  }

  predicate HasKey(rows: seq<Row>, k: Key) {
    exists x :: x in rows && KeyOf(x) == k
  }

  /** The rows whose key is not `k`, in their order: the `DELETE` half of `INSERT OR REPLACE`. */
  function WithoutKey(rows: seq<Row>, k: Key): (r: seq<Row>)
    ensures forall x :: x in r <==> x in rows && KeyOf(x) != k
  {
    if rows == [] then []
    else if KeyOf(rows[0]) == k then WithoutKey(rows[1..], k)
    else [rows[0]] + WithoutKey(rows[1..], k)
  }

  /** Deleting rows keeps the key unique. */
  lemma {:induction false} WithoutKeyUnique(rows: seq<Row>, k: Key)
    requires KeysUnique(rows)
    ensures KeysUnique(WithoutKey(rows, k))
  {
    if rows != [] {
      var tail := rows[1..];
      WithoutKeyUnique(tail, k);
      var rest := WithoutKey(tail, k);
      if KeyOf(rows[0]) != k {
        forall x | x in rest ensures KeyOf(rows[0]) != KeyOf(x) {
          var m :| 0 <= m < |tail| && tail[m] == x;
          assert rows[m + 1] == x;
        }
        var r := [rows[0]] + rest;
        forall i, j | 0 <= i < j < |r| ensures KeyOf(r[i]) != KeyOf(r[j]) {
          assert r[j] == rest[j - 1];
          if i > 0 {
            assert r[i] == rest[i - 1];
          } else {
            assert r[j] in rest;
          }
        }
      }
    }
  }

  /** Deleting rows keeps them chronological. */
  lemma {:induction false} WithoutKeyChronological(rows: seq<Row>, k: Key)
    requires Chronological(rows)
    ensures Chronological(WithoutKey(rows, k))
  {
    if rows != [] {
      var tail := rows[1..];
      WithoutKeyChronological(tail, k);
      var rest := WithoutKey(tail, k);
      if KeyOf(rows[0]) != k {
        forall x | x in rest ensures rows[0].timestamp < x.timestamp && rows[0].id < x.id {
          var m :| 0 <= m < |tail| && tail[m] == x;
          assert rows[m + 1] == x;
        }
        var r := [rows[0]] + rest;
        forall i, j | 0 <= i < j < |r| ensures r[i].timestamp < r[j].timestamp && r[i].id < r[j].id {
          assert r[j] == rest[j - 1];
          if i > 0 {
            assert r[i] == rest[i - 1];
          } else {
            assert r[j] in rest;
          }
        }
      }
    }
  }

  /** With a unique key, deleting key `k` removes one row when `k` is present and none otherwise. */
  lemma {:induction false} WithoutKeySize(rows: seq<Row>, k: Key)
    requires KeysUnique(rows)
    ensures |WithoutKey(rows, k)| == if HasKey(rows, k) then |rows| - 1 else |rows|
  {
    if rows != [] {
      var tail := rows[1..];
      WithoutKeySize(tail, k);
      if KeyOf(rows[0]) != k {
        if HasKey(rows, k) {
          var x :| x in rows && KeyOf(x) == k;
          assert x in tail;
        }
      }
    }
  }

  /** `INSERT OR REPLACE`: drop the row with the lead's key, append the new row with a fresh timestamp and id. */
  function Upsert(t: LeadTable, lead: Lead): LeadTable {
    LeadTable(WithoutKey(t.rows, LeadKey(lead)) + [Row(t.nextId, ColumnsOf(lead), t.clock)], t.clock + 1, t.nextId + 1)
  }

  /** The upsert keeps the table invariant and grows the table by at most one row. */
  lemma UpsertValid(t: LeadTable, lead: Lead)
    requires Valid(t)
    ensures Valid(Upsert(t, lead))
    ensures |Upsert(t, lead).rows| == if HasKey(t.rows, LeadKey(lead)) then |t.rows| else |t.rows| + 1
  {
    var k := LeadKey(lead);
    var kept := WithoutKey(t.rows, k);
    var rows' := Upsert(t, lead).rows;
    WithoutKeyUnique(t.rows, k);
    WithoutKeyChronological(t.rows, k);
    WithoutKeySize(t.rows, k);
    assert rows' == kept + [Row(t.nextId, ColumnsOf(lead), t.clock)];
    forall i | 0 <= i < |kept| ensures kept[i].timestamp < t.clock && kept[i].id < t.nextId && KeyOf(kept[i]) != k {
      assert kept[i] in kept;
    }
  }

  /**
   * After the upsert exactly one row has the lead's key: the new one, holding
   * the lead's values; a row with any other key is there exactly when it was before.
   */
  lemma UpsertContents(t: LeadTable, lead: Lead)
    ensures var rows' := Upsert(t, lead).rows;
      && rows'[|rows'| - 1] == Row(t.nextId, ColumnsOf(lead), t.clock)
      && (forall i :: 0 <= i < |rows'| && KeyOf(rows'[i]) == LeadKey(lead) ==> i == |rows'| - 1)
      && (forall x :: KeyOf(x) != LeadKey(lead) ==> (x in rows' <==> x in t.rows))
  {
  }

  /** What the table holds once ids and timestamps are set aside: the columns stored under each key. */
  function View(rows: seq<Row>): (m: map<Key, Columns>)
    ensures forall k :: k in m <==> HasKey(rows, k)
    ensures KeysUnique(rows) ==> forall x :: x in rows ==> KeyOf(x) in m && m[KeyOf(x)] == x.cols
  {
    if rows == [] then map[]
    else
      var rest := View(rows[1..]);
      assert forall x :: x in rows <==> x == rows[0] || x in rows[1..];
      assert KeysUnique(rows) ==> KeysUnique(rows[1..]) && !HasKey(rows[1..], KeyOf(rows[0])) by {
        if KeysUnique(rows) {
          forall x | x in rows[1..] ensures KeyOf(x) != KeyOf(rows[0]) {
            var m :| 0 <= m < |rows[1..]| && rows[1..][m] == x;
            assert rows[m + 1] == x;
          }
        }
      }
      rest[KeyOf(rows[0]) := rows[0].cols]
  }

  /** With a unique key, the table has one row per key of its view. */
  lemma {:induction false} ViewSize(rows: seq<Row>)
    requires KeysUnique(rows)
    ensures |View(rows)| == |rows|
  {
    if rows != [] {
      ViewSize(rows[1..]);
      assert KeyOf(rows[0]) !in View(rows[1..]) by {
        forall x | x in rows[1..] ensures KeyOf(x) != KeyOf(rows[0]) {
          var m :| 0 <= m < |rows[1..]| && rows[1..][m] == x;
          assert rows[m + 1] == x;
        }
      }
    }
  }

  /** The rows after an upsert: the new row, and the old rows with other keys. */
  lemma UpsertMembers(t: LeadTable, lead: Lead)
    ensures var rows' := Upsert(t, lead).rows;
      forall x :: x in rows' <==> x == Row(t.nextId, ColumnsOf(lead), t.clock) || (x in t.rows && KeyOf(x) != LeadKey(lead))
  {
  }

  lemma UpsertKeys(t: LeadTable, lead: Lead)
    ensures forall k' :: HasKey(Upsert(t, lead).rows, k') <==> k' == LeadKey(lead) || HasKey(t.rows, k')
  {
    var rows' := Upsert(t, lead).rows;
    var row := Row(t.nextId, ColumnsOf(lead), t.clock);
    UpsertMembers(t, lead);
    assert row in rows' && KeyOf(row) == LeadKey(lead);
    forall k' | HasKey(t.rows, k') && k' != LeadKey(lead) ensures HasKey(rows', k') {
      var x :| x in t.rows && KeyOf(x) == k';
      assert x in rows';
    }
  }

  lemma ViewUpsertAtKey(t: LeadTable, lead: Lead)
    requires Valid(t)
    ensures var m' := View(Upsert(t, lead).rows); LeadKey(lead) in m' && m'[LeadKey(lead)] == ColumnsOf(lead)
  {
    var rows' := Upsert(t, lead).rows;
    UpsertValid(t, lead);
    assert rows'[|rows'| - 1] in rows';
  }

  lemma ViewUpsertElsewhere(t: LeadTable, lead: Lead, k': Key)
    requires Valid(t) && k' != LeadKey(lead) && k' in View(t.rows)
    ensures var m' := View(Upsert(t, lead).rows); k' in m' && m'[k'] == View(t.rows)[k']
  {
    var rows' := Upsert(t, lead).rows;
    UpsertValid(t, lead);
    var x :| x in t.rows && KeyOf(x) == k';
    assert x in WithoutKey(t.rows, LeadKey(lead));
    assert x in rows';
  }

  lemma ViewUpsertKeys(t: LeadTable, lead: Lead)
    ensures View(Upsert(t, lead).rows).Keys == View(t.rows).Keys + {LeadKey(lead)}
  {
    UpsertKeys(t, lead);
  }

  lemma MapUpdateExtensional<K, V>(m: map<K, V>, m': map<K, V>, k: K, v: V)
    requires m'.Keys == m.Keys + {k} && k in m' && m'[k] == v
    requires forall k' :: k' in m && k' != k ==> m'[k'] == m[k']
    ensures m' == m[k := v]
  {
  }

  /** An upsert stores the lead's columns under its key and leaves every other key as it was. */
  lemma ViewUpsert(t: LeadTable, lead: Lead)
    requires Valid(t)
    ensures View(Upsert(t, lead).rows) == View(t.rows)[LeadKey(lead) := ColumnsOf(lead)]
  {
    var k := LeadKey(lead);
    var m := View(t.rows);
    var m' := View(Upsert(t, lead).rows);
    ViewUpsertKeys(t, lead);
    ViewUpsertAtKey(t, lead);
    forall k' | k' in m && k' != k ensures m'[k'] == m[k'] {
      ViewUpsertElsewhere(t, lead, k');
    }
    MapUpdateExtensional(m, m', k, ColumnsOf(lead));
  }

  /** `s` in reverse order. */
  function Reverse<T>(s: seq<T>): (r: seq<T>)
    ensures |r| == |s|
    ensures forall k :: 0 <= k < |s| ==> r[k] == s[|s| - 1 - k]
  {
    if s == [] then [] else Reverse(s[1..]) + [s[0]]
  }

  /** How many rows `LIMIT limit` lets through: a negative limit means no limit. */
  function LimitCount(limit: int, n: nat): (c: nat)
    ensures c <= n
    ensures limit >= 0 ==> c <= limit
    ensures c == n || c == limit
  {
    if limit < 0 || n <= limit then n else limit
  }

  /** `ORDER BY timestamp DESC LIMIT limit` over rows stored in chronological order. */
  function NewestFirst(rows: seq<Row>, limit: int): seq<Row> {
    Reverse(rows)[..LimitCount(limit, |rows|)]
  }

  /** `NewestFirst` gives the last `LimitCount` rows of the table, the last one first. */
  lemma NewestFirstAt(rows: seq<Row>, limit: int)
    ensures var r := NewestFirst(rows, limit);
      && |r| == LimitCount(limit, |rows|)
      && forall k :: 0 <= k < |r| ==> r[k] == rows[|rows| - 1 - k]
  {
  }

  /** On a chronological table, `NewestFirst` gives rows of the table with strictly decreasing timestamps. */
  lemma NewestFirstOrdered(rows: seq<Row>, limit: int)
    requires Chronological(rows)
    ensures var r := NewestFirst(rows, limit);
      && |r| == LimitCount(limit, |rows|)
      && (forall x :: x in r ==> x in rows)
      && (forall i, j :: 0 <= i < j < |r| ==> r[i].timestamp > r[j].timestamp)
  {
  }

  /** On a chronological table, every row `NewestFirst` leaves out is older than every row it gives. */
  lemma NewestFirstNewest(rows: seq<Row>, limit: int)
    requires Chronological(rows)
    ensures var r := NewestFirst(rows, limit);
      forall x, y :: x in rows && x !in r && y in r ==> x.timestamp < y.timestamp
  {
    var r := NewestFirst(rows, limit);
    var n := |rows|;
    NewestFirstAt(rows, limit);
    forall k | n - |r| <= k < n ensures rows[k] in r {
      assert r[n - 1 - k] == rows[k];
    }
    forall x, y | x in rows && x !in r && y in r ensures x.timestamp < y.timestamp {
      var a :| 0 <= a < n && rows[a] == x;
      var b :| 0 <= b < |r| && r[b] == y;
      assert y == rows[n - 1 - b];
    }
  }
}
