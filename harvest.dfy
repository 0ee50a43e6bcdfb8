/**
 * What one `search_business` run produces, as values: the elements it
 * examines (`elements[:max_leads]`), the leads it appends to `results`,
 * and the table the successive `save_lead_to_db` calls leave behind.
 */
module Harvest {
  import opened Wrappers
  import opened Listing
  import opened Table
  import Phone
  import Reviews
  import Text

  /** What loading the results page gives the loop. */
  datatype PageLoad<E> =
    | LoadFailed              // the driver could not start or load the page: `return []`
    | ResultsTimedOut         // no `div.Nv2PK` within the wait: the empty `results`
    | Listed(elements: seq<E>)

  /** What the loop body gets from one element: a record, `None`, or an exception. */
  datatype Extraction = Extracted(info: Lead) | NoInfo | Failed

  /** `extract_business_info`'s result as the loop sees it (it never raises). */
  function FromInfo(info: Option<Lead>): Extraction {
    match info
    case Some(l) => Extracted(l)
    case None => NoInfo
  }

  /** The loop body's extraction when it is `extract_business_info` on a page whose URL read is `currentUrl`. */
  function ExtractListing(currentUrl: Read<string>, toFloat: string -> Option<real>): ListingElement -> Extraction {
    e => FromInfo(ExtractBusinessInfo(e, currentUrl, toFloat))
  }

  /**
   * Python's `s[:n]`: a prefix of `s`; for `n >= 0` the first `n` elements
   * (all of them when there are fewer), for `n < 0` all but the last `-n`.
   */
  function PySliceHead<T>(s: seq<T>, n: int): (r: seq<T>)
    ensures |r| <= |s| && r == s[..|r|]
    ensures n >= 0 ==> |r| == if n <= |s| then n else |s|
    ensures n < 0 ==> |r| == if -n <= |s| then |s| + n else 0
  {
    if n >= 0 then (if n <= |s| then s[..n] else s)
    else if -n <= |s| then s[..|s| + n]
    else []
  }

  /** `info['city'] = city`: the city is set and every other field is kept. */
  function Stamp(info: Lead, city: string): (l: Lead)
    ensures l.city == Some(city)
    ensures l.(city := info.city) == info
  {
    info.(city := Some(city))
  }

  /** The leads the loop appends for the elements `es`, in order. */
  function Harvested<E>(es: seq<E>, extract: E -> Extraction, city: string): seq<Lead>
    decreases |es|
  {
    if es == [] then []
    else
      var prev := Harvested(es[..|es| - 1], extract, city);
      match extract(es[|es| - 1])
      case Extracted(info) => prev + [Stamp(info, city)]
      case _ => prev
  }

  /** The positions of the elements whose extraction gives a record, in increasing order. */
  function Sources<E>(es: seq<E>, extract: E -> Extraction): (idx: seq<nat>)
    ensures forall k :: 0 <= k < |idx| ==> idx[k] < |es| && extract(es[idx[k]]).Extracted?
    ensures forall a, b :: 0 <= a < b < |idx| ==> idx[a] < idx[b]
    ensures forall i :: 0 <= i < |es| && extract(es[i]).Extracted? ==> i in idx
    decreases |es|
  {
    if es == [] then []
    else
      var prev := Sources(es[..|es| - 1], extract);
      assert forall k :: 0 <= k < |prev| ==> es[..|es| - 1][prev[k]] == es[prev[k]];
      assert forall i :: 0 <= i < |es| - 1 ==> es[..|es| - 1][i] == es[i];
      if extract(es[|es| - 1]).Extracted? then prev + [|es| - 1] else prev
  }

  /**
   * The harvested leads are exactly the records of the elements that give one,
   * in element order, each stamped with the search city: lead `k` comes from
   * element `Sources(es)[k]`. Elements whose extraction fails are skipped and
   * do not stop the later ones.
   */
  lemma {:induction false} HarvestedFromSources<E>(es: seq<E>, extract: E -> Extraction, city: string)
    ensures var r := Harvested(es, extract, city);
      var idx := Sources(es, extract);
      && |r| == |idx|
      && forall k :: 0 <= k < |r| ==> r[k] == Stamp(extract(es[idx[k]]).info, city)
    decreases |es|
  {
    if es != [] {
      var init := es[..|es| - 1];
      HarvestedFromSources(init, extract, city);
      var idx := Sources(init, extract);
      assert forall k :: 0 <= k < |idx| ==> init[idx[k]] == es[idx[k]];
    }
  }

  /** At most one lead per element, and every lead carries the search city. */
  lemma HarvestedBound<E>(es: seq<E>, extract: E -> Extraction, city: string)
    ensures |Harvested(es, extract, city)| <= |es|
    ensures forall l :: l in Harvested(es, extract, city) ==> l.city == Some(city)
  {
  }

  /** Harvesting a concatenation harvests each part in turn. */
  lemma {:induction false} HarvestedAppend<E>(a: seq<E>, b: seq<E>, extract: E -> Extraction, city: string)
    ensures Harvested(a + b, extract, city) == Harvested(a, extract, city) + Harvested(b, extract, city)
    decreases |b|
  {
    if b == [] {
      assert a + b == a;
    } else {
      var b' := b[..|b| - 1];
      assert (a + b)[..|a + b| - 1] == a + b';
      assert (a + b)[|a + b| - 1] == b[|b| - 1];
      HarvestedAppend(a, b', extract, city);
      var hb' := Harvested(b', extract, city);
      var ha := Harvested(a, extract, city);
      match extract(b[|b| - 1]) {
        case Extracted(info) =>
          assert ha + (hb' + [Stamp(info, city)]) == (ha + hb') + [Stamp(info, city)];
        case NoInfo =>
        case Failed =>
      }
    }
  }

  /** What `search_business` returns for a page load. */
  function HarvestResult<E>(page: PageLoad<E>, maxLeads: int, extract: E -> Extraction, city: string): seq<Lead> {
    match page
    case Listed(es) => Harvested(PySliceHead(es, maxLeads), extract, city)
    case _ => []
  }

  /**
   * Only the first `max_leads` elements are examined: for `max_leads >= 0` no more than
   * `min(max_leads, len(elements))` leads come back; a negative `max_leads` drops elements from the end.
   */
  lemma HarvestResultBound<E>(page: PageLoad<E>, maxLeads: int, extract: E -> Extraction, city: string)
    ensures var r := HarvestResult(page, maxLeads, extract, city);
      && (maxLeads >= 0 ==> |r| <= maxLeads)
      && (page.Listed? ==> |r| <= |PySliceHead(page.elements, maxLeads)| <= |page.elements|)
      && (maxLeads < 0 && page.Listed? ==> |r| <= if -maxLeads <= |page.elements| then |page.elements| + maxLeads else 0)
      && (!page.Listed? ==> r == [])
      && forall l :: l in r ==> l.city == Some(city)
  {
    if page.Listed? {
      HarvestedBound(PySliceHead(page.elements, maxLeads), extract, city);
    }
  }

  /**
   * When the loop body is `extract_business_info`: no lead comes back when the URL
   * read raises; otherwise every lead carries the search city, the page's URL and
   * a phone that is `''` or canonical.
   */
  lemma HarvestedRecords(es: seq<ListingElement>, currentUrl: Read<string>, toFloat: string -> Option<real>, city: string)
    ensures var r := Harvested(es, ExtractListing(currentUrl, toFloat), city);
      && (currentUrl.Raises? ==> r == [])
      && forall l :: l in r ==>
        && l.city == Some(city)
        && currentUrl.Ok? && l.googleMapsUrl == currentUrl.value
        && (l.phone == "" || Phone.Canonical(l.phone))
  {
    var extract := ExtractListing(currentUrl, toFloat);
    var r := Harvested(es, extract, city);
    var idx := Sources(es, extract);
    HarvestedFromSources(es, extract, city);
    forall l | l in r ensures currentUrl.Ok? && l.googleMapsUrl == currentUrl.value && (l.phone == "" || Phone.Canonical(l.phone)) && l.city == Some(city) {
      var k :| 0 <= k < |r| && r[k] == l;
      var info := ExtractBusinessInfo(es[idx[k]], currentUrl, toFloat);
      assert extract(es[idx[k]]) == FromInfo(info);
    }
  }

  /**
   * The table after the saves of `leads`. The `k`-th save succeeds when the database
   * accepts it (`accepts(k)`) and the lead's values can be bound.
   */
  /** Whether the save of lead `k` succeeds. */
  predicate Saved(leads: seq<Lead>, accepts: nat -> bool, k: nat)
    requires k < |leads|
  {
    accepts(k) && Bindable(leads[k])
  }

  function SaveAll(t: LeadTable, leads: seq<Lead>, accepts: nat -> bool): LeadTable
    decreases |leads|
  {
    if leads == [] then t
    else
      var prev := SaveAll(t, leads[..|leads| - 1], accepts);
      if Saved(leads, accepts, |leads| - 1) then Upsert(prev, leads[|leads| - 1]) else prev
  }

  /**
   * A review count just past 64 bits is read from its listing, but a lead holding
   * it is never saved: the table stays as it was.
   */
  lemma CountBeyondInt64NotSaved(t: LeadTable, lead: Lead, accepts: nat -> bool)
    requires lead.reviewCount == Some(Int64Max + 1)
    ensures Reviews.ReviewsOfText("(" + Text.Numeral(Int64Max + 1) + ")") == lead.reviewCount
    ensures SaveAll(t, [lead], accepts) == t
  {
    var d := Text.Numeral(Int64Max + 1);
    Reviews.ReviewsRoundTrip("", Int64Max + 1, "");
    assert "" + "(" + d + ")" + "" == "(" + d + ")";
    assert [lead][..0] == [];
  }

  /** The saves keep the table invariant, and add at most one row per lead. */
  lemma {:induction false} SaveAllValid(t: LeadTable, leads: seq<Lead>, accepts: nat -> bool)
    requires Valid(t)
    ensures Valid(SaveAll(t, leads, accepts))
    ensures |t.rows| <= |SaveAll(t, leads, accepts).rows| <= |t.rows| + |leads|
    decreases |leads|
  {
    if leads != [] {
      var prev := SaveAll(t, leads[..|leads| - 1], accepts);
      SaveAllValid(t, leads[..|leads| - 1], accepts);
      UpsertValid(prev, leads[|leads| - 1]);
    }
  }

  /** The key-to-columns updates a sequence of leads makes, the later lead winning. */
  function Updates(leads: seq<Lead>): (m: map<Key, Columns>)
    ensures m.Keys == set l | l in leads :: LeadKey(l)
    decreases |leads|
  {
    if leads == [] then map[]
    else
      var last := leads[|leads| - 1];
      assert forall l :: l in leads <==> l == last || l in leads[..|leads| - 1];
      Updates(leads[..|leads| - 1])[LeadKey(last) := ColumnsOf(last)]
  }

  /** Lead `i` is the last of the leads with its key. */
  predicate LastOfKey(leads: seq<Lead>, i: nat) {
    i < |leads| && forall j :: i < j < |leads| ==> LeadKey(leads[j]) != LeadKey(leads[i])
  }

  /** Under the key of a lead that no later lead shares, the updates hold that lead's columns. */
  lemma {:induction false} UpdatesLastAt(leads: seq<Lead>, i: nat)
    requires LastOfKey(leads, i)
    ensures LeadKey(leads[i]) in Updates(leads) && Updates(leads)[LeadKey(leads[i])] == ColumnsOf(leads[i])
    decreases |leads|
  {
    var init := leads[..|leads| - 1];
    var last := leads[|leads| - 1];
    if i < |init| {
      assert LeadKey(leads[i]) != LeadKey(last);
      assert init[i] == leads[i];
      forall j | i < j < |init| ensures LeadKey(init[j]) != LeadKey(init[i]) {
        assert init[j] == leads[j];
      }
      UpdatesLastAt(init, i);
    }
  }

  /** Under each key the updates hold the columns of the last lead with that key. */
  lemma UpdatesLast(leads: seq<Lead>)
    ensures forall i: nat :: LastOfKey(leads, i) ==> Updates(leads)[LeadKey(leads[i])] == ColumnsOf(leads[i])
  {
    forall i: nat | LastOfKey(leads, i) ensures Updates(leads)[LeadKey(leads[i])] == ColumnsOf(leads[i]) {
      UpdatesLastAt(leads, i);
    }
  }

  /** When every save succeeds, the table ends up holding, under each lead's key, the last such lead's columns. */
  lemma {:induction false} ViewSaveAll(t: LeadTable, leads: seq<Lead>, accepts: nat -> bool)
    requires Valid(t)
    requires forall k: nat :: k < |leads| ==> Saved(leads, accepts, k)
    ensures View(SaveAll(t, leads, accepts).rows) == View(t.rows) + Updates(leads)
    decreases |leads|
  {
    if leads != [] {
      var init := leads[..|leads| - 1];
      var prev := SaveAll(t, init, accepts);
      forall k: nat | k < |init| ensures Saved(init, accepts, k) {
        assert init[k] == leads[k] && Saved(leads, accepts, k);
      }
      ViewSaveAll(t, init, accepts);
      SaveAllValid(t, init, accepts);
      var last := leads[|leads| - 1];
      ViewUpsert(prev, last);
      MapUnionUpdate(View(t.rows), Updates(init), LeadKey(last), ColumnsOf(last));
    }
  }

  lemma MapUnionUpdate<K, V>(a: map<K, V>, b: map<K, V>, k: K, v: V)
    ensures (a + b)[k := v] == a + b[k := v]
  {
  }

  lemma MapUnionAbsorb<K, V>(a: map<K, V>, b: map<K, V>)
    ensures a + b + b == a + b
  {
  }

  /**
   * Saving the same leads a second time, every save succeeding, leaves the same
   * number of rows holding the same columns under the same keys: only `id` and
   * `timestamp` move on.
   */
  lemma SaveAllIdempotent(t: LeadTable, leads: seq<Lead>, accepts: nat -> bool)
    requires Valid(t)
    requires forall k: nat :: k < |leads| ==> Saved(leads, accepts, k)
    ensures var once := SaveAll(t, leads, accepts);
      var twice := SaveAll(once, leads, accepts);
      && View(twice.rows) == View(once.rows)
      && |twice.rows| == |once.rows|
  {
    var once := SaveAll(t, leads, accepts);
    var twice := SaveAll(once, leads, accepts);
    SaveAllValid(t, leads, accepts);
    SaveAllValid(once, leads, accepts);
    ViewSaveAll(t, leads, accepts);
    ViewSaveAll(once, leads, accepts);
    MapUnionAbsorb(View(t.rows), Updates(leads));
    ViewSize(once.rows);
    ViewSize(twice.rows);
  }
}
