/**
 * A search-result listing as the browser exposes it, and the per-listing
 * record assembler `extract_business_info` with its field extractors.
 * A lookup of the page (`find_element`, `.text`, `get_attribute`) either
 * gives a value or raises; which happens is an input of the model.
 */
module Listing {
  import opened Wrappers
  import opened Text
  import Phone
  import Reviews

  /** The outcome of reading something from the page. */
  datatype Read<T> = Ok(value: T) | Raises

  /** An element matched by `[data-tooltip*='phone']`: its `aria-label` (`None` when absent) and its text. */
  datatype PhoneElement = PhoneElement(ariaLabel: Read<Option<string>>, text: Read<string>)

  /**
   * One `div.Nv2PK` result entry:
   * - `headline`: the text of `div.fontHeadlineSmall`;
   * - `phoneElements`: the phone elements, in document order;
   * - `website`: the `href` of `a[data-tooltip='Open website']` (`None` when the anchor has none);
   * - `ratingText`: the text of `span.MW4etd`;
   * - `reviewsText`: the text of `span.UY7F9`.
   */
  datatype ListingElement = ListingElement(
    headline: Read<string>,
    phoneElements: Read<seq<PhoneElement>>,
    website: Read<Option<string>>,
    ratingText: Read<string>,
    reviewsText: Read<string>)

  /** The record `extract_business_info` builds; `city` is absent until the harvest loop sets it. */
  datatype Lead = Lead(
    businessName: string,
    phone: string,
    websiteUrl: Option<string>,
    rating: Option<real>,
    reviewCount: Option<nat>,
    googleMapsUrl: string,
    city: Option<string>)

  /** `elem.get_attribute("aria-label") or elem.text`: the label unless it is absent or empty. */
  function LabelOrText(e: PhoneElement): Read<string> {
    match e.ariaLabel
    case Raises => Raises
    case Ok(aria) => if aria.Some? && aria.value != "" then Ok(aria.value) else e.text
  }

  /** Element `k` is where the phone scan stops with a number: every earlier one reads cleanly without a match. */
  predicate PhoneHitAt(es: seq<PhoneElement>, k: nat) {
    && k < |es|
    && (forall j :: 0 <= j < k ==> LabelOrText(es[j]).Ok? && Phone.Search(LabelOrText(es[j]).value).None?)
    && LabelOrText(es[k]).Ok? && Phone.Search(LabelOrText(es[k]).value).Some?
  }

  /** The `for elem in phone_elements` scan; a read that raises ends it with `''` (the bare `except`). */
  function ScanPhones(es: seq<PhoneElement>): (r: string)
    ensures r == "" || Phone.Canonical(r)
    ensures r != "" <==> exists k: nat :: PhoneHitAt(es, k)
    ensures forall k: nat :: PhoneHitAt(es, k) ==> r == Phone.PhoneOfText(LabelOrText(es[k]).value)
  {
    if es == [] then ""
    else
      match LabelOrText(es[0])
      case Raises => ""
      case Ok(t) =>
        if Phone.Search(t).Some? then
          Phone.PhoneOfTextSpec(t);
          Phone.SearchLeftmost(t);
          assert PhoneHitAt(es, 0);
          Phone.PhoneOfText(t)
        else
          PhoneHitAtTail(es);
          ScanPhones(es[1..])
  }

  /** When the first element reads cleanly without a match, the hits of the scan are those of the rest. */
  lemma PhoneHitAtTail(es: seq<PhoneElement>)
    requires es != [] && LabelOrText(es[0]).Ok? && Phone.Search(LabelOrText(es[0]).value).None?
    ensures forall k: nat :: PhoneHitAt(es[1..], k) <==> PhoneHitAt(es, k + 1)
    ensures (exists k: nat :: PhoneHitAt(es, k)) <==> exists k: nat :: PhoneHitAt(es[1..], k)
  {
    assert forall k: nat :: PhoneHitAt(es[1..], k) <==> PhoneHitAt(es, k + 1);
    if exists k: nat :: PhoneHitAt(es, k) {
      var k: nat :| PhoneHitAt(es, k);
      assert PhoneHitAt(es[1..], k - 1);
    }
  }

  /**
   * `extract_phone`: `''` when the lookup raises or no element up to the first
   * unreadable one holds a number, otherwise a number in canonical form.
   */
  function ExtractPhone(found: Read<seq<PhoneElement>>): (r: string)
    ensures r == "" || Phone.Canonical(r)
    ensures found.Raises? ==> r == ""
    ensures found.Ok? ==> (r != "" <==> exists k: nat :: PhoneHitAt(found.value, k))
    ensures found.Ok? ==> forall k: nat :: PhoneHitAt(found.value, k) ==> r == Phone.PhoneOfText(LabelOrText(found.value[k]).value)
  {
    match found
    case Raises => ""
    case Ok(es) => ScanPhones(es)
  }

  /** `extract_website`: `''` when the anchor is missing or a lookup raises. */
  function ExtractWebsite(w: Read<Option<string>>): (r: Option<string>)
    ensures w.Raises? ==> r == Some("")
    ensures w.Ok? ==> r == w.value
  {
    match w
    case Raises => Some("")
    case Ok(href) => href
  }

  /**
   * `extract_rating`: `float(text.strip())`, `None` when the span is missing or the
   * text does not parse. `toFloat` stands for Python's `float` (`None` = it raises).
   */
  function ExtractRating(t: Read<string>, toFloat: string -> Option<real>): (r: Option<real>)
    ensures t.Raises? ==> r.None?
    ensures t.Ok? ==> r == toFloat(Strip(t.value))
  {
    match t
    case Raises => None
    case Ok(text) => toFloat(Strip(text))
  }

  /**
   * `extract_reviews`: `0` when the span is missing (the `except` branch), the
   * leftmost `(digits)` group's integer when there is one, otherwise `None`.
   */
  function ExtractReviews(t: Read<string>): (r: Option<nat>)
    ensures t.Raises? ==> r == Some(0)
    ensures t.Ok? ==> (r.None? <==> forall j: nat, k: nat :: j <= |t.value| ==> !Reviews.CountMatchesAt(t.value, j, k))
    ensures t.Ok? && r.Some? ==>
      exists j: nat, k: nat :: Reviews.CountMatchesAt(t.value, j, k)
        && (forall j': nat, k': nat :: j' < j ==> !Reviews.CountMatchesAt(t.value, j', k'))
        && r == Some(DecimalValue(t.value[j + 1..k]))
  {
    match t
    case Raises => Some(0)
    case Ok(text) =>
      Reviews.ReviewsOfTextSpec(text);
      Reviews.ReviewsOfText(text)
  }

  /**
   * `extract_business_info`. `currentUrl` is the read of `driver.current_url`,
   * which sits inside the same `try` as the name lookup.
   */
  function ExtractBusinessInfo(l: ListingElement, currentUrl: Read<string>, toFloat: string -> Option<real>)
    : (r: Option<Lead>)
    ensures r.None? <==> l.headline.Raises? || currentUrl.Raises?
    ensures r.Some? ==>
      && r.value.businessName == Strip(l.headline.value)
      && r.value.googleMapsUrl == currentUrl.value
      && r.value.city.None?
      && (r.value.phone == "" || Phone.Canonical(r.value.phone))
      && r.value.phone == ExtractPhone(l.phoneElements)
      && r.value.websiteUrl == ExtractWebsite(l.website)
      && r.value.rating == ExtractRating(l.ratingText, toFloat)
      && r.value.reviewCount == ExtractReviews(l.reviewsText)
  {
    match l.headline
    case Raises => None
    case Ok(h) =>
      match currentUrl
      case Raises => None
      case Ok(url) =>
        Some(Lead(
          Strip(h),
          ExtractPhone(l.phoneElements),
          ExtractWebsite(l.website),
          ExtractRating(l.ratingText, toFloat),
          ExtractReviews(l.reviewsText),
          url,
          None))
  }

  /**
   * A listing whose name reads but whose every other lookup raises still gives
   * a record, holding the field defaults; an empty name is accepted too.
   */
  lemma MissingFieldDefaults(name: string, url: string, toFloat: string -> Option<real>)
    ensures ExtractBusinessInfo(ListingElement(Ok(name), Raises, Raises, Raises, Raises), Ok(url), toFloat)
      == Some(Lead(Strip(name), "", Some(""), None, Some(0), url, None))
  {
  }

  /** A listing with no phone element, or whose phone elements hold no number, gets phone `''`. */
  lemma NoPhoneNumber(es: seq<PhoneElement>)
    requires forall j :: 0 <= j < |es| ==> LabelOrText(es[j]).Ok? && Phone.Search(LabelOrText(es[j]).value).None?
    ensures ExtractPhone(Ok(es)) == ""
  {
  }
}
