/** The search query and results-page URL that `search_business` builds. */
module SearchUrl {

  const MapsSearchPrefix: string := "https://www.google.com/maps/search/"

  /** `f"{niche} in {city}, {province}"`. */
  function SearchQuery(niche: string, city: string, province: string): (q: string)
    ensures |q| == |niche| + |city| + |province| + 6
    ensures q[..|niche|] == niche
    ensures q[|niche|..|niche| + 4] == " in "
    ensures q[|niche| + 4..|niche| + 4 + |city|] == city
    ensures q[|niche| + 4 + |city|..|niche| + 6 + |city|] == ", "
    ensures q[|niche| + 6 + |city|..] == province
  {
    niche + " in " + city + ", " + province
  }

  /** `s.replace(' ', '+')`: every space becomes `+`, every other character stays where it was. */
  function PlusForSpace(s: string): (r: string)
    ensures |r| == |s|
    ensures forall i :: 0 <= i < |s| ==> r[i] == if s[i] == ' ' then '+' else s[i]
    ensures ' ' !in r
  {
    if s == [] then [] else [if s[0] == ' ' then '+' else s[0]] + PlusForSpace(s[1..])
  }

  /** Reading `+` back as a space, as a URL's query decoder does. */
  function SpaceForPlus(s: string): (r: string)
    ensures |r| == |s|
    ensures forall i :: 0 <= i < |s| ==> r[i] == if s[i] == '+' then ' ' else s[i]
  {
    if s == [] then [] else [if s[0] == '+' then ' ' else s[0]] + SpaceForPlus(s[1..])
  }

  /** A query that holds no `+` is recovered from its URL form. */
  lemma PlusForSpaceInverse(s: string)
    requires '+' !in s
    ensures SpaceForPlus(PlusForSpace(s)) == s
  {
    var r := SpaceForPlus(PlusForSpace(s));
    forall i | 0 <= i < |s| ensures r[i] == s[i] {
      assert s[i] != '+';
    }
  }

  /** The URL the browser is sent to. */
  function SearchUrl(niche: string, city: string, province: string): (url: string)
    ensures var q := SearchQuery(niche, city, province);
      && |url| == |MapsSearchPrefix| + |q|
      && url[..|MapsSearchPrefix|] == MapsSearchPrefix
      && url[|MapsSearchPrefix|..] == PlusForSpace(q)
    ensures ' ' !in url
  {
    MapsSearchPrefix + PlusForSpace(SearchQuery(niche, city, province))
  }

  /** When the inputs hold no `+`, the query part of the URL gives the query back. */
  lemma SearchUrlRecoversQuery(niche: string, city: string, province: string)
    requires '+' !in niche && '+' !in city && '+' !in province
    ensures SpaceForPlus(SearchUrl(niche, city, province)[|MapsSearchPrefix|..]) == SearchQuery(niche, city, province)
  {
    var q := SearchQuery(niche, city, province);
    assert q == niche + " in " + city + ", " + province;
    PlusForSpaceInverse(q);
  }
}
