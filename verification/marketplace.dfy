/**
 The marketplace listing: the search/type filter over the fetched properties and the
 per-card figures (available area and minimum investment).
 */
module Marketplace {
  import opened Wrappers
  import opened JsValues
  import opened Schema
  import Seqs
  import PropertyDetail

  /** The type selector's value that imposes no constraint. */
  const AllTypes: string := "all"

  /** The title or the location contains the search term, ignoring case. */
  predicate MatchesSearch(p: PropertyRow, searchTerm: string) {
    Includes(ToLower(p.title), ToLower(searchTerm)) || Includes(ToLower(p.location), ToLower(searchTerm))
  }

  /** `"all"` matches every property; any other value must equal `propertyType` exactly. */
  predicate MatchesType(p: PropertyRow, propertyType: string) {
    propertyType == AllTypes || p.propertyType == propertyType
  }

  predicate Shown(p: PropertyRow, searchTerm: string, propertyType: string) {
    MatchesSearch(p, searchTerm) && MatchesType(p, propertyType)
  }

  /**
   `filteredProperties`: the fetched properties that match both the search and the type,
   in their original order; no data yet (`undefined`) gives the empty list.
   */
  function FilterProperties(data: Option<seq<PropertyRow>>, searchTerm: string, propertyType: string): (r: seq<PropertyRow>)
    ensures data.None? ==> r == []
    ensures data.Some? ==> Seqs.IsSubsequence(r, data.value)
    ensures data.Some? ==> |r| == Seqs.Count(data.value, (p: PropertyRow) => Shown(p, searchTerm, propertyType))
    ensures data.Some? ==> forall i :: 0 <= i < |r| ==> r[i] in data.value && Shown(r[i], searchTerm, propertyType)
    ensures data.Some? ==> forall i :: 0 <= i < |data.value| && Shown(data.value[i], searchTerm, propertyType) ==>
      data.value[i] in r
  {
    match data
    case None => []
    case Some(props) => Seqs.Filter(props, (p: PropertyRow) => Shown(p, searchTerm, propertyType))
  }

  /** Filtering the filtered list again changes nothing. */
  lemma FilterIdempotent(props: seq<PropertyRow>, searchTerm: string, propertyType: string)
    ensures var r := FilterProperties(Some(props), searchTerm, propertyType);
      FilterProperties(Some(r), searchTerm, propertyType) == r
  {
    Seqs.FilterIdempotent(props, (p: PropertyRow) => Shown(p, searchTerm, propertyType));
  }

  /** Every string contains the empty string. */
  lemma {:induction false} IncludesEmpty(s: string)
    ensures Includes(s, "")
  {
  }

  /** An empty search keeps every property whose type matches. */
  lemma EmptySearchKeepsType(props: seq<PropertyRow>, propertyType: string)
    ensures FilterProperties(Some(props), "", propertyType) ==
      Seqs.Filter(props, (p: PropertyRow) => MatchesType(p, propertyType))
  {
    forall p: PropertyRow
      ensures Shown(p, "", propertyType) == MatchesType(p, propertyType)
    {
      assert ToLower("") == "";
      IncludesEmpty(ToLower(p.title));
    }
    FilterSameKeep(props, (p: PropertyRow) => Shown(p, "", propertyType), (p: PropertyRow) => MatchesType(p, propertyType));
  }

  /** With `"all"` and an empty search, the whole fetched list is shown. */
  lemma EverythingShownByDefault(props: seq<PropertyRow>)
    ensures FilterProperties(Some(props), "", AllTypes) == props
  {
    EmptySearchKeepsType(props, AllTypes);
    Seqs.FilterKeepsAll(props, (p: PropertyRow) => MatchesType(p, AllTypes));
  }

  /** The search ignores the case of the term: a term and its lower-case form select the same. */
  lemma SearchIgnoresCase(props: seq<PropertyRow>, searchTerm: string, propertyType: string)
    ensures FilterProperties(Some(props), searchTerm, propertyType) ==
      FilterProperties(Some(props), ToLower(searchTerm), propertyType)
  {
    ToLowerIdempotent(searchTerm);
    FilterSameKeep(props, (p: PropertyRow) => Shown(p, searchTerm, propertyType),
                          (p: PropertyRow) => Shown(p, ToLower(searchTerm), propertyType));
  }

  /** Two predicates that agree everywhere filter alike. */
  lemma {:induction false} FilterSameKeep(props: seq<PropertyRow>, a: PropertyRow -> bool, b: PropertyRow -> bool)
    requires forall p :: a(p) == b(p)
    ensures Seqs.Filter(props, a) == Seqs.Filter(props, b)
  {
    if |props| > 0 {
      FilterSameKeep(props[1..], a, b);
    }
  }

  /** The "Available" figure of a card, the same as on the property page. */
  function CardAvailable(p: PropertyRow): (r: int)
    ensures r == PropertyDetail.AvailableShares(p)
  {
    p.totalShares - p.soldShares
  }

  /** The "Min. Investment" figure of a card: `minShareSize * parseInt(pricePerSqft)`. */
  function MinInvestment(p: PropertyRow): (r: JsNum)
    ensures r == PropertyDetail.InvestmentAmount(p, p.minShareSize)
  {
    Times(Finite(p.minShareSize), ParseInt(p.pricePerSqft))
  }
}
