/** The sitemap reader (`parse_sitemap`): each `<url>` entry of the
    sitemap, already parsed into its optional `<loc>` and `<lastmod>`
    texts, is kept when its location holds an ECLI query parameter, and
    the ECLI is recovered as the leftmost match of `id=(ECLI:[^&]+)`. */
module Sitemap {
  import opened Common
  import opened Text

  /** One `<url>` element: the texts `findtext` returns for `sm:loc` and
      `sm:lastmod` (None when the child is missing). */
  datatype UrlElement = UrlElement(loc: Option<string>, lastmod: Option<string>)

  /** One output entry: the recovered ECLI, the lastmod text as found, and
      the full location. */
  datatype SitemapEntry = SitemapEntry(ecli: string, lastmod: Option<string>, url: string)

  // ---------------------------------------------------------------- the pattern id=(ECLI:[^&]+)

  /** The pattern matches at position `q`: "id=" then "ECLI:" then at least
      one character other than '&'. The greedy `[^&]+` cannot give back
      characters, so this is the whole test for a match starting at `q`. */
  predicate MatchAt(s: string, q: int) {
    0 <= q && q + 8 < |s| && s[q..q + 3] == "id=" && s[q + 3..q + 8] == "ECLI:" && s[q + 8] != '&'
  }

  /** Where the greedy `[^&]+` starting at `q` stops: the first '&' at or
      after `q`, or the end of the string. */
  function GroupEnd(s: string, q: int): (e: int)
    requires 0 <= q <= |s|
    ensures q <= e <= |s|
    ensures forall k :: q <= k < e ==> s[k] != '&'
    ensures e == |s| || s[e] == '&'
    decreases |s| - q
  {
    if q == |s| || s[q] == '&' then q else GroupEnd(s, q + 1)
  }

  /** Where `re.search` finds the pattern when it scans from position `p`
      on: the leftmost position at or after `p` where it matches. */
  function Leftmost(s: string, p: nat): (r: Option<nat>)
    requires p <= |s|
    ensures r.None? ==> forall q :: p <= q ==> !MatchAt(s, q)
    ensures r.Some? ==> p <= r.value && MatchAt(s, r.value) && forall q :: p <= q < r.value ==> !MatchAt(s, q)
    decreases |s| - p
  {
    if p + 8 >= |s| then None
    else if MatchAt(s, p) then Some(p)
    else Leftmost(s, p + 1)
  }

  /** `re.search(r"id=(ECLI:[^&]+)", loc).group(1)`: None exactly when the
      pattern matches nowhere, otherwise the group of the leftmost match. */
  function SearchEcli(loc: string): (r: Option<string>)
    ensures r.Some? <==> exists q :: MatchAt(loc, q)
    ensures r.Some? ==> exists q :: MatchAt(loc, q) && (forall q' :: 0 <= q' < q ==> !MatchAt(loc, q'))
                          && r.value == loc[q + 3..GroupEnd(loc, q + 8)]
  {
    match Leftmost(loc, 0)
    case None => None
    case Some(q) => Some(loc[q + 3..GroupEnd(loc, q + 8)])
  }

  /** A match found in a location is the ECLI-shaped text the pattern
      describes, and it is a piece of the location. */
  lemma MatchShape(s: string, q: int)
    requires MatchAt(s, q)
    ensures var g := s[q + 3..GroupEnd(s, q + 8)];
      StartsWith(g, "ECLI:") && |g| > 5 && '&' !in g && Contains(s, g)
  {
    var e := GroupEnd(s, q + 8);
    var g := s[q + 3..e];
    assert g[..5] == s[q + 3..q + 8];
    assert forall k :: 0 <= k < |g| ==> g[k] == s[q + 3 + k];
    assert InfixAt(s, g, q + 3);
  }

  // ---------------------------------------------------------------- one url element

  /** The loop body of `parse_sitemap` for one `<url>`: no entry for a
      missing or empty location or one without a match; otherwise the
      entry with the recovered ECLI, the lastmod text and the location. */
  function EntryOf(u: UrlElement): (r: Option<SitemapEntry>)
    ensures r.Some? <==> u.loc.Some? && u.loc.value != "" && exists q :: MatchAt(u.loc.value, q)
    ensures r.Some? ==> r.value.url == u.loc.value && r.value.lastmod == u.lastmod
    ensures r.Some? ==> StartsWith(r.value.ecli, "ECLI:") && |r.value.ecli| > 5
                        && '&' !in r.value.ecli && Contains(r.value.url, r.value.ecli)
  {
    match u.loc
    case None => None
    case Some(loc) =>
      if loc == "" then None
      else
        match Leftmost(loc, 0)
        case None => None
        case Some(q) =>
          MatchShape(loc, q);
          Some(SitemapEntry(loc[q + 3..GroupEnd(loc, q + 8)], u.lastmod, loc))
  }

  /** The loop of `parse_sitemap`: one entry per url element that yields
      one, in document order. */
  method ParseSitemap(urls: seq<UrlElement>) returns (entries: seq<SitemapEntry>)
    ensures entries == Select(urls, EntryOf)
    ensures forall k :: 0 <= k < |entries| ==>
              StartsWith(entries[k].ecli, "ECLI:") && |entries[k].ecli| > 5
              && '&' !in entries[k].ecli && Contains(entries[k].url, entries[k].ecli)
  {
    entries := [];
    var i := 0;
    while i < |urls|
      invariant 0 <= i <= |urls|
      invariant entries == Select(urls[..i], EntryOf)
    {
      SelectStep(urls, EntryOf, i);
      var entry := EntryOf(urls[i]);
      if entry.Some? {
        entries := entries + [entry.value];
      }
      i := i + 1;
    }
    assert urls[..i] == urls;
    EntriesWellFormed(urls);
  }

  /** Every entry holds an ECLI-shaped text that is a piece of its url. */
  lemma EntriesWellFormed(urls: seq<UrlElement>)
    ensures var entries := Select(urls, EntryOf);
      forall k :: 0 <= k < |entries| ==>
        StartsWith(entries[k].ecli, "ECLI:") && |entries[k].ecli| > 5
        && '&' !in entries[k].ecli && Contains(entries[k].url, entries[k].ecli)
  {
    var entries := Select(urls, EntryOf);
    forall k | 0 <= k < |entries|
      ensures StartsWith(entries[k].ecli, "ECLI:") && |entries[k].ecli| > 5
              && '&' !in entries[k].ecli && Contains(entries[k].url, entries[k].ecli)
    {
      SelectMember(urls, EntryOf, k);
    }
  }

  // ---------------------------------------------------------------- properties

  /** The entries are an order-preserving subsequence of the url elements:
      entry k comes from url element KeptIndices[k], those positions
      ascend, and a url element is skipped exactly when it yields nothing. */
  lemma SitemapKeepsOrder(urls: seq<UrlElement>)
    ensures var entries, idx := Select(urls, EntryOf), KeptIndices(urls, EntryOf);
      |idx| == |entries|
      && (forall k :: 0 <= k < |idx| ==> idx[k] < |urls| && urls[idx[k]].loc == Some(entries[k].url)
                                         && urls[idx[k]].lastmod == entries[k].lastmod)
      && (forall k, l :: 0 <= k < l < |idx| ==> idx[k] < idx[l])
      && (forall i :: 0 <= i < |urls| ==> (EntryOf(urls[i]).Some? <==> i in idx))
  {
    SelectIsSubsequence(urls, EntryOf);
  }

  /** A location without a match, and a missing or empty location, yield
      no entry. */
  lemma DroppedWithoutMatch(u: UrlElement)
    requires u.loc.None? || u.loc == Some("") || SearchEcli(u.loc.value).None?
    ensures EntryOf(u).None?
  {
  }

  /** In a location "…id=ECLI:…" whose text before "id=" holds no '=',
      the ECLI runs from "ECLI:" up to the next '&' or the end. */
  lemma SearchAfterPrefix(prefix: string, ecli: string, tail: string)
    requires '=' !in prefix
    requires StartsWith(ecli, "ECLI:") && |ecli| > 5 && '&' !in ecli
    requires tail == [] || tail[0] == '&'
    ensures SearchEcli(prefix + "id=" + ecli + tail) == Some(ecli)
  {
    var s := prefix + "id=" + ecli + tail;
    var p := |prefix|;
    FirstMatchAfterPrefix(prefix, ecli, tail);
    var q := Leftmost(s, 0).value;
    assert q == p;
    GroupAfterPrefix(prefix, ecli, tail);
  }

  /** The pattern first matches right after the prefix. */
  lemma FirstMatchAfterPrefix(prefix: string, ecli: string, tail: string)
    requires '=' !in prefix
    requires StartsWith(ecli, "ECLI:") && |ecli| > 5 && ecli[5] != '&'
    ensures var s := prefix + "id=" + ecli + tail;
      MatchAt(s, |prefix|) && forall q :: 0 <= q < |prefix| ==> !MatchAt(s, q)
  {
    var s := prefix + "id=" + ecli + tail;
    var p := |prefix|;
    assert s[p..p + 3] == "id=";
    assert s[p + 3..p + 8] == ecli[..5];
    assert s[p + 8] == ecli[5];
    forall q | 0 <= q < p
      ensures !MatchAt(s, q)
    {
      if q + 2 < p {
        assert s[q + 2] == prefix[q + 2];
      } else {
        assert s[q + 2] == "id="[q + 2 - p];
      }
    }
  }

  /** The group of that match is the ECLI: it stops at the tail. */
  lemma GroupAfterPrefix(prefix: string, ecli: string, tail: string)
    requires |ecli| > 5 && '&' !in ecli
    requires tail == [] || tail[0] == '&'
    ensures var s, p := prefix + "id=" + ecli + tail, |prefix|;
      GroupEnd(s, p + 8) == p + 3 + |ecli| && s[p + 3..p + 3 + |ecli|] == ecli
  {
    var s := prefix + "id=" + ecli + tail;
    var p := |prefix|;
    assert forall k :: p + 3 <= k < p + 3 + |ecli| ==> s[k] == ecli[k - p - 3];
    assert p + 3 + |ecli| == |s| || s[p + 3 + |ecli|] == tail[0];
    assert s[p + 3..p + 3 + |ecli|] == ecli;
  }

  /** A url element whose location has a match yields the entry of the
      group `re.search` returns. */
  lemma EntryOfFound(u: UrlElement)
    requires u.loc.Some? && u.loc.value != "" && SearchEcli(u.loc.value).Some?
    ensures EntryOf(u) == Some(SitemapEntry(SearchEcli(u.loc.value).value, u.lastmod, u.loc.value))
  {
  }

  /** A location "…id=ECLI:…" with no '=' before "id=" yields the entry
      whose ECLI runs up to the next '&' or the end. */
  lemma EntryAfterPrefix(prefix: string, ecli: string, tail: string, lastmod: Option<string>)
    requires '=' !in prefix
    requires StartsWith(ecli, "ECLI:") && |ecli| > 5 && '&' !in ecli
    requires tail == [] || tail[0] == '&'
    ensures var loc := prefix + "id=" + ecli + tail;
      EntryOf(UrlElement(Some(loc), lastmod)) == Some(SitemapEntry(ecli, lastmod, loc))
  {
    var loc := prefix + "id=" + ecli + tail;
    SearchAfterPrefix(prefix, ecli, tail);
    assert |loc| > 0;
    EntryOfFound(UrlElement(Some(loc), lastmod));
  }

  /** The location from the comment in `parse_sitemap`, with a trailing
      parameter: the ECLI stops at the '&'. */
  lemma DetailsUrlExample(loc: string)
    requires loc == "https://uitspraken.rechtspraak.nl/details?id=ECLI:NL:HR:2025:1&foo=bar"
    ensures EntryOf(UrlElement(Some(loc), None)) == Some(SitemapEntry("ECLI:NL:HR:2025:1", None, loc))
  {
    var prefix := "https://uitspraken.rechtspraak.nl/details?";
    var ecli := "ECLI:NL:HR:2025:1";
    var tail := "&foo=bar";
    DetailsUrlSplits(loc, prefix, ecli, tail);
    EntryAfterPrefix(prefix, ecli, tail, None);
  }

  /** The literal facts about the example location, each in a lemma of
      its own where the solver sees nothing else. */
  lemma DetailsUrlSplits(loc: string, prefix: string, ecli: string, tail: string)
    requires loc == "https://uitspraken.rechtspraak.nl/details?id=ECLI:NL:HR:2025:1&foo=bar"
    requires prefix == "https://uitspraken.rechtspraak.nl/details?"
    requires ecli == "ECLI:NL:HR:2025:1" && tail == "&foo=bar"
    ensures loc == prefix + "id=" + ecli + tail
    ensures '=' !in prefix && StartsWith(ecli, "ECLI:") && |ecli| > 5 && '&' !in ecli
  {
    DetailsUrlConcat(loc, prefix, ecli, tail);
    DetailsPrefixPlain(prefix);
    assert ecli[..5] == "ECLI:";
  }

  lemma DetailsUrlConcat(loc: string, prefix: string, ecli: string, tail: string)
    requires loc == "https://uitspraken.rechtspraak.nl/details?id=ECLI:NL:HR:2025:1&foo=bar"
    requires prefix == "https://uitspraken.rechtspraak.nl/details?"
    requires ecli == "ECLI:NL:HR:2025:1" && tail == "&foo=bar"
    ensures loc == prefix + "id=" + ecli + tail
  {
  }

  lemma DetailsPrefixPlain(prefix: string)
    requires prefix == "https://uitspraken.rechtspraak.nl/details?"
    ensures '=' !in prefix
  {
  }
}
