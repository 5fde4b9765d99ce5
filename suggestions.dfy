/**
 * The suggestion sources behind the search boxes: `_suggestNominatim` of
 * `app.ts`, which answers from the campus catalog with the fuzzy filter, and
 * the catalog branch of `suggestNominatim` in `testWebsite/ai-app.ts`, which
 * looks for the whole query as a substring and otherwise asks Nominatim.
 */
module Suggest {
  import opened Text
  import opened Sequences
  import opened InputValidation

  /** A query for which `!q || q.trim().length === 0` holds. */
  predicate Blank(q: string) {
    Trim(q) == []
  }

  /** A blank query has no words. */
  lemma BlankNoWords(q: string)
    requires Blank(q)
    ensures ValidateInput(q) == []
  {
  }

  /**
   * `_suggestNominatim(q, limit)`: the first `limit` fuzzy matches of the
   * words of q in the catalog.  The early returns for a blank query and an
   * empty catalog give what the general case would give.
   */
  method SuggestNominatim(q: string, catalog: seq<Place>, limit: int) returns (r: seq<Place>)
    ensures r == Slice(Suggestions(ValidateInput(q), catalog), limit)
    ensures 0 <= limit ==> |r| <= limit
    ensures forall p :: p in r ==> p in catalog && Suggested(ValidateInput(q), p)
  {
    SuggestionsMembers(ValidateInput(q), catalog);
    if Blank(q) {
      BlankNoWords(q);
      SuggestionsNoInput(catalog);
      return [];
    }
    if |catalog| == 0 {
      return [];
    }
    var words := ValidateInput(q);
    var matches := SuggestBuildingsFromInput(words, catalog);
    r := Slice(matches, limit);
  }

  /** Called with the default limit, at most five suggestions, in catalog order. */
  lemma DefaultLimit(q: string, catalog: seq<Place>)
    ensures |Slice(Suggestions(ValidateInput(q), catalog), 5)| <= 5
    ensures Subsequence(Slice(Suggestions(ValidateInput(q), catalog), 5), catalog)
  {
    var s := Suggestions(ValidateInput(q), catalog);
    SuggestionsMembers(ValidateInput(q), catalog);
    PrefixSubsequence(s, SliceEnd(|s|, 5));
    SubsequenceTrans(Slice(s, 5), s, catalog);
  }

  /* ---------- the catalog branch of ai-app.ts ---------- */

  /** What the catalog branch decides: answer now, or fall through to the Nominatim request. */
  datatype LocalLookup = Answer(places: seq<Place>) | FetchNominatim

  /** `s.display_name.toLowerCase().includes(qlc)`. */
  ghost predicate Mentions(p: Place, qlc: string) {
    Contains(Lower(p.displayName), qlc)
  }

  /** The lower-cased trimmed query, `qlc`. */
  function QueryKey(q: string): string {
    Lower(Trim(q))
  }

  /** `includes` is `indexOf(qlc) !== -1` on the lower-cased name. */
  lemma IncludesIsMentions(qlc: string)
    ensures forall p: Place :: IndexOf(Lower(p.displayName), qlc, 0) != -1 <==> Mentions(p, qlc)
  {
    forall p: Place
      ensures IndexOf(Lower(p.displayName), qlc, 0) != -1 <==> Mentions(p, qlc)
    {
      IndexOfFound(Lower(p.displayName), qlc);
    }
  }

  /** `campusSuggestions.filter(s => s.display_name.toLowerCase().includes(qlc))`. */
  function LocalMatches(catalog: seq<Place>, qlc: string): (r: seq<Place>)
    ensures forall p :: p in r <==> p in catalog && Mentions(p, qlc)
    ensures Subsequence(r, catalog)
  {
    var f := (p: Place) => IndexOf(Lower(p.displayName), qlc, 0) != -1;
    FilterMembers(catalog, f);
    FilterSubsequence(catalog, f);
    IncludesIsMentions(qlc);
    Filter(catalog, f)
  }

  /** The first `limit` of the local matches keep what every match has. */
  lemma FirstMatches(catalog: seq<Place>, qlc: string, limit: int)
    ensures Subsequence(Slice(LocalMatches(catalog, qlc), limit), catalog)
    ensures forall p :: p in Slice(LocalMatches(catalog, qlc), limit) ==> Mentions(p, qlc)
  {
    var m := LocalMatches(catalog, qlc);
    PrefixSubsequence(m, SliceEnd(|m|, limit));
    SubsequenceTrans(Slice(m, limit), m, catalog);
    forall p | p in Slice(m, limit)
      ensures Mentions(p, qlc)
    {
      var i :| 0 <= i < |Slice(m, limit)| && Slice(m, limit)[i] == p;
      assert m[i] == p;
    }
  }

  /** The catalog part of `suggestNominatim(q, limit)`. */
  function LocalSuggest(q: string, catalog: seq<Place>, limit: int): (r: LocalLookup)
    ensures Blank(q) ==> r == Answer([])
    ensures r.Answer? && !Blank(q) ==>
              && r.places != []
              && (0 <= limit ==> |r.places| <= limit)
              && Subsequence(r.places, catalog)
              && forall p :: p in r.places ==> Mentions(p, QueryKey(q))
  {
    if Blank(q) then Answer([])
    else
      var qlc := QueryKey(q);
      FirstMatches(catalog, qlc, limit);
      if |catalog| > 0 && |Slice(LocalMatches(catalog, qlc), limit)| > 0 then Answer(Slice(LocalMatches(catalog, qlc), limit))
      else FetchNominatim
  }

  /**
   * With a positive limit the request to Nominatim is made exactly when the
   * query is not blank and no catalog name contains it.
   */
  lemma LocalSuggestFallsThrough(q: string, catalog: seq<Place>, limit: int)
    requires 0 < limit
    ensures LocalSuggest(q, catalog, limit) == FetchNominatim <==>
              !Blank(q) && forall p :: p in catalog ==> !Mentions(p, QueryKey(q))
  {
    if !Blank(q) {
      var m := LocalMatches(catalog, QueryKey(q));
      if m != [] {
        assert m[0] in m;
        assert |Slice(m, limit)| > 0;
      }
    }
  }
}
