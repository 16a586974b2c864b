/**
 * One run of the scraper once the page has been fetched and parsed: choose the
 * selectors, extract the headlines, and either report that none were found or
 * write the first `max` of them.
 */
module Pipeline {

  import opened Wrappers
  import opened Matching
  import opened SiteSelectors
  import opened Dedupe
  import opened Extraction
  import opened Output

  /** How a run ends: nothing is written when no headline was found; otherwise
      the number of distinct headlines found and what was written. */
  datatype Outcome = NoHeadlines | Written(found: nat, saved: Saved)

  /** The run on a fetched page, given the explicit selectors ([] when none were
      given), the page's host name and the maximum number of headlines to save. */
  method Scrape(doc: Document, explicit: seq<string>, hostname: Option<string>, maxItems: nat)
    returns (outcome: Outcome)
    ensures outcome.NoHeadlines? <==>
      forall i, t | 0 <= i < |ChooseSelectors(explicit, hostname)|
          && t in Matches(doc, ChooseSelectors(explicit, hostname)[i]) :: t == ""
    ensures outcome.Written? ==>
      var headlines := Dedup(Collected(doc, ChooseSelectors(explicit, hostname)));
      && outcome.found == |headlines| > 0
      && outcome.saved == SaveHeadlines(headlines, Some(maxItems))
      && outcome.saved.count == (if maxItems == 0 then outcome.found else Min(maxItems, outcome.found))
  {
    var selectors := ChooseSelectors(explicit, hostname);
    var headlines := ExtractHeadlines(doc, selectors);
    forall i, t | 0 <= i < |selectors| && t in Matches(doc, selectors[i]) && t != ""
      ensures t in headlines
    {
    }
    if headlines == [] {
      return NoHeadlines;
    }
    FirstIsMember(headlines);
    var saved := SaveHeadlines(headlines, Some(maxItems));
    outcome := Written(|headlines|, saved);
  }
}
