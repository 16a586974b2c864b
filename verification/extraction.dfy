/**
 * Headline extraction: every selector's matched texts, in selector order and
 * then match order, with the empty texts skipped and the duplicates removed.
 */
module Extraction {

  import opened Matching
  import opened Dedupe

  /** The texts with the empty ones dropped, in their original order. */
  function NonEmpty(texts: seq<string>): (r: seq<string>)
    ensures forall t :: t in r <==> t in texts && t != ""
    ensures |r| <= |texts|
  {
    if texts == [] then []
    else
      assert forall t :: t in texts <==> t == texts[0] || t in texts[1..];
      (if texts[0] == "" then [] else [texts[0]]) + NonEmpty(texts[1..])
  }

  /** The titles collected before deduplication: each selector's non-empty
      matched texts, concatenated in selector order. */
  function Collected(doc: Document, selectors: seq<string>): (titles: seq<string>)
    ensures "" !in titles
  {
    if selectors == [] then []
    else NonEmpty(Matches(doc, selectors[0])) + Collected(doc, selectors[1..])
  }

  /** A title is collected exactly when it is a non-empty text matched by one of the selectors. */
  lemma {:induction false} CollectedMembers(doc: Document, selectors: seq<string>)
    ensures forall t :: t in Collected(doc, selectors) <==>
      t != "" && exists i :: 0 <= i < |selectors| && t in Matches(doc, selectors[i])
  {
    if selectors != [] {
      CollectedMembers(doc, selectors[1..]);
      assert forall i :: 1 <= i < |selectors| ==> selectors[i] == selectors[1..][i - 1];
      forall t | t != "" && exists i :: 0 <= i < |selectors| && t in Matches(doc, selectors[i])
        ensures t in Collected(doc, selectors)
      {
        var i :| 0 <= i < |selectors| && t in Matches(doc, selectors[i]);
        if i > 0 {
          assert t in Matches(doc, selectors[1..][i - 1]);
        }
      }
    }
  }

  /** Appending a text appends it to the filtered texts unless it is empty. */
  lemma {:induction false} NonEmptyAppend(texts: seq<string>, t: string)
    ensures NonEmpty(texts + [t]) == NonEmpty(texts) + (if t == "" then [] else [t])
  {
    if texts != [] {
      assert (texts + [t])[1..] == texts[1..] + [t];
      NonEmptyAppend(texts[1..], t);
    }
  }

  /** Collection distributes over the selector list: the titles of `a + b` are
      those of `a` followed by those of `b`. */
  lemma {:induction false} CollectedConcat(doc: Document, a: seq<string>, b: seq<string>)
    ensures Collected(doc, a + b) == Collected(doc, a) + Collected(doc, b)
  {
    if a == [] {
      assert a + b == b;
    } else {
      assert (a + b)[0] == a[0] && (a + b)[1..] == a[1..] + b;
      CollectedConcat(doc, a[1..], b);
    }
  }

  /** Collecting over one selector gives its non-empty texts. */
  lemma CollectedSingle(doc: Document, sel: string)
    ensures Collected(doc, [sel]) == NonEmpty(Matches(doc, sel))
  {  }

  /** Collecting over the first `i + 1` selectors adds selector `i`'s non-empty texts. */
  lemma CollectedStep(doc: Document, selectors: seq<string>, i: nat)
    requires i < |selectors|
    ensures Collected(doc, selectors[..i + 1]) == Collected(doc, selectors[..i]) + NonEmpty(Matches(doc, selectors[i]))
  {
    assert selectors[..i + 1] == selectors[..i] + [selectors[i]];
    CollectedConcat(doc, selectors[..i], [selectors[i]]);
    CollectedSingle(doc, selectors[i]);
  }

  /** Texts that are all empty leave nothing. */
  lemma NonEmptyOfEmpties(texts: seq<string>)
    requires forall t :: t in texts ==> t == ""
    ensures NonEmpty(texts) == []
  {
    var none := NonEmpty(texts);
    if none != [] {
      FirstIsMember(none);
    }
  }

  /** A selector whose matches are all empty texts contributes nothing, wherever it stands. */
  lemma SilentSelector(doc: Document, a: seq<string>, sel: string, b: seq<string>)
    requires forall t :: t in Matches(doc, sel) ==> t == ""
    ensures Collected(doc, a + [sel] + b) == Collected(doc, a + b)
  {
    NonEmptyOfEmpties(Matches(doc, sel));
    CollectedSingle(doc, sel);
    CollectedConcat(doc, a + [sel], b);
    CollectedConcat(doc, a, [sel]);
    CollectedConcat(doc, a, b);
  }

  /** Deduplicating one more element of `s` keeps it exactly when it is new. */
  lemma DedupStep(s: seq<string>, k: nat)
    requires k < |s|
    ensures Dedup(s[..k + 1]) == Dedup(s[..k]) + (if s[k] in s[..k] then [] else [s[k]])
    ensures forall u :: u in s[..k + 1] <==> u in s[..k] || u == s[k]
  {
    assert s[..k + 1][..k] == s[..k];
  }

  /** The first loop of `extract_headlines`: every selector's non-empty matched
      texts, appended in selector order and then match order. */
  method CollectTitles(doc: Document, selectors: seq<string>) returns (titles: seq<string>)
    ensures titles == Collected(doc, selectors)
  {
    titles := [];
    for i := 0 to |selectors|
      invariant titles == Collected(doc, selectors[..i])
    {
      var found := Matches(doc, selectors[i]);
      ghost var before := titles;
      for j := 0 to |found|
        invariant titles == before + NonEmpty(found[..j])
      {
        var text := found[j];
        if text != "" {
          titles := titles + [text];
        }
        assert found[..j + 1] == found[..j] + [text];
        NonEmptyAppend(found[..j], text);
      }
      assert found[..|found|] == found;
      CollectedStep(doc, selectors, i);
    }
    assert selectors[..|selectors|] == selectors;
  }

  /** The second loop of `extract_headlines`: a title is appended the first time
      it is seen, and skipped afterwards. */
  method DedupeTitles(titles: seq<string>) returns (deduped: seq<string>)
    ensures deduped == Dedup(titles)
  {
    var seen: set<string> := {};
    deduped := [];
    for k := 0 to |titles|
      invariant deduped == Dedup(titles[..k])
      invariant forall t :: t in seen <==> t in titles[..k]
    {
      var t := titles[k];
      DedupStep(titles, k);
      if t !in seen {
        seen := seen + {t};
        deduped := deduped + [t];
      }
    }
    assert titles[..|titles|] == titles;
  }

  /** The headlines of a page: the collected titles of all selectors, in order,
      each kept at its first occurrence only. */
  method ExtractHeadlines(doc: Document, selectors: seq<string>) returns (headlines: seq<string>)
    ensures headlines == Dedup(Collected(doc, selectors))
    ensures "" !in headlines && NoDuplicates(headlines)
    ensures forall t :: t in headlines <==>
      t != "" && exists i :: 0 <= i < |selectors| && t in Matches(doc, selectors[i])
  {
    var titles := CollectTitles(doc, selectors);
    headlines := DedupeTitles(titles);
    CollectedMembers(doc, selectors);
  }
}
