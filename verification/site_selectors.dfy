/**
 * Choosing the selectors for a page: explicit selectors win; otherwise they are
 * guessed from the page's host name through a small table of known news sites.
 */
module SiteSelectors {

  import opened Wrappers
  import opened Matching

  const BbcSelectors: seq<string> := [".gs-c-promo-heading__title", "h3", "h2"]
  const CnnSelectors: seq<string> := [".cd__headline-text", "h2", "h3"]
  const NytimesSelectors: seq<string> := [".css-1cmu9py.e1voiwgp0", "h2", "h3"]

  /** Common heading tags and class-name conventions, for every other site. */
  const GenericSelectors: seq<string> := ["h1", "h2", "h3", ".headline", ".title", ".entry-title"]

  /** Of the selectors the scraper ships with, the class selectors (leading `.`)
      go to the CSS query engine and the heading tags to the tag-name lookup. */
  lemma ShippedSelectorKinds()
    ensures forall sel :: sel in BbcSelectors + CnnSelectors + NytimesSelectors + GenericSelectors ==>
      |sel| > 0 && (IsQuery(sel) <==> sel[0] == '.')
  {  }

  /** The known sites as an ordered table of (host substring, selectors); the
      first pattern found in the host name decides. */
  const KnownSites: seq<(string, seq<string>)> :=
    [("bbc.", BbcSelectors), ("cnn.", CnnSelectors), ("nytimes", NytimesSelectors)]

  /** Lower-casing of one character; only the ASCII letters are mapped. */
  function LowerChar(c: char): (r: char)
    ensures !('A' <= r <= 'Z')
    ensures !('A' <= c <= 'Z') ==> r == c
  {
    if 'A' <= c <= 'Z' then (c as int - 'A' as int + 'a' as int) as char else c
  }

  function Lower(s: string): (r: string)
    ensures |r| == |s|
    ensures forall i :: 0 <= i < |s| ==> r[i] == LowerChar(s[i])
  {
    seq(|s|, i requires 0 <= i < |s| => LowerChar(s[i]))
  }

  /** Lower-casing twice is lower-casing once. */
  lemma LowerIdempotent(s: string)
    ensures Lower(Lower(s)) == Lower(s)
  {  }

  /** `needle` occurs in `hay` starting at index `i`. */
  predicate OccursAt(hay: string, needle: string, i: nat)
  {
    i + |needle| <= |hay| && hay[i..i + |needle|] == needle
  }

  /** Python's substring test `needle in hay`: the empty needle occurs in every
      string, and no needle occurs in a shorter string. */
  function Contains(hay: string, needle: string): (r: bool)
    ensures needle == [] ==> r
    ensures r ==> |needle| <= |hay|
  {
    (|needle| <= |hay| && hay[..|needle|] == needle) || (hay != [] && Contains(hay[1..], needle))
  }

  /** The substring test holds exactly when the needle occurs at some index. */
  lemma {:induction false} ContainsOccurs(hay: string, needle: string)
    ensures Contains(hay, needle) <==> exists i: nat :: OccursAt(hay, needle, i)
  {
    if |needle| <= |hay| && hay[..|needle|] == needle {
      assert OccursAt(hay, needle, 0);
    } else if hay == [] {
      forall i: nat
        ensures !OccursAt(hay, needle, i)
      {
      }
    } else {
      ContainsOccurs(hay[1..], needle);
      if exists i: nat :: OccursAt(hay[1..], needle, i) {
        var i: nat :| OccursAt(hay[1..], needle, i);
        assert hay[1..][i..i + |needle|] == hay[i + 1..i + 1 + |needle|];
        assert OccursAt(hay, needle, i + 1);
      }
      if exists i: nat :: OccursAt(hay, needle, i) {
        var i: nat :| OccursAt(hay, needle, i);
        assert i > 0;
        assert hay[1..][i - 1..i - 1 + |needle|] == hay[i..i + |needle|];
        assert OccursAt(hay[1..], needle, i - 1);
      }
    }
  }

  /** A host containing `"nytimes."` contains `"nytimes"`, so the scraper's second
      New York Times test adds nothing to its first. */
  lemma NytimesDotSubsumed(host: string)
    ensures Contains(host, "nytimes.") ==> Contains(host, "nytimes")
  {  }

  /** First-match-wins lookup in an ordered (pattern, selectors) table. */
  function FirstMatch(table: seq<(string, seq<string>)>, host: string): (r: Option<seq<string>>)
    ensures r.None? <==> forall k :: 0 <= k < |table| ==> !Contains(host, table[k].0)
    ensures r.Some? ==>
      exists k :: 0 <= k < |table| && Contains(host, table[k].0) && r.value == table[k].1
        && forall j :: 0 <= j < k ==> !Contains(host, table[j].0)
  {
    if table == [] then None
    else if Contains(host, table[0].0) then Some(table[0].1)
    else
      var r := FirstMatch(table[1..], host);
      assert forall k :: 1 <= k < |table| ==> table[k] == table[1..][k - 1];
      r
  }

  /** The selectors guessed from a host name; a missing host name counts as "". */
  function GuessSelectors(hostname: Option<string>): (r: seq<string>)
    ensures r == FirstMatch(KnownSites, Lower(hostname.GetOr(""))).GetOr(GenericSelectors)
    ensures r != []
  {
    var host := Lower(hostname.GetOr(""));
    NytimesDotSubsumed(host);
    assert KnownSites[1..][1..][1..] == [];
    assert FirstMatch(KnownSites[1..][1..], host)
      == if Contains(host, "nytimes") then Some(NytimesSelectors) else None;
    if Contains(host, "bbc.") then BbcSelectors
    else if Contains(host, "cnn.") then CnnSelectors
    else if Contains(host, "nytimes.") || Contains(host, "nytimes") then NytimesSelectors
    else GenericSelectors
  }

  /** Matching ignores the case of the host name. */
  lemma GuessIgnoresCase(host: string)
    ensures GuessSelectors(Some(host)) == GuessSelectors(Some(Lower(host)))
  {
    LowerIdempotent(host);
  }

  /** A needle whose first character is absent from the host never occurs in it. */
  lemma FirstCharAbsent(hay: string, needle: string)
    requires needle != [] && needle[0] !in hay
    ensures !Contains(hay, needle)
  {  }

  /** A BBC host gets the BBC selectors, whatever the case of its name. */
  lemma GuessBbc()
    ensures GuessSelectors(Some("www.BBC.com")) == BbcSelectors
  {
    var host := Lower("www.BBC.com");
    assert host == "www.bbc.com";
    ContainsOccurs(host, "bbc.");
    assert OccursAt(host, "bbc.", 4);
  }

  /** A host name in which no known pattern occurs gets the generic selectors. */
  lemma GuessFallback(hostname: Option<string>)
    requires forall k :: 0 <= k < |KnownSites| ==> !Contains(Lower(hostname.GetOr("")), KnownSites[k].0)
    ensures GuessSelectors(hostname) == GenericSelectors
  {
  }

  /** An unknown host gets the generic selectors. */
  lemma GuessUnknown()
    ensures GuessSelectors(Some("example.org")) == GenericSelectors
  {
    LowerExampleOrg();
    NoKnownInitials(Lower("example.org"));
    GuessFallback(Some("example.org"));
  }

  /** `example.org` is already in lower case. */
  lemma LowerExampleOrg()
    ensures Lower("example.org") == "example.org"
  {
  }

  /** A host name without the letters `b`, `c` and `n` contains none of the known patterns. */
  lemma NoKnownInitials(host: string)
    requires 'b' !in host && 'c' !in host && 'n' !in host
    ensures forall k :: 0 <= k < |KnownSites| ==> !Contains(host, KnownSites[k].0)
  {
    FirstCharAbsent(host, "bbc.");
    FirstCharAbsent(host, "cnn.");
    FirstCharAbsent(host, "nytimes");
  }

  /** A URL without a host name gets the generic selectors. */
  lemma GuessNoHost()
    ensures GuessSelectors(None) == GenericSelectors
  {  }

  /** The selectors the run uses: the explicitly given ones, verbatim and in
      order, whenever there are any; the guessed ones otherwise. An empty list
      stands for selectors not given at all. */
  function ChooseSelectors(explicit: seq<string>, hostname: Option<string>): (r: seq<string>)
    ensures explicit != [] ==> r == explicit
    ensures explicit == [] ==> r == GuessSelectors(hostname)
    ensures r != []
  {
    if explicit != [] then explicit else GuessSelectors(hostname)
  }
}
