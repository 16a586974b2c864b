/**
 * How one selector string is evaluated against the parsed page.
 *
 * The HTML parser is not modelled: a page is seen only through the two lookups
 * the scraper performs on it, CSS `select` and tag-name `find_all`, and each
 * matched node is represented by its already-extracted text.
 */
module Matching {

  /** The outcome of running a selector through the CSS query engine: either the
      engine raises, or it yields the texts of the matched nodes in document order. */
  datatype QueryOutcome = Raised | Found(texts: seq<string>)

  /** A parsed page: `select` is the CSS query engine, `findAll` the tag-name lookup. */
  datatype Document = Document(select: string -> QueryOutcome, findAll: string -> seq<string>)

  /** A selector is a CSS query when it starts with `.` or `#`, or holds a space,
      a `>` or a `[` anywhere; every other string is taken as a tag name. */
  predicate IsQuery(sel: string)
    ensures IsQuery(sel) <==>
      (|sel| > 0 && sel[0] in ".#") || exists i :: 0 <= i < |sel| && sel[i] in " >["
  {
    || (|sel| > 0 && (sel[0] == '.' || sel[0] == '#'))
    || ' ' in sel
    || '>' in sel
    || '[' in sel
  }

  /** True of a character that is an ASCII letter or digit. */
  predicate IsAlphaNumeric(c: char)
  {
    ('a' <= c <= 'z') || ('A' <= c <= 'Z') || ('0' <= c <= '9')
  }

  /** True of a string made only of ASCII letters and digits. */
  predicate IsWord(s: string)
  {
    forall i :: 0 <= i < |s| ==> IsAlphaNumeric(s[i])
  }

  /** What the classification means: a leading class or id marker always makes
      a query, a space, `>` or `[` anywhere makes a query, and a plain word -- or
      a word with a `.` after its first character, as in `div.x` -- is a tag name. */
  lemma Classification(sel: string, word: string, rest: string)
    ensures IsQuery("." + rest) && IsQuery("#" + rest)
    ensures forall i :: 0 <= i < |sel| && sel[i] in " >[" ==> IsQuery(sel)
    ensures IsWord(word) ==> !IsQuery(word)
    ensures |word| > 0 && IsWord(word) && IsWord(rest) ==> !IsQuery(word + "." + rest)
  {  }

  /** The texts a selector matches. A query goes to the CSS engine; if the engine
      raises, or the selector is a tag name, the tag-name lookup is used instead. */
  function Matches(doc: Document, sel: string): (texts: seq<string>)
    ensures !IsQuery(sel) ==> texts == doc.findAll(sel)
    ensures doc.select(sel).Raised? ==> texts == doc.findAll(sel)
    ensures IsQuery(sel) && doc.select(sel).Found? ==> texts == doc.select(sel).texts
  {
    if IsQuery(sel) then
      match doc.select(sel)
      case Found(found) => found
      case Raised => doc.findAll(sel)
    else
      doc.findAll(sel)
  }

  /** Example classifications: a bare tag and `tag.class` are tag names; a
      leading `.`, a descendant space, a child `>` and an attribute `[` make queries. */
  lemma ClassificationExamples()
    ensures !IsQuery("h2") && !IsQuery("div.x")
    ensures IsQuery(".headline") && IsQuery("#main h2") && IsQuery("div > span") && IsQuery("a[href]")
  {  }
}
