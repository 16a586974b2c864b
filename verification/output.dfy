/**
 * Writing the headlines: at most `max_items` of them, one write per headline,
 * as a 1-indexed numbered list "<index>. <headline>\n". The file itself is not
 * modelled; the strings written to it, and the count returned, are.
 */
module Output {

  import opened Wrappers

  predicate IsDigit(c: char)
  {
    '0' <= c <= '9'
  }

  function DigitChar(d: nat): (c: char)
    requires d < 10
    ensures IsDigit(c)
  {
    ('0' as int + d) as char
  }

  /** The decimal rendering of a natural number, as Python's `str` gives it:
      non-empty, all digits, and without a leading zero. */
  function Decimal(n: nat): (s: string)
    ensures |s| > 0 && forall i :: 0 <= i < |s| ==> IsDigit(s[i])
    ensures n > 0 ==> s[0] != '0'
  {
    if n < 10 then [DigitChar(n)] else Decimal(n / 10) + [DigitChar(n % 10)]
  }

  /** The number a string of decimal digits denotes. */
  function DigitsValue(s: string): nat
    requires forall i :: 0 <= i < |s| ==> IsDigit(s[i])
  {
    if s == [] then 0
    else
      assert IsDigit(s[|s| - 1]);
      DigitsValue(s[..|s| - 1]) * 10 + (s[|s| - 1] as int - '0' as int)
  }

  /** Reading back a decimal rendering gives the number. */
  lemma {:induction false} DecimalValue(n: nat)
    ensures DigitsValue(Decimal(n)) == n
  {
    if n >= 10 {
      var d := Decimal(n);
      assert d[..|d| - 1] == Decimal(n / 10);
      DecimalValue(n / 10);
    }
  }

  /** The length of the run of digits that starts `s`. */
  function DigitRun(s: string): (k: nat)
    ensures k <= |s|
    ensures forall i :: 0 <= i < k ==> IsDigit(s[i])
    ensures k < |s| ==> !IsDigit(s[k])
  {
    if s == [] || !IsDigit(s[0]) then 0 else 1 + DigitRun(s[1..])
  }

  /** Line `index` of the output file for headline `text`. */
  function FormatLine(index: nat, text: string): (line: string)
    ensures ParseLine(line) == Some((index, text))
  {
    ParseFormatLine(index, text);
    Decimal(index) + ". " + text + "\n"
  }

  /** Reads a line of the output file back into its index and headline, if it
      has the shape "<digits>. <text>\n". */
  function ParseLine(line: string): Option<(nat, string)>
  {
    var k := DigitRun(line);
    if k == 0 || k + 3 > |line| || line[k..k + 2] != ". " || line[|line| - 1] != '\n' then None
    else Some((DigitsValue(line[..k]), line[k + 2..|line| - 1]))
  }

  /** A line as written reads back as the index and the headline it was written from. */
  lemma ParseFormatLine(index: nat, text: string)
    ensures ParseLine(Decimal(index) + ". " + text + "\n") == Some((index, text))
  {
    var d := Decimal(index);
    var line := Decimal(index) + ". " + text + "\n";
    DigitRunStops(d, ". " + text + "\n");
    assert line == d + (". " + text + "\n");
    assert line[..|d|] == d;
    assert line[|d|..|d| + 2] == ". ";
    assert line[|d| + 2..|line| - 1] == text;
    DecimalValue(index);
  }

  /** A run of digits followed by a non-digit is read up to that non-digit. */
  lemma {:induction false} DigitRunStops(digits: string, rest: string)
    requires forall i :: 0 <= i < |digits| ==> IsDigit(digits[i])
    requires rest != [] && !IsDigit(rest[0])
    ensures DigitRun(digits + rest) == |digits|
  {
    if digits != [] {
      assert (digits + rest)[1..] == digits[1..] + rest;
      DigitRunStops(digits[1..], rest);
    } else {
      assert digits + rest == rest;
    }
  }

  /** The headlines numbered consecutively from `start`, as `enumerate(..., start=...)` does. */
  function Numbered(headlines: seq<string>, start: nat): (lines: seq<string>)
    ensures |lines| == |headlines|
  {
    if headlines == [] then [] else [FormatLine(start, headlines[0])] + Numbered(headlines[1..], start + 1)
  }

  /** Line `i` of the numbering from `start` carries number `start + i` and headline `i`. */
  lemma {:induction false} NumberedAt(headlines: seq<string>, start: nat, i: nat)
    requires i < |headlines|
    ensures Numbered(headlines, start)[i] == FormatLine(start + i, headlines[i])
  {
    if i > 0 {
      NumberedAt(headlines[1..], start + 1, i - 1);
    }
  }

  function Min(a: nat, b: nat): nat
  {
    if a <= b then a else b
  }

  /** `max_items or len(headlines)`: a missing or zero maximum means "all". */
  function Limit(maxItems: Option<nat>, available: nat): (limit: nat)
    ensures maxItems.Some? && maxItems.value > 0 ==> limit == maxItems.value
    ensures maxItems.None? || maxItems == Some(0) ==> limit == available
  {
    match maxItems
    case Some(m) => if m == 0 then available else m
    case None => available
  }

  /** Python's slice `s[:m]` for a non-negative `m`. */
  function Take(s: seq<string>, m: nat): (r: seq<string>)
    ensures |r| == Min(m, |s|)
    ensures r == s[..|r|]
  {
    if m <= |s| then s[..m] else s
  }

  /** What `save_headlines` writes and returns. */
  datatype Saved = Saved(lines: seq<string>, count: nat)

  /** The strings written for the headlines and the count returned: the first
      `max_items` headlines (all of them when the maximum is missing or zero),
      write i being "i. <headline i>\n". A headline holding a newline makes
      its write span several lines of the file. */
  function SaveHeadlines(headlines: seq<string>, maxItems: Option<nat>): (r: Saved)
    ensures r.count == |r.lines| <= |headlines|
    ensures maxItems.Some? && maxItems.value > 0 ==> r.count == Min(maxItems.value, |headlines|)
    ensures maxItems.None? || maxItems == Some(0) ==> r.count == |headlines|
    ensures forall i :: 0 <= i < r.count ==> r.lines[i] == FormatLine(i + 1, headlines[i])
  {
    var shown := Take(headlines, Limit(maxItems, |headlines|));
    var lines := Numbered(shown, 1);
    assert forall i :: 0 <= i < |shown| ==> lines[i] == FormatLine(i + 1, headlines[i]) by {
      forall i | 0 <= i < |shown|
        ensures lines[i] == FormatLine(i + 1, headlines[i])
      {
        NumberedAt(shown, 1, i);
      }
    }
    Saved(lines, |shown|)
  }

  /** Every string written reads back as its 1-based position and the headline at that position. */
  lemma SavedLinesReadBack(headlines: seq<string>, maxItems: Option<nat>)
    ensures forall i :: 0 <= i < SaveHeadlines(headlines, maxItems).count ==>
      ParseLine(SaveHeadlines(headlines, maxItems).lines[i]) == Some((i + 1, headlines[i]))
  {
  }
}
