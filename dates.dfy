/** Recognising a publication date in the text of a result row.  Both crawlers
    search the row text for the same five shapes: `yyyy-mm-dd`, `yyyy/mm/dd`,
    `yyyy.mm.dd`, `yyyy年m月` (one or two month digits) and `yyyy年`.  They
    differ in how a choice is made between shapes:

    - the original crawler compiles one alternation, so the LEFTMOST date in
      the text wins, and at one position the earlier alternative wins;
    - the improved crawler tries the shapes one by one in priority order, so
      the FIRST SHAPE that occurs anywhere wins, at its leftmost position.

    Digits are the ASCII digits. */
module Dates {
  import opened Cascade
  import opened Text

  /** The five date shapes, named in the order both crawlers list them. */
  datatype DatePattern = DashDate | SlashDate | DotDate | YearMonth | YearOnly

  const Patterns: seq<DatePattern> := [DashDate, SlashDate, DotDate, YearMonth, YearOnly]

  /** `n` digits start at position `p` of `t`. */
  predicate DigitsAt(t: string, p: nat, n: nat) {
    p + n <= |t| && forall k :: p <= k < p + n ==> IsDigit(t[k])
  }

  /** Four digits, `sep`, two digits, `sep`, two digits at position `p`. */
  predicate FullDateAt(t: string, p: nat, sep: char) {
    && p + 10 <= |t|
    && DigitsAt(t, p, 4) && t[p + 4] == sep
    && DigitsAt(t, p + 5, 2) && t[p + 7] == sep
    && DigitsAt(t, p + 8, 2)
  }

  /** The length of the match of `pat` anchored at position `p`, if it matches
      there.  The month of `yyyy年m月` is a greedy one-or-two-digit run: two
      digits are tried before one. */
  function MatchAt(t: string, p: nat, pat: DatePattern): (n: Option<nat>)
    ensures n.Some? ==> 5 <= n.value <= 10 && p + n.value <= |t|
  {
    match pat
    case DashDate => if FullDateAt(t, p, '-') then Some(10) else None
    case SlashDate => if FullDateAt(t, p, '/') then Some(10) else None
    case DotDate => if FullDateAt(t, p, '.') then Some(10) else None
    case YearMonth =>
      if p + 7 <= |t| && DigitsAt(t, p, 4) && t[p + 4] == '年' && IsDigit(t[p + 5]) then
        if p + 8 <= |t| && IsDigit(t[p + 6]) && t[p + 7] == '月' then Some(8)
        else if t[p + 6] == '月' then Some(7)
        else None
      else None
    case YearOnly =>
      if p + 5 <= |t| && DigitsAt(t, p, 4) && t[p + 4] == '年' then Some(5) else None
  }

  /** None of `alts` matches at position `q`. */
  predicate NoMatchAt(t: string, alts: seq<DatePattern>, q: nat) {
    forall j :: 0 <= j < |alts| ==> MatchAt(t, q, alts[j]).None?
  }

  /** Alternative `j` is the first of `alts` to match at `q`, with length `n`. */
  predicate FirstMatchAt(t: string, alts: seq<DatePattern>, q: nat, j: nat, n: nat) {
    && j < |alts|
    && MatchAt(t, q, alts[j]) == Some(n)
    && forall i :: 0 <= i < j ==> MatchAt(t, q, alts[i]).None?
  }

  /** The alternatives of a regular-expression alternation tried at one
      position: the first one that matches is taken. */
  function FirstAlternative(t: string, alts: seq<DatePattern>, p: nat): (r: Option<Hit<nat>>)
    ensures r.Some? ==> FirstMatchAt(t, alts, p, r.value.index, r.value.value)
    ensures r.None? ==> NoMatchAt(t, alts, p)
  {
    FirstHit(alts, pat => MatchAt(t, p, pat), 0)
  }

  /** Where a search matched: the start, the length, and which alternative. */
  datatype Match = Match(pos: nat, len: nat, alt: nat)

  /** `re.search` for the alternation of `alts`, starting at position `p`:
      positions are tried left to right, and the first position at which any
      alternative matches wins. */
  function SearchFrom(t: string, alts: seq<DatePattern>, p: nat): (r: Option<Match>)
    requires p <= |t|
    ensures r.Some? ==> p <= r.value.pos && FirstMatchAt(t, alts, r.value.pos, r.value.alt, r.value.len)
    ensures r.Some? ==> forall q :: p <= q < r.value.pos ==> NoMatchAt(t, alts, q)
    ensures r.None? <==> forall q :: p <= q <= |t| ==> NoMatchAt(t, alts, q)
    decreases |t| - p
  {
    match FirstAlternative(t, alts, p)
    case Some(h) =>
      assert !NoMatchAt(t, alts, p);
      Some(Match(p, h.value, h.index))
    case None => if p == |t| then None else SearchFrom(t, alts, p + 1)
  }

  function Search(t: string, alts: seq<DatePattern>): Option<Match> {
    SearchFrom(t, alts, 0)
  }

  /** The matched text (`group(1)`, which spans the whole match), or `""`. */
  function Span(t: string, m: Option<Match>): string {
    match m
    case Some(Match(pos, len, _)) => if pos + len <= |t| then t[pos..pos + len] else ""
    case None => ""
  }

  /** The original crawler's date: one search for the five-way alternation. */
  function OriginalDate(t: string): string {
    Span(t, Search(t, Patterns))
  }

  /** The improved crawler's choice: the first pattern, in priority order,
      that occurs anywhere in `t`, and its leftmost occurrence. */
  function PriorityHit(t: string): (r: Option<Hit<Match>>)
    ensures r.Some? ==> r.value.index < |Patterns| && Search(t, [Patterns[r.value.index]]) == Some(r.value.value)
    ensures r.Some? ==> forall j :: 0 <= j < r.value.index ==> Search(t, [Patterns[j]]).None?
    ensures r.None? ==> forall j :: 0 <= j < |Patterns| ==> Search(t, [Patterns[j]]).None?
  {
    FirstHit(Patterns, pat => Search(t, [pat]), 0)
  }

  /** The improved crawler's date. */
  function ImprovedDate(t: string): string {
    match PriorityHit(t)
    case Some(h) => Span(t, Some(h.value))
    case None => ""
  }

  /** `s` is, as a whole, one of the five date shapes. */
  predicate IsDate(s: string) {
    exists i :: 0 <= i < |Patterns| && MatchAt(s, 0, Patterns[i]) == Some(|s|)
  }

  /** A match cut out of the text still matches, by itself, the same shape. */
  lemma MatchStandsAlone(t: string, p: nat, pat: DatePattern, n: nat)
    requires MatchAt(t, p, pat) == Some(n)
    ensures MatchAt(t[p..p + n], 0, pat) == Some(n)
  {
    var s := t[p..p + n];
    assert forall k :: 0 <= k < n ==> s[k] == t[p + k];
  }

  /** A date found by a search is a date shape and a piece of the text. */
  lemma SpanIsDate(t: string, alts: seq<DatePattern>, m: Match)
    requires forall j :: 0 <= j < |alts| ==> alts[j] in Patterns
    requires FirstMatchAt(t, alts, m.pos, m.alt, m.len)
    ensures Span(t, Some(m)) != "" && IsDate(Span(t, Some(m))) && Contains(t, Span(t, Some(m)))
  {
    var s := t[m.pos..m.pos + m.len];
    MatchStandsAlone(t, m.pos, alts[m.alt], m.len);
    var i :| 0 <= i < |Patterns| && Patterns[i] == alts[m.alt];
    assert MatchAt(s, 0, Patterns[i]) == Some(|s|);
    assert OccursAt(t, s, m.pos);
  }

  /** The original crawler's date is `""` or a date shape occurring in the text. */
  lemma OriginalDateFound(t: string)
    ensures OriginalDate(t) == "" || (IsDate(OriginalDate(t)) && Contains(t, OriginalDate(t)))
  {
    var m := Search(t, Patterns);
    if m.Some? {
      SpanIsDate(t, Patterns, m.value);
    }
  }

  /** The improved crawler's date is `""` or a date shape occurring in the text. */
  lemma ImprovedDateFound(t: string)
    ensures ImprovedDate(t) == "" || (IsDate(ImprovedDate(t)) && Contains(t, ImprovedDate(t)))
  {
    var h := PriorityHit(t);
    if h.Some? {
      SpanIsDate(t, [Patterns[h.value.index]], h.value.value);
    }
  }

  /** A single-pattern search fails exactly when the pattern occurs nowhere. */
  lemma SearchOneFails(t: string, pat: DatePattern)
    ensures Search(t, [pat]).None? <==> forall q :: 0 <= q <= |t| ==> MatchAt(t, q, pat).None?
  {
    forall q | 0 <= q <= |t|
      ensures NoMatchAt(t, [pat], q) <==> MatchAt(t, q, pat).None?
    {
      assert [pat][0] == pat;
    }
  }

  /** A date the alternation finds is a shape the priority loop finds too. */
  lemma PriorityFindsWhatAlternationFinds(t: string)
    requires Search(t, Patterns).Some?
    ensures PriorityHit(t).Some?
  {
    var m := Search(t, Patterns).value;
    SearchOneFails(t, Patterns[m.alt]);
    assert MatchAt(t, m.pos, Patterns[m.alt]).Some?;
  }

  /** When the alternation finds nothing, no single shape occurs either. */
  lemma PriorityMissesWhatAlternationMisses(t: string)
    requires Search(t, Patterns).None?
    ensures PriorityHit(t).None?
  {
    forall j | 0 <= j < |Patterns| ensures Search(t, [Patterns[j]]).None? {
      forall q | 0 <= q <= |t| ensures MatchAt(t, q, Patterns[j]).None? {
        assert NoMatchAt(t, Patterns, q);
      }
      SearchOneFails(t, Patterns[j]);
    }
  }

  /** The two crawlers agree on WHETHER a row carries a date: the alternation
      finds something exactly when some pattern occurs, which is exactly when
      the priority loop finds something. */
  lemma SameDatesFound(t: string)
    ensures OriginalDate(t) == "" <==> ImprovedDate(t) == ""
  {
    var m := Search(t, Patterns);
    if m.Some? {
      PriorityFindsWhatAlternationFinds(t);
      var h := PriorityHit(t).value;
      SpanIsDate(t, Patterns, m.value);
      SpanIsDate(t, [Patterns[h.index]], h.value);
    } else {
      PriorityMissesWhatAlternationMisses(t);
    }
  }

  /** The original crawler's date never starts to the right of the improved
      crawler's: whatever shape the priority loop picks, the alternation sees
      it too and can only stop earlier. */
  lemma OriginalStartsNoLater(t: string)
    requires Search(t, Patterns).Some? && PriorityHit(t).Some?
    ensures Search(t, Patterns).value.pos <= PriorityHit(t).value.value.pos
  {
    var m := Search(t, Patterns).value;
    var h := PriorityHit(t).value;
    var j := h.index;
    var q := h.value.pos;
    assert FirstMatchAt(t, [Patterns[j]], q, h.value.alt, h.value.len);
    assert MatchAt(t, q, Patterns[j]).Some?;
    assert !NoMatchAt(t, Patterns, q);
  }

  /** The improved crawler's pick: no higher-priority shape occurs anywhere in
      the text, and none of its own shape starts further left. */
  lemma ImprovedDateHasPriority(t: string)
    requires PriorityHit(t).Some?
    ensures forall j, q :: 0 <= j < PriorityHit(t).value.index && 0 <= q <= |t| ==> MatchAt(t, q, Patterns[j]).None?
    ensures forall q :: 0 <= q < PriorityHit(t).value.value.pos ==> MatchAt(t, q, Patterns[PriorityHit(t).value.index]).None?
  {
    var h := PriorityHit(t).value;
    forall j | 0 <= j < h.index ensures forall q :: 0 <= q <= |t| ==> MatchAt(t, q, Patterns[j]).None? {
      SearchOneFails(t, Patterns[j]);
    }
    forall q | 0 <= q < h.value.pos ensures MatchAt(t, q, Patterns[h.index]).None? {
      assert NoMatchAt(t, [Patterns[h.index]], q);
      assert [Patterns[h.index]][0] == Patterns[h.index];
    }
  }

  /** A year before a full date: the original crawler takes the year, which
      comes first in the text ... */
  lemma OriginalTakesLeftmost(t: string)
    requires t == "2021年 2023-05-10"
    ensures OriginalDate(t) == "2021年"
  {
    assert MatchAt(t, 0, YearMonth).None?;
    assert MatchAt(t, 0, YearOnly) == Some(5);
    assert FirstAlternative(t, Patterns, 0) == Some(Hit(4, 5));
    assert t[0..5] == "2021年";
  }

  /** The leftmost full date in the example text starts after the year. */
  lemma FullDateAfterYear(t: string)
    requires t == "2021年 2023-05-10"
    ensures Search(t, [DashDate]) == Some(Match(6, 10, 0))
  {
    var alts := [DashDate];
    assert alts[0] == DashDate;
    forall q | 0 <= q < 6 ensures NoMatchAt(t, alts, q) {
      assert t[q + 4] != '-';
    }
    assert MatchAt(t, 6, DashDate) == Some(10);
    assert !NoMatchAt(t, alts, 6);
    var r := Search(t, alts);
    assert r.Some? && r.value.pos == 6;
  }

  /** ... and the improved crawler takes the full date, whose shape comes
      first in its priority list. */
  lemma ImprovedTakesPriority(t: string)
    requires t == "2021年 2023-05-10"
    ensures ImprovedDate(t) == "2023-05-10"
  {
    FullDateAfterYear(t);
    assert [Patterns[0]] == [DashDate];
    var h := PriorityHit(t);
    assert h.Some? && h.value.index == 0;
    assert h.value.value == Match(6, 10, 0);
    assert ImprovedDate(t) == Span(t, Some(Match(6, 10, 0)));
    assert t[6..16] == "2023-05-10";
  }

  /** A month date is taken whole by both crawlers, not cut to its year. */
  lemma MonthDateWhole(t: string)
    requires t == "2023年5月"
    ensures OriginalDate(t) == t
    ensures ImprovedDate(t) == t
  {
    assert MatchAt(t, 0, YearMonth) == Some(7);
    assert FirstAlternative(t, Patterns, 0) == Some(Hit(3, 7));
    forall j | 0 <= j < 3 ensures Search(t, [Patterns[j]]).None? {
      SearchOneFails(t, Patterns[j]);
    }
    assert Search(t, [YearMonth]) == Some(Match(0, 7, 0));
    assert t[0..7] == t;
  }

  /** The month run is greedy: a two-digit month is read whole. */
  lemma TwoDigitMonth()
    ensures MatchAt("2023年12月", 0, YearMonth) == Some(8)
  {
  }
}
