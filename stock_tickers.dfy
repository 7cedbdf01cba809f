/** Consolidation of the ticker reference list (get_stock_tickers.py).

    The reference table retrieved from the exchange's reference-data service
    is represented by the set of its symbols; the rows of the table are
    `TickerRecord`s whose fields are the printed form of each cell, so that a
    missing cell is the text "nan". Network retrieval, printing and the clock
    are outside the model: the four exchange lists, the reference set and the
    current date are parameters. */
module StockTickers {

  type Symbol = string

  /** The text a missing cell prints as. */
  const Missing: string := "nan"

  /** One row of the ticker reference table: symbol, display name,
      retrieval date and asset type. */
  datatype TickerRecord = TickerRecord(symbol: Symbol, name: string, date: string, assetType: string)

  // ---------------------------------------------------------------------
  // The distinct union of the exchange lists (get_tickers)
  // ---------------------------------------------------------------------

  predicate NoDuplicates(xs: seq<Symbol>) {
    forall i, j :: 0 <= i < j < |xs| ==> xs[i] != xs[j]
  }

  /** The distinct elements of `xs`, each once. */
  function Distinct(xs: seq<Symbol>): (r: seq<Symbol>)
    ensures NoDuplicates(r)
    ensures forall x :: x in r <==> x in xs
    ensures |r| <= |xs|
  {
    if xs == [] then []
    else
      var rest := Distinct(xs[..|xs| - 1]);
      var last := xs[|xs| - 1];
      assert xs == xs[..|xs| - 1] + [last];
      if last in rest then rest else rest + [last]
  }

  /** A sequence without duplicates has as many elements as its set. */
  lemma {:induction false} NoDuplicatesCardinality(xs: seq<Symbol>)
    requires NoDuplicates(xs)
    ensures |set x | x in xs| == |xs|
  {
    if xs != [] {
      var init := xs[..|xs| - 1];
      var last := xs[|xs| - 1];
      NoDuplicatesCardinality(init);
      assert last !in init;
      assert (set x | x in xs) == (set x | x in init) + {last} by {
        assert xs == init + [last];
      }
    }
  }

  /** The number of symbols the union reports equals the number of distinct
      symbols in the input. */
  lemma DistinctCardinality(xs: seq<Symbol>)
    ensures |Distinct(xs)| == |set x | x in xs|
  {
    NoDuplicatesCardinality(Distinct(xs));
    assert (set x | x in Distinct(xs)) == (set x | x in xs);
  }

  /** The consolidated list of the DOW, NASDAQ, S&P 500 and other listings:
      each symbol that occurs in at least one of them, once. */
  function GetTickers(dow: seq<Symbol>, nasdaq: seq<Symbol>, sp500: seq<Symbol>, other: seq<Symbol>): (all: seq<Symbol>)
    ensures NoDuplicates(all)
    ensures forall x :: x in all <==> x in dow || x in nasdaq || x in sp500 || x in other
    ensures |all| == |set x | x in dow + nasdaq + sp500 + other|
    ensures |all| <= |dow| + |nasdaq| + |sp500| + |other|
  {
    DistinctCardinality(dow + nasdaq + sp500 + other);
    Distinct(dow + nasdaq + sp500 + other)
  }

  // ---------------------------------------------------------------------
  // Spelling consolidation (check_alternate_spelling)
  // ---------------------------------------------------------------------

  /** `s` with every occurrence of the character `c` replaced by `d`. */
  function Replace(s: string, c: char, d: char): (r: string)
    ensures |r| == |s|
    ensures forall i :: 0 <= i < |s| ==> r[i] == (if s[i] == c then d else s[i])
    ensures c !in s ==> r == s
    ensures c != d ==> c !in r
  {
    if s == [] then []
    else [if s[0] == c then d else s[0]] + Replace(s[1..], c, d)
  }

  /** A symbol containing neither '$' nor '-' is left alone by both
      rewrite spellings. */
  lemma ReplaceLeavesPlainSymbol(x: Symbol)
    requires '$' !in x && '-' !in x
    ensures Replace(x, '$', '-') == x && Replace(x, '-', '.') == x
  {
  }

  /** One rewrite pass on one symbol: the respelled form is taken exactly when
      the reference set knows it. */
  function Respell(x: Symbol, c: char, d: char, reference: set<Symbol>): (y: Symbol)
    ensures y in reference <==> x in reference || Replace(x, c, d) in reference
    ensures Replace(x, c, d) in reference ==> y == Replace(x, c, d)
    ensures y == x || y in reference
    ensures x in reference ==> y in reference
    ensures y != x ==> y == Replace(x, c, d)
  {
    var alternate := Replace(x, c, d);
    if alternate in reference then alternate else x
  }

  /** One rewrite pass over the whole list: entry by entry, a symbol is
      respelled exactly when its respelling is known, and is otherwise kept. */
  function RespellAll(xs: seq<Symbol>, c: char, d: char, reference: set<Symbol>): (ys: seq<Symbol>)
    ensures |ys| == |xs|
    ensures forall i :: 0 <= i < |xs| ==>
      (ys[i] in reference <==> xs[i] in reference || Replace(xs[i], c, d) in reference)
    ensures forall i :: 0 <= i < |xs| ==> ys[i] == xs[i] || ys[i] == Replace(xs[i], c, d)
    ensures forall i :: 0 <= i < |xs| ==> ys[i] == Respell(xs[i], c, d, reference)
  {
    seq(|xs|, i requires 0 <= i < |xs| => Respell(xs[i], c, d, reference))
  }

  /** Both passes on one symbol: '$' to '-', then '-' to '.'. */
  function Consolidate(x: Symbol, reference: set<Symbol>): (y: Symbol)
    ensures y in reference <==>
      x in reference || Replace(x, '$', '-') in reference || Replace(x, '-', '.') in reference
    ensures y !in reference ==> y == x
  {
    Respell(Respell(x, '$', '-', reference), '-', '.', reference)
  }

  /** The symbols of `xs` that are not in the reference set, in order. */
  function Absent(xs: seq<Symbol>, reference: set<Symbol>): (r: seq<Symbol>)
    ensures |r| <= |xs|
    ensures forall x :: x in r <==> x in xs && x !in reference
  {
    if xs == [] then []
    else (if xs[0] in reference then [] else [xs[0]]) + Absent(xs[1..], reference)
  }

  /** Every absent entry is kept, duplicates included, so the length of
      `Absent` is the number of absent entries. */
  lemma {:induction false} AbsentKeepsDuplicates(xs: seq<Symbol>, reference: set<Symbol>, x: Symbol)
    ensures multiset(Absent(xs, reference))[x] == if x in reference then 0 else multiset(xs)[x]
  {
    if xs != [] {
      AbsentKeepsDuplicates(xs[1..], reference, x);
      assert xs == [xs[0]] + xs[1..];
    }
  }

  /** No spelling of `x` tried by the consolidation is in the reference set. */
  predicate NoSpellingFound(x: Symbol, reference: set<Symbol>) {
    x !in reference && Replace(x, '$', '-') !in reference && Replace(x, '-', '.') !in reference
  }

  /** Reference definition of the result: the input symbols for which no
      tried spelling is known, in input order, duplicates kept. */
  function Unmatched(xs: seq<Symbol>, reference: set<Symbol>): (r: seq<Symbol>)
    ensures |r| <= |xs|
    ensures forall x :: x in r <==> x in xs && NoSpellingFound(x, reference)
  {
    if xs == [] then []
    else (if NoSpellingFound(xs[0], reference) then [xs[0]] else []) + Unmatched(xs[1..], reference)
  }

  /** Every occurrence of an unmatched symbol is kept, and no other. */
  lemma {:induction false} UnmatchedKeepsDuplicates(xs: seq<Symbol>, reference: set<Symbol>, x: Symbol)
    ensures multiset(Unmatched(xs, reference))[x] ==
      if NoSpellingFound(x, reference) then multiset(xs)[x] else 0
  {
    if xs != [] {
      UnmatchedKeepsDuplicates(xs[1..], reference, x);
      assert xs == [xs[0]] + xs[1..];
    }
  }

  /** Filtering the consolidated list for absent symbols is filtering the
      original list with the three-spelling test. */
  lemma {:induction false} AbsentAfterConsolidation(xs: seq<Symbol>, ys: seq<Symbol>, reference: set<Symbol>)
    requires |ys| == |xs|
    requires forall i :: 0 <= i < |xs| ==> ys[i] == Consolidate(xs[i], reference)
    ensures Absent(ys, reference) == Unmatched(xs, reference)
  {
    if xs != [] {
      AbsentAfterConsolidation(xs[1..], ys[1..], reference);
    }
  }

  /** A rewrite pass never takes a symbol out of the reference set, so it
      never increases the number of absent symbols. */
  lemma {:induction false} RespellNeverLosesMatches(xs: seq<Symbol>, c: char, d: char, reference: set<Symbol>)
    ensures |Absent(RespellAll(xs, c, d, reference), reference)| <= |Absent(xs, reference)|
  {
    if xs != [] {
      var ys := RespellAll(xs, c, d, reference);
      assert ys[1..] == RespellAll(xs[1..], c, d, reference);
      RespellNeverLosesMatches(xs[1..], c, d, reference);
    }
  }

  /** The symbols of `allTickers` still missing from the reference set after
      spelling consolidation. */
  function CheckAlternateSpelling(allTickers: seq<Symbol>, reference: set<Symbol>): (missing: seq<Symbol>)
    ensures missing == Unmatched(allTickers, reference)
    ensures forall x :: x in missing ==> x !in reference
    ensures forall x :: x in missing ==> x in allTickers
    ensures |missing| <= |Absent(allTickers, reference)|
  {
    var dashed := RespellAll(allTickers, '$', '-', reference);
    var dotted := RespellAll(dashed, '-', '.', reference);
    AbsentAfterConsolidation(allTickers, dotted, reference);
    RespellNeverLosesMatches(allTickers, '$', '-', reference);
    RespellNeverLosesMatches(dashed, '-', '.', reference);
    Absent(dotted, reference)
  }

  /** The entries absent under their listed spelling but known under an
      alternate one, in input order. */
  function Respelled(xs: seq<Symbol>, reference: set<Symbol>): (r: seq<Symbol>)
    ensures forall x :: x in r <==> x in xs && x !in reference && !NoSpellingFound(x, reference)
  {
    if xs == [] then []
    else
      (if xs[0] !in reference && !NoSpellingFound(xs[0], reference) then [xs[0]] else [])
      + Respelled(xs[1..], reference)
  }

  /** Each absent entry is either still unmatched or respelled. */
  lemma {:induction false} AbsentSplits(xs: seq<Symbol>, reference: set<Symbol>)
    ensures |Absent(xs, reference)| == |Unmatched(xs, reference)| + |Respelled(xs, reference)|
  {
    if xs != [] {
      AbsentSplits(xs[1..], reference);
    }
  }

  /** The number of symbols that only seemed missing: absent under their
      listed spelling but found under an alternate one. */
  function ConsolidatedCount(allTickers: seq<Symbol>, reference: set<Symbol>): (n: int)
    ensures 0 <= n <= |Absent(allTickers, reference)|
    ensures n == |Respelled(allTickers, reference)|
  {
    AbsentSplits(allTickers, reference);
    |Absent(allTickers, reference)| - |CheckAlternateSpelling(allTickers, reference)|
  }

  // ---------------------------------------------------------------------
  // Dates in the YYYY-MM-DD form
  // ---------------------------------------------------------------------

  datatype Date = Date(year: int, month: int, day: int)

  predicate IsLeapYear(y: int) {
    y % 4 == 0 && (y % 100 != 0 || y % 400 == 0)
  }

  function DaysInMonth(y: int, m: int): int
    requires 1 <= m <= 12
  {
    if m == 2 then (if IsLeapYear(y) then 29 else 28)
    else if m == 4 || m == 6 || m == 9 || m == 11 then 30
    else 31
  }

  /** The dates a calendar date object can hold. */
  predicate ValidDate(d: Date) {
    1 <= d.year <= 9999 && 1 <= d.month <= 12 && 1 <= d.day <= DaysInMonth(d.year, d.month)
  }

  predicate AllDigits(s: string) {
    forall i :: 0 <= i < |s| ==> '0' <= s[i] <= '9'
  }

  function DigitChar(k: int): char
    requires 0 <= k < 10
  {
    ('0' as int + k) as char
  }

  function Pow10(k: nat): nat {
    if k == 0 then 1 else 10 * Pow10(k - 1)
  }

  /** `n` in decimal, zero-padded (or cut) to exactly `width` digits. */
  function PadDigits(n: nat, width: nat): (s: string)
    ensures |s| == width
    ensures AllDigits(s)
  {
    if width == 0 then [] else PadDigits(n / 10, width - 1) + [DigitChar(n % 10)]
  }

  /** The number a string of decimal digits denotes. */
  function DigitsValue(s: string): nat
    requires AllDigits(s)
  {
    if s == [] then 0 else DigitsValue(s[..|s| - 1]) * 10 + (s[|s| - 1] as int - '0' as int)
  }

  /** Padding loses nothing when the number fits the width. */
  lemma {:induction false} PadDigitsValue(n: nat, width: nat)
    requires n < Pow10(width)
    ensures DigitsValue(PadDigits(n, width)) == n
  {
    if width > 0 {
      PadDigitsValue(n / 10, width - 1);
      var s := PadDigits(n, width);
      assert s[..|s| - 1] == PadDigits(n / 10, width - 1);
    }
  }

  /** The date as `strftime("%Y-%m-%d")` writes it. */
  function FormatIso(d: Date): (s: string)
    requires ValidDate(d)
    ensures |s| == 10 && s[4] == '-' && s[7] == '-'
  {
    PadDigits(d.year, 4) + "-" + PadDigits(d.month, 2) + "-" + PadDigits(d.day, 2)
  }

  /** The formatted date reads back as the same year, month and day. */
  lemma FormatIsoDecodes(d: Date)
    requires ValidDate(d)
    ensures var s := FormatIso(d);
      && AllDigits(s[..4]) && AllDigits(s[5..7]) && AllDigits(s[8..])
      && DigitsValue(s[..4]) == d.year
      && DigitsValue(s[5..7]) == d.month
      && DigitsValue(s[8..]) == d.day
  {
    var s := FormatIso(d);
    assert s[..4] == PadDigits(d.year, 4);
    assert s[5..7] == PadDigits(d.month, 2);
    assert s[8..] == PadDigits(d.day, 2);
    assert Pow10(4) == 10000 && Pow10(2) == 100;
    PadDigitsValue(d.year, 4);
    PadDigitsValue(d.month, 2);
    PadDigitsValue(d.day, 2);
  }

  // ---------------------------------------------------------------------
  // Placeholder rows (add_missing_tickers)
  // ---------------------------------------------------------------------

  /** The row added for a symbol the reference table lacks: the symbol, a
      missing name and type, and today's date as `YYYY-MM-DD`. */
  function Placeholder(symbol: Symbol, today: Date): (row: TickerRecord)
    requires ValidDate(today)
    ensures row.symbol == symbol && row.name == Missing && row.assetType == Missing
    ensures |row.date| == 10 && row.date[4] == '-' && row.date[7] == '-'
    ensures AllDigits(row.date[..4]) && DigitsValue(row.date[..4]) == today.year
    ensures AllDigits(row.date[5..7]) && DigitsValue(row.date[5..7]) == today.month
    ensures AllDigits(row.date[8..]) && DigitsValue(row.date[8..]) == today.day
  {
    FormatIsoDecodes(today);
    TickerRecord(symbol, Missing, FormatIso(today), Missing)
  }

  /** The reference table followed by one placeholder row per symbol to add. */
  function AddMissingTickers(tickersToAdd: seq<Symbol>, table: seq<TickerRecord>, today: Date): (combined: seq<TickerRecord>)
    requires ValidDate(today)
    ensures |combined| == |table| + |tickersToAdd|
    ensures combined[..|table|] == table
    ensures forall i :: |table| <= i < |combined| ==>
      && combined[i].symbol == tickersToAdd[i - |table|]
      && combined[i].name == Missing
      && combined[i].assetType == Missing
      && combined[i].date == FormatIso(today)
  {
    table + seq(|tickersToAdd|, i requires 0 <= i < |tickersToAdd| => Placeholder(tickersToAdd[i], today))
  }
}
