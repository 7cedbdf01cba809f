/** The options of the ticker selection drop-down (ticker_options.py).

    The rows of the stored reference table arrive as a sequence of
    `TickerRecord`s (reading the table from disk is outside the model); each
    row yields one `{label, value}` option unless its label prints as a
    missing value. */
module TickerOptions {

  import opened StockTickers

  /** The asset type the reference service gives crypto-currencies. */
  const Crypto: string := "crypto"

  /** Appended to the display name of a crypto-currency. */
  const CryptoSuffix: string := " [CRYPTO]"

  /** One drop-down entry: its `label` (the text shown, held in `text` since
      `label` is a Dafny keyword) and its `value` (the symbol selected). */
  datatype DropdownOption = DropdownOption(text: string, value: Symbol)

  /** The label rule: the display name, marked when the asset is a
      crypto-currency, or the bare symbol when the name is missing. */
  function Label(r: TickerRecord): (text: string)
    ensures r.name != Missing && r.assetType != Crypto ==> text == r.name
    ensures r.name != Missing && r.assetType == Crypto ==> text == r.name + CryptoSuffix
    ensures r.name == Missing ==> text == r.symbol
    ensures text == Missing <==> r.name == Missing && r.symbol == Missing
  {
    if r.name == Missing then r.symbol
    else if r.assetType == Crypto then r.name + CryptoSuffix
    else r.name
  }

  /** A row is left out of the drop-down when its label is the missing value,
      which happens exactly when both its name and its symbol are missing. */
  predicate Skipped(r: TickerRecord)
    ensures Skipped(r) <==> Label(r) == Missing
  {
    r.name == Missing && r.symbol == Missing
  }

  /** The option a row yields: its label, and its symbol as the value. */
  function OptionFor(r: TickerRecord): (option: DropdownOption)
    ensures option.text == Label(r)
    ensures option.value == r.symbol
    ensures option.text == Missing <==> Skipped(r)
  {
    DropdownOption(Label(r), r.symbol)
  }

  /** The options of `records`: one per row that is not skipped, in row order. */
  function OptionsOf(records: seq<TickerRecord>): (options: seq<DropdownOption>)
    ensures |options| <= |records|
  {
    if records == [] then []
    else
      var last := records[|records| - 1];
      OptionsOf(records[..|records| - 1]) + (if Skipped(last) then [] else [OptionFor(last)])
  }

  /** The options of a non-empty run of rows: those of all rows but the last,
      then the last row's option unless it is skipped. */
  lemma OptionsOfLast(records: seq<TickerRecord>)
    requires records != []
    ensures OptionsOf(records) == OptionsOf(records[..|records| - 1]) +
      (if Skipped(records[|records| - 1]) then [] else [OptionFor(records[|records| - 1])])
  {
  }

  /** A sequence is the part before position `k`, the element at `k` and the
      part after it. */
  lemma SplitAt<T>(s: seq<T>, k: nat)
    requires k < |s|
    ensures s == s[..k] + [s[k]] + s[k + 1..]
  {
  }

  /** Every row that is not skipped has its option offered. */
  lemma RowOptionOffered(records: seq<TickerRecord>, k: nat)
    requires k < |records| && !Skipped(records[k])
    ensures OptionFor(records[k]) in OptionsOf(records)
  {
    var before, row, after := records[..k], [records[k]], records[k + 1..];
    SplitAt(records, k);
    OptionsOfAppend(before + row, after);
    OptionsOfAppend(before, row);
    OptionsOfLast(row);
    assert row[..0] == [];
  }

  /** Every offered option comes from a row that is not skipped: its label is
      that row's label and its value that row's symbol. */
  lemma {:induction false} OfferedOptionRow(records: seq<TickerRecord>, o: DropdownOption) returns (k: nat)
    requires o in OptionsOf(records)
    ensures k < |records| && !Skipped(records[k]) && o == OptionFor(records[k])
  {
    var n := |records| - 1;
    var init := records[..n];
    var tail := if Skipped(records[n]) then [] else [OptionFor(records[n])];
    OptionsOfLast(records);
    if o in OptionsOf(init) {
      k := OfferedOptionRow(init, o);
      assert init[k] == records[k];
    } else {
      assert o in tail;
      k := n;
    }
  }

  /** Options follow row order: the options of two consecutive runs of rows
      are the options of the first run followed by those of the second. */
  lemma {:induction false} OptionsOfAppend(a: seq<TickerRecord>, b: seq<TickerRecord>)
    ensures OptionsOf(a + b) == OptionsOf(a) + OptionsOf(b)
  {
    if b != [] {
      var init := b[..|b| - 1];
      OptionsOfAppend(a, init);
      assert (a + b)[..|a + b| - 1] == a + init;
    } else {
      assert a + b == a;
    }
  }

  /** Every row yields an option when none of them is skipped. */
  lemma {:induction false} OptionsOfNoneSkipped(records: seq<TickerRecord>)
    requires forall k :: 0 <= k < |records| ==> !Skipped(records[k])
    ensures |OptionsOf(records)| == |records|
  {
    if records != [] {
      var init := records[..|records| - 1];
      assert forall k :: 0 <= k < |init| ==> init[k] == records[k];
      OptionsOfNoneSkipped(init);
    }
  }

  /** A placeholder row added for a missing symbol is offered under its
      symbol, unless the symbol itself is the missing value. */
  lemma PlaceholderOption(symbol: Symbol, today: Date)
    requires ValidDate(today)
    ensures symbol != Missing ==> OptionsOf([Placeholder(symbol, today)]) == [DropdownOption(symbol, symbol)]
    ensures symbol == Missing ==> OptionsOf([Placeholder(symbol, today)]) == []
  {
    assert [Placeholder(symbol, today)][..0] == [];
  }

  /** Builds the drop-down options row by row, as the source's loop does. */
  method BuildTickerOptions(records: seq<TickerRecord>) returns (options: seq<DropdownOption>)
    ensures options == OptionsOf(records)
  {
    options := [];
    for i := 0 to |records|
      invariant options == OptionsOf(records[..i])
    {
      var stock := records[i];
      assert records[..i + 1][..i] == records[..i];
      var cond2 := stock.name != Missing;
      var cond1 := stock.name != Missing && stock.assetType != Crypto;
      var name := if cond1 then stock.name else if cond2 then stock.name + CryptoSuffix else stock.symbol;
      if name == Missing {
        continue;
      }
      options := options + [DropdownOption(name, stock.symbol)];
    }
    assert records[..|records|] == records;
  }
}
