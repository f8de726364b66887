/** portfolio_optimizer/utils.py: relabelling ticker columns with the tickers' display names. */
module Utils {
  import opened Frames

  /**
    ticker_df.set_index("ticker")["name"].to_dict(): ticker to name; when a ticker is
    listed twice the later line wins, as in building a dict.
  */
  function NamesDict(holdings: seq<Holding>): map<string, string>
  {
    if |holdings| == 0 then map[]
    else
      var last := holdings[|holdings| - 1];
      NamesDict(holdings[..|holdings| - 1])[last.ticker := last.name]
  }

  /** A ticker is a key of the dict iff some holding has it, and it maps to the name of the last such holding. */
  lemma {:induction false} NamesDictSpec(holdings: seq<Holding>, t: string)
    ensures t in NamesDict(holdings) <==> exists i :: 0 <= i < |holdings| && holdings[i].ticker == t
    ensures t in NamesDict(holdings) ==>
      exists i :: 0 <= i < |holdings| && holdings[i].ticker == t && NamesDict(holdings)[t] == holdings[i].name &&
        forall k :: i < k < |holdings| ==> holdings[k].ticker != t
  {
    if |holdings| > 0 {
      var n := |holdings| - 1;
      var init := holdings[..n];
      NamesDictSpec(init, t);
      if holdings[n].ticker != t {
        if t in NamesDict(init) {
          var i :| 0 <= i < n && init[i].ticker == t && NamesDict(init)[t] == init[i].name &&
            forall k :: i < k < n ==> init[k].ticker != t;
          assert holdings[i] == init[i];
        }
        if exists i :: 0 <= i < |holdings| && holdings[i].ticker == t {
          var i :| 0 <= i < |holdings| && holdings[i].ticker == t;
          assert init[i] == holdings[i];
        }
      }
    }
  }

  function Relabel(column: string, names: map<string, string>): string
  {
    if column in names then names[column] else column
  }

  /**
    rename_ticker_columns_to_names: a new frame in which each column labelled with a
    ticker of the portfolio carries that ticker's name (the last one listed), and every
    other column keeps its label; columns keep their number and order, and the index
    and every cell are unchanged. The input, a value, is not modified.
  */
  function RenameTickerColumnsToNames(df: Frame, tickers: seq<Holding>): (r: Frame)
    ensures r.rows == df.rows && |r.columns| == |df.columns|
    ensures forall j :: 0 <= j < |df.columns| && (forall i :: 0 <= i < |tickers| ==> tickers[i].ticker != df.columns[j]) ==>
      r.columns[j] == df.columns[j]
    ensures forall j :: 0 <= j < |df.columns| && (exists i :: 0 <= i < |tickers| && tickers[i].ticker == df.columns[j]) ==>
      exists i :: 0 <= i < |tickers| && tickers[i].ticker == df.columns[j] && r.columns[j] == tickers[i].name &&
        forall k :: i < k < |tickers| ==> tickers[k].ticker != df.columns[j]
    ensures WellFormed(df) ==> WellFormed(r)
  {
    var names := NamesDict(tickers);
    var r := Frame(seq(|df.columns|, j requires 0 <= j < |df.columns| => Relabel(df.columns[j], names)), df.rows);
    assert forall j :: 0 <= j < |df.columns| ==> r.columns[j] == Relabel(df.columns[j], names);
    RelabelSpec(tickers, df.columns);
    r
  }

  lemma RelabelSpec(tickers: seq<Holding>, columns: seq<string>)
    ensures forall j :: 0 <= j < |columns| ==>
      (columns[j] !in NamesDict(tickers) <==> forall i :: 0 <= i < |tickers| ==> tickers[i].ticker != columns[j])
    ensures forall j :: 0 <= j < |columns| && columns[j] in NamesDict(tickers) ==>
      exists i :: 0 <= i < |tickers| && tickers[i].ticker == columns[j] && NamesDict(tickers)[columns[j]] == tickers[i].name &&
        forall k :: i < k < |tickers| ==> tickers[k].ticker != columns[j]
  {
    forall j | 0 <= j < |columns| {
      NamesDictSpec(tickers, columns[j]);
    }
  }
}
