/** A minimal model of a pandas data frame: a row count and a map from
    column label to a column of optional floating-point cells. */
module Frames {
  import opened Wrappers

  /** Column labels. Every label the script refers to by name is a
      constructor; `Other` carries any other label a download brings (such as
      "Open"), never one of the named ones. */
  datatype Label =
    | Close | High | Low | Volume
    | Rsi | Macd | MacdSignal | Sma10 | Ema10 | Momentum
    | BbBbm | BbBbh | BbBbl | BbBandwidth
    | Atr | Cci | Adx | Roc
    | Other(name: string)

  /** The label's text, as the script spells it. */
  function Text(l: Label): string {
    match l
    case Close => "Close"
    case High => "High"
    case Low => "Low"
    case Volume => "Volume"
    case Rsi => "RSI"
    case Macd => "MACD"
    case MacdSignal => "MACD_Signal"
    case Sma10 => "SMA_10"
    case Ema10 => "EMA_10"
    case Momentum => "Momentum"
    case BbBbm => "bb_bbm"
    case BbBbh => "bb_bbh"
    case BbBbl => "bb_bbl"
    case BbBandwidth => "bb_bandwidth"
    case Atr => "atr"
    case Cci => "cci"
    case Adx => "adx"
    case Roc => "roc"
    case Other(name) => name
  }

  /** One cell; `None` stands for NaN (a missing or non-finite value). */
  type Cell = Option<real>

  type Column = seq<Cell>

  datatype Table = Table(rows: nat, cols: map<Label, Column>)

  /** A data frame: every column has exactly one cell per row. */
  type Frame = t: Table | forall c :: c in t.cols ==> |t.cols[c]| == t.rows
    witness Table(0, map[])

  /** Each column name has a single label: no `Other` label spells one of
      the named labels. Frames from a download have this form. */
  ghost predicate WellLabelled(f: Frame) {
    forall c, l: Label :: c in f.cols && c.Other? && !l.Other? ==> c.name != Text(l)
  }

  /** `df.empty`: no rows or no columns. */
  predicate IsEmpty(f: Frame) {
    f.rows == 0 || |f.cols| == 0
  }

  /** A series aligned on the frame's index, as pandas does when a series is
      assigned to a column: cells past the series' end become NaN. */
  function Align(s: Column, n: nat): (r: Column)
    ensures |r| == n
    ensures forall i :: 0 <= i < n ==> r[i] == (if i < |s| then s[i] else None)
    ensures |s| == n ==> r == s
  {
    seq(n, i requires 0 <= i < n => if i < |s| then s[i] else None)
  }

  /** `df[name] = s`: adds or overwrites one column, leaving the others. */
  function SetColumn(f: Frame, name: Label, s: Column): (g: Frame)
    ensures g.rows == f.rows
    ensures g.cols.Keys == f.cols.Keys + {name}
    ensures g.cols[name] == Align(s, f.rows)
    ensures forall c :: c in f.cols && c != name ==> g.cols[c] == f.cols[c]
  {
    Table(f.rows, f.cols[name := Align(s, f.rows)])
  }

  /** The column `df[col] = 0` creates. */
  function Zeros(n: nat): (r: Column)
    ensures |r| == n
    ensures forall i :: 0 <= i < n ==> r[i] == Some(0.0)
  {
    seq(n, _ => Some(0.0))
  }

  /** `fillna(0)` on one column: present cells are kept, missing ones
      become zero. */
  function FillNa(s: Column): (r: seq<real>)
    ensures |r| == |s|
    ensures forall i :: 0 <= i < |s| && s[i].Some? ==> r[i] == s[i].value
    ensures forall i :: 0 <= i < |s| && s[i].None? ==> r[i] == 0.0
  {
    seq(|s|, i requires 0 <= i < |s| => if s[i].Some? then s[i].value else 0.0)
  }

  /** `Series.diff(k)`: the difference with the cell k rows earlier; NaN in
      the first k rows and wherever either operand is NaN. */
  function Diff(s: Column, k: nat): (r: Column)
    ensures |r| == |s|
    ensures forall t :: 0 <= t < |s| ==> (r[t].Some? <==> t >= k && s[t].Some? && s[t - k].Some?)
    ensures forall t :: k <= t < |s| && r[t].Some? ==> s[t].Some? && s[t - k].Some? && s[t].value == s[t - k].value + r[t].value
  {
    seq(|s|, t requires 0 <= t < |s| =>
      if t >= k && s[t].Some? && s[t - k].Some? then Some(s[t].value - s[t - k].value) else None)
  }

  /** Element-wise subtraction of two columns of one frame, NaN-propagating. */
  function Minus(a: Column, b: Column): (r: Column)
    requires |a| == |b|
    ensures |r| == |a|
    ensures forall t :: 0 <= t < |a| ==> (r[t].Some? <==> a[t].Some? && b[t].Some?)
    ensures forall t :: 0 <= t < |a| && r[t].Some? ==> a[t].Some? && b[t].Some? && a[t].value == b[t].value + r[t].value
  {
    seq(|a|, t requires 0 <= t < |a| =>
      if a[t].Some? && b[t].Some? then Some(a[t].value - b[t].value) else None)
  }
}
