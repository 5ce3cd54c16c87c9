/** The recommendation shown for one ticker: the classifier's class as a
    trading signal, or the reason there is none. */
module Signals {

  /** A recommendation. */
  datatype Signal =
    | Buy
    | Hold
    | Sell
    | Insufficient
    | Failed(message: string)

  /** The class predicted by the classifier as a signal: 2 buys, 1 holds and
      every other class sells. */
  function SignalOf(pred: int): (s: Signal)
    ensures s == Buy <==> pred == 2
    ensures s == Hold <==> pred == 1
    ensures s == Sell <==> pred != 2 && pred != 1
  {
    if pred == 2 then Buy
    else if pred == 1 then Hold
    else Sell
  }

  /** A signal is a classifier verdict, as opposed to a missing recommendation. */
  predicate IsVerdict(s: Signal) {
    s.Buy? || s.Hold? || s.Sell?
  }

  /** Every class has a verdict; no class is read as too little data or as
      an error. */
  lemma SignalOfIsVerdict(pred: int)
    ensures IsVerdict(SignalOf(pred))
    ensures !SignalOf(pred).Insufficient? && !SignalOf(pred).Failed?
  {
  }

  /** Every verdict is the signal of some class. */
  lemma SignalOfOnto(s: Signal)
    requires IsVerdict(s)
    ensures SignalOf(if s == Buy then 2 else if s == Hold then 1 else 0) == s
  {
  }

  /** The prefix of an error recommendation. */
  const ErrorPrefix: string := "⚠️ Error: "

  /** The recommendation as the dashboard writes it. */
  function Text(s: Signal): (t: string)
    ensures s.Failed? ==> |t| == |ErrorPrefix| + |s.message| && t[..|ErrorPrefix|] == ErrorPrefix && t[|ErrorPrefix|..] == s.message
  {
    match s
    case Buy => "📈 Comprar"
    case Hold => "➖ Mantener"
    case Sell => "🔻 Vender"
    case Insufficient => "❌ Datos insuficientes"
    case Failed(m) => ErrorPrefix + m
  }

  /** Each recommendation text begins with its own symbol; the error text
      begins with the warning sign. */
  lemma TextHead(s: Signal)
    ensures |Text(s)| > 0
    ensures Text(s)[0] == match s
      case Buy => '📈'
      case Hold => '➖'
      case Sell => '🔻'
      case Insufficient => '❌'
      case Failed(_) => '⚠'
  {
    if s.Failed? {
      assert Text(s)[0] == ErrorPrefix[0];
    }
  }

  /** Distinct recommendations are written differently, so the text is
      enough to tell what the dashboard recommends, and an error text gives
      back the classifier's message. */
  lemma {:induction false} TextInjective(a: Signal, b: Signal)
    requires Text(a) == Text(b)
    ensures a == b
  {
    TextHead(a);
    TextHead(b);
    if a.Failed? && b.Failed? {
      assert a.message == Text(a)[|ErrorPrefix|..];
    }
  }
}
