/** The rule-based retry of the stock predictor (`StockPredictionMain.py`):
    a knowledge base of flags, one per rule tried, the `betterPrediction`
    rules that choose how many previous days to re-process from the flags,
    and the loop that tries the rules in turn until the prediction is
    within tolerance. Re-processing itself (reading the CSV file, the
    regression, building and searching the tree) is outside the model: it
    is the parameter `differenceFor`, the price difference that
    re-processing a given number of days yields. */
module StockPredictionMain {
  import opened Base

  /** `IndexError` of a list index out of range; `NoApplicableMethods`
      when no rule of the generic function `betterPrediction` matches. */
  datatype RuleError = IndexError | NoApplicableMethods

  /** `numRules`: the rules of the knowledge base. */
  const NumRules: nat := 3

  /** 1 for a set flag, 0 otherwise. */
  function Bit(b: bool): nat
  {
    if b then 1 else 0
  }

  /** `betterPrediction(try1, try2, try3)`: rule 1 fires on (T, F, F) and
      re-processes 10 days, rule 2 on (T, T, F) with 20 days, rule 3 on
      (T, T, T) with 30 days; any other combination matches no rule. */
  function BetterPrediction(try1: bool, try2: bool, try3: bool): (r: Result<nat, RuleError>)
    ensures r.Ok? <==> try1 && (try3 ==> try2)
    ensures r.Ok? ==> r.value == 10 * (Bit(try1) + Bit(try2) + Bit(try3))
    ensures r.Err? ==> r.error == NoApplicableMethods
  {
    if try1 && !try2 && !try3 then Ok(10)
    else if try1 && try2 && !try3 then Ok(20)
    else if try1 && try2 && try3 then Ok(30)
    else Err(NoApplicableMethods)
  }

  /** The position a Python index `n` names in a list of `len` items:
      negative indexes count from the end. */
  function PyIndex(n: int, len: nat): (r: Option<nat>)
    ensures r.Some? <==> -(len as int) <= n < len
    ensures r.Some? ==> r.value < len && (r.value == n || r.value == n + len)
  {
    if 0 <= n < len then Some(n)
    else if -(len as int) <= n < 0 then Some(n + len)
    else None
  }

  /** `tryRule(n)` on the flags `kb`: what it returns, and the flags
      afterwards. `KB[n] = True` fails on a bad index before changing
      anything; `betterPrediction` then reads the first three flags. */
  function Fire(kb: seq<bool>, n: int): (seq<bool>, Result<nat, RuleError>)
  {
    match PyIndex(n, |kb|)
    case None => (kb, Err(IndexError))
    case Some(i) =>
      var kb' := kb[i := true];
      (kb', if |kb'| < 3 then Err(IndexError) else BetterPrediction(kb'[0], kb'[1], kb'[2]))
  }

  /** The flags after the first `k` rules were tried. */
  function Tried(k: nat): (kb: seq<bool>)
    ensures |kb| == NumRules
  {
    seq(NumRules, i => i < k)
  }

  /** With the rules before `k` tried, trying rule `k` fires rule `k + 1`,
      which re-processes `10 * (k + 1)` days. */
  lemma FireNext(k: nat)
    requires k < NumRules
    ensures Fire(Tried(k), k) == (Tried(k + 1), Ok(10 * (k + 1)))
  {
    var kb' := Tried(k)[k := true];
    assert kb' == Tried(k + 1);
    assert Bit(kb'[0]) + Bit(kb'[1]) + Bit(kb'[2]) == k + 1;
  }

  /** What the retry loop ends with. */
  datatype Outcome = Outcome(difference: real, tries: nat)

  /** The retry loop from try number `tryNum` on, with the flags `kb` and
      the last difference `diff`: it tries rules while the difference is
      above the tolerance and fewer than three were tried; a rule that
      raises ends it with that error. Also gives the flags afterwards. */
  function Retry(kb: seq<bool>, tolerance: real, diff: real, tryNum: nat, differenceFor: nat -> real): (seq<bool>, Result<Outcome, RuleError>)
    decreases 3 - tryNum
  {
    if diff > tolerance && tryNum < 3 then
      var (kb', r) := Fire(kb, tryNum);
      if r.Err? then (kb', Err(r.error))
      else Retry(kb', tolerance, differenceFor(r.value), tryNum + 1, differenceFor)
    else (kb, Ok(Outcome(diff, tryNum)))
  }

  /** Started on a knowledge base where exactly the rules before `k` were
      tried, the loop never fails; it tries the rules from `k` on, in
      order, each re-processing ten more days, and stops at the first
      difference within tolerance or after the third rule. */
  lemma {:induction false} RetryTried(k: nat, tolerance: real, diff: real, differenceFor: nat -> real)
    requires k <= NumRules
    ensures Retry(Tried(k), tolerance, diff, k, differenceFor).1.Ok?
    ensures var (kb, r) := Retry(Tried(k), tolerance, diff, k, differenceFor);
      var o := r.value;
      k <= o.tries <= 3 && kb == Tried(o.tries) &&
      (o.tries == k ==> o.difference == diff) &&
      (o.tries > k ==> diff > tolerance && o.difference == differenceFor(10 * o.tries)) &&
      (o.tries < 3 ==> o.difference <= tolerance) &&
      (forall j :: k < j < o.tries ==> differenceFor(10 * j) > tolerance)
    decreases 3 - k
  {
    if diff > tolerance && k < 3 {
      FireNext(k);
      RetryTried(k + 1, tolerance, differenceFor(10 * (k + 1)), differenceFor);
    }
  }

  /** The loop run right after a reset: rules 1, 2 and 3 in that order
      (10, 20 and 30 days), stopping at the first result within tolerance,
      after at most three tries. */
  lemma RetryAfterReset(tolerance: real, diff: real, differenceFor: nat -> real)
    ensures var (kb, r) := Retry(seq(NumRules, _ => false), tolerance, diff, 0, differenceFor);
      r.Ok? && r.value.tries <= 3 && kb == Tried(r.value.tries) &&
      (r.value.tries == 0 <==> diff <= tolerance) &&
      (r.value.tries > 0 ==> r.value.difference == differenceFor(10 * r.value.tries)) &&
      (r.value.tries < 3 ==> r.value.difference <= tolerance) &&
      (forall j :: 0 < j < r.value.tries ==> differenceFor(10 * j) > tolerance)
  {
    assert seq(NumRules, _ => false) == Tried(0);
    RetryTried(0, tolerance, diff, differenceFor);
  }

  /** `Rule_Based`: the knowledge base `KB`, one flag per rule. */
  class RuleBased {
    var KB: seq<bool>

    /** `Rule_Based(numRules)`: `numRules` false flags (none for a
        negative count, as `[False] * n` gives). */
    constructor (numRules: int)
      ensures KB == seq(if numRules < 0 then 0 else numRules, _ => false)
    {
      KB := seq(if numRules < 0 then 0 else numRules, _ => false);
    }

    /** `reset()`: every flag false, the length kept. */
    method Reset()
      modifies this`KB
      ensures |KB| == |old(KB)| && forall i :: 0 <= i < |KB| ==> !KB[i]
    {
      KB := seq(|KB|, _ => false);
    }

    /** `tryRule(n)`: sets flag `n` (and no other) and asks the rules what
        to re-process. */
    method TryRule(n: int) returns (r: Result<nat, RuleError>)
      modifies this`KB
      ensures (KB, r) == Fire(old(KB), n)
      ensures |KB| == |old(KB)|
      ensures forall i :: 0 <= i < |KB| && KB[i] != old(KB)[i] ==> PyIndex(n, |KB|) == Some(i)
    {
      match PyIndex(n, |KB|)
      case None =>
        return Err(IndexError);
      case Some(i) =>
        KB := KB[i := true];
        if |KB| < 3 {
          return Err(IndexError);
        }
        r := BetterPrediction(KB[0], KB[1], KB[2]);
    }
  }

  /** The retry loop of the driver: while the difference `tempTodaysDifference`
      is above the tolerance and fewer than three rules were tried, try rule
      `try_num` and take the difference its re-processing yields. */
  method RetryLoop(rules: RuleBased, tolerance: real, todaysDifference: real, differenceFor: nat -> real)
    returns (r: Result<Outcome, RuleError>)
    modifies rules`KB
    ensures (rules.KB, r) == Retry(old(rules.KB), tolerance, todaysDifference, 0, differenceFor)
  {
    var diff := todaysDifference;
    var tryNum: nat := 0;
    while diff > tolerance && tryNum < 3
      invariant tryNum <= 3
      invariant Retry(rules.KB, tolerance, diff, tryNum, differenceFor)
             == Retry(old(rules.KB), tolerance, todaysDifference, 0, differenceFor)
      decreases 3 - tryNum
    {
      var days := rules.TryRule(tryNum);
      if days.Err? {
        return Err(days.error);
      }
      diff := differenceFor(days.value);
      tryNum := tryNum + 1;
    }
    return Ok(Outcome(diff, tryNum));
  }
}
