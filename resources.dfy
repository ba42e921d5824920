/**
 * The shared resource pool that unit purchases are paid from. The balance
 * is the value of the cost slider; the manager only checks and debits it
 * and announces the new whole-number balance to its listeners.
 */
module Resources {

  /** C#'s `(int)` conversion of a floating-point value: truncation toward zero. */
  function Truncate(v: real): (n: int)
    ensures 0.0 <= v ==> n as real <= v < n as real + 1.0
    ensures v < 0.0 ==> n as real - 1.0 < v <= n as real
  {
    if v >= 0.0 then v.Floor else -((-v).Floor)
  }

  /** Truncation never moves a value away from zero. */
  lemma TruncateTowardZero(v: real)
    ensures 0.0 <= v ==> 0 <= Truncate(v)
    ensures v <= 0.0 ==> Truncate(v) <= 0
    ensures -1.0 < v < 1.0 ==> Truncate(v) == 0
  {
  }

  class ResourceManager {
    /** Whether a cost slider is attached (`costSlider != null`). */
    var hasSlider: bool
    /** The slider's current value: the balance. */
    var balance: real
    /** Every value passed to `onResourcesChanged`, oldest first. */
    var announced: seq<int>

    constructor(hasSlider: bool, balance: real)
      ensures this.hasSlider == hasSlider && this.balance == balance
      ensures announced == []
    {
      this.hasSlider := hasSlider;
      this.balance := balance;
      announced := [];
    }

    /** Affordability test: true iff a slider is attached and holds at least `amount`. */
    predicate Affordable(amount: int)
      reads this
    {
      hasSlider && balance >= amount as real
    }

    /** CanSpendResources: a query that changes nothing. */
    method CanSpendResources(amount: int) returns (ok: bool)
      ensures ok <==> hasSlider && balance >= amount as real
      ensures ok ==> amount as real <= balance
      ensures !hasSlider ==> !ok
    {
      ok := hasSlider && balance >= amount as real;
    }

    /**
     * SpendResources: when affordable, debits exactly `amount`, announces
     * the truncated new balance and reports success; otherwise reports
     * failure and changes nothing.
     */
    method SpendResources(amount: int) returns (ok: bool)
      modifies this
      ensures ok <==> old(Affordable(amount))
      ensures hasSlider == old(hasSlider)
      ensures !ok ==> balance == old(balance) && announced == old(announced)
      ensures ok ==> balance == old(balance) - amount as real
      ensures ok ==> announced == old(announced) + [Truncate(balance)]
      ensures ok && amount >= 0 ==> 0.0 <= balance <= old(balance)
    {
      var affordable := CanSpendResources(amount);
      if !affordable {
        return false;
      }
      balance := balance - amount as real;
      announced := announced + [Truncate(balance)];
      ok := true;
    }

    /** GetCurrentResources: zero without a slider, else the truncated balance. */
    method GetCurrentResources() returns (r: int)
      ensures !hasSlider ==> r == 0
      ensures hasSlider && balance >= 0.0 ==> r as real <= balance < r as real + 1.0
      ensures hasSlider && balance < 0.0 ==> r as real - 1.0 < balance <= r as real
      ensures hasSlider ==> r == Truncate(balance)
    {
      r := if hasSlider then Truncate(balance) else 0;
    }
  }
}
