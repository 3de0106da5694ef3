/**
 * The score display's bookkeeping: a pending addition (a 32-bit integer)
 * collected by `Add` and flushed into the 64-bit unsigned total.
 */
module Scoring {
  import opened Strings

  const TwoTo31: int := 0x8000_0000
  const TwoTo32: int := 0x1_0000_0000
  const TwoTo64: int := 0x1_0000_0000_0000_0000

  predicate IsInt32(n: int) {
    -TwoTo31 <= n < TwoTo31
  }

  /** Two's-complement wrap-around of C#'s unchecked `int` addition. */
  function Wrap32(n: int): (r: int)
    ensures IsInt32(r)
    ensures (n - r) % TwoTo32 == 0
    ensures IsInt32(n) ==> r == n
  {
    var m := (n + TwoTo31) % TwoTo32;
    assert n + TwoTo31 == TwoTo32 * ((n + TwoTo31) / TwoTo32) + m;
    m - TwoTo31
  }

  /** The unchecked cast `(ulong)n` of an `int`: a negative value wraps to 2^64 + n. */
  function ToUlong(n: int): (r: nat)
    requires IsInt32(n)
    ensures r < TwoTo64
    ensures n >= 0 ==> r == n
    ensures n < 0 ==> r == TwoTo64 + n
  {
    n % TwoTo64
  }

  /** The text of the pending addition: `"+"` before a positive amount, the plain decimal otherwise. */
  function Label(n: int): (s: string)
    ensures n > 0 ==> |s| >= 2 && s[0] == '+' && IsDigits(s[1..]) && ParseNat(s[1..]) == n
    ensures n == 0 ==> s == "0"
    ensures n < 0 ==> |s| >= 2 && s[0] == '-' && IsDigits(s[1..]) && ParseNat(s[1..]) == -n
  {
    ParseNatToString(if n < 0 then -n else n);
    if n > 0 then
      var s := "+" + IntToString(n);
      assert s[1..] == NatToString(n);
      s
    else
      var s := IntToString(n);
      assert n < 0 ==> s[1..] == NatToString(-n);
      s
  }

  /** The pending amount after adding each of `amounts` in turn, with 32-bit wrap-around. */
  function Pending(start: int, amounts: seq<int>): int {
    if |amounts| == 0 then start else Wrap32(Pending(start, amounts[..|amounts| - 1]) + amounts[|amounts| - 1])
  }

  function Total(amounts: seq<int>): int {
    if |amounts| == 0 then 0 else Total(amounts[..|amounts| - 1]) + amounts[|amounts| - 1]
  }

  /** Every running total `start + a1 + ... + ak` fits an `int`. */
  predicate NoOverflow(start: int, amounts: seq<int>) {
    forall k :: 0 <= k <= |amounts| ==> IsInt32(start + Total(amounts[..k]))
  }

  /** Without overflow, the pending amount is the start plus the sum of the additions. */
  lemma {:induction false} PendingIsSum(start: int, amounts: seq<int>)
    requires NoOverflow(start, amounts)
    ensures Pending(start, amounts) == start + Total(amounts)
  {
    if |amounts| > 0 {
      var init := amounts[..|amounts| - 1];
      assert NoOverflow(start, init) by {
        forall k | 0 <= k <= |init| ensures IsInt32(start + Total(init[..k])) {
          assert init[..k] == amounts[..k];
        }
      }
      PendingIsSum(start, init);
      assert amounts[..|amounts|] == amounts;
    }
  }

  /** A flush of a non-negative pending amount that does not overflow the total adds exactly that amount. */
  lemma FlushAdds(score: nat, pending: int)
    requires IsInt32(pending) && 0 <= pending && score + pending < TwoTo64
    ensures (score + ToUlong(pending)) % TwoTo64 == score + pending
  {
  }

  /** A negative pending amount is added as a huge unsigned value: the total drops by its magnitude, modulo 2^64. */
  lemma FlushNegative(score: nat, pending: int)
    requires IsInt32(pending) && pending < 0 && score < TwoTo64 && score + pending >= 0
    ensures (score + ToUlong(pending)) % TwoTo64 == score + pending
  {
  }

  /**
   * Adding `a1 ... an` to an empty pending amount and flushing once raises the
   * total by exactly their sum, when no running sum overflows and the sum is not negative.
   */
  lemma {:induction false} AddsThenFlush(score: nat, amounts: seq<int>)
    requires |amounts| > 0 && NoOverflow(0, amounts)
    requires Total(amounts) >= 0 && score + Total(amounts) < TwoTo64
    ensures IsInt32(Pending(0, amounts))
    ensures (score + ToUlong(Pending(0, amounts))) % TwoTo64 == score + Total(amounts)
  {
    PendingIsSum(0, amounts);
    assert amounts[..|amounts|] == amounts;
    FlushAdds(score, Pending(0, amounts));
  }

  /** `Score`: the total and the pending addition. */
  class Score {
    /** `score`, a `ulong`. */
    var score: nat
    /** `shownAddition`, an `int`. */
    var shownAddition: int

    ghost predicate Valid()
      reads this
    {
      score < TwoTo64 && IsInt32(shownAddition)
    }

    constructor ()
      ensures Valid() && score == 0 && shownAddition == 0
    {
      score := 0;
      shownAddition := 0;
    }

    /** `Add`: grows the pending addition by `amount` and returns `amount`; the total is untouched. */
    method Add(amount: int) returns (r: int)
      requires Valid() && IsInt32(amount)
      modifies this`shownAddition
      ensures Valid()
      ensures r == amount
      ensures shownAddition == Wrap32(old(shownAddition) + amount)
    {
      shownAddition := Wrap32(shownAddition + amount);
      return amount;
    }

    /** The text shown beside the total. */
    function AdditionLabel(): string
      reads this
    {
      Label(shownAddition)
    }

    /** `HideAddition`: moves the pending amount into the total and clears it. */
    method HideAddition()
      requires Valid()
      modifies this
      ensures Valid()
      ensures score == (old(score) + ToUlong(old(shownAddition))) % TwoTo64
      ensures shownAddition == 0
    {
      score := (score + ToUlong(shownAddition)) % TwoTo64;
      shownAddition := 0;
    }

    function TotalScore(): (total: nat)
      requires Valid()
      reads this
      ensures total < TwoTo64
    {
      score
    }
  }
}
