/** The twists offered between rounds: what kind of effect, its texts, and its letters. */
module Twists {
  import opened Wrappers

  /** `TwistType`: the eight effects a twist can have, in declaration order. */
  datatype TwistType = Replace | Destroy | AddCards | SlideUp | SlideRight | SlideLeft | SlideDown | MoreMulti

  /** The enum's underlying value: its position in the declaration. */
  function Ordinal(t: TwistType): (n: nat)
    ensures n < 8
  {
    match t
    case Replace => 0
    case Destroy => 1
    case AddCards => 2
    case SlideUp => 3
    case SlideRight => 4
    case SlideLeft => 5
    case SlideDown => 6
    case MoreMulti => 7
  }

  /** The enum value with underlying value `n`; any other integer names no variant. */
  function FromOrdinal(n: int): (t: Option<TwistType>)
    ensures t.Some? <==> 0 <= n < 8
  {
    if n == 0 then Some(Replace)
    else if n == 1 then Some(Destroy)
    else if n == 2 then Some(AddCards)
    else if n == 3 then Some(SlideUp)
    else if n == 4 then Some(SlideRight)
    else if n == 5 then Some(SlideLeft)
    else if n == 6 then Some(SlideDown)
    else if n == 7 then Some(MoreMulti)
    else None
  }

  /** There are exactly eight variants: the underlying values 0 to 7 name each of them once. */
  lemma EightVariants(t: TwistType, n: int)
    ensures FromOrdinal(Ordinal(t)) == Some(t)
    ensures 0 <= n < 8 ==> Ordinal(FromOrdinal(n).value) == n
  {
  }

  /** `Twist`: its type and texts are fixed at construction, its letters set afterwards. */
  class Twist {
    const kind: TwistType
    const title: string
    const description: string
    /** Null until `SetLetters`. */
    var firstLetter: Option<string>
    var secondLetter: Option<string>

    constructor (kind: TwistType, title: string, description: string)
      ensures this.kind == kind && this.title == title && this.description == description
      ensures firstLetter == None && secondLetter == None
    {
      this.kind := kind;
      this.title := title;
      this.description := description;
      firstLetter := None;
      secondLetter := None;
    }

    method SetLetters(first: Option<string>, second: Option<string>)
      modifies this
      ensures firstLetter == first && secondLetter == second
    {
      firstLetter := first;
      secondLetter := second;
    }
  }
}
