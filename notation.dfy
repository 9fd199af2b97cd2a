/** Shared vocabulary: results with the failures the filters can raise, and
    the shape of a pairing table built from a dot-bracket string. */
module Notation {

  datatype Option<+T> = None | Some(value: T)

  /** The exceptions the program can raise, one constructor per cause. */
  datatype Error =
    | UnmatchedClose(at: nat)    // a `)` met an empty stack: stack.pop() fails
    | ConfidenceRowCount         // the confidence rows do not number `length`
    | BadConfidenceField         // a scanned confidence field is not a number
    | BadReactivityToken         // a signed reactivity token is not a number
    | TooManyReactivities        // more signed tokens than `length` slots
    | PairBeyondReactivities     // a paired position has no reactivity slot

  datatype Result<+T> = Ok(value: T) | Err(error: Error)

  /** Every entry opens before it closes, inside a string of length n. */
  ghost predicate PairTable(pm: map<nat, nat>, n: nat)
  {
    forall k :: k in pm ==> k < pm[k] < n
  }

  /** Every position belongs to at most one pair. */
  ghost predicate OnePairEach(pm: map<nat, nat>)
  {
    && (forall a, b :: a in pm && b in pm && pm[a] == pm[b] ==> a == b)
    && (forall a, b :: a in pm && b in pm ==> a != pm[b])
  }

  /** t is s with some characters turned into `.`: a filter never inserts,
      deletes or rewrites anything else. */
  ghost predicate OnlyDots(s: string, t: string)
  {
    |t| == |s| && forall x :: 0 <= x < |s| ==> t[x] == s[x] || t[x] == '.'
  }

  predicate IsDigit(c: char)
  {
    '0' <= c <= '9'
  }

  function DigitValue(c: char): nat
    requires IsDigit(c)
  {
    c as int - '0' as int
  }

  lemma OnlyDotsTransitive(s: string, t: string, u: string)
    requires OnlyDots(s, t) && OnlyDots(t, u)
    ensures OnlyDots(s, u)
  {
  }
}
