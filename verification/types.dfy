/** Small value types shared by the quiz screen and the wrong-answer list. */
module Types {

  /** A value that may be absent; stands for the `null` initial value of a React state slot. */
  datatype Option<T> = None | Some(value: T)

  /** The two answer buttons, and the `OX` answer type of the wrong-answer list. */
  datatype OX = O | X

  /** The string literal a choice is written as: `"O"` or `"X"`. */
  function Symbol(c: OX): (s: string)
    ensures |s| == 1
    ensures s[0] != '_'
    ensures c == O <==> s == "O"
    ensures c == X <==> s == "X"
  {
    match c
    case O => "O"
    case X => "X"
  }

  /** No value occurs twice in `a`. */
  predicate Distinct<T(==)>(a: seq<T>)
  {
    forall i, j :: 0 <= i < j < |a| ==> a[i] != a[j]
  }
}
