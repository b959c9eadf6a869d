/** Finite lists: what is coded, one decision after the other. */
module Lists {

  datatype List<+T> = Nil | Cons(head: T, tail: List<T>)

  function Append<T>(a: List<T>, b: List<T>): List<T>
  {
    match a
    case Nil => b
    case Cons(x, rest) => Cons(x, Append(rest, b))
  }

  lemma {:induction false} AppendNil<T>(a: List<T>)
    ensures Append(a, Nil) == a
  {
    match a
    case Nil =>
    case Cons(_, rest) => AppendNil(rest);
  }
}
