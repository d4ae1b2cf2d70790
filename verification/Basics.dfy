/** Types and facts that all parts share. */
module Basics {



  type byte = x: int | 0 <= x < 256

  datatype Option<+T> = None | Some(value: T)

  const PAGE_SIZE := 4096

  lemma Associate<T>(a: seq<T>, b: seq<T>, c: seq<T>)
    ensures a + b + c == a + (b + c)
  {
  }
}
