/** Optional values and lists: what results and programs are made of. */
module Lists {

  datatype Option<+T> = None | Some(value: T)

  datatype List<+T> = Nil | Cons(head: T, tail: List<T>) {
    function Length(): nat {
      if Nil? then 0 else 1 + tail.Length()
    }
  }

  function Concat<T>(a: List<T>, b: List<T>): List<T> {
    if a.Nil? then b else Cons(a.head, Concat(a.tail, b))
  }
}
