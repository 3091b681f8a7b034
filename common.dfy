/** Small building blocks shared by the subtitle model. */
module Common {

  /** The conventional optional value; a parser returns None on malformed input. */
  datatype Option<T> = None | Some(value: T)

  /** Flattens a sequence of sequences, keeping the order of the parts. */
  function Concat<T>(parts: seq<seq<T>>): seq<T>
  {
    if parts == [] then [] else parts[0] + Concat(parts[1..])
  }

  function Min(a: int, b: int): int
  {
    if a <= b then a else b
  }
}
