/** Small datatypes and functions shared by all components. */
module Util {

  datatype Option<+T> = None | Some(value: T)

  type byte = x: int | 0 <= x < 256

  function Flatten<T>(parts: seq<seq<T>>): seq<T> {
    if parts == [] then [] else parts[0] + Flatten(parts[1..])
  }

  lemma {:induction false} FlattenSnoc<T>(parts: seq<seq<T>>, last: seq<T>)
    ensures Flatten(parts + [last]) == Flatten(parts) + last
  {
    if parts == [] {
      assert ([last])[1..] == [];
    } else {
      assert (parts + [last])[1..] == parts[1..] + [last];
      FlattenSnoc(parts[1..], last);
    }
  }

  /** The same element, `n` times. */
  function Repeated<T>(x: T, n: nat): (s: seq<T>)
    ensures |s| == n
  {
    seq(n, _ => x)
  }
}
