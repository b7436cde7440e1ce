/** Bytes and the optional values shared by all parts of the model. */
module Common {

  type byte = b: int | 0 <= b < 256

  type Bytes = seq<byte>

  datatype Option<+T> = None | Some(value: T)

  /** `n` bytes, all zero. */
  function Zeros(n: nat): (r: Bytes)
    ensures |r| == n
    ensures forall i :: 0 <= i < n ==> r[i] == 0
  {
    seq(n, i => 0)
  }

  function Min(a: nat, b: nat): nat {
    if a <= b then a else b
  }

  predicate EndsWith<T(==)>(all: seq<T>, tail: seq<T>) {
    |tail| <= |all| && all[|all| - |tail|..] == tail
  }

  lemma EndsWithMore<T>(all: seq<T>, tail: seq<T>, x: T)
    ensures EndsWith(all, tail) ==> EndsWith(all + [x], tail + [x])
    ensures EndsWith(all + [x], [x])
  {
  }

  lemma EndsWithNothing<T>(all: seq<T>)
    ensures EndsWith(all, [])
  {
  }
}
