/** Small building blocks shared by the models: an optional value and C#'s 32-bit `int`. */
module Primitives {

  /** A value that may be absent (C#'s `null` on a nullable reference or `T?`). */
  datatype Option<T> = None | Some(value: T)
  {
    /** `x ?? fallback` */
    function GetOr(fallback: T): T
    {
      if Some? then value else fallback
    }
  }

  const MinInt32: int := -0x8000_0000
  const MaxInt32: int := 0x7FFF_FFFF

  /** The values of C#'s `int`. */
  type Int32 = x: int | -0x8000_0000 <= x <= 0x7FFF_FFFF

  predicate InInt32(x: int)
  {
    MinInt32 <= x <= MaxInt32
  }

  /** The result of C#'s unchecked `int` arithmetic: the exact value taken modulo 2^32
      into the two's-complement range. */
  function Wrap32(x: int): (r: Int32)
    ensures InInt32(x) ==> r == x
    ensures (x - r) % 0x1_0000_0000 == 0
  {
    (x - MinInt32) % 0x1_0000_0000 + MinInt32
  }

  /** Wrapping an intermediate sum does not change the wrapped total. */
  lemma Wrap32Add(a: int, b: int)
    ensures Wrap32(Wrap32(a) + b) == Wrap32(a + b)
  {
    var m := 0x1_0000_0000;
    var w := Wrap32(a);
    var t := (a - w) / m;
    assert a == w + t * m;
    var x, y := Wrap32(w + b), Wrap32(a + b);
    var s1 := (w + b - x) / m;
    var s2 := (a + b - y) / m;
    assert x - y == (s2 - t - s1) * m;
  }

  /** The index of the first element satisfying `p` (a `FirstOrDefault` query). */
  function FirstIndex<T>(s: seq<T>, p: T -> bool): (k: Option<nat>)
    ensures k.Some? ==> k.value < |s| && p(s[k.value])
    ensures k.Some? ==> forall j :: 0 <= j < k.value ==> !p(s[j])
    ensures k.None? <==> forall j :: 0 <= j < |s| ==> !p(s[j])
  {
    if s == [] then None
    else if p(s[0]) then Some(0)
    else match FirstIndex(s[1..], p)
      case Some(k) => Some(k + 1)
      case None => None
  }
}
