/** Bytes, error codes and results shared by the codecs. */
module Bytes {

  /** One octet. Bit operations of the C code are written as division and remainder by powers of two. */
  type Byte = b: int | 0 <= b < 256

  datatype Option<+T> = None | Some(value: T)

  /** The errno values that the modelled functions return. */
  datatype Error = EINVAL | EBADMSG | ENOTSUP | ERANGE | ENODATA | ENOSYS | EOVERFLOW | ETIMEDOUT | ECANCELED

  datatype Result<+T> = Ok(value: T) | Err(error: Error)

  /** Concatenation of a list of strings of anything. */
  function Flatten<T>(ss: seq<seq<T>>): (r: seq<T>) {
    if ss == [] then [] else ss[0] + Flatten(ss[1..])
  }

  function Zeros(n: nat): (z: seq<Byte>)
    ensures |z| == n && forall i :: 0 <= i < n ==> z[i] == 0
  {
    seq(n, i => 0)
  }

  /** Sixteen bits, the high byte first. */
  function Be16(n: nat): (s: seq<Byte>)
    ensures |s| == 2
  {
    [n / 256 % 256, n % 256]
  }

  function Min(a: nat, b: nat): (m: nat) {
    if a <= b then a else b
  }

  lemma Assoc<T>(a: seq<T>, b: seq<T>, c: seq<T>)
    ensures (a + b) + c == a + (b + c)
  {
  }

  lemma {:induction false} FlattenAppend<T>(a: seq<seq<T>>, b: seq<seq<T>>)
    ensures Flatten(a + b) == Flatten(a) + Flatten(b)
  {
    if a == [] {
      assert a + b == b;
    } else {
      assert (a + b)[1..] == a[1..] + b;
      FlattenAppend(a[1..], b);
    }
  }
}
