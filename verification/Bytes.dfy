/** Bytes, big-endian 16-bit fields and the two failure-compatible datatypes the other modules share. */
module Bytes {
  type byte = b: int | 0 <= b < 256
  type u16 = n: int | 0 <= n < 0x1_0000

  datatype Option<+T> = None | Some(value: T) {
    predicate IsFailure() {
      None?
    }

    function PropagateFailure<U>(): Option<U>
      requires None?
    {
      None
    }

    function Extract(): T
      requires Some?
    {
      value
    }
  }

  /** Why an encoder raised: the Python exception it corresponds to. */
  datatype Error = ValueError | OverflowError

  datatype Result<+T> = Ok(value: T) | Err(error: Error) {
    predicate IsFailure() {
      Err?
    }

    function PropagateFailure<U>(): Result<U>
      requires Err?
    {
      Err(error)
    }

    function GetOr(default: T): T {
      if Ok? then value else default
    }

    function Extract(): T
      requires Ok?
    {
      value
    }
  }

  /** n.to_bytes(2, "big") for an n that fits. */
  function U16Bytes(n: u16): (r: seq<byte>)
    ensures |r| == 2 && U16At(r) == n
  {
    [n / 256, n % 256]
  }

  /** The big-endian 16-bit number at the head of s. */
  function U16At(s: seq<byte>): u16
    requires |s| >= 2
  {
    s[0] as int * 256 + s[1] as int
  }

  /** Python's int.to_bytes(2, "big"), which raises outside 0..65535. */
  function ToBytes2(n: int): Result<seq<byte>> {
    if 0 <= n < 0x1_0000 then Ok(U16Bytes(n)) else Err(OverflowError)
  }

  function Min(a: nat, b: nat): nat {
    if a < b then a else b
  }

  function Flatten<T>(parts: seq<seq<T>>): seq<T> {
    if parts == [] then [] else parts[0] + Flatten(parts[1..])
  }

  lemma {:induction false} FlattenAppend<T>(xs: seq<seq<T>>, ys: seq<seq<T>>)
    ensures Flatten(xs + ys) == Flatten(xs) + Flatten(ys)
  {
    if xs == [] {
      assert xs + ys == ys;
    } else {
      FlattenAppend(xs[1..], ys);
      Assoc(xs[0], Flatten(xs[1..]), Flatten(ys));
      assert xs + ys != [] && (xs + ys)[0] == xs[0] && (xs + ys)[1..] == xs[1..] + ys;
    }
  }

  lemma FlattenSnoc<T>(xs: seq<seq<T>>, x: seq<T>)
    ensures Flatten(xs + [x]) == Flatten(xs) + x
  {
    FlattenAppend(xs, [x]);
    assert Flatten([x]) == x;
  }

  lemma Assoc<T>(x: seq<T>, y: seq<T>, z: seq<T>)
    ensures (x + y) + z == x + (y + z)
  {
  }

  lemma SliceJoin<T>(x: seq<T>, a: nat, b: nat, c: nat)
    requires a <= b <= c <= |x|
    ensures x[a..b] + x[b..c] == x[a..c]
  {
  }

  lemma SliceTwice<T>(x: seq<T>, h: nat, n: nat)
    requires h + n <= |x|
    ensures x[h..][..n] == x[h..h + n] && x[h..][n..] == x[h + n..]
  {
  }
}
