/** Fixed-width integers as they travel on the game pipe.
    The source reads and writes them with `from_ne_bytes` / `to_ne_bytes`;
    this model fixes the byte order to little-endian. */
module Wire {

  type byte = b: int | 0 <= b < 0x100
  type u16 = x: int | 0 <= x < 0x1_0000
  type u32 = x: int | 0 <= x < 0x1_0000_0000

  datatype Option<+T> = None | Some(value: T)

  datatype Result<+T, +E> = Success(value: T) | Failure(error: E) {
    predicate IsFailure() { Failure? }
    function PropagateFailure<U>(): Result<U, E>
      requires Failure?
    {
      Failure(error)
    }
    function Extract(): T
      requires Success?
    {
      value
    }
  }

  /** The 16-bit value stored little-endian at `input[pos..pos+2]`. */
  function U16At(input: seq<byte>, pos: nat): (r: u16)
    requires pos + 2 <= |input|
  {
    (input[pos] as int) + 0x100 * (input[pos + 1] as int)
  }

  /** The 32-bit value stored little-endian at `input[pos..pos+4]`. */
  function U32At(input: seq<byte>, pos: nat): (r: u32)
    requires pos + 4 <= |input|
  {
    (input[pos] as int) + 0x100 * (input[pos + 1] as int)
    + 0x1_0000 * (input[pos + 2] as int) + 0x100_0000 * (input[pos + 3] as int)
  }

  /** `x.to_ne_bytes()` for a `u16` on a little-endian host. */
  function LE16(x: u16): (r: seq<byte>)
    ensures |r| == 2
  {
    [x % 0x100, x / 0x100]
  }

  /** `x.to_ne_bytes()` for a `u32` on a little-endian host. */
  function LE32(x: u32): (r: seq<byte>)
    ensures |r| == 4
  {
    [x % 0x100, (x / 0x100) % 0x100, (x / 0x100 / 0x100) % 0x100, x / 0x100 / 0x100 / 0x100]
  }

  /** A window of `s` that holds `a + b` holds `a`, then `b`. */
  lemma SliceSplit<T>(s: seq<T>, p: nat, a: seq<T>, b: seq<T>)
    requires p + |a| + |b| <= |s| && s[p..p + |a| + |b|] == a + b
    ensures s[p..p + |a|] == a
    ensures s[p + |a|..p + |a| + |b|] == b
  {
    assert s[p..p + |a|] == s[p..p + |a| + |b|][..|a|];
    assert s[p + |a|..p + |a| + |b|] == s[p..p + |a| + |b|][|a|..];
  }

  /** The converse: a window holding `a` followed by one holding `b` holds `a + b`. */
  lemma SliceJoin<T>(s: seq<T>, p: nat, a: seq<T>, b: seq<T>)
    requires p + |a| + |b| <= |s| && s[p..p + |a|] == a && s[p + |a|..p + |a| + |b|] == b
    ensures s[p..p + |a| + |b|] == a + b
  {
    assert s[p..p + |a| + |b|] == s[p..p + |a|] + s[p + |a|..p + |a| + |b|];
  }

  /** Reading back a 16-bit field recovers the value written. */
  lemma U16AtLE16(input: seq<byte>, pos: nat, x: u16)
    requires pos + 2 <= |input| && input[pos..pos + 2] == LE16(x)
    ensures U16At(input, pos) == x
  {
    assert input[pos] == LE16(x)[0] && input[pos + 1] == LE16(x)[1];
  }

  /** Reading back a 32-bit field recovers the value written. */
  lemma U32AtLE32(input: seq<byte>, pos: nat, x: u32)
    requires pos + 4 <= |input| && input[pos..pos + 4] == LE32(x)
    ensures U32At(input, pos) == x
  {
    var q1 := x / 0x100;
    var q2 := q1 / 0x100;
    var q3 := q2 / 0x100;
    assert input[pos] == x % 0x100 && x == x % 0x100 + 0x100 * q1;
    assert input[pos + 1] == q1 % 0x100 && q1 == q1 % 0x100 + 0x100 * q2;
    assert input[pos + 2] == q2 % 0x100 && q2 == q2 % 0x100 + 0x100 * q3;
    assert input[pos + 3] == q3;
  }
}
