/** Bytes, C integer conversions, results, and the flattening of a list of byte strings. */
module Prelude {

  newtype byte = b: int | 0 <= b < 256

  const NEWLINE: byte := 10

  /** KMALLOC_MAX_SIZE depends on the kernel configuration, so it stays symbolic: any limit for which
      eleven blocks are smaller than INT_MAX (the usual value is 4 MiB). */
  type AllocLimit = m: nat | 0 < m && 11 * m < 0x8000_0000 witness 1

  const KMALLOC_MAX_SIZE: AllocLimit

  datatype Option<+T> = None | Some(value: T)

  datatype Errno = ERESTARTSYS | ENOMEM | EINVAL | EFAULT | ENOTTY

  /** What a driver entry point returns: a count or position, or a negated error number. */
  datatype Ret = Ok(n: int) | Err(e: Errno)

  /** C conversions: a value in the target's range is kept, any other is reduced modulo its width. */
  function ToU8(x: int): nat { if 0 <= x < 0x100 then x else x % 0x100 }

  const SIZE_T_RANGE: nat := 0x1_0000_0000_0000_0000

  /** size_t has 64 bits. */
  function ToSizeT(x: int): nat { if 0 <= x < SIZE_T_RANGE then x else x % SIZE_T_RANGE }

  function ToU32(x: int): nat { if 0 <= x < 0x1_0000_0000 then x else x % 0x1_0000_0000 }

  /** int has 32 bits, two's complement. */
  function ToInt(x: int): int
  {
    if -0x8000_0000 <= x < 0x8000_0000 then x else (x + 0x8000_0000) % 0x1_0000_0000 - 0x8000_0000
  }

  /** loff_t has 64 bits, two's complement. */
  type loff = x: int | -0x8000_0000_0000_0000 <= x < 0x8000_0000_0000_0000

  function ToLoff(x: int): loff
  {
    if -0x8000_0000_0000_0000 <= x < 0x8000_0000_0000_0000 then x
    else (x + 0x8000_0000_0000_0000) % SIZE_T_RANGE - 0x8000_0000_0000_0000
  }

  /** Each conversion gives a value of the target's range that differs from the argument by a multiple of the
      target's width; there is only one such value. */
  lemma UnsignedConversions(x: int)
    ensures 0 <= ToU8(x) < 0x100 && x - ToU8(x) == 0x100 * (x / 0x100)
    ensures 0 <= ToU32(x) < 0x1_0000_0000 && x - ToU32(x) == 0x1_0000_0000 * (x / 0x1_0000_0000)
    ensures 0 <= ToSizeT(x) < SIZE_T_RANGE && x - ToSizeT(x) == SIZE_T_RANGE * (x / SIZE_T_RANGE)
  {
  }

  lemma SignedConversions(x: int)
    ensures -0x8000_0000 <= ToInt(x) < 0x8000_0000
    ensures x - ToInt(x) == 0x1_0000_0000 * ((x + 0x8000_0000) / 0x1_0000_0000)
    ensures -0x8000_0000_0000_0000 <= ToLoff(x) < 0x8000_0000_0000_0000
    ensures x - ToLoff(x) == SIZE_T_RANGE * ((x + 0x8000_0000_0000_0000) / SIZE_T_RANGE)
  {
  }

  function Min(a: nat, b: nat): nat { if a <= b then a else b }

  /** The strings of ss joined end to end. */
  function Flat<T>(ss: seq<seq<T>>): seq<T>
  {
    if ss == [] then [] else ss[0] + Flat(ss[1..])
  }

  lemma FlatFirst<T>(ss: seq<seq<T>>)
    ensures Flat(ss) == if ss == [] then [] else ss[0] + Flat(ss[1..])
  {
  }

  lemma {:induction false} FlatConcat<T>(a: seq<seq<T>>, b: seq<seq<T>>)
    ensures Flat(a + b) == Flat(a) + Flat(b)
  {
    hide Flat;
    FlatFirst(a);
    if a == [] {
      assert a + b == b;
    } else {
      FlatConcat(a[1..], b);
      FlatFirst(a + b);
      assert (a + b)[1..] == a[1..] + b && (a + b)[0] == a[0];
      Associative(a[0], Flat(a[1..]), Flat(b));
    }
  }

  lemma Associative<T>(a: seq<T>, b: seq<T>, c: seq<T>)
    ensures (a + b) + c == a + (b + c)
  {
  }

  lemma FlatSnoc<T>(a: seq<seq<T>>, x: seq<T>)
    ensures Flat(a + [x]) == Flat(a) + x
  {
    FlatConcat(a, [x]);
    assert [x][1..] == [];
  }
}
