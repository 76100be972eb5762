/** Arithmetic shared by the model: 32-bit wrap-around and finite sums. */
module Base {

  datatype Option<+T> = None | Some(value: T)

  const INT32_MAX := 0x7fff_ffff
  const INT64_MAX := 0x7fff_ffff_ffff_ffff

  type int32 = x: int | -0x8000_0000 <= x <= 0x7fff_ffff

  /** Two's complement truncation to 32 bits. */
  function Wrap32(x: int): (r: int32)
    ensures -0x8000_0000 <= r <= 0x7fff_ffff && (x - r) % 0x1_0000_0000 == 0
  {
    (x + 0x8000_0000) % 0x1_0000_0000 - 0x8000_0000
  }

  /** Two's complement truncation to 64 bits. */
  function Wrap64(x: int): (r: int)
    ensures -INT64_MAX - 1 <= r <= INT64_MAX && (x - r) % 0x1_0000_0000_0000_0000 == 0
  {
    (x + 0x8000_0000_0000_0000) % 0x1_0000_0000_0000_0000 - 0x8000_0000_0000_0000
  }

  lemma Wrap64Fits(x: int)
    requires -INT64_MAX - 1 <= x <= INT64_MAX
    ensures Wrap64(x) == x
  {
  }

  /** Counters are 32-bit in the program; `Unbounded` is the arithmetic its authors reason with. */
  datatype Arith = Unbounded | Int32

  function Plus(ar: Arith, a: int, b: int): int {
    if ar.Int32? then Wrap32(a + b) else a + b
  }

  /** A sum may be truncated early. */
  lemma WrapEarly(a: int, b: int)
    ensures Wrap32(Wrap32(a) + b) == Wrap32(a + b)
  {
  }

  lemma PlusAssociative(ar: Arith, a: int, b: int, c: int)
    ensures Plus(ar, Plus(ar, a, b), c) == Plus(ar, a, Plus(ar, b, c))
  {
    WrapEarly(a + b, c);
    WrapEarly(b + c, a);
  }

  function Max0(x: int): nat { if x < 0 then 0 else x }

  /** The sum f(0) + ... + f(n-1). */
  function Sum(n: nat, f: nat -> int): int {
    if n == 0 then 0 else Sum(n - 1, f) + f(n - 1)
  }

  lemma SumEqual(n: nat, f: nat -> int, g: nat -> int)
    requires forall i: nat | i < n :: f(i) == g(i)
    ensures Sum(n, f) == Sum(n, g)
  {
  }

  /** Changing one summand by d changes the sum by d. */
  lemma SumBump(n: nat, f: nat -> int, g: nat -> int, at: nat, d: int)
    requires forall i: nat | i < n && i != at :: f(i) == g(i)
    requires at < n ==> g(at) == f(at) + d
    ensures Sum(n, g) == Sum(n, f) + (if at < n then d else 0)
  {
    if n > 0 {
      SumBump(n - 1, f, g, at, d);
    }
  }

  lemma SumZero(n: nat, f: nat -> int)
    requires forall i: nat | i < n :: f(i) == 0
    ensures Sum(n, f) == 0
  {
  }

  lemma SumAtMost(n: nat, f: nat -> int, each: int)
    requires forall i: nat | i < n :: f(i) <= each
    ensures Sum(n, f) <= n * each
  {
  }

  lemma SumMinus(n: nat, f: nat -> int, g: nat -> int, h: nat -> int)
    requires forall i: nat | i < n :: h(i) == f(i) - g(i)
    ensures Sum(n, h) == Sum(n, f) - Sum(n, g)
  {
  }

  lemma SumNonNegative(n: nat, f: nat -> int)
    requires forall i: nat | i < n :: f(i) >= 0
    ensures Sum(n, f) >= 0
    ensures forall i: nat | i < n :: f(i) <= Sum(n, f)
  {
  }

  lemma SumAtMostBut(n: nat, f: nat -> int, at: nat, each: nat)
    requires forall i: nat | i < n :: f(i) <= each
    requires at < n ==> f(at) <= 0
    ensures Sum(n, f) <= if at < n then (n - 1) * each else n * each
  {
    if n > 0 {
      SumAtMostBut(n - 1, f, at, each);
    }
  }
}
