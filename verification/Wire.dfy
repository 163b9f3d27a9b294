/** Little-endian integers on byte sequences, and two's-complement wrap-around. */
module Wire {
  type byte = x: int | 0 <= x < 256
  type u16 = x: int | 0 <= x < 65536

  datatype Option<+T> = None | Some(value: T)

  function Pow256(k: nat): (p: nat)
    ensures p >= 1
  {
    if k == 0 then 1 else 256 * Pow256(k - 1)
  }

  /** The low `size` bytes of `n`, least significant first. A negative `n` is written in two's complement. */
  function LE(n: int, size: nat): (d: seq<byte>)
    ensures |d| == size
    decreases size
  {
    if size == 0 then [] else [n % 256] + LE(n / 256, size - 1)
  }

  function FromLE(d: seq<byte>): nat
  {
    if d == [] then 0 else d[0] as int + 256 * FromLE(d[1..])
  }

  function Word(d: seq<byte>): (n: u16)
    requires |d| >= 2
  {
    d[0] as int + 256 * d[1] as int
  }

  lemma Assoc<T>(a: seq<T>, b: seq<T>, c: seq<T>)
    ensures a + (b + c) == a + b + c
  {
  }

  lemma SplitAt(d: seq<byte>, a: seq<byte>, b: seq<byte>)
    requires d == a + b
    ensures d[..|a|] == a && d[|a|..] == b
  {
  }

  lemma SliceAfterDrop(d: seq<byte>, at: nat, i: nat, j: nat)
    requires at <= |d| && i <= j <= |d| - at
    ensures d[at..][i..j] == d[at + i..at + j]
  {
  }

  lemma DropTwice(d: seq<byte>, i: nat, j: nat)
    requires i + j <= |d|
    ensures d[i..][j..] == d[i + j..]
  {
  }

  /** A prefix in two parts, with something after it. */
  lemma TakeInParts(d: seq<byte>, k: nat, n: nat, suffix: seq<byte>)
    requires k <= n <= |d|
    ensures d[..k] + (d[k..][..n - k] + suffix) == d[..n] + suffix
  {
  }

  lemma JoinAt(d: seq<byte>, k: nat)
    requires k <= |d|
    ensures d == d[..k] + d[k..]
  {
  }

  /** Writing and reading back reduces modulo 256^size: exact for a value that fits, two's complement below zero. */
  lemma {:induction false} LERoundTrip(n: int, size: nat)
    requires -(Pow256(size) as int) <= n < Pow256(size)
    ensures FromLE(LE(n, size)) as int == if n >= 0 then n else n + Pow256(size)
    decreases size
  {
    if size > 0 {
      LERoundTrip(n / 256, size - 1);
      assert LE(n, size)[1..] == LE(n / 256, size - 1);
    }
  }

  lemma FloorTwice(n: int, p: nat)
    requires p >= 1
    ensures n / (256 * p) == n / 256 / p
  {
    var q := n / 256 / p;
    assert n / 256 == q * p + n / 256 % p;
    assert n == 256 * (n / 256) + n % 256;
    assert 256 * (q * p) == q * (256 * p);
    QuotientIs(n, 256 * p, q, 256 * (n / 256 % p) + n % 256);
  }

  lemma QuotientIs(n: int, d: nat, q: int, r: nat)
    requires n == q * d + r && r < d
    ensures n / d == q
  {
    var p := n / d;
    assert n == p * d + n % d;
    if p < q { FactorsApart(p, q, d); }
    if q < p { FactorsApart(q, p, d); }
  }

  lemma FactorsApart(p: int, q: int, d: nat)
    requires p < q
    ensures p * d + d <= q * d
  {
    assert q * d == p * d + (q - p) * d;
    assert (q - p) * d == d + (q - p - 1) * d;
  }

  /** Byte i of a written integer has the weight 256^i. */
  lemma {:induction false} LEValue(n: int, size: nat, i: nat)
    requires i < size
    ensures LE(n, size)[i] == n / Pow256(i) % 256
    decreases size
  {
    if i > 0 {
      LEValue(n / 256, size - 1, i - 1);
      FloorTwice(n, Pow256(i - 1));
    }
  }

  lemma WordRoundTrip(n: int, rest: seq<byte>)
    ensures Word(LE(n, 2) + rest) == n % 65536
  {
    assert LE(n, 2) == [n % 256] + ([n / 256 % 256] + LE(n / 256 / 256, 0));
    assert n % 65536 == n % 256 + 256 * (n / 256 % 256);
  }

  lemma Pow256Values()
    ensures Pow256(1) == 256 && Pow256(2) == 65536
    ensures Pow256(4) == 4294967296 && Pow256(8) == 18446744073709551616
  {
    assert Pow256(3) == 16777216;
    assert Pow256(4) == 4294967296;
    assert Pow256(5) == 1099511627776;
    assert Pow256(6) == 281474976710656;
    assert Pow256(7) == 72057594037927936;
  }
}
