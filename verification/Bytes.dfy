/** Bytes, big-endian splitting of small numbers, byte sums and the bitwise AND
    that a flash cell applies when it is programmed. */
module Bytes {
  type byte = b: int | 0 <= b < 256

  datatype Option<+T> = None | Some(value: T)

  function Hi(n: nat): byte
    requires n < 0x1_0000
  {
    n / 256
  }

  function Lo(n: nat): byte {
    n % 256
  }

  function Word(hi: byte, lo: byte): nat {
    hi * 256 + lo
  }

  lemma WordRoundTrip(hi: byte, lo: byte)
    ensures Hi(Word(hi, lo)) == hi && Lo(Word(hi, lo)) == lo
  {
  }

  /** The three address bytes, most significant first. */
  function Addr24(addr: nat): (s: seq<byte>)
    requires addr < 0x100_0000
    ensures |s| == 3
  {
    [addr / 0x1_0000, addr / 256 % 256, addr % 256]
  }

  function FromAddr24(a: byte, b: byte, c: byte): nat {
    a * 0x1_0000 + b * 256 + c
  }

  lemma AddrRoundTrip(addr: nat)
    requires addr < 0x100_0000
    ensures var s := Addr24(addr); FromAddr24(s[0], s[1], s[2]) == addr
  {
  }

  lemma AddrRoundTripBack(a: byte, b: byte, c: byte)
    ensures Addr24(FromAddr24(a, b, c)) == [a, b, c]
  {
    var n := FromAddr24(a, b, c);
    DivUnique(n, 0x1_0000, a, b * 256 + c);
    DivUnique(n, 256, a * 256 + b, c);
    DivUnique(a * 256 + b, 256, a, b);
  }

  lemma DivUnique(n: nat, d: nat, q: nat, r: nat)
    requires d == 256 || d == 0x1_0000
    requires n == q * d + r && r < d
    ensures n / d == q && n % d == r
  {
  }

  function Sum(s: seq<byte>): nat {
    if s == [] then 0 else Sum(s[..|s| - 1]) + s[|s| - 1]
  }

  lemma {:induction false} SumUpdate(s: seq<byte>, k: nat, b: byte)
    requires k < |s|
    ensures Sum(s[k := b]) == Sum(s) - s[k] + b
  {
    var n := |s| - 1;
    if k == n {
      assert s[k := b][..n] == s[..n];
    } else {
      SumUpdate(s[..n], k, b);
      assert s[k := b][..n] == s[..n][k := b];
    }
  }

  lemma {:induction false} SumBound(s: seq<byte>)
    ensures Sum(s) <= 255 * |s|
  {
    if s != [] {
      SumBound(s[..|s| - 1]);
    }
  }

  /** Bitwise AND of two naturals. */
  function And(a: nat, b: nat): (r: nat)
    ensures r <= a && r <= b
  {
    if a == 0 || b == 0 then 0
    else 2 * And(a / 2, b / 2) + (if a % 2 == 1 && b % 2 == 1 then 1 else 0)
  }

  function Pow2(n: nat): nat {
    if n == 0 then 1 else 2 * Pow2(n - 1)
  }

  lemma {:induction false} AndOnes(n: nat, d: nat)
    requires d < Pow2(n)
    ensures And(Pow2(n) - 1, d) == d
  {
    if n > 0 {
      AndOnes(n - 1, d / 2);
    }
  }

  lemma AndErased(d: byte)
    ensures And(0xFF, d) == d
  {
    assert Pow2(8) == 256;
    AndOnes(8, d);
  }

  function Repeat(b: byte, n: nat): (s: seq<byte>)
    ensures |s| == n
    ensures forall i :: 0 <= i < n ==> s[i] == b
  {
    seq(n, _ => b)
  }
}
