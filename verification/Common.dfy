/** What several of the libraries share. */
module Common {

  type byte = x: int | 0 <= x < 256

  datatype Option<T> = None | Some(value: T)

  /** The null pointer among handles. */
  const NULL := -1

  /** BSTR_ERR, and any other negative result. */
  const ERR := -1

  /** The largest `int`. */
  const INT_MAX := 0x7fff_ffff

  const CR: byte := 13
  const LF: byte := 10

  function Swapped<T>(s: seq<T>, x: nat, y: nat): seq<T>
    requires x < |s| && y < |s|
  {
    s[x := s[y]][y := s[x]]
  }

  lemma Associative3<T>(a: seq<T>, b: seq<T>, c: seq<T>)
    ensures a + (b + c) == a + b + c
  {
  }

  lemma Associative<T>(a: seq<T>, b: seq<T>, c: seq<T>, d: seq<T>)
    ensures a + (b + c + d) == a + b + c + d && a + b + (c + d) == a + b + c + d && a + (b + c) == a + b + c
  {
  }

  /** A slice of a slice. */
  lemma SubSlice<T>(s: seq<T>, p: nat, q: nat, i: nat, j: nat)
    requires p <= q <= |s| && i <= j <= q - p
    ensures s[p..q][i..j] == s[p + i..p + j]
  {
    var a := s[p..q];
    var x, y := a[i..j], s[p + i..p + j];
    assert |x| == |y|;
    forall k | 0 <= k < |x| ensures x[k] == y[k] {
      assert x[k] == a[i + k];
      assert a[i + k] == s[p + (i + k)];
      assert y[k] == s[(p + i) + k];
    }
  }

  /** The characters of a string literal, as bytes. */
  ghost function Ascii(s: string): (b: seq<byte>)
    ensures |b| == |s| && forall k :: 0 <= k < |s| ==> b[k] == s[k] as int % 256
  {
    seq(|s|, k requires 0 <= k < |s| => s[k] as int % 256)
  }

  /** The byte at `k`; behind the end there are zeros. */
  ghost function Octet(b: seq<byte>, k: nat): (x: byte) {
    if k < |b| then b[k] else 0
  }

  /** The digits of a number of four digits in base 64. */
  lemma Base64Digits(v: nat, d0: nat, d1: nat, d2: nat, d3: nat)
    requires v == d0 * 262144 + d1 * 4096 + d2 * 64 + d3 && d0 < 64 && d1 < 64 && d2 < 64 && d3 < 64
    ensures v / 262144 == d0 && v / 4096 % 64 == d1 && v / 64 % 64 == d2 && v % 64 == d3
  {
    assert v / 4096 == d0 * 64 + d1;
    assert v / 64 == d0 * 4096 + d1 * 64 + d2;
  }

  /** bconchar, for one character of `s` after the other: fails once the text with its NUL is no `int`. */
  method Conchars(out: seq<byte>, s: seq<byte>) returns (r: Option<seq<byte>>)
    requires |out| < INT_MAX
    ensures r == if |out| + |s| < INT_MAX then Some(out + s) else None
  {
    var b, i := out, 0;
    while i < |s|
      invariant 0 <= i <= |s| && |b| < INT_MAX && b == out + s[..i]
    {
      if |b| + 2 > INT_MAX { return None; }
      assert out + s[..i + 1] == out + s[..i] + [s[i]];
      b := b + [s[i]];
      i := i + 1;
    }
    assert s[..i] == s;
    r := Some(b);
  }
}
