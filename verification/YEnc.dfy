/** The yEnc codec of bstrlib's auxiliary functions. */
module YEnc {
  import opened Common

  const ESCAPE: byte := 61

  /** `(unsigned char) (x + n)`. */
  function Shifted(x: byte, n: int): (c: byte) {
    var y: int := x;
    (y + n) % 256
  }

  predicate Critical(c: byte) {
    c == ESCAPE || c == 0 || c == CR || c == LF
  }

  function EncodedByte(x: byte): (s: seq<byte>) {
    var c := Shifted(x, 42);
    if Critical(c) then [ESCAPE, Shifted(c, 64)] else [c]
  }

  function Encoded(s: seq<byte>): (t: seq<byte>) {
    if s == [] then [] else EncodedByte(s[0]) + Encoded(s[1..])
  }

  /** What a text decodes to; none when it breaks off behind an escape or holds a NUL. */
  function Decoded(t: seq<byte>): (r: Option<seq<byte>>) {
    if t == [] then Some([])
    else if t[0] == ESCAPE then
      if |t| == 1 then None else Before(Shifted(t[1], -106), Decoded(t[2..]))
    else if t[0] == 0 then None
    else if t[0] == CR || t[0] == LF then Decoded(t[1..])
    else Before(Shifted(t[0], -42), Decoded(t[1..]))
  }

  function Before(c: byte, r: Option<seq<byte>>): (s: Option<seq<byte>>) {
    if r.None? then None else Some([c] + r.value)
  }

  function After(s: seq<byte>, r: Option<seq<byte>>): (t: Option<seq<byte>>) {
    if r.None? then None else Some(s + r.value)
  }

  lemma ByteDecodes(x: byte, t: seq<byte>)
    ensures Decoded(EncodedByte(x) + t) == Before(x, Decoded(t))
  {
    var c := Shifted(x, 42);
    var s := EncodedByte(x) + t;
    if Critical(c) {
      assert s[0] == ESCAPE && s[1] == Shifted(c, 64) && s[2..] == t;
      assert Shifted(s[1], -106) == x;
    } else {
      assert s[0] == c && s[1..] == t;
    }
  }

  /** Decoding undoes encoding. */
  lemma {:induction false} RoundTrip(s: seq<byte>)
    ensures Decoded(Encoded(s)) == Some(s)
  {
    if s != [] {
      RoundTrip(s[1..]);
      ByteDecodes(s[0], Encoded(s[1..]));
      assert s == [s[0]] + s[1..];
    }
  }

  /** The encoded text holds no NUL, CR or LF. */
  lemma {:induction false} EncodedClean(s: seq<byte>)
    ensures 0 !in Encoded(s) && CR !in Encoded(s) && LF !in Encoded(s)
  {
    if s != [] {
      EncodedClean(s[1..]);
    }
  }

  /** Line breaks put anywhere but behind an escape change nothing. */
  lemma {:induction false} BreakIgnored(s: seq<byte>, t: seq<byte>)
    ensures Decoded(Encoded(s) + [CR, LF] + t) == After(s, Decoded(t))
  {
    if s == [] {
      var u := [CR, LF] + t;
      assert Encoded(s) + [CR, LF] + t == u;
      assert u[1..] == [LF] + t && u[1..][1..] == t;
      assert Decoded(t).Some? ==> [] + Decoded(t).value == Decoded(t).value;
    } else {
      var rest := Encoded(s[1..]) + [CR, LF] + t;
      BreakIgnored(s[1..], t);
      ByteDecodes(s[0], rest);
      assert Encoded(s) + [CR, LF] + t == EncodedByte(s[0]) + rest;
      BeforeAfter(s, Decoded(t));
    }
  }

  lemma BeforeAfter(s: seq<byte>, r: Option<seq<byte>>)
    requires s != []
    ensures Before(s[0], After(s[1..], r)) == After(s, r)
  {
    assert s == [s[0]] + s[1..];
    if r.Some? {
      assert [s[0]] + (s[1..] + r.value) == s + r.value;
    }
  }

  // ---------- Every byte in its place ----------

  /** The bytes that take an escape. */
  ghost predicate Special(x: int) {
    x == 19 || x == 214 || x == 224 || x == 227
  }

  ghost function Specials(s: seq<byte>): (n: nat) {
    if s == [] then 0 else (if Special(s[0]) then 1 else 0) + Specials(s[1..])
  }

  /** At `q` the text `t` has what stands for the byte `x`: two characters if it takes an escape, else its value
      and 42 more. */
  ghost predicate ByteAt(x: int, t: seq<byte>, q: nat) {
    && (!Special(x) ==> q < |t| && t[q] == (x + 42) % 256)
    && (Special(x) ==> q + 2 <= |t| && t[q] == '=' as int)
    && (x == 19 ==> t[q + 1] == '}' as int) && (x == 214 ==> t[q + 1] == '@' as int)
    && (x == 224 ==> t[q + 1] == 'J' as int) && (x == 227 ==> t[q + 1] == 'M' as int)
  }

  lemma ByteIs(x: byte, t: seq<byte>)
    ensures |EncodedByte(x)| == (if Special(x) then 2 else 1) && ByteAt(x, EncodedByte(x) + t, 0)
  {
  }

  lemma ByteShifted(x: int, t: seq<byte>, q: nat, s: seq<byte>)
    requires ByteAt(x, t, q)
    ensures ByteAt(x, s + t, |s| + q)
  {
  }

  lemma {:induction false} EncodedLength(s: seq<byte>)
    ensures |Encoded(s)| == |s| + Specials(s)
  {
    if s != [] {
      ByteIs(s[0], []);
      EncodedLength(s[1..]);
    }
  }

  lemma {:induction false} EncodedAt(s: seq<byte>, k: nat)
    requires k < |s|
    ensures ByteAt(s[k], Encoded(s), k + Specials(s[..k]))
  {
    hide ByteAt, EncodedByte, Special;
    ByteIs(s[0], Encoded(s[1..]));
    if k > 0 {
      EncodedAt(s[1..], k - 1);
      assert s[1..][..k - 1] == s[..k][1..];
      ByteShifted(s[k], Encoded(s[1..]), k - 1 + Specials(s[1..][..k - 1]), EncodedByte(s[0]));
    }
  }

  /** bYEncode; none when the output with its NUL is no `int`. */
  method BYEncode(src: seq<byte>) returns (r: Option<seq<byte>>)
    ensures r == if |Encoded(src)| < INT_MAX then Some(Encoded(src)) else None
    ensures r.None? <==> |src| + Specials(src) >= INT_MAX
    ensures r.Some? ==>
      && |r.value| == |src| + Specials(src)
      && forall k :: 0 <= k < |src| ==> ByteAt(src[k], r.value, k + Specials(src[..k]))
  {
    hide ByteAt;
    EncodedLength(src);
    forall k: nat | k < |src| ensures ByteAt(src[k], Encoded(src), k + Specials(src[..k])) {
      EncodedAt(src, k);
    }
    r := Some([]);
    var i := 0;
    assert src[0..] == src;
    while i < |src|
      invariant 0 <= i <= |src| && r.Some? && |r.value| < INT_MAX && r.value + Encoded(src[i..]) == Encoded(src)
    {
      assert src[i..][1..] == src[i + 1..];
      Associative3(r.value, EncodedByte(src[i]), Encoded(src[i + 1..]));
      ghost var before := r.value;
      var c := Shifted(src[i], 42);
      if c == ESCAPE || c == 0 || c == CR || c == LF {
        Associative3(before, [ESCAPE], [Shifted(c, 64)]);
        r := Conchars(r.value, [ESCAPE]);
        if r.None? { return; }
        c := Shifted(c, 64);
      }
      r := Conchars(r.value, [c]);
      if r.None? { return; }
      assert r.value == before + EncodedByte(src[i]);
      i := i + 1;
    }
    assert src[i..] == [] && r.value + [] == r.value;
  }

  const MAX_OB_LEN := 64

  lemma AfterBefore(s: seq<byte>, c: byte, r: Option<seq<byte>>)
    ensures After(s, Before(c, r)) == After(s + [c], r)
  {
    if r.Some? {
      assert s + ([c] + r.value) == s + [c] + r.value;
    }
  }

  /** The character at `p` is behind an escape that is none itself. */
  ghost predicate Escaped(t: seq<byte>, p: nat) {
    0 < p <= |t| && t[p - 1] == '=' as int && !Escaped(t, p - 1)
  }

  /** The bytes that the first `n` characters stand for. */
  ghost function Carried(t: seq<byte>, n: nat): (s: seq<byte>)
    requires n <= |t|
  {
    if n == 0 then []
    else
      var x: int := t[n - 1];
      Carried(t, n - 1) + (
        if Escaped(t, n - 1) then [(x + 150) % 256]
        else if x in {'=' as int, 13, 10} then []
        else [(x + 214) % 256])
  }

  /** The first `n` characters are in order: no NUL among them that is not escaped. */
  ghost predicate NoNul(t: seq<byte>, n: nat)
    requires n <= |t|
  {
    forall p :: 0 <= p < n && t[p] == 0 ==> Escaped(t, p)
  }

  /** The text decodes: no NUL that is not escaped, and no escape that escapes nothing. */
  ghost predicate Decodable(t: seq<byte>) {
    NoNul(t, |t|) && !Escaped(t, |t|)
  }

  /** How decoding goes on behind `n` characters, when these end no escape. */
  lemma DecodedFrom(t: seq<byte>, n: nat)
    requires n <= |t| && !Escaped(t, n) && NoNul(t, n)
    ensures After(Carried(t, n), Decoded(t[n..])) == if Decodable(t) then Some(Carried(t, |t|)) else None
    decreases |t| - n
  {
    hide Escaped, After, Before, Carried, NoNul, Decodable;
    if n == |t| {
      AllRead(t);
    } else {
      var x := t[n];
      assert t[n..][0] == x && t[n..][1..] == t[n + 1..];
      EscapedNext(t, n);
      CarriedNext(t, n);
      NulNext(t, n);
      AfterNone(Carried(t, n), x);
      if x == ESCAPE && n + 1 == |t| {
        assert Decoded(t[n..]).None?;
      } else if x == ESCAPE {
        assert t[n..][2..] == t[n + 2..];
        EscapedNext(t, n + 1);
        CarriedNext(t, n + 1);
        NulNext(t, n + 1);
        AfterBefore(Carried(t, n), Shifted(t[n + 1], -106), Decoded(t[n + 2..]));
        DecodedFrom(t, n + 2);
      } else if x != 0 {
        AfterBefore(Carried(t, n), Shifted(x, -42), Decoded(t[n + 1..]));
        DecodedFrom(t, n + 1);
      }
    }
  }

  /** Decoding takes the characters for what they are with what stands right before them. */
  lemma DecodedWhole(t: seq<byte>)
    ensures Decoded(t) == if Decodable(t) then Some(Carried(t, |t|)) else None
  {
    assert t[0..] == t;
    DecodedFrom(t, 0);
    AfterNothing(Decoded(t));
  }

  lemma AllRead(t: seq<byte>)
    requires !Escaped(t, |t|) && NoNul(t, |t|)
    ensures Decodable(t) && After(Carried(t, |t|), Decoded(t[|t|..])) == Some(Carried(t, |t|))
  {
    AfterEmpty(Carried(t, |t|));
  }

  lemma EscapedNext(t: seq<byte>, n: nat)
    requires n < |t|
    ensures Escaped(t, n + 1) <==> t[n] == ESCAPE && !Escaped(t, n)
    ensures n + 1 == |t| && Escaped(t, n + 1) ==> !Decodable(t)
  {
  }

  lemma CarriedNext(t: seq<byte>, n: nat)
    requires n < |t|
    ensures Carried(t, n + 1) ==
      if Escaped(t, n) then Carried(t, n) + [Shifted(t[n], -106)]
      else if t[n] == ESCAPE || t[n] == CR || t[n] == LF then Carried(t, n)
      else Carried(t, n) + [Shifted(t[n], -42)]
  {
    hide Escaped;
    assert Carried(t, n) + [] == Carried(t, n);
  }

  lemma NulNext(t: seq<byte>, n: nat)
    requires n < |t|
    ensures NoNul(t, n + 1) <==> NoNul(t, n) && (t[n] == 0 ==> Escaped(t, n))
    ensures !NoNul(t, n + 1) ==> !Decodable(t)
  {
    hide Escaped;
  }

  /** bYDecode, through a staging buffer of 64 bytes. */
  method BYDecode(src: seq<byte>) returns (r: Option<seq<byte>>)
    ensures r == Decoded(src) == if Decodable(src) then Some(Carried(src, |src|)) else None
  {
    hide After, Before, Decodable, Carried;
    DecodedWhole(src);
    var out: seq<byte> := [];
    var octetbuff := new byte[MAX_OB_LEN];
    var obl := 0;
    var i := 0;
    AfterNothing(Decoded(src));
    assert src[0..] == src && out + octetbuff[..0] == [];
    while i < |src|
      invariant 0 <= i <= |src| && 0 <= obl < MAX_OB_LEN
      invariant Decoded(src) == After(out + octetbuff[..obl], Decoded(src[i..]))
    {
      var c := src[i];
      AfterNone(out + octetbuff[..obl], c);
      assert src[i..][1..] == src[i + 1..];
      if c == ESCAPE {
        i := i + 1;
        if i >= |src| { return None; }
        assert src[i - 1..][2..] == src[i + 1..];
        c := Shifted(src[i], -64);
      } else {
        if c == 0 { return None; }
        if c == CR || c == LF {
          i := i + 1;
          continue;
        }
      }
      Modulo(src[i]);
      ghost var before := out + octetbuff[..obl];
      AfterBefore(before, Shifted(c, -42), Decoded(src[i + 1..]));
      octetbuff[obl] := Shifted(c, -42);
      obl := obl + 1;
      assert out + octetbuff[..obl] == before + [Shifted(c, -42)];
      if obl >= MAX_OB_LEN {
        out := out + octetbuff[..obl];
        obl := 0;
        assert out + octetbuff[..0] == out;
      }
      i := i + 1;
    }
    AfterEmpty(out + octetbuff[..obl]);
    out := out + octetbuff[..obl];
    r := Some(out);
  }

  lemma AfterNothing(r: Option<seq<byte>>)
    ensures After([], r) == r
  {
    assert r.Some? ==> [] + r.value == r.value;
  }

  lemma AfterNone(s: seq<byte>, c: byte)
    ensures After(s, None).None? && Before(c, None).None?
  {
  }

  lemma AfterEmpty(s: seq<byte>)
    ensures After(s, Decoded([])) == Some(s)
  {
    assert Decoded([]) == Some([]) && s + Decoded([]).value == s;
  }

  lemma Modulo(x: byte)
    ensures Shifted(Shifted(x, -64), -42) == Shifted(x, -106)
  {
  }
}
