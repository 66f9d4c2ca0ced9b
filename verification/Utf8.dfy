/** UTF-8 as utf8.h reads and writes it: all 21-bit code points, each in its shortest form. The masks and
    shifts of the library are written as the quotients and remainders they take. */
module Utf8 {
  import opened Common

  type codepoint = nat

  /** Code points a text may hold; NUL ends it. */
  predicate Valid(cp: codepoint) {
    0 < cp <= 0x1fffff
  }

  /** utf8codepointsize. */
  function CodepointSize(chr: codepoint): (n: nat)
    ensures 1 <= n <= 4
  {
    if chr < 0x80 then 1 else if chr < 0x800 then 2 else if chr < 0x1_0000 then 3 else 4
  }

  /** The bytes utf8catcodepoint writes. */
  function Encoding(chr: codepoint): (s: seq<byte>)
    requires chr <= 0x1fffff
    ensures |s| == CodepointSize(chr)
  {
    if chr < 0x80 then [chr]
    else if chr < 0x800 then [0xc0 + chr / 0x40, 0x80 + chr % 0x40]
    else if chr < 0x1_0000 then [0xe0 + chr / 0x1000, 0x80 + chr / 0x40 % 0x40, 0x80 + chr % 0x40]
    else [0xf0 + chr / 0x4_0000, 0x80 + chr / 0x1000 % 0x40, 0x80 + chr / 0x40 % 0x40, 0x80 + chr % 0x40]
  }

  predicate AllValid(cps: seq<codepoint>) {
    forall k :: 0 <= k < |cps| ==> Valid(cps[k])
  }

  function Text(cps: seq<codepoint>): (s: seq<byte>)
    requires AllValid(cps)
  {
    if cps == [] then [] else Encoding(cps[0]) + Text(cps[1..])
  }

  /** The byte at `i`; the text is followed by a NUL. */
  function At(s: seq<byte>, i: nat): byte {
    if i < |s| then s[i] else 0
  }

  /** `0x80 == (0xc0 & b)`. */
  predicate Continuation(b: byte) {
    b / 0x40 == 2
  }

  /** The number of bytes the first byte announces: 11110xxx, 1110xxxx, 110xxxxx or anything else. */
  function Announced(b: byte): (n: nat)
    ensures 1 <= n <= 4
  {
    if b / 8 == 0x1e then 4 else if b / 0x10 == 0xe then 3 else if b / 0x20 == 6 then 2 else 1
  }

  /** What utf8codepoint makes of the four bytes it may read. */
  function Decoded(b0: byte, b1: byte, b2: byte, b3: byte): (cp: codepoint) {
    match Announced(b0)
    case 4 => b0 % 8 * 0x4_0000 + b1 % 0x40 * 0x1000 + b2 % 0x40 * 0x40 + b3 % 0x40
    case 3 => b0 % 0x10 * 0x1000 + b1 % 0x40 * 0x40 + b2 % 0x40
    case 2 => b0 % 0x20 * 0x40 + b1 % 0x40
    case _ => b0
  }

  /** utf8codepoint: the code point at `i`. */
  function Codepoint(s: seq<byte>, i: nat): (cp: codepoint) {
    Decoded(At(s, i), At(s, i + 1), At(s, i + 2), At(s, i + 3))
  }

  /** What utf8valid checks at one code point, except for what follows it. */
  predicate Shortest(b0: byte, b1: byte, b2: byte, b3: byte) {
    match Announced(b0)
    case 4 => Continuation(b1) && Continuation(b2) && Continuation(b3) && !(b0 % 8 == 0 && b1 / 0x10 % 4 == 0)
    case 3 => Continuation(b1) && Continuation(b2) && !(b0 % 0x10 == 0 && b1 / 0x20 % 2 == 0)
    case 2 => Continuation(b1) && b0 / 2 % 0x10 != 0
    case _ => b0 < 0x80
  }

  lemma Digits(a: nat, b: nat, c: nat, d: nat)
    requires b < 0x40 && c < 0x40 && d < 0x40
    ensures var cp := a * 0x4_0000 + b * 0x1000 + c * 0x40 + d;
            cp / 0x4_0000 == a && cp / 0x1000 % 0x40 == b && cp / 0x40 % 0x40 == c && cp % 0x40 == d
            && cp / 0x1000 == a * 0x40 + b && cp / 0x40 == a * 0x1000 + b * 0x40 + c
  {
    var cp := a * 0x4_0000 + b * 0x1000 + c * 0x40 + d;
    assert cp / 0x40 == a * 0x1000 + b * 0x40 + c;
    assert cp / 0x1000 == a * 0x40 + b;
  }

  lemma SumOfDigits(cp: nat)
    ensures cp == cp / 0x4_0000 * 0x4_0000 + cp / 0x1000 % 0x40 * 0x1000 + cp / 0x40 % 0x40 * 0x40 + cp % 0x40
  {
    assert cp / 0x1000 == cp / 0x40 / 0x40 && cp / 0x4_0000 == cp / 0x1000 / 0x40;
  }

  /** The bytes of one code point pass the checks, announce their number and decode to it, whatever follows. */
  lemma EncodedPasses(cp: codepoint, b1: byte, b2: byte, b3: byte)
    requires Valid(cp)
    ensures var e := Encoding(cp);
            var c1, c2, c3 := if |e| > 1 then e[1] else b1, if |e| > 2 then e[2] else b2, if |e| > 3 then e[3] else b3;
            && Announced(e[0]) == |e| && e[0] != 0 && !Continuation(e[0])
            && Shortest(e[0], c1, c2, c3) && Decoded(e[0], c1, c2, c3) == cp
  {
    hide Shortest, Decoded, Announced;
    var a, b, c, d := cp / 0x4_0000, cp / 0x1000 % 0x40, cp / 0x40 % 0x40, cp % 0x40;
    SumOfDigits(cp);
    Digits(a, b, c, d);
    var e := Encoding(cp);
    if cp < 0x80 {
      OneByte(cp, b1, b2, b3);
    } else if cp < 0x800 {
      assert a == b == 0 && e == [0xc0 + c, 0x80 + d];
      TwoBytes(c, d, b2, b3);
    } else if cp < 0x1_0000 {
      assert a == 0 && e == [0xe0 + b, 0x80 + c, 0x80 + d];
      ThreeBytes(b, c, d, b3);
    } else {
      assert e == [0xf0 + a, 0x80 + b, 0x80 + c, 0x80 + d];
      FourBytes(a, b, c, d);
    }
  }

  lemma OneByte(a: byte, b1: byte, b2: byte, b3: byte)
    requires a < 0x80
    ensures Announced(a) == 1 && !Continuation(a) && Shortest(a, b1, b2, b3) && Decoded(a, b1, b2, b3) == a
  {
  }

  lemma TwoBytes(c: nat, d: nat, b2: byte, b3: byte)
    requires 2 <= c < 0x20 && d < 0x40
    ensures var e0, e1 := 0xc0 + c, 0x80 + d;
            && Announced(e0) == 2 && !Continuation(e0) && Shortest(e0, e1, b2, b3)
            && Decoded(e0, e1, b2, b3) == c * 0x40 + d
  {
  }

  lemma ThreeBytes(b: nat, c: nat, d: nat, b3: byte)
    requires b < 0x10 && c < 0x40 && d < 0x40 && (b == 0 ==> c >= 0x20)
    ensures var e0, e1, e2 := 0xe0 + b, 0x80 + c, 0x80 + d;
            && Announced(e0) == 3 && !Continuation(e0) && Shortest(e0, e1, e2, b3)
            && Decoded(e0, e1, e2, b3) == b * 0x1000 + c * 0x40 + d
  {
  }

  lemma FourBytes(a: nat, b: nat, c: nat, d: nat)
    requires a < 8 && b < 0x40 && c < 0x40 && d < 0x40 && (a == 0 ==> b >= 0x10)
    ensures var e0, e1, e2, e3 := 0xf0 + a, 0x80 + b, 0x80 + c, 0x80 + d;
            && Announced(e0) == 4 && !Continuation(e0) && Shortest(e0, e1, e2, e3)
            && Decoded(e0, e1, e2, e3) == a * 0x4_0000 + b * 0x1000 + c * 0x40 + d
  {
  }

  /** Bytes that pass the checks are the encoding of what they decode to. */
  lemma PassesEncoded(b0: byte, b1: byte, b2: byte, b3: byte)
    requires b0 != 0 && Shortest(b0, b1, b2, b3)
    ensures var cp := Decoded(b0, b1, b2, b3);
            Valid(cp) && Encoding(cp) == [b0, b1, b2, b3][..Announced(b0)]
  {
    match Announced(b0)
    case 4 =>
      FourPass(b0, b1, b2, b3);
      assert [b0, b1, b2, b3][..4] == [b0, b1, b2, b3];
    case 3 =>
      ThreePass(b0, b1, b2, b3);
      assert [b0, b1, b2, b3][..3] == [b0, b1, b2];
    case 2 =>
      TwoPass(b0, b1, b2, b3);
      assert [b0, b1, b2, b3][..2] == [b0, b1];
    case _ =>
      assert [b0, b1, b2, b3][..1] == [b0];
  }

  lemma TwoPass(b0: byte, b1: byte, b2: byte, b3: byte)
    requires b0 / 0x20 == 6 && Shortest(b0, b1, b2, b3)
    ensures var cp := Decoded(b0, b1, b2, b3);
            Valid(cp) && Encoding(cp) == [b0, b1]
  {
    Digits(0, 0, b0 % 0x20, b1 % 0x40);
  }

  lemma ThreePass(b0: byte, b1: byte, b2: byte, b3: byte)
    requires b0 / 0x10 == 0xe && Shortest(b0, b1, b2, b3)
    ensures var cp := Decoded(b0, b1, b2, b3);
            Valid(cp) && Encoding(cp) == [b0, b1, b2]
  {
    Digits(0, b0 % 0x10, b1 % 0x40, b2 % 0x40);
  }

  lemma FourPass(b0: byte, b1: byte, b2: byte, b3: byte)
    requires b0 / 8 == 0x1e && Shortest(b0, b1, b2, b3)
    ensures var cp := Decoded(b0, b1, b2, b3);
            Valid(cp) && Encoding(cp) == [b0, b1, b2, b3]
  {
    Digits(b0 % 8, b1 % 0x40, b2 % 0x40, b3 % 0x40);
  }

  /** A well-formed text: the encodings of some code points, one after the other. */
  ghost predicate IsText(s: seq<byte>) {
    exists cps :: AllValid(cps) && s == Text(cps)
  }

  /** The code point at `i` passes every check of utf8valid. */
  ghost predicate Passes(s: seq<byte>, i: nat) {
    && Shortest(At(s, i), At(s, i + 1), At(s, i + 2), At(s, i + 3))
    && (Announced(At(s, i)) > 1 ==> !Continuation(At(s, i + Announced(At(s, i)))))
  }

  lemma TextHead(cps: seq<codepoint>)
    requires AllValid(cps) && cps != []
    ensures var s, k := Text(cps), CodepointSize(cps[0]);
            && |s| >= k == Announced(At(s, 0)) && At(s, 0) != 0 && !Continuation(At(s, 0)) && s[k..] == Text(cps[1..])
            && Shortest(At(s, 0), At(s, 1), At(s, 2), At(s, 3)) && Codepoint(s, 0) == cps[0]
  {
    var s := Text(cps);
    EncodedPasses(cps[0], At(s, 1), At(s, 2), At(s, 3));
  }

  /** A text passes the checks at its start, and what follows is a text again. */
  lemma TextPasses(s: seq<byte>)
    requires IsText(s) && s != []
    ensures Passes(s, 0) && Announced(s[0]) <= |s| && IsText(s[Announced(s[0])..])
  {
    var cps :| AllValid(cps) && s == Text(cps);
    TextHead(cps);
    var k := Announced(s[0]);
    assert At(s, k) == At(s[k..], 0);
    if |cps| > 1 {
      TextHead(cps[1..]);
    }
  }

  lemma HeadIsText(s: seq<byte>)
    requires s != [] && 0 !in s && Passes(s, 0)
    ensures var k := Announced(s[0]);
            && k <= |s| && Valid(Codepoint(s, 0)) && s[..k] == Encoding(Codepoint(s, 0))
            && (IsText(s[k..]) ==> IsText(s))
  {
    var k, cp := Announced(s[0]), Codepoint(s, 0);
    PassesEncoded(s[0], At(s, 1), At(s, 2), At(s, 3));
    assert s[..k] == [s[0], At(s, 1), At(s, 2), At(s, 3)][..k];
    if IsText(s[k..]) {
      var cps :| AllValid(cps) && s[k..] == Text(cps);
      assert ([cp] + cps)[1..] == cps && s == s[..k] + s[k..];
      assert s == Text([cp] + cps);
    }
  }

  lemma {:induction false} TextConcat(a: seq<codepoint>, b: seq<codepoint>)
    requires AllValid(a) && AllValid(b)
    ensures AllValid(a + b) && Text(a + b) == Text(a) + Text(b)
  {
    if a == [] {
      assert a + b == b;
    } else {
      assert (a + b)[1..] == a[1..] + b && (a + b)[0] == a[0];
      TextConcat(a[1..], b);
    }
  }

  /** A text is the encoding of one sequence of code points only. */
  lemma {:induction false} TextUnique(a: seq<codepoint>, b: seq<codepoint>)
    requires AllValid(a) && AllValid(b) && Text(a) == Text(b)
    ensures a == b
  {
    if a != [] { TextHead(a); }
    if b != [] { TextHead(b); }
    if a != [] && b != [] {
      TextUnique(a[1..], b[1..]);
      assert a == [a[0]] + a[1..] && b == [b[0]] + b[1..];
    }
  }

  /** A NUL-terminated string. */
  predicate CString(b: seq<byte>) {
    |b| > 0 && b[|b| - 1] == 0 && 0 !in b[..|b| - 1]
  }

  lemma PassesSuffix(t: seq<byte>, i: nat)
    requires i <= |t|
    ensures Passes(t, i) <==> Passes(t[i..], 0)
    ensures forall j {:trigger At(t[i..], j)} :: 0 <= j ==> At(t[i..], j) == At(t, i + j)
  {
    var s := t[i..];
    assert At(s, 0) == At(t, i) && At(s, 1) == At(t, i + 1) && At(s, 2) == At(t, i + 2) && At(s, 3) == At(t, i + 3);
    assert At(s, Announced(At(s, 0))) == At(t, i + Announced(At(t, i)));
  }

  /** The checks at the start decide whether the rest is a text. */
  lemma SuffixIsText(s: seq<byte>)
    requires s != [] && 0 !in s
    ensures !Passes(s, 0) ==> !IsText(s)
    ensures Passes(s, 0) ==> Announced(s[0]) <= |s| && (IsText(s) <==> IsText(s[Announced(s[0])..]))
  {
    hide IsText;
    if IsText(s) { TextPasses(s); }
    if Passes(s, 0) { HeadIsText(s); }
  }

  lemma PrefixIsText(s: seq<byte>, s': seq<byte>, cp: codepoint)
    requires IsText(s) && Valid(cp) && s' == s + Encoding(cp)
    ensures IsText(s')
  {
    var cps :| AllValid(cps) && s == Text(cps);
    TextConcat(cps, [cp]);
    assert Text([cp]) == Encoding(cp);
  }

  lemma RestIsText(b: seq<byte>, i: nat)
    requires CString(b) && i < |b| - 1
    ensures var t, k := b[..|b| - 1], Announced(b[i]);
            && (forall j :: i <= j < |b| ==> At(t, j) == b[j])
            && (!Passes(t, i) ==> !IsText(t[i..]))
            && (Passes(t, i) ==>
                 && i + k <= |t| && (IsText(t[i..]) <==> IsText(t[i + k..]))
                 && (IsText(t[..i]) ==> IsText(t[..i + k])))
  {
    hide IsText, Passes;
    var t, k := b[..|b| - 1], Announced(b[i]);
    var s := t[i..];
    PassesSuffix(t, i);
    assert 0 !in s;
    SuffixIsText(s);
    if Passes(t, i) {
      HeadIsText(s);
      assert s[k..] == t[i + k..] && t[..i + k] == t[..i] + s[..k];
      if IsText(t[..i]) { PrefixIsText(t[..i], t[..i + k], Codepoint(s, 0)); }
    }
  }

  /** utf8valid: -1 for a valid string, else where it found it wrong. */
  method Utf8Valid(b: seq<byte>) returns (p: int)
    requires CString(b)
    ensures p == -1 <==> IsText(b[..|b| - 1])
    ensures p != -1 ==> 0 <= p < |b| - 1 && IsText(b[..p]) && !IsText(b[p..|b| - 1])
  {
    hide IsText;
    ghost var t := b[..|b| - 1];
    var i := 0;
    NoText();
    while 0 != b[i]
      invariant 0 <= i < |b| && IsText(t[..i]) && (IsText(t) <==> IsText(t[i..]))
      decreases |b| - i
    {
      RestIsText(b, i);
      assert t[i..] == b[i..|b| - 1] && t[..i] == b[..i];
      if b[i] / 8 == 0x1e {
        if !Continuation(b[i + 1]) || !Continuation(b[i + 2]) || !Continuation(b[i + 3]) { return i; }
        if Continuation(b[i + 4]) { return i; }
        if b[i] % 8 == 0 && b[i + 1] / 0x10 % 4 == 0 { return i; }
        i := i + 4;
      } else if b[i] / 0x10 == 0xe {
        if !Continuation(b[i + 1]) || !Continuation(b[i + 2]) { return i; }
        if Continuation(b[i + 3]) { return i; }
        if b[i] % 0x10 == 0 && b[i + 1] / 0x20 % 2 == 0 { return i; }
        i := i + 3;
      } else if b[i] / 0x20 == 6 {
        if !Continuation(b[i + 1]) { return i; }
        if Continuation(b[i + 2]) { return i; }
        if b[i] / 2 % 0x10 == 0 { return i; }
        i := i + 2;
      } else if b[i] < 0x80 {
        i := i + 1;
      } else {
        return i;
      }
    }
    assert i == |b| - 1 && t[i..] == [];
    p := -1;
  }

  lemma NoText()
    ensures IsText([])
  {
    assert Text([]) == [] && AllValid([]);
  }

  /** Upper case letters 32 below their lower case ones. */
  predicate Upper32(cp: codepoint) {
    || 0x0041 <= cp <= 0x005a || 0x00c0 <= cp <= 0x00d6 || 0x00d8 <= cp <= 0x00de
    || 0x0391 <= cp <= 0x03a1 || 0x03a3 <= cp <= 0x03ab
  }

  predicate Lower32(cp: codepoint) {
    || 0x0061 <= cp <= 0x007a || 0x00e0 <= cp <= 0x00f6 || 0x00f8 <= cp <= 0x00fe
    || 0x03b1 <= cp <= 0x03c1 || 0x03c3 <= cp <= 0x03cb
  }

  /** utf8lwrcodepoint. */
  function LwrCodepoint(cp: codepoint): (r: codepoint) {
    if Upper32(cp) then cp + 32
    else if Paired(cp) then cp + (1 - cp % 2)
    else if PairedOdd(cp) then cp + 1 - (cp + 1) % 2
    else LwrTable(cp)
  }

  /** The single cases; 0x01af stands among them too, but its range takes it first. */
  function LwrTable(cp: codepoint): (r: codepoint) {
    match cp
    case 0x0178 => 0x00ff case 0x0243 => 0x0180 case 0x018e => 0x01dd case 0x023d => 0x019a
    case 0x0220 => 0x019e case 0x01b7 => 0x0292 case 0x01c4 => 0x01c6 case 0x01c7 => 0x01c9
    case 0x01ca => 0x01cc case 0x01f1 => 0x01f3 case 0x01f7 => 0x01bf case 0x0187 => 0x0188
    case 0x018b => 0x018c case 0x0191 => 0x0192 case 0x0198 => 0x0199 case 0x01a7 => 0x01a8
    case 0x01ac => 0x01ad case 0x01b8 => 0x01b9 case 0x01bc => 0x01bd
    case 0x01f4 => 0x01f5 case 0x023b => 0x023c case 0x0241 => 0x0242 case 0x03fd => 0x037b
    case 0x03fe => 0x037c case 0x03ff => 0x037d case 0x037f => 0x03f3 case 0x0386 => 0x03ac
    case 0x0388 => 0x03ad case 0x0389 => 0x03ae case 0x038a => 0x03af case 0x038c => 0x03cc
    case 0x038e => 0x03cd case 0x038f => 0x03ce case 0x0370 => 0x0371 case 0x0372 => 0x0373
    case 0x0376 => 0x0377 case 0x03f4 => 0x03d1 case 0x03cf => 0x03d7 case 0x03f9 => 0x03f2
    case 0x03f7 => 0x03f8 case 0x03fa => 0x03fb
    case _ => cp
  }

  /** utf8uprcodepoint. */
  function UprCodepoint(cp: codepoint): (r: codepoint) {
    if Lower32(cp) then cp - 32
    else if Paired(cp) then cp - cp % 2
    else if PairedOdd(cp) then cp - 1 + (1 - (cp - 1) % 2)
    else UprTable(cp)
  }

  function UprTable(cp: codepoint): (r: codepoint) {
    match cp
    case 0x00ff => 0x0178 case 0x0180 => 0x0243 case 0x01dd => 0x018e case 0x019a => 0x023d
    case 0x019e => 0x0220 case 0x0292 => 0x01b7 case 0x01c6 => 0x01c4 case 0x01c9 => 0x01c7
    case 0x01cc => 0x01ca case 0x01f3 => 0x01f1 case 0x01bf => 0x01f7 case 0x0188 => 0x0187
    case 0x018c => 0x018b case 0x0192 => 0x0191 case 0x0199 => 0x0198 case 0x01a8 => 0x01a7
    case 0x01ad => 0x01ac case 0x01b9 => 0x01b8 case 0x01bd => 0x01bc
    case 0x01f5 => 0x01f4 case 0x023c => 0x023b case 0x0242 => 0x0241 case 0x037b => 0x03fd
    case 0x037c => 0x03fe case 0x037d => 0x03ff case 0x03f3 => 0x037f case 0x03ac => 0x0386
    case 0x03ad => 0x0388 case 0x03ae => 0x0389 case 0x03af => 0x038a case 0x03cc => 0x038c
    case 0x03cd => 0x038e case 0x03ce => 0x038f case 0x0371 => 0x0370 case 0x0373 => 0x0372
    case 0x0377 => 0x0376 case 0x03d1 => 0x03f4 case 0x03d7 => 0x03cf case 0x03f2 => 0x03f9
    case 0x03f8 => 0x03f7 case 0x03fb => 0x03fa
    case _ => cp
  }

  /** The pairs of an upper and a lower case letter that stand alone. */
  ghost const SINGLES: set<(codepoint, codepoint)> := {
    (0x0178, 0x00ff), (0x0243, 0x0180), (0x018e, 0x01dd), (0x023d, 0x019a), (0x0220, 0x019e), (0x01b7, 0x0292),
    (0x01c4, 0x01c6), (0x01c7, 0x01c9), (0x01ca, 0x01cc), (0x01f1, 0x01f3), (0x01f7, 0x01bf), (0x0187, 0x0188),
    (0x018b, 0x018c), (0x0191, 0x0192), (0x0198, 0x0199), (0x01a7, 0x01a8), (0x01ac, 0x01ad), (0x01b8, 0x01b9),
    (0x01bc, 0x01bd), (0x01f4, 0x01f5), (0x023b, 0x023c), (0x0241, 0x0242), (0x03fd, 0x037b), (0x03fe, 0x037c),
    (0x03ff, 0x037d), (0x037f, 0x03f3), (0x0386, 0x03ac), (0x0388, 0x03ad), (0x0389, 0x03ae), (0x038a, 0x03af),
    (0x038c, 0x03cc), (0x038e, 0x03cd), (0x038f, 0x03ce), (0x0370, 0x0371), (0x0372, 0x0373), (0x0376, 0x0377),
    (0x03f4, 0x03d1), (0x03cf, 0x03d7), (0x03f9, 0x03f2), (0x03f7, 0x03f8), (0x03fa, 0x03fb)
  }

  /** `u` is the upper case letter of `l`. */
  ghost predicate CasePair(u: codepoint, l: codepoint) {
    || (l == u + 32 && (0x41 <= u <= 0x5a || 0xc0 <= u <= 0xd6 || 0xd8 <= u <= 0xde || 0x391 <= u <= 0x3a1
        || 0x3a3 <= u <= 0x3ab))
    || (l == u + 1 && u % 2 == 0 && (0x100 <= u <= 0x12e || 0x132 <= u <= 0x136 || 0x14a <= u <= 0x176
        || 0x182 <= u <= 0x184 || 0x1a0 <= u <= 0x1a4 || 0x1de <= u <= 0x1ee || 0x1f8 <= u <= 0x21e
        || 0x222 <= u <= 0x232 || 0x246 <= u <= 0x24e || 0x3d8 <= u <= 0x3ee))
    || (l == u + 1 && u % 2 == 1 && (0x139 <= u <= 0x147 || 0x179 <= u <= 0x17d || u == 0x1af || 0x1b3 <= u <= 0x1b5
        || 0x1cd <= u <= 0x1db))
    || (u, l) in SINGLES
  }

  /** `y` is the lower case letter of `x`; what has none stays. */
  ghost predicate LowerOf(x: codepoint, y: codepoint) {
    CasePair(x, y) || (x == y && forall l :: !CasePair(x, l))
  }

  ghost predicate UpperOf(x: codepoint, y: codepoint) {
    CasePair(y, x) || (x == y && forall u :: !CasePair(u, x))
  }

  lemma SinglesLower(u: codepoint, l: codepoint)
    ensures (u, l) in SINGLES <==> LwrTable(u) == l != u
  {
  }

  lemma SinglesUpper(u: codepoint, l: codepoint)
    ensures (u, l) in SINGLES <==> UprTable(l) == u != l
  {
  }

  lemma LwrPairs(cp: codepoint)
    ensures LwrCodepoint(cp) != cp ==> CasePair(cp, LwrCodepoint(cp))
  {
    hide LwrTable, SINGLES;
    SinglesLower(cp, LwrCodepoint(cp));
  }

  lemma LwrStays(cp: codepoint, l: codepoint)
    requires LwrCodepoint(cp) == cp
    ensures !CasePair(cp, l)
  {
    hide LwrTable, SINGLES;
    SinglesLower(cp, l);
    if InRange(cp) { TablesOutside(cp); }
  }

  lemma UprPairs(cp: codepoint)
    ensures UprCodepoint(cp) != cp ==> CasePair(UprCodepoint(cp), cp)
  {
    hide UprTable, SINGLES;
    SinglesUpper(UprCodepoint(cp), cp);
  }

  lemma UprStays(cp: codepoint, u: codepoint)
    requires UprCodepoint(cp) == cp
    ensures !CasePair(u, cp)
  {
    hide UprTable, SINGLES;
    SinglesUpper(u, cp);
    if InRange(cp) { TablesOutside(cp); }
  }

  /** Each letter goes to the other one of its pair, and what is in no pair stays. */
  lemma LwrIsLower(cp: codepoint)
    ensures LowerOf(cp, LwrCodepoint(cp))
  {
    hide LwrCodepoint, CasePair;
    LwrPairs(cp);
    if LwrCodepoint(cp) == cp {
      forall l ensures !CasePair(cp, l) { LwrStays(cp, l); }
    }
  }

  lemma UprIsUpper(cp: codepoint)
    ensures UpperOf(cp, UprCodepoint(cp))
  {
    hide UprCodepoint, CasePair;
    UprPairs(cp);
    if UprCodepoint(cp) == cp {
      forall u ensures !CasePair(u, cp) { UprStays(cp, u); }
    }
  }

  ghost predicate AsciiCase(cp: codepoint) {
    && (0x41 <= cp <= 0x5a ==> LwrCodepoint(cp) == cp + 32 && UprCodepoint(cp) == cp)
    && (0x61 <= cp <= 0x7a ==> LwrCodepoint(cp) == cp && UprCodepoint(cp) == cp - 32)
  }

  lemma AsciiCases(cp: codepoint)
    ensures AsciiCase(cp)
  {
  }

  predicate InRange(cp: codepoint) {
    Upper32(cp) || Lower32(cp) || Paired(cp) || PairedOdd(cp)
  }

  /** The two tables undo each other, apart from the ranges. */
  lemma LwrTableUndone(cp: codepoint)
    requires LwrTable(cp) != cp
    ensures UprTable(LwrTable(cp)) == cp
  {
  }

  lemma LwrTableApart(cp: codepoint)
    requires LwrTable(cp) != cp
    ensures !InRange(LwrTable(cp))
  {
  }

  lemma LwrTableTwice(cp: codepoint)
    ensures LwrTable(LwrTable(cp)) == LwrTable(cp)
  {
  }

  lemma UprTableUndone(cp: codepoint)
    requires UprTable(cp) != cp
    ensures LwrTable(UprTable(cp)) == cp
  {
  }

  lemma UprTableApart(cp: codepoint)
    requires UprTable(cp) != cp
    ensures !InRange(UprTable(cp))
  {
  }

  lemma UprTableTwice(cp: codepoint)
    ensures UprTable(UprTable(cp)) == UprTable(cp)
  {
  }

  lemma TablesOutside(cp: codepoint)
    requires InRange(cp)
    ensures LwrTable(cp) == cp == UprTable(cp)
  {
  }

  /** Ranges where upper and lower case alternate, the upper case one even. */
  predicate Paired(cp: codepoint) {
    || 0x0100 <= cp <= 0x012f || 0x0132 <= cp <= 0x0137 || 0x014a <= cp <= 0x0177 || 0x0182 <= cp <= 0x0185
    || 0x01a0 <= cp <= 0x01a5 || 0x01de <= cp <= 0x01ef || 0x01f8 <= cp <= 0x021f || 0x0222 <= cp <= 0x0233
    || 0x0246 <= cp <= 0x024f || 0x03d8 <= cp <= 0x03ef
  }

  /** Ranges where they alternate, the upper case one odd. */
  predicate PairedOdd(cp: codepoint) {
    || 0x0139 <= cp <= 0x0148 || 0x0179 <= cp <= 0x017e || 0x01af <= cp <= 0x01b0 || 0x01b3 <= cp <= 0x01b6
    || 0x01cd <= cp <= 0x01dc
  }

  lemma LwrSameSize(cp: codepoint)
    requires Valid(cp)
    ensures Valid(LwrCodepoint(cp)) && CodepointSize(LwrCodepoint(cp)) == CodepointSize(cp)
  {
  }

  lemma UprSameSize(cp: codepoint)
    requires Valid(cp)
    ensures Valid(UprCodepoint(cp)) && CodepointSize(UprCodepoint(cp)) == CodepointSize(cp)
  {
  }

  /** Each kind of range is closed under both maps, and there they undo each other. */
  lemma Shifted(cp: codepoint)
    requires Upper32(cp) || Lower32(cp)
    ensures var l, u := LwrCodepoint(cp), UprCodepoint(cp);
            InRange(l) && InRange(u) && (l != cp ==> u == cp && Lower32(l) && !Upper32(l) && l - 32 == cp)
            && (u != cp ==> l == cp && Upper32(u) && !Lower32(u) && u + 32 == cp)
  {
    hide LwrTable, UprTable;
    TablesOutside(cp);
  }

  lemma PairsClosed(cp: codepoint)
    ensures Paired(cp) ==>
      && !Upper32(cp) && !Lower32(cp) && !PairedOdd(cp) && Paired(cp - cp % 2) && Paired(cp + (1 - cp % 2))
    ensures PairedOdd(cp) ==>
      !Upper32(cp) && !Lower32(cp) && PairedOdd(cp + 1 - (cp + 1) % 2) && PairedOdd(cp - 1 + (1 - (cp - 1) % 2))
  {
  }

  /** Lower case letters stay, and what was changed to lower case changes back. */
  lemma LwrUndone(cp: codepoint)
    ensures LwrCodepoint(LwrCodepoint(cp)) == LwrCodepoint(cp)
    ensures LwrCodepoint(cp) != cp ==> UprCodepoint(LwrCodepoint(cp)) == cp
  {
    hide LwrTable, UprTable, Upper32, Lower32, Paired, PairedOdd;
    var l := LwrCodepoint(cp);
    PairsClosed(cp);
    PairsClosed(l);
    if Upper32(cp) || Lower32(cp) {
      Shifted(cp);
      Shifted(l);
    } else if !Paired(cp) && !PairedOdd(cp) && l != cp {
      LwrTableUndone(cp);
      LwrTableApart(cp);
      LwrTableTwice(cp);
    }
  }

  lemma UprUndone(cp: codepoint)
    ensures UprCodepoint(UprCodepoint(cp)) == UprCodepoint(cp)
    ensures UprCodepoint(cp) != cp ==> LwrCodepoint(UprCodepoint(cp)) == cp
  {
    hide LwrTable, UprTable, Upper32, Lower32, Paired, PairedOdd;
    var u := UprCodepoint(cp);
    PairsClosed(cp);
    PairsClosed(u);
    if Upper32(cp) || Lower32(cp) {
      Shifted(cp);
      Shifted(u);
    } else if !Paired(cp) && !PairedOdd(cp) && u != cp {
      UprTableUndone(cp);
      UprTableApart(cp);
      UprTableTwice(cp);
    }
  }

  /** utf8len of a valid string. */
  method Utf8Len(b: seq<byte>, ghost cps: seq<codepoint>) returns (length: nat)
    requires CString(b) && AllValid(cps) && b[..|b| - 1] == Text(cps)
    ensures length == |cps|
  {
    hide AllValid, Text;
    var i := 0;
    length := 0;
    assert cps[0..] == cps && b[0..|b| - 1] == b[..|b| - 1];
    while 0 != b[i]
      invariant 0 <= i < |b| && length <= |cps| && AllValid(cps[length..]) && b[i..|b| - 1] == Text(cps[length..])
      decreases |b| - i
    {
      NextStarts(b[i..|b| - 1], cps[length..]);
      assert b[i..|b| - 1][Announced(b[i])..] == b[i + Announced(b[i])..|b| - 1];
      assert cps[length..][1..] == cps[length + 1..];
      if b[i] / 8 == 0x1e {
        i := i + 4;
      } else if b[i] / 0x10 == 0xe {
        i := i + 3;
      } else if b[i] / 0x20 == 6 {
        i := i + 2;
      } else {
        i := i + 1;
      }
      length := length + 1;
    }
    NothingLeft(cps[length..]);
  }

  lemma NextStarts(s: seq<byte>, cps: seq<codepoint>)
    requires AllValid(cps) && s == Text(cps) && s != []
    ensures cps != [] && AllValid(cps[1..]) && Announced(s[0]) <= |s| && s[Announced(s[0])..] == Text(cps[1..])
  {
    TextHead(cps);
  }

  lemma NothingLeft(cps: seq<codepoint>)
    requires AllValid(cps) && Text(cps) == []
    ensures cps == []
  {
    if cps != [] { TextHead(cps); }
  }

  /** utf8codepoint, with the position of the next one. */
  method ReadCodepoint(a: array<byte>, p: nat) returns (cp: codepoint, pn: nat)
    requires p < a.Length && p + Announced(a[p]) <= a.Length
    ensures cp == Codepoint(a[..], p) && pn == p + Announced(a[p])
  {
    var b0: int := a[p];
    if b0 / 8 == 0x1e {
      var b1: int, b2: int, b3: int := a[p + 1], a[p + 2], a[p + 3];
      cp := b0 % 8 * 0x4_0000 + b1 % 0x40 * 0x1000 + b2 % 0x40 * 0x40 + b3 % 0x40;
      pn := p + 4;
    } else if b0 / 0x10 == 0xe {
      var b1: int, b2: int := a[p + 1], a[p + 2];
      cp := b0 % 0x10 * 0x1000 + b1 % 0x40 * 0x40 + b2 % 0x40;
      pn := p + 3;
    } else if b0 / 0x20 == 6 {
      var b1: int := a[p + 1];
      cp := b0 % 0x20 * 0x40 + b1 % 0x40;
      pn := p + 2;
    } else {
      cp := b0;
      pn := p + 1;
    }
  }

  /** utf8catcodepoint with room for `n` bytes; -1 for the null pointer. */
  method CatCodepoint(a: array<byte>, p: nat, chr: codepoint, n: nat) returns (e: int)
    requires chr <= 0x1fffff && p + n <= a.Length
    modifies a
    ensures e == if n < CodepointSize(chr) then -1 else p + CodepointSize(chr)
    ensures e == -1 ==> a[..] == old(a[..])
    ensures e != -1 ==> a[..p] == old(a[..p]) && a[p..e] == Encoding(chr) && a[e..] == old(a[e..])
  {
    if chr < 0x80 {
      if n < 1 { return -1; }
      a[p] := chr;
      return p + 1;
    } else if chr < 0x800 {
      if n < 2 { return -1; }
      a[p] := 0xc0 + chr / 0x40;
      a[p + 1] := 0x80 + chr % 0x40;
      return p + 2;
    } else if chr < 0x1_0000 {
      if n < 3 { return -1; }
      a[p] := 0xe0 + chr / 0x1000;
      a[p + 1] := 0x80 + chr / 0x40 % 0x40;
      a[p + 2] := 0x80 + chr % 0x40;
      return p + 3;
    } else {
      if n < 4 { return -1; }
      a[p] := 0xf0 + chr / 0x4_0000;
      a[p + 1] := 0x80 + chr / 0x1000 % 0x40;
      a[p + 2] := 0x80 + chr / 0x40 % 0x40;
      a[p + 3] := 0x80 + chr % 0x40;
      return p + 4;
    }
  }

  datatype Case = Lower | Upper

  function CaseMap(c: Case, cp: codepoint): (r: codepoint) {
    if c.Lower? then LwrCodepoint(cp) else UprCodepoint(cp)
  }

  function Mapped(c: Case, cps: seq<codepoint>): (r: seq<codepoint>)
    ensures |r| == |cps| && forall k :: 0 <= k < |cps| ==> r[k] == CaseMap(c, cps[k])
  {
    if cps == [] then [] else [CaseMap(c, cps[0])] + Mapped(c, cps[1..])
  }

  lemma CaseSameSize(c: Case, cp: codepoint)
    requires Valid(cp)
    ensures Valid(CaseMap(c, cp)) && CodepointSize(CaseMap(c, cp)) == CodepointSize(cp)
  {
    LwrSameSize(cp);
    UprSameSize(cp);
  }

  /** `a` when the code points before `p` are converted: `done` says which, `rest` are still to come. */
  ghost predicate Converted(c: Case, t: seq<byte>, cps: seq<codepoint>, p: nat, done: seq<codepoint>,
                            rest: seq<codepoint>) {
    && AllValid(cps) && cps == done + rest && AllValid(Mapped(c, done)) && AllValid(rest)
    && p <= |t| && t[..p] == Text(Mapped(c, done)) && t[p..] == Text(rest)
  }

  lemma ConvertStart(c: Case, t: seq<byte>, cps: seq<codepoint>)
    requires AllValid(cps) && t == Text(cps)
    ensures Converted(c, t, cps, 0, [], cps)
  {
    assert t[0..] == t && t[..0] == [] && Mapped(c, []) == [] && [] + cps == cps;
  }

  lemma HeadBytes(c: Case, t: seq<byte>, cps: seq<codepoint>, p: nat, done: seq<codepoint>, rest: seq<codepoint>)
    requires Converted(c, t, cps, p, done, rest) && rest != []
    ensures Valid(rest[0])
    ensures var k := CodepointSize(rest[0]);
            p + k <= |t| && t[p..p + k] == Encoding(rest[0])
  {
    var k := CodepointSize(rest[0]);
    assert t[p..][..k] == Encoding(rest[0]);
    assert t[p..p + k] == t[p..][..k];
  }

  /** What utf8codepoint reads at `p`: the next code point, or the NUL. */
  lemma ReadsNext(c: Case, b: seq<byte>, n: nat, cps: seq<codepoint>, p: nat, done: seq<codepoint>,
                  rest: seq<codepoint>)
    requires n < |b| && b[n] == 0 && Converted(c, b[..n], cps, p, done, rest)
    ensures p <= n && p + Announced(b[p]) <= |b|
    ensures p == n ==> rest == [] && Codepoint(b, p) == 0
    ensures p < n ==>
      && rest != [] && Codepoint(b, p) == rest[0] && Valid(rest[0])
      && p + Announced(b[p]) == p + CodepointSize(rest[0]) <= n
  {
    var s := b[..n][p..];
    if rest != [] {
      TextHead(rest);
      assert At(s, 0) == At(b, p);
      var k := CodepointSize(rest[0]);
      assert forall j {:trigger At(s, j)} :: 0 <= j < k ==> At(s, j) == At(b, p + j);
      assert k > 1 ==> At(s, 1) == At(b, p + 1);
      assert k > 2 ==> At(s, 2) == At(b, p + 2);
      assert k > 3 ==> At(s, 3) == At(b, p + 3);
    }
  }

  lemma {:induction false} MappedNext(c: Case, done: seq<codepoint>, cp: codepoint)
    ensures Mapped(c, done + [cp]) == Mapped(c, done) + [CaseMap(c, cp)]
  {
  }

  /** One more code point converted in place. */
  lemma ConvertNext(c: Case, t: seq<byte>, t': seq<byte>, cps: seq<codepoint>, p: nat, done: seq<codepoint>,
                    rest: seq<codepoint>)
    requires Converted(c, t, cps, p, done, rest) && rest != [] && Valid(rest[0]) && |t'| == |t|
    requires Valid(CaseMap(c, rest[0])) && CodepointSize(CaseMap(c, rest[0])) == CodepointSize(rest[0])
    requires var k := CodepointSize(rest[0]);
             && p + k <= |t| && t'[..p] == t[..p]
             && t'[p..p + k] == Encoding(CaseMap(c, rest[0])) && t'[p + k..] == t[p + k..]
    ensures Converted(c, t', cps, p + CodepointSize(rest[0]), done + [rest[0]], rest[1..])
  {
    hide CaseMap, Encoding, CodepointSize, Valid;
    var cp, k := rest[0], CodepointSize(rest[0]);
    MappedNext(c, done, cp);
    NextText(Mapped(c, done), CaseMap(c, cp), rest);
    assert t'[..p + k] == t'[..p] + t'[p..p + k];
    SubSlice(t, p, |t|, k, |t| - p);
    assert t[p + k..] == t[p..][k..];
    assert cps == (done + [cp]) + rest[1..];
  }

  lemma NextText(done: seq<codepoint>, cp: codepoint, rest: seq<codepoint>)
    requires AllValid(done) && Valid(cp) && AllValid(rest) && rest != []
    ensures AllValid(done + [cp]) && Text(done + [cp]) == Text(done) + Encoding(cp)
    ensures AllValid(rest[1..]) && |Text(rest)| >= CodepointSize(rest[0])
    ensures Text(rest)[CodepointSize(rest[0])..] == Text(rest[1..])
  {
    hide Encoding, CodepointSize;
    TextConcat(done, [cp]);
    assert Text([cp]) == Encoding(cp);
  }

  lemma ConvertEnd(c: Case, t: seq<byte>, cps: seq<codepoint>, p: nat, done: seq<codepoint>, rest: seq<codepoint>)
    requires Converted(c, t, cps, p, done, rest) && p == |t| && rest == []
    ensures AllValid(Mapped(c, cps)) && t == Text(Mapped(c, cps))
  {
    assert done == cps && t[..p] == t;
  }

  /** utf8lwr and utf8upr of a valid string. */
  method Convert(c: Case, a: array<byte>, n: nat, ghost cps: seq<codepoint>) returns (ghost out: seq<codepoint>)
    requires n < a.Length && a[n] == 0 && AllValid(cps) && a[..n] == Text(cps)
    modifies a
    ensures AllValid(out) && a[..n] == Text(out) && a[n..] == old(a[n..]) && |out| == |cps|
    ensures forall k :: 0 <= k < |cps| ==> if c.Lower? then LowerOf(cps[k], out[k]) else UpperOf(cps[k], out[k])
    ensures forall k :: 0 <= k < |cps| && 0x41 <= cps[k] <= 0x5a ==> out[k] == cps[k] + if c.Lower? then 32 else 0
    ensures forall k :: 0 <= k < |cps| && 0x61 <= cps[k] <= 0x7a ==> out[k] == cps[k] - if c.Lower? then 0 else 32
  {
    hide Converted, AllValid, Text, LwrCodepoint, UprCodepoint, LowerOf, UpperOf;
    forall k | 0 <= k < |cps|
      ensures LowerOf(cps[k], LwrCodepoint(cps[k])) && UpperOf(cps[k], UprCodepoint(cps[k]))
    {
      LwrIsLower(cps[k]);
      UprIsUpper(cps[k]);
    }
    forall k | 0 <= k < |cps| ensures AsciiCase(cps[k]) {
      AsciiCases(cps[k]);
    }
    out := Mapped(c, cps);
    var p: nat := 0;
    ghost var done, rest := [], cps;
    ConvertStart(c, a[..n], cps);
    var cp, pn := ReadNext(c, a, n, p, cps, done, rest);
    while cp != 0
      invariant a[n] == 0 && a[n..] == old(a[n..])
      invariant Reached(c, a[..n], n, p, cp, pn, cps, done, rest)
      decreases |rest|
    {
      ConvertOne(c, a, n, p, cp, pn, cps, done, rest);
      done, rest := done + [rest[0]], rest[1..];
      p := pn;
      cp, pn := ReadNext(c, a, n, p, cps, done, rest);
    }
    ConvertEnd(c, a[..n], cps, n, done, rest);
  }

  /** The code point `cp` read at `p`, with `pn` behind it, is the next one to convert. */
  ghost predicate Reached(c: Case, t: seq<byte>, n: nat, p: nat, cp: codepoint, pn: nat, cps: seq<codepoint>,
                          done: seq<codepoint>, rest: seq<codepoint>) {
    && Converted(c, t, cps, p, done, rest) && |t| == n && p <= n
    && if cp == 0 then p == n && rest == []
       else p < n && rest != [] && Valid(cp) && cp == rest[0] && pn == p + CodepointSize(cp) <= n
  }

  method ReadNext(c: Case, a: array<byte>, n: nat, p: nat, ghost cps: seq<codepoint>, ghost done: seq<codepoint>,
                  ghost rest: seq<codepoint>)
    returns (cp: codepoint, pn: nat)
    requires n < a.Length && a[n] == 0 && Converted(c, a[..n], cps, p, done, rest)
    ensures Reached(c, a[..n], n, p, cp, pn, cps, done, rest)
  {
    hide Converted;
    assert a[..][..n] == a[..n];
    ReadsNext(c, a[..], n, cps, p, done, rest);
    cp, pn := ReadCodepoint(a, p);
  }

  /** One round of the conversion. */
  method ConvertOne(c: Case, a: array<byte>, n: nat, p: nat, cp: codepoint, pn: nat,
                    ghost cps: seq<codepoint>, ghost done: seq<codepoint>, ghost rest: seq<codepoint>)
    requires n < a.Length && a[n] == 0 && cp != 0 && Reached(c, a[..n], n, p, cp, pn, cps, done, rest)
    modifies a
    ensures a[n..] == old(a[n..]) && rest != [] && Converted(c, a[..n], cps, pn, done + [rest[0]], rest[1..])
  {
    hide Converted, Encoding;
    CaseSameSize(c, cp);
    ghost var before := a[..];
    assert before[..n] == a[..n];
    var lwr := CaseMap(c, cp);
    var size := CodepointSize(lwr);
    if lwr != cp {
      var e := CatCodepoint(a, p, lwr, size);
      Replaced(before, a[..], p, pn, n, Encoding(lwr));
      assert a[..n] == a[..][..n] && a[n..] == a[..][n..];
    } else {
      HeadBytes(c, before[..n], cps, p, done, rest);
    }
    ConvertNext(c, before[..n], a[..n], cps, p, done, rest);
  }

  /** Bytes put between `p` and `pn`, seen in the text that ends at `n`. */
  lemma Replaced(b: seq<byte>, b': seq<byte>, p: nat, pn: nat, n: nat, e: seq<byte>)
    requires p <= pn <= n <= |b| == |b'| && b'[..p] == b[..p] && b'[p..pn] == e && b'[pn..] == b[pn..]
    ensures b'[n..] == b[n..]
    ensures var t, t' := b[..n], b'[..n]; t'[..p] == t[..p] && t'[p..pn] == e && t'[pn..] == t[pn..]
  {
    SubSlice(b, pn, |b|, n - pn, |b| - pn);
    SubSlice(b', pn, |b|, n - pn, |b| - pn);
    SubSlice(b, pn, |b|, 0, n - pn);
    SubSlice(b', pn, |b|, 0, n - pn);
    SubSlice(b, 0, n, pn, n);
    SubSlice(b', 0, n, pn, n);
    SubSlice(b, 0, n, 0, p);
    SubSlice(b', 0, n, 0, p);
    SubSlice(b', 0, n, p, pn);
  }

  // ---------- Comparison ----------

  /** `s` comes before `t`: by the first place where they differ, a prefix before what it begins. */
  predicate Less(s: seq<int>, t: seq<int>) {
    t != [] && (s == [] || s[0] < t[0] || (s[0] == t[0] && Less(s[1..], t[1..])))
  }

  lemma {:induction false} LessAt(s: seq<int>, t: seq<int>, i: nat)
    requires i <= |s| && i < |t| && s[..i] == t[..i] && (i < |s| ==> s[i] < t[i])
    ensures Less(s, t) && !Less(t, s)
  {
    if i > 0 {
      assert s[0] == s[..i][0] == t[..i][0] == t[0];
      assert s[1..][..i - 1] == s[..i][1..] == t[..i][1..] == t[1..][..i - 1];
      LessAt(s[1..], t[1..], i - 1);
    }
  }

  lemma {:induction false} LessBehind(e: seq<int>, s: seq<int>, t: seq<int>)
    ensures Less(e + s, e + t) <==> Less(s, t)
  {
    if e == [] {
      assert e + s == s && e + t == t;
    } else {
      assert (e + s)[1..] == e[1..] + s && (e + t)[1..] == e[1..] + t;
      LessBehind(e[1..], s, t);
    }
  }

  lemma {:induction false} LessSelf(s: seq<int>)
    ensures !Less(s, s)
  {
    if s != [] { LessSelf(s[1..]); }
  }

  /** Of two numbers in base 64 the smaller one has smaller leading digits, or the same and a smaller last one. */
  lemma LastDigit(x: nat, y: nat)
    requires x <= y
    ensures x / 0x40 <= y / 0x40 && (x / 0x40 == y / 0x40 ==> x % 0x40 <= y % 0x40)
    ensures x < y && x / 0x40 == y / 0x40 ==> x % 0x40 < y % 0x40
  {
  }

  lemma Quotients(x: nat)
    ensures x / 0x40 / 0x40 == x / 0x1000 && x / 0x1000 / 0x40 == x / 0x4_0000
  {
  }

  /** The first place where the two differ, counted from the last one. */
  function DifferAt(x: nat, y: nat): (j: nat)
    ensures j <= 3
  {
    if x / 0x4_0000 != y / 0x4_0000 then 3 else if x / 0x1000 != y / 0x1000 then 2
    else if x / 0x40 != y / 0x40 then 1 else 0
  }

  /** Before that place the digits are the same, and there the smaller number has the smaller one. */
  lemma DigitsOrder(x: nat, y: nat)
    requires x < y
    ensures var j := DifferAt(x, y);
      && x / 0x4_0000 <= y / 0x4_0000 && (j == 3 ==> x / 0x4_0000 < y / 0x4_0000)
      && (j == 2 ==> x / 0x1000 < y / 0x1000 && x / 0x1000 % 0x40 < y / 0x1000 % 0x40)
      && (j == 1 ==> x / 0x40 < y / 0x40 && x / 0x40 % 0x40 < y / 0x40 % 0x40)
      && (j == 0 ==> x % 0x40 < y % 0x40)
  {
    Quotients(x);
    Quotients(y);
    LastDigit(x, y);
    LastDigit(x / 0x40, y / 0x40);
    LastDigit(x / 0x1000, y / 0x1000);
  }

  /** The encoding of a smaller code point has a smaller byte where the two first differ. */
  lemma EncodingOrder(x: codepoint, y: codepoint) returns (i: nat)
    requires x < y <= 0x1fffff
    ensures i < |Encoding(x)| && i < |Encoding(y)|
    ensures Encoding(x)[..i] == Encoding(y)[..i] && Encoding(x)[i] < Encoding(y)[i]
  {
    var n, j := CodepointSize(x), DifferAt(x, y);
    DigitsOrder(x, y);
    if CodepointSize(y) > n || n == 1 {
      i := 0;
    } else {
      SizeBounds(x);
      SizeBounds(y);
      i := n - 1 - j;
      SameLead(x, y, i);
    }
  }

  /** The digits above those of its size are 0. */
  lemma SizeBounds(x: codepoint)
    requires x <= 0x1fffff
    ensures x < 0x1_0000 ==> x / 0x4_0000 == 0
    ensures x < 0x800 ==> x / 0x1000 == 0
  {
  }

  lemma SameLead(x: codepoint, y: codepoint, i: nat)
    requires x <= 0x1fffff && y <= 0x1fffff && CodepointSize(x) == CodepointSize(y) > 1
    requires i == CodepointSize(x) - 1 - DifferAt(x, y)
    ensures Encoding(x)[..i] == Encoding(y)[..i]
  {
    Quotients(x);
    Quotients(y);
  }

  lemma TextsLess(xs: seq<codepoint>, ys: seq<codepoint>)
    requires AllValid(xs) && AllValid(ys) && xs != [] && ys != [] && xs[0] < ys[0]
    ensures Less(Text(xs), Text(ys)) && !Less(Text(ys), Text(xs))
  {
    hide Encoding;
    var i := EncodingOrder(xs[0], ys[0]);
    var s, t := Text(xs), Text(ys);
    assert s[..i] == Encoding(xs[0])[..i] && t[..i] == Encoding(ys[0])[..i];
    LessAt(s, t, i);
  }

  /** Texts are in the order of their code points. */
  lemma {:induction false} TextOrder(xs: seq<codepoint>, ys: seq<codepoint>)
    requires AllValid(xs) && AllValid(ys)
    ensures Less(Text(xs), Text(ys)) <==> Less(xs, ys)
  {
    hide Encoding;
    if xs != [] && ys != [] {
      if xs[0] < ys[0] {
        TextsLess(xs, ys);
      } else if xs[0] > ys[0] {
        TextsLess(ys, xs);
      } else {
        LessBehind(Encoding(xs[0]), Text(xs[1..]), Text(ys[1..]));
        TextOrder(xs[1..], ys[1..]);
      }
    }
  }

  /** utf8cmp, on any two C strings. */
  method Utf8Cmp(b1: seq<byte>, b2: seq<byte>) returns (r: int)
    requires CString(b1) && CString(b2)
    ensures r == -1 <==> Less(b1[..|b1| - 1], b2[..|b2| - 1])
    ensures r == 1 <==> Less(b2[..|b2| - 1], b1[..|b1| - 1])
    ensures r == 0 <==> b1 == b2
    ensures r in {-1, 0, 1}
  {
    ghost var s, t := b1[..|b1| - 1], b2[..|b2| - 1];
    var i := 0;
    while b1[i] != 0 || b2[i] != 0
      invariant i < |b1| && i < |b2| && b1[..i] == b2[..i]
      decreases |b1| - i
    {
      assert s[..i] == b1[..i] && t[..i] == b2[..i];
      if b1[i] < b2[i] {
        LessAt(s, t, i);
        return -1;
      } else if b1[i] > b2[i] {
        LessAt(t, s, i);
        return 1;
      }
      i := i + 1;
    }
    assert b1 == b1[..i] + [0] && b2 == b2[..i] + [0];
    LessSelf(s);
    return 0;
  }
}
