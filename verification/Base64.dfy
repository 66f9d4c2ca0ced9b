/** The base64 codec of bstrlib's auxiliary functions (RFC 1341, section 5.2). */
module Base64 {
  import opened Common

  const PAD: byte := 61

  type sextet = x: int | 0 <= x < 64

  /** b64ETable. */
  function Symbol(v: sextet): (c: byte) {
    if v < 26 then 65 + v else if v < 52 then 97 + v - 26
    else if v < 62 then 48 + v - 52 else if v == 62 then 43 else 47
  }

  /** base64DecodeSymbol: -2 for the pad, -1 for what is no symbol. */
  function DecodeSymbol(c: byte): (v: int)
    ensures v < 64
  {
    if 65 <= c <= 90 then c - 65
    else if 97 <= c <= 122 then 26 + (c - 97)
    else if 48 <= c <= 57 then 52 + (c - 48)
    else if c == 43 then 62
    else if c == 47 then 63
    else if c == PAD then -2
    else -1
  }

  lemma SymbolDecodes(v: sextet)
    ensures DecodeSymbol(Symbol(v)) == v && Symbol(v) != CR && Symbol(v) != LF
  {
  }

  /** The alphabet, as RFC 1341 lists it. */
  ghost const ALPHABET: string := UPPER + LOWER + OTHERS
  ghost const UPPER := "ABCDEFGHIJKLMNOPQRSTUVWXYZ"
  ghost const LOWER := "abcdefghijklmnopqrstuvwxyz"
  ghost const OTHERS := "0123456789+/"

  lemma UpperListed(v: nat)
    ensures |UPPER| == 26 && (v < 26 ==> UPPER[v] as int == 65 + v)
  {
  }

  lemma LowerListed(v: nat)
    ensures |LOWER| == 26 && (v < 26 ==> LOWER[v] as int == 97 + v)
  {
  }

  lemma OthersListed(v: nat)
    ensures |OTHERS| == 12
    ensures v < 12 ==> OTHERS[v] as int == if v < 10 then 48 + v else if v == 10 then 43 else 47
  {
  }

  lemma SymbolListed(v: sextet)
    ensures |ALPHABET| == 64 && ALPHABET[v] as int == Symbol(v)
  {
    hide UPPER, LOWER, OTHERS;
    UpperListed(if v < 26 then v else 0);
    LowerListed(if 26 <= v then v - 26 else 0);
    OthersListed(if 52 <= v then v - 52 else 0);
  }

  /** The decoder knows the symbols by their places in the alphabet. */
  lemma DecodeSymbolIs(c: byte)
    ensures |ALPHABET| == 64
    ensures forall k :: 0 <= k < 64 ==> (ALPHABET[k] as int == c <==> DecodeSymbol(c) == k)
    ensures DecodeSymbol(c) == -2 <==> c == '=' as int
    ensures DecodeSymbol(c) == -1 <==> c != '=' as int && forall k :: 0 <= k < 64 ==> ALPHABET[k] as int != c
  {
    hide ALPHABET;
    forall k: int | 0 <= k < 64 ensures |ALPHABET| == 64 && ALPHABET[k] as int == Symbol(k) {
      SymbolListed(k);
    }
    SymbolListed(0);
    if DecodeSymbol(c) >= 0 { SymbolOf(c); }
    forall k: int | 0 <= k < 64 && Symbol(k) == c ensures DecodeSymbol(c) == k {
      SymbolDecodes(k);
    }
  }

  lemma SymbolOf(c: byte)
    requires DecodeSymbol(c) >= 0
    ensures Symbol(DecodeSymbol(c)) == c
  {
  }

  /** The line break before the group at `i`. */
  function Break(i: nat): (s: seq<byte>) {
    if i > 0 && i % 57 == 0 then [CR, LF] else []
  }

  function Group(x: byte, y: byte, z: byte): (s: seq<byte>) {
    [Symbol(x / 4), Symbol(x % 4 * 16 + y / 16), Symbol(y % 16 * 4 + z / 64), Symbol(z % 64)]
  }

  /** What is put out for the bytes from `i` on, a multiple of 3. */
  function Encoded(b: seq<byte>, i: nat): (s: seq<byte>)
    requires i <= |b|
    decreases |b| - i
  {
    if i + 2 < |b| then Break(i) + Group(b[i], b[i + 1], b[i + 2]) + Encoded(b, i + 3)
    else Break(i) + LastGroup(b, i)
  }

  function LastGroup(b: seq<byte>, i: nat): (s: seq<byte>)
    requires |b| - 2 <= i <= |b|
  {
    if i + 2 == |b| then
      [Symbol(b[i] / 4), Symbol(b[i] % 4 * 16 + b[i + 1] / 16), Symbol(b[i + 1] % 16 * 4), PAD]
    else if i + 1 == |b| then [Symbol(b[i] / 4), Symbol(b[i] % 4 * 16), PAD, PAD]
    else []
  }

  /** In the text `t` the three bytes of group `g` are their number in base 64, the highest digit first. A digit
      of which no bit comes from the source is a pad. */
  ghost predicate GroupAt(b: seq<byte>, g: nat, t: seq<byte>, q: nat) {
    && q + 4 <= |t| && |ALPHABET| == 64
    && var v := Octet(b, 3 * g) * 65536 + Octet(b, 3 * g + 1) * 256 + Octet(b, 3 * g + 2);
    && t[q] == ALPHABET[v / 262144] as int && t[q + 1] == ALPHABET[v / 4096 % 64] as int
    && t[q + 2] == (if 3 * g + 1 < |b| then ALPHABET[v / 64 % 64] else '=') as int
    && t[q + 3] == (if 3 * g + 2 < |b| then ALPHABET[v % 64] else '=') as int
  }

  /** The breaks before the groups up to and with the one before group `g`. */
  ghost function BreaksBefore(g: nat): (n: nat) {
    if g == 0 then 0 else (g - 1) / 19
  }

  lemma BreakLength(g: nat)
    ensures |Break(3 * g)| == 2 * (g / 19 - BreaksBefore(g)) && BreaksBefore(g + 1) == g / 19
    ensures g > 0 && g % 19 == 0 ==> Break(3 * g) == [CR, LF]
  {
    var a, q := g / 19, g % 19;
    assert 3 * g == 57 * a + 3 * q && 3 * q < 57;
    assert 3 * g % 57 == 3 * q;
    assert g > 0 ==> (g - 1) / 19 == if q == 0 then a - 1 else a;
  }

  lemma SixBits(x: byte, y: byte, z: byte)
    ensures var v := x * 65536 + y * 256 + z;
      v / 262144 == x / 4 && v / 4096 % 64 == x % 4 * 16 + y / 16 && v / 64 % 64 == y % 16 * 4 + z / 64
      && v % 64 == z % 64
  {
    Base64Digits(x * 65536 + y * 256 + z, x / 4, x % 4 * 16 + y / 16, y % 16 * 4 + z / 64, z % 64);
  }

  /** The first group of what is put out from group `g` on. */
  lemma FirstGroup(b: seq<byte>, g: nat)
    requires 3 * g < |b|
    ensures GroupAt(b, g, Encoded(b, 3 * g), |Break(3 * g)|)
  {
    hide Break, GroupAt;
    var x, y, z := Octet(b, 3 * g), Octet(b, 3 * g + 1), Octet(b, 3 * g + 2);
    if 3 * g + 2 < |b| {
      var t := Group(x, y, z) + Encoded(b, 3 * g + 3);
      WholeGroup(b, g, t);
      GroupShifted(b, g, Break(3 * g), t, 0);
      assert Break(3 * g) + t == Encoded(b, 3 * g);
    } else {
      RestGroup(b, g);
      GroupShifted(b, g, Break(3 * g), LastGroup(b, 3 * g), 0);
    }
  }

  lemma WholeGroup(b: seq<byte>, g: nat, t: seq<byte>)
    requires 3 * g + 2 < |b| && |t| >= 4 && t[..4] == Group(b[3 * g], b[3 * g + 1], b[3 * g + 2])
    ensures GroupAt(b, g, t, 0)
  {
    hide Symbol, ALPHABET;
    var x, y, z := b[3 * g], b[3 * g + 1], b[3 * g + 2];
    assert forall k :: 0 <= k < 4 ==> t[k] == t[..4][k];
    GroupListed(x, y, z);
  }

  lemma GroupListed(x: byte, y: byte, z: byte)
    ensures |ALPHABET| == 64
    ensures var v := x * 65536 + y * 256 + z;
      && Symbol(x / 4) == ALPHABET[v / 262144] as int
      && Symbol(x % 4 * 16 + y / 16) == ALPHABET[v / 4096 % 64] as int
      && Symbol(y % 16 * 4 + z / 64) == ALPHABET[v / 64 % 64] as int
      && Symbol(z % 64) == ALPHABET[v % 64] as int
  {
    hide Symbol, ALPHABET;
    SixBits(x, y, z);
    SymbolListed(x / 4);
    SymbolListed(x % 4 * 16 + y / 16);
    SymbolListed(y % 16 * 4 + z / 64);
    SymbolListed(z % 64);
  }

  lemma RestGroup(b: seq<byte>, g: nat)
    requires |b| - 2 <= 3 * g < |b|
    ensures GroupAt(b, g, LastGroup(b, 3 * g), 0)
  {
    hide Symbol, ALPHABET;
    GroupListed(b[3 * g], Octet(b, 3 * g + 1), 0);
  }

  /** Every group stands where it should: four characters to a group, two to a break. */
  lemma {:induction false} EncodedGroup(b: seq<byte>, i: nat, g: nat)
    requires i <= g && 3 * g < |b|
    ensures g / 19 >= BreaksBefore(i)
    ensures GroupAt(b, g, Encoded(b, 3 * i), 4 * (g - i) + 2 * (g / 19 - BreaksBefore(i)))
    decreases g - i
  {
    hide Break, Group, BreaksBefore, GroupAt;
    BreakLength(i);
    if i == g {
      FirstGroup(b, g);
    } else {
      EncodedGroup(b, i + 1, g);
      GroupShifted(b, g, Break(3 * i) + Group(b[3 * i], b[3 * i + 1], b[3 * i + 2]), Encoded(b, 3 * i + 3),
                   4 * (g - (i + 1)) + 2 * (g / 19 - BreaksBefore(i + 1)));
      GroupSize(b[3 * i], b[3 * i + 1], b[3 * i + 2]);
    }
  }

  lemma GroupSize(x: byte, y: byte, z: byte)
    ensures |Group(x, y, z)| == 4
  {
  }

  lemma GroupShifted(b: seq<byte>, g: nat, s: seq<byte>, t: seq<byte>, q: nat)
    requires GroupAt(b, g, t, q)
    ensures GroupAt(b, g, s + t, |s| + q)
  {
    hide ALPHABET;
  }

  /** So does every break. */
  lemma {:induction false} EncodedBreak(b: seq<byte>, i: nat, m: nat)
    requires 0 < m && i <= 19 * m && 57 * m <= |b|
    ensures var q := 4 * (19 * m - i) + 2 * (m - 1 - BreaksBefore(i));
            0 <= q && q + 2 <= |Encoded(b, 3 * i)| && Encoded(b, 3 * i)[q..q + 2] == [CR, LF]
    decreases 19 * m - i
  {
    hide Break, Group, LastGroup, BreaksBefore;
    BreakLength(i);
    if i < 19 * m {
      EncodedBreak(b, i + 1, m);
      GroupSize(b[3 * i], b[3 * i + 1], b[3 * i + 2]);
      var q := 4 * (19 * m - (i + 1)) + 2 * (m - 1 - BreaksBefore(i + 1));
      SliceBehind(Break(3 * i) + Group(b[3 * i], b[3 * i + 1], b[3 * i + 2]), Encoded(b, 3 * i + 3), q);
    }
  }

  lemma SliceBehind(s: seq<byte>, t: seq<byte>, q: nat)
    requires q + 2 <= |t|
    ensures (s + t)[|s| + q..|s| + q + 2] == t[q..q + 2]
  {
  }

  lemma {:induction false} EncodedLength(b: seq<byte>, i: nat)
    requires 3 * i <= |b|
    ensures |Encoded(b, 3 * i)| == 4 * ((|b| + 2) / 3 - i) + 2 * (|b| / 57 - BreaksBefore(i))
    decreases |b| - i
  {
    hide Break, Group, BreaksBefore;
    BreakLength(i);
    if 3 * i + 2 < |b| {
      EncodedLength(b, i + 1);
      GroupSize(b[3 * i], b[3 * i + 1], b[3 * i + 2]);
    } else {
      assert |b| / 57 == i / 19;
    }
  }

  /** bBase64Encode; none when the output with its NUL is no `int`. */
  method BBase64Encode(b: seq<byte>) returns (r: Option<seq<byte>>)
    ensures r == if |Encoded(b, 0)| < INT_MAX then Some(Encoded(b, 0)) else None
    ensures r.None? <==> 4 * ((|b| + 2) / 3) + 2 * (|b| / 57) >= INT_MAX
    ensures r.Some? ==>
      && |r.value| == 4 * ((|b| + 2) / 3) + 2 * (|b| / 57)
      && (forall g :: 0 <= g < (|b| + 2) / 3 ==> GroupPlaced(b, r.value, g))
      && (forall m :: 0 < m <= |b| / 57 ==> BreakPlaced(r.value, m))
  {
    hide Encoded, Break, Group, LastGroup, Symbol, GroupPlaced, BreakPlaced;
    EncodedPlaces(b);
    r := Some([]);
    var i := 0;
    while i + 2 < |b|
      invariant 0 <= i <= |b| && r.Some? && |r.value| < INT_MAX && r.value + Encoded(b, i) == Encoded(b, 0)
    {
      EncodedMore(b, i, r.value);
      BreakIs(i);
      GroupIs(b[i], b[i + 1], b[i + 2]);
      if i != 0 && i % 57 == 0 {
        r := Conchars(r.value, [CR, LF]);
        if r.None? { return; }
      }
      var c0 := b[i] / 4;
      var c1 := b[i] % 4 * 16 + b[i + 1] / 16;
      var c2 := b[i + 1] % 16 * 4 + b[i + 2] / 64;
      var c3 := b[i + 2] % 64;
      r := Conchars(r.value, [Symbol(c0), Symbol(c1), Symbol(c2), Symbol(c3)]);
      if r.None? { return; }
      i := i + 3;
    }
    EncodedEnd(b, i, r.value);
    BreakIs(i);
    LastGroupIs(b, i);
    if i != 0 && i % 57 == 0 {
      r := Conchars(r.value, [CR, LF]);
      if r.None? { return; }
    }
    if i + 2 == |b| {
      r := Conchars(r.value, [Symbol(b[i] / 4), Symbol(b[i] % 4 * 16 + b[i + 1] / 16), Symbol(b[i + 1] % 16 * 4), PAD]);
    } else if i + 1 == |b| {
      r := Conchars(r.value, [Symbol(b[i] / 4), Symbol(b[i] % 4 * 16), PAD, PAD]);
    }
  }

  /** Group `g` is behind 4 characters for every group and 2 for every break before. */
  ghost predicate GroupPlaced(b: seq<byte>, t: seq<byte>, g: nat) {
    GroupAt(b, g, t, 4 * g + 2 * (g / 19))
  }

  /** The `m`th break is behind `m` lines of 76 characters. */
  ghost predicate BreakPlaced(t: seq<byte>, m: int) {
    0 < 78 * m <= |t| && t[78 * m - 2] == 13 && t[78 * m - 1] == 10
  }

  lemma EncodedPlaces(b: seq<byte>)
    ensures |Encoded(b, 0)| == 4 * ((|b| + 2) / 3) + 2 * (|b| / 57)
    ensures forall g :: 0 <= g < (|b| + 2) / 3 ==> GroupPlaced(b, Encoded(b, 0), g)
    ensures forall m :: 0 < m <= |b| / 57 ==> BreakPlaced(Encoded(b, 0), m)
  {
    hide Encoded, GroupAt;
    EncodedLength(b, 0);
    forall g: int | 0 <= g < (|b| + 2) / 3 ensures GroupPlaced(b, Encoded(b, 0), g) {
      EncodedGroup(b, 0, g);
    }
    forall m: int | 0 < m <= |b| / 57 ensures BreakPlaced(Encoded(b, 0), m) {
      EncodedBreak(b, 0, m);
      var t := Encoded(b, 0);
      assert t[78 * m - 2..78 * m][0] == 13 && t[78 * m - 2..78 * m][1] == 10;
    }
  }

  lemma EncodedMore(b: seq<byte>, i: nat, out: seq<byte>)
    requires i + 2 < |b|
    ensures var g := Group(b[i], b[i + 1], b[i + 2]);
            && out + Encoded(b, i) == out + Break(i) + g + Encoded(b, i + 3)
            && (Break(i) == [] ==> out + Break(i) == out)
  {
    Associative(out, Break(i), Group(b[i], b[i + 1], b[i + 2]), Encoded(b, i + 3));
  }

  lemma EncodedEnd(b: seq<byte>, i: nat, out: seq<byte>)
    requires |b| - 2 <= i <= |b|
    ensures out + Encoded(b, i) == out + Break(i) + LastGroup(b, i)
    ensures Break(i) == [] ==> out + Break(i) == out
    ensures LastGroup(b, i) == [] ==> out + Break(i) + LastGroup(b, i) == out + Break(i)
  {
    Associative3(out, Break(i), LastGroup(b, i));
  }

  lemma BreakIs(i: nat)
    ensures Break(i) == if i != 0 && i % 57 == 0 then [CR, LF] else []
  {
  }

  lemma GroupIs(x: byte, y: byte, z: byte)
    ensures Group(x, y, z) == [Symbol(x / 4), Symbol(x % 4 * 16 + y / 16), Symbol(y % 16 * 4 + z / 64), Symbol(z % 64)]
  {
  }

  lemma LastGroupIs(b: seq<byte>, i: nat)
    requires |b| - 2 <= i <= |b|
    ensures i + 2 == |b| ==>
      LastGroup(b, i) == [Symbol(b[i] / 4), Symbol(b[i] % 4 * 16 + b[i + 1] / 16), Symbol(b[i + 1] % 16 * 4), PAD]
    ensures i + 1 == |b| ==> LastGroup(b, i) == [Symbol(b[i] / 4), Symbol(b[i] % 4 * 16), PAD, PAD]
    ensures i == |b| ==> LastGroup(b, i) == []
  {
  }

  /** No line of `s` has more than `n` characters, the first one with `cur` characters before it. */
  predicate ShortLines(s: seq<byte>, cur: nat, n: nat) {
    cur <= n && (s == [] || ShortLines(s[1..], if s[0] == CR || s[0] == LF then 0 else cur + 1, n))
  }

  /** Characters on the current line before the group at `i`. */
  function Column(i: nat): nat {
    if i == 0 then 0 else if i % 57 == 0 then 76 else i % 57 / 3 * 4
  }

  lemma {:induction false} ShortLinesPlain(a: seq<byte>, s: seq<byte>, cur: nat, n: nat)
    requires CR !in a && LF !in a && cur + |a| <= n && ShortLines(s, cur + |a|, n)
    ensures ShortLines(a + s, cur, n)
  {
    if a == [] {
      assert a + s == s;
    } else {
      assert (a + s)[1..] == a[1..] + s;
      ShortLinesPlain(a[1..], s, cur + 1, n);
    }
  }

  lemma BreakShort(i: nat, s: seq<byte>, n: nat)
    requires n >= 76 && i % 3 == 0 && ShortLines(s, if i % 57 == 0 then 0 else Column(i), n)
    ensures ShortLines(Break(i) + s, Column(i), n)
  {
    if i > 0 && i % 57 == 0 {
      assert ([CR, LF] + s)[1..] == [LF] + s && ([LF] + s)[1..] == s;
    } else {
      assert [] + s == s;
    }
  }

  lemma GroupLines(i: nat, g: seq<byte>, rest: seq<byte>)
    requires i % 3 == 0 && CR !in g && LF !in g && |g| <= 4
    requires ShortLines(rest, (if i % 57 == 0 then 0 else Column(i)) + |g|, 76)
    ensures ShortLines(Break(i) + g + rest, Column(i), 76)
  {
    hide Break, ShortLines;
    var col := if i % 57 == 0 then 0 else Column(i);
    Columns(i);
    ShortLinesPlain(g, rest, col, 76);
    BreakShort(i, g + rest, 76);
    assert Break(i) + g + rest == Break(i) + (g + rest);
  }

  /** No encoded line exceeds 76 characters. */
  lemma {:induction false} EncodedLines(b: seq<byte>, i: nat)
    requires i <= |b| && i % 3 == 0
    ensures ShortLines(Encoded(b, i), Column(i), 76)
    decreases |b| - i
  {
    hide Group, LastGroup, Break, ShortLines;
    Columns(i);
    if i + 2 < |b| {
      EncodedLines(b, i + 3);
      GroupPlain(b[i], b[i + 1], b[i + 2]);
      GroupLines(i, Group(b[i], b[i + 1], b[i + 2]), Encoded(b, i + 3));
    } else {
      var g := LastGroup(b, i);
      LastGroupPlain(b, i);
      GroupLines(i, g, []);
      assert Break(i) + g + [] == Break(i) + g;
    }
  }

  lemma Columns(i: nat)
    requires i % 3 == 0
    ensures var col := if i % 57 == 0 then 0 else Column(i);
            col + 4 <= 76 && Column(i + 3) == col + 4 && forall c :: c <= 76 ==> ShortLines([], c, 76)
  {
    hide Column;
    var k, r := i / 57, i % 57;
    assert i == 57 * k + r && r % 3 == 0;
    var q := r / 3;
    assert r == 3 * q && q <= 18;
    ColumnAt(i, k, q);
    if q < 18 { ColumnAt(i + 3, k, q + 1); } else { ColumnAt(i + 3, k + 1, 0); }
  }

  lemma ColumnAt(i: nat, k: nat, q: nat)
    requires i == 57 * k + 3 * q && q <= 18
    ensures i % 57 == 3 * q && Column(i) == if i == 0 then 0 else if q == 0 then 76 else 4 * q
  {
  }

  lemma GroupPlain(x: byte, y: byte, z: byte)
    ensures CR !in Group(x, y, z) && LF !in Group(x, y, z) && |Group(x, y, z)| == 4
  {
    SymbolDecodes(x / 4);
    SymbolDecodes(x % 4 * 16 + y / 16);
    SymbolDecodes(y % 16 * 4 + z / 64);
    SymbolDecodes(z % 64);
  }

  lemma LastGroupPlain(b: seq<byte>, i: nat)
    requires |b| - 2 <= i <= |b|
    ensures CR !in LastGroup(b, i) && LF !in LastGroup(b, i) && |LastGroup(b, i)| <= 4
  {
  }

  /** The outcome of decoding: what was decoded, and whether the text broke off too early. */
  datatype Outcome = Outcome(out: seq<byte>, truncated: bool)

  /** The text from the next symbol or pad on. */
  function Skipped(t: seq<byte>): (s: seq<byte>)
    ensures |s| <= |t| && (s != [] ==> DecodeSymbol(s[0]) != -1)
  {
    if t != [] && DecodeSymbol(t[0]) == -1 then Skipped(t[1..]) else t
  }

  /** What the next four symbols or pads come to: the end of the text, the text broken off, the last bytes,
      or three bytes and the rest of the text. */
  datatype Step = End | Broken | Last(bytes: seq<byte>) | Full(bytes: seq<byte>, rest: seq<byte>)

  function NextGroup(t: seq<byte>): (r: Step)
    ensures r.Full? ==> |r.rest| < |t|
  {
    var s0 := Skipped(t);
    if s0 == [] then End
    else if s0[0] == PAD then Broken
    else
      var s1 := Skipped(s0[1..]);
      if s1 == [] || s1[0] == PAD then Broken
      else
        var v0, v1 := DecodeSymbol(s0[0]), DecodeSymbol(s1[0]);
        var s2 := Skipped(s1[1..]);
        if s2 == [] then Broken
        else if s2[0] == PAD then
          if |s2| > 1 && s2[1] == PAD then Last([v0 * 4 + v1 / 16]) else Broken
        else
          var v2 := DecodeSymbol(s2[0]);
          var s3 := Skipped(s2[1..]);
          if s3 == [] then Broken
          else if s3[0] == PAD then Last([v0 * 4 + v1 / 16, v1 % 16 * 16 + v2 / 4])
          else Full([v0 * 4 + v1 / 16, v1 % 16 * 16 + v2 / 4, v2 % 4 * 64 + DecodeSymbol(s3[0])], s3[1..])
  }

  /** What a text decodes to, group by group. */
  function Decoded(t: seq<byte>): (r: Outcome)
    decreases |t|
  {
    match NextGroup(t)
    case End => Outcome([], false)
    case Broken => Outcome([], true)
    case Last(bytes) => Outcome(bytes, false)
    case Full(bytes, rest) => Outcome(bytes + Decoded(rest).out, Decoded(rest).truncated)
  }

  lemma SkippedSymbol(v: sextet, t: seq<byte>)
    ensures Skipped([Symbol(v)] + t) == [Symbol(v)] + t && DecodeSymbol(Symbol(v)) == v
  {
    SymbolDecodes(v);
  }

  lemma SkippedBreak(i: nat, t: seq<byte>)
    ensures Skipped(Break(i) + t) == Skipped(t)
  {
    if i > 0 && i % 57 == 0 {
      assert ([CR, LF] + t)[1..] == [LF] + t && ([LF] + t)[1..] == t;
    } else {
      assert [] + t == t;
    }
  }

  lemma DecodedBreak(i: nat, t: seq<byte>)
    ensures Decoded(Break(i) + t) == Decoded(t)
  {
    hide NextGroup, Skipped, Break;
    SkippedBreak(i, t);
    SameGroup(Break(i) + t, t);
  }

  lemma SameGroup(s: seq<byte>, t: seq<byte>)
    requires Skipped(s) == Skipped(t)
    ensures NextGroup(s) == NextGroup(t)
  {
    hide Skipped;
  }

  /** Four symbols decode to the three bytes their digits make up. */
  lemma SymbolsDecode(v0: sextet, v1: sextet, v2: sextet, v3: sextet, t: seq<byte>)
    ensures NextGroup([Symbol(v0), Symbol(v1), Symbol(v2), Symbol(v3)] + t) ==
            Full([v0 * 4 + v1 / 16, v1 % 16 * 16 + v2 / 4, v2 % 4 * 64 + v3], t)
  {
    hide Symbol, DecodeSymbol, Skipped;
    var s := [Symbol(v0), Symbol(v1), Symbol(v2), Symbol(v3)] + t;
    var s1 := [Symbol(v1), Symbol(v2), Symbol(v3)] + t;
    var s2 := [Symbol(v2), Symbol(v3)] + t;
    var s3 := [Symbol(v3)] + t;
    assert s == [Symbol(v0)] + s1 && s1 == [Symbol(v1)] + s2 && s2 == [Symbol(v2)] + s3;
    assert s[1..] == s1 && s1[1..] == s2 && s2[1..] == s3 && s3[1..] == t;
    SkippedSymbol(v0, s1);
    SkippedSymbol(v1, s2);
    SkippedSymbol(v2, s3);
    SkippedSymbol(v3, t);
    PadDecodes();
  }

  lemma PadDecodes()
    ensures DecodeSymbol(PAD) == -2
  {
  }

  lemma GroupDecodes(x: byte, y: byte, z: byte, t: seq<byte>)
    ensures Decoded(Group(x, y, z) + t) == Outcome([x, y, z] + Decoded(t).out, Decoded(t).truncated)
  {
    hide NextGroup, Symbol;
    SymbolsDecode(x / 4, x % 4 * 16 + y / 16, y % 16 * 4 + z / 64, z % 64, t);
  }

  lemma TwoBytesDecode(v0: sextet, v1: sextet, v2: sextet)
    ensures NextGroup([Symbol(v0), Symbol(v1), Symbol(v2), PAD]) == Last([v0 * 4 + v1 / 16, v1 % 16 * 16 + v2 / 4])
  {
    hide Symbol, DecodeSymbol, Skipped;
    var s, s1, s2 := [Symbol(v0), Symbol(v1), Symbol(v2), PAD], [Symbol(v1), Symbol(v2), PAD], [Symbol(v2), PAD];
    assert s == [Symbol(v0)] + s1 && s1 == [Symbol(v1)] + s2 && s2 == [Symbol(v2)] + [PAD];
    assert s[1..] == s1 && s1[1..] == s2 && s2[1..] == [PAD];
    SkippedSymbol(v0, s1);
    SkippedSymbol(v1, s2);
    SkippedSymbol(v2, [PAD]);
    SkippedPad([]);
    PadDecodes();
  }

  lemma OneByteDecodes(v0: sextet, v1: sextet)
    ensures NextGroup([Symbol(v0), Symbol(v1), PAD, PAD]) == Last([v0 * 4 + v1 / 16])
  {
    hide Symbol, DecodeSymbol, Skipped;
    var s, s1 := [Symbol(v0), Symbol(v1), PAD, PAD], [Symbol(v1), PAD, PAD];
    assert s == [Symbol(v0)] + s1 && s1 == [Symbol(v1)] + [PAD, PAD];
    assert s[1..] == s1 && s1[1..] == [PAD] + [PAD];
    SkippedSymbol(v0, s1);
    SkippedSymbol(v1, [PAD, PAD]);
    SkippedPad([PAD]);
    PadDecodes();
  }

  lemma SkippedPad(t: seq<byte>)
    ensures Skipped([PAD] + t) == [PAD] + t && [PAD] + [] == [PAD]
  {
  }

  lemma LastGroupDecodes(b: seq<byte>, i: nat)
    requires |b| - 2 <= i <= |b|
    ensures Decoded(LastGroup(b, i)) == Outcome(b[i..], false)
  {
    hide NextGroup, Symbol;
    if i + 2 == |b| {
      TwoBytesDecode(b[i] / 4, b[i] % 4 * 16 + b[i + 1] / 16, b[i + 1] % 16 * 4);
    } else if i + 1 == |b| {
      OneByteDecodes(b[i] / 4, b[i] % 4 * 16);
    } else {
      NothingDecodes();
    }
  }

  lemma NothingDecodes()
    ensures NextGroup([]) == End
  {
  }

  /** Decoding undoes encoding, through the line breaks and without a truncation error. */
  lemma {:induction false} RoundTrip(b: seq<byte>, i: nat)
    requires i <= |b|
    ensures Decoded(Encoded(b, i)) == Outcome(b[i..], false)
    decreases |b| - i
  {
    hide Decoded, Group, LastGroup, Break;
    if i + 2 < |b| {
      RoundTrip(b, i + 3);
      var g, rest := Group(b[i], b[i + 1], b[i + 2]), Encoded(b, i + 3);
      assert Break(i) + g + rest == Break(i) + (g + rest);
      DecodedBreak(i, g + rest);
      GroupDecodes(b[i], b[i + 1], b[i + 2], rest);
      assert b[i..] == [b[i], b[i + 1], b[i + 2]] + b[i + 3..];
      assert [b[i], b[i + 1], b[i + 2]] + Decoded(rest).out == b[i..];
    } else {
      DecodedBreak(i, LastGroup(b, i));
      LastGroupDecodes(b, i);
    }
  }

  /** The place of a character in the alphabet, -1 when it is not there. */
  ghost function Place(c: byte): (v: int) {
    if exists k :: 0 <= k < |ALPHABET| && ALPHABET[k] as int == c then
      var k :| 0 <= k < |ALPHABET| && ALPHABET[k] as int == c; k
    else -1
  }

  /** The places of the characters before the first pad; what is not in the alphabet is passed over. */
  ghost function Digits(t: seq<byte>): (d: seq<int>) {
    if t == [] || t[0] == '=' as int then []
    else (if Place(t[0]) >= 0 then [Place(t[0])] else []) + Digits(t[1..])
  }

  ghost function FromPad(t: seq<byte>): (s: seq<byte>) {
    if t == [] || t[0] == '=' as int then t else FromPad(t[1..])
  }

  /** The text ends too early: no pad completes the last group, or not the right number. */
  ghost predicate BreaksOff(t: seq<byte>) {
    var n, p := |Digits(t)| % 4, FromPad(t);
    if p == [] then n != 0 else !(n == 3 || (n == 2 && |p| > 1 && p[1] == '=' as int))
  }

  /** Four digits come to three bytes, two or three at the end to one or two, unless they break off. */
  ghost predicate DecodesTo(d: seq<int>, off: bool, out: seq<int>) {
    var n, k := |d|, |d| / 4 * 3;
    && |out| == k + (if off || n % 4 < 2 then 0 else n % 4 - 1)
    && (forall g :: 0 <= g < n / 4 ==> OctetsOf(d, g, out))
    && (!off && n % 4 == 2 ==> out[k] == d[n - 2] * 4 + d[n - 1] / 16)
    && (!off && n % 4 == 3 ==> out[k] * 256 + out[k + 1] == d[n - 3] * 1024 + d[n - 2] * 16 + d[n - 1] / 4)
  }

  ghost predicate OctetsOf(d: seq<int>, g: int, out: seq<int>) {
    && 0 <= g && 4 * g + 4 <= |d| && 3 * g + 3 <= |out|
    && out[3 * g] * 65536 + out[3 * g + 1] * 256 + out[3 * g + 2] ==
       d[4 * g] * 262144 + d[4 * g + 1] * 4096 + d[4 * g + 2] * 64 + d[4 * g + 3]
  }

  lemma PlaceIs(c: byte)
    ensures Place(c) == if DecodeSymbol(c) >= 0 then DecodeSymbol(c) else -1
    ensures c == '=' as int <==> c == PAD
  {
    hide ALPHABET, DecodeSymbol;
    DecodeSymbolIs(c);
    if DecodeSymbol(c) >= 0 {
      assert ALPHABET[DecodeSymbol(c)] as int == c;
    }
    PadDecodes();
  }

  /** Skipping takes away neither digits nor pads. */
  lemma {:induction false} SkippedSame(t: seq<byte>)
    ensures var s := Skipped(t); Digits(s) == Digits(t) && FromPad(s) == FromPad(t)
  {
    hide Place, DecodeSymbol;
    PadDecodes();
    if t != [] && DecodeSymbol(t[0]) == -1 {
      PlaceIs(t[0]);
      SkippedSame(t[1..]);
    }
  }

  /** What comes next in a text: nothing, a pad, or a digit. */
  lemma NextDigit(t: seq<byte>)
    ensures var s := Skipped(t);
      && (s == [] ==> Digits(t) == [] && FromPad(t) == [])
      && (s != [] && s[0] == PAD ==> Digits(t) == [] && FromPad(t) == s)
      && (s != [] && s[0] != PAD ==>
           && Digits(t) == [DecodeSymbol(s[0])] + Digits(s[1..]) && FromPad(t) == FromPad(s[1..])
           && 0 <= DecodeSymbol(s[0]) < 64)
  {
    hide Place, DecodeSymbol, Skipped;
    SkippedSame(t);
    var s := Skipped(t);
    if s != [] {
      PlaceIs(s[0]);
      if s[0] != PAD { PadOnly(s[0]); }
    }
  }

  /** What the next group is, told by the digits and the pads. */
  lemma NextGroupIs(t: seq<byte>)
    ensures var d := Digits(t);
      match NextGroup(t)
      case End => d == [] && FromPad(t) == []
      case Broken => |d| < 4 && BreaksOff(t)
      case Last(bytes) => |d| < 4 && !BreaksOff(t) && DecodesTo(d, false, bytes)
      case Full(bytes, rest) =>
        && |bytes| == 3 && |d| >= 4 && d[4..] == Digits(rest) && FromPad(t) == FromPad(rest)
        && OctetsOf(d, 0, bytes)
  {
    hide DecodeSymbol, Skipped, Place, Digits, FromPad;
    NextDigit(t);
    var s0 := Skipped(t);
    if s0 != [] && s0[0] != PAD {
      NextDigit(s0[1..]);
      var s1 := Skipped(s0[1..]);
      if s1 != [] && s1[0] != PAD {
        NextDigit(s1[1..]);
        var s2 := Skipped(s1[1..]);
        if s2 != [] && s2[0] != PAD {
          NextDigit(s2[1..]);
        }
      }
    }
  }

  /** Decoding reads the digits before the first pad, four by four. */
  lemma {:induction false} DecodedIs(t: seq<byte>)
    ensures Decoded(t).truncated <==> BreaksOff(t)
    ensures DecodesTo(Digits(t), BreaksOff(t), Decoded(t).out)
    decreases |t|
  {
    hide NextGroup, Digits, FromPad;
    NextGroupIs(t);
    match NextGroup(t)
    case Full(bytes, rest) =>
      DecodedIs(rest);
      DecodesMore(Digits(t), BreaksOff(t), bytes, Decoded(rest).out);
    case _ =>
  }

  lemma DecodesMore(d: seq<int>, off: bool, bytes: seq<byte>, out: seq<byte>)
    requires |bytes| == 3 && |d| >= 4 && OctetsOf(d, 0, bytes) && DecodesTo(d[4..], off, out)
    ensures DecodesTo(d, off, bytes + out)
  {
    forall g | 0 <= g < |d| / 4 ensures OctetsOf(d, g, bytes + out) {
      if g > 0 {
        assert OctetsOf(d[4..], g - 1, out);
      }
    }
  }

  /** One of the four inner loops: skips what is neither symbol nor pad. */
  method Skip(b: seq<byte>, i0: nat) returns (i: nat)
    requires i0 <= |b|
    ensures i0 <= i <= |b| && b[i..] == Skipped(b[i0..])
  {
    i := i0;
    while i < |b| && DecodeSymbol(b[i]) == -1
      invariant i0 <= i <= |b| && Skipped(b[i..]) == Skipped(b[i0..])
    {
      assert b[i..][1..] == b[i + 1..];
      i := i + 1;
    }
  }

  /** bBase64DecodeEx; without a place for the truncation error a text broken off gives the null pointer. */
  method BBase64DecodeEx(b: seq<byte>, boolTruncError: bool) returns (r: Option<Outcome>)
    ensures r == if Decoded(b).truncated && !boolTruncError then None else Some(Decoded(b))
    ensures r.None? <==> BreaksOff(b) && !boolTruncError
    ensures r.Some? ==> r.value.truncated == BreaksOff(b) && DecodesTo(Digits(b), BreaksOff(b), r.value.out)
  {
    hide NextGroup, BreaksOff, DecodesTo, Digits;
    DecodedIs(b);
    var out: seq<byte> := [];
    var i := 0;
    assert b[0..] == b;
    while true
      invariant 0 <= i <= |b|
      invariant Decoded(b) == Outcome(out + Decoded(b[i..]).out, Decoded(b[i..]).truncated)
      decreases |b| - i
    {
      var step, next := ReadGroup(b, i);
      assert out + [] == out;
      match step
      case End => return Some(Outcome(out, false));
      case Broken => return if boolTruncError then Some(Outcome(out, true)) else None;
      case Last(bytes) => return Some(Outcome(out + bytes, false));
      case Full(bytes, _) =>
        Associative3(out, bytes, Decoded(b[next..]).out);
        out := out + bytes;
        i := next;
    }
  }

  /** One round of the loop. */
  method ReadGroup(b: seq<byte>, i: nat) returns (step: Step, next: nat)
    requires i <= |b|
    ensures step == NextGroup(b[i..])
    ensures step.Full? ==> i < next <= |b| && step.rest == b[next..]
  {
    hide Skipped, DecodeSymbol;
    next := i;
    var j := Skip(b, i);
    if j >= |b| { return End, i; }
    if b[j] == PAD { return Broken, i; }
    var v0 := DecodeSymbol(b[j]);
    var j1 := SkipNext(b, j);
    if j1 >= |b| || b[j1] == PAD { return Broken, i; }
    var v1 := DecodeSymbol(b[j1]);
    PadOnly(b[j]);
    PadOnly(b[j1]);
    var c0 := v0 * 4 + v1 / 16;
    var j2 := SkipNext(b, j1);
    if j2 >= |b| { return Broken, i; }
    if b[j2] == PAD {
      if j2 + 1 >= |b| || b[j2 + 1] != PAD { return Broken, i; }
      return Last([c0]), i;
    }
    var v2 := DecodeSymbol(b[j2]);
    PadOnly(b[j2]);
    var c1 := v1 % 16 * 16 + v2 / 4;
    var j3 := SkipNext(b, j2);
    if j3 >= |b| { return Broken, i; }
    if b[j3] == PAD { return Last([c0, c1]), i; }
    var v3 := DecodeSymbol(b[j3]);
    PadOnly(b[j3]);
    var c2 := v2 % 4 * 64 + v3;
    assert b[j3..][1..] == b[j3 + 1..];
    return Full([c0, c1, c2], b[j3 + 1..]), j3 + 1;
  }

  method SkipNext(b: seq<byte>, j: nat) returns (i: nat)
    requires j < |b|
    ensures j < i <= |b| && b[i..] == Skipped(b[j..][1..])
  {
    assert b[j..][1..] == b[j + 1..];
    i := Skip(b, j + 1);
  }

  lemma PadOnly(c: byte)
    requires DecodeSymbol(c) != -1 && c != PAD
    ensures 0 <= DecodeSymbol(c) < 64
  {
  }
}
