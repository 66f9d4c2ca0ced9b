/** The uuencode codec of bstrlib's auxiliary functions, without the "begin" and "end" lines. */
module Uu {
  import opened Common

  const MAX_LINELEN := 45

  /** UU_ENCODE_BYTE. */
  function EncodeByte(v: nat): (c: byte)
    requires v < 64
    ensures c != CR && c != LF
  {
    if v == 0 then 96 else v + 32
  }

  /** UU_DECODE_BYTE. */
  function DecodeByte(c: int): (v: int) {
    if c == 96 then 0 else c - 32
  }

  /** bchare: the character at `p`, or `e` past the end. */
  function Bchare(b: seq<byte>, p: nat, e: byte): (c: byte) {
    if p < |b| then b[p] else e
  }

  /** The characters for three bytes. */
  function Group(x: byte, y: byte, z: byte): (s: seq<byte>) {
    [EncodeByte(x / 4), EncodeByte(x % 4 * 16 + y / 16), EncodeByte(y % 16 * 4 + z / 64), EncodeByte(z % 64)]
  }

  /** The characters for the bytes of a chunk, three at a time, the last three filled up with NULs. */
  function Groups(b: seq<byte>): (s: seq<byte>)
    decreases |b|
  {
    if b == [] then []
    else Group(b[0], Bchare(b, 1, 0), Bchare(b, 2, 0)) + Groups(if |b| < 3 then [] else b[3..])
  }

  /** The line for a chunk. */
  function Line(b: seq<byte>): (s: seq<byte>)
    requires |b| <= MAX_LINELEN
  {
    [EncodeByte(|b|)] + Groups(b)
  }

  function Chunk(b: seq<byte>): (c: seq<byte>)
    ensures |c| <= MAX_LINELEN && (b != [] ==> c != []) && |c| + |Rest(b)| == |b|
  {
    if |b| <= MAX_LINELEN then b else b[..MAX_LINELEN]
  }

  function Rest(b: seq<byte>): (c: seq<byte>) {
    if |b| <= MAX_LINELEN then [] else b[MAX_LINELEN..]
  }

  function Encoded(b: seq<byte>): (s: seq<byte>)
    decreases |b|
  {
    if b == [] then [] else Line(Chunk(b)) + [CR, LF] + Encoded(Rest(b))
  }

  /** The characters for the numbers below 64, in order. */
  ghost const ALPHABET: string := FIRST + SECOND + THIRD + FOURTH
  ghost const FIRST := "`!\"#$%&'()*+,-./"
  ghost const SECOND := "0123456789:;<=>?"
  ghost const THIRD := "@ABCDEFGHIJKLMNO"
  ghost const FOURTH := "PQRSTUVWXYZ[\\]^_"

  lemma FirstListed(v: nat)
    ensures |FIRST| == 16 && (v < 16 ==> FIRST[v] as int == if v == 0 then 96 else 32 + v)
  {
  }

  lemma SecondListed(v: nat)
    ensures |SECOND| == 16 && (v < 16 ==> SECOND[v] as int == 48 + v)
  {
  }

  lemma ThirdListed(v: nat)
    ensures |THIRD| == 16 && (v < 16 ==> THIRD[v] as int == 64 + v)
  {
  }

  lemma FourthListed(v: nat)
    ensures |FOURTH| == 16 && (v < 16 ==> FOURTH[v] as int == 80 + v)
  {
  }

  lemma ByteListed(v: nat)
    requires v < 64
    ensures |ALPHABET| == 64 && ALPHABET[v] as int == EncodeByte(v)
  {
    hide FIRST, SECOND, THIRD, FOURTH;
    FirstListed(if v < 16 then v else 0);
    SecondListed(if 16 <= v < 32 then v - 16 else 0);
    ThirdListed(if 32 <= v < 48 then v - 32 else 0);
    FourthListed(if 48 <= v then v - 48 else 0);
  }

  /** From `q` on, the text `t` has the number that the three bytes of `b` from `k` on make up, in base 64. */
  ghost predicate GroupAt(b: seq<byte>, k: nat, t: seq<byte>, q: nat) {
    && q + 4 <= |t| && |ALPHABET| == 64
    && var v := Octet(b, k) * 65536 + Octet(b, k + 1) * 256 + Octet(b, k + 2);
    && t[q] == ALPHABET[v / 262144] as int && t[q + 1] == ALPHABET[v / 4096 % 64] as int
    && t[q + 2] == ALPHABET[v / 64 % 64] as int && t[q + 3] == ALPHABET[v % 64] as int
  }

  lemma FirstGroup(b: seq<byte>, t: seq<byte>)
    requires |t| >= 4 && t[..4] == Group(Octet(b, 0), Octet(b, 1), Octet(b, 2))
    ensures GroupAt(b, 0, t, 0)
  {
    hide EncodeByte, ALPHABET;
    var x: int, y: int, z: int := Octet(b, 0), Octet(b, 1), Octet(b, 2);
    var d0, d1, d2, d3 := x / 4, x % 4 * 16 + y / 16, y % 16 * 4 + z / 64, z % 64;
    Base64Digits(x * 65536 + y * 256 + z, d0, d1, d2, d3);
    ByteListed(d0);
    ByteListed(d1);
    ByteListed(d2);
    ByteListed(d3);
    assert forall j :: 0 <= j < 4 ==> t[j] == t[..4][j];
  }

  lemma GroupShifted(b: seq<byte>, k: nat, t: seq<byte>, q: nat, h: seq<byte>, s: seq<byte>)
    requires GroupAt(b, k, t, q)
    ensures GroupAt(h + b, |h| + k, s + t, |s| + q)
  {
    hide ALPHABET;
  }

  lemma GroupLonger(b: seq<byte>, k: nat, t: seq<byte>, q: nat, s: seq<byte>, rest: seq<byte>)
    requires GroupAt(b, k, t, q) && (rest != [] ==> k + 3 <= |b|)
    ensures GroupAt(b + rest, k, t + s, q)
  {
    hide ALPHABET;
    assert b + [] == b;
  }

  /** In the line for a chunk every three bytes have their four characters. */
  lemma {:induction false} GroupsAt(b: seq<byte>, g: nat)
    requires 3 * g < |b|
    ensures GroupAt(b, 3 * g, Groups(b), 4 * g)
    decreases g
  {
    hide Group, GroupAt;
    var h := Group(b[0], Bchare(b, 1, 0), Bchare(b, 2, 0));
    GroupSize(b[0], Bchare(b, 1, 0), Bchare(b, 2, 0));
    if g == 0 {
      assert Groups(b)[..4] == h;
      FirstGroup(b, Groups(b));
    } else {
      GroupsAt(b[3..], g - 1);
      GroupShifted(b[3..], 3 * (g - 1), Groups(b[3..]), 4 * (g - 1), b[..3], h);
      assert b == b[..3] + b[3..];
    }
  }

  lemma GroupSize(x: byte, y: byte, z: byte)
    ensures |Group(x, y, z)| == 4
  {
  }

  lemma {:induction false} GroupsLength(b: seq<byte>)
    ensures |Groups(b)| == 4 * ((|b| + 2) / 3)
    decreases |b|
  {
    hide Group;
    if b != [] {
      GroupSize(b[0], Bchare(b, 1, 0), Bchare(b, 2, 0));
      GroupsLength(if |b| < 3 then [] else b[3..]);
    }
  }

  /** How many bytes line `j` is for. */
  ghost function LineSize(b: seq<byte>, j: nat): (n: int) {
    if 45 * j + 45 <= |b| then 45 else |b| - 45 * j
  }

  /** Line `j` of the text `t`: its size, the groups of its bytes, and a line break. All lines before have 45 bytes
      and 63 characters. */
  ghost predicate LineAt(b: seq<byte>, t: seq<byte>, j: nat) {
    && var n := LineSize(b, j);
    var e := 63 * j + 1 + 4 * ((n + 2) / 3);
    && 0 < n <= 45 && |ALPHABET| == 64 && e + 2 <= |t|
    && t[63 * j] == ALPHABET[n] as int && t[e] == 13 && t[e + 1] == 10
    && forall g :: 0 <= g && 3 * g < n ==> GroupAt(b, 45 * j + 3 * g, t, 63 * j + 1 + 4 * g)
  }

  lemma ChunkIs(b: seq<byte>)
    ensures |Chunk(b)| == (if |b| >= 45 then 45 else |b|) && Chunk(b) + Rest(b) == b
    ensures |b| < 45 ==> Rest(b) == []
  {
  }

  lemma FirstLine(b: seq<byte>, rest: seq<byte>)
    requires b != []
    ensures LineAt(b, Line(Chunk(b)) + [CR, LF] + rest, 0)
  {
    hide Groups, GroupAt, ALPHABET, Chunk, Rest, EncodeByte;
    var c := Chunk(b);
    var t := Line(c) + [CR, LF] + rest;
    GroupsLength(c);
    ByteListed(|c|);
    ChunkIs(b);
    forall g | 0 <= g && 3 * g < |c| ensures GroupAt(b, 45 * 0 + 3 * g, t, 63 * 0 + 1 + 4 * g) {
      GroupsAt(c, g);
      GroupShifted(c, 3 * g, Groups(c), 4 * g, [], [EncodeByte(|c|)]);
      assert [] + c == c;
      GroupLonger(c, 3 * g, Line(c), 1 + 4 * g, [CR, LF] + rest, Rest(b));
      assert c + Rest(b) == b && Line(c) + ([CR, LF] + rest) == t;
    }
  }

  lemma LineShifted(b: seq<byte>, t: seq<byte>, j: nat, h: seq<byte>, s: seq<byte>)
    requires LineAt(b, t, j) && |h| == 45 && |s| == 63
    ensures LineAt(h + b, s + t, j + 1)
  {
    hide GroupAt, ALPHABET;
    var n := LineSize(b, j);
    assert LineSize(h + b, j + 1) == n;
    forall g | 0 <= g && 3 * g < n ensures GroupAt(h + b, 45 * (j + 1) + 3 * g, s + t, 63 * (j + 1) + 1 + 4 * g) {
      GroupShifted(b, 45 * j + 3 * g, t, 63 * j + 1 + 4 * g, h, s);
    }
  }

  lemma {:induction false} EncodedLine(b: seq<byte>, j: nat)
    requires 45 * j < |b|
    ensures LineAt(b, Encoded(b), j)
    decreases j
  {
    hide LineAt, Line;
    if j == 0 {
      FirstLine(b, Encoded(Rest(b)));
    } else {
      EncodedLine(Rest(b), j - 1);
      LineLength(Chunk(b));
      LineShifted(Rest(b), Encoded(Rest(b)), j - 1, Chunk(b), Line(Chunk(b)) + [CR, LF]);
      assert Chunk(b) + Rest(b) == b;
    }
  }

  lemma LineLength(b: seq<byte>)
    requires |b| <= MAX_LINELEN
    ensures |Line(b)| == 1 + 4 * ((|b| + 2) / 3)
  {
    GroupsLength(b);
  }

  lemma {:induction false} EncodedLength(b: seq<byte>)
    ensures |Encoded(b)| == 63 * (|b| / 45) + if |b| % 45 == 0 then 0 else 3 + 4 * ((|b| % 45 + 2) / 3)
    decreases |b|
  {
    hide Line;
    if b != [] {
      LineLength(Chunk(b));
      EncodedLength(Rest(b));
      var n := |b| - 45;
      assert n >= 0 ==> |b| / 45 == n / 45 + 1 && |b| % 45 == n % 45;
    }
  }

  /** bUuEncode; none when the output with its NUL is no `int`. */
  method BUuEncode(src: seq<byte>) returns (r: Option<seq<byte>>)
    ensures r == if |Encoded(src)| < INT_MAX then Some(Encoded(src)) else None
    ensures var n := 63 * (|src| / 45) + if |src| % 45 == 0 then 0 else 3 + 4 * ((|src| % 45 + 2) / 3);
      (r.None? <==> n >= INT_MAX) && (r.Some? ==> |r.value| == n)
    ensures r.Some? ==> forall j :: 0 <= j && 45 * j < |src| ==> LineAt(src, r.value, j)
  {
    hide Groups, Group, LineAt, Encoded, Line;
    EncodedLength(src);
    forall j: nat | 45 * j < |src| ensures LineAt(src, Encoded(src), j) {
      EncodedLine(src, j);
    }
    r := EncodeLines(src);
  }

  /** The loops of bUuEncode. */
  method EncodeLines(src: seq<byte>) returns (r: Option<seq<byte>>)
    ensures r == if |Encoded(src)| < INT_MAX then Some(Encoded(src)) else None
  {
    hide Groups, Group;
    r := Some([]);
    var i := 0;
    assert src[0..] == src;
    while i < |src|
      invariant 0 <= i && r.Some? && |r.value| < INT_MAX
      invariant r.value + Encoded(if i <= |src| then src[i..] else []) == Encoded(src)
    {
      var jm := i + MAX_LINELEN;
      if jm > |src| { jm := |src|; }
      ghost var before, chunk := r.value, src[i..jm];
      ghost var rest := Encoded(Rest(src[i..]));
      assert chunk == Chunk(src[i..]);
      assert Rest(src[i..]) == if i + MAX_LINELEN <= |src| then src[i + MAX_LINELEN..] else [];
      Associative(before, Line(chunk), [CR, LF], rest);
      Associative3(before, [EncodeByte(jm - i)], Groups(chunk));
      r := Conchars(r.value, [EncodeByte(jm - i)]);
      if r.None? { return; }
      r := EncodeGroups(src, i, jm, r.value);
      if r.None? { return; }
      r := Conchars(r.value, [CR, LF]);
      if r.None? { return; }
      i := i + MAX_LINELEN;
    }
    assert r.value + [] == r.value;
  }

  lemma GroupIs(x: byte, y: byte, z: byte)
    ensures Group(x, y, z) ==
      [EncodeByte(x / 4), EncodeByte(x % 4 * 16 + y / 16), EncodeByte(y % 16 * 4 + z / 64), EncodeByte(z % 64)]
  {
  }

  /** The inner loop, for one line. */
  method EncodeGroups(src: seq<byte>, i: nat, jm: nat, out: seq<byte>) returns (r: Option<seq<byte>>)
    requires i <= jm <= |src| && (jm < |src| ==> (jm - i) % 3 == 0) && |out| < INT_MAX
    ensures var all := out + Groups(src[i..jm]); r == if |all| < INT_MAX then Some(all) else None
  {
    hide Group, Groups, EncodeByte, Bchare;
    r := Some(out);
    var j := i;
    while j < jm
      invariant i <= j && (jm < |src| ==> j <= jm && (jm - j) % 3 == 0) && r.Some? && |r.value| < INT_MAX
      invariant out + Groups(src[i..jm]) == r.value + Groups(From(src, j, jm))
    {
      var c0, c1, c2 := Bchare(src, j, 0), Bchare(src, j + 1, 0), Bchare(src, j + 2, 0);
      NextGroup(src, j, jm);
      GroupIs(c0, c1, c2);
      Associative3(r.value, Group(c0, c1, c2), Groups(From(src, j + 3, jm)));
      r := Conchars(r.value, [EncodeByte(c0 / 4), EncodeByte(c0 % 4 * 16 + c1 / 16),
                              EncodeByte(c1 % 16 * 4 + c2 / 64), EncodeByte(c2 % 64)]);
      if r.None? { return; }
      j := j + 3;
    }
    NoGroups();
    NothingFrom(src, j, jm);
    assert r.value + [] == r.value;
  }

  lemma NothingFrom(src: seq<byte>, j: nat, jm: nat)
    requires jm <= j && jm <= |src|
    ensures From(src, j, jm) == []
  {
  }

  function From(src: seq<byte>, j: nat, jm: nat): (s: seq<byte>)
    requires jm <= |src|
  {
    if j <= jm then src[j..jm] else []
  }

  lemma NextGroup(src: seq<byte>, j: nat, jm: nat)
    requires j < jm <= |src| && (jm < |src| ==> (jm - j) % 3 == 0)
    ensures Groups(From(src, j, jm)) ==
            Group(Bchare(src, j, 0), Bchare(src, j + 1, 0), Bchare(src, j + 2, 0)) + Groups(From(src, j + 3, jm))
  {
    hide Group;
    var b := src[j..jm];
    assert Bchare(src, j, 0) == b[0] && Bchare(src, j + 1, 0) == Bchare(b, 1, 0);
    assert Bchare(src, j + 2, 0) == Bchare(b, 2, 0);
    if |b| >= 3 {
      assert b[3..] == src[j + 3..jm];
    }
  }

  lemma NoGroups()
    ensures Groups([]) == []
  {
  }

  /** What a line comes to: the bytes appended and whether it is a bad one. */
  datatype LineResult = LineResult(out: seq<byte>, bad: bool)

  /** Not a digit, and no stripped blank either. */
  predicate Hard(d: byte) {
    d > 0x60 || (d < 31 && !(9 <= d <= 13))
  }

  predicate Digit(c: int) {
    0 <= c < 0x40
  }

  function Low(x: int): (c: byte) {
    x % 256
  }

  /** The bytes for the groups of `s` from `i` on, when `n` are wanted. None: the whole line is given up. */
  function DecodedGroups(s: seq<byte>, i: nat, n: nat): (r: Option<LineResult>)
    decreases |s| - i
  {
    if i >= |s| || n == 0 then Some(LineResult([], false)) else
    var d0, d1, d2, d3 := Bchare(s, i, 31), Bchare(s, i + 1, 31), Bchare(s, i + 2, 31), Bchare(s, i + 3, 31);
    var good01 := Digit(DecodeByte(d0)) && Digit(DecodeByte(d1));
    if !good01 && (Hard(d0) || Hard(d1)) then None else
    var c0, c1 := if good01 then DecodeByte(d0) else 0, if good01 then DecodeByte(d1) else 0;
    if n == 1 then Some(LineResult([Low(c0 * 4 + c1 / 16)], !good01)) else
    var good2 := Digit(DecodeByte(d2));
    if !good2 && Hard(d2) then None else
    var c2 := if good2 then DecodeByte(d2) else 0;
    if n == 2 then Some(LineResult([Low(c0 * 4 + c1 / 16), Low(c1 * 16 + c2 / 4)], !good01 || !good2)) else
    var good3 := Digit(DecodeByte(d3));
    if !good3 && Hard(d3) then None else
    var c3 := if good3 then DecodeByte(d3) else 0;
    Join([Low(c0 * 4 + c1 / 16), Low(c1 * 16 + c2 / 4), Low(c2 * 64 + c3)], !good01 || !good2 || !good3,
         DecodedGroups(s, i + 4, n - 3))
  }

  function Join(out: seq<byte>, bad: bool, r: Option<LineResult>): (q: Option<LineResult>) {
    if r.None? then None else Some(LineResult(out + r.value.out, bad || r.value.bad))
  }

  /** What bUuDecLine makes of a line. */
  function DecodedLine(s: seq<byte>): (r: LineResult)
    requires s != []
  {
    var llen := DecodeByte(s[0]);
    if llen < 0 || llen > MAX_LINELEN then LineResult([], true) else
    var r := DecodedGroups(s, 1, llen);
    if r.None? || |r.value.out| < llen then LineResult([], true) else r.value
  }

  lemma DigitDecodes(v: nat)
    requires v < 64
    ensures DecodeByte(EncodeByte(v)) == v
  {
  }

  /** Four characters put out for three bytes give them back. */
  lemma GroupDecodes(s: seq<byte>, i: nat, n: nat, x: byte, y: byte, z: byte)
    requires i + 4 <= |s| && s[i..i + 4] == Group(x, y, z) && n > 0
    ensures DecodedGroups(s, i, n) ==
            if n == 1 then Some(LineResult([x], false))
            else if n == 2 then Some(LineResult([x, y], false))
            else Join([x, y, z], false, DecodedGroups(s, i + 4, n - 3))
  {
    hide EncodeByte, DecodeByte, Hard, Low;
    assert s[i] == s[i..i + 4][0] && s[i + 1] == s[i..i + 4][1] && s[i + 2] == s[i..i + 4][2];
    assert s[i + 3] == s[i..i + 4][3];
    DigitDecodes(x / 4);
    DigitDecodes(x % 4 * 16 + y / 16);
    DigitDecodes(y % 16 * 4 + z / 64);
    DigitDecodes(z % 64);
    Sextets(x, y, z);
  }

  lemma Sextets(x: byte, y: byte, z: byte)
    ensures var c0, c1, c2, c3 := x / 4, x % 4 * 16 + y / 16, y % 16 * 4 + z / 64, z % 64;
            Low(c0 * 4 + c1 / 16) == x && Low(c1 * 16 + c2 / 4) == y && Low(c2 * 64 + c3) == z
  {
    var y1, y0, z1, z0: int := y / 16, y % 16, z / 64, z % 64;
    assert y == 16 * y1 + y0 && z == 64 * z1 + z0 && z1 < 4;
    LowDigits(x % 4, y1, y0, z1, z0);
    assert x == x / 4 * 4 + x % 4;
  }

  lemma LowDigits(x0: nat, y1: nat, y0: nat, z1: nat, z0: nat)
    requires x0 < 4 && y1 < 16 && y0 < 16 && z1 < 4 && z0 < 64
    ensures (x0 * 16 + y1) / 16 == x0 && (y0 * 4 + z1) / 4 == y0
    ensures Low((x0 * 16 + y1) * 16 + y0) == 16 * y1 + y0 && Low((y0 * 4 + z1) * 64 + z0) == 64 * z1 + z0
  {
  }

  lemma {:induction false} GroupsDecode(s: seq<byte>, i: nat, b: seq<byte>)
    requires i <= |s| && s[i..] == Groups(b)
    ensures DecodedGroups(s, i, |b|) == Some(LineResult(b, false))
    decreases |b|
  {
    if b != [] {
      var x, y, z := b[0], Bchare(b, 1, 0), Bchare(b, 2, 0);
      assert s[i..][..4] == Group(x, y, z);
      assert s[i..i + 4] == s[i..][..4];
      GroupDecodes(s, i, |b|, x, y, z);
      if |b| > 2 {
        assert s[i + 4..] == s[i..][4..] == Groups(b[3..]);
        GroupsDecode(s, i + 4, b[3..]);
        assert b == [x, y, z] + b[3..];
      } else {
        assert b == if |b| == 1 then [x] else [x, y];
      }
    }
  }

  /** Every line put out is a good one and decodes to its chunk. */
  lemma LineDecodes(b: seq<byte>)
    requires 0 < |b| <= MAX_LINELEN
    ensures DecodedLine(Line(b)) == LineResult(b, false)
  {
    DigitDecodes(|b|);
    assert Line(b)[1..] == Groups(b);
    GroupsDecode(Line(b), 1, b);
  }

  /** The pieces of a text between carriage returns and line feeds. */
  function Pieces(t: seq<byte>): (ps: seq<seq<byte>>)
    ensures ps != []
  {
    if t == [] then [[]]
    else if t[0] == CR || t[0] == LF then [[]] + Pieces(t[1..])
    else [[t[0]] + Pieces(t[1..])[0]] + Pieces(t[1..])[1..]
  }

  /** The non-empty pieces, decoded one after the other: the bytes and the number of bad lines. */
  function DecodedLines(ps: seq<seq<byte>>): (r: (seq<byte>, nat)) {
    if ps == [] then ([], 0)
    else
      var rest := DecodedLines(ps[1..]);
      if ps[0] == [] then rest
      else (DecodedLine(ps[0]).out + rest.0, (if DecodedLine(ps[0]).bad then 1 else 0) + rest.1)
  }

  lemma {:induction false} PiecesOfLine(a: seq<byte>, t: seq<byte>)
    requires CR !in a && LF !in a
    ensures Pieces(a + [CR, LF] + t) == [a, []] + Pieces(t)
  {
    hide Pieces;
    var s := a + [CR, LF] + t;
    if a == [] {
      assert s == [CR] + ([LF] + t);
      PiecesBreak(CR, [LF] + t);
      PiecesBreak(LF, t);
      assert [[]] + ([[]] + Pieces(t)) == [[], []] + Pieces(t);
    } else {
      var rest := a[1..] + [CR, LF] + t;
      PiecesOfLine(a[1..], t);
      assert s == [a[0]] + rest && a == [a[0]] + a[1..];
      PiecesPlain(a[0], rest);
      assert ([a[1..], []] + Pieces(t))[1..] == [[]] + Pieces(t);
      assert [a] + ([[]] + Pieces(t)) == [a, []] + Pieces(t);
    }
  }

  lemma PiecesBreak(c: byte, t: seq<byte>)
    requires c == CR || c == LF
    ensures Pieces([c] + t) == [[]] + Pieces(t)
  {
    assert ([c] + t)[1..] == t;
  }

  lemma PiecesPlain(c: byte, t: seq<byte>)
    requires c != CR && c != LF
    ensures Pieces([c] + t) == [[c] + Pieces(t)[0]] + Pieces(t)[1..]
  {
    assert ([c] + t)[1..] == t;
  }

  lemma {:induction false} GroupsPlain(b: seq<byte>)
    ensures CR !in Groups(b) && LF !in Groups(b)
    decreases |b|
  {
    if b != [] {
      GroupsPlain(if |b| < 3 then [] else b[3..]);
    }
  }

  /** Decoding line by line undoes encoding, and no line is bad. */
  lemma {:induction false} RoundTrip(b: seq<byte>)
    ensures DecodedLines(Pieces(Encoded(b))) == (b, 0)
    decreases |b|
  {
    hide Groups, DecodedLine, Pieces;
    NoPieces();
    if b != [] {
      var c, rest := Chunk(b), Rest(b);
      RoundTrip(rest);
      GroupsPlain(c);
      PiecesOfLine(Line(c), Encoded(rest));
      LineDecodes(c);
      LineThenRest(Line(c), Pieces(Encoded(rest)));
      assert b == c + rest;
    }
  }

  lemma NoPieces()
    ensures DecodedLines(Pieces([])) == ([], 0)
  {
  }

  lemma LineThenRest(line: seq<byte>, ps: seq<seq<byte>>)
    requires line != []
    ensures var r, rest := DecodedLines([line, []] + ps), DecodedLines(ps);
            r == (DecodedLine(line).out + rest.0, (if DecodedLine(line).bad then 1 else 0) + rest.1)
  {
    hide DecodedLine;
    var qs := [line, []] + ps;
    assert qs[1..] == [[]] + ps && qs[1..][1..] == ps;
  }

  // ---------- What a line of any characters comes to ----------

  /** The character at `p`; a line stripped of its blanks goes on with what is no digit. */
  ghost function CharAt(s: seq<byte>, p: nat): (c: int) {
    if p < |s| then s[p] else 31
  }

  ghost predicate InAlphabet(c: int) {
    ' ' as int <= c <= '`' as int
  }

  /** The line is given up for such a character. */
  ghost predicate Unfit(c: int) {
    c > '`' as int || (c < 31 && !(9 <= c <= 13))
  }

  ghost function ValueOf(c: int): (v: int) {
    if c == '`' as int then 0 else c - ' ' as int
  }

  /** How many characters `n` bytes take. */
  ghost function Used(n: nat): (k: nat) {
    4 * (n / 3) + if n % 3 == 0 then 0 else n % 3 + 1
  }

  ghost predicate AllFit(s: seq<byte>, i: nat, k: nat) {
    forall p :: i <= p < i + k ==> !Unfit(CharAt(s, p))
  }

  ghost predicate AllGood(s: seq<byte>, i: nat, k: nat) {
    forall p :: i <= p < i + k ==> InAlphabet(CharAt(s, p))
  }

  /** The bytes of group `g`, as far as there are `n`. The first two characters count for nothing if one of them is
      not in the alphabet, the others each for itself. */
  ghost predicate OctetsAt(s: seq<byte>, i: nat, n: nat, out: seq<int>, g: nat) {
    && 3 * g < n <= |out|
    && var p := i + 4 * g;
    var good := InAlphabet(CharAt(s, p)) && InAlphabet(CharAt(s, p + 1));
    var v0, v1 := if good then ValueOf(CharAt(s, p)) else 0, if good then ValueOf(CharAt(s, p + 1)) else 0;
    var v2 := if InAlphabet(CharAt(s, p + 2)) then ValueOf(CharAt(s, p + 2)) else 0;
    var v3 := if InAlphabet(CharAt(s, p + 3)) then ValueOf(CharAt(s, p + 3)) else 0;
    && out[3 * g] == v0 * 4 + v1 / 16
    && (3 * g + 1 < n ==> out[3 * g + 1] == v1 % 16 * 16 + v2 / 4)
    && (3 * g + 2 < n ==> out[3 * g + 2] == v2 % 4 * 64 + v3)
  }

  /** The first group is in the line. */
  ghost predicate Reaches(s: seq<byte>, i: nat, n: nat) {
    n == 0 || i + 4 * ((n - 1) / 3) < |s|
  }

  ghost predicate GroupsAs(s: seq<byte>, i: nat, n: nat, r: Option<LineResult>) {
    && (r.Some? <==> AllFit(s, i, Used(n)))
    && (r.Some? ==> |r.value.out| <= n && (|r.value.out| == n <==> Reaches(s, i, n)))
    && (r.Some? && Reaches(s, i, n) ==>
         && (r.value.bad <==> !AllGood(s, i, Used(n)))
         && forall g :: 0 <= g && 3 * g < n ==> OctetsAt(s, i, n, r.value.out, g))
  }

  lemma FitFew(s: seq<byte>, i: nat)
    ensures AllFit(s, i, 0) && AllGood(s, i, 0)
    ensures AllFit(s, i, 2) <==> !Unfit(CharAt(s, i)) && !Unfit(CharAt(s, i + 1))
    ensures AllFit(s, i, 3) <==> AllFit(s, i, 2) && !Unfit(CharAt(s, i + 2))
    ensures AllFit(s, i, 4) <==> AllFit(s, i, 3) && !Unfit(CharAt(s, i + 3))
    ensures AllGood(s, i, 2) <==> InAlphabet(CharAt(s, i)) && InAlphabet(CharAt(s, i + 1))
    ensures AllGood(s, i, 3) <==> AllGood(s, i, 2) && InAlphabet(CharAt(s, i + 2))
    ensures AllGood(s, i, 4) <==> AllGood(s, i, 3) && InAlphabet(CharAt(s, i + 3))
  {
    hide Unfit, InAlphabet, CharAt;
  }

  lemma CharIs(s: seq<byte>, p: nat)
    ensures var d := Bchare(s, p, 31);
      d == CharAt(s, p) && (Digit(DecodeByte(d)) <==> InAlphabet(d)) && DecodeByte(d) == ValueOf(d)
      && (Hard(d) <==> Unfit(d)) && (InAlphabet(d) ==> !Unfit(d) && 0 <= ValueOf(d) < 64)
  {
  }

  lemma LowIs(v0: nat, v1: nat, v2: nat, v3: nat)
    requires v0 < 64 && v1 < 64 && v2 < 64 && v3 < 64
    ensures Low(v0 * 4 + v1 / 16) == v0 * 4 + v1 / 16 && Low(v1 * 16 + v2 / 4) == v1 % 16 * 16 + v2 / 4
    ensures Low(v2 * 64 + v3) == v2 % 4 * 64 + v3
  {
    LowOf(v1 / 16, v1 % 16 * 16 + v2 / 4);
    LowOf(v2 / 4, v2 % 4 * 64 + v3);
    assert v1 * 16 + v2 / 4 == 256 * (v1 / 16) + (v1 % 16 * 16 + v2 / 4);
    assert v2 * 64 + v3 == 256 * (v2 / 4) + (v2 % 4 * 64 + v3);
  }

  lemma LowOf(x: nat, y: nat)
    requires y < 256
    ensures Low(256 * x + y) == y
  {
  }

  /** The group of at most three bytes at `i`. */
  lemma GroupDecoded(s: seq<byte>, i: nat, n: nat)
    requires i < |s| && 0 < n <= 3
    ensures GroupsAs(s, i, n, DecodedGroups(s, i, n))
  {
    hide CharAt, InAlphabet, Unfit, ValueOf, Digit, Hard, DecodeByte, Bchare, Low, AllFit, AllGood;
    CharIs(s, i);
    CharIs(s, i + 1);
    CharIs(s, i + 2);
    CharIs(s, i + 3);
    FitFew(s, i);
    var good := InAlphabet(CharAt(s, i)) && InAlphabet(CharAt(s, i + 1));
    LowIs(if good then ValueOf(CharAt(s, i)) else 0, if good then ValueOf(CharAt(s, i + 1)) else 0,
          if InAlphabet(CharAt(s, i + 2)) then ValueOf(CharAt(s, i + 2)) else 0,
          if InAlphabet(CharAt(s, i + 3)) then ValueOf(CharAt(s, i + 3)) else 0);
    NoneWanted(s, i + 4);
    forall t: seq<byte> ensures t + [] == t {}
    var r := DecodedGroups(s, i, n);
    assert Used(1) == 2 && Used(2) == 3 && Used(3) == 4;
    assert r.Some? <==> AllFit(s, i, Used(n));
    assert r.Some? ==> |r.value.out| == n && OctetsAt(s, i, n, r.value.out, 0);
    assert r.Some? ==> (r.value.bad <==> !AllGood(s, i, Used(n)));
  }

  lemma NoneWanted(s: seq<byte>, i: nat)
    ensures DecodedGroups(s, i, 0) == Some(LineResult([], false))
  {
  }

  lemma FewDecoded(s: seq<byte>, i: nat, n: nat)
    requires i >= |s| || n <= 3
    ensures GroupsAs(s, i, n, DecodedGroups(s, i, n))
  {
    if i < |s| && n > 0 {
      GroupDecoded(s, i, n);
    } else {
      assert n == 0 ==> Used(n) == 0;
    }
  }

  /** Three bytes, and then the others. */
  lemma FirstThree(s: seq<byte>, i: nat, n: nat)
    requires i < |s| && n > 3
    ensures var first := DecodedGroups(s, i, 3);
            DecodedGroups(s, i, n) == if first.None? then None
                                      else Join(first.value.out, first.value.bad, DecodedGroups(s, i + 4, n - 3))
  {
    hide DecodeByte, Hard, Digit, Low, Bchare;
    NoneWanted(s, i + 4);
    forall t: seq<byte> ensures t + [] == t {}
  }

  lemma FitSplit(s: seq<byte>, i: nat, n: nat)
    requires n > 3
    ensures Used(n) == 4 + Used(n - 3) && Used(3) == 4
    ensures AllFit(s, i, Used(n)) <==> AllFit(s, i, 4) && AllFit(s, i + 4, Used(n - 3))
    ensures AllGood(s, i, Used(n)) <==> AllGood(s, i, 4) && AllGood(s, i + 4, Used(n - 3))
    ensures Reaches(s, i, n) <==> Reaches(s, i + 4, n - 3)
  {
    hide CharAt, Unfit, InAlphabet;
    assert (n - 3) / 3 == n / 3 - 1 && (n - 4) / 3 == (n - 1) / 3 - 1;
  }

  lemma OctetsJoin(s: seq<byte>, i: nat, n: nat, first: seq<int>, rest: seq<int>)
    requires n > 3 && |first| == 3 && |rest| == n - 3
    requires OctetsAt(s, i, 3, first, 0)
    requires forall g :: 0 <= g && 3 * g < n - 3 ==> OctetsAt(s, i + 4, n - 3, rest, g)
    ensures forall g :: 0 <= g && 3 * g < n ==> OctetsAt(s, i, n, first + rest, g)
  {
    hide CharAt, InAlphabet, ValueOf;
    forall g | 0 <= g && 3 * g < n ensures OctetsAt(s, i, n, first + rest, g) {
      if g > 0 {
        assert OctetsAt(s, i + 4, n - 3, rest, g - 1);
      }
    }
  }

  lemma {:induction false} GroupsDecoded(s: seq<byte>, i: nat, n: nat)
    ensures GroupsAs(s, i, n, DecodedGroups(s, i, n))
    decreases |s| - i
  {
    hide DecodedGroups, AllFit, AllGood, OctetsAt, Used, Reaches;
    if i < |s| && n > 3 {
      var first, rest := DecodedGroups(s, i, 3), DecodedGroups(s, i + 4, n - 3);
      GroupsDecoded(s, i + 4, n - 3);
      FewDecoded(s, i, 3);
      FirstThree(s, i, n);
      FitSplit(s, i, n);
      InLine(s, i);
      if first.Some? && rest.Some? && Reaches(s, i + 4, n - 3) {
        assert OctetsAt(s, i, 3, first.value.out, 0);
        OctetsJoin(s, i, n, first.value.out, rest.value.out);
      }
    } else {
      FewDecoded(s, i, n);
    }
  }

  lemma InLine(s: seq<byte>, i: nat)
    requires i < |s|
    ensures Reaches(s, i, 3)
  {
  }

  /** The line can be decoded: its first character gives its size, there are enough characters, and none is unfit. */
  ghost predicate Decodable(s: seq<byte>, n: int) {
    && s != [] && 0 <= n <= 45 && n == ValueOf(s[0])
    && Reaches(s, 1, n) && AllFit(s, 1, Used(n))
  }

  lemma LineIs(s: seq<byte>)
    requires s != []
    ensures var r, n := DecodedLine(s), ValueOf(s[0]);
      if Decodable(s, n) then
        && |r.out| == n && (r.bad <==> !AllGood(s, 1, Used(n)))
        && forall g :: 0 <= g && 3 * g < n ==> OctetsAt(s, 1, n, r.out, g)
      else r == LineResult([], true)
  {
    hide DecodedGroups, AllFit, AllGood, OctetsAt, Used, Reaches;
    var n := ValueOf(s[0]);
    assert n == DecodeByte(s[0]);
    if 0 <= n { GroupsDecoded(s, 1, n); }
  }

  /** bUuDecLine for the line `s`, with a place to count bad lines. */
  method BUuDecLine(s: seq<byte>, t0: seq<byte>, badlines0: nat) returns (t: seq<byte>, badlines: nat)
    ensures s == [] ==> t == t0 && badlines == badlines0
    ensures s != [] ==> t == t0 + DecodedLine(s).out && badlines == badlines0 + (if DecodedLine(s).bad then 1 else 0)
    ensures s != [] ==> var n := ValueOf(s[0]);
      if Decodable(s, n) then
        && |t| == |t0| + n && t[..|t0|] == t0
        && badlines == badlines0 + (if AllGood(s, 1, Used(n)) then 0 else 1)
        && forall g :: 0 <= g && 3 * g < n ==> OctetsAt(s, 1, n, t[|t0|..], g)
      else t == t0 && badlines == badlines0 + 1
  {
    hide Decodable, AllGood, OctetsAt, Used, ValueOf, DecodedGroups;
    if s != [] { LineIs(s); }
    t, badlines := t0, badlines0;
    if |s| == 0 { return; }
    var llen := DecodeByte(s[0]);
    assert t0 + [] == t0;
    if llen < 0 || llen > MAX_LINELEN {
      badlines := badlines + 1;
      return;
    }
    var out, bad := DecodeGroups(s, llen);
    if out.None? || |out.value| < llen || bad {
      badlines := badlines + 1;
    }
    if out.Some? && |out.value| >= llen {
      t := t + out.value;
    }
  }

  lemma JoinNothing(r: Option<LineResult>)
    ensures Join([], false, r) == r
  {
    assert r.Some? ==> [] + r.value.out == r.value.out;
  }

  lemma JoinNone(t: seq<byte>, bad: bool)
    ensures Join(t, bad, None).None?
  {
  }

  lemma JoinSome(t: seq<byte>, bad: bool, out: seq<byte>, bad': bool)
    ensures Join(t, bad, Some(LineResult(out, bad'))) == Some(LineResult(t + out, bad || bad'))
  {
  }

  lemma JoinJoin(t: seq<byte>, bad: bool, out: seq<byte>, bad': bool, r: Option<LineResult>)
    ensures Join(t, bad, Join(out, bad', r)) == Join(t + out, bad || bad', r)
  {
    assert r.Some? ==> t + (out + r.value.out) == t + out + r.value.out;
  }

  /** The loop of bUuDecLine; the bytes are collected apart, none when the line is given up. */
  method DecodeGroups(s: seq<byte>, llen: nat) returns (r: Option<seq<byte>>, bad: bool)
    requires s != []
    ensures var q := DecodedGroups(s, 1, llen);
            if q.None? then r.None? else r == Some(q.value.out) && bad == q.value.bad
  {
    hide Join;
    var t: seq<byte> := [];
    bad := false;
    var i := 1;
    JoinNothing(DecodedGroups(s, 1, llen));
    while i < |s| && |t| < llen
      invariant 1 <= i && |t| <= llen
      invariant DecodedGroups(s, 1, llen) == Join(t, bad, DecodedGroups(s, i, llen - |t|))
      decreases |s| - i
    {
      var d0, d1, d2, d3 := Bchare(s, i, 31), Bchare(s, i + 1, 31), Bchare(s, i + 2, 31), Bchare(s, i + 3, 31);
      var c0, c1, c2, c3 := DecodeByte(d0), DecodeByte(d1), DecodeByte(d2), DecodeByte(d3);
      ghost var n, t1, bad1 := llen - |t|, t, bad;
      ghost var good01, good2, good3 := Digit(c0) && Digit(c1), Digit(c2), Digit(c3);
      JoinNone(t, bad);
      if !Digit(c0) || !Digit(c1) {
        bad := true;
        if Hard(d0) || Hard(d1) { return None, true; }
        c0, c1 := 0, 0;
      }
      var o0 := Low(c0 * 4 + c1 / 16);
      if |t| + 1 >= llen {
        JoinSome(t1, bad1, [o0], !good01);
        return Some(t + [o0]), bad;
      }
      if !Digit(c2) {
        bad := true;
        if Hard(d2) { return None, true; }
        c2 := 0;
      }
      var o1 := Low(c1 * 16 + c2 / 4);
      if |t| + 2 >= llen {
        JoinSome(t1, bad1, [o0, o1], !good01 || !good2);
        return Some(t + [o0, o1]), bad;
      }
      if !Digit(c3) {
        bad := true;
        if Hard(d3) { return None, true; }
        c3 := 0;
      }
      var o2 := Low(c2 * 64 + c3);
      JoinJoin(t1, bad1, [o0, o1, o2], !good01 || !good2 || !good3, DecodedGroups(s, i + 4, n - 3));
      t := t + [o0, o1, o2];
      i := i + 4;
    }
    JoinSome(t, bad, [], false);
    assert t + [] == t;
    r := Some(t);
  }
}
