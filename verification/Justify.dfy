/** Left and margin justification of bstrlib's auxiliary functions. */
module Justify {
  import opened Common
  import opened Bits
  import opened Split
  import BString

  /** The words of a text: its runs of characters other than `c`. */
  function Words(s: seq<byte>, c: byte): (ws: seq<seq<byte>>)
    ensures s != [] && s[|s| - 1] != c ==> ws != []
  {
    if s == [] then []
    else
      var init, x := s[..|s| - 1], s[|s| - 1];
      var ws := Words(init, c);
      if x == c then ws
      else if init == [] || init[|init| - 1] == c then ws + [[x]]
      else ws[..|ws| - 1] + [ws[|ws| - 1] + [x]]
  }

  lemma WordsSnoc(s: seq<byte>, x: byte, c: byte)
    ensures var ws := Words(s, c);
            Words(s + [x], c) ==
              if x == c then ws
              else if s == [] || s[|s| - 1] == c then ws + [[x]]
              else ws[..|ws| - 1] + [ws[|ws| - 1] + [x]]
  {
    assert (s + [x])[..|s|] == s;
  }

  /** Words are not empty and hold no `c`. */
  lemma {:induction false} WordsProper(s: seq<byte>, c: byte)
    ensures Without(Words(s, c), c) && forall k :: 0 <= k < |Words(s, c)| ==> Words(s, c)[k] != []
  {
    if s != [] {
      WordsProper(s[..|s| - 1], c);
    }
  }

  lemma {:induction false} WordsOfWord(w: seq<byte>, c: byte)
    requires c !in w
    ensures Words(w, c) == if w == [] then [] else [w]
  {
    if w != [] {
      var init := w[..|w| - 1];
      WordsOfWord(init, c);
      assert w == init + [w[|w| - 1]];
    }
  }

  /** A separator parts the words before it from those behind it. */
  lemma {:induction false} WordsConcat(a: seq<byte>, b: seq<byte>, c: byte)
    ensures Words(a + [c] + b, c) == Words(a, c) + Words(b, c)
  {
    hide Words;
    if b == [] {
      assert a + [c] + b == a + [c];
      WordsSnoc(a, c, c);
      NoWords(c);
    } else {
      var init, x := b[..|b| - 1], b[|b| - 1];
      WordsConcat(a, init, c);
      assert a + [c] + b == (a + [c] + init) + [x] && b == init + [x];
      NoWords(c);
      OneMore(a + [c] + init, init, Words(a, c), x, c);
    }
  }

  lemma NoWords(c: byte)
    ensures Words([], c) == []
  {
  }

  lemma OneMore(s: seq<byte>, t: seq<byte>, ws: seq<seq<byte>>, x: byte, c: byte)
    requires Words(s, c) == ws + Words(t, c) && s != [] && s[|s| - 1] == (if t == [] then c else t[|t| - 1])
    ensures Words(s + [x], c) == ws + Words(t + [x], c)
  {
    hide Words;
    WordsSnoc(s, x, c);
    WordsSnoc(t, x, c);
    var us := Words(t, c);
    if x != c {
      if t == [] || t[|t| - 1] == c {
        assert (ws + us) + [[x]] == ws + (us + [[x]]);
      } else {
        ExtendLast(ws, us, x);
      }
    }
  }

  lemma ExtendLast(ws: seq<seq<byte>>, us: seq<seq<byte>>, x: byte)
    requires us != []
    ensures var all := ws + us;
            all[..|all| - 1] + [all[|all| - 1] + [x]] == ws + (us[..|us| - 1] + [us[|us| - 1] + [x]])
  {
  }

  function NonEmpty(ps: seq<seq<byte>>): (qs: seq<seq<byte>>) {
    if ps == [] then [] else (if ps[0] == [] then [] else [ps[0]]) + NonEmpty(ps[1..])
  }

  /** The non-empty pieces of a split are the words. */
  lemma {:induction false} PiecesAreWords(ps: seq<seq<byte>>, c: byte)
    requires ps != [] && Without(ps, c)
    ensures NonEmpty(ps) == Words(Joined(ps, [c]), c)
  {
    WordsOfWord(ps[0], c);
    if |ps| > 1 {
      PiecesAreWords(ps[1..], c);
      WordsConcat(ps[0], Joined(ps[1..], [c]), c);
    } else {
      assert NonEmpty(ps[1..]) == [];
    }
  }

  /** What bJustifyLeft keeps of the text while it scans it: single separators behind words. */
  function Kept(s: seq<byte>, c: byte): (r: seq<byte>) {
    if s == [] then []
    else
      var init, x := s[..|s| - 1], s[|s| - 1];
      if x != c || (init != [] && init[|init| - 1] != c) then Kept(init, c) + [x] else Kept(init, c)
  }

  lemma KeptSnoc(s: seq<byte>, x: byte, c: byte)
    ensures Kept(s + [x], c) == if x != c || (s != [] && s[|s| - 1] != c) then Kept(s, c) + [x] else Kept(s, c)
  {
    assert (s + [x])[..|s|] == s;
  }

  lemma {:induction false} JoinedExtend(ws: seq<seq<byte>>, x: byte, sep: seq<byte>)
    requires ws != []
    ensures Joined(ws[..|ws| - 1] + [ws[|ws| - 1] + [x]], sep) == Joined(ws, sep) + [x]
  {
    if |ws| > 1 {
      var ws' := ws[..|ws| - 1] + [ws[|ws| - 1] + [x]];
      assert ws'[1..] == ws[1..][..|ws| - 2] + [ws[1..][|ws| - 2] + [x]];
      JoinedExtend(ws[1..], x, sep);
    }
  }

  /** What is kept are the words with one separator between them, and one more after the last word when the
      text goes on behind it. */
  lemma {:induction false} KeptJoined(s: seq<byte>, c: byte)
    ensures Kept(s, c) == Joined(Words(s, c), [c]) + (if Words(s, c) != [] && s[|s| - 1] == c then [c] else [])
  {
    if s != [] {
      var init, x := s[..|s| - 1], s[|s| - 1];
      assert s == init + [x];
      KeptJoined(init, c);
      KeptSnoc(init, x, c);
      WordsSnoc(init, x, c);
      var ws := Words(init, c);
      if x != c {
        if init == [] || init[|init| - 1] == c {
          if ws != [] { JoinedNext(ws, [x], [c]); } else { assert ws + [[x]] == [[x]]; }
        } else {
          JoinedExtend(ws, x, [c]);
        }
      }
    }
  }

  /** bJustifyLeft on the text `a[..slen]`: the words with single separators between them. */
  method BJustifyLeft(a: array<byte>, slen: nat, space: int) returns (newlen: nat)
    requires slen < a.Length
    modifies a
    ensures newlen <= slen
    ensures !(0 <= space < 256) ==> newlen == slen && a[..] == old(a[..])
    ensures 0 <= space < 256 ==> a[..newlen] == Joined(Words(old(a[..slen]), space), [space]) && a[newlen] == 0
  {
    hide Words, Kept, Joined, Compacting;
    var c: byte := space % 256;
    if space != c { return slen; }
    ghost var b := a[..slen];
    var j, i, s := 0, 0, false;
    CompactStart(a[..], b, c);
    while i < slen
      invariant 0 <= j <= i <= slen && Compacting(a[..], b, i, j, c)
      invariant s <==> i > 0 && b[i - 1] != c
    {
      var t := s;
      CompactNext(a[..], b, i, j, c);
      a[j] := a[i];
      s := c != a[j];
      if t || s { j := j + 1; }
      i := i + 1;
    }
    CompactEnd(a[..], b, j, c);
    WordsEnd(b, c);
    if j > 0 && a[j - 1] == c { j := j - 1; }
    assert a[..j] == a[..][..j];
    a[j] := 0;
    newlen := j;
  }

  /** The text `b` is scanned up to `i`, and what is kept of it stands before `j`. */
  ghost predicate Compacting(a: seq<byte>, b: seq<byte>, i: nat, j: nat, c: byte) {
    j <= i <= |b| <= |a| && a[i..|b|] == b[i..] && a[..j] == Kept(b[..i], c)
  }

  lemma CompactStart(a: seq<byte>, b: seq<byte>, c: byte)
    requires |b| <= |a| && a[..|b|] == b
    ensures Compacting(a, b, 0, 0, c)
  {
  }

  lemma CompactNext(a: seq<byte>, b: seq<byte>, i: nat, j: nat, c: byte)
    requires Compacting(a, b, i, j, c) && i < |b|
    ensures j <= i < |a| && a[i] == b[i]
    ensures Compacting(a[j := a[i]], b, i + 1, if b[i] != c || (i > 0 && b[i - 1] != c) then j + 1 else j, c)
  {
    hide Kept;
    KeptSnoc(b[..i], b[i], c);
    assert b[..i + 1] == b[..i] + [b[i]] && a[i] == a[i..|b|][0];
    var a' := a[j := a[i]];
    assert a'[..j + 1] == a[..j] + [b[i]] && a'[..j] == a[..j];
    assert a'[i + 1..|b|] == a[i..|b|][1..] == b[i..][1..] == b[i + 1..];
  }

  /** At the end the words are left, and behind them at most one separator. */
  lemma CompactEnd(a: seq<byte>, b: seq<byte>, j: nat, c: byte)
    requires Compacting(a, b, |b|, j, c)
    ensures j <= |a| && a[..j] == Joined(Words(b, c), [c]) + (if Words(b, c) != [] && b[|b| - 1] == c then [c] else [])
  {
    assert b[..|b|] == b;
    KeptJoined(b, c);
  }

  /** The joined words never end with the separator. */
  lemma WordsEnd(s: seq<byte>, c: byte)
    ensures var r := Joined(Words(s, c), [c]); r != [] ==> r[|r| - 1] != c
  {
    WordsProper(s, c);
    if Words(s, c) != [] { JoinedEnd(Words(s, c), c); }
  }

  lemma {:induction false} JoinedEnd(ws: seq<seq<byte>>, c: byte)
    requires ws != [] && Without(ws, c) && forall k :: 0 <= k < |ws| ==> ws[k] != []
    ensures var r := Joined(ws, [c]); r != [] && r[|r| - 1] != c
  {
    if |ws| > 1 { JoinedEnd(ws[1..], c); }
  }

  /** The words with gaps of the given lengths between them. */
  function Woven(ws: seq<seq<byte>>, gaps: seq<nat>, c: byte): (r: seq<byte>)
    requires |ws| == |gaps| + 1
  {
    if gaps == [] then ws[0] else ws[0] + BString.Fill(c, gaps[0]) + Woven(ws[1..], gaps[1..], c)
  }

  lemma {:induction false} WovenNext(ws: seq<seq<byte>>, gaps: seq<nat>, w: seq<byte>, g: nat, c: byte)
    requires |ws| == |gaps| + 1
    ensures Woven(ws + [w], gaps + [g], c) == Woven(ws, gaps, c) + BString.Fill(c, g) + w
  {
    assert (ws + [w])[1..] == ws[1..] + [w];
    if gaps == [] {
      assert gaps + [g] == [g] && (gaps + [g])[1..] == [];
      assert ws + [w] == [ws[0], w];
    } else {
      assert (gaps + [g])[1..] == gaps[1..] + [g];
      WovenNext(ws[1..], gaps[1..], w, g, c);
    }
  }

  function Sum(gaps: seq<nat>): nat {
    if gaps == [] then 0 else gaps[0] + Sum(gaps[1..])
  }

  /** `r` blanks for `m` gaps of at least `q` and at most `q + 1`. */
  predicate Fits(r: int, m: nat, q: nat) {
    q * m <= r <= (q + 1) * m
  }

  /** One gap, rounded to the nearest share: the rest still fits. */
  lemma GapFits(r: int, m: nat, q: nat)
    requires m > 0 && Fits(r, m, q)
    ensures var s := (r + m / 2) / m; q <= s <= q + 1 && Fits(r - s, m - 1, q)
  {
    var s := (r + m / 2) / m;
    var x := r - q * m;
    assert (q + 1) * m == q * m + m;
    assert 0 <= x <= m;
    assert r + m / 2 == m * q + (x + m / 2);
    if x + m / 2 < m {
      ModUnique(r + m / 2, m, q, x + m / 2);
    } else {
      assert m * (q + 1) == m * q + m;
      ModUnique(r + m / 2, m, q + 1, x + m / 2 - m);
    }
    assert q * (m - 1) == q * m - q && (q + 1) * (m - 1) == (q + 1) * m - (q + 1);
  }

  /** bInsertChrs. Like breplace it asks for no room for the final NUL; `overrun` says that the NUL would go
      behind the buffer, where the model stops. A length too large is found out after the padding. */
  method BInsertChrs(b: BString.Bstring, pos: int, len: int, c: byte, fill: byte) returns (ret: int, overrun: bool)
    requires b.Shaped() && pos <= INT_MAX && len <= INT_MAX
    modifies b, b.data
    ensures ret == BString.OK <==>
      && old(b.mlen) > 0 && pos >= 0 && len > 0 && (pos > old(b.slen) ==> pos < INT_MAX)
      && Larger(pos, old(b.slen)) + len <= INT_MAX
    ensures overrun <==>
      && ret == BString.OK
      && var size := Larger(pos, old(b.slen)) + len;
      PaddedLength(old(b.mlen), old(b.slen), pos) <= size && size >= 0x4000_0000
    ensures !overrun ==> b.Shaped() && (old(b.Valid()) || ret == BString.OK ==> b.Valid())
    ensures !overrun ==> (b.data == old(b.data) || fresh(b.data))
    ensures ret == BString.OK && !overrun ==>
      && b.Text() == BString.Spliced(old(b.Text()), pos, 0, BString.Fill(c, len), fill)
      && b.mlen == BString.NewLength(PaddedLength(old(b.mlen), old(b.slen), pos), Larger(pos, old(b.slen)) + len) > 0
    ensures overrun ==>
      && b.data.Length == b.slen
      && b.data[..] == BString.Spliced(old(b.Text()), pos, 0, BString.Fill(c, len), fill)
    ensures ret != BString.OK ==>
      ret == ERR && b.Text() ==
        if old(b.mlen) > 0 && old(b.slen) < pos < INT_MAX && len > 0 then BString.Padded(old(b.Text()), pos, fill)
        else old(b.Text())
  {
    hide BString.SnapUpSize, BString.NewLength, BString.Spliced, BString.Fill;
    overrun := false;
    if b.mlen < b.slen || b.mlen <= 0 || pos < 0 || len <= 0 { return ERR, false; }
    ghost var s := b.Text();
    if pos > b.slen {
      ret := b.SetStr(pos, BString.Null, fill);
      if 0 > ret { return ERR, false; }
      OnlyPadded(s, pos, BString.Fill(c, len), fill);
    }
    ret, overrun := InsertInText(b, pos, len, c, fill);
  }

  /** The part of bInsertChrs behind the padding. */
  method InsertInText(b: BString.Bstring, pos: nat, len: nat, c: byte, fill: byte) returns (ret: int, overrun: bool)
    requires b.Shaped() && b.mlen > 0 && pos <= b.slen && 0 < len <= INT_MAX
    modifies b, b.data
    ensures ret == BString.OK <==> old(b.slen) + len <= INT_MAX
    ensures overrun <==>
      ret == BString.OK && old(b.mlen) <= old(b.slen) + len && old(b.slen) + len >= 0x4000_0000
    ensures !overrun ==> b.Shaped() && (old(b.Valid()) || ret == BString.OK ==> b.Valid())
    ensures !overrun ==> (b.data == old(b.data) || fresh(b.data))
    ensures ret == BString.OK && !overrun ==>
      && b.Text() == BString.Spliced(old(b.Text()), pos, 0, BString.Fill(c, len), fill)
      && b.mlen == BString.NewLength(old(b.mlen), old(b.slen) + len) > 0
    ensures overrun ==>
      && b.data.Length == b.slen
      && b.data[..] == BString.Spliced(old(b.Text()), pos, 0, BString.Fill(c, len), fill)
    ensures ret != BString.OK ==> ret == ERR && b.Text() == old(b.Text())
  {
    hide BString.SnapUpSize, BString.NewLength, BString.Spliced, BString.Fill;
    ret := b.Balloc(BString.Wrap(b.slen + len));
    if 0 > ret { return ERR, false; }
    b.slen := BString.ShiftAndCopy(b.data, b.slen, pos, BString.Fill(c, len), fill);
    overrun := b.slen >= b.data.Length;
    if overrun {
      assert b.data[..b.slen] == b.data[..];
    } else {
      b.data[b.slen] := 0;
    }
  }

  function Larger(x: int, y: int): (z: int) {
    if x > y then x else y
  }

  /** The size of the buffer once the text is padded. */
  function PaddedLength(mlen: nat, slen: nat, pos: int): (r: nat)
    requires pos > slen ==> pos < INT_MAX
  {
    if pos > slen then BString.NewLength(mlen, pos + 1) else mlen
  }

  lemma OnlyPadded(s: seq<byte>, pos: nat, t: seq<byte>, fill: byte)
    requires pos > |s|
    ensures var p := BString.Spliced(s, pos, 0, [], fill);
            && p == BString.Padded(s, pos, fill) && |p| == pos
            && BString.Spliced(p, pos, 0, t, fill) == BString.Spliced(s, pos, 0, t, fill)
  {
  }

  lemma {:induction false} WovenLength(ws: seq<seq<byte>>, gaps: seq<nat>, c: byte)
    requires |ws| == |gaps| + 1
    ensures |Woven(ws, gaps, c)| == Total(ws) + Sum(gaps)
  {
    if gaps != [] { WovenLength(ws[1..], gaps[1..], c); }
  }

  lemma {:induction false} SumSnoc(gaps: seq<nat>, g: nat)
    ensures Sum(gaps + [g]) == Sum(gaps) + g
  {
    if gaps != [] {
      assert (gaps + [g])[1..] == gaps[1..] + [g];
      SumSnoc(gaps[1..], g);
    }
  }

  lemma {:induction false} NonEmptySnoc(ps: seq<seq<byte>>, p: seq<byte>)
    ensures NonEmpty(ps + [p]) == NonEmpty(ps) + (if p == [] then [] else [p])
  {
    if ps != [] {
      assert (ps + [p])[1..] == ps[1..] + [p];
      NonEmptySnoc(ps[1..], p);
    }
  }

  lemma {:induction false} NonEmptyPrefix(ps: seq<seq<byte>>, i: nat)
    requires i <= |ps|
    ensures var a, all := NonEmpty(ps[..i]), NonEmpty(ps); |a| <= |all| && a == all[..|a|]
    decreases |ps| - i
  {
    if i == |ps| {
      assert ps[..i] == ps;
    } else {
      NonEmptyPrefix(ps, i + 1);
      assert ps[..i + 1] == ps[..i] + [ps[i]];
      NonEmptySnoc(ps[..i], ps[i]);
    }
  }

  /** At least one blank everywhere, and nowhere two more than elsewhere. */
  predicate Even(gaps: seq<nat>) {
    forall i, j :: 0 <= i < |gaps| && 0 <= j < |gaps| ==> 1 <= gaps[i] <= gaps[j] + 1
  }

  /** How much longer than the others gap `i` is. With `d` long gaps more than short ones the long ones come first,
      with fewer the short ones; the rest takes turns, a long one first. */
  ghost function Extra(d: int, i: nat): (e: nat) {
    var a := if d < 0 then -d else d;
    if i < a then (if d < 0 then 0 else 1) else if (i - a) % 2 == 0 then 1 else 0
  }

  /** The length of gap `i` when `blanks` are spread over `m` gaps. */
  ghost function GapOf(blanks: int, m: nat, i: nat): (g: int)
    requires m > 0
  {
    blanks / m + Extra(2 * (blanks % m) - m, i)
  }

  /** Each gap is the rounded share of the blanks that are left. */
  ghost predicate Rounded(r: int, m: int, gaps: seq<nat>) {
    gaps != [] ==> m > 0 && gaps[0] == (r + m / 2) / m && Rounded(r - gaps[0], m - 1, gaps[1..])
  }

  lemma {:induction false} RoundedNext(r: int, m: int, gaps: seq<nat>, s: nat)
    requires Rounded(r, m, gaps) && m > |gaps|
    requires s == (r - Sum(gaps) + (m - |gaps|) / 2) / (m - |gaps|)
    ensures Rounded(r, m, gaps + [s])
  {
    var all := gaps + [s];
    if gaps == [] {
      assert all[1..] == [];
    } else {
      assert all[1..] == gaps[1..] + [s];
      RoundedNext(r - gaps[0], m - 1, gaps[1..], s);
    }
  }

  lemma NextExtra(d: int, i: nat)
    requires i > 0
    ensures Extra(d, i) == Extra(if d >= 0 then d - 1 else d + 1, i - 1)
  {
  }

  /** What rounding share by share comes to. */
  lemma {:induction false} RoundedIs(r: int, m: nat, gaps: seq<nat>, q: nat, x: nat)
    requires Rounded(r, m, gaps) && |gaps| == m && r == q * m + x && x <= m
    ensures forall i :: 0 <= i < m ==> gaps[i] == q + Extra(2 * x - m, i)
    decreases m
  {
    hide Extra;
    if m > 0 {
      var d := 2 * x - m;
      var e := if d >= 0 then 1 else 0;
      RoundedFirst(r, m, q, x);
      assert gaps[0] == q + e;
      assert q * (m - 1) == q * m - q;
      RoundedIs(r - gaps[0], m - 1, gaps[1..], q, x - e);
      FirstExtra(d);
      forall i | 0 <= i < m ensures gaps[i] == q + Extra(d, i) {
        if i > 0 {
          assert gaps[i] == gaps[1..][i - 1];
          NextExtra(d, i);
        }
      }
    }
  }

  lemma FirstExtra(d: int)
    ensures Extra(d, 0) == if d >= 0 then 1 else 0
  {
  }

  lemma RoundedFirst(r: int, m: nat, q: nat, x: nat)
    requires m > 0 && r == q * m + x && x <= m
    ensures (r + m / 2) / m == q + if 2 * x >= m then 1 else 0
  {
    assert r + m / 2 == m * q + (x + m / 2);
    if 2 * x < m {
      ModUnique(r + m / 2, m, q, x + m / 2);
    } else {
      assert m * (q + 1) == m * q + m;
      ModUnique(r + m / 2, m, q + 1, x + m / 2 - m);
    }
  }

  lemma Quotient(x: nat, m: nat)
    requires m > 0
    ensures x / m >= 0
  {
  }

  lemma RoundedGaps(blanks: nat, m: nat, gaps: seq<nat>)
    requires m > 0 && Rounded(blanks, m, gaps) && |gaps| == m
    ensures forall i :: 0 <= i < m ==> gaps[i] == GapOf(blanks, m, i)
  {
    hide Extra, Rounded;
    var q, x := blanks / m, blanks % m;
    assert blanks == m * q + x == q * m + x && 0 <= x < m;
    Quotient(blanks, m);
    RoundedIs(blanks, m, gaps, q, x);
  }

  /** The first words are put, `l` is what words and gaps take so far, and the blanks left fit the gaps left. */
  ghost predicate Justified(ws: seq<seq<byte>>, k: nat, gaps: seq<nat>, l: int, width: int, q: nat, c: byte,
                            t: seq<byte>) {
    && 1 <= k <= |ws| && |gaps| == k - 1 && t == Woven(ws[..k], gaps, c) && 1 <= q
    && l == Total(ws) + Sum(gaps) && Fits(width - l, |ws| - k, q) && Rounded(width - Total(ws), |ws| - 1, gaps)
    && forall i :: 0 <= i < |gaps| ==> q <= gaps[i] <= q + 1
  }

  lemma JustifyStart(ws: seq<seq<byte>>, l: int, width: int, c: byte) returns (q: nat)
    requires |ws| >= 2 && l == Total(ws) && l + |ws| < width
    ensures Justified(ws, 1, [], l, width, q, c, ws[0])
  {
    var m := |ws| - 1;
    q := (width - l) / m;
    Shares(width - l, m);
    assert ws[..1] == [ws[0]];
  }

  lemma Shares(x: nat, m: nat)
    requires 0 < m <= x
    ensures x / m >= 1 && Fits(x, m, x / m)
  {
    var q := x / m;
    assert x == m * q + x % m;
    assert (q + 1) * m == q * m + m;
    Positive(m, q);
  }

  lemma Positive(m: nat, q: nat)
    requires m * q > 0
    ensures q >= 1
  {
  }

  lemma TotalBefore(ws: seq<seq<byte>>, k: nat)
    requires k < |ws|
    ensures ws[..k + 1] == ws[..k] + [ws[k]] && Total(ws[..k]) + |ws[k]| <= Total(ws)
  {
    assert ws[..k + 1] == ws[..k] + [ws[k]];
    assert ws == ws[..k] + [ws[k]] + ws[k + 1..];
    TotalConcat(ws[..k] + [ws[k]], ws[k + 1..]);
    TotalConcat(ws[..k], [ws[k]]);
  }

  lemma TotalLast(ws: seq<seq<byte>>, k: nat)
    requires k < |ws|
    ensures var last := |ws[|ws| - 1]|;
            Total(ws[..k]) + last <= Total(ws) && (k == |ws| - 1 ==> Total(ws[..k]) + last == Total(ws))
  {
    var n := |ws| - 1;
    assert ws == ws[..n] + [ws[n]];
    TotalConcat(ws[..n], [ws[n]]);
    assert ws[..n] == ws[..k] + ws[k..n];
    TotalConcat(ws[..k], ws[k..n]);
  }

  lemma FitsNone(r: int, q: nat)
    ensures Fits(r, 0, q) ==> r == 0
  {
  }

  lemma FitsLeft(r: int, m: nat, q: nat)
    requires Fits(r, m, q)
    ensures r >= 0
  {
  }

  lemma JustifyMore(ws: seq<seq<byte>>, k: nat, gaps: seq<nat>, l: int, width: int, q: nat, c: byte, t: seq<byte>)
    requires Justified(ws, k, gaps, l, width, q, c, t) && k < |ws|
    ensures var m := |ws| - k;
            var s := (width - l + m / 2) / m;
            var last := |ws[|ws| - 1]|;
            && 1 <= s && |t| + s + |ws[k]| <= width && |t| + s <= l + s <= width
            && |t| + s <= width - last && (m == 1 ==> |t| + s == width - last)
            && Justified(ws, k + 1, gaps + [s], l + s, width, q, c, t + BString.Fill(c, s) + ws[k])
  {
    hide Woven, Fits, Total, Sum, Rounded;
    var m := |ws| - k;
    var s := (width - l + m / 2) / m;
    GapFits(width - l, m, q);
    RoundedNext(width - Total(ws), |ws| - 1, gaps, s);
    FitsLeft(width - l - s, m - 1, q);
    SumSnoc(gaps, s);
    TotalBefore(ws, k);
    TotalLast(ws, k);
    FitsNone(width - l - s, q);
    WovenNext(ws[..k], gaps, ws[k], s, c);
    WovenLength(ws[..k], gaps, c);
  }

  lemma JustifyEnd(ws: seq<seq<byte>>, gaps: seq<nat>, l: int, width: int, q: nat, c: byte, t: seq<byte>)
    requires Justified(ws, |ws|, gaps, l, width, q, c, t)
    ensures |gaps| == |ws| - 1 && t == Woven(ws, gaps, c) && |t| == width && Even(gaps)
    ensures forall i :: 0 <= i < |gaps| ==> gaps[i] == GapOf(width - Total(ws), |ws| - 1, i)
  {
    hide Rounded, GapOf;
    FitsNone(width - l, q);
    if |ws| > 1 { RoundedGaps(width - Total(ws), |ws| - 1, gaps); }
    assert ws[..|ws|] == ws;
    WovenLength(ws, gaps, c);
  }

  /** How far a buffer of `m0` bytes has grown for a text of `slen`: to no more than 2^30 bytes, or to the text's
      own size. */
  ghost predicate Grown(m0: int, m: int, slen: nat) {
    0 < m0 <= m && (m == m0 || m <= Larger(0x4000_0000, slen + 1))
  }

  /** One word with the blanks before it. */
  method PutWord(b: BString.Bstring, s: nat, c: byte, w: seq<byte>, ghost m0: int) returns (overrun: bool)
    requires b.Shaped() && Grown(m0, b.mlen, b.slen) && w != []
    requires b.slen + s + |w| <= INT_MAX
    modifies b, b.data
    ensures overrun <==>
      || (s > 0 && old(b.mlen) <= old(b.slen) + s && old(b.slen) + s >= 0x4000_0000)
      || old(b.slen) + s + |w| == INT_MAX
    ensures !overrun ==> b.Valid() && Grown(m0, b.mlen, b.slen) && (b.data == old(b.data) || fresh(b.data))
    ensures !overrun ==> b.Text() == old(b.Text()) + BString.Fill(c, s) + w
  {
    hide BString.SnapUpSize, BString.NewLength;
    overrun := false;
    ghost var t := b.Text();
    var e := 0;
    if s > 0 {
      BString.NoByteToSpare(b.mlen, b.slen + s);
      e, overrun := BInsertChrs(b, b.slen, s, c, c);
      if overrun { return; }
      assert b.Text() == t + BString.Fill(c, s);
    } else {
      assert t + BString.Fill(c, 0) == t;
    }
    if b.slen + |w| < INT_MAX { BString.NoByteToSpare(b.mlen, b.slen + |w| + 1); }
    e, overrun := b.Concat(BString.Apart(w));
  }

  /** In a buffer of `mlen` bytes a line that ends `last` characters before `width` leaves no room behind it, or
      the whole line does not. */
  predicate Cramped(width: int, last: nat, mlen: int) {
    width == INT_MAX || (width - last >= 0x4000_0000 && mlen <= width - last)
  }

  /** bJustifyMargin; `gaps` is what it put between the words. `overrun` says that a NUL went behind the buffer on
      the way. */
  method BJustifyMargin(b: BString.Bstring, width: int, space: int)
    returns (ret: int, overrun: bool, ghost gaps: seq<nat>)
    requires b.Valid() && width <= INT_MAX
    modifies b, b.data
    ensures !overrun ==> b.Valid()
    ensures old(b.mlen) <= 0 <==> ret == ERR
    ensures ret == ERR ==> !overrun && b.Text() == old(b.Text())
    ensures var ws := Words(old(b.Text()), space % 256);
      overrun <==> ret != ERR && Justifiable(ws, width) && Cramped(width, |ws[|ws| - 1]|, old(b.mlen))
    ensures ret != ERR && !overrun ==>
      var c, ws := space % 256, Words(old(b.Text()), space % 256);
      if Justifiable(ws, width) then
        && |gaps| == |ws| - 1 && b.Text() == Woven(ws, gaps, c) && |b.Text()| == width && Even(gaps)
        && forall i :: 0 <= i < |gaps| ==> gaps[i] == GapOf(width - Total(ws), |ws| - 1, i)
      else b.Text() == if 0 <= space < 256 then Joined(ws, [c]) else old(b.Text())
  {
    hide Words, Joined, NonEmpty, Woven, GapOf;
    gaps, overrun := [], false;
    if b.mlen <= 0 || b.mlen < b.slen { return ERR, false, gaps; }
    var c: byte := space % 256;
    ghost var s0 := b.Text();
    var e, sl := SplitCb(b.data[..b.slen], c, 0);
    assert s0[0..] == s0;
    JoinedNone([c]);
    PiecesAreWords(sl, c);
    ghost var ws := Words(s0, c);
    var l, n := Measure(sl);
    if l + n >= width || n < 2 {
      b.slen := BJustifyLeft(b.data, b.slen, space);
      return BString.OK, false, gaps;
    }
    overrun, gaps := Weave(b, sl, l, n, width, c, ws);
    ret := BString.OK;
  }

  /** There are words to justify, and room for them. */
  predicate Justifiable(ws: seq<seq<byte>>, width: int) {
    Total(ws) + |ws| < width && |ws| >= 2
  }

  /** The first loop: how long all words together are, and how many. */
  method Measure(sl: seq<seq<byte>>) returns (l: nat, n: nat)
    ensures l == Total(NonEmpty(sl)) && n == |NonEmpty(sl)|
  {
    l, n := 0, 0;
    var i := 0;
    while i < |sl|
      invariant 0 <= i <= |sl| && l == Total(NonEmpty(sl[..i])) && n == |NonEmpty(sl[..i])|
    {
      assert sl[..i + 1] == sl[..i] + [sl[i]];
      NonEmptySnoc(sl[..i], sl[i]);
      assert NonEmpty(sl[..i]) + [] == NonEmpty(sl[..i]);
      if |sl[i]| > 0 {
        TotalConcat(NonEmpty(sl[..i]), [sl[i]]);
        n := n + 1;
        l := l + |sl[i]|;
      }
      i := i + 1;
    }
    assert sl[..i] == sl;
  }

  /** The second loop. */
  method Weave(b: BString.Bstring, sl: seq<seq<byte>>, l0: nat, n: nat, width: int, c: byte, ghost ws: seq<seq<byte>>)
    returns (overrun: bool, ghost gaps: seq<nat>)
    requires b.Valid() && b.mlen > 0 && ws == NonEmpty(sl) && n == |ws| && l0 == Total(ws)
    requires Justifiable(ws, width) && width <= INT_MAX
    modifies b, b.data
    ensures overrun <==> Cramped(width, |ws[|ws| - 1]|, old(b.mlen))
    ensures !overrun ==>
      b.Valid() && |gaps| == |ws| - 1 && b.Text() == Woven(ws, gaps, c) && |b.Text()| == width && Even(gaps)
    ensures !overrun ==> forall i :: 0 <= i < |gaps| ==> gaps[i] == GapOf(width - Total(ws), |ws| - 1, i)
  {
    hide GapOf, NonEmpty, Woven, Justified, Cramped, Grown;
    gaps, overrun := [], false;
    var l, m, i := l0, n, 0;
    ghost var k, q, m0 := 0, 1, b.mlen;
    b.slen := 0;
    NothingYet(sl, ws);
    NotGrown(m0);
    while i < |sl|
      invariant 0 <= i <= |sl| && k <= |ws| && m == |ws| - k && NonEmpty(sl[..i]) == ws[..k] && m > 0
      invariant b.Shaped() && Grown(m0, b.mlen, b.slen) && (b.data == old(b.data) || fresh(b.data))
      invariant i == |sl| ==> k == |ws|
      invariant if k == 0 then b.slen == 0 && gaps == [] && l == l0
                else b.Valid() && b.slen > 0 && Justified(ws, k, gaps, l, width, q, c, b.Text())
    {
      NextWord(sl, ws, i, k);
      if |sl[i]| > 0 {
        overrun, l, gaps, q := WeaveOne(b, sl[i], l, m, width, c, ws, k, gaps, q, m0);
        if overrun { return; }
        k := k + 1;
        m := m - 1;
        if m <= 0 {
          JustifyEnd(ws, gaps, l, width, q, c, b.Text());
          return;
        }
      }
      i := i + 1;
    }
  }

  lemma NotGrown(m: int)
    requires m > 0
    ensures Grown(m, m, 0)
  {
  }

  lemma NothingYet(sl: seq<seq<byte>>, ws: seq<seq<byte>>)
    ensures NonEmpty(sl[..0]) == ws[..0] && NonEmpty([]) == []
  {
  }

  lemma NextWord(sl: seq<seq<byte>>, ws: seq<seq<byte>>, i: nat, k: nat)
    requires ws == NonEmpty(sl) && i < |sl| && k <= |ws| && NonEmpty(sl[..i]) == ws[..k]
    ensures sl[i] == [] ==> NonEmpty(sl[..i + 1]) == ws[..k] && (i + 1 == |sl| ==> k == |ws|)
    ensures sl[i] != [] ==>
      && k < |ws| && sl[i] == ws[k] && NonEmpty(sl[..i + 1]) == ws[..k + 1] && (i + 1 == |sl| ==> k + 1 == |ws|)
  {
    hide NonEmpty;
    assert sl[..i + 1] == sl[..i] + [sl[i]];
    NonEmptySnoc(sl[..i], sl[i]);
    NonEmptyPrefix(sl, i + 1);
    assert i + 1 == |sl| ==> sl[..i + 1] == sl;
    assert ws[..k] + [] == ws[..k];
    if sl[i] != [] {
      var a := ws[..k] + [sl[i]];
      assert a == ws[..k + 1] && a[k] == sl[i];
    }
  }

  /** One word of the second loop. */
  method WeaveOne(b: BString.Bstring, w: seq<byte>, l0: int, m: nat, width: int, c: byte, ghost ws: seq<seq<byte>>,
                  ghost k: nat,
                  ghost gaps0: seq<nat>, ghost q0: nat, ghost m0: int)
    returns (overrun: bool, l: int, ghost gaps: seq<nat>, ghost q: nat)
    requires b.Shaped() && Grown(m0, b.mlen, b.slen)
    requires width <= INT_MAX && Justifiable(ws, width) && k < |ws| && m == |ws| - k && w == ws[k] != []
    requires if k == 0 then b.slen == 0 && gaps0 == [] && l0 == Total(ws)
             else b.Valid() && b.slen > 0 && Justified(ws, k, gaps0, l0, width, q0, c, b.Text())
    modifies b, b.data
    ensures overrun ==> Cramped(width, |ws[|ws| - 1]|, m0)
    ensures !overrun ==> b.Valid() && b.slen > 0 && (b.data == old(b.data) || fresh(b.data))
    ensures !overrun ==> Grown(m0, b.mlen, b.slen) && Justified(ws, k + 1, gaps, l, width, q, c, b.Text())
    ensures !overrun && m == 1 ==> !Cramped(width, |ws[|ws| - 1]|, m0)
  {
    hide Justified;
    l, gaps, q := l0, gaps0, q0;
    if b.slen > 0 {
      JustifyMore(ws, k, gaps, l, width, q, c, b.Text());
      var s := (width - l + m / 2) / m;
      overrun := PutWord(b, s, c, w, m0);
      gaps := gaps + [s];
      l := l + s;
    } else {
      q := JustifyStart(ws, l, width, c);
      TotalBefore(ws, 0);
      overrun := PutWord(b, 0, c, w, m0);
      assert overrun || b.Text() == w;
    }
  }
}
