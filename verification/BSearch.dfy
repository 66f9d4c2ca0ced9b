/** The forward searches of bstrlib. */
module BSearch {

  import opened Common

  /** A `const_bstring` argument: a null pointer, null data or a negative length is `Bad`. */
  datatype Arg = Bad | Text(s: seq<byte>)

  /** How two characters are compared: `tolower` is whatever the locale makes it. */
  datatype Matching = Exact | Caseless(tolower: byte -> byte)

  predicate Same(m: Matching, x: byte, y: byte) {
    x == y || (m.Caseless? && m.tolower(x) == m.tolower(y))
  }

  ghost predicate Occurs(m: Matching, hay: seq<byte>, needle: seq<byte>, p: int) {
    0 <= p <= |hay| - |needle| && forall k {:trigger needle[k]} :: 0 <= k < |needle| ==> Same(m, needle[k], hay[p + k])
  }

  ghost predicate NoneBetween(m: Matching, hay: seq<byte>, needle: seq<byte>, pos: int, p: int) {
    forall q :: pos <= q < p ==> !Occurs(m, hay, needle, q)
  }

  /** `p` is the least occurrence at or after `pos`, or -1 when there is none. */
  ghost predicate FirstFrom(m: Matching, hay: seq<byte>, needle: seq<byte>, pos: int, p: int) {
    if p == ERR then forall q :: pos <= q ==> !Occurs(m, hay, needle, q)
    else p >= pos && Occurs(m, hay, needle, p) && NoneBetween(m, hay, needle, pos, p)
  }

  lemma NoRoom(m: Matching, hay: seq<byte>, needle: seq<byte>, pos: int, p: int)
    requires NoneBetween(m, hay, needle, pos, p) && p > |hay| - |needle|
    ensures FirstFrom(m, hay, needle, pos, ERR)
  {
    forall q | pos <= q ensures !Occurs(m, hay, needle, q) {
      if q >= p {
        assert q > |hay| - |needle|;
      }
    }
  }

  /** No occurrence from `pos` on starts before `i - j`: each one has its character `j` at or after `i`. */
  ghost predicate NotYet(hay: seq<byte>, needle: seq<byte>, pos: nat, i: nat, j: nat) {
    forall s {:trigger Occurs(Exact, hay, needle, s)} :: pos <= s && Occurs(Exact, hay, needle, s) ==> i <= s + j
  }

  /** `ii` is where the current run of `j` matched characters began; without a gap it is an occurrence
      of them. */
  ghost predicate Run(hay: seq<byte>, needle: seq<byte>, ii: int, i: nat, j: nat) {
    && i <= |hay| + 1 && j <= |needle|
    && (j > 0 ==> 0 <= ii && ii + j <= i <= |hay|)
    && (j > 0 && i == ii + j ==> forall k {:trigger needle[k]} :: 0 <= k < j ==> needle[k] == hay[ii + k])
  }

  lemma Mismatch(hay: seq<byte>, needle: seq<byte>, pos: nat, i: nat, j: nat)
    requires NotYet(hay, needle, pos, i, j) && j < |needle| && i < |hay| && needle[j] != hay[i]
    ensures NotYet(hay, needle, pos, i + 1, j)
  {
    forall s | pos <= s && Occurs(Exact, hay, needle, s) ensures i + 1 <= s + j {
      assert Same(Exact, needle[j], hay[s + j]);
    }
  }

  lemma Match(hay: seq<byte>, needle: seq<byte>, pos: nat, ii: int, i: nat, j: nat)
    requires j < |needle| && i < |hay| && needle[j] == hay[i]
    requires if j == 0 then ii == i else Run(hay, needle, ii, i, j)
    requires NotYet(hay, needle, pos, i, j)
    ensures Run(hay, needle, ii, i + 1, j + 1) && NotYet(hay, needle, pos, i + 1, j + 1)
  {
  }

  lemma Contiguous(hay: seq<byte>, needle: seq<byte>, pos: nat, ii: int, i: nat)
    requires NotYet(hay, needle, pos, i, |needle|) && Run(hay, needle, ii, i, |needle|)
    requires |needle| > 0 && pos <= ii && i == ii + |needle|
    ensures FirstFrom(Exact, hay, needle, pos, ii)
  {
    assert Occurs(Exact, hay, needle, ii);
  }

  lemma Exhausted(hay: seq<byte>, needle: seq<byte>, pos: nat, i: nat, j: nat)
    requires NotYet(hay, needle, pos, i, j) && j < |needle| && |hay| - 1 <= i
    requires !(i == |hay| - 1 && |needle| == j + 1 && needle[j] == hay[i])
    ensures FirstFrom(Exact, hay, needle, pos, ERR)
  {
    forall q | pos <= q && Occurs(Exact, hay, needle, q) ensures false {
      LastChance(hay, needle, pos, i, j, q);
    }
  }

  lemma LastChance(hay: seq<byte>, needle: seq<byte>, pos: nat, i: nat, j: nat, q: nat)
    requires NotYet(hay, needle, pos, i, j) && j < |needle| && |hay| - 1 <= i
    requires pos <= q && Occurs(Exact, hay, needle, q)
    ensures i == |hay| - 1 && |needle| == j + 1 && needle[j] == hay[i]
  {
    assert Same(Exact, needle[j], hay[q + j]);
  }

  /** binstr: the needle is first matched as a subsequence; a match with gaps sends the search back. `alias`
      says that both strings start at the same address. */
  method Binstr(b1: Arg, pos: int, b2: Arg, alias: bool) returns (r: int)
    requires alias && b1.Text? && b2.Text? ==> b1.s <= b2.s || b2.s <= b1.s
    ensures b1.Bad? || b2.Bad? || pos < 0 ==> r == ERR
    ensures b1.Text? && b2.Text? && 0 <= pos ==> FirstFrom(Exact, b1.s, b2.s, pos, r)
  {
    hide NotYet, Run;
    if b1.Bad? || b2.Bad? { return ERR; }
    if |b1.s| == pos { return if |b2.s| == 0 then pos else ERR; }
    if |b1.s| < pos || pos < 0 { return ERR; }
    if |b2.s| == 0 { return pos; }
    var lf := |b1.s| - |b2.s| + 1;
    if lf <= pos { return ERR; }
    if alias && pos == 0 { return 0; }
    var i: nat := pos;
    var d0, d1, ll := b2.s, b1.s, |b2.s|;
    var c0 := d0[0];
    if 1 == ll {
      assert d0 == [c0];
      r := SearchCharacter(d1, c0, pos, lf);
      return;
    }
    var c1 := c0;
    var j := 0;
    lf := |d1| - 1;
    var ii := -1;
    ghost var start: nat := pos;  // where the current subsequence match began
    BinstrStart(d1, d0, pos);
    while true
      invariant pos <= start && start + j <= i <= lf + 1 && j < ll && c1 == d0[j]
      invariant j > 0 ==> start <= ii
      invariant j == 0 || Run(d1, d0, ii, i, j)
      invariant NotYet(d1, d0, pos, i, j)
      decreases lf + 1 - start, lf + 1 - i
    {
      var complete := false;
      if i < lf {
        if c1 != d1[i] {
          Mismatch(d1, d0, pos, i, j);
          if c1 != d1[1 + i] {
            Mismatch(d1, d0, pos, i + 1, j);
            if j > 0 { RunSkips(d1, d0, ii, i, j, 2); }
            i := i + 2;
            continue;
          }
          if j > 0 { RunSkips(d1, d0, ii, i, j, 1); }
          i := i + 1;
        }
        if 0 == j { ii := i; }
        Match(d1, d0, pos, ii, i, j);
        j := j + 1;
        i := i + 1;
        if j < ll {
          c1 := d0[j];
          continue;
        }
        complete := true;
      }
      if !complete && !(i == lf && ll == j + 1 && c1 == d1[i]) {
        Exhausted(d1, d0, pos, i, j);
        return ERR;
      }
      // N0, which the tail enters with its last match not yet counted in i and j.
      if !complete {
        Match(d1, d0, pos, ii, i, j);
      }
      RunLength(d1, d0, ii, if complete then i else i + 1, ll);
      if i == ii + j {
        Contiguous(d1, d0, pos, ii, ii + ll);
        return ii;
      }
      NotYetBack(d1, d0, pos, i, j, if complete then i else i + 1);
      i := i - j;
      j := 0;
      c1 := c0;
      start := i;
    }
  }

  lemma BinstrStart(hay: seq<byte>, needle: seq<byte>, pos: nat)
    ensures NotYet(hay, needle, pos, pos, 0)
  {
  }

  lemma RunSkips(hay: seq<byte>, needle: seq<byte>, ii: int, i: nat, j: nat, n: nat)
    requires Run(hay, needle, ii, i, j) && i + n <= |hay| && j > 0 && n > 0
    ensures Run(hay, needle, ii, i + n, j)
  {
  }

  lemma RunLength(hay: seq<byte>, needle: seq<byte>, ii: int, i: nat, j: nat)
    requires Run(hay, needle, ii, i, j) && j > 0
    ensures 0 <= ii && ii + j <= i <= |hay|
  {
  }

  lemma NotYetBack(hay: seq<byte>, needle: seq<byte>, pos: nat, i: nat, j: nat, e: nat)
    requires NotYet(hay, needle, pos, e, |needle|) && j <= i && e - |needle| == i - j
    ensures NotYet(hay, needle, pos, i - j, 0)
  {
  }

  /** The search of binstr for a needle of one character. */
  method SearchCharacter(d1: seq<byte>, c0: byte, pos: nat, lf: nat) returns (r: int)
    requires lf == |d1| && pos < lf
    ensures FirstFrom(Exact, d1, [c0], pos, r)
  {
    var i := pos;
    while i < lf
      invariant pos <= i <= lf && NoneBetween(Exact, d1, [c0], pos, i)
    {
      if c0 == d1[i] { return i; }
      assert !Same(Exact, [c0][0], d1[i + 0]);
      i := i + 1;
    }
    NoRoom(Exact, d1, [c0], pos, i);
    return ERR;
  }

  /** binstrcaseless. */
  method BinstrCaseless(b1: Arg, pos: int, b2: Arg, alias: bool, tolower: byte -> byte) returns (r: int)
    requires alias && b1.Text? && b2.Text? ==> b1.s <= b2.s || b2.s <= b1.s
    ensures b1.Bad? || b2.Bad? || pos < 0 ==> r == ERR
    ensures b1.Text? && b2.Text? && 0 <= pos ==> FirstFrom(Caseless(tolower), b1.s, b2.s, pos, r)
  {
    if b1.Bad? || b2.Bad? { return ERR; }
    if |b1.s| == pos { return if |b2.s| == 0 then pos else ERR; }
    if |b1.s| < pos || pos < 0 { return ERR; }
    if |b2.s| == 0 { return pos; }
    var l := |b1.s| - |b2.s| + 1;
    if l <= pos { return ERR; }
    if alias && pos == 0 { return 0; }
    var i, j := pos, 0;
    var d0, d1, ll := b2.s, b1.s, |b2.s|;
    ghost var m := Caseless(tolower);
    while true
      invariant pos <= i < l && 0 <= j < ll && NoneBetween(m, d1, d0, pos, i)
      invariant forall k {:trigger d0[k]} :: 0 <= k < j ==> Same(m, d0[k], d1[i + k])
      decreases l - i, ll - j
    {
      if d0[j] == d1[i + j] || tolower(d0[j]) == tolower(d1[i + j]) {
        j := j + 1;
        if j >= ll { return i; }
      } else {
        assert !Same(m, d0[j], d1[i + j]);
        i := i + 1;
        if i >= l { break; }
        j := 0;
      }
    }
    NoRoom(m, d1, d0, pos, i);
    return ERR;
  }
}
