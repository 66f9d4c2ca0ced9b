/** findreplaceengine of bstrlib: three in-place strategies for one replacement of all occurrences. */
module FindReplace {
  import opened Common
  import opened Bits
  import opened BSearch
  import opened BString

  /** The least occurrence at or after `pos`, -1 when there is none. */
  ghost function Next(m: Matching, s: seq<byte>, find: seq<byte>, pos: nat): (p: int)
    decreases |s| - pos
  {
    if pos > |s| - |find| then ERR
    else if Occurs(m, s, find, pos) then pos
    else Next(m, s, find, pos + 1)
  }

  lemma {:induction false} NextBounds(m: Matching, s: seq<byte>, find: seq<byte>, pos: nat)
    ensures var p := Next(m, s, find, pos); p == ERR || pos <= p <= |s| - |find|
    decreases |s| - pos
  {
    if pos <= |s| - |find| && !Occurs(m, s, find, pos) {
      NextBounds(m, s, find, pos + 1);
    }
  }

  lemma {:induction false} NextIsFirst(m: Matching, s: seq<byte>, find: seq<byte>, pos: nat, p: int)
    requires FirstFrom(m, s, find, pos, p)
    ensures Next(m, s, find, pos) == p
    decreases |s| - pos
  {
    if pos <= |s| - |find| && !Occurs(m, s, find, pos) {
      NextIsFirst(m, s, find, pos + 1, p);
    }
  }

  /** The positions the replacement takes: leftmost first, none overlapping the one before. */
  ghost function Positions(m: Matching, s: seq<byte>, find: seq<byte>, pos: nat): (ps: seq<int>)
    requires |find| > 0
    decreases |s| - pos
  {
    NextBounds(m, s, find, pos);
    var p := Next(m, s, find, pos);
    if p == ERR then [] else [p] + Positions(m, s, find, p + |find|)
  }

  /** The text from `pos` on with every one of these occurrences replaced. */
  ghost function Replaced(m: Matching, s: seq<byte>, find: seq<byte>, repl: seq<byte>, pos: nat): (r: seq<byte>)
    requires |find| > 0 && pos <= |s|
    decreases |s| - pos
  {
    NextBounds(m, s, find, pos);
    var p := Next(m, s, find, pos);
    if p == ERR then s[pos..] else s[pos..p] + repl + Replaced(m, s, find, repl, p + |find|)
  }

  ghost function ReplaceAll(m: Matching, s: seq<byte>, find: seq<byte>, repl: seq<byte>, pos: nat): (r: seq<byte>)
    requires |find| > 0
  {
    if pos > |s| then s else s[..pos] + Replaced(m, s, find, repl, pos)
  }

  lemma {:induction false} ReplacedLength(m: Matching, s: seq<byte>, find: seq<byte>, repl: seq<byte>, pos: nat)
    requires |find| > 0 && pos <= |s|
    ensures |Replaced(m, s, find, repl, pos)| == |s| - pos + |Positions(m, s, find, pos)| * (|repl| - |find|)
    decreases |s| - pos
  {
    hide Next;
    NextBounds(m, s, find, pos);
    var p := Next(m, s, find, pos);
    if p != ERR {
      ReplacedLength(m, s, find, repl, p + |find|);
      Distribute(|Positions(m, s, find, p + |find|)|, |repl| - |find|);
    }
  }

  lemma Distribute(n: int, g: int)
    ensures (1 + n) * g == g + n * g
  {
  }

  /** What the buffer `b` holds for a string that lies apart from it or within it. */
  function Held(b: seq<byte>, src: Source): (t: seq<byte>) {
    if src.Apart? then src.s else if src.Within? && src.at + src.len <= |b| then b[src.at..src.at + src.len] else []
  }

  /** A string that the work on the buffer from `pos` on leaves alone. */
  predicate Clear(src: Source, pos: nat, slen: nat) {
    src.Apart? || (src.Within? && src.at + src.len <= (if src.len == 0 then slen else pos))
  }

  /** The condition under which the engine takes no copy of a string. */
  predicate Uncopied(src: Source, pos: int, slen: nat) {
    src.Apart? || (src.Within? && !(pos - src.len < src.at < slen))
  }

  lemma HeldAfter(b: seq<byte>, at: nat, t: seq<byte>, src: Source, pos: nat, slen: nat)
    requires Clear(src, pos, slen) && pos <= slen <= |b| && pos <= at && at + |t| <= |b|
    ensures Held(Wrote(b, at, t), src) == Held(b, src)
  {
    assert forall k :: 0 <= k < at ==> Wrote(b, at, t)[k] == b[k];
  }

  method Instr(m: Matching, s: seq<byte>, pos: nat, find: Source) returns (p: int)
    requires Clear(find, pos, |s|) && pos <= |s| && |Held(s, find)| > 0
    ensures var f := Held(s, find); p == Next(m, s, f, pos) && (p == ERR || pos <= p <= |s| - |f|)
  {
    var f, alias := Held(s, find), find.Within? && find.at == 0;
    if m.Exact? {
      p := Binstr(Text(s), pos, Text(f), alias);
    } else {
      p := BinstrCaseless(Text(s), pos, Text(f), alias, m.tolower);
    }
    NextIsFirst(m, s, f, pos, p);
  }

  /** What lies before `pos` is of no matter to the search. */
  lemma {:induction false} SameNext(m: Matching, s: seq<byte>, s': seq<byte>, find: seq<byte>, pos: nat)
    requires |s| == |s'| && pos <= |s| && s[pos..] == s'[pos..]
    ensures Next(m, s, find, pos) == Next(m, s', find, pos)
    decreases |s| - pos
  {
    assert forall k :: pos <= k < |s| ==> s[k] == s[pos..][k - pos] == s'[k];
    if pos <= |s| - |find| && !Occurs(m, s, find, pos) && pos < |s| {
      assert s[pos + 1..] == s[pos..][1..] == s'[pos + 1..];
      SameNext(m, s, s', find, pos + 1);
    }
  }

  /** The buffer `b` while its text `s` is being replaced: the result is done up to `done`, and from `pos` on
      the text is still the old one. */
  ghost predicate Progress(m: Matching, s: seq<byte>, find: seq<byte>, repl: seq<byte>, result: seq<byte>,
                           b: seq<byte>, done: nat, pos: nat)
    requires |find| > 0
  {
    && done <= pos <= |s| <= |b| && b[pos..|s|] == s[pos..]
    && result == b[..done] + Replaced(m, s, find, repl, pos)
  }

  lemma ProgressStart(m: Matching, s: seq<byte>, find: seq<byte>, repl: seq<byte>, b: seq<byte>, pos: nat)
    requires |find| > 0 && pos <= |s| <= |b| && b[..|s|] == s
    ensures Progress(m, s, find, repl, ReplaceAll(m, s, find, repl, pos), b, pos, pos)
  {
    assert b[..|s|][..pos] == b[..pos] && b[..|s|][pos..] == b[pos..|s|];
  }

  lemma ProgressSearch(m: Matching, s: seq<byte>, find: seq<byte>, repl: seq<byte>, result: seq<byte>, b: seq<byte>,
                       done: nat, pos: nat)
    requires |find| > 0 && Progress(m, s, find, repl, result, b, done, pos)
    ensures done <= pos <= |s| <= |b| && Next(m, b[..|s|], find, pos) == Next(m, s, find, pos)
  {
    assert b[..|s|][pos..] == b[pos..|s|];
    SameNext(m, b[..|s|], s, find, pos);
  }

  /** The search in the buffer as it is finds what the search in the old text would. */
  method InstrIn(a: array<byte>, slen: nat, m: Matching, pos: nat, find: Source, ghost f: seq<byte>,
                 ghost r: seq<byte>, ghost s: seq<byte>, ghost result: seq<byte>, ghost done: nat, ghost pos0: nat)
    returns (p: int)
    requires pos0 <= pos <= slen <= a.Length && Clear(find, pos0, slen) && Held(a[..], find) == f
    requires |f| > 0 && |s| == slen && Progress(m, s, f, r, result, a[..], done, pos)
    ensures p == Next(m, s, f, pos) && (p == ERR || pos <= p <= slen - |f|) && done <= pos <= slen
  {
    hide Progress, Next;
    ProgressSearch(m, s, f, r, result, a[..], done, pos);
    HeldIn(a, pos0, slen, find);
    assert a[..slen] == a[..][..slen];
    p := Instr(m, a[..slen], pos, find);
  }

  /** One occurrence: the text before it moves down, the replacement follows. */
  lemma ProgressStep(m: Matching, s: seq<byte>, find: seq<byte>, repl: seq<byte>, result: seq<byte>, b: seq<byte>,
                     done: nat, pos: nat, p: nat)
    requires |find| > 0 && Progress(m, s, find, repl, result, b, done, pos) && |repl| <= |find|
    requires p == Next(m, s, find, pos) && pos <= p <= |s| - |find|
    ensures var b' := Wrote(b, done, b[pos..p]);
            var b'' := Wrote(b', done + (p - pos), repl);
            Progress(m, s, find, repl, result, b'', done + (p - pos) + |repl|, p + |find|)
  {
    hide Wrote, Next;
    var q, mid := p + |find|, b[pos..p];
    assert mid == b[pos..|s|][..p - pos] == s[pos..p];
    WroteTwo(b, done, mid, repl, q, |s|);
    assert b[q..|s|] == b[pos..|s|][q - pos..] == s[q..];
    Associative(b[..done], mid, repl, Replaced(m, s, find, repl, q));
  }

  lemma WroteTwo(b: seq<byte>, at: nat, t: seq<byte>, t': seq<byte>, q: nat, n: nat)
    requires at + |t| + |t'| <= q <= n <= |b|
    ensures var b' := Wrote(Wrote(b, at, t), at + |t|, t');
            b'[..at + |t| + |t'|] == b[..at] + t + t' && b'[q..n] == b[q..n]
  {
    var e := at + |t|;
    var b' := Wrote(b, at, t);
    assert b'[..e] == b[..at] + t;
    assert Wrote(b', e, t')[..e + |t'|] == b'[..e] + t';
    WroteTail(b, at, t, q);
    WroteTail(b', e, t', q);
    assert b[q..n] == b[q..][..n - q];
    assert Wrote(b', e, t')[q..n] == Wrote(b', e, t')[q..][..n - q];
  }

  /** No further occurrence: only the rest is left to move down. */
  lemma ProgressEnd(m: Matching, s: seq<byte>, find: seq<byte>, repl: seq<byte>, result: seq<byte>, b: seq<byte>,
                    done: nat, pos: nat)
    requires |find| > 0 && Progress(m, s, find, repl, result, b, done, pos)
    requires Next(m, s, find, pos) == ERR
    ensures done + |s| - pos <= |b| && Wrote(b, done, b[pos..|s|])[..done + |s| - pos] == result
  {
  }

  /** Find and replacement string of the same length. */
  method ReplaceEqual(a: array<byte>, slen: nat, m: Matching, find: Source, repl: Source, pos0: nat)
    requires pos0 <= slen <= a.Length && Clear(find, pos0, slen) && Clear(repl, pos0, slen)
    requires 0 < |Held(a[..slen], find)| == |Held(a[..slen], repl)|
    modifies a
    ensures a[..slen] == old(ReplaceAll(m, a[..slen], Held(a[..slen], find), Held(a[..slen], repl), pos0))
    ensures a[slen..] == old(a[slen..])
  {
    hide Progress, Wrote, ReplaceAll, Next, Replaced, Held, Clear;
    var pos := pos0;
    ghost var s := a[..slen];
    ghost var f, r := Held(s, find), Held(s, repl);
    HeldIn(a, pos0, slen, find);
    HeldIn(a, pos0, slen, repl);
    ghost var result := ReplaceAll(m, s, f, r, pos);
    ProgressStart(m, s, f, r, a[..], pos);
    var p := InstrIn(a, slen, m, pos, find, f, r, s, result, pos, pos0);
    while p >= 0
      invariant p == Next(m, s, f, pos) && (p == ERR || pos <= p <= slen - |f|) && pos0 <= pos <= slen
      invariant Held(a[..], find) == f && Held(a[..], repl) == r
      invariant Progress(m, s, f, r, result, a[..], pos, pos)
      invariant a[slen..] == old(a[slen..])
      decreases slen - pos
    {
      ProgressStep(m, s, f, r, result, a[..], pos, pos, p);
      WroteSame(a[..], pos, p);
      HeldAfter(a[..], p, r, find, pos0, slen);
      HeldAfter(a[..], p, r, repl, pos0, slen);
      ghost var before := a[..];
      MemCpy(a, p, Held(a[..], repl));
      WroteTail(before, p, r, slen);
      assert a[slen..] == a[..][slen..] == before[slen..];
      pos := p + |Held(a[..], find)|;
      p := InstrIn(a, slen, m, pos, find, f, r, s, result, pos, pos0);
    }
    ProgressEnd(m, s, f, r, result, a[..], pos, pos);
    WroteSame(a[..], pos, slen);
    assert a[..slen] == a[..][..slen];
  }

  /** A string within the text of a buffer, read from the text or from the buffer. */
  lemma HeldIn(a: array<byte>, pos: nat, slen: nat, src: Source)
    requires pos <= slen <= a.Length && Clear(src, pos, slen)
    ensures Held(a[..], src) == Held(a[..slen], src)
  {
    assert a[..slen] == a[..][..slen];
  }

  lemma WroteTail(b: seq<byte>, at: nat, t: seq<byte>, n: nat)
    requires at + |t| <= n <= |b|
    ensures Wrote(b, at, t)[n..] == b[n..]
  {
  }

  /** The replacement is shorter: the text moves down as it is scanned. */
  method ReplaceShrinking(a: array<byte>, slen: nat, m: Matching, find: Source, repl: Source, pos0: nat)
    returns (newlen: nat)
    requires pos0 <= slen < a.Length && a[slen] == 0 && Clear(find, pos0, slen) && Clear(repl, pos0, slen)
    requires |Held(a[..slen], repl)| < |Held(a[..slen], find)|
    modifies a
    ensures newlen <= slen
    ensures a[..newlen] == old(ReplaceAll(m, a[..slen], Held(a[..slen], find), Held(a[..slen], repl), pos0))
    ensures a[newlen] == 0
  {
    hide Progress, Wrote, ReplaceAll, Next, Replaced, Held, Clear;
    var pos, acc := pos0, 0;
    ghost var s := a[..slen];
    ghost var f, r := Held(s, find), Held(s, repl);
    HeldIn(a, pos0, slen, find);
    HeldIn(a, pos0, slen, repl);
    var delta := |Held(a[..], find)| - |Held(a[..], repl)|;
    ghost var result := ReplaceAll(m, s, f, r, pos);
    ProgressStart(m, s, f, r, a[..], pos);
    var i := InstrIn(a, slen, m, pos, find, f, r, s, result, pos, pos0);
    while i >= 0
      invariant i == Next(m, s, f, pos) && (i == ERR || pos <= i <= slen - |f|)
      invariant 0 <= acc && pos0 <= pos - acc && pos <= slen
      invariant Held(a[..], find) == f && Held(a[..], repl) == r
      invariant Progress(m, s, f, r, result, a[..], pos - acc, pos)
      invariant acc == 0 ==> a[..] == old(a[..])
      decreases slen - pos
    {
      ProgressStep(m, s, f, r, result, a[..], pos - acc, pos, i);
      ShrinkOne(a, pos, i, acc, repl, find, pos0, slen);
      acc := acc + delta;
      pos := i + |Held(a[..], find)|;
      i := InstrIn(a, slen, m, pos, find, f, r, s, result, pos - acc, pos0);
    }
    ProgressEnd(m, s, f, r, result, a[..], pos - acc, pos);
    newlen := ShrinkRest(a, slen, pos, acc);
  }

  /** What follows the last occurrence, and the final NUL. */
  method ShrinkRest(a: array<byte>, slen: nat, pos: nat, acc: nat) returns (newlen: nat)
    requires acc <= pos <= slen < a.Length && (acc == 0 ==> a[slen] == 0)
    modifies a
    ensures newlen == slen - acc && a[newlen] == 0
    ensures a[..newlen] == Wrote(old(a[..]), pos - acc, old(a[..])[pos..slen])[..newlen]
  {
    hide Wrote;
    newlen := slen;
    if acc != 0 {
      MoveDown(a, pos, slen, acc);
      newlen := slen - acc;
      assert a[..newlen] == a[..][..newlen];
      a[newlen] := 0;
    } else {
      WroteSame(a[..], pos, slen);
      assert a[..newlen] == a[..][..newlen];
    }
  }

  /** Moves the bytes from `pos` to `i` down by `acc`, where that is a move at all. */
  method MoveDown(a: array<byte>, pos: nat, i: nat, acc: nat)
    requires acc <= pos <= i <= a.Length
    modifies a
    ensures a[..] == Wrote(old(a[..]), pos - acc, old(a[..])[pos..i])
  {
    hide Wrote;
    assert a[..][pos..i] == a[pos..i];
    if acc != 0 && i > pos {
      MemMove(a, pos - acc, pos, i - pos);
    } else {
      WroteSame(a[..], pos, i);
      if i == pos { WroteNothing(a[..], pos - acc); }
    }
  }

  /** One round of the shrinking replacement. */
  method ShrinkOne(a: array<byte>, pos: nat, i: nat, acc: nat, repl: Source, ghost find: Source, ghost pos0: nat,
                   ghost slen: nat)
    requires pos0 <= slen <= a.Length && Clear(repl, pos0, slen) && Clear(find, pos0, slen)
    requires pos0 + acc <= pos <= i && i + |Held(a[..], repl)| <= a.Length
    modifies a
    ensures a[..] == Wrote(Wrote(old(a[..]), pos - acc, old(a[..])[pos..i]), i - acc, Held(old(a[..]), repl))
    ensures Held(a[..], find) == Held(old(a[..]), find) && Held(a[..], repl) == Held(old(a[..]), repl)
  {
    hide Wrote, Held, Clear;
    ghost var before, r0 := a[..], Held(a[..], repl);
    ghost var mid := Wrote(before, pos - acc, before[pos..i]);
    HeldAfter(before, pos - acc, before[pos..i], repl, pos0, slen);
    HeldAfter(before, pos - acc, before[pos..i], find, pos0, slen);
    HeldAfter(mid, i - acc, r0, repl, pos0, slen);
    HeldAfter(mid, i - acc, r0, find, pos0, slen);
    MoveDown(a, pos, i, acc);
    assert a[..] == mid;
    var r := Held(a[..], repl);
    if |r| != 0 {
      MemCpy(a, i - acc, r);
    } else {
      WroteNothing(mid, i - acc);
    }
  }

  const STATIC_COUNT := 32  // INITIAL_STATIC_FIND_INDEX_COUNT
  const MAX_COUNT := 134217727  // (INT_MAX / sizeof(int *)) / 2, with pointers of 8 bytes

  lemma {:induction false} PositionsGrow(m: Matching, s: seq<byte>, find: seq<byte>, pos: nat, done: seq<int>,
                                         all: seq<int>)
    requires |find| > 0 && all == done + Positions(m, s, find, pos)
    ensures var p := Next(m, s, find, pos);
            p != ERR ==>
              && pos <= p <= |s| - |find| && |all| > |done|
              && all == done + [p] + Positions(m, s, find, p + |find|)
    ensures Next(m, s, find, pos) == ERR ==> all == done
  {
    NextBounds(m, s, find, pos);
    var p := Next(m, s, find, pos);
    if p != ERR {
      assert done + ([p] + Positions(m, s, find, p + |find|)) == done + [p] + Positions(m, s, find, p + |find|);
    }
  }

  /** First half of the expanding replacement: the positions go into an array that starts with the static
      cells and doubles; `acc` adds up what the text will grow by. */
  method Collect(b: seq<byte>, m: Matching, find: Source, grow: nat, pos0: nat)
    returns (ret: int, d: array<int>, n: nat, acc: int)
    requires pos0 <= |b| <= INT_MAX && Clear(find, pos0, |b|) && |Held(b, find)| > 0 && 0 < grow <= INT_MAX
    ensures fresh(d)
    ensures ret == OK <==> var ps := Positions(m, b, Held(b, find), pos0); |ps| <= MAX_COUNT && |ps| * grow <= INT_MAX
    ensures ret == OK ==> n < d.Length && d[..n] == Positions(m, b, Held(b, find), pos0) && acc == n * grow
    ensures ret != OK ==> ret == ERR
  {
    hide Next, Positions, Held, Times;
    var f := Held(b, find);
    var mlen := STATIC_COUNT;
    ghost var k := 5;
    d := new int[STATIC_COUNT + 1];
    n, acc := 0, 0;
    ghost var ps := Positions(m, b, f, pos0);
    TimesIs(|ps|, grow);
    TimesIs(0, grow);
    var pos := pos0;
    assert ps == d[..0] + ps;
    var p := Instr(m, b, pos, find);
    while p >= 0
      invariant fresh(d) && n < mlen <= d.Length && 5 <= k <= 27 && mlen == Pow2(k)
      invariant p == Next(m, b, f, pos) && pos0 <= pos <= |b| && (p == ERR || pos <= p <= |b| - |f|)
      invariant ps == d[..n] + Positions(m, b, f, pos) && 0 <= acc == Times(n, grow) <= INT_MAX
      decreases |b| - pos, if p >= 0 then 1 else 0
    {
      PositionsGrow(m, b, f, pos, d[..n], ps);
      pos := p;
      if n >= mlen - 1 {
        Capacity(k);
        if mlen > MAX_COUNT {
          return ERR, d, n, acc;
        }
        d := Doubled(d, n, 2 * mlen);
        mlen := mlen + mlen;
        k := k + 1;
      }
      ghost var before := d[..n];
      d[n] := pos;
      n := n + 1;
      assert d[..n] == before + [pos];
      GrowsBy(n - 1, |ps|, grow);
      acc := Wrap(acc + grow);
      pos := pos + |f|;
      if pos < 0 || acc < 0 {
        return ERR, d, n, acc;
      }
      p := Instr(m, b, pos, find);
    }
    PositionsGrow(m, b, f, pos, d[..n], ps);
    Capacity(k);
    TimesIs(n, grow);
    ret := OK;
  }

  ghost function Times(n: nat, z: int): int {
    n * z
  }

  lemma TimesIs(n: nat, z: int)
    ensures Times(n, z) == n * z
  {
  }

  lemma Capacity(k: nat)
    requires 5 <= k <= 27
    ensures Pow2(k) <= 0x800_0000 && (Pow2(k) <= MAX_COUNT ==> k < 27)
    ensures (Pow2(k) > MAX_COUNT ==> Pow2(k) == 0x800_0000)
  {
    assert Pow2(13) == 0x2000 && Pow2(14) == 0x4000;
    Pow2Add(13, 14);
    Pow2Add(13, 13);
    if k < 27 { Pow2Monotone(k, 26); }
  }

  lemma GrowsBy(n: nat, count: nat, grow: nat)
    requires n < count
    ensures Times(n + 1, grow) == Times(n, grow) + grow <= Times(count, grow)
  {
    assert (count - (n + 1)) * grow >= 0;
    assert count * grow == (n + 1) * grow + (count - (n + 1)) * grow;
  }

  method Doubled(d: array<int>, n: nat, size: nat) returns (t: array<int>)
    requires n <= d.Length && n <= size
    ensures fresh(t) && t.Length == size && t[..n] == d[..n]
  {
    t := new int[size];
    forall k | 0 <= k < n {
      t[k] := d[k];
    }
  }

  function End(s: seq<byte>, ps: seq<int>): int {
    if ps == [] then |s| else ps[0]
  }

  /** Occurrences of length `len` that do not overlap and lie inside the text. */
  predicate Spaced(s: seq<byte>, ps: seq<int>, len: nat) {
    ps != [] ==> 0 <= ps[0] && ps[0] + len <= End(s, ps[1..]) <= |s| && Spaced(s, ps[1..], len)
  }

  /** The result from the first of the positions on. */
  function Tail(s: seq<byte>, ps: seq<int>, len: nat, repl: seq<byte>): seq<byte>
    requires Spaced(s, ps, len)
  {
    if ps == [] then [] else repl + s[ps[0] + len..End(s, ps[1..])] + Tail(s, ps[1..], len, repl)
  }

  lemma {:induction false} TailIsReplaced(m: Matching, s: seq<byte>, find: seq<byte>, repl: seq<byte>, pos: nat)
    requires |find| > 0 && pos <= |s|
    ensures var ps := Positions(m, s, find, pos);
            && Spaced(s, ps, |find|) && pos <= End(s, ps) <= |s|
            && Replaced(m, s, find, repl, pos) == s[pos..End(s, ps)] + Tail(s, ps, |find|, repl)
    decreases |s| - pos
  {
    hide Next;
    NextBounds(m, s, find, pos);
    var p := Next(m, s, find, pos);
    var ps := Positions(m, s, find, pos);
    if p != ERR {
      var q := p + |find|;
      TailIsReplaced(m, s, find, repl, q);
      assert ps[1..] == Positions(m, s, find, q);
      Associative([], s[pos..p], repl, Replaced(m, s, find, repl, q));
      Associative(s[pos..p], repl, s[q..End(s, ps[1..])], Tail(s, ps[1..], |find|, repl));
    }
  }

  /** The buffer `b` while the pieces are moved up, last one first: the result is in place from the first
      of the positions `ps` on, and before it the text is still the old one. */
  ghost predicate Spread(s: seq<byte>, ps: seq<int>, len: nat, repl: seq<byte>, b: seq<byte>, acc: nat, n: nat) {
    && Spaced(s, ps, len) && 0 <= End(s, ps) <= |s| && |s| <= n <= |b|
    && End(s, ps) + acc + |Tail(s, ps, len, repl)| == n
    && b[..End(s, ps)] == s[..End(s, ps)] && b[End(s, ps) + acc..n] == Tail(s, ps, len, repl)
  }

  lemma SpreadStep(s: seq<byte>, p: int, ps: seq<int>, len: nat, repl: seq<byte>, b: seq<byte>, acc: nat, n: nat)
    requires Spaced(s, [p] + ps, len) && Spread(s, ps, len, repl, b, acc, n) && len < |repl| <= len + acc
    ensures 0 <= p && p + len <= End(s, ps) <= |s| <= |b| && End(s, ps) + acc <= |b|
    ensures var b' := Wrote(b, p + len + acc, b[p + len..End(s, ps)]);
            Spread(s, [p] + ps, len, repl, Wrote(b', p + len + acc - |repl|, repl), acc + len - |repl|, n)
  {
    hide Wrote, Tail, Spaced;
    TailUnfold(s, p, ps, len, repl);
    var e, q := End(s, ps), p + len;
    var mid := b[q..e];
    SamePrefix(b, s, e, p, q);
    SpreadBytes(b, q + acc, mid, repl, n);
    var b'' := Wrote(Wrote(b, q + acc, mid), q + acc - |repl|, repl);
    SamePrefix(b'', b, q + acc - |repl|, p, p);
  }

  lemma TailUnfold(s: seq<byte>, p: int, ps: seq<int>, len: nat, repl: seq<byte>)
    requires Spaced(s, [p] + ps, len)
    ensures 0 <= p && p + len <= End(s, ps) <= |s| && Spaced(s, ps, len)
    ensures Tail(s, [p] + ps, len, repl) == repl + s[p + len..End(s, ps)] + Tail(s, ps, len, repl)
  {
    assert ([p] + ps)[1..] == ps;
  }

  lemma SamePrefix(b: seq<byte>, b': seq<byte>, e: nat, p: nat, q: nat)
    requires p <= q <= e && e <= |b| && e <= |b'| && b[..e] == b'[..e]
    ensures b[..p] == b'[..p] && b[q..e] == b'[q..e]
  {
    assert b[..p] == b[..e][..p] && b'[..p] == b'[..e][..p];
    assert b[q..e] == b[..e][q..] && b'[q..e] == b'[..e][q..];
  }

  lemma SpreadBytes(b: seq<byte>, at: nat, mid: seq<byte>, repl: seq<byte>, n: nat)
    requires |repl| <= at && at + |mid| <= n <= |b|
    ensures var b' := Wrote(Wrote(b, at, mid), at - |repl|, repl);
            && b'[..at - |repl|] == b[..at - |repl|]
            && b'[at - |repl|..n] == repl + mid + b[at + |mid|..n]
  {
    var b1 := Wrote(b, at, mid);
    var b' := Wrote(b1, at - |repl|, repl);
    assert b1[..at - |repl|] == b1[..at][..at - |repl|] == b[..at - |repl|];
    WroteFrom(b, at, mid, n);
    WroteFrom(b1, at - |repl|, repl, n);
    assert repl + (mid + b[at + |mid|..n]) == repl + mid + b[at + |mid|..n];
  }

  lemma WroteFrom(b: seq<byte>, at: nat, t: seq<byte>, n: nat)
    requires at + |t| <= n <= |b|
    ensures Wrote(b, at, t)[at..n] == t + b[at + |t|..n]
  {
    var b', e := Wrote(b, at, t), at + |t|;
    assert b'[at..n] == b'[at..e] + b'[e..n];
    assert b'[e..n] == b'[e..][..n - e] == b[e..][..n - e] == b[e..n];
  }

  lemma {:induction false} SpacedFrom(s: seq<byte>, ps: seq<int>, len: nat, i: nat)
    requires Spaced(s, ps, len) && i <= |ps|
    ensures Spaced(s, ps[i..], len)
  {
    if i > 0 {
      assert ps[i..] == ps[1..][i - 1..];
      SpacedFrom(s, ps[1..], len, i - 1);
    }
  }

  lemma SpacedAt(s: seq<byte>, ps: seq<int>, len: nat, i: nat)
    requires Spaced(s, ps, len) && i < |ps|
    ensures ps[i..] == [ps[i]] + ps[i + 1..] && Spaced(s, [ps[i]] + ps[i + 1..], len)
    ensures End(s, ps[i + 1..]) == if i + 1 < |ps| then ps[i + 1] else |s|
  {
    SpacedFrom(s, ps, len, i);
    assert ps[i..] == [ps[i]] + ps[i + 1..];
  }

  lemma SpreadStart(s: seq<byte>, ps: seq<int>, len: nat, repl: seq<byte>, b: seq<byte>, acc: nat)
    requires |s| + acc <= |b| && b[..|s|] == s
    ensures Spread(s, ps[|ps|..], len, repl, b, acc, |s| + acc)
  {
    assert ps[|ps|..] == [];
  }

  lemma SpreadEnd(s: seq<byte>, ps: seq<int>, len: nat, repl: seq<byte>, b: seq<byte>, n: nat)
    requires Spread(s, ps, len, repl, b, 0, n)
    ensures n <= |b| && b[..n] == s[..End(s, ps)] + Tail(s, ps, len, repl)
  {
    var e := End(s, ps);
    assert b[..n] == b[..e] + b[e..n];
  }

  /** Second half of the expanding replacement, in a buffer large enough. */
  method SpreadAll(a: array<byte>, slen: nat, d: array<int>, n: nat, find: nat, repl: Source, acc0: nat,
                   ghost pos0: nat)
    requires n < d.Length && d[n] == slen
    requires pos0 <= slen && slen + acc0 < a.Length && Clear(repl, pos0, slen)
    requires find < |Held(a[..slen], repl)| && acc0 == n * (|Held(a[..slen], repl)| - find)
    requires Spaced(a[..slen], d[..n], find) && forall k :: 0 <= k < n ==> pos0 <= d[k]
    modifies a
    ensures var s, ps := old(a[..slen]), d[..n];
            a[..slen + acc0] == s[..End(s, ps)] + Tail(s, ps, find, old(Held(a[..slen], repl)))
    ensures a[slen + acc0] == 0
  {
    hide Wrote, Spread, Tail, Spaced, End, Held, Clear;
    ghost var s, ps := a[..slen], d[..n];
    ghost var r := Held(s, repl);
    HeldIn(a, pos0, slen, repl);
    assert a[..][..slen] == s;
    SpreadStart(s, ps, find, r, a[..], acc0);
    SpreadPieces(a, slen, d, n, find, repl, acc0, pos0, s, ps, r);
    ghost var b := a[..];
    SpreadEnd(s, ps, find, r, b, slen + acc0);
    a[slen + acc0] := 0;
    assert a[..slen + acc0] == b[..slen + acc0];
  }

  /** The loop of the backward moves. */
  method SpreadPieces(a: array<byte>, slen: nat, d: array<int>, n: nat, find: nat, repl: Source, acc0: nat,
                      ghost pos0: nat, ghost s: seq<byte>, ghost ps: seq<int>, ghost r: seq<byte>)
    requires n < d.Length && d[n] == slen == |s| && ps == d[..n]
    requires pos0 <= slen && slen + acc0 < a.Length && Clear(repl, pos0, slen) && Held(a[..], repl) == r
    requires find < |r| && acc0 == Times(n, |r| - find)
    requires Spaced(s, ps, find) && forall k :: 0 <= k < n ==> pos0 <= d[k]
    requires Spread(s, ps[n..], find, r, a[..], acc0, slen + acc0)
    modifies a
    ensures Spread(s, ps, find, r, a[..], 0, slen + acc0)
  {
    hide Spread, Tail, Spaced, End, Held, Clear, Times;
    ghost var grow := |r| - find;
    TimesZero(0, grow);
    var delta := find - |Held(a[..], repl)|;
    var acc: int := acc0;
    var i := n - 1;
    while i >= 0
      invariant -1 <= i < n && 0 <= acc == Times(i + 1, grow)
      invariant Held(a[..], repl) == r
      invariant Spread(s, ps[i + 1..], find, r, a[..], acc, slen + acc0)
    {
      Earlier(i, grow);
      SpacedAt(s, ps, find, i);
      SpreadRound(a, slen, d[i], d[i + 1], find, repl, acc, pos0, s, ps[i + 1..], r, slen + acc0);
      acc := acc + delta;
      i := i - 1;
    }
    assert ps[0..] == ps;
  }

  /** The piece between the occurrences at `p` and at `e` moves up, and the replacement goes before it. */
  method SpreadRound(a: array<byte>, ghost slen: nat, p: nat, e: nat, find: nat, repl: Source, acc: nat,
                     ghost pos0: nat, ghost s: seq<byte>, ghost ps: seq<int>, ghost r: seq<byte>, ghost n: nat)
    requires pos0 <= p && pos0 <= slen <= a.Length && Clear(repl, pos0, slen) && Held(a[..], repl) == r
    requires find < |r| <= find + acc && Spaced(s, [p] + ps, find) && e == End(s, ps)
    requires Spread(s, ps, find, r, a[..], acc, n)
    modifies a
    ensures Spread(s, [p] + ps, find, r, a[..], acc + find - |r|, n) && Held(a[..], repl) == r
  {
    hide Wrote, Spread, Tail, Spaced, End, Held, Clear;
    var q := p + find;
    ghost var before := a[..];
    SpreadStep(s, p, ps, find, r, before, acc, n);
    SpreadOne(a, q, e - q, acc, repl, pos0, slen);
  }

  lemma Earlier(i: nat, grow: nat)
    ensures Times(i + 1, grow) == Times(i, grow) + grow >= grow && Times(i, grow) >= 0
  {
  }

  /** One round of the expanding replacement. */
  method SpreadOne(a: array<byte>, q: nat, l: nat, acc: nat, repl: Source, ghost pos0: nat, ghost slen: nat)
    requires pos0 <= slen <= a.Length && Clear(repl, pos0, slen)
    requires pos0 + |Held(a[..], repl)| <= q + acc && q + acc + l <= a.Length
    modifies a
    ensures a[..] == Wrote(Wrote(old(a[..]), q + acc, old(a[..])[q..q + l]), q + acc - |Held(old(a[..]), repl)|,
                           Held(old(a[..]), repl))
    ensures Held(a[..], repl) == Held(old(a[..]), repl)
  {
    hide Wrote, Held, Clear;
    ghost var before, r0 := a[..], Held(a[..], repl);
    ghost var mid := Wrote(before, q + acc, before[q..q + l]);
    HeldAfter(before, q + acc, before[q..q + l], repl, pos0, slen);
    HeldAfter(mid, q + acc - |r0|, r0, repl, pos0, slen);
    MoveUp(a, q, l, acc);
    assert a[..] == mid;
    var r := Held(a[..], repl);
    if |r| != 0 {
      MemCpy(a, q + acc - |r|, r);
    } else {
      WroteNothing(mid, q + acc - |r|);
    }
  }

  /** Moves the `l` bytes from `q` on up by `acc`, where there are any. */
  method MoveUp(a: array<byte>, q: nat, l: nat, acc: nat)
    requires q + acc + l <= a.Length
    modifies a
    ensures a[..] == Wrote(old(a[..]), q + acc, old(a[..])[q..q + l])
  {
    hide Wrote;
    assert a[..][q..q + l] == a[q..q + l];
    if l != 0 {
      MemMove(a, q + acc, q, l);
    } else {
      WroteNothing(a[..], q + acc);
    }
  }

  /** Whether the engine can do its work: the positions must fit its array and the result an `int`. */
  ghost predicate Feasible(m: Matching, s: seq<byte>, find: seq<byte>, repl: seq<byte>, pos: nat)
    requires |find| > 0
  {
    |repl| > |find| && pos <= |s| ==>
      && |Positions(m, s, find, pos)| <= MAX_COUNT
      && |ReplaceAll(m, s, find, repl, pos)| < INT_MAX
  }

  /** The replacement string is not copied although it lies in the text, and the buffer must move to grow: the
      library then reads the string where the buffer was. `size` is that of the result with its NUL. */
  ghost predicate Stale(repl: Source, find: nat, pos: int, matched: bool, mlen: int, size: nat) {
    && repl.Within? && repl.at + repl.len <= pos && find < repl.len && matched && mlen > 0
    && size <= INT_MAX && NewLength(mlen, size) > mlen
  }

  /** findreplaceengine; `binstr` and `binstrcaseless` are its two matchings. `stale` says that the replacement
      string is needed after its buffer was given back, where the model stops. */
  method FindReplaceEngine(b: Bstring, m: Matching, find: Source, repl: Source, pos: int)
    returns (ret: int, stale: bool)
    requires b.Valid() && b.slen <= INT_MAX && b.Readable(find) && b.Readable(repl)
    modifies b, b.data
    ensures b.Valid() && (b.data == old(b.data) || fresh(b.data))
    ensures ret == OK <==>
      && !find.Null? && !repl.Null? && pos >= 0 && old(b.Len(find)) > 0 && old(b.mlen) > 0
      && Feasible(m, old(b.Text()), old(b.Bytes(find)), old(b.Bytes(repl)), pos)
    ensures ret != OK ==> ret == ERR && b.Text() == old(b.Text())
    ensures ret == OK ==> b.mlen > 0
    ensures ret == OK ==>
      var result := ReplaceAll(m, old(b.Text()), old(b.Bytes(find)), old(b.Bytes(repl)), pos);
      && (stale <==> Stale(repl, old(b.Len(find)), pos, Next(m, old(b.Text()), old(b.Bytes(find)), pos) != ERR,
                           old(b.mlen), |result| + 1))
      && b.Text() == if stale then old(b.Text()) else result
  {
    hide ReplaceAll, Positions, Replaced, Next, Feasible, Held, Clear, NewLength, Bstring.Text, Bstring.Bytes;
    stale := false;
    if find.Null? || repl.Null? || pos < 0 || b.Len(find) <= 0 || b.mlen <= 0 || b.slen > b.mlen { return ERR, stale; }
    var slen := b.slen;
    ghost var s, f, r := b.Text(), b.Bytes(find), b.Bytes(repl);
    if pos > slen - b.Len(find) {
      TooLate(m, s, f, r, pos);
      return OK, stale;
    }
    var auxf := Auxiliary(b, find, pos);
    var auxr := Auxiliary(b, repl, pos);
    ret, stale := ReplaceByLength(b, m, auxf, auxr, pos);
  }

  /** The strategy for the difference of the lengths. */
  method ReplaceByLength(b: Bstring, m: Matching, find: Source, repl: Source, pos: nat)
    returns (ret: int, stale: bool)
    requires b.Valid() && b.mlen > 0 && pos <= b.slen
    requires Clear(find, pos, b.slen) && Clear(repl, pos, b.slen)
    requires Held(b.Text(), find) != [] && |Held(b.Text(), repl)| <= INT_MAX
    modifies b, b.data
    ensures b.Valid() && (b.data == old(b.data) || fresh(b.data))
    ensures var s := old(b.Text()); ret == OK <==> Feasible(m, s, Held(s, find), Held(s, repl), pos)
    ensures ret != OK ==> ret == ERR && b.Text() == old(b.Text())
    ensures ret == OK ==> b.mlen > 0
    ensures ret == OK ==>
      var s := old(b.Text());
      var f, r := Held(s, find), Held(s, repl);
      var result := ReplaceAll(m, s, f, r, pos);
      && (stale <==> Stale(repl, |f|, pos, Next(m, s, f, pos) != ERR, old(b.mlen), |result| + 1))
      && b.Text() == if stale then s else result
  {
    hide ReplaceAll, Positions, Replaced, Next, Feasible, Held, Clear, NewLength;
    var slen := b.slen;
    ghost var s := b.Text();
    var f, r := Held(b.data[..slen], find), Held(b.data[..slen], repl);
    if |r| <= |f| {
      NoGrowth(m, s, f, r, pos);
      if repl.Within? { HeldWithin(repl, s, pos); }
    }
    var delta := |f| - |r|;
    if delta == 0 {
      ReplaceEqual(b.data, slen, m, find, repl, pos);
      EqualLength(m, s, f, r, pos);
      assert b.data[slen..][0] == old(b.data[slen..])[0];
      return OK, false;
    }
    if delta > 0 {
      b.slen := ReplaceShrinking(b.data, slen, m, find, repl, pos);
      return OK, false;
    }
    ret, stale := ReplaceExpanding(b, m, find, repl, pos, b.data[..slen], f, r);
  }

  /** The string itself, or a copy of it where it meets the text from `pos` on. */
  method Auxiliary(b: Bstring, src: Source, pos: nat) returns (aux: Source)
    requires b.Shaped() && b.Readable(src) && !src.Null? && pos < b.slen
    ensures aux == src || aux.Apart?
    ensures Clear(aux, pos, b.slen) && Held(b.Text(), aux) == b.Bytes(src)
    ensures aux.Within? <==> src.Within? && (src.at + src.len <= pos || src.at == b.slen)
  {
    aux := if Uncopied(src, pos, b.slen) then src else Apart(b.Bytes(src));
    assert src.Within? ==> b.data[..b.slen][src.at..src.at + src.len] == b.data[src.at..src.at + src.len];
  }

  /** The replacement is longer: all positions first, then the pieces move up, last one first. `s`, `f` and `r` are
      the text and the bytes of the strings. */
  method ReplaceExpanding(b: Bstring, m: Matching, find: Source, repl: Source, pos: nat, s: seq<byte>, f: seq<byte>,
                          r: seq<byte>)
    returns (ret: int, stale: bool)
    requires b.Valid() && b.mlen > 0 && pos <= |s| && s == b.Text() && f == Held(s, find) && r == Held(s, repl)
    requires Clear(find, pos, |s|) && Clear(repl, pos, |s|) && 0 < |f| < |r| <= INT_MAX
    modifies b, b.data
    ensures b.Valid() && (b.data == old(b.data) || fresh(b.data))
    ensures ret == OK <==> Feasible(m, s, f, r, pos)
    ensures ret != OK ==> ret == ERR && b.Text() == s
    ensures ret == OK ==> b.mlen > 0
    ensures ret == OK ==>
      var result := ReplaceAll(m, s, f, r, pos);
      && (stale <==> Stale(repl, |f|, pos, Next(m, s, f, pos) != ERR, old(b.mlen), |result| + 1))
      && b.Text() == if stale then s else result
  {
    hide ReplaceAll, Positions, Replaced, Spaced, Tail, End, NewLength, Next, Held, Clear, Feasible, Stale;
    stale := false;
    if repl.Within? { HeldWithin(repl, s, pos); }
    var mlen := b.mlen;
    var d, n, acc;
    ret, d, n, acc := CollectAll(s, m, find, f, r, pos);
    if ret != OK { return; }
    ret, stale := Expand(b, |f|, repl, d, n, acc, pos, s, d[..n], r);
    if ret == OK { StaleIs(repl, |f|, pos, n > 0, mlen, |s| + acc + 1); }
  }

  lemma StaleIs(repl: Source, find: nat, pos: int, matched: bool, mlen: int, size: nat)
    requires repl.Within? ==> repl.at + repl.len <= pos && find < repl.len
    requires mlen > 0 && size <= INT_MAX
    ensures Stale(repl, find, pos, matched, mlen, size) <==> matched && repl.Within? && NewLength(mlen, size) > mlen
  {
  }

  /** The positions with the end of the text behind them, and what they tell of the result. */
  method CollectAll(s: seq<byte>, m: Matching, find: Source, ghost f: seq<byte>, r: seq<byte>, pos: nat)
    returns (ret: int, d: array<int>, n: nat, acc: int)
    requires pos <= |s| < INT_MAX && Clear(find, pos, |s|) && f == Held(s, find) && 0 < |f| < |r| <= INT_MAX
    ensures fresh(d) && (ret != OK ==> ret == ERR)
    ensures Feasible(m, s, f, r, pos) <==> ret == OK && |s| + acc < INT_MAX
    ensures ret == OK ==>
      && n < d.Length && d[n] == |s| && acc == n * (|r| - |f|) <= INT_MAX
      && Spaced(s, d[..n], |f|) && (forall k :: 0 <= k < n ==> pos <= d[k])
      && ReplaceAll(m, s, f, r, pos) == s[..End(s, d[..n])] + Tail(s, d[..n], |f|, r)
      && |ReplaceAll(m, s, f, r, pos)| == |s| + acc
      && (n > 0 <==> Next(m, s, f, pos) != ERR)
  {
    hide ReplaceAll, Positions, Spaced, Tail, End, Next, Clear, Held;
    ret, d, n, acc := Collect(s, m, find, |r| - |Held(s, find)|, pos);
    Expansion(m, s, f, r, pos);
    Matched(m, s, f, pos);
    FromPos(m, s, f, pos);
    if ret == OK {
      d[n] := |s|;
      assert d[..n] == Positions(m, s, f, pos);
    }
  }

  /** One resize, and the pieces into their places. */
  method Expand(b: Bstring, find: nat, repl: Source, d: array<int>, n: nat, acc: nat, ghost pos: nat,
                ghost s: seq<byte>, ghost ps: seq<int>, ghost r: seq<byte>)
    returns (ret: int, stale: bool)
    requires b.Valid() && b.mlen > 0 && s == b.Text() && r == Held(s, repl) && pos <= |s| && Clear(repl, pos, |s|)
    requires n < d.Length && d[n] == |s| && ps == d[..n] && Spaced(s, ps, find)
    requires forall k :: 0 <= k < n ==> pos <= d[k]
    requires find < |r| && acc == n * (|r| - find) <= INT_MAX
    modifies b, b.data
    ensures b.Valid() && (b.data == old(b.data) || fresh(b.data))
    ensures ret == OK <==> |s| + acc < INT_MAX
    ensures ret != OK ==> ret == ERR && b.Text() == s
    ensures ret == OK ==> b.mlen > 0
    ensures stale <==> ret == OK && n > 0 && repl.Within? && NewLength(old(b.mlen), |s| + acc + 1) > old(b.mlen)
    ensures ret == OK ==> b.Text() == if stale then s else s[..End(s, ps)] + Tail(s, ps, find, r)
  {
    hide Spaced, Tail, End, NewLength, Held, Clear;
    stale := false;
    var slen, was := b.slen, b.data;
    ret := b.Balloc(Wrap(slen + acc + 1));
    if ret == OK {
      if n > 0 && repl.Within? && b.data != was { return ret, true; }
      SpreadAll(b.data, slen, d, n, find, repl, acc, pos);
      b.slen := slen + acc;
    }
  }

  lemma Matched(m: Matching, s: seq<byte>, find: seq<byte>, pos: nat)
    requires |find| > 0
    ensures Positions(m, s, find, pos) == [] <==> Next(m, s, find, pos) == ERR
  {
  }

  lemma {:induction false} FromPos(m: Matching, s: seq<byte>, find: seq<byte>, pos: nat)
    requires |find| > 0
    ensures forall k :: 0 <= k < |Positions(m, s, find, pos)| ==> pos <= Positions(m, s, find, pos)[k]
    decreases |s| - pos
  {
    hide Next;
    NextBounds(m, s, find, pos);
    var p := Next(m, s, find, pos);
    if p != ERR {
      FromPos(m, s, find, p + |find|);
    }
  }

  lemma TooLate(m: Matching, s: seq<byte>, find: seq<byte>, repl: seq<byte>, pos: nat)
    requires |s| < INT_MAX && |find| > 0 && pos > |s| - |find|
    ensures ReplaceAll(m, s, find, repl, pos) == s && Feasible(m, s, find, repl, pos)
    ensures Next(m, s, find, pos) == ERR
  {
  }

  /** A string that is left where it is, is all there, and before `pos` unless it is empty. */
  lemma HeldWithin(src: Source, s: seq<byte>, pos: nat)
    requires pos <= |s| && Clear(src, pos, |s|) && src.Within?
    ensures |Held(s, src)| == src.len && (src.len > 0 ==> src.at + src.len <= pos)
  {
  }

  lemma NoGrowth(m: Matching, s: seq<byte>, find: seq<byte>, repl: seq<byte>, pos: nat)
    requires 0 < |find| && |repl| <= |find|
    ensures Feasible(m, s, find, repl, pos)
  {
  }

  lemma EqualLength(m: Matching, s: seq<byte>, find: seq<byte>, repl: seq<byte>, pos: nat)
    requires 0 < |find| == |repl| && pos <= |s|
    ensures |ReplaceAll(m, s, find, repl, pos)| == |s|
  {
    hide Positions, Next;
    ReplacedLength(m, s, find, repl, pos);
    TimesZero(|Positions(m, s, find, pos)|, |repl| - |find|);
  }

  lemma TimesZero(n: int, z: int)
    requires n == 0 || z == 0
    ensures n * z == 0 && (n >= 0 ==> Times(n, z) == 0)
  {
  }

  lemma Expansion(m: Matching, s: seq<byte>, find: seq<byte>, repl: seq<byte>, pos: nat)
    requires 0 < |find| < |repl| && pos <= |s|
    ensures var ps := Positions(m, s, find, pos);
            && Spaced(s, ps, |find|)
            && ReplaceAll(m, s, find, repl, pos) == s[..End(s, ps)] + Tail(s, ps, |find|, repl)
            && |ReplaceAll(m, s, find, repl, pos)| == |s| + |ps| * (|repl| - |find|)
  {
    var ps := Positions(m, s, find, pos);
    TailIsReplaced(m, s, find, repl, pos);
    ReplacedLength(m, s, find, repl, pos);
    assert s[..pos] + (s[pos..End(s, ps)] + Tail(s, ps, |find|, repl)) == s[..End(s, ps)] + Tail(s, ps, |find|, repl);
  }

  lemma OnlyAtTheEnd(s: seq<byte>)
    requires |s| >= 2
    ensures var p := |s| - 1; Next(Exact, s, [s[p]], p) == p && Positions(Exact, s, [s[p]], p) == [p]
    ensures |ReplaceAll(Exact, s, [s[|s| - 1]], s[..2], |s| - 1)| == |s| + 1
  {
    var p := |s| - 1;
    assert Occurs(Exact, s, [s[p]], p);
    assert Positions(Exact, s, [s[p]], p + 1) == [];
    ReplacedLength(Exact, s, [s[p]], s[..2], p);
  }

  /** A replacement that goes stale: the last of six bytes is to be replaced by the first two, and with its NUL the
      text then no longer fits the eight bytes of its buffer. */
  method StaleCase() returns (stale: bool)
    ensures stale
  {
    hide SnapUpSize, Positions, ReplaceAll, Next;
    var b := new Bstring([98, 98, 98, 98, 98, 97]);
    SnapUpSizeIs(7);
    SnapUpSizeIs(8);
    OnlyAtTheEnd(b.Text());
    assert b.Bytes(Within(0, 2)) == b.Text()[..2] && [b.Text()[5]] == [97];
    assert Feasible(Exact, b.Text(), [97], b.Text()[..2], 5);
    var ret;
    ret, stale := FindReplaceEngine(b, Exact, Apart([97]), Within(0, 2), 5);
  }
}
