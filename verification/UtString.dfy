/** The Knuth-Morris-Pratt search of utstring, from the left and from the right. */
module UtString {

  /** `needle[..j]` is a proper border of `needle[..i]`: both a prefix and a suffix of it. */
  ghost predicate Border<T>(needle: seq<T>, i: int, j: int) {
    0 <= j < i <= |needle| && needle[..j] == needle[i - j..i]
  }

  /** `k` is the longest border of `needle[..i]` after which the next character differs from
      `needle[i]`; at the end of the needle, simply the longest border. -1 stands for none. */
  ghost predicate StrongBorder<T>(needle: seq<T>, i: int, k: int)
    requires 0 <= i <= |needle|
  {
    && (k == -1 || (Border(needle, i, k) && (i < |needle| ==> needle[k] != needle[i])))
    && forall j :: k < j && Border(needle, i, j) ==> i < |needle| && needle[j] == needle[i]
  }

  ghost predicate IsTable<T>(needle: seq<T>, table: seq<int>) {
    |table| == |needle| + 1 && forall i :: 0 <= i < |table| ==> StrongBorder(needle, i, table[i])
  }

  /** All borders of `needle[..i]` longer than `j` disagree with `c` at the next character. */
  ghost predicate NoLonger<T>(needle: seq<T>, i: int, j: int, c: T)
    requires 0 <= i <= |needle|
  {
    forall k :: j < k && Border(needle, i, k) ==> needle[k] != c
  }

  ghost predicate Longest<T>(needle: seq<T>, i: int, j: int) {
    forall k :: Border(needle, i, k) ==> k <= j
  }

  ghost predicate At<T>(hay: seq<T>, needle: seq<T>, p: int) {
    0 <= p <= |hay| - |needle| && hay[p..p + |needle|] == needle
  }

  lemma BorderOfBorder<T>(needle: seq<T>, i: int, j: int, k: int)
    requires Border(needle, i, j)
    ensures k < j ==> (Border(needle, i, k) <==> Border(needle, j, k))
  {
    if 0 <= k < j {
      assert needle[i - k..i] == needle[i - j..i][j - k..] == needle[..j][j - k..] == needle[j - k..j];
    }
  }

  ghost predicate Filled<T>(needle: seq<T>, table: seq<int>, n: int) {
    -1 <= n < |table| == |needle| + 1 && forall i :: 0 <= i <= n ==> StrongBorder(needle, i, table[i])
  }

  /** Following the table from a mismatch keeps every border that could still fit before `c`. */
  lemma Follow<T>(needle: seq<T>, table: seq<int>, i: int, j: int, c: T)
    requires 0 <= i <= |needle| && Border(needle, i, j) && needle[j] != c
    requires NoLonger(needle, i, j, c) && Filled(needle, table, i)
    ensures -1 <= table[j] < j && (table[j] == -1 || Border(needle, i, table[j])) && NoLonger(needle, i, table[j], c)
  {
    var k := table[j];
    assert StrongBorder(needle, j, k);
    BorderOfBorder(needle, i, j, k);
    forall m | k < m && Border(needle, i, m) ensures needle[m] != c {
      BorderOfBorder(needle, i, j, m);
    }
  }

  lemma BorderGrows<T>(needle: seq<T>, i: int, j: int)
    requires 0 <= i < |needle|
    ensures 0 <= j ==> (Border(needle, i + 1, j + 1) <==> Border(needle, i, j) && needle[j] == needle[i])
  {
    if 0 <= j < i {
      assert needle[..j + 1] == needle[..j] + [needle[j]];
      assert needle[i - j..i + 1] == needle[i - j..i] + [needle[i]];
    }
  }

  lemma Extend<T>(needle: seq<T>, i: int, j: int, i': int, j': int)
    requires 0 <= i < |needle| && i' == i + 1 && j' == j + 1 && NoLonger(needle, i, j, needle[i])
    requires j == -1 || (Border(needle, i, j) && needle[j] == needle[i])
    ensures Border(needle, i', j') && Longest(needle, i', j')
  {
    BorderGrows(needle, i, j);
    forall k | Border(needle, i', k) ensures k <= j' {
      BorderGrows(needle, i, k - 1);
    }
  }

  lemma FillNext<T>(needle: seq<T>, table: seq<int>, i: int, j: int)
    requires Border(needle, i, j) && Longest(needle, i, j) && Filled(needle, table, i - 1)
    ensures Filled(needle, table[i := if i < |needle| && needle[i] == needle[j] then table[j] else j], i)
  {
    var k := table[j];
    assert StrongBorder(needle, j, k);
    assert StrongBorder(needle, i, if i < |needle| && needle[i] == needle[j] then k else j) by {
      forall m { BorderOfBorder(needle, i, j, m); }
    }
  }

  lemma LongestIsNoLonger<T>(needle: seq<T>, i: int, j: int, c: T)
    requires 0 <= i <= |needle| && Longest(needle, i, j)
    ensures NoLonger(needle, i, j, c)
  {
  }

  lemma NoBorder<T>(needle: seq<T>)
    ensures Longest(needle, 0, -1) && StrongBorder(needle, 0, -1)
  {
  }

  method BuildTable<T(==)>(needle: seq<T>, table: array<int>)
    requires table.Length == |needle| + 1
    modifies table
    ensures IsTable(needle, table[..])
  {
    hide Border, StrongBorder, NoLonger;
    var i, j := 0, -1;
    table[i] := j;
    ghost var t := table[..];
    NoBorder(needle);
    while i < |needle|
      invariant 0 <= i <= |needle| && -1 <= j < i && t == table[..]
      invariant j == -1 || Border(needle, i, j)
      invariant Longest(needle, i, j)
      invariant Filled(needle, t, i)
    {
      LongestIsNoLonger(needle, i, j, needle[i]);
      while j > -1 && needle[i] != needle[j]
        invariant -1 <= j < i && t == table[..]
        invariant j == -1 || Border(needle, i, j)
        invariant NoLonger(needle, i, j, needle[i])
      {
        Follow(needle, t, i, j, needle[i]);
        j := table[j];
      }
      Extend(needle, i, j, i + 1, j + 1);
      i := i + 1;
      j := j + 1;
      FillNext(needle, t, i, j);
      if i < |needle| {
        if needle[i] == needle[j] {
          table[i] := table[j];
        } else {
          table[i] := j;
        }
      } else {
        table[i] := j;
      }
      t := t[i := table[i]];
    }
  }

  /** `hay[..j]` ends with the first `i` characters of the needle. */
  ghost predicate Partial<T>(hay: seq<T>, needle: seq<T>, j: int, i: int) {
    0 <= i <= j <= |hay| && i <= |needle| && hay[j - i..j] == needle[..i]
  }

  ghost predicate NoneBefore<T>(hay: seq<T>, needle: seq<T>, p: int) {
    forall q :: At(hay, needle, q) ==> p <= q
  }

  /** `p` is the least position of the needle in the haystack, or -1 when there is none. */
  ghost predicate First<T>(hay: seq<T>, needle: seq<T>, p: int) {
    if p == -1 then forall q :: !At(hay, needle, q) else At(hay, needle, p) && NoneBefore(hay, needle, p)
  }

  /** `p` is the greatest position of the needle in the haystack, or -1 when there is none. */
  ghost predicate Last<T>(hay: seq<T>, needle: seq<T>, p: int) {
    if p == -1 then forall q :: !At(hay, needle, q)
    else At(hay, needle, p) && forall q :: At(hay, needle, q) ==> q <= p
  }

  lemma SearchStart<T>(hay: seq<T>, needle: seq<T>)
    ensures Partial(hay, needle, 0, 0) && NoneBefore(hay, needle, 0)
  {
  }

  /** After a mismatch at `hay[j]` the table skips no position where the needle could stand. */
  lemma Skip<T>(hay: seq<T>, needle: seq<T>, table: seq<int>, j: int, i: int)
    requires Partial(hay, needle, j, i) && i < |needle| && j < |hay| && needle[i] != hay[j]
    requires NoneBefore(hay, needle, j - i) && IsTable(needle, table)
    ensures -1 <= table[i] < i && (table[i] != -1 ==> Partial(hay, needle, j, table[i]))
    ensures NoneBefore(hay, needle, j - table[i])
  {
    var k := table[i];
    assert StrongBorder(needle, i, k);
    if k != -1 {
      assert hay[j - k..j] == hay[j - i..j][i - k..] == needle[..i][i - k..] == needle[i - k..i];
    }
    forall p | At(hay, needle, p) ensures j - k <= p {
      if j - i <= p <= j {
        assert hay[p..p + |needle|][j - p] == hay[j];
        if j - i < p {
          MatchBorder(hay, needle, j, i, p);
        }
      }
    }
  }

  lemma MatchBorder<T>(hay: seq<T>, needle: seq<T>, j: int, i: int, p: int)
    requires Partial(hay, needle, j, i) && At(hay, needle, p) && j - i < p <= j
    ensures Border(needle, i, j - p)
  {
    var m := j - p;
    assert needle[..m] == hay[p..p + |needle|][..m] == hay[p..j] == hay[j - i..j][i - m..] == needle[i - m..i];
  }

  lemma PartialGrows<T>(hay: seq<T>, needle: seq<T>, j: int, i: int)
    requires 0 <= j < |hay| && -1 <= i < |needle|
    requires i != -1 ==> Partial(hay, needle, j, i) && needle[i] == hay[j]
    ensures Partial(hay, needle, j + 1, i + 1)
  {
    if i != -1 {
      assert hay[j - i..j + 1] == hay[j - i..j] + [hay[j]];
      assert needle[..i + 1] == needle[..i] + [needle[i]];
    }
  }

  lemma Found<T>(hay: seq<T>, needle: seq<T>, j: int)
    requires Partial(hay, needle, j, |needle|) && NoneBefore(hay, needle, j - |needle|)
    ensures First(hay, needle, j - |needle|) && j - |needle| >= 0
  {
  }

  lemma NoRoom<T>(hay: seq<T>, needle: seq<T>, p: int)
    requires NoneBefore(hay, needle, p) && p > |hay| - |needle|
    ensures First(hay, needle, -1)
  {
    forall q | At(hay, needle, q) ensures false {
    }
  }

  /** Search from left to right with a table built before. */
  method FindWithTable<T(==)>(hay: seq<T>, needle: seq<T>, table: array<int>) returns (position: int)
    requires |needle| > 0 && IsTable(needle, table[..])
    ensures First(hay, needle, position)
  {
    hide Border, StrongBorder, NoneBefore, First, At;
    position := -1;
    var i, j := 0, 0;
    SearchStart(hay, needle);
    while j < |hay| && (|hay| - j) + i >= |needle|
      invariant Partial(hay, needle, j, i) && i < |needle|
      invariant NoneBefore(hay, needle, j - i)
      decreases |hay| - j
    {
      while i > -1 && needle[i] != hay[j]
        invariant -1 <= i < |needle|
        invariant i != -1 ==> Partial(hay, needle, j, i)
        invariant NoneBefore(hay, needle, j - i)
      {
        Skip(hay, needle, table[..], j, i);
        i := table[i];
      }
      PartialGrows(hay, needle, j, i);
      i := i + 1;
      j := j + 1;
      if i >= |needle| {
        position := j - i;
        Found(hay, needle, j);
        return;
      }
    }
    NoRoom(hay, needle, j - i);
  }

  function Reversed<T>(s: seq<T>): (r: seq<T>)
    ensures |r| == |s|
  {
    seq(|s|, k requires 0 <= k < |s| => s[|s| - 1 - k])
  }

  lemma ReversedAt<T>(s: seq<T>, k: int)
    requires 0 <= k < |s|
    ensures Reversed(s)[k] == s[|s| - 1 - k]
  {
  }

  /** The right-to-left table is kept one cell to the right, with positions counted from the
      left; read backwards it is a left-to-right table. */
  ghost predicate Mirrors(table: seq<int>, mirror: seq<int>) {
    && |mirror| == |table|
    && forall k {:trigger mirror[k]} :: 0 <= k < |table| ==> mirror[k] == |table| - 2 - table[|table| - 1 - k]
  }

  lemma MirrorsUpdate(table: seq<int>, mirror: seq<int>, k: int, v: int)
    requires 0 <= k < |table| && Mirrors(table, mirror)
    ensures Mirrors(table[k := v], mirror[|table| - 1 - k := |table| - 2 - v])
  {
  }

  lemma MirrorsAt(table: seq<int>, mirror: seq<int>, k: int)
    requires Mirrors(table, mirror) && 0 <= k < |table|
    ensures |mirror| == |table| && mirror[k] == |table| - 2 - table[|table| - 1 - k]
  {
  }

  function Mirror(table: seq<int>): (mirror: seq<int>)
    ensures Mirrors(table, mirror)
    ensures table != [] ==> mirror != [] && mirror[0] == |table| - 2 - table[|table| - 1]
  {
    seq(|table|, k requires 0 <= k < |table| => |table| - 2 - table[|table| - 1 - k])
  }

  lemma FilledStart<T>(needle: seq<T>, table: seq<int>)
    requires |table| == |needle| + 1 && table[0] == -1 && StrongBorder(needle, 0, -1)
    ensures Filled(needle, table, 0)
  {
  }

  lemma FilledEnd<T>(needle: seq<T>, table: seq<int>, mirror: seq<int>)
    requires Mirrors(table, mirror) && Filled(Reversed(needle), mirror, |needle|)
    ensures IsTableR(needle, table)
  {
  }

  ghost predicate IsTableR<T>(needle: seq<T>, table: seq<int>) {
    exists mirror :: Mirrors(table, mirror) && IsTable(Reversed(needle), mirror)
  }

  lemma AtReversed<T>(hay: seq<T>, needle: seq<T>, p: int)
    ensures At(hay, needle, p) <==> At(Reversed(hay), Reversed(needle), |hay| - |needle| - p)
  {
    var q := |hay| - |needle| - p;
    if At(hay, needle, p) {
      forall k | 0 <= k < |needle| ensures Reversed(hay)[q + k] == Reversed(needle)[k] {
        assert hay[p..p + |needle|][|needle| - 1 - k] == needle[|needle| - 1 - k];
      }
    }
    if At(Reversed(hay), Reversed(needle), q) {
      forall k | 0 <= k < |needle| ensures hay[p + k] == needle[k] {
        assert Reversed(hay)[q..q + |needle|][|needle| - 1 - k] == Reversed(needle)[|needle| - 1 - k];
      }
    }
  }

  lemma FirstReversed<T>(hay: seq<T>, needle: seq<T>, p: int)
    requires First(Reversed(hay), Reversed(needle), p)
    ensures Last(hay, needle, if p == -1 then -1 else |hay| - |needle| - p)
  {
    forall q | At(hay, needle, q) ensures At(Reversed(hay), Reversed(needle), |hay| - |needle| - q) {
      AtReversed(hay, needle, q);
    }
    AtReversed(hay, needle, |hay| - |needle| - p);
  }

  method BuildTableR<T(==)>(needle: seq<T>, table: array<int>)
    requires table.Length == |needle| + 1
    modifies table
    ensures IsTableR(needle, table[..])
  {
    hide Border, StrongBorder, NoLonger, Reversed, Filled, Longest, Mirrors;
    var i := |needle| - 1;
    var j := i + 1;
    table[i + 1] := j;
    // The same state as the left-to-right construction sees it.
    ghost var r, gi, gj := Reversed(needle), 0, -1;
    ghost var t := table[..];
    ghost var gt := Mirror(t);
    NoBorder(r);
    FilledStart(r, gt);
    while i >= 0
      invariant gi == |needle| - 1 - i && gj == |needle| - 1 - j && t == table[..] && Mirrors(t, gt)
      invariant 0 <= gi <= |needle| && -1 <= gj < gi
      invariant gj == -1 || Border(r, gi, gj)
      invariant Longest(r, gi, gj)
      invariant Filled(r, gt, gi)
    {
      ReversedAt(needle, gi);
      LongestIsNoLonger(r, gi, gj, r[gi]);
      while j < |needle| && needle[i] != needle[j]
        invariant gj == |needle| - 1 - j && -1 <= gj < gi && t == table[..]
        invariant gj == -1 || Border(r, gi, gj)
        invariant NoLonger(r, gi, gj, r[gi])
        decreases |needle| - j
      {
        ReversedAt(needle, gj);
        MirrorsAt(t, gt, gj);
        Follow(r, gt, gi, gj, r[gi]);
        j := table[j + 1];
        gj := gt[gj];
      }
      if gj != -1 { ReversedAt(needle, gj); }
      Extend(r, gi, gj, gi + 1, gj + 1);
      i, gi := i - 1, gi + 1;
      j, gj := j - 1, gj + 1;
      FillNext(r, gt, gi, gj);
      ReversedAt(needle, gj);
      MirrorsAt(t, gt, gj);
      if i >= 0 {
        ReversedAt(needle, gi);
        if needle[i] == needle[j] {
          table[i + 1] := table[j + 1];
        } else {
          table[i + 1] := j;
        }
      } else {
        table[i + 1] := j;
      }
      ghost var v, gv := table[i + 1], if gi < |r| && r[gi] == r[gj] then gt[gj] else gj;
      assert gv == |needle| - 1 - v;
      MirrorsUpdate(t, gt, i + 1, v);
      t, gt := t[i + 1 := v], gt[gi := gv];
    }
    FilledEnd(needle, t, gt);
  }

  /** Search from right to left with a table built before. */
  method FindWithTableR<T(==)>(hay: seq<T>, needle: seq<T>, table: array<int>) returns (position: int)
    requires |needle| > 0 && IsTableR(needle, table[..])
    ensures Last(hay, needle, position)
  {
    hide Border, StrongBorder, NoneBefore, First, Last, At, Reversed;
    position := -1;
    var j, i := |hay| - 1, |needle| - 1;
    ghost var rh, rn, gj, gi := Reversed(hay), Reversed(needle), 0, 0;
    ghost var gt :| Mirrors(table[..], gt) && IsTable(rn, gt);
    SearchStart(rh, rn);
    while j >= 0 && j >= i
      invariant gj == |hay| - 1 - j && gi == |needle| - 1 - i
      invariant Partial(rh, rn, gj, gi) && gi < |needle|
      invariant NoneBefore(rh, rn, gj - gi)
      decreases j
    {
      ReversedAt(hay, gj);
      ReversedAt(needle, gi);
      while i < |needle| && needle[i] != hay[j]
        invariant gi == |needle| - 1 - i && -1 <= gi < |needle| && (gi != -1 ==> rn[gi] == needle[i])
        invariant gi != -1 ==> Partial(rh, rn, gj, gi)
        invariant NoneBefore(rh, rn, gj - gi)
        decreases gi
      {
        Skip(rh, rn, gt, gj, gi);
        gi := gt[gi];
        i := table[i + 1];
        if gi != -1 { ReversedAt(needle, gi); }
      }
      PartialGrows(rh, rn, gj, gi);
      i, gi := i - 1, gi + 1;
      j, gj := j - 1, gj + 1;
      if i < 0 {
        position := j + 1;
        Found(rh, rn, gj);
        FirstReversed(hay, needle, gj - gi);
        return;
      }
    }
    NoRoom(rh, rn, gj - gi);
    FirstReversed(hay, needle, -1);
  }

  /** The dynamic string: the first `i` cells of the `d.Length` allocated ones hold its text. */
  class UtString {
    var d: array<char>
    var i: nat

    ghost predicate Valid()
      reads this
    {
      i < d.Length
    }

    /** `utstring_find`: the first occurrence at or after the start position; a negative one counts from the
        end. A start before the text is the caller's error, unless the needle cannot fit anyway. */
    method Find(start: int, needle: seq<char>) returns (position: int)
      requires Valid() && (0 <= start || 0 <= i + start || needle == [] || -start < |needle|)
      ensures needle != [] && 0 <= start <= i ==>
        First(d[start..i], needle, if position == -1 then -1 else position - start)
      ensures needle != [] && start < 0 <= i + start ==>
        First(d[i + start..i], needle, if position == -1 then -1 else position - (i + start))
      ensures needle == [] || i + start < 0 || i < start ==> position == -1
    {
      position := -1;
      var startPosition := if start < 0 then i + start else start;
      var hayLen := i - startPosition;
      if hayLen >= |needle| && |needle| > 0 {
        var table := new int[|needle| + 1];
        BuildTable(needle, table);
        position := FindWithTable(d[startPosition..i], needle, table);
        if position >= 0 {
          position := position + startPosition;
        }
      } else if 0 <= startPosition <= i && needle != [] {
        NoRoom(d[startPosition..i], needle, 0);
      }
    }

    /** `utstring_findR`: the last occurrence that lies wholly in the cells up to and including
        the start position; a negative one counts from the end. */
    method FindR(start: int, needle: seq<char>) returns (position: int)
      requires Valid() && (start < d.Length || needle == [] || start + 1 < |needle|)
      ensures needle != [] && 0 <= start < d.Length ==> Last(d[..start + 1], needle, position)
      ensures needle != [] && start < 0 <= i + start ==> Last(d[..i + start + 1], needle, position)
      ensures needle == [] || i + start < 0 || d.Length <= start ==> position == -1
    {
      position := -1;
      var startPosition := if start < 0 then i + start else start;
      var hayLen := startPosition + 1;
      if hayLen >= |needle| && |needle| > 0 {
        var table := new int[|needle| + 1];
        BuildTableR(needle, table);
        position := FindWithTableR(d[..hayLen], needle, table);
      } else if 0 <= hayLen <= d.Length && needle != [] {
        NoRoom(d[..hayLen], needle, 0);
      }
    }
  }
}
