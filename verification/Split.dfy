/** Splitting and joining of bstrlib strings. A list of strings is a sequence of texts. */
module Split {
  import opened Common
  import opened BSearch
  import BString

  /** The pieces with `sep` between them. */
  function Joined(ps: seq<seq<byte>>, sep: seq<byte>): (s: seq<byte>) {
    if ps == [] then [] else if |ps| == 1 then ps[0] else ps[0] + sep + Joined(ps[1..], sep)
  }

  /** The separator put into the last piece. */
  lemma {:induction false} JoinedCut(ps: seq<seq<byte>>, a: seq<byte>, b: seq<byte>, sep: seq<byte>)
    ensures Joined(ps + [a] + [b], sep) == Joined(ps + [a + sep + b], sep)
  {
    if ps == [] {
      assert ps + [a] + [b] == [a, b] && [a, b][1..] == [b];
    } else {
      assert (ps + [a] + [b])[1..] == ps[1..] + [a] + [b];
      assert (ps + [a + sep + b])[1..] == ps[1..] + [a + sep + b];
      JoinedCut(ps[1..], a, b, sep);
    }
  }

  predicate Without(ps: seq<seq<byte>>, c: byte) {
    forall k :: 0 <= k < |ps| ==> c !in ps[k]
  }

  /** bsplitcb with the callback of bsplit, which adds each piece to the list. */
  method SplitCb(s: seq<byte>, c: byte, pos: int) returns (ret: int, pieces: seq<seq<byte>>)
    ensures ret == if 0 <= pos <= |s| then BString.OK else ERR
    ensures ret == ERR ==> pieces == []
    ensures ret == BString.OK ==>
      && Joined(pieces, [c]) == s[pos..] && Without(pieces, c)
      && |pieces| == multiset(s[pos..])[c] + 1
  {
    hide Joined, Without, Cut, AllCut;
    pieces := [];
    if pos < 0 || pos > |s| { return ERR, []; }
    var p := pos;
    CutStart(s, c, pos);
    while p <= |s|
      invariant pos <= p <= |s| + 1
      invariant p <= |s| ==> Cut(s, c, pos, pieces, s[p..])
      invariant p > |s| ==> AllCut(s, c, pos, pieces)
    {
      var i := p;
      while i < |s| && s[i] != c
        invariant p <= i <= |s| && c !in s[p..i]
      {
        assert s[p..i + 1] == s[p..i] + [s[i]];
        i := i + 1;
      }
      if i < |s| {
        assert s[p..] == s[p..i] + [c] + s[i + 1..];
        CutMore(s, c, pos, pieces, s[p..i], s[i + 1..]);
      } else {
        assert s[p..] == s[p..i];
        CutEnd(s, c, pos, pieces, s[p..i]);
      }
      pieces := pieces + [s[p..i]];
      p := i + 1;
    }
    CutAll(s, c, pos, pieces);
    ret := BString.OK;
  }

  /** The pieces so far, with `rest` as one more, join to the string. */
  ghost predicate Cut(s: seq<byte>, c: byte, pos: nat, pieces: seq<seq<byte>>, rest: seq<byte>)
    requires pos <= |s|
  {
    && Without(pieces, c) && Joined(pieces + [rest], [c]) == s[pos..]
    && |pieces| + multiset(rest)[c] == multiset(s[pos..])[c]
  }

  ghost predicate AllCut(s: seq<byte>, c: byte, pos: nat, pieces: seq<seq<byte>>)
    requires pos <= |s|
  {
    Joined(pieces, [c]) == s[pos..] && Without(pieces, c) && |pieces| == multiset(s[pos..])[c] + 1
  }

  lemma CutStart(s: seq<byte>, c: byte, pos: nat)
    requires pos <= |s|
    ensures Cut(s, c, pos, [], s[pos..])
  {
    assert [] + [s[pos..]] == [s[pos..]];
  }

  lemma CutMore(s: seq<byte>, c: byte, pos: nat, pieces: seq<seq<byte>>, a: seq<byte>, b: seq<byte>)
    requires pos <= |s| && Cut(s, c, pos, pieces, a + [c] + b) && c !in a
    ensures Cut(s, c, pos, pieces + [a], b)
  {
    JoinedCut(pieces, a, b, [c]);
  }

  lemma CutEnd(s: seq<byte>, c: byte, pos: nat, pieces: seq<seq<byte>>, a: seq<byte>)
    requires pos <= |s| && Cut(s, c, pos, pieces, a) && c !in a
    ensures AllCut(s, c, pos, pieces + [a])
  {
  }

  lemma CutAll(s: seq<byte>, c: byte, pos: nat, pieces: seq<seq<byte>>)
    requires pos <= |s| && AllCut(s, c, pos, pieces)
    ensures Joined(pieces, [c]) == s[pos..] && Without(pieces, c) && |pieces| == multiset(s[pos..])[c] + 1
  {
  }

  /** Pieces without the separator are told by what they join to: bsplit also undoes bjoin. */
  lemma {:induction false} SplitUnique(ps: seq<seq<byte>>, qs: seq<seq<byte>>, c: byte)
    requires ps != [] && qs != [] && Without(ps, c) && Without(qs, c)
    requires Joined(ps, [c]) == Joined(qs, [c])
    ensures ps == qs
  {
    var a, b := ps[0], qs[0];
    var s := Joined(ps, [c]);
    assert s[..|a|] == a && (if |ps| > 1 then s[|a|] == c else s == a);
    assert s[..|b|] == b && (if |qs| > 1 then s[|b|] == c else s == b);
    FirstEnds(s, a, b, c);
    FirstEnds(s, b, a, c);
    assert a == b;
    if |ps| > 1 && |qs| > 1 {
      assert Joined(ps[1..], [c]) == s[|a| + 1..] == Joined(qs[1..], [c]);
      SplitUnique(ps[1..], qs[1..], c);
    }
    assert ps == [a] + ps[1..] && qs == [b] + qs[1..];
  }

  lemma FirstEnds(s: seq<byte>, a: seq<byte>, b: seq<byte>, c: byte)
    requires |a| <= |s| && a == s[..|a|] && (|a| < |s| ==> s[|a|] == c)
    requires |b| <= |s| && b == s[..|b|] && c !in b
    ensures |b| <= |a|
  {
    if |a| < |b| {
      NextIn(s, a, b, c);
    }
  }

  lemma NextIn(s: seq<byte>, a: seq<byte>, b: seq<byte>, c: byte)
    requires |a| < |b| <= |s| && s[|a|] == c && b == s[..|b|]
    ensures c in b
  {
    assert b[|a|] == s[|a|];
  }

  /** The pieces from `p` on when the search for the separator goes on at `i`. After a hit it goes on one
      character behind the separator, so that a separator right there is not seen. */
  function StrPieces(s: seq<byte>, sep: seq<byte>, p: nat, i: nat): (ps: seq<seq<byte>>)
    requires sep != [] && p <= i && p <= |s|
    ensures ps != []
    decreases |s| - i
  {
    if i > |s| - |sep| then [s[p..]]
    else if s[i..i + |sep|] == sep then [s[p..i]] + StrPieces(s, sep, i + |sep|, i + |sep| + 1)
    else StrPieces(s, sep, p, i + 1)
  }

  /** The separator occurs in `s` at `from` or later. */
  ghost predicate Contains(s: seq<byte>, sep: seq<byte>, from: nat) {
    exists q :: from <= q && Occurs(Exact, s, sep, q)
  }

  lemma OccursSlice(s: seq<byte>, sep: seq<byte>, q: nat)
    requires q + |sep| <= |s|
    ensures Occurs(Exact, s, sep, q) <==> s[q..q + |sep|] == sep
  {
    if Occurs(Exact, s, sep, q) {
      forall k | 0 <= k < |sep| ensures s[q..q + |sep|][k] == sep[k] {
        assert Same(Exact, sep[k], s[q + k]);
      }
    }
    if s[q..q + |sep|] == sep {
      assert forall k :: 0 <= k < |sep| ==> sep[k] == s[q..q + |sep|][k] == s[q + k];
    }
  }

  /** bsplitstrcb with the callback of bsplitstr. */
  method SplitStrCb(s: seq<byte>, sep: seq<byte>, pos: int) returns (ret: int, pieces: seq<seq<byte>>)
    ensures ret == if 0 <= pos <= |s| then BString.OK else ERR
    ensures ret == ERR ==> pieces == []
    ensures ret == BString.OK ==> Joined(pieces, sep) == s[pos..]
    ensures ret == BString.OK && sep == [] ==>
      |pieces| == |s| - pos && forall k :: 0 <= k < |pieces| ==> pieces[k] == [s[pos + k]]
    ensures ret == BString.OK && |sep| == 1 ==> Without(pieces, sep[0])
    ensures ret == BString.OK && |sep| > 1 ==> pieces == StrPieces(s, sep, pos, pos)
  {
    hide Joined;
    pieces := [];
    if pos < 0 || pos > |s| { return ERR, []; }
    if |sep| == 0 {
      pieces := SplitCharacters(s, pos);
      return BString.OK, pieces;
    }
    if |sep| == 1 {
      assert sep == [sep[0]];
      ret, pieces := SplitCb(s, sep[0], pos);
      return;
    }
    var i, p := pos, pos;
    ghost var all := StrPieces(s, sep, p, i);
    StrPiecesJoin(s, sep, pos, pos);
    while i <= |s| - |sep|
      invariant pos <= p <= i && p <= |s| && all == pieces + StrPieces(s, sep, p, i)
      decreases |s| - i
    {
      if s[i..i + |sep|] == sep {
        Associative3(pieces, [s[p..i]], StrPieces(s, sep, i + |sep|, i + |sep| + 1));
        pieces := pieces + [s[p..i]];
        i := i + |sep|;
        p := i;
      }
      i := i + 1;
    }
    pieces := pieces + [s[p..]];
    ret := BString.OK;
  }

  /** An empty separator parts all characters. */
  method SplitCharacters(s: seq<byte>, pos: nat) returns (pieces: seq<seq<byte>>)
    requires pos <= |s|
    ensures Joined(pieces, []) == s[pos..]
    ensures |pieces| == |s| - pos && forall k :: 0 <= k < |pieces| ==> pieces[k] == [s[pos + k]]
  {
    pieces := [];
    var i := pos;
    while i < |s|
      invariant pos <= i <= |s| && Joined(pieces, []) == s[pos..i]
      invariant |pieces| == i - pos && forall k :: 0 <= k < |pieces| ==> pieces[k] == [s[pos + k]]
    {
      JoinedSnoc(pieces, [s[i]]);
      assert s[pos..i + 1] == s[pos..i] + [s[i]];
      pieces := pieces + [[s[i]]];
      i := i + 1;
    }
    assert s[pos..i] == s[pos..];
  }

  lemma {:induction false} JoinedSnoc(ps: seq<seq<byte>>, a: seq<byte>)
    ensures Joined(ps + [a], []) == Joined(ps, []) + a
  {
    if |ps| > 0 {
      assert (ps + [a])[1..] == ps[1..] + [a];
      JoinedSnoc(ps[1..], a);
    }
  }

  lemma JoinedCons(a: seq<byte>, ps: seq<seq<byte>>, sep: seq<byte>)
    requires ps != []
    ensures Joined([a] + ps, sep) == a + sep + Joined(ps, sep)
  {
    assert ([a] + ps)[1..] == ps;
  }

  lemma JoinedNone(sep: seq<byte>)
    ensures Joined([], sep) == []
  {
  }

  lemma JoinedOne(a: seq<byte>, sep: seq<byte>)
    ensures Joined([a], sep) == a
  {
  }

  lemma ThreeParts(s: seq<byte>, p: nat, i: nat, q: nat)
    requires p <= i <= q <= |s|
    ensures s[p..] == s[p..i] + s[i..q] + s[q..]
  {
  }

  /** Joining the pieces gives the string back. */
  lemma {:induction false} StrPiecesJoin(s: seq<byte>, sep: seq<byte>, p: nat, i: nat)
    requires sep != [] && p <= i && p <= |s|
    ensures StrPieces(s, sep, p, i) != [] && Joined(StrPieces(s, sep, p, i), sep) == s[p..]
    decreases |s| - i
  {
    hide Joined;
    JoinedOne(s[p..], sep);
    if i <= |s| - |sep| {
      if s[i..i + |sep|] == sep {
        var q := i + |sep|;
        StrPiecesJoin(s, sep, q, q + 1);
        JoinedCons(s[p..i], StrPieces(s, sep, q, q + 1), sep);
        ThreeParts(s, p, i, q);
      } else {
        StrPiecesJoin(s, sep, p, i + 1);
      }
    }
  }

  /** A separator is left in a piece, if at all, at the very start of it, and never in the first one. */
  lemma {:induction false} StrPiecesFree(s: seq<byte>, sep: seq<byte>, p: nat, i: nat)
    requires sep != [] && p <= i && p <= |s|
    ensures var ps := StrPieces(s, sep, p, i);
            && !Contains(ps[0], sep, i - p)
            && forall k :: 1 <= k < |ps| ==> !Contains(ps[k], sep, 1)
    decreases |s| - i
  {
    hide Contains, StrPieces;
    StrPiecesCases(s, sep, p, i);
    if i > |s| - |sep| {
      TooShort(s[p..], sep, i - p);
    } else if s[i..i + |sep|] == sep {
      var q := i + |sep|;
      StrPiecesFree(s, sep, q, q + 1);
      TooShort(s[p..i], sep, i - p);
    } else {
      StrPiecesFree(s, sep, p, i + 1);
      NotHere(s, sep, p, i);
    }
  }

  lemma StrPiecesCases(s: seq<byte>, sep: seq<byte>, p: nat, i: nat)
    requires sep != [] && p <= i && p <= |s|
    ensures var ps := StrPieces(s, sep, p, i);
            if i > |s| - |sep| then ps == [s[p..]]
            else if s[i..i + |sep|] == sep then ps == [s[p..i]] + StrPieces(s, sep, i + |sep|, i + |sep| + 1)
            else ps == StrPieces(s, sep, p, i + 1)
  {
  }

  lemma TooShort(a: seq<byte>, sep: seq<byte>, from: nat)
    requires from + |sep| > |a|
    ensures !Contains(a, sep, from)
  {
  }

  lemma NotHere(s: seq<byte>, sep: seq<byte>, p: nat, i: nat)
    requires sep != [] && p <= i && i + |sep| <= |s| && s[i..i + |sep|] != sep
    requires !Contains(StrPieces(s, sep, p, i + 1)[0], sep, i + 1 - p)
    ensures !Contains(StrPieces(s, sep, p, i + 1)[0], sep, i - p)
  {
    var a := StrPieces(s, sep, p, i + 1)[0];
    StrPiecesPrefix(s, sep, p, i + 1);
    if i - p + |sep| <= |a| {
      OccursSlice(a, sep, i - p);
      SubSlice(s, p, p + |a|, i - p, i - p + |sep|);
    }
  }

  lemma {:induction false} StrPiecesPrefix(s: seq<byte>, sep: seq<byte>, p: nat, i: nat)
    requires sep != [] && p <= i && p <= |s|
    ensures var a := StrPieces(s, sep, p, i)[0]; |a| <= |s| - p && a == s[p..p + |a|]
    decreases |s| - i
  {
    if i <= |s| - |sep| && s[i..i + |sep|] != sep {
      StrPiecesPrefix(s, sep, p, i + 1);
    }
  }

  /** The first piece reaches `m` characters exactly when the search meets no separator before. */
  lemma {:induction false} FirstPieceLong(s: seq<byte>, sep: seq<byte>, p: nat, i: nat, m: nat)
    requires sep != [] && p <= i <= p + m && p <= |s|
    ensures |StrPieces(s, sep, p, i)[0]| >= m <==>
      && p + m <= |s| && forall j :: i <= j < p + m ==> !Occurs(Exact, s, sep, j)
    decreases |s| - i
  {
    hide StrPieces;
    StrPiecesCases(s, sep, p, i);
    if i <= |s| - |sep| {
      OccursSlice(s, sep, i);
      if s[i..i + |sep|] != sep && i < p + m {
        FirstPieceLong(s, sep, p, i + 1, m);
      } else if s[i..i + |sep|] != sep {
        StrPiecesPrefix(s, sep, p, i + 1);
        FirstPieceReaches(s, sep, p, i + 1);
      }
    }
  }

  lemma {:induction false} FirstPieceReaches(s: seq<byte>, sep: seq<byte>, p: nat, i: nat)
    requires sep != [] && p <= i <= |s|
    ensures |StrPieces(s, sep, p, i)[0]| >= i - p
    decreases |s| - i
  {
    if i <= |s| - |sep| && s[i..i + |sep|] != sep { FirstPieceReaches(s, sep, p, i + 1); }
  }

  /** The search from `i` on has a hit with another separator right behind it, and finds no third one that
      overlaps with that. */
  ghost predicate Unseen(s: seq<byte>, sep: seq<byte>, i: nat)
    requires sep != []
    decreases |s| - i
  {
    if i > |s| - |sep| then false
    else if s[i..i + |sep|] == sep then
      var q := i + |sep|;
      || (Occurs(Exact, s, sep, q) && forall j :: q < j < q + |sep| ==> !Occurs(Exact, s, sep, j))
      || Unseen(s, sep, q + 1)
    else Unseen(s, sep, i + 1)
  }

  ghost predicate SeparatorLeft(ps: seq<seq<byte>>, sep: seq<byte>, from: nat) {
    exists k :: from <= k < |ps| && Contains(ps[k], sep, 0)
  }

  /** A piece behind a separator still holds a separator exactly when one stands at its very start, where the
      search has not looked. */
  lemma FirstPieceHolds(s: seq<byte>, sep: seq<byte>, q: nat)
    requires sep != [] && q <= |s|
    ensures Contains(StrPieces(s, sep, q, q + 1)[0], sep, 0) <==>
            Occurs(Exact, s, sep, q) && forall j :: q < j < q + |sep| ==> !Occurs(Exact, s, sep, j)
  {
    hide StrPieces;
    var a := StrPieces(s, sep, q, q + 1)[0];
    StrPiecesFree(s, sep, q, q + 1);
    StrPiecesPrefix(s, sep, q, q + 1);
    FirstPieceLong(s, sep, q, q + 1, |sep|);
    assert Contains(a, sep, 0) <==> Occurs(Exact, a, sep, 0);
    if |a| >= |sep| {
      OccursSlice(a, sep, 0);
      OccursSlice(s, sep, q);
      SubSlice(s, q, q + |a|, 0, |sep|);
    }
  }

  /** A separator is left in a piece other than the first exactly in this case; and never in the first one. */
  lemma {:induction false} SeparatorLeftIffUnseen(s: seq<byte>, sep: seq<byte>, p: nat, i: nat)
    requires sep != [] && p <= i && p <= |s|
    ensures SeparatorLeft(StrPieces(s, sep, p, i), sep, 1) <==> Unseen(s, sep, i)
    ensures i == p ==> !Contains(StrPieces(s, sep, p, i)[0], sep, 0)
    decreases |s| - i
  {
    hide StrPieces, Contains, Occurs;
    StrPiecesCases(s, sep, p, i);
    StrPiecesFree(s, sep, p, i);
    var ps := StrPieces(s, sep, p, i);
    if i <= |s| - |sep| {
      if s[i..i + |sep|] == sep {
        var q := i + |sep|;
        var qs := StrPieces(s, sep, q, q + 1);
        SeparatorLeftIffUnseen(s, sep, q, q + 1);
        FirstPieceHolds(s, sep, q);
        assert forall k :: 0 <= k < |qs| ==> ps[k + 1] == qs[k];
        assert SeparatorLeft(ps, sep, 1) <==> SeparatorLeft(qs, sep, 0);
        assert SeparatorLeft(qs, sep, 0) <==> Contains(qs[0], sep, 0) || SeparatorLeft(qs, sep, 1);
      } else {
        SeparatorLeftIffUnseen(s, sep, p, i + 1);
      }
    }
  }

  /** Some piece of the split from `pos` still holds the separator exactly when the search passes one unseen. */
  lemma SplitCleanIff(s: seq<byte>, sep: seq<byte>, pos: nat)
    requires sep != [] && pos <= |s|
    ensures SeparatorLeft(StrPieces(s, sep, pos, pos), sep, 0) <==> Unseen(s, sep, pos)
  {
    hide StrPieces, Contains, Unseen;
    SeparatorLeftIffUnseen(s, sep, pos, pos);
  }

  /** The next separator after a hit is not seen: "abab" split at "ab". */
  lemma AdjacentNotSeen()
    ensures StrPieces([97, 98, 97, 98], [97, 98], 0, 0) == [[], [97, 98]]
  {
    var s: seq<byte> := [97, 98, 97, 98];
    assert s[0..2] == [97, 98];
    assert StrPieces(s, [97, 98], 2, 3) == [[97, 98]];
  }

  /** bjoinblk; the length of the result with its NUL must be an `int`. */
  method JoinBlk(ps: seq<seq<byte>>, sep: seq<byte>) returns (r: Option<seq<byte>>)
    ensures r.None? <==> ps != [] && |Joined(ps, sep)| + 1 > INT_MAX
    ensures r.Some? ==> r.value == Joined(ps, sep)
  {
    hide Joined;
    JoinedNone(sep);
    if |ps| < 1 { return Some([]); }
    JoinedLength(ps, sep);
    var c := Sum(ps);
    if c < 0 { return None; }
    if |sep| != 0 {
      var v := (|ps| - 1) * |sep|;
      if v > INT_MAX - c { return None; }
    }
    var b := ps[0];
    var i := 1;
    assert ps[..1] == [ps[0]];
    JoinedOne(ps[0], sep);
    while i < |ps|
      invariant 1 <= i <= |ps| && b == Joined(ps[..i], sep)
    {
      JoinedNext(ps[..i], ps[i], sep);
      assert ps[..i + 1] == ps[..i] + [ps[i]];
      b := b + sep + ps[i];
      i := i + 1;
    }
    assert ps[..i] == ps;
    r := Some(b);
  }

  /** One more than all pieces together, -1 when that is no `int`. */
  method Sum(ps: seq<seq<byte>>) returns (c: int)
    ensures c == if 1 + Total(ps) > INT_MAX then -1 else 1 + Total(ps)
  {
    var i := 0;
    c := 1;
    while i < |ps|
      invariant 0 <= i <= |ps| && c == 1 + Total(ps[..i]) <= INT_MAX
    {
      var v := |ps[i]|;
      assert ps[..i + 1] == ps[..i] + [ps[i]];
      TotalConcat(ps[..i], [ps[i]]);
      if v > INT_MAX - c {
        assert ps == ps[..i + 1] + ps[i + 1..];
        TotalConcat(ps[..i + 1], ps[i + 1..]);
        return -1;
      }
      c := c + v;
      i := i + 1;
    }
    assert ps[..i] == ps;
  }

  function Total(ps: seq<seq<byte>>): nat {
    if ps == [] then 0 else |ps[0]| + Total(ps[1..])
  }

  lemma {:induction false} TotalConcat(a: seq<seq<byte>>, b: seq<seq<byte>>)
    ensures Total(a + b) == Total(a) + Total(b)
  {
    if a == [] {
      assert a + b == b;
    } else {
      assert (a + b)[1..] == a[1..] + b;
      TotalConcat(a[1..], b);
    }
  }

  lemma {:induction false} JoinedLength(ps: seq<seq<byte>>, sep: seq<byte>)
    requires ps != []
    ensures |Joined(ps, sep)| == Total(ps) + (|ps| - 1) * |sep| && (|ps| - 1) * |sep| >= 0
  {
    if |ps| > 1 {
      JoinedLength(ps[1..], sep);
      assert (|ps| - 1) * |sep| == |sep| + (|ps[1..]| - 1) * |sep|;
    }
  }

  lemma {:induction false} JoinedNext(ps: seq<seq<byte>>, a: seq<byte>, sep: seq<byte>)
    requires ps != []
    ensures Joined(ps + [a], sep) == Joined(ps, sep) + sep + a
  {
    assert (ps + [a])[1..] == ps[1..] + [a];
    if |ps| > 1 {
      JoinedNext(ps[1..], a, sep);
    }
  }
}
