/** bstrlib strings: a buffer of `mlen` bytes that holds a text of `slen` bytes and a final NUL. */
module BString {
  import opened Common
  import opened Bits
  import opened BSearch

  const OK := 0

  /** A sum of two non-negative `int`s as the machine stores it. */
  function Wrap(x: int): int {
    if x >= 0x8000_0000 then x - 0x1_0000_0000 else x
  }

  /** snapUpSize. */
  function SnapUpSize(i: nat): (r: int)
    requires i <= INT_MAX
  {
    if i < 8 then 8 else
    var j := Or(i, Shr(i, 1));
    var j := Or(j, Shr(j, 2));
    var j := Or(j, Shr(j, 4));
    var j := Or(j, Shr(j, 8));
    var j := Or(j, Shr(j, 16));
    if Wrap(j + 1) >= i then j + 1 else i
  }

  /** Below 2^30 the snapped size is a power of two above the request and at most twice it; above, it is
      the request itself. */
  lemma SnapUpSizeIs(i: nat)
    requires i <= INT_MAX
    ensures 8 <= i < 0x4000_0000 ==> SnapUpSize(i) == Pow2(Length(i)) && i < SnapUpSize(i) <= 2 * i
    ensures i < 8 ==> SnapUpSize(i) == 8
    ensures i >= 0x4000_0000 ==> SnapUpSize(i) == i
  {
    hide Or, Shr, AllOnes, TopOnes, Length, Pow2;
    TopOne(i);
    SmearStep(i, 1);
    var j1 := Or(i, Shr(i, 1));
    SmearStep(j1, 2);
    var j2 := Or(j1, Shr(j1, 2));
    SmearStep(j2, 4);
    var j3 := Or(j2, Shr(j2, 4));
    SmearStep(j3, 8);
    var j4 := Or(j3, Shr(j3, 8));
    SmearStep(j4, 16);
    var j5 := Or(j4, Shr(j4, 16));
    BelowPow2(i);
    OnesBelow(j5, 32);
    LengthBounds(i);
  }

  /** The size of a buffer of `mlen` bytes after a request for `olen`. */
  function NewLength(mlen: nat, olen: nat): (r: nat)
    requires olen <= INT_MAX
  {
    if olen < mlen || SnapUpSize(olen) <= mlen then mlen else SnapUpSize(olen)
  }

  /** A request is always met, but with no byte to spare exactly when it lies at 2^30 or above and was not
      met before. */
  lemma NoByteToSpare(mlen: nat, olen: nat)
    requires olen <= INT_MAX && mlen > 0
    ensures NewLength(mlen, olen) >= olen && NewLength(mlen, olen) >= mlen
    ensures NewLength(mlen, olen) == olen <==> mlen <= olen && olen >= 0x4000_0000
    ensures NewLength(mlen, olen) > mlen ==> NewLength(mlen, olen) <= if olen < 0x4000_0000 then 0x4000_0000 else olen
  {
    SnapUpSizeIs(olen);
    if olen < 0x4000_0000 { BelowPow2(olen); }
  }

  lemma OnesBelow(j: nat, w: nat)
    requires TopOnes(j, w) && Length(j) <= w
    ensures j + 1 == Pow2(Length(j))
  {
  }

  lemma BelowPow2(i: nat)
    requires i <= INT_MAX
    ensures Length(i) <= 31
    ensures i < 0x4000_0000 ==> Pow2(Length(i)) <= 0x4000_0000
    ensures i >= 0x4000_0000 ==> Pow2(Length(i)) == 0x8000_0000
  {
    hide Length, Pow2;
    Powers();
    LengthBounds(i);
    LengthAtMost(i, 31);
    if i < 0x4000_0000 {
      LengthAtMost(i, 30);
      Pow2Monotone(Length(i), 30);
    } else {
      if Length(i) <= 30 { Pow2Monotone(Length(i), 30); }
    }
  }

  lemma Powers()
    ensures Pow2(30) == 0x4000_0000 && Pow2(31) == 0x8000_0000
  {
    Pow2Add(15, 15);
    assert Pow2(15) == 0x8000;
  }

  /** The bytes `t` written over those of `s` from `at` on. */
  function Wrote(s: seq<byte>, at: nat, t: seq<byte>): (r: seq<byte>)
    requires at + |t| <= |s|
    ensures |r| == |s| && r[..at] == s[..at] && r[at..at + |t|] == t && r[at + |t|..] == s[at + |t|..]
  {
    s[..at] + t + s[at + |t|..]
  }

  lemma IsWrote(s: seq<byte>, s': seq<byte>, at: nat, t: seq<byte>)
    requires at + |t| <= |s| && |s'| == |s|
    requires forall k :: 0 <= k < |s| ==> s'[k] == if at <= k < at + |t| then t[k - at] else s[k]
    ensures s' == Wrote(s, at, t)
  {
  }

  /** First the tail, then what goes before it. */
  lemma WroteBoth(b: seq<byte>, pos: nat, t: seq<byte>, m: seq<byte>)
    requires pos + |t| + |m| <= |b|
    ensures Wrote(Wrote(b, pos + |t|, m), pos, t)[..pos + |t| + |m|] == b[..pos] + t + m
  {
    var l := pos + |t| + |m|;
    var b' := Wrote(b, pos + |t|, m);
    assert b'[..l] == b[..pos + |t|] + m;
    assert b'[..l][..pos] == b'[..pos] == b[..pos];
    assert b'[..l][pos + |t|..] == m;
    assert Wrote(b', pos, t)[..l] == b'[..l][..pos] + t + b'[..l][pos + |t|..];
  }

  method MemMove(a: array<byte>, dst: nat, src: nat, n: nat)
    requires dst + n <= a.Length && src + n <= a.Length
    modifies a
    ensures a[..] == Wrote(old(a[..]), dst, old(a[src..src + n]))
  {
    ghost var before := a[..];
    forall k | 0 <= k < n {
      a[dst + k] := a[src + k];
    }
    IsWrote(before, a[..], dst, before[src..src + n]);
  }

  method MemCpy(a: array<byte>, dst: nat, t: seq<byte>)
    requires dst + |t| <= a.Length
    modifies a
    ensures a[..] == Wrote(old(a[..]), dst, t)
  {
    ghost var before := a[..];
    forall k | 0 <= k < |t| {
      a[dst + k] := t[k];
    }
    IsWrote(before, a[..], dst, t);
  }

  function Fill(c: byte, n: nat): (s: seq<byte>)
    ensures |s| == n && forall k :: 0 <= k < n ==> s[k] == c
  {
    seq(n, _ => c)
  }

  function Padded(s: seq<byte>, n: nat, fill: byte): (r: seq<byte>) {
    if n <= |s| then s else s + Fill(fill, n - |s|)
  }

  /** The text `s` with the bytes from `pos` to `pos + len` replaced by `t`; a text too short to reach `pos`
      is first padded. */
  function Spliced(s: seq<byte>, pos: nat, len: nat, t: seq<byte>, fill: byte): (r: seq<byte>) {
    Padded(s, pos, fill)[..pos] + t + (if pos + len <= |s| then s[pos + len..] else [])
  }

  /** Deleting what was inserted leaves the padded text. */
  lemma DeleteUndoesInsert(s: seq<byte>, pos: nat, t: seq<byte>, fill: byte)
    ensures Spliced(Spliced(s, pos, 0, t, fill), pos, |t|, [], fill) == Padded(s, pos, fill)
  {
    var p, r := Padded(s, pos, fill), Spliced(s, pos, 0, t, fill);
    assert r == p[..pos] + t + p[pos..];
    assert r[..pos] == p[..pos] && r[pos + |t|..] == p[pos..];
  }

  /** A replacement is a deletion and an insertion, and putting the old bytes back undoes it. */
  lemma ReplaceUndone(s: seq<byte>, pos: nat, len: nat, t: seq<byte>, fill: byte)
    requires pos + len <= |s|
    ensures Spliced(s, pos, len, t, fill) == Spliced(Spliced(s, pos, len, [], fill), pos, 0, t, fill)
    ensures Spliced(Spliced(s, pos, len, t, fill), pos, |t|, s[pos..pos + len], fill) == s
  {
    SplicedParts(s, pos, len, t, fill);
    SplicedParts(s, pos, len, [], fill);
    assert s == s[..pos] + s[pos..pos + len] + s[pos + len..];
  }

  lemma SplicedParts(s: seq<byte>, pos: nat, len: nat, t: seq<byte>, fill: byte)
    requires pos + len <= |s|
    ensures var r := Spliced(s, pos, len, t, fill);
            |r| >= pos + |t| && r[..pos] == s[..pos] && r[pos..pos + |t|] == t && r[pos + |t|..] == s[pos + len..]
  {
  }

  lemma FillPads(b: seq<byte>, s: seq<byte>, pos: nat, fill: byte)
    requires |s| <= pos <= |b| && b[..|s|] == s
    ensures |Padded(s, pos, fill)| == pos && Wrote(b, |s|, Fill(fill, pos - |s|))[..pos] == Padded(s, pos, fill)
  {
  }

  lemma SetSplices(b: seq<byte>, s: seq<byte>, pos: nat, t: seq<byte>, fill: byte)
    requires var p := Padded(s, pos, fill); pos + |t| <= |b| && |p| <= |b| && b[..|p|] == p
    ensures var r := Spliced(s, pos, |t|, t, fill);
            |r| <= |b| && |r| == (if pos + |t| > |s| then pos + |t| else |s|) && Wrote(b, pos, t)[..|r|] == r
  {
    var p, r := Padded(s, pos, fill), Spliced(s, pos, |t|, t, fill);
    assert p[..pos] == b[..|p|][..pos] == b[..pos];
    if pos + |t| < |s| {
      assert s[pos + |t|..] == b[..|p|][pos + |t|..] == b[pos + |t|..|s|];
    }
    assert Wrote(b, pos, t)[..|r|] == r;
  }

  /** Moving the bytes from `pos + len` on to make room for `t`, then copying it in. */
  lemma MoveSplices(b: seq<byte>, s: seq<byte>, pos: nat, len: nat, t: seq<byte>, fill: byte)
    requires pos + len <= |s| <= |b| && |s| - len + |t| <= |b| && b[..|s|] == s
    ensures var b' := Wrote(b, pos + |t|, b[pos + len..|s|]);
            var r := Spliced(s, pos, len, t, fill);
            && |r| == |s| - len + |t| && Wrote(b', pos, t)[..|r|] == r
  {
    var b', r := Wrote(b, pos + |t|, b[pos + len..|s|]), Spliced(s, pos, len, t, fill);
    assert s[..pos] == b[..|s|][..pos] == b[..pos];
    assert s[pos + len..] == b[..|s|][pos + len..] == b[pos + len..|s|];
    WroteBoth(b, pos, t, b[pos + len..|s|]);
  }

  /** The memory moves of bsetstr. */
  method PadAndSet(a: array<byte>, slen: nat, pos: nat, t: seq<byte>, fill: byte) returns (newlen: nat)
    requires slen <= a.Length && pos + |t| <= a.Length
    modifies a
    ensures newlen == (if pos + |t| > slen then pos + |t| else slen)
    ensures a[..newlen] == Spliced(old(a[..slen]), pos, |t|, t, fill)
  {
    hide Wrote, Padded, Spliced, Fill;
    ghost var s := a[..slen];
    newlen := slen;
    if pos > newlen {
      FillPads(a[..], s, pos, fill);
      MemCpy(a, slen, Fill(fill, pos - slen));
      newlen := pos;
    } else {
      NoPadding(s, pos, fill);
    }
    SetSplices(a[..], s, pos, t, fill);
    MemCpy(a, pos, t);
    if pos + |t| > newlen { newlen := pos + |t|; }
    assert a[..newlen] == a[..][..newlen];
  }

  /** The memory moves of binsertblk. */
  method ShiftAndCopy(a: array<byte>, slen: nat, pos: nat, t: seq<byte>, fill: byte) returns (newlen: nat)
    requires slen + |t| <= a.Length && pos + |t| <= a.Length
    modifies a
    ensures newlen == (if pos > slen then pos else slen) + |t|
    ensures a[..newlen] == Spliced(old(a[..slen]), pos, 0, t, fill)
  {
    hide Wrote, Padded, Spliced, Fill;
    ghost var s := a[..slen];
    var d, l := slen + |t|, pos + |t|;
    if l > d {
      FillPads(a[..], s, pos, fill);
      MemCpy(a, slen, Fill(fill, pos - slen));
      SetSplices(a[..], s, pos, t, fill);
      PastEnd(s, pos, t, fill);
      newlen := l;
    } else {
      MoveSplices(a[..], s, pos, 0, t, fill);
      assert a[..][pos..slen] == a[pos..slen];
      MemMove(a, l, pos, d - l);
      newlen := d;
    }
    MemCpy(a, pos, t);
    assert a[..newlen] == a[..][..newlen];
  }

  /** The memory moves of breplace and bdelete. */
  method MoveAndCopy(a: array<byte>, slen: nat, pos: nat, len: nat, t: seq<byte>, fill: byte) returns (newlen: nat)
    requires slen <= a.Length && pos + len <= slen && slen + |t| - len <= a.Length
    modifies a
    ensures newlen == slen + |t| - len
    ensures a[..newlen] == Spliced(old(a[..slen]), pos, len, t, fill)
  {
    hide Wrote, Spliced;
    MoveSplices(a[..], a[..slen], pos, len, t, fill);
    assert a[..][pos + len..slen] == a[pos + len..slen];
    if |t| != len {
      MemMove(a, pos + |t|, pos + len, slen - (pos + len));
    } else {
      WroteSame(a[..], pos + |t|, slen);
    }
    MemCpy(a, pos, t);
    newlen := slen + |t| - len;
    assert a[..newlen] == a[..][..newlen];
  }

  lemma WroteSame(b: seq<byte>, i: nat, j: nat)
    requires i <= j <= |b|
    ensures Wrote(b, i, b[i..j]) == b
  {
  }

  /** Overwriting from `pos` and cutting after the new bytes replaces a section that reaches past the end. */
  lemma StraddleSplices(s: seq<byte>, pos: nat, len: nat, t: seq<byte>, fill: byte)
    requires pos + len >= |s|
    ensures var r := Spliced(s, pos, |t|, t, fill);
            && pos + |t| <= |r| && r[..pos + |t|] == Spliced(s, pos, len, t, fill)
            && |Spliced(s, pos, len, t, fill)| == pos + |t|
            && (pos + |t| >= |s| ==> r == Spliced(s, pos, len, t, fill))
  {
  }

  /** Where a string argument lies: in memory of its own, inside the text of the string it is applied to,
      or it is that string itself. */
  datatype Source = Null | Apart(s: seq<byte>) | Within(at: nat, len: nat) | Itself

  class Bstring {
    var slen: nat
    var mlen: int  // not positive: the string is write protected
    var data: array<byte>

    /** The buffer of a stream is kept without the NUL. */
    ghost predicate Shaped()
      reads this
    {
      slen < data.Length && (mlen > 0 ==> mlen == data.Length <= INT_MAX)
    }

    ghost predicate Valid()
      reads this, data
    {
      Shaped() && data[slen] == 0
    }

    ghost function Text(): (s: seq<byte>)
      reads this, data
      requires Shaped()
      ensures |s| == slen
    {
      data[..slen]
    }

    /** blk2bstr. */
    constructor (s: seq<byte>)
      requires |s| < INT_MAX
      ensures Valid() && Text() == s && mlen == SnapUpSize(|s| + (if |s| != 0 then 1 else 2)) > 0 && fresh(data)
    {
      var i := |s| + (if |s| != 0 then 1 else 2);
      SnapUpSizeIs(i);
      slen := |s|;
      mlen := SnapUpSize(i);
      var x := new byte[SnapUpSize(i)];
      forall k | 0 <= k < |s| { x[k] := s[k]; }
      x[|s|] := 0;
      assert x[..|s|] == s;
      data := x;
    }

    ghost predicate Readable(src: Source)
      reads this
    {
      match src
      case Apart(s) => |s| <= INT_MAX
      case Within(at, len) => at + len <= slen
      case _ => true
    }

    function Bytes(src: Source): (s: seq<byte>)
      reads this, data
      requires Shaped() && Readable(src)
      ensures |s| == Len(src)
    {
      match src
      case Null => []
      case Apart(s) => s
      case Within(at, len) => data[at..at + len]
      case Itself => data[..slen]
    }

    function Len(src: Source): nat
      reads this
    {
      match src
      case Null => 0
      case Apart(s) => |s|
      case Within(_, len) => len
      case Itself => slen
    }

    /** balloc, with memory always granted. */
    method Balloc(olen: int) returns (ret: int)
      requires Shaped() && olen <= INT_MAX
      modifies `data, `mlen
      ensures (old(Valid()) ==> Valid()) && Shaped() && Text() == old(Text()) && (data == old(data) || fresh(data))
      ensures ret == OK <==> old(mlen) > 0 && olen > 0
      ensures ret == OK ==> mlen == data.Length == NewLength(old(mlen), olen) && mlen >= old(mlen) && mlen >= olen
      ensures ret == OK ==> (mlen == olen <==> old(mlen) <= olen && olen >= 0x4000_0000)
      ensures ret != OK ==> ret == ERR && data == old(data) && mlen == old(mlen)
      ensures data != old(data) ==> data[slen] == 0 && mlen > old(mlen)
    {
      if mlen <= 0 || mlen < slen || olen <= 0 { return ERR; }
      hide SnapUpSize;
      NoByteToSpare(mlen, olen);
      if olen >= mlen {
        var len := SnapUpSize(olen);
        if len <= mlen { return OK; }
        var x := new byte[len];
        if 7 * mlen < 8 * slen {
          forall k | 0 <= k < mlen { x[k] := data[k]; }
        } else {
          forall k | 0 <= k < slen { x[k] := data[k]; }
        }
        x[slen] := 0;
        assert x[..slen] == data[..slen];
        data := x;
        mlen := len;
      }
      return OK;
    }

    /** bconcat. `overrun` says that the lengths add up to INT_MAX: the request for one byte more wraps, no room
        is asked for, and the copy goes behind the buffer, where the model stops. */
    method Concat(b1: Source) returns (ret: int, overrun: bool)
      requires Shaped() && Readable(b1)
      modifies this, data
      ensures overrun <==> !b1.Null? && old(mlen) >= old(slen) && old(slen) + old(Len(b1)) == INT_MAX
      ensures overrun ==> ret == OK
      ensures (old(Valid()) || (ret == OK && !overrun) ==> Valid()) && Shaped() && (data == old(data) || fresh(data))
      ensures ret == OK <==> overrun || (!b1.Null? && old(mlen) > 0 && old(slen) + old(Len(b1)) < INT_MAX)
      ensures ret != OK ==> ret == ERR
      ensures Text() == if ret == OK && !overrun then old(Text()) + old(Bytes(b1)) else old(Text())
      ensures ret == ERR || overrun ==> mlen == old(mlen)
      ensures ret == OK && !overrun ==> mlen > 0
      ensures ret == OK && !overrun ==> var size := old(slen) + old(Len(b1)) + 1;
        mlen == if old(mlen) <= size then NewLength(old(mlen), size) else old(mlen)
    {
      hide Wrote, SnapUpSize, NewLength;
      if b1.Null? { return ERR, false; }
      var aux := b1;
      var d, len := slen, Len(b1);
      if mlen - d < 0 || Wrap(d + len) < 0 { return ERR, false; }
      if mlen <= Wrap(d + len + 1) {
        if !b1.Apart? {
          aux := Apart(Bytes(b1));
        }
        ret := Balloc(d + len + 1);
        if ret != OK { return ERR, false; }
      }
      overrun := Wrap(d + len + 1) < 0;
      ret := OK;
      if !overrun {
        assert Text() == old(Text()) && Bytes(aux) == old(Bytes(b1));
        Append(aux);
      }
    }

    /** The last steps of bconcat, in a buffer large enough. */
    method Append(src: Source)
      requires Shaped() && Readable(src) && slen + Len(src) < data.Length
      modifies `slen, data
      ensures Valid() && Text() == old(Text()) + old(Bytes(src))
    {
      hide Wrote;
      var d, len := slen, Len(src);
      AppendWrites(data[..], data[..d], Bytes(src));
      CopyIn(d, src, len);
      ghost var s := data[..][..d + len];
      data[d + len] := 0;
      slen := d + len;
      assert data[..slen] == s;
    }

    /** bBlockCopy of a source to `data + dst`. */
    method CopyIn(dst: nat, src: Source, len: nat)
      requires Shaped() && Readable(src) && len == Len(src) && dst + len <= data.Length
      modifies data
      ensures data[..] == Wrote(old(data[..]), dst, old(Bytes(src)))
    {
      hide Wrote;
      if src.Within? {
        MemMove(data, dst, src.at, len);
      } else if src.Itself? {
        MemMove(data, dst, 0, len);
      } else {
        MemCpy(data, dst, Bytes(src));
      }
    }

    /** bsetstr: overwrite from `pos` on. */
    method SetStr(pos: int, b1: Source, fill: byte) returns (ret: int)
      requires Shaped() && Readable(b1) && pos <= INT_MAX
      modifies this, data
      ensures (old(Valid()) || ret == OK ==> Valid()) && Shaped() && (data == old(data) || fresh(data))
      ensures ret == OK <==> pos >= 0 && old(mlen) > 0 && pos + old(Len(b1)) < INT_MAX
      ensures ret == OK ==> Text() == Spliced(old(Text()), pos, old(Len(b1)), old(Bytes(b1)), fill)
      ensures ret == OK ==> mlen == NewLength(old(mlen), pos + old(Len(b1)) + 1) > 0
      ensures ret != OK ==> ret == ERR && Text() == old(Text()) && mlen == old(mlen)
    {
      hide Spliced, NewLength;
      if pos < 0 || mlen < slen || mlen <= 0 { return ERR; }
      var d: int := pos;
      var aux := b1;
      if !b1.Null? {
        if !b1.Apart? { aux := Apart(Bytes(b1)); }
        d := Wrap(d + Len(aux));
      }
      ret := Balloc(Wrap(d + 1));
      if ret != OK { return ERR; }
      slen := PadAndSet(data, slen, pos, Bytes(aux), fill);
      data[slen] := 0;
    }

    /** binsertblk, with the block given as a source. */
    method InsertBlk(pos: int, blk: Source, fill: byte) returns (ret: int)
      requires Shaped() && Readable(blk) && pos <= INT_MAX
      modifies this, data
      ensures (old(Valid()) || ret == OK ==> Valid()) && Shaped() && (data == old(data) || fresh(data))
      ensures ret == OK <==>
        !blk.Null? && pos >= 0 && old(mlen) > 0 && pos + old(Len(blk)) < INT_MAX && old(slen) + old(Len(blk)) < INT_MAX
      ensures ret == OK ==> Text() == Spliced(old(Text()), pos, 0, old(Bytes(blk)), fill) && mlen > 0
      ensures ret != OK ==> ret == ERR && Text() == old(Text()) && mlen == old(mlen)
    {
      hide Spliced, NewLength;
      var len := Len(blk);
      if blk.Null? || pos < 0 || mlen <= 0 || mlen < slen { return ERR; }
      var d, l := Wrap(slen + len), Wrap(pos + len);
      if d < 0 || l < 0 { return ERR; }
      var aux := if blk.Apart? then blk else Apart(Bytes(blk));
      if l > d {
        ret := Balloc(Wrap(l + 1));
      } else {
        ret := Balloc(Wrap(d + 1));
      }
      if ret != OK { return ERR; }
      slen := ShiftAndCopy(data, slen, pos, aux.s, fill);
      data[slen] := 0;
    }

    /** breplace. In the middle of a text it asks `Balloc` for no room for the final NUL. `overrun` says that
        the NUL would go behind the buffer; the model stops there, with the text in place. */
    method Replace(pos: int, len: int, b2: Source, fill: byte) returns (ret: int, overrun: bool)
      requires Shaped() && Readable(b2) && pos <= INT_MAX && len <= INT_MAX
      modifies this, data
      ensures ret == OK <==>
        && pos >= 0 && len >= 0 && pos + len <= INT_MAX && !b2.Null? && old(mlen) > 0
        && (if pos + len >= old(slen) then pos + old(Len(b2)) < INT_MAX
            else old(slen) + old(Len(b2)) - len <= INT_MAX)
      ensures overrun <==>
        && ret == OK && pos + len < old(slen)
        && var size := old(slen) + old(Len(b2)) - len; old(mlen) <= size && size >= 0x4000_0000
      ensures !overrun ==> (old(Valid()) || ret == OK ==> Valid()) && Shaped() && (data == old(data) || fresh(data))
      ensures ret == OK && !overrun ==> Text() == Spliced(old(Text()), pos, len, old(Bytes(b2)), fill)
      ensures overrun ==> data.Length == slen && data[..] == Spliced(old(Text()), pos, len, old(Bytes(b2)), fill)
      ensures ret != OK ==> ret == ERR && Text() == old(Text()) && mlen == old(mlen)
    {
      hide Spliced, NewLength;
      overrun := false;
      if pos < 0 || len < 0 { return ERR, false; }
      if pos > INT_MAX - len { return ERR, false; }
      var pl := pos + len;
      if b2.Null? || mlen < slen || mlen <= 0 { return ERR, false; }
      if pl >= slen {
        ret := ReplaceEnd(pos, len, b2, fill);
        return;
      }
      var aux := if !b2.Apart? && Offset(b2) < slen then Apart(Bytes(b2)) else b2;
      if Len(aux) > len {
        ret := Balloc(Wrap(slen + Len(aux) - len));
        if ret != OK { return ERR, false; }
      }
      slen := MoveAndCopy(data, slen, pos, len, Bytes(aux), fill);
      ret := OK;
      overrun := slen >= data.Length;
      if overrun {
        assert data[..slen] == data[..];
      } else {
        data[slen] := 0;
      }
    }

    /** The part of breplace for a section that reaches the end of the text. */
    method ReplaceEnd(pos: nat, len: nat, b2: Source, fill: byte) returns (ret: int)
      requires Shaped() && Readable(b2) && slen <= pos + len <= INT_MAX && !b2.Null? && mlen > 0
      modifies this, data
      ensures (old(Valid()) || ret == OK ==> Valid()) && Shaped() && (data == old(data) || fresh(data))
      ensures ret == if pos + old(Len(b2)) < INT_MAX then OK else ERR
      ensures ret == OK ==> Text() == Spliced(old(Text()), pos, len, old(Bytes(b2)), fill)
      ensures ret != OK ==> Text() == old(Text()) && mlen == old(mlen)
    {
      hide Spliced;
      ghost var s, t := Text(), Bytes(b2);
      ret := SetStr(pos, b2, fill);
      if ret < 0 { return; }
      StraddleSplices(s, pos, len, t, fill);
      if pos + Len(b2) < slen {
        slen := pos + Len(b2);
        assert data[..slen] == data[..][..slen];
        data[slen] := 0;
      }
    }

    /** The distance of a source inside this string from the start of its buffer. */
    function Offset(src: Source): nat {
      if src.Within? then src.at else 0
    }

    /** bdelete. `overrun` says that the end of the section is no `int`: wrapped it looks like one inside the
        text, and the move goes outside the buffer, where the model stops. */
    method Delete(pos0: int, len0: int) returns (ret: int, overrun: bool)
      requires Shaped() && pos0 <= INT_MAX && len0 <= INT_MAX
      modifies `slen, data
      ensures overrun <==> old(mlen) > 0 && len0 > 0 && 0 <= pos0 < old(slen) && pos0 + len0 > INT_MAX
      ensures old(Valid()) ==> Valid()
      ensures ret == OK && !overrun && 0 <= pos0 < old(slen) && len0 > 0 ==> Valid()
      ensures Shaped()
      ensures ret == OK <==> old(mlen) > 0 && len0 >= 0 && pos0 + len0 >= (if pos0 < 0 then 0 else pos0)
      ensures ret != OK ==> ret == ERR && Text() == old(Text())
      ensures overrun || (ret == OK && pos0 >= old(slen)) ==> Text() == old(Text())
      ensures ret == OK && !overrun && 0 <= pos0 < old(slen) ==> Text() == Spliced(old(Text()), pos0, len0, [], 0)
      ensures ret == OK && pos0 < 0 ==> Text() == Spliced(old(Text()), 0, pos0 + len0, [], 0)
    {
      var pos, len := pos0, len0;
      if pos < 0 {
        len := len + pos;
        pos := 0;
      }
      if len < 0 || mlen < slen || mlen <= 0 { return ERR, false; }
      if len > 0 && pos < slen {
        var end := Wrap(pos + len);
        if end < 0 { return OK, true; }
        if end >= slen {
          slen := pos;
        } else {
          slen := MoveAndCopy(data, slen, pos, len, [], 0);
        }
        data[slen] := 0;
      }
      return OK, false;
    }
  }

  lemma AppendWrites(b: seq<byte>, s: seq<byte>, t: seq<byte>)
    requires |s| + |t| <= |b| && b[..|s|] == s
    ensures Wrote(b, |s|, t)[..|s| + |t|] == s + t
  {
  }

  lemma NoPadding(s: seq<byte>, pos: nat, fill: byte)
    requires pos <= |s|
    ensures Padded(s, pos, fill) == s
  {
  }

  lemma WroteNothing(b: seq<byte>, at: nat)
    requires at <= |b|
    ensures Wrote(b, at, []) == b
  {
  }

  /** Past the end of the text inserting and overwriting are the same. */
  lemma PastEnd(s: seq<byte>, pos: nat, t: seq<byte>, fill: byte)
    requires |s| < pos
    ensures Spliced(s, pos, |t|, t, fill) == Spliced(s, pos, 0, t, fill)
  {
  }

  /** A replacement that leaves no room for the NUL: one byte of two replaced by 2^30 - 1 of them. */
  method NulOutside() returns (overrun: bool, behind: int)
    ensures overrun && behind == 0
  {
    var b := new Bstring([97, 98]);
    var ret;
    SnapUpSizeIs(3);
    ret, overrun := b.Replace(0, 1, Apart(Fill(99, 0x3fff_ffff)), 0);
    behind := b.slen - b.data.Length;
  }
}
