/** The buffered streams of bstrlib. What a stream has yet to deliver is the text of its buffer followed by
    what the core stream still holds. */
module BStream {
  import opened Common
  import opened BSearch
  import opened BString

  /** The length of the first line: up to and with the first terminator, or all there is. */
  function LineLength(s: seq<byte>, terms: seq<byte>): (n: nat)
    ensures n <= |s|
  {
    if s == [] then 0 else if s[0] in terms then 1 else 1 + LineLength(s[1..], terms)
  }

  predicate Free(s: seq<byte>, terms: seq<byte>) {
    forall k :: 0 <= k < |s| ==> s[k] !in terms
  }

  lemma NotFree(s: seq<byte>, i: nat, terms: seq<byte>)
    requires i < |s| && s[i] in terms
    ensures !Free(s, terms)
  {
  }

  lemma {:induction false} LineSkips(a: seq<byte>, b: seq<byte>, terms: seq<byte>)
    requires Free(a, terms)
    ensures LineLength(a + b, terms) == |a| + LineLength(b, terms)
  {
    if a == [] {
      assert a + b == b;
    } else {
      assert (a + b)[1..] == a[1..] + b;
      LineSkips(a[1..], b, terms);
    }
  }

  /** A line that ends with a terminator has no other; one that does not is the whole text. */
  lemma {:induction false} LineIsShortest(s: seq<byte>, terms: seq<byte>)
    ensures var n := LineLength(s, terms);
            if n > 0 && s[n - 1] in terms then Free(s[..n - 1], terms) else n == |s| && Free(s, terms)
  {
    if s != [] && s[0] !in terms {
      LineIsShortest(s[1..], terms);
      var n := LineLength(s[1..], terms);
      assert s == [s[0]] + s[1..];
      assert n > 0 ==> s[1..][n - 1] == s[n] && s[..n] == [s[0]] + s[1..][..n - 1];
    }
  }

  /** How far the first terminator is; the caller has put one at `from + l` as a sentinel. */
  method Scan(a: array<byte>, from: nat, l: nat, terms: seq<byte>) returns (i: nat)
    requires from + l < a.Length && a[from + l] in terms
    ensures i <= l && a[from + i] in terms && Free(a[from..from + i], terms)
  {
    i := 0;
    while a[from + i] !in terms
      invariant i <= l && Free(a[from..from + i], terms)
      decreases l - i
    {
      i := i + 1;
    }
  }

  /** What one read of the core stream delivers when it is asked for `n` bytes and has `left`: what it is willing
      to, but some byte while there are any. */
  function OneRead(willing: nat, n: nat, left: nat): (l: nat)
    ensures l <= left && (n > 0 && left > 0 ==> l > 0)
  {
    var l := if willing == 0 then 1 else willing;
    var l := if l > n then n else l;
    if l > left then left else l
  }

  /** Of the bytes to come, which one is the first that the last chunk through the buffer begins with, when bsreada
      wants `want` bytes, the buffer holds those from `at` on, `l` of them, and `left` are in the core. */
  function LastStart(chunk: nat -> nat, call: nat, max: nat, want: nat, at: nat, l: nat, left: nat): (i: nat)
    requires max > 0
    ensures l + left > 0 ==> at <= i < at + l + left
    decreases left
  {
    if left == 0 || want <= l then at
    else
      var k := OneRead(chunk(call), if want - l > max then max else want - l, left);
      LastStart(chunk, call + 1, max, want - l, at + l, k, left - k)
  }

  /** One read is as good as many exactly when the core is willing to deliver all there is to deliver. */
  lemma OneReadEnough(willing: nat, n: nat, left: nat)
    requires n > 0
    ensures OneRead(willing, n, left) == n || OneRead(willing, n, left) == left <==>
            willing >= n || willing >= left || n == 1 || left <= 1
  {
  }

  class BStream {
    const buff: Bstring
    var core: seq<byte>       // what the core stream holds
    var calls: nat
    const chunk: nat -> nat   // how much each read of the core stream is willing to deliver
    var isEOF: bool
    var maxBuffSz: nat

    ghost predicate Valid()
      reads this, buff
    {
      && buff.Shaped() && buff.mlen > 0 && 0 < maxBuffSz < INT_MAX
      && (isEOF ==> core == [])
    }

    /** What the stream has yet to deliver. */
    ghost function Unread(): (s: seq<byte>)
      reads this, buff, buff.data
      requires buff.Shaped()
    {
      buff.Text() + core
    }

    /** bsopen. */
    constructor (core: seq<byte>, chunk: nat -> nat, maxBuffSz: nat)
      requires 0 < maxBuffSz < INT_MAX
      ensures Valid() && Unread() == core && this.core == core && this.chunk == chunk && fresh(buff) && fresh(buff.data)
      ensures buff.slen == 0 && this.maxBuffSz == maxBuffSz && calls == 0 && !isEOF
    {
      buff := new Bstring([]);
      this.core, this.chunk, this.maxBuffSz := core, chunk, maxBuffSz;
      calls, isEOF := 0, false;
    }

    /** readFnPtr, with the contract of `fread`: some of the data up to what is asked for, nothing only at
        the end. */
    method ReadCore(a: array<byte>, at: nat, n: nat) returns (l: nat)
      requires n > 0 && at + n <= a.Length
      modifies `core, `calls, a
      ensures l == OneRead(chunk(old(calls)), n, |old(core)|) && calls == old(calls) + 1
      ensures l <= n && l <= |old(core)| && core == old(core)[l..] && (l == 0 <==> old(core) == [])
      ensures a[..] == Wrote(old(a[..]), at, old(core)[..l])
    {
      l := chunk(calls);
      l := if l == 0 then 1 else l;
      l := if l > n then n else l;
      l := if l > |core| then |core| else l;
      MemCpy(a, at, core[..l]);
      core := core[l..];
      calls := calls + 1;
    }

    /** bseof. */
    function Eof(): (b: bool)
      reads this, buff, buff.data
      requires Valid()
      ensures b <==> isEOF && Unread() == []
    {
      isEOF && buff.slen == 0
    }

    /** bsreadlnsa; for one terminator it is bsreadlna. */
    method ReadLineAppend(r: Bstring, terms: seq<byte>) returns (ret: int)
      requires Valid() && r.Valid() && r != buff && r.data != buff.data
      requires r.slen + |Unread()| + maxBuffSz + 1 < INT_MAX
      modifies this, buff, buff.data, r, r.data
      ensures Valid() && r.Valid() && r.data != buff.data && maxBuffSz == old(maxBuffSz)
      ensures old(r.mlen) <= 0 || terms == [] ==> ret == ERR && r.Text() == old(r.Text()) && Unread() == old(Unread())
      ensures old(r.mlen) > 0 && terms != [] ==>
        var n := LineLength(old(Unread()), terms);
        && r.Text() == old(r.Text()) + old(Unread())[..n] && Unread() == old(Unread())[n..]
        && (ret == if old(Unread()) == [] then ERR else OK)
      ensures isEOF <==> old(isEOF) || (old(r.mlen) > 0 && terms != [] && Free(old(Unread()), terms))
      ensures old(r.mlen) > 0 && terms != [] && !Free(old(buff.Text()), terms) ==> buff.Valid()
      ensures old(r.mlen) > 0 && terms != [] && Free(old(buff.Text()), terms) ==>
        && (old(core) == [] ==> buff.slen == 0)
        && (buff.slen <= old(buff.slen) ==>
             && buff.data[buff.slen] == (old(buff.Text()) + terms)[buff.slen]
             && (buff.Valid() <==> (old(buff.Text()) + terms)[buff.slen] == 0))
        && (buff.slen > old(buff.slen) && buff.data == old(buff.data) ==>
             (buff.Valid() <==> old(buff.data[..])[buff.slen] == 0))
    {
      hide Free, LineLength;
      if r.mlen <= 0 || r.mlen < r.slen { return ERR; }
      if |terms| < 1 { return ERR; }
      ghost var u0 := Unread();
      var l := buff.slen;
      var i := ScanBuffer(terms);
      if i < l {
        LineAt(u0, i, terms);
        NotFree(buff.Text(), i, terms);
        NotFree(u0, i, terms);
        assert u0[i + 1..] == buff.Text()[i + 1..] + core;
        TakeBuffered(r, i + 1);
        return OK;
      }
      assert buff.Text()[..l] == buff.Text();
      ghost var scanned := buff.data[..];
      ret := ReadLineBeyond(r, terms);
      assert buff.data[buff.slen] == buff.data[buff.slen..][0] == scanned[buff.slen..][0] == scanned[buff.slen];
    }

    /** A line whose end is not in the buffer. */
    method ReadLineBeyond(r: Bstring, terms: seq<byte>) returns (ret: int)
      requires Valid() && r.Valid() && r.mlen > 0 && r != buff && r.data != buff.data && terms != []
      requires buff.mlen > maxBuffSz && r.slen + |Unread()| + maxBuffSz + 1 < INT_MAX
      requires Free(buff.Text(), terms)
      modifies this, buff, buff.data, r, r.data
      ensures Valid() && r.Valid() && r.data != buff.data && maxBuffSz == old(maxBuffSz)
      ensures var n := LineLength(old(Unread()), terms);
        && r.Text() == old(r.Text()) + old(Unread())[..n] && Unread() == old(Unread())[n..]
      ensures ret == if old(Unread()) == [] then ERR else OK
      ensures isEOF <==> old(isEOF) || Free(old(Unread()), terms)
      ensures old(core) == [] ==> buff.slen == 0
      ensures buff.data == old(buff.data) && buff.data[buff.slen..] == old(buff.data[..])[buff.slen..]
    {
      hide Free, LineLength;
      ghost var r0, u0 := r.Text(), Unread();
      var rlo := r.slen;
      var over;
      ret, over := r.Concat(Apart(buff.data[..buff.slen]));
      AfterBuffer(r0, u0, buff.Text(), core, terms);
      FreeBoth(buff.Text(), core, terms);
      ret := ReadLineCore(r, terms, rlo);
    }

    /** Looks for a terminator in the buffer, with a sentinel put after its text. */
    method ScanBuffer(terms: seq<byte>) returns (i: nat)
      requires Valid() && terms != []
      modifies buff, buff.data
      ensures Valid() && (buff.data == old(buff.data) || fresh(buff.data)) && buff.mlen > maxBuffSz
      ensures buff.slen == old(buff.slen) && buff.Text() == old(buff.Text())
      ensures i <= buff.slen && Free(buff.Text()[..i], terms) && (i < buff.slen ==> buff.Text()[i] in terms)
      ensures buff.data[..buff.slen + 1] == old(buff.Text()) + [terms[0]]
      ensures buff.data == old(buff.data) ==> buff.data[buff.slen + 1..] == old(buff.data[..])[buff.slen + 1..]
    {
      var l := buff.slen;
      var b := buff.Balloc(maxBuffSz + 1);
      assert buff.Text() == buff.data[..l];
      buff.data[l] := terms[0];
      i := Scan(buff.data, 0, l, terms);
      assert buff.data[0..i] == buff.Text()[..i];
    }

    /** Moves the first `n` bytes of the buffer to the end of `r`. */
    method TakeBuffered(r: Bstring, n: nat)
      requires Valid() && r.Shaped() && r.mlen > 0 && r != buff && r.data != buff.data
      requires 0 < n <= buff.slen && r.slen + n < INT_MAX
      modifies buff, buff.data, r, r.data
      ensures Valid() && r.Valid() && r.mlen > 0 && buff.Valid()
      ensures (r.data == old(r.data) || fresh(r.data)) && buff.data == old(buff.data)
      ensures r.Text() == old(r.Text()) + old(buff.Text())[..n] && buff.Text() == old(buff.Text())[n..]
    {
      var ret, over := r.Concat(Apart(buff.data[..n]));
      if ret == OK {
        ret, over := buff.Delete(0, n);
      }
    }

    /** The reads straight into the destination; the buffer holds nothing of interest. */
    method ReadLineCore(r: Bstring, terms: seq<byte>, rlo: nat) returns (ret: int)
      requires Valid() && r.Shaped() && r.mlen > 0 && r != buff && r.data != buff.data && terms != []
      requires rlo <= r.slen && buff.mlen > maxBuffSz && r.slen + |core| + maxBuffSz + 1 < INT_MAX
      modifies this, buff, buff.data, r, r.data
      ensures Valid() && r.Valid() && r.data != buff.data && maxBuffSz == old(maxBuffSz)
      ensures var n := LineLength(old(core), terms);
        && r.Text() == old(r.Text()) + old(core)[..n] && Unread() == old(core)[n..]
      ensures ret == if r.slen == rlo then ERR else OK
      ensures isEOF <==> old(isEOF) || Free(old(core), terms)
      ensures old(core) == [] ==> buff.slen == 0
      ensures buff.data == old(buff.data) && buff.data[buff.slen..] == old(buff.data[..])[buff.slen..]
    {
      hide Scanned, LineLength, Free;
      ghost var r0, c0 := r.Text(), core;
      ScannedNone(r0, c0, terms);
      var done := false;
      ret := OK;
      while !done
        invariant (r.data == old(r.data) || fresh(r.data)) && buff.data == old(buff.data) && maxBuffSz == old(maxBuffSz)
        invariant r != buff && r.data != buff.data
        invariant if done then LineRead(r, r0, c0, terms) && ret == (if r.slen == rlo then ERR else OK)
                  else Reading(r, r0, c0, terms)
        invariant isEOF <==> old(isEOF) || (done && Free(c0, terms))
        invariant c0 == [] ==> core == [] && (done ==> buff.slen == 0)
        invariant buff.data[buff.slen..] == old(buff.data[..])[buff.slen..]
        invariant !done ==> buff.data[..] == old(buff.data[..])
        decreases !done, |core|
      {
        done, ret := ReadLineStep(r, terms, rlo, r0, c0);
      }
    }

    method Extend(r: Bstring, l: nat, ghost t: seq<byte>)
      requires r.Shaped() && r.slen + l < r.data.Length && r.data[..r.slen + l] == t
      modifies r`slen
      ensures r.Shaped() && r.slen == old(r.slen) + l && r.Text() == t
    {
      r.slen := r.slen + l;
    }

    ghost predicate Reading(r: Bstring, r0: seq<byte>, c0: seq<byte>, terms: seq<byte>)
      reads this, buff, r, r.data
    {
      && Valid() && r.Shaped() && r.mlen > 0 && buff.mlen > maxBuffSz
      && Scanned(r0, c0, terms, r.Text(), core)
      && r.slen + |core| == |r0| + |c0| && |r0| + |c0| + maxBuffSz + 1 < INT_MAX
    }

    ghost predicate LineRead(r: Bstring, r0: seq<byte>, c0: seq<byte>, terms: seq<byte>)
      reads this, buff, buff.data, r, r.data
    {
      && Valid() && r.Valid()
      && var n := LineLength(c0, terms);
      && r.Text() == r0 + c0[..n] && Unread() == c0[n..]
    }

    /** One round of the loop. */
    method ReadLineStep(r: Bstring, terms: seq<byte>, rlo: nat, ghost r0: seq<byte>, ghost c0: seq<byte>)
      returns (done: bool, ret: int)
      requires Reading(r, r0, c0, terms) && terms != [] && r != buff && r.data != buff.data && rlo <= |r0|
      modifies this, buff, buff.data, r, r.data
      ensures (r.data == old(r.data) || fresh(r.data)) && buff.data == old(buff.data) && maxBuffSz == old(maxBuffSz)
      ensures done ==> LineRead(r, r0, c0, terms) && ret == if r.slen == rlo then ERR else OK
      ensures !done ==> Reading(r, r0, c0, terms) && |core| < |old(core)|
      ensures isEOF <==> old(isEOF) || (done && Free(c0, terms))
      ensures old(core) == [] ==> done && core == [] && buff.slen == 0
      ensures buff.data[buff.slen..] == old(buff.data[..])[buff.slen..]
      ensures !done ==> buff.data[..] == old(buff.data[..])
    {
      hide Scanned, LineLength, Free, Bstring.Text;
      ghost var t, c := r.Text(), core;
      ScannedLength(r0, c0, terms, t, c);
      var l, i := ReadChunk(r, terms);
      if l <= 0 {
        EndOfCore(r);
        ScannedAll(r0, c0, terms, t);
        return true, if r.slen == rlo then ERR else OK;
      }
      ScannedMore(r0, c0, terms, t, c, l, i);
      if i < l {
        PushBack(r, i + 1, l, t + c[..l]);
        return true, OK;
      }
      Extend(r, l, t + c[..l]);
      done, ret := false, OK;
    }

    /** The core stream has nothing more. */
    method EndOfCore(r: Bstring)
      requires buff.Shaped() && buff.mlen > 0 && 0 < maxBuffSz < INT_MAX && core == []
      requires r.Shaped() && r != buff && r.data != buff.data
      modifies `isEOF, buff`slen, r.data
      ensures Valid() && isEOF && Unread() == [] && r.Valid() && r.Text() == old(r.Text())
    {
      r.data[r.slen] := 0;
      buff.slen := 0;
      isEOF := true;
    }

    /** One read behind the text of `r`, and the search for a terminator in what came. */
    method ReadChunk(r: Bstring, terms: seq<byte>) returns (l: nat, i: nat)
      requires Valid() && r.Shaped() && r.mlen > 0 && r != buff && r.data != buff.data && terms != []
      requires r.slen + maxBuffSz + 1 < INT_MAX
      modifies `core, `calls, r, r.data
      ensures Valid() && r.Shaped() && r.mlen > 0 && (r.data == old(r.data) || fresh(r.data)) && r.slen == old(r.slen)
      ensures l <= maxBuffSz && l <= |old(core)| && core == old(core)[l..] && (l == 0 <==> old(core) == [])
      ensures i <= l && r.slen + l < r.data.Length && r.data[..r.slen + l] == old(r.Text()) + old(core)[..l]
      ensures r.Text() == old(r.Text())
      ensures l > 0 ==> Free(old(core)[..i], terms) && (i < l ==> old(core)[i] in terms)
    {
      var b := r.Balloc(r.slen + maxBuffSz + 1);
      ghost var t := r.Text();
      l, i := ReadAndScan(r.data, r.slen, terms);
      assert r.data[..r.slen] == r.data[..r.slen + l][..r.slen] == t;
    }

    method ReadAndScan(a: array<byte>, at: nat, terms: seq<byte>) returns (l: nat, i: nat)
      requires 0 < maxBuffSz && at + maxBuffSz < a.Length && terms != []
      modifies `core, `calls, a
      ensures i <= l <= maxBuffSz && l <= |old(core)| && core == old(core)[l..] && (l == 0 <==> old(core) == [])
      ensures a[..at + l] == old(a[..at]) + old(core)[..l]
      ensures l > 0 ==> Free(old(core)[..i], terms) && (i < l ==> old(core)[i] in terms)
    {
      ghost var t, c0 := a[..at], core;
      l := ReadBehind(a, at, maxBuffSz);
      i := 0;
      ghost var d := a[..at + l];
      if l > 0 {
        a[at + l] := terms[0];
        assert a[..at + l] == d;
        i := Scan(a, at, l, terms);
        Behind(a[..], t, c0[..l], i);
        assert a[at..at + i] == a[..][at..at + i];
      }
    }

    method ReadBehind(a: array<byte>, at: nat, n: nat) returns (l: nat)
      requires n > 0 && at + n <= a.Length
      modifies `core, `calls, a
      ensures l == OneRead(chunk(old(calls)), n, |old(core)|)
      ensures l <= n && l <= |old(core)| && core == old(core)[l..] && (l == 0 <==> old(core) == [])
      ensures a[..at + l] == old(a[..at]) + old(core)[..l]
    {
      hide Wrote;
      ghost var before, c0 := a[..], core;
      l := ReadCore(a, at, n);
      ReadText(before, a[..], at, c0[..l]);
      assert a[..at + l] == a[..][..at + l] && before[..at] == old(a[..at]);
    }

    /** The end of a line found at the first `i` of the `l` bytes behind the text of `r`: they join the text, the
        rest goes to the buffer. */
    method PushBack(r: Bstring, i: nat, l: nat, ghost t: seq<byte>)
      requires Valid() && r.Shaped() && r.mlen > 0 && r != buff && r.data != buff.data
      requires i <= l <= maxBuffSz < buff.mlen && r.slen + l < r.data.Length && r.data[..r.slen + l] == t
      modifies buff, buff.data, r, r.data
      ensures Valid() && r.Valid() && r.data == old(r.data) && r.mlen > 0 && buff.data == old(buff.data)
      ensures r.slen == old(r.slen) + i && r.Text() == t[..r.slen] && buff.Text() == t[r.slen..]
      ensures buff.data[buff.slen..] == old(buff.data[..])[buff.slen..]
    {
      r.slen := r.slen + i;
      buff.slen := l - i;
      assert r.data[r.slen..r.slen + l - i] == t[r.slen..] && r.data[..r.slen] == t[..r.slen];
      MemCpy(buff.data, 0, r.data[r.slen..r.slen + l - i]);
      r.data[r.slen] := 0;
    }

    /** bsreada. */
    method ReadAppend(r: Bstring, n0: int) returns (ret: int)
      requires Valid() && r.Valid() && r != buff && r.data != buff.data
      requires r.slen + |Unread()| + maxBuffSz + 1 < INT_MAX
      modifies this, buff, buff.data, r, r.data
      ensures Valid() && r.Valid() && r.data != buff.data && maxBuffSz == old(maxBuffSz)
      ensures old(r.mlen) <= 0 || n0 <= 0 || n0 > INT_MAX - old(r.slen) ==>
        ret == ERR && r.Text() == old(r.Text()) && Unread() == old(Unread())
      ensures old(r.mlen) > 0 && 0 < n0 <= INT_MAX - old(r.slen) ==>
        && Taken(old(r.Text()), old(Unread()), r.Text(), Unread()) && r.slen - old(r.slen) <= n0
        && (ret == if r.slen == old(r.slen) then ERR else OK) && (ret == ERR <==> old(Unread()) == [])
        && r.slen - old(r.slen) == (
             if old(ReadsDirectly(r, n0)) then OneRead(chunk(old(calls)), n0, |old(core)|)
             else if n0 < |old(Unread())| then n0 else |old(Unread())|)
        && (r.slen - old(r.slen) == n0 || Unread() == [] <==>
             || !old(ReadsDirectly(r, n0)) || n0 == 1 || |old(core)| <= 1
             || chunk(old(calls)) >= n0 || chunk(old(calls)) >= |old(core)|)
      ensures
        old(r.mlen <= 0 || n0 <= 0 || n0 > INT_MAX - r.slen || ReadsDirectly(r, n0) || (isEOF && buff.slen == 0)) ==>
        (buff.Valid() <==> old(buff.Valid()))
      ensures isEOF <==>
        || old(isEOF) || (old(r.mlen) > 0 && 0 < n0 <= INT_MAX - old(r.slen) &&
             if old(ReadsDirectly(r, n0)) then old(core) == [] else |old(Unread())| < n0)
      ensures old(ReadsThroughBuffer(r, n0)) && |old(Unread())| >= n0 ==> buff.Valid()
      ensures old(ReadsThroughBuffer(r, n0)) && 0 < |old(Unread())| < n0 ==>
        var last := LastStart(chunk, old(calls), maxBuffSz, n0, 0, old(buff.slen), |old(core)|);
        buff.slen == 0 && (buff.Valid() <==> old(Unread())[last] == 0)
      ensures old(ReadsThroughBuffer(r, n0)) && old(Unread()) == [] ==>
        buff.slen == 0 && (buff.Valid() <==> buff.data != old(buff.data) || old(buff.Valid()))
    {
      hide OneRead, LastStart, Taken;
      ghost var r0, u0 := r.Text(), Unread();
      TakenNone(r0, u0);
      NothingLeft(chunk(calls), n0);
      if n0 > 0 { OneReadEnough(chunk(calls), n0, |core|); }
      if r.mlen <= 0 || r.mlen < r.slen || n0 <= 0 { return ERR; }
      if n0 > INT_MAX - r.slen { return ERR; }
      var n := n0 + r.slen;
      if 0 == buff.slen {
        if isEOF { return ERR; }
        if r.mlen > n {
          NothingBuffered();
          ret := ReadDirectly(r, n);
          NothingBuffered();
          TakenLength(r0, u0, r.Text(), Unread());
          return;
        }
      }
      ret := ReadThroughBuffer(r, n);
      TakenLength(r0, u0, r.Text(), Unread());
    }

    lemma NothingBuffered()
      requires buff.Shaped() && buff.slen == 0
      ensures Unread() == core
    {
    }

    /** bsreada makes do with one read: nothing is buffered, and the destination has room for all. */
    predicate ReadsDirectly(r: Bstring, n0: int)
      reads this, buff, r
    {
      buff.slen == 0 && r.mlen > n0 + r.slen
    }

    /** Otherwise, unless it fails at once, it reads through the buffer. */
    predicate ReadsThroughBuffer(r: Bstring, n0: int)
      reads this, buff, r
    {
      && r.mlen > 0 && 0 < n0 <= INT_MAX - r.slen && !ReadsDirectly(r, n0)
      && !(isEOF && buff.slen == 0)
    }

    /** With nothing buffered and room enough: one read into the destination. */
    method ReadDirectly(r: Bstring, n: nat) returns (ret: int)
      requires Valid() && r.Valid() && r.mlen > n > r.slen && r != buff && r.data != buff.data && buff.slen == 0
      modifies `core, `calls, `isEOF, r, r.data
      ensures Valid() && r.Valid() && r.data == old(r.data) && r.slen <= n
      ensures Taken(old(r.Text()), old(core), r.Text(), core)
      ensures r.slen - old(r.slen) == OneRead(chunk(old(calls)), n - old(r.slen), |old(core)|)
      ensures (ret == if r.slen == old(r.slen) then ERR else OK) && (ret == ERR <==> old(core) == [])
      ensures isEOF <==> old(isEOF) || old(core) == []
    {
      hide OneRead, Taken;
      var at := r.slen;
      ghost var r0, c0 := r.Text(), core;
      assert r.data[..at] == r0;
      var l := ReadBehind(r.data, at, n - at);
      ghost var t := r.data[..at + l];
      assert t == r0 + c0[..l] && r.data[..at] == t[..at] == r0;
      TakenSome(r0, c0, l);
      if 0 >= l || l > n - at {
        isEOF := true;
        r.data[at] := 0;
        return ERR;
      }
      r.slen := r.slen + l;
      r.data[r.slen] := 0;
      assert r.Text() == t;
      ret := OK;
    }

    /** Otherwise the reads go through the buffer until there is enough, or no more. */
    method ReadThroughBuffer(r: Bstring, n: nat) returns (ret: int)
      requires Valid() && r.Valid() && r.mlen > 0 && r.slen < n && r != buff && r.data != buff.data
      requires r.slen + |Unread()| + maxBuffSz + 1 < INT_MAX
      modifies this, buff, buff.data, r, r.data
      ensures Valid() && r.Valid() && r.data != buff.data && maxBuffSz == old(maxBuffSz)
      ensures Taken(old(r.Text()), old(Unread()), r.Text(), Unread()) && r.slen <= n
      ensures (ret == if r.slen == old(r.slen) then ERR else OK) && (ret == ERR <==> old(Unread()) == [])
      ensures r.slen == n || Unread() == []
      ensures isEOF <==> old(isEOF) || |old(Unread())| < n - old(r.slen)
      ensures |old(Unread())| >= n - old(r.slen) ==> buff.Valid()
      ensures 0 < |old(Unread())| < n - old(r.slen) ==>
        var last := LastStart(chunk, old(calls), maxBuffSz, n - old(r.slen), 0, old(buff.slen), |old(core)|);
        buff.slen == 0 && buff.data[0] == old(Unread())[last]
      ensures old(Unread()) == [] ==>
        buff.slen == 0 && buff.data[0] == if buff.data == old(buff.data) then old(buff.data[0]) else 0
    {
      hide Taken, LastStart, OneRead;
      ghost var r0, u0 := r.Text(), Unread();
      var orslen, l := r.slen, buff.slen;
      ret := buff.Balloc(maxBuffSz + 1);
      TakenNone(r0, u0);
      assert buff.data[..l] == buff.Text();
      ghost var last := LastStart(chunk, calls, maxBuffSz, n - r.slen, 0, l, |core|);
      ghost var first := buff.data[0];
      ghost var moved := buff.data;
      var done := false;
      while !done
        invariant (r.data == old(r.data) || fresh(r.data)) && buff.data == moved
        invariant r != buff && r.data != buff.data && 0 < maxBuffSz == old(maxBuffSz) && orslen == |r0|
        invariant isEOF <==> old(isEOF) || (done && r.slen < n)
        invariant if done then BytesRead(r, n, r0, u0, last, first) else Filling(r, n, l, r0, u0, last, first)
        decreases !done, |core|
      {
        done, l := ReadStep(r, n, l, r0, u0, last, first);
      }
      TakenLength(r0, u0, r.Text(), Unread());
      ret := if r.slen == orslen then ERR else OK;
    }

    /** The first `l` bytes in the buffer are what was read last. */
    ghost predicate Filling(r: Bstring, n: nat, l: nat, r0: seq<byte>, u0: seq<byte>, last: nat, first: byte)
      reads this, buff, buff.data, r, r.data
    {
      && buff.Shaped() && buff.mlen > maxBuffSz && 0 < maxBuffSz < INT_MAX && l < buff.mlen && (isEOF ==> core == [])
      && r.Valid() && r.mlen > 0 && |r0| <= r.slen < n && r.slen + l + |core| == |r0| + |u0| < INT_MAX
      && Taken(r0, u0, r.Text(), buff.data[..l] + core)
      && LastStart(chunk, calls, maxBuffSz, n - r.slen, r.slen - |r0|, l, |core|) == last
      && (l == 0 ==> r.slen == |r0|) && (u0 == [] ==> buff.data[0] == first)
    }

    ghost predicate BytesRead(r: Bstring, n: nat, r0: seq<byte>, u0: seq<byte>, last: nat, first: byte)
      reads this, buff, buff.data, r, r.data
    {
      && Valid() && r.Valid() && Taken(r0, u0, r.Text(), Unread()) && |r0| <= r.slen <= n
      && (r.slen == |r0| <==> u0 == []) && (r.slen == n || Unread() == [])
      && (if r.slen == n then buff.Valid()
          else if u0 == [] then buff.data[0] == first
          else last < |u0| && buff.data[0] == u0[last])
    }

    /** One round of the loop. */
    method ReadStep(r: Bstring, n: nat, l0: nat, ghost r0: seq<byte>, ghost u0: seq<byte>, ghost last: nat,
                    ghost first: byte)
      returns (done: bool, l: nat)
      requires Filling(r, n, l0, r0, u0, last, first) && r != buff && r.data != buff.data
      modifies this, buff, buff.data, r, r.data
      ensures (r.data == old(r.data) || fresh(r.data)) && buff.data == old(buff.data) && maxBuffSz == old(maxBuffSz)
      ensures done ==> BytesRead(r, n, r0, u0, last, first)
      ensures !done ==> Filling(r, n, l, r0, u0, last, first) && |core| < |old(core)|
      ensures isEOF <==> old(isEOF) || (done && r.slen < n)
    {
      hide Filling, BytesRead;
      l := l0;
      if l + r.slen >= n {
        FinishRead(r, n, l, r0, u0, last, first);
        return true, l;
      }
      done, l := Refill(r, n, l, r0, u0, last, first);
    }

    /** What the buffer holds is all that is still asked for. */
    method FinishRead(r: Bstring, n: nat, l: nat, ghost r0: seq<byte>, ghost u0: seq<byte>, ghost last: nat,
                      ghost first: byte)
      requires Filling(r, n, l, r0, u0, last, first) && r != buff && r.data != buff.data && l + r.slen >= n
      modifies this, buff, buff.data, r, r.data
      ensures (r.data == old(r.data) || fresh(r.data)) && buff.data == old(buff.data) && maxBuffSz == old(maxBuffSz)
      ensures BytesRead(r, n, r0, u0, last, first) && isEOF == old(isEOF) && r.slen == n
    {
      hide Taken, Bstring.Text, LastStart, OneRead;
      ghost var t, b, c := r.Text(), buff.data[..l], core;
      LastRound(r, n - r.slen, l, b);
      TakenPart(r0, u0, t, b, c, n - |t|);
      TakenLength(r0, u0, r.Text(), Unread());
    }

    /** The buffer is emptied and read into again. */
    method Refill(r: Bstring, n: nat, l0: nat, ghost r0: seq<byte>, ghost u0: seq<byte>, ghost last: nat,
                  ghost first: byte)
      returns (done: bool, l: nat)
      requires Filling(r, n, l0, r0, u0, last, first) && r != buff && r.data != buff.data && l0 + r.slen < n
      modifies this, buff, buff.data, r, r.data
      ensures (r.data == old(r.data) || fresh(r.data)) && buff.data == old(buff.data) && maxBuffSz == old(maxBuffSz)
      ensures done ==> BytesRead(r, n, r0, u0, last, first)
      ensures !done ==> Filling(r, n, l, r0, u0, last, first) && |core| < |old(core)|
      ensures isEOF <==> old(isEOF) || (done && r.slen < n)
    {
      hide Taken, Bstring.Text, LastStart, OneRead;
      ghost var t, b, c := r.Text(), buff.data[..l0], core;
      LastStartNext(chunk, calls, maxBuffSz, n - r.slen, r.slen - |r0|, l0, |core|);
      TakenFirst(r0, u0, t, b, c);
      l := Round(r, n, l0);
      TakenMore(r0, u0, t, b, c);
      done := l <= 0;
      if done {
        EndOfCore(r);
        assert buff.data[..0] + core == [];
        TakenLength(r0, u0, r.Text(), []);
      }
    }

    /** All that is buffered goes to `r` and the buffer is refilled. */
    method Round(r: Bstring, n: nat, l0: nat) returns (l: nat)
      requires buff.Shaped() && buff.mlen > maxBuffSz > 0 && l0 < buff.mlen && r.Valid() && r.mlen > 0
      requires r != buff && r.data != buff.data && r.slen + l0 < n && r.slen + l0 + |core| < INT_MAX
      modifies `core, `calls, buff.data, r, r.data
      ensures buff.Shaped() && r.Valid() && r.mlen > 0 && (r.data == old(r.data) || fresh(r.data))
      ensures r.slen == old(r.slen) + l0 && r.Text() == old(r.Text()) + old(buff.data[..l0])
      ensures l <= maxBuffSz && buff.data[..l] + core == old(core) && (l == 0 <==> old(core) == [])
      ensures calls == old(calls) + 1
      ensures var want := n - old(r.slen) - l0;
        l == OneRead(chunk(old(calls)), if want > maxBuffSz then maxBuffSz else want, |old(core)|)
      ensures old(core) == [] ==> buff.data[..] == old(buff.data[..])
    {
      hide Wrote, OneRead, Bstring.Text;
      var ret, over := r.Concat(Apart(buff.data[..l0]));
      l := n - r.slen;
      if l > maxBuffSz { l := maxBuffSz; }
      ghost var before, c := buff.data[..], core;
      l := ReadCore(buff.data, 0, l);
      ReadText(before, buff.data[..], 0, c[..l]);
      assert buff.data[..l] == c[..l] && c == c[..l] + core;
      WroteNothing(before, 0);
    }

    /** The first `x` of the `l` bytes in the buffer are all that is still asked for. */
    method LastRound(r: Bstring, x: nat, l: nat, ghost b: seq<byte>)
      requires buff.Shaped() && buff.mlen > maxBuffSz > 0 && l < buff.mlen && r.Valid() && r.mlen > 0
      requires r != buff && r.data != buff.data && 0 < x <= l && r.slen + x < INT_MAX
      requires b == buff.data[..l] && (isEOF ==> core == [])  && 0 < maxBuffSz < INT_MAX
      modifies buff, buff.data, r, r.data
      ensures Valid() && r.Valid() && r.mlen > 0 && buff.Valid()
      ensures (r.data == old(r.data) || fresh(r.data)) && buff.data == old(buff.data)
      ensures r.slen == old(r.slen) + x && r.Text() == old(r.Text()) + b[..x] && buff.Text() == b[x..]
    {
      buff.slen := l;
      TakeBuffered(r, x);
    }

    /** bsunread. */
    method PutBack(b: Source) returns (ret: int)
      requires Valid() && buff.Readable(b)
      modifies buff, buff.data
      ensures Valid() && (buff.data == old(buff.data) || fresh(buff.data))
      ensures ret == if !b.Null? && old(buff.slen) + old(buff.Len(b)) < INT_MAX then OK else ERR
      ensures Unread() == if ret == OK then old(buff.Bytes(b)) + old(Unread()) else old(Unread())
    {
      ret := buff.InsertBlk(0, b, 63);
    }
  }

  lemma NothingLeft(willing: nat, n: int)
    ensures n > 0 ==> OneRead(willing, n, 0) == 0
  {
  }

  /** `t` is `r0` with what was taken from `u0`, and `rest` is what was not. */
  ghost predicate Taken(r0: seq<byte>, u0: seq<byte>, t: seq<byte>, rest: seq<byte>) {
    var k := |t| - |r0|;
    0 <= k <= |u0| && t == r0 + u0[..k] && rest == u0[k..]
  }

  lemma TakenPart(r0: seq<byte>, u0: seq<byte>, t: seq<byte>, b: seq<byte>, c: seq<byte>, x: nat)
    requires Taken(r0, u0, t, b + c) && x <= |b|
    ensures Taken(r0, u0, t + b[..x], b[x..] + c)
  {
    assert b + c == b[..x] + (b[x..] + c);
    TakenMore(r0, u0, t, b[..x], b[x..] + c);
  }

  /** One round further, the last chunk begins where it did. */
  lemma LastStartNext(chunk: nat -> nat, call: nat, max: nat, want: nat, at: nat, l: nat, left: nat)
    requires max > 0 && l < want
    ensures left == 0 ==> LastStart(chunk, call, max, want, at, l, left) == at
    ensures left > 0 ==>
      var k := OneRead(chunk(call), if want - l > max then max else want - l, left);
      && k <= left
      && LastStart(chunk, call, max, want, at, l, left) ==
           LastStart(chunk, call + 1, max, want - l, at + l, k, left - k)
  {
    hide OneRead;
  }

  lemma TakenFirst(r0: seq<byte>, u0: seq<byte>, t: seq<byte>, b: seq<byte>, c: seq<byte>)
    requires Taken(r0, u0, t, b + c)
    ensures b != [] ==> 0 <= |t| - |r0| < |u0| && b[0] == u0[|t| - |r0|]
  {
    assert b != [] ==> (b + c)[0] == b[0];
  }

  lemma TakenSome(r0: seq<byte>, u0: seq<byte>, l: nat)
    requires l <= |u0|
    ensures Taken(r0, u0, r0 + u0[..l], u0[l..])
    ensures l == 0 ==> Taken(r0, u0, r0, u0[l..])
  {
  }

  lemma TakenNone(r0: seq<byte>, u0: seq<byte>)
    ensures Taken(r0, u0, r0, u0)
  {
  }

  lemma TakenLength(r0: seq<byte>, u0: seq<byte>, t: seq<byte>, rest: seq<byte>)
    requires Taken(r0, u0, t, rest)
    ensures |t| + |rest| == |r0| + |u0| && |t| >= |r0|
  {
  }

  lemma TakenMore(r0: seq<byte>, u0: seq<byte>, t: seq<byte>, a: seq<byte>, b: seq<byte>)
    requires Taken(r0, u0, t, a + b)
    ensures Taken(r0, u0, t + a, b)
  {
    var k := |t| - |r0|;
    assert u0[k..k + |a|] == u0[k..][..|a|] == a;
    assert u0[..k + |a|] == u0[..k] + a;
    assert u0[k + |a|..] == u0[k..][|a|..] == b;
  }

  /** `t` is `r0` with what was read of `c0` so far, none of it a terminator, and `c` is the rest. */
  ghost predicate Scanned(r0: seq<byte>, c0: seq<byte>, terms: seq<byte>, t: seq<byte>, c: seq<byte>) {
    var k := |t| - |r0|;
    0 <= k <= |c0| && Free(c0[..k], terms) && t == r0 + c0[..k] && c == c0[k..]
  }

  lemma SliceSum(s: seq<byte>, k: nat, i: nat)
    requires k + i <= |s|
    ensures s[..k + i] == s[..k] + s[k..][..i] && s[k..][i..] == s[k + i..]
    ensures k + i < |s| ==> s[k..][i] == s[k + i]
  {
  }

  lemma FreeBoth(a: seq<byte>, b: seq<byte>, terms: seq<byte>)
    requires Free(a, terms)
    ensures Free(a + b, terms) <==> Free(b, terms)
  {
    assert forall k :: 0 <= k < |b| ==> (a + b)[|a| + k] == b[k];
  }

  lemma FreeConcat(a: seq<byte>, b: seq<byte>, terms: seq<byte>)
    requires Free(a, terms) && Free(b, terms)
    ensures Free(a + b, terms)
  {
  }

  lemma CutSum(t: seq<byte>, c: seq<byte>, i: nat, l: nat)
    requires i <= l <= |c|
    ensures (t + c[..l])[..|t| + i] == t + c[..i] && (t + c[..l])[|t| + i..] + c[l..] == c[i..]
  {
  }

  lemma ScannedNone(r0: seq<byte>, c0: seq<byte>, terms: seq<byte>)
    ensures Scanned(r0, c0, terms, r0, c0)
  {
  }

  lemma ScannedLength(r0: seq<byte>, c0: seq<byte>, terms: seq<byte>, t: seq<byte>, c: seq<byte>)
    requires Scanned(r0, c0, terms, t, c)
    ensures |r0| <= |t|
  {
  }

  lemma ScannedAll(r0: seq<byte>, c0: seq<byte>, terms: seq<byte>, t: seq<byte>)
    requires Scanned(r0, c0, terms, t, [])
    ensures var n := LineLength(c0, terms); n == |c0| && t == r0 + c0[..n] && [] == c0[n..]
    ensures Free(c0, terms)
  {
    LineSkips(c0, [], terms);
    assert c0 == c0 + [];
  }

  /** One chunk further: the search goes on, or the line ends at `i`. */
  lemma ScannedMore(r0: seq<byte>, c0: seq<byte>, terms: seq<byte>, t: seq<byte>, c: seq<byte>, l: nat, i: nat)
    requires Scanned(r0, c0, terms, t, c) && i <= l <= |c|
    requires Free(c[..i], terms) && (i < l ==> c[i] in terms)
    ensures i == l ==> Scanned(r0, c0, terms, t + c[..l], c[l..])
    ensures i < l ==> !Free(c0, terms)
    ensures i < l ==> var n, d := LineLength(c0, terms), |t| + i + 1;
                      r0 + c0[..n] == (t + c[..l])[..d] && c0[n..] == (t + c[..l])[d..] + c[l..]
  {
    hide LineLength, Free;
    if i < l {
      LineEnds(r0, c0, terms, t, c, i);
      NotFree(c0, |t| - |r0| + i, terms);
      CutSum(t, c, i + 1, l);
    } else {
      ScannedOn(r0, c0, terms, t, c, l);
    }
  }

  lemma ScannedOn(r0: seq<byte>, c0: seq<byte>, terms: seq<byte>, t: seq<byte>, c: seq<byte>, l: nat)
    requires Scanned(r0, c0, terms, t, c) && l <= |c| && Free(c[..l], terms)
    ensures Scanned(r0, c0, terms, t + c[..l], c[l..])
  {
    hide Free;
    var k := |t| - |r0|;
    SliceSum(c0, k, l);
    FreeConcat(c0[..k], c[..l], terms);
    assert r0 + (c0[..k] + c[..l]) == t + c[..l];
  }

  lemma LineEnds(r0: seq<byte>, c0: seq<byte>, terms: seq<byte>, t: seq<byte>, c: seq<byte>, i: nat)
    requires Scanned(r0, c0, terms, t, c) && i < |c| && Free(c[..i], terms) && c[i] in terms
    ensures var n := LineLength(c0, terms); r0 + c0[..n] == t + c[..i + 1] && c0[n..] == c[i + 1..]
  {
    hide Free, LineLength;
    var k := |t| - |r0|;
    SliceSum(c0, k, i);
    FreeConcat(c0[..k], c[..i], terms);
    LineAt(c0, k + i, terms);
    SliceSum(c0, k, i + 1);
    Associative3(r0, c0[..k], c[..i + 1]);
  }

  lemma Behind(b: seq<byte>, t: seq<byte>, c: seq<byte>, i: nat)
    requires |t| + |c| <= |b| && b[..|t| + |c|] == t + c && i <= |c|
    ensures b[|t|..|t| + i] == c[..i] && (i < |c| ==> b[|t| + i] == c[i])
  {
    assert b[|t|..|t| + i] == b[..|t| + |c|][|t|..][..i];
    assert i < |c| ==> b[|t| + i] == b[..|t| + |c|][|t| + i];
  }

  /** A text and what a read put after it. */
  lemma ReadText(b: seq<byte>, b': seq<byte>, at: nat, t: seq<byte>)
    requires at + |t| <= |b| && b' == Wrote(b, at, t)
    ensures b'[..at] == b[..at] && b'[at..at + |t|] == t && b'[..at + |t|] == b[..at] + t
  {
  }

  lemma AfterBuffer(r0: seq<byte>, s: seq<byte>, b: seq<byte>, c: seq<byte>, terms: seq<byte>)
    requires s == b + c && Free(b, terms)
    ensures var n, m := LineLength(s, terms), LineLength(c, terms);
            && n == |b| + m && (n == 0 <==> s == []) && r0 + b + c[..m] == r0 + s[..n] && c[m..] == s[n..]
  {
    hide LineLength, Free;
    LineSkips(b, c, terms);
    LineNotEmpty(s, terms);
    var m := LineLength(c, terms);
    assert s[..|b| + m] == b + c[..m];
    Associative3(r0, b, c[..m]);
  }

  lemma LineNotEmpty(s: seq<byte>, terms: seq<byte>)
    ensures LineLength(s, terms) == 0 <==> s == []
  {
  }

  lemma LineAt(s: seq<byte>, i: nat, terms: seq<byte>)
    requires i < |s| && Free(s[..i], terms) && s[i] in terms
    ensures LineLength(s, terms) == i + 1
  {
    assert s == s[..i] + s[i..];
    LineSkips(s[..i], s[i..], terms);
  }

  /** A core stream that delivers one byte a time: of two bytes asked for, bsreada leaves one. */
  method ShortRead() returns (ret: int, got: nat, left: nat)
    ensures ret == OK && got == 1 && left == 1
  {
    var s := new BStream([65, 66], _ => 1, 8);
    var r := new Bstring([]);
    ret := s.ReadAppend(r, 2);
    got, left := r.slen, s.buff.slen + |s.core|;
    TakenLength([], [65, 66], r.Text(), s.Unread());
  }

  /** At the end of the core stream bsreadlna leaves the sentinel where the final NUL of the buffer should be. */
  method SentinelLeft() returns (slen: nat, c: byte)
    ensures slen == 0 && c == 10
  {
    var s := new BStream([], _ => 1, 8);
    var r := new Bstring([]);
    var ret := s.ReadLineAppend(r, [10]);
    slen, c := s.buff.slen, s.buff.data[0];
  }
}
