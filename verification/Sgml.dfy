/** bSGMLEncode of bstrlib's auxiliary functions: four replacement passes over one string. */
module Sgml {
  import opened Common
  import opened BSearch
  import opened BString
  import opened FindReplace

  const AMP: byte := 38
  const QUOT: byte := 34
  const LT: byte := 60
  const GT: byte := 62

  /** What each pass looks for, in the order of the passes. */
  function Found(i: nat): (c: byte)
    requires i < 4
  {
    if i == 0 then AMP else if i == 1 then QUOT else if i == 2 then LT else GT
  }

  /** "&amp;", "&quot;", "&lt;", "&gt;". */
  function Entity(i: nat): (t: seq<byte>)
    requires i < 4
  {
    if i == 0 then [38, 97, 109, 112, 59]
    else if i == 1 then [38, 113, 117, 111, 116, 59]
    else if i == 2 then [38, 108, 116, 59]
    else [38, 103, 116, 59]
  }

  /** What stands for a character in SGML. */
  ghost function EncodedCharacter(c: byte): (t: seq<byte>) {
    if c == '&' as int then Ascii("&amp;")
    else if c == '"' as int then Ascii("&quot;")
    else if c == '<' as int then Ascii("&lt;")
    else if c == '>' as int then Ascii("&gt;")
    else [c]
  }

  /** The passes are for these characters, in this order, and put in what stands for them. */
  lemma PassIs(i: nat)
    requires i < 4
    ensures [Found(i)] == Ascii(if i == 0 then "&" else if i == 1 then "\"" else if i == 2 then "<" else ">")
    ensures Entity(i) == EncodedCharacter(Found(i))
  {
    if i == 0 {
      assert Entity(i) == Ascii("&amp;");
    } else if i == 1 {
      assert Entity(i) == Ascii("&quot;");
    } else if i == 2 {
      assert Entity(i) == Ascii("&lt;");
    } else {
      assert Entity(i) == Ascii("&gt;");
    }
  }

  /** The encoded text: each character on its own. */
  ghost function Encoded(s: seq<byte>): (r: seq<byte>) {
    if s == [] then [] else EncodedCharacter(s[0]) + Encoded(s[1..])
  }

  /** `s` with every `c` replaced by `t`. */
  function Substituted(s: seq<byte>, c: byte, t: seq<byte>): (r: seq<byte>) {
    if s == [] then [] else (if s[0] == c then t else [s[0]]) + Substituted(s[1..], c, t)
  }

  /** For a find string of one character the leftmost non-overlapping replacement replaces every one. */
  lemma {:induction false} ReplacedIsSubstituted(s: seq<byte>, c: byte, t: seq<byte>, pos: nat)
    requires pos <= |s|
    ensures Replaced(Exact, s, [c], t, pos) == Substituted(s[pos..], c, t)
    decreases |s| - pos
  {
    if pos < |s| {
      hide Replaced;
      ReplacedIsSubstituted(s, c, t, pos + 1);
      ReplacedNext(s, c, t, pos);
      assert s[pos..][1..] == s[pos + 1..];
    } else {
      assert s[pos..] == [];
    }
  }

  lemma ReplacedNext(s: seq<byte>, c: byte, t: seq<byte>, pos: nat)
    requires pos < |s|
    ensures Replaced(Exact, s, [c], t, pos) ==
            (if s[pos] == c then t else [s[pos]]) + Replaced(Exact, s, [c], t, pos + 1)
  {
    NextCharacter(s, c, pos);
    hide Next;
    NextBounds(Exact, s, [c], pos + 1);
    var p := Next(Exact, s, [c], pos);
    if s[pos] == c {
      assert s[pos..pos] + t == t;
    } else if p == ERR {
      assert s[pos..] == [s[pos]] + s[pos + 1..];
    } else {
      assert s[pos..p] == [s[pos]] + s[pos + 1..p];
      Associative([s[pos]], s[pos + 1..p], t, Replaced(Exact, s, [c], t, p + 1));
    }
  }

  lemma NextCharacter(s: seq<byte>, c: byte, pos: nat)
    requires pos < |s|
    ensures Next(Exact, s, [c], pos) == if s[pos] == c then pos else Next(Exact, s, [c], pos + 1)
  {
    OneCharacter(s, c, pos);
  }

  lemma OneCharacter(s: seq<byte>, c: byte, pos: nat)
    requires pos < |s|
    ensures Occurs(Exact, s, [c], pos) <==> s[pos] == c
  {
    assert [c][0] == c;
    if Occurs(Exact, s, [c], pos) {
      assert Same(Exact, [c][0], s[pos + 0]);
    }
  }

  lemma {:induction false} SubstitutedConcat(a: seq<byte>, b: seq<byte>, c: byte, t: seq<byte>)
    ensures Substituted(a + b, c, t) == Substituted(a, c, t) + Substituted(b, c, t)
  {
    if a == [] {
      assert a + b == b;
    } else {
      assert (a + b)[1..] == a[1..] + b;
      SubstitutedConcat(a[1..], b, c, t);
    }
  }

  lemma {:induction false} SubstitutedNone(s: seq<byte>, c: byte, t: seq<byte>)
    requires c !in s
    ensures Substituted(s, c, t) == s
  {
    if s != [] {
      assert s == [s[0]] + s[1..];
      SubstitutedNone(s[1..], c, t);
    }
  }

  lemma {:induction false} SubstitutedGrows(s: seq<byte>, c: byte, t: seq<byte>)
    requires t != []
    ensures |Substituted(s, c, t)| >= |s|
  {
    if s != [] {
      SubstitutedGrows(s[1..], c, t);
    }
  }

  /** The text after the passes from `i` on. */
  function Passes(s: seq<byte>, i: nat): (r: seq<byte>)
    requires i <= 4
    decreases 4 - i
  {
    if i == 4 then s else Passes(Substituted(s, Found(i), Entity(i)), i + 1)
  }

  lemma {:induction false} PassesConcat(a: seq<byte>, b: seq<byte>, i: nat)
    requires i <= 4
    ensures Passes(a + b, i) == Passes(a, i) + Passes(b, i)
    decreases 4 - i
  {
    if i < 4 {
      SubstitutedConcat(a, b, Found(i), Entity(i));
      PassesConcat(Substituted(a, Found(i), Entity(i)), Substituted(b, Found(i), Entity(i)), i + 1);
    }
  }

  lemma {:induction false} PassesNone(s: seq<byte>, i: nat)
    requires i <= 4 && forall k :: i <= k < 4 ==> Found(k) !in s
    ensures Passes(s, i) == s
    decreases 4 - i
  {
    if i < 4 {
      SubstitutedNone(s, Found(i), Entity(i));
      PassesNone(s, i + 1);
    }
  }

  lemma {:induction false} PassesGrow(s: seq<byte>, i: nat)
    requires i <= 4
    ensures |Passes(s, i)| >= |s|
    decreases 4 - i
  {
    if i < 4 {
      SubstitutedGrows(s, Found(i), Entity(i));
      PassesGrow(Substituted(s, Found(i), Entity(i)), i + 1);
    }
  }

  lemma {:induction false} PassesOne(c: byte, i: nat)
    requires i <= 4 && forall k :: 0 <= k < i ==> Found(k) != c
    ensures Passes([c], i) == EncodedCharacter(c)
    decreases 4 - i
  {
    if i < 4 {
      if c == Found(i) {
        PassIs(i);
        assert Substituted([c], c, Entity(i)) == Entity(i);
        PassesNone(Entity(i), i + 1);
      } else {
        SubstitutedNone([c], Found(i), Entity(i));
        PassesOne(c, i + 1);
      }
    } else {
      assert Found(0) != c && Found(1) != c && Found(2) != c && Found(3) != c;
    }
  }

  /** No pass touches what an earlier one put in: together they encode each character on its own. */
  lemma {:induction false} PassesEncode(s: seq<byte>)
    ensures Passes(s, 0) == Encoded(s)
  {
    if s == [] {
      PassesNone(s, 0);
    } else {
      assert s == [s[0]] + s[1..];
      PassesConcat([s[0]], s[1..], 0);
      PassesOne(s[0], 0);
      PassesEncode(s[1..]);
    }
  }

  lemma CharacterQuotable(c: byte)
    ensures var t := EncodedCharacter(c); '"' as int !in t && '<' as int !in t && '>' as int !in t
  {
    forall i: int | 0 <= i < 4 ensures Entity(i) == EncodedCharacter(Found(i)) { PassIs(i); }
    hide EncodedCharacter;
    assert c == AMP ==> EncodedCharacter(c) == Entity(0);
    assert c == QUOT ==> EncodedCharacter(c) == Entity(1);
    assert c == LT ==> EncodedCharacter(c) == Entity(2);
    assert c == GT ==> EncodedCharacter(c) == Entity(3);
    if c != AMP && c != QUOT && c != LT && c != GT { OwnCharacter(c); }
  }

  lemma OwnCharacter(c: byte)
    requires c != AMP && c != QUOT && c != LT && c != GT
    ensures EncodedCharacter(c) == [c]
  {
  }

  /** No quote and no angle bracket is left. */
  lemma {:induction false} EncodedQuotable(s: seq<byte>)
    ensures '"' as int !in Encoded(s) && '<' as int !in Encoded(s) && '>' as int !in Encoded(s)
  {
    if s != [] {
      hide EncodedCharacter;
      CharacterQuotable(s[0]);
      EncodedQuotable(s[1..]);
    }
  }

  /** How what stands for a character begins tells which it is. */
  lemma CharacterBegins(c: byte)
    ensures var t := EncodedCharacter(c);
      if c in {AMP, QUOT, LT, GT} then
        && |t| > 1 && t[0] == AMP
        && t[1] == (if c == AMP then 97 else if c == QUOT then 113 else if c == LT then 108 else 103)
      else t == [c]
  {
  }

  /** The encoding can be undone. */
  lemma {:induction false} EncodedInjective(s: seq<byte>, t: seq<byte>)
    requires Encoded(s) == Encoded(t)
    ensures s == t
  {
    if s != [] && t != [] {
      hide EncodedCharacter;
      CharacterBegins(s[0]);
      CharacterBegins(t[0]);
      var r, a, b := Encoded(s), EncodedCharacter(s[0]), EncodedCharacter(t[0]);
      assert r[0] == a[0] == b[0];
      assert |a| > 1 && |b| > 1 ==> r[1] == a[1] == b[1];
      assert s[0] == t[0];
      assert r[|a|..] == Encoded(s[1..]) && r[|b|..] == Encoded(t[1..]);
      EncodedInjective(s[1..], t[1..]);
      assert s == [s[0]] + s[1..] && t == [t[0]] + t[1..];
    }
  }

  /** The passes from `i` on find room for all their results. */
  ghost predicate AllFeasible(s: seq<byte>, i: nat)
    requires i <= 4
    decreases 4 - i
  {
    i == 4 || (
      && Feasible(Exact, s, [Found(i)], Entity(i), 0)
      && AllFeasible(Substituted(s, Found(i), Entity(i)), i + 1))
  }

  /** The text after the passes from `i` on, up to the first that fails. */
  ghost function Reached(s: seq<byte>, i: nat): (r: seq<byte>)
    requires i <= 4
    decreases 4 - i
  {
    if i == 4 || !Feasible(Exact, s, [Found(i)], Entity(i), 0) then s
    else Reached(Substituted(s, Found(i), Entity(i)), i + 1)
  }

  lemma {:induction false} ReachedAll(s: seq<byte>, i: nat)
    requires i <= 4 && AllFeasible(s, i)
    ensures Reached(s, i) == Passes(s, i)
    decreases 4 - i
  {
    if i < 4 { ReachedAll(Substituted(s, Found(i), Entity(i)), i + 1); }
  }

  /** Room for the encoded text within the limit on matches is enough. */
  lemma {:induction false} ShortFeasible(s: seq<byte>, i: nat)
    requires i <= 4 && |Passes(s, i)| <= MAX_COUNT
    ensures AllFeasible(s, i)
    decreases 4 - i
  {
    if i < 4 {
      PassFits(s, i);
      ShortFeasible(Substituted(s, Found(i), Entity(i)), i + 1);
    }
  }

  /** bSGMLEncode. A pass that fails leaves the text as the passes before it made it. */
  method SgmlEncode(b: Bstring) returns (ret: int)
    requires b.Valid() && b.slen <= INT_MAX
    modifies b, b.data
    ensures b.Valid() && (ret == OK || ret == ERR)
    ensures ret == OK <==> old(b.mlen) > 0 && AllFeasible(old(b.Text()), 0)
    ensures ret == OK ==> b.Text() == Encoded(old(b.Text()))
    ensures ret == ERR ==> b.Text() == if old(b.mlen) > 0 then Reached(old(b.Text()), 0) else old(b.Text())
    ensures old(b.mlen) > 0 && |Encoded(old(b.Text()))| <= MAX_COUNT ==> ret == OK
  {
    hide Feasible, Passes, Encoded, Substituted, ReplaceAll;
    ghost var s := b.Text();
    PassesEncode(s);
    if |Passes(s, 0)| <= MAX_COUNT { ShortFeasible(s, 0); }
    if AllFeasible(s, 0) { ReachedAll(s, 0); }
    var i := 0;
    while i < 4
      invariant 0 <= i <= 4 && b.Valid() && b.slen <= INT_MAX && (b.data == old(b.data) || fresh(b.data))
      invariant if old(b.mlen) > 0 then b.mlen > 0 else i == 0 && b.mlen <= 0 && b.Text() == s
      invariant (AllFeasible(b.Text(), i) <==> AllFeasible(s, 0)) && Reached(b.Text(), i) == Reached(s, 0)
    {
      PassFits(b.Text(), i);
      var stale;
      ret, stale := FindReplaceEngine(b, Exact, Apart([Found(i)]), Apart(Entity(i)), 0);
      if 0 > ret { return; }
      i := i + 1;
    }
    return OK;
  }

  lemma PassFits(s: seq<byte>, i: nat)
    requires i < 4
    ensures ReplaceAll(Exact, s, [Found(i)], Entity(i), 0) == Substituted(s, Found(i), Entity(i))
    ensures |Passes(s, i)| <= MAX_COUNT ==> Feasible(Exact, s, [Found(i)], Entity(i), 0)
  {
    var r := Substituted(s, Found(i), Entity(i));
    ReplacedIsSubstituted(s, Found(i), Entity(i), 0);
    PassesGrow(r, i + 1);
    ReplacedLength(Exact, s, [Found(i)], Entity(i), 0);
    CountBelow(|Positions(Exact, s, [Found(i)], 0)|, |Entity(i)| - 1);
  }

  lemma CountBelow(n: nat, grow: nat)
    requires grow > 0
    ensures n <= n * grow
  {
  }
}
