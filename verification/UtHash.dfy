/** uthash: a chained hash table whose elements are also threaded on a list in insertion order.

    A user's structure is a handle, an index into the arrays of its hash-handle fields. */
module UtHash {
  import opened Common
  import opened Bits
  import opened Lists
  import opened MergeSort

  type Key = seq<bv8>

  const INITIAL_NUM_BUCKETS := 32
  const INITIAL_NUM_BUCKETS_LOG2 := 5
  const BKT_CAPACITY_THRESH := 10

  datatype Bucket = Bucket(head: int, count: nat, expandMult: nat)

  const EMPTY := Bucket(NULL, 0, 0)

  function NoBuckets(n: nat): (r: seq<Bucket>)
    ensures |r| == n && forall b :: 0 <= b < n ==> r[b] == EMPTY
  {
    seq(n, _ => EMPTY)
  }

  function NoLists(n: nat): (r: seq<seq<int>>)
    ensures |r| == n && forall b :: 0 <= b < n ==> r[b] == []
  {
    seq(n, _ => [])
  }

  /** HASH_TO_BKT. */
  function ToBkt(hashv: nat, numBuckets: nat): nat
    requires numBuckets > 0
  {
    And(hashv, numBuckets - 1)
  }

  ghost predicate BucketOk(b: Bucket, hhNext: seq<int>, hhPrev: seq<int>, chain: seq<int>) {
    DList(hhNext, hhPrev, chain) && b.head == At(chain, 0) && b.count == |chain|
  }

  /** Every chain is a well-formed list with the right head and count, and holds only handles
      that hash to its bucket out of `numBuckets`. */
  ghost predicate Chains(buckets: seq<Bucket>, hhNext: seq<int>, hhPrev: seq<int>, hashv: seq<nat>,
                         chains: seq<seq<int>>)
  {
    && |buckets| == |chains| > 0
    && |hhNext| == |hhPrev| == |hashv|
    && (forall b :: 0 <= b < |chains| ==> BucketOk(buckets[b], hhNext, hhPrev, chains[b]))
    && (forall b, i :: 0 <= b < |chains| && 0 <= i < |chains[b]| ==> HashesTo(hashv, chains[b][i], |buckets|, b))
  }

  ghost predicate HashesTo(hashv: seq<nat>, h: int, numBuckets: nat, b: int)
    requires numBuckets > 0
  {
    0 <= h < |hashv| && ToBkt(hashv[h], numBuckets) == b
  }

  /** HASH_ADD_TO_BKT up to the test for expansion: `h` becomes the head of bucket `b`. */
  lemma PushFront(buckets: seq<Bucket>, hhNext: seq<int>, hhPrev: seq<int>, hashv: seq<nat>, chains: seq<seq<int>>,
                  h: int, mult: nat)
    requires Chains(buckets, hhNext, hhPrev, hashv, chains) && 0 <= h < |hashv|
    requires forall b :: 0 <= b < |chains| ==> h !in chains[b]
    requires ToBkt(hashv[h], |buckets|) < |buckets|
    ensures var b := ToBkt(hashv[h], |buckets|); var bkt := buckets[b];
            && (bkt.head == NULL || 0 <= bkt.head < |hhPrev|)
            && Chains(buckets[b := Bucket(h, bkt.count + 1, mult)],
                      hhNext[h := bkt.head], Relink(hhPrev[h := NULL], bkt.head, h), hashv,
                      chains[b := [h] + chains[b]])
  {
    hide DList, ToBkt;
    var b := ToBkt(hashv[h], |buckets|);
    var bkt, c := buckets[b], chains[b];
    assert BucketOk(bkt, hhNext, hhPrev, c);
    assert Inserted(c, 0, h) == [h] + c;
    InsertDList(hhNext, hhPrev, c, 0, h);
    var hhNext', hhPrev' := hhNext[h := bkt.head], Relink(hhPrev[h := NULL], bkt.head, h);
    forall d | 0 <= d < |chains| && d != b ensures BucketOk(buckets[d], hhNext', hhPrev', chains[d]) {
      assert BucketOk(buckets[d], hhNext, hhPrev, chains[d]);
      HeadElsewhere(buckets, hhNext, hhPrev, hashv, chains, b, d);
      KeepDList(hhNext, hhPrev, hhNext', hhPrev', chains[d]);
    }
  }

  /** The head of one bucket is in no other. */
  lemma HeadElsewhere(buckets: seq<Bucket>, hhNext: seq<int>, hhPrev: seq<int>, hashv: seq<nat>, chains: seq<seq<int>>,
                      b: nat, d: nat)
    requires Chains(buckets, hhNext, hhPrev, hashv, chains) && b < |chains| && d < |chains| && b != d
    ensures forall i :: 0 <= i < |chains[d]| ==> 0 <= chains[d][i] < |hashv| && chains[d][i] != buckets[b].head
  {
    assert BucketOk(buckets[b], hhNext, hhPrev, chains[b]);
    forall i | 0 <= i < |chains[d]| ensures 0 <= chains[d][i] < |hashv| && chains[d][i] != buckets[b].head {
      assert HashesTo(hashv, chains[d][i], |buckets|, d);
      if chains[b] != [] {
        assert HashesTo(hashv, chains[b][0], |buckets|, b);
      }
    }
  }

  /** The chains hold exactly the handles of `its`, each in the chain its hash value selects. */
  ghost predicate Holds(chains: seq<seq<int>>, hashv: seq<nat>, its: seq<int>)
    requires |chains| > 0
  {
    && (forall b, i :: 0 <= b < |chains| && 0 <= i < |chains[b]| ==> chains[b][i] in its)
    && (forall i :: 0 <= i < |its| ==> 0 <= its[i] < |hashv| && HashedIn(chains, hashv[its[i]], its[i]))
  }

  ghost predicate HashedIn(chains: seq<seq<int>>, hashval: nat, h: int)
    requires |chains| > 0
  {
    var b := ToBkt(hashval, |chains|);
    b < |chains| && h in chains[b]
  }

  // ---------- HASH_DEL_IN_BKT ----------

  lemma TakeOut(buckets: seq<Bucket>, hhNext: seq<int>, hhPrev: seq<int>, hashv: seq<nat>, chains: seq<seq<int>>,
                b: nat, k: nat)
    requires Chains(buckets, hhNext, hhPrev, hashv, chains) && b < |chains| && k < |chains[b]|
    ensures var c := chains[b]; var p, h, q := At(c, k - 1), c[k], At(c, k + 1); var bkt := buckets[b];
            && 0 <= h < |hashv| && (p == NULL || 0 <= p < |hhNext|) && (q == NULL || 0 <= q < |hhNext|)
            && hhNext[h] == q && hhPrev[h] == p && bkt.count > 0 && (bkt.head == h <==> p == NULL)
            && Chains(buckets[b := bkt.(head := if p == NULL then q else bkt.head, count := bkt.count - 1)],
                      Relink(hhNext, p, q), Relink(hhPrev, q, p), hashv, chains[b := Removed(c, k)])
  {
    hide DList, ToBkt;
    var bkt, c := buckets[b], chains[b];
    assert BucketOk(bkt, hhNext, hhPrev, c);
    RemoveDList(hhNext, hhPrev, c, k);
    RemovedAt(c, k, 0);
    InChains(buckets, hhNext, hhPrev, hashv, chains, b);
    var p, q := At(c, k - 1), At(c, k + 1);
    var hhNext', hhPrev' := Relink(hhNext, p, q), Relink(hhPrev, q, p);
    forall d | 0 <= d < |chains| && d != b ensures BucketOk(buckets[d], hhNext', hhPrev', chains[d]) {
      assert BucketOk(buckets[d], hhNext, hhPrev, chains[d]);
      ChainsApart(buckets, hhNext, hhPrev, hashv, chains, b, d);
      KeepDList(hhNext, hhPrev, hhNext', hhPrev', chains[d]);
    }
    RemoveMembers(c, k, |hashv|);
    forall i | 0 <= i < |Removed(c, k)| ensures HashesTo(hashv, Removed(c, k)[i], |buckets|, b) {
      var j :| 0 <= j < |c| && c[j] == Removed(c, k)[i];
    }
  }

  lemma InChains(buckets: seq<Bucket>, hhNext: seq<int>, hhPrev: seq<int>, hashv: seq<nat>, chains: seq<seq<int>>,
                 b: nat)
    requires Chains(buckets, hhNext, hhPrev, hashv, chains) && b < |chains|
    ensures InArena(chains[b], |hashv|) && NoDup(chains[b])
  {
    assert BucketOk(buckets[b], hhNext, hhPrev, chains[b]);
  }

  lemma ChainsApart(buckets: seq<Bucket>, hhNext: seq<int>, hhPrev: seq<int>, hashv: seq<nat>, chains: seq<seq<int>>,
                    b: nat, d: nat)
    requires Chains(buckets, hhNext, hhPrev, hashv, chains) && b < |chains| && d < |chains| && b != d
    ensures Apart(chains[b], chains[d])
    ensures forall i :: 0 <= i < |chains[d]| ==> 0 <= chains[d][i] < |hashv|
  {
    forall i, j | 0 <= i < |chains[b]| && 0 <= j < |chains[d]| ensures chains[b][i] != chains[d][j] {
      assert HashesTo(hashv, chains[b][i], |buckets|, b) && HashesTo(hashv, chains[d][j], |buckets|, d);
    }
    forall i | 0 <= i < |chains[d]| ensures 0 <= chains[d][i] < |hashv| {
      assert HashesTo(hashv, chains[d][i], |buckets|, d);
    }
  }

  lemma HoldsPushed(chains: seq<seq<int>>, hashv: seq<nat>, its: seq<int>, k: nat, h: int)
    requires |chains| > 0 && Holds(chains, hashv, its) && k <= |its| && 0 <= h < |hashv|
    requires ToBkt(hashv[h], |chains|) < |chains|
    ensures var b := ToBkt(hashv[h], |chains|);
            Holds(chains[b := [h] + chains[b]], hashv, Inserted(its, k, h))
  {
    var b := ToBkt(hashv[h], |chains|);
    var chains' := chains[b := [h] + chains[b]];
    InsertHas(its, k, h);
    forall d, i | 0 <= d < |chains'| && 0 <= i < |chains'[d]| ensures chains'[d][i] in Inserted(its, k, h) {
      if d == b && i > 0 {
        assert chains'[d][i] == chains[b][i - 1];
      } else if d != b {
        assert chains'[d][i] == chains[d][i];
      }
    }
    var its' := Inserted(its, k, h);
    forall i | 0 <= i < |its'| ensures 0 <= its'[i] < |hashv| && HashedIn(chains', hashv[its'[i]], its'[i]) {
      if its'[i] != h {
        var j :| 0 <= j < |its| && its[j] == its'[i];
        assert HashedIn(chains, hashv[its[j]], its[j]);
      }
    }
  }

  lemma InsertHas(its: seq<int>, k: nat, h: int)
    requires k <= |its|
    ensures forall x :: x in Inserted(its, k, h) <==> x in its || x == h
  {
    assert its == its[..k] + its[k..];
  }

  lemma HoldsTaken(chains: seq<seq<int>>, hashv: seq<nat>, its: seq<int>, k: nat, b: nat, j: nat)
    requires |chains| > 0 && Holds(chains, hashv, its) && NoDup(its) && k < |its|
    requires b < |chains| && j < |chains[b]| && chains[b][j] == its[k] && NoDup(chains[b])
    requires forall d :: 0 <= d < |chains| && d != b ==> its[k] !in chains[d]
    ensures Holds(chains[b := Removed(chains[b], j)], hashv, Removed(its, k))
  {
    var chains', its' := chains[b := Removed(chains[b], j)], Removed(its, k);
    RemoveHas(its, k);
    RemoveHas(chains[b], j);
    hide Removed;
    forall d, i | 0 <= d < |chains'| && 0 <= i < |chains'[d]| ensures chains'[d][i] in its' {
      assert chains'[d][i] in chains[d];
      var i' :| 0 <= i' < |chains[d]| && chains[d][i'] == chains'[d][i];
      assert chains[d][i'] in its;
    }
    forall i | 0 <= i < |its'| ensures 0 <= its'[i] < |hashv| && HashedIn(chains', hashv[its'[i]], its'[i]) {
      assert its'[i] in its;
      var i' :| 0 <= i' < |its| && its[i'] == its'[i];
      assert HashedIn(chains, hashv[its[i']], its[i']);
    }
  }

  lemma RemoveHas(its: seq<int>, k: nat)
    requires k < |its| && NoDup(its)
    ensures forall x :: x in Removed(its, k) <==> x in its && x != its[k]
  {
    assert its == its[..k] + [its[k]] + its[k + 1..];
  }

  // ---------- HASH_EXPAND_BUCKETS ----------

  /** In the middle of an expansion: bucket `i` of the old table has been moved up to `todo`. */
  ghost predicate Expanding(buckets: seq<Bucket>, hhNext: seq<int>, hhPrev: seq<int>, hashv: seq<nat>,
                            newChains: seq<seq<int>>, chains: seq<seq<int>>, i: int, todo: seq<int>, its: seq<int>)
    requires |chains| > 0
  {
    && Chains(buckets, hhNext, hhPrev, hashv, newChains)
    && Linked(hhNext, todo)
    && (forall j :: 0 <= j < |todo| ==> HashesTo(hashv, todo[j], |chains|, i) && todo[j] in its)
    && (forall j :: 0 <= j && i < j < |chains| ==> Linked(hhNext, chains[j]))
    && (forall d, j :: 0 <= d < |newChains| && 0 <= j < |newChains[d]| ==>
         newChains[d][j] in its && newChains[d][j] !in todo && ToBkt(hashv[newChains[d][j]], |chains|) <= i)
    && (forall j :: 0 <= j < |its| ==>
         && 0 <= its[j] < |hashv|
         && (Moved(hashv[its[j]], its[j], |chains|, i, todo) ==> HashedIn(newChains, hashv[its[j]], its[j])))
  }

  ghost predicate Moved(hashval: nat, h: int, numBuckets: nat, i: int, todo: seq<int>)
    requires numBuckets > 0
  {
    ToBkt(hashval, numBuckets) <= i && h !in todo
  }

  /** What of the old chains outlasts their relinking. */
  ghost predicate Homes(chains: seq<seq<int>>, hashv: seq<nat>, its: seq<int>)
  {
    && (forall j, l :: 0 <= j < |chains| && 0 <= l < |chains[j]| ==>
         HashesTo(hashv, chains[j][l], |chains|, j) && chains[j][l] in its)
    && (forall j :: 0 <= j < |its| ==> 0 <= its[j] < |hashv| && |chains| > 0 && HashedIn(chains, hashv[its[j]], its[j]))
  }

  lemma MovedStays(newChains: seq<seq<int>>, hashv: seq<nat>, chains: seq<seq<int>>, i: int, todo: seq<int>,
                   its: seq<int>, b: nat)
    requires |chains| > 0 && b < |newChains| && todo != [] && 0 <= todo[0] < |hashv|
    requires b == ToBkt(hashv[todo[0]], |newChains|)
    requires forall j :: 0 <= j < |its| ==>
      && 0 <= its[j] < |hashv|
      && (Moved(hashv[its[j]], its[j], |chains|, i, todo) ==> HashedIn(newChains, hashv[its[j]], its[j]))
    ensures forall j :: 0 <= j < |its| ==>
      (Moved(hashv[its[j]], its[j], |chains|, i, todo[1..]) ==>
        HashedIn(newChains[b := [todo[0]] + newChains[b]], hashv[its[j]], its[j]))
  {
    var newChains' := newChains[b := [todo[0]] + newChains[b]];
    forall j | 0 <= j < |its| && Moved(hashv[its[j]], its[j], |chains|, i, todo[1..])
      ensures HashedIn(newChains', hashv[its[j]], its[j])
    {
      if its[j] != todo[0] {
        assert Moved(hashv[its[j]], its[j], |chains|, i, todo);
        assert HashedIn(newChains, hashv[its[j]], its[j]);
      }
    }
  }

  lemma MoveOne(buckets: seq<Bucket>, hhNext: seq<int>, hhPrev: seq<int>, hashv: seq<nat>,
                newChains: seq<seq<int>>, chains: seq<seq<int>>, i: nat, todo: seq<int>, its: seq<int>, mult: nat)
    requires |chains| > 0 && i < |chains| && Expanding(buckets, hhNext, hhPrev, hashv, newChains, chains, i, todo, its)
    requires todo != [] && 0 <= todo[0] < |hashv| && ToBkt(hashv[todo[0]], |buckets|) < |buckets|
    requires Homes(chains, hashv, its)
    ensures var h := todo[0]; var b := ToBkt(hashv[h], |buckets|); var bkt := buckets[b];
            && (bkt.head == NULL || 0 <= bkt.head < |hhPrev|) && hhNext[h] == At(todo, 1)
            && Expanding(buckets[b := Bucket(h, bkt.count + 1, mult)],
                         hhNext[h := bkt.head], Relink(hhPrev[h := NULL], bkt.head, h), hashv,
                         newChains[b := [h] + newChains[b]], chains, i, todo[1..], its)
  {
    hide DList, ToBkt, Chains, HashedIn;
    ChainsShape(buckets, hhNext, hhPrev, hashv, newChains);
    var h := todo[0];
    var b := ToBkt(hashv[h], |buckets|);
    assert HashesTo(hashv, h, |chains|, i) && hhNext[h] == At(todo, 1);
    PushFront(buckets, hhNext, hhPrev, hashv, newChains, h, mult);
    var hhNext' := hhNext[h := buckets[b].head];
    var newChains' := newChains[b := [h] + newChains[b]];
    MovedStays(newChains, hashv, chains, i, todo, its, b);
    forall j | i < j < |chains| ensures Linked(hhNext', chains[j]) {
      forall l | 0 <= l < |chains[j]| ensures chains[j][l] != h {
        assert HashesTo(hashv, chains[j][l], |chains|, j);
      }
    }
    forall d, j | 0 <= d < |newChains'| && 0 <= j < |newChains'[d]|
      ensures newChains'[d][j] in its && newChains'[d][j] !in todo[1..] && ToBkt(hashv[newChains'[d][j]], |chains|) <= i
    {
      if d == b && j > 0 {
        assert newChains'[d][j] == newChains[b][j - 1];
      } else if d != b {
        assert newChains'[d][j] == newChains[d][j];
      }
    }
  }

  lemma ChainsHome(buckets: seq<Bucket>, hhNext: seq<int>, hhPrev: seq<int>, hashv: seq<nat>, chains: seq<seq<int>>,
                   its: seq<int>)
    requires Chains(buckets, hhNext, hhPrev, hashv, chains) && Holds(chains, hashv, its)
    ensures |hhNext| == |hhPrev| == |hashv| && |chains| > 0 && Homes(chains, hashv, its)
    ensures Linked(hhNext, []) && forall j :: 0 <= j < |chains| ==> Linked(hhNext, chains[j])
    ensures forall j :: 0 <= j < |its| ==> 0 <= its[j] < |hashv|
  {
    forall j | 0 <= j < |chains| ensures Linked(hhNext, chains[j]) {
      assert BucketOk(buckets[j], hhNext, hhPrev, chains[j]);
    }
  }

  lemma ExpandStart(buckets: seq<Bucket>, hhNext: seq<int>, hhPrev: seq<int>, hashv: seq<nat>, chains: seq<seq<int>>,
                    its: seq<int>, n: nat)
    requires Chains(buckets, hhNext, hhPrev, hashv, chains) && |chains| > 0 && Holds(chains, hashv, its) && n > 0
    ensures Homes(chains, hashv, its)
    ensures Expanding(NoBuckets(n), hhNext, hhPrev, hashv, NoLists(n), chains, -1, [], its)
  {
    hide Chains, Holds, Homes, HashedIn, NoBuckets, NoLists, ToBkt, Linked;
    ChainsHome(buckets, hhNext, hhPrev, hashv, chains, its);
    NoChains(hhNext, hhPrev, hashv, n);
  }

  lemma NoChains(hhNext: seq<int>, hhPrev: seq<int>, hashv: seq<nat>, n: nat)
    requires n > 0 && |hhNext| == |hhPrev| == |hashv|
    ensures Chains(NoBuckets(n), hhNext, hhPrev, hashv, NoLists(n))
  {
    EmptyDList(hhNext, hhPrev);
    assert BucketOk(EMPTY, hhNext, hhPrev, []);
    hide BucketOk, HashesTo;
  }

  lemma ExpandNext(buckets: seq<Bucket>, hhNext: seq<int>, hhPrev: seq<int>, hashv: seq<nat>,
                   newChains: seq<seq<int>>, chains: seq<seq<int>>, i: int, its: seq<int>)
    requires |chains| > 0 && 0 <= i < |chains| && Homes(chains, hashv, its)
    requires Expanding(buckets, hhNext, hhPrev, hashv, newChains, chains, i - 1, [], its)
    ensures Expanding(buckets, hhNext, hhPrev, hashv, newChains, chains, i, chains[i], its)
  {
    hide DList, ToBkt, Chains, Linked;
    forall l | 0 <= l < |chains[i]| ensures 0 <= chains[i][l] < |hashv| && ToBkt(hashv[chains[i][l]], |chains|) == i {
      assert HashesTo(hashv, chains[i][l], |chains|, i);
    }
    forall j | 0 <= j < |its| && Moved(hashv[its[j]], its[j], |chains|, i, chains[i])
      ensures HashedIn(newChains, hashv[its[j]], its[j])
    {
      assert HashedIn(chains, hashv[its[j]], its[j]);
      assert Moved(hashv[its[j]], its[j], |chains|, i - 1, []);
    }
  }

  lemma ExpandEnd(buckets: seq<Bucket>, hhNext: seq<int>, hhPrev: seq<int>, hashv: seq<nat>,
                  newChains: seq<seq<int>>, chains: seq<seq<int>>, its: seq<int>)
    requires |chains| > 0 && Homes(chains, hashv, its)
    requires Expanding(buckets, hhNext, hhPrev, hashv, newChains, chains, |chains| - 1, [], its)
    ensures Chains(buckets, hhNext, hhPrev, hashv, newChains) && Holds(newChains, hashv, its)
  {
    hide DList, ToBkt, Chains, Linked;
    forall j | 0 <= j < |its| ensures HashedIn(newChains, hashv[its[j]], its[j]) {
      assert HashedIn(chains, hashv[its[j]], its[j]);
      assert Moved(hashv[its[j]], its[j], |chains|, |chains| - 1, []);
    }
  }

  // ---------- The statistics of an expansion ----------

  function ExcessOf(b: Bucket, ideal: nat): nat {
    if b.count > ideal then b.count - ideal else 0
  }

  /** The number of items whose chain position exceeds `ideal`. */
  function Excess(buckets: seq<Bucket>, ideal: nat): nat {
    if buckets == [] then 0 else ExcessOf(buckets[0], ideal) + Excess(buckets[1..], ideal)
  }

  lemma {:induction false} ExcessUpdate(buckets: seq<Bucket>, b: nat, bkt: Bucket, ideal: nat)
    requires b < |buckets|
    ensures Excess(buckets[b := bkt], ideal) ==
      Excess(buckets, ideal) - ExcessOf(buckets[b], ideal) + ExcessOf(bkt, ideal)
  {
    if b == 0 {
      assert buckets[b := bkt][1..] == buckets[1..];
    } else {
      ExcessUpdate(buckets[1..], b - 1, bkt, ideal);
      assert buckets[b := bkt][1..] == buckets[1..][b - 1 := bkt];
    }
  }

  lemma {:induction false} ExcessEmpty(n: nat, ideal: nat)
    ensures Excess(NoBuckets(n), ideal) == 0
  {
    if n > 0 {
      ExcessEmpty(n - 1, ideal);
      assert NoBuckets(n)[1..] == NoBuckets(n - 1);
    }
  }

  /** The multiplier that lets an overfull bucket grow to the next multiple of the threshold. */
  ghost predicate Multipliers(buckets: seq<Bucket>, ideal: nat)
    requires ideal > 0
  {
    forall b :: 0 <= b < |buckets| ==>
      buckets[b].expandMult == if buckets[b].count > ideal then buckets[b].count / ideal else 0
  }

  /** The ideal maximum chain length as the source computes it, with a shift and a mask. */
  function IdealChain(items: nat, numBuckets: nat, log2: nat): nat
    requires numBuckets > 0
  {
    items / Pow2(log2 + 1) + (if And(items, numBuckets * 2 - 1) != 0 then 1 else 0)
  }

  /** `ideal` is `items` divided by `n`, rounded up. */
  ghost predicate IsCeiling(ideal: nat, items: nat, n: nat) {
    ideal * n >= items && (ideal > 0 ==> (ideal - 1) * n < items)
  }

  lemma IdealIsCeiling(items: nat, numBuckets: nat, log2: nat)
    requires numBuckets == Pow2(log2)
    ensures numBuckets > 0 && Pow2(log2 + 1) == 2 * numBuckets
    ensures var ideal := IdealChain(items, numBuckets, log2);
            IsCeiling(ideal, items, 2 * numBuckets) && (items > 0 ==> ideal > 0)
  {
    AndMask(items, log2 + 1);
    Ceiling(items, Pow2(log2 + 1));
  }

  lemma Ceiling(items: nat, m: nat)
    requires m > 0
    ensures var ideal := items / m + (if items % m != 0 then 1 else 0);
            IsCeiling(ideal, items, m) && (items > 0 ==> ideal > 0)
  {
    var q, r := items / m, items % m;
    assert items == q * m + r;
    assert (q + 1) * m == q * m + m && (q - 1) * m == q * m - m;
  }

  /** All that holds while elements move to `n` new buckets. */
  ghost predicate Redistributing(buckets: seq<Bucket>, hhNext: seq<int>, hhPrev: seq<int>, hashv: seq<nat>,
                                 newChains: seq<seq<int>>, chains: seq<seq<int>>, i: int, todo: seq<int>, its: seq<int>,
                                 n: nat, ideal: nat, nonideal: nat)
    requires |chains| > 0 && ideal > 0
  {
    && Expanding(buckets, hhNext, hhPrev, hashv, newChains, chains, i, todo, its) && Homes(chains, hashv, its)
    && |buckets| == |newChains| == n && |hhNext| == |hhPrev| == |hashv|
    && Multipliers(buckets, ideal) && nonideal == Excess(buckets, ideal)
  }

  function MultiplierFor(count: nat, ideal: nat, before: nat): nat
    requires ideal > 0
  {
    if count > ideal then count / ideal else before
  }

  lemma RedistributeStart(buckets: seq<Bucket>, hhNext: seq<int>, hhPrev: seq<int>, hashv: seq<nat>,
                          chains: seq<seq<int>>, its: seq<int>, n: nat, ideal: nat)
    requires Chains(buckets, hhNext, hhPrev, hashv, chains) && Holds(chains, hashv, its) && n > 0 && ideal > 0
    ensures |buckets| == |chains| > 0 && |hhNext| == |hhPrev| == |hashv|
    ensures forall b :: 0 <= b < |chains| ==> buckets[b].head == At(chains[b], 0)
    ensures Redistributing(NoBuckets(n), hhNext, hhPrev, hashv, NoLists(n), chains, -1, [], its, n, ideal, 0)
  {
    ChainsShape(buckets, hhNext, hhPrev, hashv, chains);
    ExpandStart(buckets, hhNext, hhPrev, hashv, chains, its, n);
    ExcessEmpty(n, ideal);
  }

  lemma RedistributeBucket(buckets: seq<Bucket>, hhNext: seq<int>, hhPrev: seq<int>, hashv: seq<nat>,
                           newChains: seq<seq<int>>, chains: seq<seq<int>>, i: int, its: seq<int>,
                           n: nat, ideal: nat, nonideal: nat)
    requires 0 <= i < |chains| && ideal > 0
    requires Redistributing(buckets, hhNext, hhPrev, hashv, newChains, chains, i - 1, [], its, n, ideal, nonideal)
    ensures Redistributing(buckets, hhNext, hhPrev, hashv, newChains, chains, i, chains[i], its, n, ideal, nonideal)
    ensures At(chains[i], 0) == NULL <==> chains[i] == []
  {
    ExpandNext(buckets, hhNext, hhPrev, hashv, newChains, chains, i, its);
  }

  lemma RedistributeOne(buckets: seq<Bucket>, hhNext: seq<int>, hhPrev: seq<int>, hashv: seq<nat>,
                        newChains: seq<seq<int>>, chains: seq<seq<int>>, i: int, todo: seq<int>, its: seq<int>,
                        k: nat, ideal: nat, nonideal: nat)
    requires 0 <= i < |chains| && ideal > 0 && todo != []
    requires Redistributing(buckets, hhNext, hhPrev, hashv, newChains, chains, i, todo, its, Pow2(k), ideal, nonideal)
    ensures 0 <= todo[0] < |hashv| == |hhNext| == |hhPrev| && hhNext[todo[0]] == At(todo, 1)
    ensures ToBkt(hashv[todo[0]], Pow2(k)) < |buckets| == |newChains|
    ensures var h := todo[0]; var b := ToBkt(hashv[h], Pow2(k)); var bkt := buckets[b]; var count := bkt.count + 1;
            && (bkt.head == NULL || 0 <= bkt.head < |hhPrev|)
            && Redistributing(buckets[b := Bucket(h, count, MultiplierFor(count, ideal, bkt.expandMult))],
                              hhNext[h := bkt.head], Relink(hhPrev[h := NULL], bkt.head, h), hashv,
                              newChains[b := [h] + newChains[b]], chains, i, todo[1..], its,
                              Pow2(k), ideal, if count > ideal then nonideal + 1 else nonideal)
    ensures At(todo[1..], 0) == At(todo, 1) && (At(todo, 1) == NULL <==> todo[1..] == [])
  {
    hide Expanding, Homes, Excess, ToBkt;
    ExpandBounds(buckets, hhNext, hhPrev, hashv, newChains, chains, i, todo, its, k);
    var h := todo[0];
    var b := ToBkt(hashv[h], Pow2(k));
    var count := buckets[b].count + 1;
    var mult := MultiplierFor(count, ideal, buckets[b].expandMult);
    MoveOne(buckets, hhNext, hhPrev, hashv, newChains, chains, i, todo, its, mult);
    ExcessUpdate(buckets, b, Bucket(h, count, mult), ideal);
  }

  lemma RedistributeEnd(buckets: seq<Bucket>, hhNext: seq<int>, hhPrev: seq<int>, hashv: seq<nat>,
                        newChains: seq<seq<int>>, chains: seq<seq<int>>, its: seq<int>,
                        n: nat, ideal: nat, nonideal: nat)
    requires |chains| > 0 && ideal > 0
    requires Redistributing(buckets, hhNext, hhPrev, hashv, newChains, chains, |chains| - 1, [], its,
                            n, ideal, nonideal)
    ensures |buckets| == |newChains| == n && |hhNext| == |hhPrev| == |hashv|
    ensures Chains(buckets, hhNext, hhPrev, hashv, newChains) && Holds(newChains, hashv, its)
    ensures Multipliers(buckets, ideal) && nonideal == Excess(buckets, ideal)
  {
    ExpandEnd(buckets, hhNext, hhPrev, hashv, newChains, chains, its);
  }

  /** The loops of HASH_EXPAND_BUCKETS: every element of the old buckets moves to the front of its
      bucket among `Pow2(k)` new ones. */
  method Redistribute(buckets: seq<Bucket>, hhNext0: seq<int>, hhPrev0: seq<int>, hashv: seq<nat>, n: nat, ideal: nat,
                      ghost chains: seq<seq<int>>, ghost its: seq<int>, ghost k: nat)
    returns (newBuckets: seq<Bucket>, hhNext: seq<int>, hhPrev: seq<int>, nonideal: nat, ghost newChains: seq<seq<int>>)
    requires Chains(buckets, hhNext0, hhPrev0, hashv, chains) && Holds(chains, hashv, its)
    requires n == Pow2(k) && ideal > 0
    ensures |newBuckets| == |newChains| == n && |hhNext| == |hhPrev| == |hashv|
    ensures Chains(newBuckets, hhNext, hhPrev, hashv, newChains) && Holds(newChains, hashv, its)
    ensures Multipliers(newBuckets, ideal) && nonideal == Excess(newBuckets, ideal)
  {
    hide Chains, Holds, Redistributing, Multipliers, Excess, ToBkt;
    hhNext, hhPrev := hhNext0, hhPrev0;
    newBuckets, newChains := NoBuckets(n), NoLists(n);
    nonideal := 0;
    RedistributeStart(buckets, hhNext, hhPrev, hashv, chains, its, n, ideal);
    var i := 0;
    while i < |buckets|
      invariant i <= |buckets|
      invariant Redistributing(newBuckets, hhNext, hhPrev, hashv, newChains, chains, i - 1, [], its, n, ideal, nonideal)
    {
      var thh := buckets[i].head;
      ghost var todo := chains[i];
      RedistributeBucket(newBuckets, hhNext, hhPrev, hashv, newChains, chains, i, its, n, ideal, nonideal);
      while thh != NULL
        invariant thh == At(todo, 0) && (thh == NULL <==> todo == [])
        invariant Redistributing(newBuckets, hhNext, hhPrev, hashv, newChains, chains, i, todo, its, n, ideal, nonideal)
        decreases |todo|
      {
        RedistributeOne(newBuckets, hhNext, hhPrev, hashv, newChains, chains, i, todo, its, k, ideal, nonideal);
        var hhNxt := hhNext[thh];
        var bkt := ToBkt(hashv[thh], n);
        var b := newBuckets[bkt];
        var mult := b.expandMult;
        if b.count + 1 > ideal {
          nonideal := nonideal + 1;
          mult := (b.count + 1) / ideal;
        }
        hhPrev := hhPrev[thh := NULL];
        hhNext := hhNext[thh := b.head];
        if b.head != NULL {
          hhPrev := hhPrev[b.head := thh];
        }
        newBuckets := newBuckets[bkt := Bucket(thh, b.count + 1, mult)];
        newChains, todo := newChains[bkt := [thh] + newChains[bkt]], todo[1..];
        thh := hhNxt;
      }
      i := i + 1;
    }
    RedistributeEnd(newBuckets, hhNext, hhPrev, hashv, newChains, chains, its, n, ideal, nonideal);
  }

  lemma ChainsShape(buckets: seq<Bucket>, hhNext: seq<int>, hhPrev: seq<int>, hashv: seq<nat>, chains: seq<seq<int>>)
    requires Chains(buckets, hhNext, hhPrev, hashv, chains)
    ensures |buckets| == |chains| > 0 && |hhNext| == |hhPrev| == |hashv|
    ensures forall b :: 0 <= b < |chains| ==> buckets[b].head == At(chains[b], 0) && buckets[b].count == |chains[b]|
  {
    forall b | 0 <= b < |chains| ensures buckets[b].head == At(chains[b], 0) && buckets[b].count == |chains[b]| {
      assert BucketOk(buckets[b], hhNext, hhPrev, chains[b]);
    }
  }

  lemma ExpandBounds(buckets: seq<Bucket>, hhNext: seq<int>, hhPrev: seq<int>, hashv: seq<nat>,
                     newChains: seq<seq<int>>, chains: seq<seq<int>>, i: int, todo: seq<int>, its: seq<int>, k: nat)
    requires |chains| > 0 && Expanding(buckets, hhNext, hhPrev, hashv, newChains, chains, i, todo, its)
    requires todo != [] && |buckets| == Pow2(k)
    ensures 0 <= todo[0] < |hhNext| == |hhPrev| == |hashv|
    ensures ToBkt(hashv[todo[0]], |buckets|) < |buckets| == |newChains|
    ensures At(todo[1..], 0) == At(todo, 1) && (At(todo, 1) == NULL <==> todo[1..] == [])
  {
    assert HashesTo(hashv, todo[0], |chains|, i);
    AndMask(hashv[todo[0]], k);
  }

  // ---------- The Bloom filter ----------

  /** HASH_BLOOM_BYTELEN. */
  function BloomBytes(nbits: nat): nat {
    Pow2(nbits) / 8 + (if Pow2(nbits) % 8 != 0 then 1 else 0)
  }

  /** The bit of the filter that stands for a hash value. */
  function BloomBit(hashv: nat, nbits: nat): (i: nat)
    ensures i / 8 < BloomBytes(nbits)
  {
    AndMask(hashv, nbits);
    And(hashv, Pow2(nbits) - 1)
  }

  predicate BloomTest(bv: seq<bv8>, hashv: nat, nbits: nat)
    requires |bv| == BloomBytes(nbits)
  {
    var i := BloomBit(hashv, nbits);
    HasBit(bv[i / 8], i % 8)
  }

  function BloomAdd(bv: seq<bv8>, hashv: nat, nbits: nat): (r: seq<bv8>)
    requires |bv| == BloomBytes(nbits)
    ensures |r| == |bv|
  {
    var i := BloomBit(hashv, nbits);
    bv[i / 8 := SetBit(bv[i / 8], i % 8)]
  }

  /** After a hash value is added, those tests succeed that did before, and those of values with the same last
      bits. */
  lemma BloomKeeps(bv: seq<bv8>, hashv: nat, other: nat, nbits: nat)
    requires |bv| == BloomBytes(nbits)
    ensures BloomTest(BloomAdd(bv, hashv, nbits), other, nbits) <==>
            BloomTest(bv, other, nbits) || other % Pow2(nbits) == hashv % Pow2(nbits)
  {
    hide HasBit, SetBit, And, Pow2, BloomBytes;
    var i, j := BloomBit(hashv, nbits), BloomBit(other, nbits);
    AndMask(hashv, nbits);
    AndMask(other, nbits);
    BitsSet(bv[i / 8], i % 8, j % 8);
    SameBit(i, j);
  }

  lemma SameBit(i: nat, j: nat)
    ensures i == j <==> i / 8 == j / 8 && i % 8 == j % 8
  {
  }

  /** Nothing passes the filter of a new table. */
  lemma BloomEmpty(hashv: nat, nbits: nat)
    ensures !BloomTest(seq(BloomBytes(nbits), _ => 0), hashv, nbits)
  {
  }

  /** No false negatives: every listed element passes the test. `nbits` of -1 means that the
      filter is not compiled in. */
  ghost predicate BloomOk(bv: seq<bv8>, nbits: int, hashv: seq<nat>, its: seq<int>) {
    nbits >= 0 ==>
      |bv| == BloomBytes(nbits) &&
      forall i :: 0 <= i < |its| ==> 0 <= its[i] < |hashv| && BloomTest(bv, hashv[its[i]], nbits)
  }

  // ---------- The table ----------

  /** UT_hash_handle, for all elements of a program: one array per field. */
  datatype Handles = Handles(next: seq<int>, prev: seq<int>, hhNext: seq<int>, hhPrev: seq<int>,
                             key: seq<Key>, hashv: seq<nat>, inTable: seq<bool>)
  {
    ghost predicate Sized() {
      |next| == |prev| == |hhNext| == |hhPrev| == |key| == |hashv| == |inTable|
    }
  }

  /** UT_hash_table, with the tail as a handle. */
  datatype Table = Table(buckets: seq<Bucket>, numBuckets: nat, log2NumBuckets: nat, numItems: nat, tail: int,
                         idealChainMaxlen: nat, nonidealItems: nat, ineffExpands: nat, noexpand: bool,
                         bloomBv: seq<bv8>)

  /** The buckets hold exactly the elements of `its`. */
  ghost predicate Index(t: Table, hh: Handles, chains: seq<seq<int>>, its: seq<int>) {
    && hh.Sized() && |t.buckets| == |chains| == t.numBuckets == Pow2(t.log2NumBuckets)
    && Chains(t.buckets, hh.hhNext, hh.hhPrev, hh.hashv, chains) && Holds(chains, hh.hashv, its)
  }

  /** The insertion-order list is well formed, and its head and tail are right. */
  ghost predicate Order(head: int, t: Table, hh: Handles, items: seq<int>) {
    && hh.Sized() && DList(hh.next, hh.prev, items) && head == At(items, 0)
    && (items != [] ==> t.tail == items[|items| - 1])
  }

  // ---------- The macros, on one table and its handles ----------

  /** The buckets have doubled, and the statistics describe the new ones. */
  ghost predicate Expanded(t: Table, t': Table) {
    && t'.numBuckets == 2 * t.numBuckets && t'.log2NumBuckets == t.log2NumBuckets + 1
    && t'.idealChainMaxlen > 0 && Multipliers(t'.buckets, t'.idealChainMaxlen)
    && IsCeiling(t'.idealChainMaxlen, t'.numItems, t'.numBuckets)
    && t'.nonidealItems == Excess(t'.buckets, t'.idealChainMaxlen)
    && t'.ineffExpands == (if t'.nonidealItems > t'.numItems / 2 then t.ineffExpands + 1 else 0)
    && t'.noexpand == (t.noexpand || t'.ineffExpands > 1)
  }

  /** One element more in the bucket of the hash value brings it to its capacity, and the table may grow. */
  ghost predicate Crowded(t: Table, hashv: nat) {
    && 0 < t.numBuckets == |t.buckets| && !t.noexpand
    && var b := t.buckets[hashv % t.numBuckets];
    b.count + 1 >= (b.expandMult + 1) * 10
  }

  /** The bucket of the hash value has one element more, at its head, and the buckets stay as many. */
  ghost predicate OneMore(t: Table, t': Table, hashv: nat, h: int) {
    && 0 < t.numBuckets == |t.buckets|
    && t' == t.(buckets := t'.buckets, numItems := t'.numItems, tail := t'.tail, bloomBv := t'.bloomBv)
    && var b := hashv % t.numBuckets;
    t'.buckets == t.buckets[b := Bucket(h, t.buckets[b].count + 1, t.buckets[b].expandMult)]
  }

  /** The bucket of the hash value has lost the element `h`, which `next` followed. */
  ghost predicate OneLess(t: Table, t': Table, hashv: nat, h: int, next: int) {
    && 0 < t.numBuckets == |t.buckets|
    && t' == t.(buckets := t'.buckets, numItems := t'.numItems, tail := t'.tail)
    && var b := hashv % t.numBuckets;
    var bkt := t.buckets[b];
    && bkt.count > 0
    && t'.buckets == t.buckets[b := bkt.(head := if bkt.head == h then next else bkt.head, count := bkt.count - 1)]
  }

  /** The bucket of the hash value is at its capacity, and the table may grow. */
  ghost predicate Full(t: Table, hashv: nat) {
    && 0 < t.numBuckets == |t.buckets| && !t.noexpand
    && var b := t.buckets[hashv % t.numBuckets];
    b.count >= (b.expandMult + 1) * 10
  }

  /** As many buckets with as many elements in each, and the same statistics. */
  ghost predicate SameSizes(t: Table, t': Table) {
    && t' == t.(buckets := t'.buckets, numItems := t'.numItems, tail := t'.tail, bloomBv := t'.bloomBv)
    && |t'.buckets| == |t.buckets|
    && forall b :: 0 <= b < |t.buckets| ==>
      t'.buckets[b].count == t.buckets[b].count && t'.buckets[b].expandMult == t.buckets[b].expandMult
  }

  /** One element of a bucket leaves and another comes. */
  lemma Exchanged(t: Table, t1: Table, t': Table, hashv: nat, h: int, next: int, h': int)
    requires OneLess(t, t1, hashv, h, next)
    ensures Crowded(t1, hashv) <==> Full(t, hashv)
    ensures Grown(t1, t', hashv, h') ==> if Full(t, hashv) then Expanded(t, t') else SameSizes(t, t')
  {
  }

  /** What an addition does to the buckets of a table. */
  ghost predicate Grown(t: Table, t': Table, hashv: nat, h: int) {
    if Crowded(t, hashv) then Expanded(t, t') else OneMore(t, t', hashv, h)
  }

  /** The table of one element. */
  ghost predicate OfOne(t: Table, hashv: nat, h: int) {
    && t.numBuckets == 32 == |t.buckets| && t.log2NumBuckets == 5 && !t.noexpand
    && t.idealChainMaxlen == t.nonidealItems == t.ineffExpands == 0
    && forall b :: 0 <= b < 32 ==> t.buckets[b] == if b == hashv % 32 then Bucket(h, 1, 0) else Bucket(NULL, 0, 0)
  }

  /** Tail, number of items and filter have no part in it. */
  lemma GrownStill(t: Table, t0: Table, t1: Table, t': Table, hashv: nat, h: int)
    requires t0 == t.(numItems := t0.numItems, tail := t0.tail) && Grown(t0, t1, hashv, h)
    requires t' == t1.(bloomBv := t'.bloomBv)
    ensures Grown(t, t', hashv, h)
  {
  }

  lemma CrowdedStill(t: Table, t': Table, hashv: nat)
    requires t' == t.(numItems := t'.numItems, tail := t'.tail)
    ensures Crowded(t, hashv) <==> Crowded(t', hashv)
  {
  }

  lemma BucketIsRest(hashv: nat, log2: nat)
    ensures ToBkt(hashv, Pow2(log2)) == hashv % Pow2(log2)
  {
    AndMask(hashv, log2);
  }

  /** HASH_EXPAND_BUCKETS. */
  method ExpandBuckets(t0: Table, hh0: Handles, oom: bool, ghost chains0: seq<seq<int>>, ghost its: seq<int>)
    returns (t: Table, hh: Handles, oomed: bool, ghost chains: seq<seq<int>>)
    requires Index(t0, hh0, chains0, its) && t0.numItems > 0
    ensures oomed == oom && Index(t, hh, chains, its)
    ensures hh == hh0.(hhNext := hh.hhNext, hhPrev := hh.hhPrev)
    ensures oomed ==> t == t0 && hh == hh0 && chains == chains0
    ensures t.numItems == t0.numItems && t.tail == t0.tail && t.bloomBv == t0.bloomBv
    ensures !oomed ==> Expanded(t0, t)
  {
    hide Chains, Holds, Excess, Multipliers, IdealChain, IsCeiling;
    t, hh, oomed, chains := t0, hh0, oom, chains0;
    if !oomed {
      IdealIsCeiling(t.numItems, t.numBuckets, t.log2NumBuckets);
      var ideal := IdealChain(t.numItems, t.numBuckets, t.log2NumBuckets);
      var newBuckets, hhNext, hhPrev, nonideal;
      newBuckets, hhNext, hhPrev, nonideal, chains :=
        Redistribute(t.buckets, hh.hhNext, hh.hhPrev, hh.hashv, 2 * t.numBuckets, ideal, chains, its,
                     t.log2NumBuckets + 1);
      hh := hh.(hhNext := hhNext, hhPrev := hhPrev);
      t := t.(idealChainMaxlen := ideal, nonidealItems := nonideal, buckets := newBuckets,
              numBuckets := t.numBuckets * 2, log2NumBuckets := t.log2NumBuckets + 1);
      t := t.(ineffExpands := if t.nonidealItems > t.numItems / 2 then t.ineffExpands + 1 else 0);
      if t.ineffExpands > 1 {
        t := t.(noexpand := true);
      }
    }
  }

  /** HASH_DEL_IN_BKT can run on `h`: its bucket counts it, and its links are handles or NULL. */
  ghost predicate CanTakeOut(t: Table, hh: Handles, b: nat, h: int) {
    && hh.Sized() && b < |t.buckets| && t.buckets[b].count > 0 && 0 <= h < |hh.hhNext|
    && (hh.hhPrev[h] == NULL || 0 <= hh.hhPrev[h] < |hh.hhNext|)
    && (hh.hhNext[h] == NULL || 0 <= hh.hhNext[h] < |hh.hhNext|)
  }

  /** HASH_DEL_IN_BKT. */
  method DelInBkt(t0: Table, hh0: Handles, b: nat, h: int) returns (t: Table, hh: Handles)
    requires CanTakeOut(t0, hh0, b, h)
    ensures var p, q, bkt := hh0.hhPrev[h], hh0.hhNext[h], t0.buckets[b];
            && hh == hh0.(hhNext := Relink(hh0.hhNext, p, q), hhPrev := Relink(hh0.hhPrev, q, p))
            && t == t0.(buckets := t0.buckets[b :=
                         bkt.(head := if bkt.head == h then q else bkt.head, count := bkt.count - 1)])
  {
    t, hh := t0, hh0;
    var bkt := t.buckets[b];
    t := t.(buckets := t.buckets[b := bkt.(count := bkt.count - 1)]);
    if bkt.head == h {
      t := t.(buckets := t.buckets[b := t.buckets[b].(head := hh.hhNext[h])]);
    }
    if hh.hhPrev[h] != NULL {
      hh := hh.(hhNext := hh.hhNext[hh.hhPrev[h] := hh.hhNext[h]]);
    }
    if hh.hhNext[h] != NULL {
      hh := hh.(hhPrev := hh.hhPrev[hh.hhNext[h] := hh.hhPrev[h]]);
    }
  }

  /** HASH_ADD_TO_BKT up to the test for expansion. */
  method PushToBkt(t0: Table, hh0: Handles, h: int, ghost chains0: seq<seq<int>>, ghost its: seq<int>, ghost k: nat)
    returns (t: Table, hh: Handles, b: nat, ghost chains: seq<seq<int>>)
    requires Index(t0, hh0, chains0, its) && 0 <= h < |hh0.hashv| && h !in its && k <= |its|
    ensures Index(t, hh, chains, Inserted(its, k, h))
    ensures b < |t0.buckets| == |chains0| && HeadFits(t0.buckets[b].head, h, hh0.hhPrev)
    ensures b == ToBkt(hh0.hashv[h], t0.numBuckets) == hh0.hashv[h] % t0.numBuckets
    ensures t0.buckets[b].count == |chains0[b]| && (chains0[b] != [] ==> its != [])
    ensures var bkt := t0.buckets[b];
            && t == t0.(buckets := t0.buckets[b := Bucket(h, bkt.count + 1, bkt.expandMult)])
            && hh == hh0.(hhNext := hh0.hhNext[h := bkt.head], hhPrev := Relink(hh0.hhPrev[h := NULL], bkt.head, h))
            && chains == chains0[b := [h] + chains0[b]]
  {
    hide Chains, Holds, Inserted, ToBkt;
    t, hh, chains := t0, hh0, chains0;
    InBounds(t.buckets, hh.hhNext, hh.hhPrev, hh.hashv, chains, its, h, t.log2NumBuckets);
    b := ToBkt(hh.hashv[h], t.numBuckets);
    BucketIsRest(hh.hashv[h], t.log2NumBuckets);
    NotChained(t.buckets, hh.hhNext, hh.hhPrev, hh.hashv, chains, its, h, b);
    PushFront(t.buckets, hh.hhNext, hh.hhPrev, hh.hashv, chains, h, t.buckets[b].expandMult);
    HoldsPushed(chains, hh.hashv, its, k, h);
    var bkt := t.buckets[b];
    t := t.(buckets := t.buckets[b := bkt.(count := bkt.count + 1)]);
    hh := hh.(hhNext := hh.hhNext[h := bkt.head]);
    hh := hh.(hhPrev := hh.hhPrev[h := NULL]);
    if bkt.head != NULL {
      hh := hh.(hhPrev := hh.hhPrev[bkt.head := h]);
    }
    t := t.(buckets := t.buckets[b := t.buckets[b].(head := h)]);
    chains := chains[b := [h] + chains[b]];
    assert t.buckets == t0.buckets[b := Bucket(h, bkt.count + 1, bkt.expandMult)];
  }

  /** At most the bucket links of `h` itself have changed. */
  ghost predicate SameButFor(h: int, hh: Handles, hh': Handles) {
    && 0 <= h < |hh.hhNext| == |hh'.hhNext| && |hh.hhPrev| == |hh'.hhPrev| == |hh.hhNext|
    && hh' == hh.(hhNext := hh.hhNext[h := hh'.hhNext[h]], hhPrev := hh.hhPrev[h := hh'.hhPrev[h]])
  }

  /** HASH_ADD_TO_BKT. When the buckets cannot be doubled, the element is taken out again. */
  method AddToBkt(t0: Table, hh0: Handles, h: int, oom: bool, ghost chains0: seq<seq<int>>, ghost its: seq<int>,
                  ghost k: nat)
    returns (t: Table, hh: Handles, oomed: bool, ghost chains: seq<seq<int>>)
    requires Index(t0, hh0, chains0, its) && 0 <= h < |hh0.hashv| && h !in its && k <= |its| && t0.numItems > 0
    ensures oomed <==> oom && Crowded(t0, hh0.hashv[h])
    ensures !oomed ==> Grown(t0, t, hh0.hashv[h], h)
    ensures !oomed ==>
              && Index(t, hh, chains, Inserted(its, k, h))
              && hh == hh0.(hhNext := hh.hhNext, hhPrev := hh.hhPrev)
              && t.numItems == t0.numItems && t.tail == t0.tail && t.bloomBv == t0.bloomBv
    ensures oomed ==>
              && its != [] && t == t0 && chains == chains0
              && ToBkt(hh0.hashv[h], t0.numBuckets) < |t0.buckets|
              && t0.buckets[ToBkt(hh0.hashv[h], t0.numBuckets)].head != h
              && SameButFor(h, hh0, hh)
  {
    hide Chains, Holds, Inserted, ToBkt, Expanded;
    var b;
    oomed := false;
    t, hh, b, chains := PushToBkt(t0, hh0, h, chains0, its, k);
    if t.buckets[b].count >= (t.buckets[b].expandMult + 1) * BKT_CAPACITY_THRESH && !t.noexpand {
      ghost var pushed := t;
      t, hh, oomed, chains := ExpandBuckets(t, hh, oom, chains, Inserted(its, k, h));
      if oomed {
        t, hh := DelInBkt(t, hh, b, h);
        chains := chains[b := chains[b][1..]];
        UndoPush(t0.buckets, hh0.hhNext, hh0.hhPrev, chains0, b, h);
      } else {
        ExpandedLater(t0, pushed, t);
      }
    }
  }

  /** The statistics go on from those of the table before the element came. */
  lemma ExpandedLater(t: Table, pushed: Table, t': Table)
    requires Expanded(pushed, t') && pushed == t.(buckets := pushed.buckets)
    ensures Expanded(t, t')
  {
  }

  /** The part of HASH_DELETE_HH that repairs the insertion-order list. */
  method Unlink(head0: int, t0: Table, hh0: Handles, h: int, ghost items: seq<int>, ghost k: nat)
    returns (head: int, t: Table, hh: Handles)
    requires Order(head0, t0, hh0, items) && k < |items| && items[k] == h && |items| > 1
    ensures Order(head, t, hh, Removed(items, k))
    ensures t == t0.(tail := t.tail) && hh == hh0.(next := hh.next, prev := hh.prev)
    ensures SameOutside(hh.next, hh0.next, items) && SameOutside(hh.prev, hh0.prev, items)
  {
    hide DList, Removed, NoDup, SameOutside;
    InOrder(hh0.next, hh0.prev, items, k);
    RemoveDList(hh0.next, hh0.prev, items, k);
    RemovedAt(items, k, 0);
    RemovedAt(items, k, |items| - 2);
    RelinkOutside(hh0.next, hh0.prev[h], hh0.next[h], items);
    RelinkOutside(hh0.prev, hh0.next[h], hh0.prev[h], items);
    head, t, hh := head0, t0, hh0;
    if h == t.tail {
      t := t.(tail := hh.prev[h]);
    }
    if hh.prev[h] != NULL {
      hh := hh.(next := hh.next[hh.prev[h] := hh.next[h]]);
    } else {
      head := hh.next[h];
    }
    if hh.next[h] != NULL {
      hh := hh.(prev := hh.prev[hh.next[h] := hh.prev[h]]);
    }
  }

  lemma RelinkOutside(links: seq<int>, at: int, to: int, items: seq<int>)
    requires at == NULL || (0 <= at < |links| && at in items)
    ensures SameOutside(Relink(links, at, to), links, items)
  {
  }

  lemma RemoveOnly(next: seq<int>, prev: seq<int>, items: seq<int>, k: nat)
    requires DList(next, prev, items) && k < |items| == 1
    ensures DList(next, prev, Removed(items, k)) && Removed(items, k) == []
  {
  }

  /** HASH_DELETE_HH, on an element whose bucket counts it, whether or not it is in the chain. */
  method DeleteHH(head0: int, t0: Table, hh0: Handles, h: int, ghost items: seq<int>, ghost k: nat)
    returns (head: int, t: Table, hh: Handles)
    requires Order(head0, t0, hh0, items) && k < |items| && items[k] == h && 0 <= h < |hh0.hashv|
    requires |items| > 1 ==>
      t0.numItems > 0 && t0.numBuckets > 0 && CanTakeOut(t0, hh0, ToBkt(hh0.hashv[h], t0.numBuckets), h)
    ensures Order(head, t, hh, Removed(items, k))
    ensures SameOutside(hh.next, hh0.next, items) && SameOutside(hh.prev, hh0.prev, items)
    ensures |items| == 1 ==> head == NULL && hh == hh0
    ensures |items| > 1 ==>
              var p, q, b := hh0.hhPrev[h], hh0.hhNext[h], ToBkt(hh0.hashv[h], t0.numBuckets);
              var bkt := t0.buckets[b];
              && hh == hh0.(hhNext := Relink(hh0.hhNext, p, q), hhPrev := Relink(hh0.hhPrev, q, p),
                            next := hh.next, prev := hh.prev)
              && t == t0.(buckets := t0.buckets[b :=
                            bkt.(head := if bkt.head == h then q else bkt.head, count := bkt.count - 1)],
                          numItems := t0.numItems - 1, tail := t.tail)
  {
    hide Removed, ToBkt, DList;
    InOrder(hh0.next, hh0.prev, items, k);
    if hh0.prev[h] == NULL && hh0.next[h] == NULL {
      RemoveOnly(hh0.next, hh0.prev, items, k);
      head, t, hh := NULL, t0, hh0;
    } else {
      head, t, hh := Unlink(head0, t0, hh0, h, items, k);
      var b := ToBkt(hh.hashv[h], t.numBuckets);
      t, hh := DelInBkt(t, hh, b, h);
      t := t.(numItems := t.numItems - 1);
    }
  }

  /** HASH_ROLLBACK_BKT. */
  method RollbackBkt(t0: Table, hh0: Handles, h: int) returns (t: Table, hh: Handles)
    requires hh0.Sized() && 0 <= h < |hh0.hashv| && t0.numBuckets > 0
    requires ToBkt(hh0.hashv[h], t0.numBuckets) < |t0.buckets|
    ensures var b := ToBkt(hh0.hashv[h], t0.numBuckets); var bkt := t0.buckets[b];
            && t == t0.(buckets := t0.buckets[b := bkt.(count := bkt.count + 1)])
            && hh == hh0.(hhNext := hh0.hhNext[h := NULL], hhPrev := hh0.hhPrev[h := NULL])
  {
    var b := ToBkt(hh0.hashv[h], t0.numBuckets);
    t := t0.(buckets := t0.buckets[b := t0.buckets[b].(count := t0.buckets[b].count + 1)]);
    hh := hh0.(hhNext := hh0.hhNext[h := NULL]);
    hh := hh.(hhPrev := hh.hhPrev[h := NULL]);
  }

  /** HASH_ADD_TO_TABLE in its non-fatal form: count and index the element `h`, which is already in
      the insertion-order list at position `k`; when memory runs out, take it out of both again. */
  method AddToTable(head0: int, t0: Table, hh0: Handles, h: int, nbits: int, oom: bool,
                    ghost chains0: seq<seq<int>>, ghost items: seq<int>, ghost k: nat)
    returns (head: int, t: Table, hh: Handles, oomed: bool, ghost chains: seq<seq<int>>)
    requires Order(head0, t0, hh0, items) && k < |items| && items[k] == h && 0 <= h < |hh0.hashv|
    requires var rest := Removed(items, k);
             Index(t0, hh0, chains0, rest) && t0.numItems == |rest| && BloomOk(t0.bloomBv, nbits, hh0.hashv, rest)
    ensures oomed <==> oom && Crowded(t0, hh0.hashv[h])
    ensures !oomed ==> Grown(t0, t, hh0.hashv[h], h)
    ensures !oomed && nbits >= 0 ==> t.bloomBv == BloomAdd(t0.bloomBv, hh0.hashv[h], nbits)
    ensures !oomed ==>
              && Order(head, t, hh, items) && Index(t, hh, chains, items) && t.numItems == |items|
              && BloomOk(t.bloomBv, nbits, hh.hashv, items) && hh == hh0.(hhNext := hh.hhNext, hhPrev := hh.hhPrev)
    ensures oomed ==>
              && Order(head, t, hh, Removed(items, k)) && Removed(items, k) != []
              && t == t0.(tail := t.tail) && chains == chains0
              && SameOutside(hh.next, hh0.next, items) && SameOutside(hh.prev, hh0.prev, items)
              && SameButFor(h, hh0.(next := hh.next, prev := hh.prev, inTable := hh0.inTable[h := false]), hh)
  {
    hide Chains, Holds, Inserted, Removed, ToBkt, DList, BloomTest, NoDup, Grown, Crowded;
    head, t, hh := head0, t0, hh0;
    ghost var rest := Removed(items, k);
    TakenOff(hh.next, hh.prev, items, k);
    t := t.(numItems := t.numItems + 1);
    ghost var counted := t;
    t, hh, oomed, chains := AddToBkt(t, hh, h, oom, chains0, rest, k);
    ghost var added := t;
    if oomed {
      t, hh := RollbackBkt(t, hh, h);
      head, t, hh := DeleteHH(head, t, hh, h, items, k);
      hh := hh.(inTable := hh.inTable[h := false]);
      assert t.buckets == t0.buckets;
    } else if nbits >= 0 {
      BloomGrows(t.bloomBv, hh.hashv, nbits, rest, items, h);
      t := t.(bloomBv := BloomAdd(t.bloomBv, hh.hashv[h], nbits));
    }
    CrowdedStill(t0, counted, hh0.hashv[h]);
    if !oomed { GrownStill(t0, counted, added, t, hh0.hashv[h], h); }
  }

  lemma TakenOff(next: seq<int>, prev: seq<int>, items: seq<int>, k: nat)
    requires DList(next, prev, items) && k < |items|
    ensures |Removed(items, k)| == |items| - 1 && items[k] !in Removed(items, k)
    ensures Inserted(Removed(items, k), k, items[k]) == items
    ensures forall x :: x in items ==> x in Removed(items, k) || x == items[k]
  {
    assert NoDup(items);
    hide DList, NoDup;
    RemoveHas(items, k);
    PutBack(items, k);
  }

  lemma PutBack(items: seq<int>, k: nat)
    requires k < |items|
    ensures Inserted(Removed(items, k), k, items[k]) == items
  {
    assert Removed(items, k)[..k] == items[..k] && Removed(items, k)[k..] == items[k + 1..];
  }

  lemma BloomGrows(bv: seq<bv8>, hashv: seq<nat>, nbits: nat, rest: seq<int>, items: seq<int>, h: int)
    requires BloomOk(bv, nbits, hashv, rest) && 0 <= h < |hashv| && forall x :: x in items ==> x in rest || x == h
    ensures |bv| == BloomBytes(nbits) && BloomOk(BloomAdd(bv, hashv[h], nbits), nbits, hashv, items)
  {
    hide BloomTest, BloomAdd;
    forall i | 0 <= i < |items|
      ensures 0 <= items[i] < |hashv| && BloomTest(BloomAdd(bv, hashv[h], nbits), hashv[items[i]], nbits)
    {
      assert items[i] in items;
      if items[i] == h {
        BloomKeeps(bv, hashv[h], hashv[h], nbits);
      } else {
        var j :| 0 <= j < |rest| && rest[j] == items[i];
        BloomKeeps(bv, hashv[h], hashv[rest[j]], nbits);
      }
    }
  }

  /** HASH_APPEND_LIST. */
  method AppendList(t0: Table, hh0: Handles, h: int, ghost head: int, ghost items: seq<int>)
    returns (t: Table, hh: Handles)
    requires Order(head, t0, hh0, items) && items != [] && 0 <= h < |hh0.next| && h !in items
    ensures t == t0.(tail := h) && hh == hh0.(next := hh.next, prev := hh.prev)
    ensures Order(head, t, hh, Inserted(items, |items|, h))
    ensures SameOutside(hh.next, hh0.next, Inserted(items, |items|, h))
    ensures SameOutside(hh.prev, hh0.prev, Inserted(items, |items|, h))
  {
    hide DList, Inserted, NoDup;
    InOrder(hh0.next, hh0.prev, items, |items| - 1);
    InsertDList(hh0.next, hh0.prev, items, |items|, h);
    InsertHas(items, |items|, h);
    InsertedAt(items, |items|, h, 0);
    InsertedAt(items, |items|, h, |items|);
    hh := hh0.(next := hh0.next[h := NULL]);
    hh := hh.(prev := hh.prev[h := t0.tail]);
    hh := hh.(next := hh.next[t0.tail := h]);
    t := t0.(tail := h);
  }

  /** The first position whose element comes after `h` in the callback's eyes. */
  function Place(items: seq<int>, h: int, cmp: Compare): (k: nat)
    ensures k <= |items|
    ensures forall i :: 0 <= i < k ==> cmp(items[i], h) <= 0
    ensures k < |items| ==> cmp(items[k], h) > 0
  {
    if items == [] || cmp(items[0], h) > 0 then 0 else 1 + Place(items[1..], h, cmp)
  }

  lemma {:induction false} PlaceUnique(items: seq<int>, h: int, cmp: Compare, k: nat)
    requires k <= |items| && (forall i :: 0 <= i < k ==> cmp(items[i], h) <= 0)
    requires k < |items| ==> cmp(items[k], h) > 0
    ensures k == Place(items, h, cmp)
  {
    if items != [] && cmp(items[0], h) <= 0 {
      PlaceUnique(items[1..], h, cmp, k - 1);
    }
  }

  /** The list part of HASH_ADD_KEYPTR_BYHASHVALUE_INORDER. */
  method InsertList(head0: int, t0: Table, hh0: Handles, h: int, cmp: Compare, ghost items: seq<int>)
    returns (head: int, t: Table, hh: Handles)
    requires Order(head0, t0, hh0, items) && items != [] && 0 <= h < |hh0.next| && h !in items
    ensures t == t0.(tail := t.tail) && hh == hh0.(next := hh.next, prev := hh.prev)
    ensures Order(head, t, hh, Inserted(items, Place(items, h, cmp), h))
    ensures SameOutside(hh.next, hh0.next, Inserted(items, Place(items, h, cmp), h))
    ensures SameOutside(hh.prev, hh0.prev, Inserted(items, Place(items, h, cmp), h))
  {
    hide DList, Inserted, Place;
    head, t, hh := head0, t0, hh0;
    var iter := head;
    ghost var k := 0;
    InOrder(hh.next, hh.prev, items, 0);
    // HASH_AKBI_INNER_LOOP
    while iter != NULL
      invariant k <= |items| && iter == At(items, k) && (iter == NULL <==> k == |items|)
      invariant forall i :: 0 <= i < k ==> cmp(items[i], h) <= 0
      decreases |items| - k
    {
      if cmp(iter, h) > 0 {
        break;
      }
      InOrder(hh.next, hh.prev, items, k);
      iter := hh.next[iter];
      k := k + 1;
    }
    PlaceUnique(items, h, cmp, k);
    InsertDList(hh.next, hh.prev, items, k, h);
    InsertHas(items, k, h);
    InsertedAt(items, k, h, 0);
    InsertedAt(items, k, h, |items|);
    if iter != NULL {
      InOrder(hh.next, hh.prev, items, k);
      hh := hh.(next := hh.next[h := iter]);
      hh := hh.(prev := hh.prev[h := hh.prev[iter]]);
      if hh.prev[h] != NULL {
        hh := hh.(next := hh.next[hh.prev[h] := h]);
      } else {
        head := h;
      }
      hh := hh.(prev := hh.prev[iter := h]);
    } else {
      t, hh := AppendList(t, hh, h, head, items);
    }
  }

  /** HASH_DELETE_HH on an element of the table. */
  method DeleteFromTable(head0: int, t0: Table, hh0: Handles, h: int, ghost chains0: seq<seq<int>>,
                         ghost items: seq<int>, ghost k: nat)
    returns (head: int, t: Table, hh: Handles, ghost chains: seq<seq<int>>)
    requires Order(head0, t0, hh0, items) && k < |items| && items[k] == h
    requires Index(t0, hh0, chains0, items) && t0.numItems == |items|
    ensures Order(head, t, hh, Removed(items, k))
    ensures hh == hh0.(next := hh.next, prev := hh.prev, hhNext := hh.hhNext, hhPrev := hh.hhPrev)
    ensures |items| > 1 ==>
              && Index(t, hh, chains, Removed(items, k)) && t.numItems == |items| - 1
              && t == t0.(buckets := t.buckets, numItems := t.numItems, tail := t.tail)
              && OneLess(t0, t, hh0.hashv[h], h, hh0.hhNext[h])
  {
    hide Chains, Holds, Removed, ToBkt, DList;
    ghost var b, j := FindSpot(t0, hh0, chains0, items, k);
    BucketIsRest(hh0.hashv[h], t0.log2NumBuckets);
    TakeOut(t0.buckets, hh0.hhNext, hh0.hhPrev, hh0.hashv, chains0, b, j);
    HoldsLess(t0, hh0, chains0, items, k, b, j);
    head, t, hh := DeleteHH(head0, t0, hh0, h, items, k);
    chains := chains0[b := Removed(chains0[b], j)];
  }

  lemma FindSpot(t: Table, hh: Handles, chains: seq<seq<int>>, items: seq<int>, k: nat) returns (b: nat, j: nat)
    requires Index(t, hh, chains, items) && k < |items|
    ensures 0 <= items[k] < |hh.hashv| && t.numBuckets > 0 && b == ToBkt(hh.hashv[items[k]], t.numBuckets)
    ensures b < |chains| && j < |chains[b]| && chains[b][j] == items[k]
  {
    assert HashedIn(chains, hh.hashv[items[k]], items[k]);
    b := ToBkt(hh.hashv[items[k]], t.numBuckets);
    j :| 0 <= j < |chains[b]| && chains[b][j] == items[k];
  }

  lemma HoldsLess(t: Table, hh: Handles, chains: seq<seq<int>>, items: seq<int>, k: nat, b: nat, j: nat)
    requires Index(t, hh, chains, items) && DList(hh.next, hh.prev, items) && k < |items|
    requires b < |chains| && j < |chains[b]| && chains[b][j] == items[k]
    ensures Holds(chains[b := Removed(chains[b], j)], hh.hashv, Removed(items, k))
  {
    InChains(t.buckets, hh.hhNext, hh.hhPrev, hh.hashv, chains, b);
    forall d | 0 <= d < |chains| && d != b ensures items[k] !in chains[d] {
      ChainsApart(t.buckets, hh.hhNext, hh.hhPrev, hh.hashv, chains, b, d);
    }
    assert NoDup(items);
    hide DList, Chains, NoDup, ToBkt;
    HoldsTaken(chains, hh.hashv, items, k, b, j);
  }

  /** HASH_FIND_IN_BKT. */
  method FindInBkt(hh: Handles, bktHead: int, k: Key, hashval: nat, ghost chain: seq<int>) returns (out: int)
    requires hh.Sized() && DList(hh.hhNext, hh.hhPrev, chain) && bktHead == At(chain, 0)
    ensures out != NULL ==> out in chain && 0 <= out < |hh.key| && hh.hashv[out] == hashval && hh.key[out] == k
    ensures out == NULL ==> forall i :: 0 <= i < |chain| ==>
      0 <= chain[i] < |hh.key| && !(hh.hashv[chain[i]] == hashval && hh.key[chain[i]] == k)
  {
    out := bktHead;
    ghost var i := 0;
    if chain != [] { InOrder(hh.hhNext, hh.hhPrev, chain, 0); }
    while out != NULL
      invariant i <= |chain| && out == At(chain, i) && (out == NULL <==> i == |chain|)
      invariant forall j :: 0 <= j < i ==>
        0 <= chain[j] < |hh.key| && !(hh.hashv[chain[j]] == hashval && hh.key[chain[j]] == k)
      decreases |chain| - i
    {
      InOrder(hh.hhNext, hh.hhPrev, chain, i);
      if hh.hashv[out] == hashval && |hh.key[out]| == |k| {
        if hh.key[out] == k {
          break;
        }
      }
      out := hh.hhNext[out];
      i := i + 1;
    }
  }

  /** HASH_FIND_BYHASHVALUE on an existing table. */
  method FindByHashValue(t: Table, hh: Handles, nbits: int, k: Key, hashval: nat,
                         ghost chains: seq<seq<int>>, ghost items: seq<int>) returns (out: int)
    requires Index(t, hh, chains, items) && BloomOk(t.bloomBv, nbits, hh.hashv, items)
    ensures out != NULL ==> out in items && 0 <= out < |hh.key| && hh.hashv[out] == hashval && hh.key[out] == k
    ensures out == NULL ==> forall i :: 0 <= i < |items| ==>
      0 <= items[i] < |hh.key| && !(hh.hashv[items[i]] == hashval && hh.key[items[i]] == k)
  {
    hide Chains, Holds, ToBkt, DList, BloomTest, HashedIn;
    out := NULL;
    BucketOf(t, hh, chains, items, hashval);
    var bkt := ToBkt(hashval, t.numBuckets);
    if nbits < 0 || BloomTest(t.bloomBv, hashval, nbits) {
      out := FindInBkt(hh, t.buckets[bkt].head, k, hashval, chains[bkt]);
    }
  }

  lemma BucketOf(t: Table, hh: Handles, chains: seq<seq<int>>, items: seq<int>, hashval: nat)
    requires Index(t, hh, chains, items)
    ensures t.numBuckets > 0 && ToBkt(hashval, t.numBuckets) < |t.buckets| == |chains|
    ensures var b := ToBkt(hashval, t.numBuckets);
            && t.buckets[b].head == At(chains[b], 0) && DList(hh.hhNext, hh.hhPrev, chains[b])
            && (forall i :: 0 <= i < |chains[b]| ==> chains[b][i] in items)
            && (forall i :: 0 <= i < |items| ==>
                 0 <= items[i] < |hh.hashv| && (hh.hashv[items[i]] == hashval ==> items[i] in chains[b]))
  {
    AndMask(hashval, t.log2NumBuckets);
    var b := ToBkt(hashval, t.numBuckets);
    assert BucketOk(t.buckets[b], hh.hhNext, hh.hhPrev, chains[b]);
    hide DList, ToBkt, Chains, BucketOk;
    forall i | 0 <= i < |items|
      ensures 0 <= items[i] < |hh.hashv| && (hh.hashv[items[i]] == hashval ==> items[i] in chains[b])
    {
      assert HashedIn(chains, hh.hashv[items[i]], items[i]);
    }
  }

  // ---------- HASH_FSCK, the library's own integrity check ----------

  /** The elements of the first `n` chains, one chain after the other. */
  ghost function Flat(chains: seq<seq<int>>, n: nat): seq<int>
    requires n <= |chains|
  {
    if n == 0 then [] else Flat(chains, n - 1) + chains[n - 1]
  }

  ghost predicate InFirst(t: Table, hh: Handles, items: seq<int>, n: nat, x: int)
    requires t.numBuckets > 0
  {
    x in items && 0 <= x < |hh.hashv| && ToBkt(hh.hashv[x], t.numBuckets) < n
  }

  lemma InBucket(t: Table, hh: Handles, chains: seq<seq<int>>, items: seq<int>, b: nat, x: int)
    requires Index(t, hh, chains, items) && b < |chains|
    ensures x in chains[b] <==> InFirst(t, hh, items, b + 1, x) && !InFirst(t, hh, items, b, x)
  {
    hide DList, ToBkt, BucketOk;
    if x in chains[b] {
      var i :| 0 <= i < |chains[b]| && chains[b][i] == x;
      assert HashesTo(hh.hashv, chains[b][i], |t.buckets|, b) && chains[b][i] in items;
    }
    if InFirst(t, hh, items, b + 1, x) && !InFirst(t, hh, items, b, x) {
      var k :| 0 <= k < |items| && items[k] == x;
      assert HashedIn(chains, hh.hashv[items[k]], items[k]);
    }
  }

  lemma {:induction false} FlatMembers(t: Table, hh: Handles, chains: seq<seq<int>>, items: seq<int>, n: nat)
    requires Index(t, hh, chains, items) && n <= |chains|
    ensures NoDup(Flat(chains, n)) && forall x :: x in Flat(chains, n) <==> InFirst(t, hh, items, n, x)
  {
    hide Chains, Holds, ToBkt, NoDup;
    if n == 0 {
      assert NoDup([]) by { NoneTwice(); }
    } else {
      var flat, last := Flat(chains, n - 1), chains[n - 1];
      FlatMembers(t, hh, chains, items, n - 1);
      InChains(t.buckets, hh.hhNext, hh.hhPrev, hh.hashv, chains, n - 1);
      forall x ensures x in last <==> InFirst(t, hh, items, n, x) && !InFirst(t, hh, items, n - 1, x) {
        InBucket(t, hh, chains, items, n - 1, x);
      }
      NoDupConcat(flat, last);
    }
  }

  lemma NoneTwice()
    ensures NoDup([])
  {
  }

  lemma NoDupConcat(xs: seq<int>, ys: seq<int>)
    requires NoDup(xs) && NoDup(ys) && forall x :: x in xs ==> x !in ys
    ensures NoDup(xs + ys)
  {
    forall i, j | 0 <= i < j < |xs + ys| ensures (xs + ys)[i] != (xs + ys)[j] {
      if i < |xs| <= j {
        assert xs[i] in xs && ys[j - |xs|] in ys;
      }
    }
  }

  lemma {:induction false} SetSize(xs: seq<int>)
    requires NoDup(xs)
    ensures |set x | x in xs| == |xs|
  {
    if xs != [] {
      var init, last := xs[..|xs| - 1], xs[|xs| - 1];
      SetSize(init);
      assert xs == init + [last];
      assert (set x | x in xs) == (set x | x in init) + {last};
    }
  }

  /** The chains together hold as many elements as the insertion-order list. */
  lemma ChainTotal(t: Table, hh: Handles, chains: seq<seq<int>>, items: seq<int>)
    requires Index(t, hh, chains, items) && NoDup(items)
    ensures |Flat(chains, |chains|)| == |items|
  {
    hide Chains, Holds, ToBkt, Flat, NoDup;
    var flat := Flat(chains, |chains|);
    FlatMembers(t, hh, chains, items, |chains|);
    forall x ensures x in flat <==> x in items {
      if x in items {
        var k :| 0 <= k < |items| && items[k] == x;
        var d, i := FindSpot(t, hh, chains, items, k);
      }
    }
    SetSize(flat);
    SetSize(items);
    assert (set x | x in flat) == (set x | x in items);
  }

  lemma ChainShape(t: Table, hh: Handles, chains: seq<seq<int>>, items: seq<int>, b: nat)
    requires Index(t, hh, chains, items) && b < |chains|
    ensures DList(hh.hhNext, hh.hhPrev, chains[b])
    ensures t.buckets[b].head == At(chains[b], 0) && t.buckets[b].count == |chains[b]|
    ensures t.buckets[b].head == NULL <==> chains[b] == []
  {
    assert BucketOk(t.buckets[b], hh.hhNext, hh.hhPrev, chains[b]);
  }

  /** What HASH_FSCK can be run on: following the links from each head ends after finitely many elements. */
  ghost predicate Finite(head: int, t: Table, hh: Handles, chains: seq<seq<int>>, items: seq<int>) {
    && hh.Sized() && Linked(hh.next, items) && head == At(items, 0)
    && (head != NULL ==>
         && |t.buckets| == |chains| == t.numBuckets
         && forall b :: 0 <= b < |chains| ==> ChainFound(t, hh, chains, b))
  }

  ghost predicate ChainFound(t: Table, hh: Handles, chains: seq<seq<int>>, b: nat)
    requires b < |chains| == |t.buckets|
  {
    Linked(hh.hhNext, chains[b]) && t.buckets[b].head == At(chains[b], 0)
  }

  /** Bucket `b` counts its chain, and `hh_prev` undoes `hh_next` along it. */
  ghost predicate ChainRight(t: Table, hh: Handles, chains: seq<seq<int>>, b: nat)
    requires b < |chains| == |t.buckets| && hh.Sized()
  {
    InArena(chains[b], |hh.hhPrev|) && Backward(hh.hhPrev, chains[b]) && t.buckets[b].count == |chains[b]|
  }

  /** What HASH_FSCK looks at: back links and bucket counts, and the number of items on both structures. */
  ghost predicate Consistent(t: Table, hh: Handles, chains: seq<seq<int>>, items: seq<int>)
    requires |chains| == |t.buckets| && hh.Sized()
  {
    && (forall b :: 0 <= b < |chains| ==> ChainRight(t, hh, chains, b))
    && |Flat(chains, |chains|)| == t.numItems == |items|
    && InArena(items, |hh.prev|) && Backward(hh.prev, items)
  }

  /** The walk over one list: its length, and whether `prev` undoes `next`. */
  method Walk(next: seq<int>, prev: seq<int>, head: int, ghost xs: seq<int>) returns (ok: bool, count: nat)
    requires Linked(next, xs) && |prev| == |next| && head == At(xs, 0)
    ensures count == |xs| && (ok <==> Backward(prev, xs))
  {
    ok, count := true, 0;
    var before, h := NULL, head;
    NextsLinked(next, xs);
    while h != NULL
      invariant count <= |xs| && h == At(xs, count) && before == At(xs, count - 1)
      invariant ok <==> forall i :: 0 <= i < count ==> prev[xs[i]] == At(xs, i - 1)
      decreases |xs| - count
    {
      assert h == xs[count] && next[xs[count]] == At(xs, count + 1);
      if before != prev[h] {
        ok := false;
      }
      count := count + 1;
      before := h;
      h := next[h];
    }
  }

  /** HASH_FSCK; false stands for the call of HASH_OOPS. */
  method Fsck(head: int, t: Table, hh: Handles, ghost chains: seq<seq<int>>, ghost items: seq<int>) returns (ok: bool)
    requires Finite(head, t, hh, chains, items)
    ensures ok <==> head == NULL || Consistent(t, hh, chains, items)
  {
    hide Linked, Backward, ChainRight;
    ok := true;
    if head != NULL {
      var count, walked, n := 0, true, 0;
      for bktI := 0 to t.numBuckets
        invariant count == |Flat(chains, bktI)| && (ok <==> forall b :: 0 <= b < bktI ==> ChainRight(t, hh, chains, b))
      {
        assert ChainFound(t, hh, chains, bktI);
        walked, n := Walk(hh.hhNext, hh.hhPrev, t.buckets[bktI].head, chains[bktI]);
        ChainWalked(t, hh, chains, bktI, walked);
        count := count + n;
        ok := ok && walked && t.buckets[bktI].count == n;
      }
      ok := ok && count == t.numItems;
      walked, n := Walk(hh.next, hh.prev, head, items);
      LinkedInArena(hh.next, items);
      ok := ok && walked && n == t.numItems;
    }
  }

  lemma ChainWalked(t: Table, hh: Handles, chains: seq<seq<int>>, b: nat, walked: bool)
    requires b < |chains| == |t.buckets| && hh.Sized() && Linked(hh.hhNext, chains[b])
    requires walked <==> Backward(hh.hhPrev, chains[b])
    ensures ChainRight(t, hh, chains, b) <==> walked && t.buckets[b].count == |chains[b]|
  {
  }

  lemma LinkedInArena(next: seq<int>, xs: seq<int>)
    requires Linked(next, xs)
    ensures InArena(xs, |next|)
  {
  }

  /** A table that satisfies the invariant passes the check. */
  lemma IndexConsistent(head: int, t: Table, hh: Handles, chains: seq<seq<int>>, items: seq<int>)
    requires Order(head, t, hh, items) && (items != [] ==> Index(t, hh, chains, items) && t.numItems == |items|)
    ensures Finite(head, t, hh, chains, items)
    ensures head != NULL ==> Consistent(t, hh, chains, items)
  {
    HeadNull(head, t, hh, items);
    OrderDistinct(head, t, hh, items);
    if head != NULL {
      hide NoDup, Chains, Holds, Flat;
      ChainTotal(t, hh, chains, items);
      forall b | 0 <= b < |chains| ensures ChainFound(t, hh, chains, b) && ChainRight(t, hh, chains, b) {
        ChainShape(t, hh, chains, items, b);
      }
    }
  }

  /** A bucket head that another element can be put in front of. */
  ghost predicate HeadFits(head: int, h: int, hhPrev: seq<int>) {
    head == NULL || (0 <= head < |hhPrev| && head != h && hhPrev[head] == NULL)
  }

  lemma InBounds(buckets: seq<Bucket>, hhNext: seq<int>, hhPrev: seq<int>, hashv: seq<nat>, chains: seq<seq<int>>,
                 its: seq<int>, h: int, log2: nat)
    requires Chains(buckets, hhNext, hhPrev, hashv, chains) && Holds(chains, hashv, its)
    requires 0 <= h < |hashv| && |buckets| == Pow2(log2)
    ensures |buckets| == |chains| && |hhNext| == |hhPrev| == |hashv|
    ensures ToBkt(hashv[h], |buckets|) < |buckets|
  {
    hide ToBkt, BucketOk, HashesTo, HashedIn, Holds;
    BucketBelow(hashv[h], log2);
  }

  lemma BucketBelow(hashv: nat, log2: nat)
    ensures ToBkt(hashv, Pow2(log2)) < Pow2(log2)
  {
    AndMask(hashv, log2);
  }

  lemma NotChained(buckets: seq<Bucket>, hhNext: seq<int>, hhPrev: seq<int>, hashv: seq<nat>, chains: seq<seq<int>>,
                   its: seq<int>, h: int, b: nat)
    requires Chains(buckets, hhNext, hhPrev, hashv, chains) && Holds(chains, hashv, its) && h !in its && b < |chains|
    ensures forall d :: 0 <= d < |chains| ==> h !in chains[d]
    ensures HeadFits(buckets[b].head, h, hhPrev)
    ensures buckets[b].count == |chains[b]| && (chains[b] != [] ==> its != [])
  {
    assert BucketOk(buckets[b], hhNext, hhPrev, chains[b]);
    hide ToBkt, BucketOk, HashedIn, HashesTo;
    forall d, i | 0 <= d < |chains| && 0 <= i < |chains[d]| ensures chains[d][i] != h {
      assert chains[d][i] in its;
    }
    if chains[b] != [] {
      assert chains[b][0] in its;
    }
  }

  /** Taking out the head that has just been put in restores the bucket and all other links. */
  lemma UndoPush(buckets: seq<Bucket>, hhNext: seq<int>, hhPrev: seq<int>, chains: seq<seq<int>>, b: nat, h: int)
    requires b < |buckets| == |chains| && 0 <= h < |hhNext| == |hhPrev| && HeadFits(buckets[b].head, h, hhPrev)
    ensures var bkt := buckets[b]; var pushed := Bucket(h, bkt.count + 1, bkt.expandMult);
            && buckets[b := pushed][b := pushed.(head := bkt.head, count := pushed.count - 1)] == buckets
            && chains[b := [h] + chains[b]][b := ([h] + chains[b])[1..]] == chains
    ensures var head := buckets[b].head;
            Relink(Relink(hhPrev[h := NULL], head, h), head, NULL) == hhPrev[h := NULL]
  {
    assert ([h] + chains[b])[1..] == chains[b];
    assert chains[b := chains[b]] == chains && buckets[b := buckets[b]] == buckets;
    UndoRelink(hhPrev, buckets[b].head, h);
  }

  lemma UndoRelink(links: seq<int>, head: int, h: int)
    requires 0 <= h < |links| && HeadFits(head, h, links)
    ensures Relink(Relink(links[h := NULL], head, h), head, NULL) == links[h := NULL]
  {
  }

  /** Where an element stands in a list shows in its links. */
  lemma InOrder(next: seq<int>, prev: seq<int>, xs: seq<int>, k: nat)
    requires DList(next, prev, xs) && k < |xs|
    ensures 0 <= xs[k] < |next| && next[xs[k]] == At(xs, k + 1) && prev[xs[k]] == At(xs, k - 1)
    ensures (next[xs[k]] == NULL <==> k == |xs| - 1) && (prev[xs[k]] == NULL <==> k == 0)
    ensures xs[k] == At(xs, |xs| - 1) <==> k == |xs| - 1
    ensures prev[xs[k]] != xs[k] && (k + 1 < |xs| ==> prev[xs[k + 1]] == xs[k])
    ensures (prev[xs[k]] != NULL ==> prev[xs[k]] in xs) && (next[xs[k]] != NULL ==> next[xs[k]] in xs)
  {
    NextsLinked(next, xs);
  }

  // ---------- The library as its user sees it ----------

  /** HASH_MAKE_TABLE, on the first element of a table. */
  method MakeTable(hh0: Handles, h: int, nbits: int, oom: bool) returns (t: Table, hh: Handles, oomed: bool)
    requires hh0.Sized() && 0 <= h < |hh0.next|
    ensures oomed == oom && hh == hh0.(inTable := hh0.inTable[h := true])
    ensures t == Table(NoBuckets(INITIAL_NUM_BUCKETS), INITIAL_NUM_BUCKETS, INITIAL_NUM_BUCKETS_LOG2,
                       0, h, 0, 0, 0, false,
                       if nbits >= 0 then seq(BloomBytes(nbits), _ => 0) else [])
  {
    hh := hh0.(inTable := hh0.inTable[h := true]);
    oomed := oom;
    var bloomBv := if nbits >= 0 then seq(BloomBytes(nbits), _ => 0) else [];
    t := Table(NoBuckets(INITIAL_NUM_BUCKETS), INITIAL_NUM_BUCKETS, INITIAL_NUM_BUCKETS_LOG2,
               0, h, 0, 0, 0, false, bloomBv);
  }

  ghost predicate AllHashed(hh: Handles, items: seq<int>, hashFcn: Key -> nat) {
    forall i :: 0 <= i < |items| ==>
      0 <= items[i] < |hh.key| && hh.Sized() && hh.inTable[items[i]] && hh.hashv[items[i]] == hashFcn(hh.key[items[i]])
  }

  /** The whole invariant: the table is the index of its list. */
  ghost predicate TableOk(head: int, t: Table, hh: Handles, nbits: int, hashFcn: Key -> nat,
                          chains: seq<seq<int>>, items: seq<int>) {
    && Order(head, t, hh, items) && AllHashed(hh, items, hashFcn)
    && (items != [] ==>
         Index(t, hh, chains, items) && t.numItems == |items| && BloomOk(t.bloomBv, nbits, hh.hashv, items))
  }

  /** Everything about all elements but `h` is as it was. */
  ghost predicate OthersSame(h: int, hh: Handles, hh': Handles) {
    && hh.Sized() && hh'.Sized() && |hh'.next| == |hh.next|
    && forall x :: 0 <= x < |hh.next| && x != h ==>
         && hh'.next[x] == hh.next[x] && hh'.prev[x] == hh.prev[x]
         && hh'.hhNext[x] == hh.hhNext[x] && hh'.hhPrev[x] == hh.hhPrev[x]
         && hh'.key[x] == hh.key[x] && hh'.hashv[x] == hh.hashv[x] && hh'.inTable[x] == hh.inTable[x]
  }

  /** The user's data and hash fields of all elements but `h` are as they were. */
  ghost predicate KeysSame(h: int, hh: Handles, hh': Handles) {
    && hh.Sized() && hh'.Sized() && |hh'.next| == |hh.next|
    && forall x :: 0 <= x < |hh.next| && x != h ==>
         hh'.key[x] == hh.key[x] && hh'.hashv[x] == hh.hashv[x] && hh'.inTable[x] == hh.inTable[x]
  }

  /** Writing the key and hash value of an element outside the table does not touch the table. */
  lemma KeyOutside(head: int, t: Table, hh: Handles, nbits: int, hashFcn: Key -> nat, chains: seq<seq<int>>,
                   items: seq<int>,
                   h: int, k: Key)
    requires TableOk(head, t, hh, nbits, hashFcn, chains, items) && 0 <= h < |hh.next| && h !in items
    ensures hh.Sized()
    ensures TableOk(head, t,
                    hh.(hashv := hh.hashv[h := hashFcn(k)], key := hh.key[h := k], inTable := hh.inTable[h := true]),
                    nbits, hashFcn, chains, items)
  {
    hide Chains, Holds, DList, BloomTest, BloomOk;
    if items != [] {
      RehashIndex(t, hh, chains, items, h, hashFcn(k));
      RehashBloom(t.bloomBv, nbits, hh.hashv, items, h, hashFcn(k));
    }
  }

  lemma RehashIndex(t: Table, hh: Handles, chains: seq<seq<int>>, items: seq<int>, h: int, v: nat)
    requires Index(t, hh, chains, items) && 0 <= h < |hh.hashv| && h !in items
    ensures Chains(t.buckets, hh.hhNext, hh.hhPrev, hh.hashv[h := v], chains)
    ensures Holds(chains, hh.hashv[h := v], items)
  {
    hide DList, ToBkt;
    var hashv' := hh.hashv[h := v];
    forall b, i | 0 <= b < |chains| && 0 <= i < |chains[b]| ensures HashesTo(hashv', chains[b][i], |t.buckets|, b) {
      assert HashesTo(hh.hashv, chains[b][i], |t.buckets|, b) && chains[b][i] in items;
    }
    forall i | 0 <= i < |items| ensures HashedIn(chains, hashv'[items[i]], items[i]) {
      assert HashedIn(chains, hh.hashv[items[i]], items[i]);
    }
  }

  lemma RehashBloom(bv: seq<bv8>, nbits: int, hashv: seq<nat>, items: seq<int>, h: int, v: nat)
    requires BloomOk(bv, nbits, hashv, items) && 0 <= h < |hashv| && h !in items
    ensures BloomOk(bv, nbits, hashv[h := v], items)
  {
    hide BloomTest;
  }

  lemma FirstOfTable(next: seq<int>, prev: seq<int>, hhNext: seq<int>, hhPrev: seq<int>, hashv: seq<nat>, h: int,
                     nbits: int)
    requires |next| == |prev| == |hhNext| == |hhPrev| == |hashv| && 0 <= h < |next|
    ensures DList(next[h := NULL], prev[h := NULL], [h]) && Removed([h], 0) == []
    ensures Chains(NoBuckets(INITIAL_NUM_BUCKETS), hhNext, hhPrev, hashv, NoLists(INITIAL_NUM_BUCKETS))
    ensures Holds(NoLists(INITIAL_NUM_BUCKETS), hashv, []) && INITIAL_NUM_BUCKETS == Pow2(INITIAL_NUM_BUCKETS_LOG2)
    ensures BloomOk(if nbits >= 0 then seq(BloomBytes(nbits), _ => 0) else [], nbits, hashv, [])
  {
    NoChains(hhNext, hhPrev, hashv, INITIAL_NUM_BUCKETS);
    assert Pow2(5) == 2 * Pow2(4) == 4 * Pow2(3) == 8 * Pow2(2) == 16 * Pow2(1);
  }

  /** A new table is not crowded by its first element. */
  lemma GrownFirst(t: Table, t': Table, hashv: nat, h: int)
    requires t.buckets == NoBuckets(INITIAL_NUM_BUCKETS) && t.numBuckets == INITIAL_NUM_BUCKETS
    requires t.log2NumBuckets == INITIAL_NUM_BUCKETS_LOG2 && !t.noexpand
    requires t.idealChainMaxlen == t.nonidealItems == t.ineffExpands == 0
    ensures !Crowded(t, hashv) && (Grown(t, t', hashv, h) ==> OfOne(t', hashv, h))
  {
  }

  /** HASH_ADD_KEYPTR_BYHASHVALUE (without `cmp`) and its in-order form. `hh1` already holds the new
      element's key and hash value. */
  method Enter(head0: int, t0: Table, hh1: Handles, h: int, nbits: int, oom: bool, inOrder: bool, cmp: Compare,
               ghost chains0: seq<seq<int>>, ghost items0: seq<int>)
    returns (head: int, t: Table, hh: Handles, oomed: bool, ghost chains: seq<seq<int>>, ghost items: seq<int>)
    requires Order(head0, t0, hh1, items0) && 0 <= h < |hh1.next| && h !in items0
    requires items0 != [] ==>
      Index(t0, hh1, chains0, items0) && t0.numItems == |items0| && BloomOk(t0.bloomBv, nbits, hh1.hashv, items0)
    ensures oomed <==> oom && (items0 == [] || Crowded(t0, hh1.hashv[h]))
    ensures !oomed ==> if items0 == [] then OfOne(t, hh1.hashv[h], h) else Grown(t0, t, hh1.hashv[h], h)
    ensures hh.Sized() && KeysSame(h, hh1, hh) && hh.key == hh1.key && hh.hashv == hh1.hashv
    ensures !oomed ==>
              && items == Inserted(items0, if inOrder then Place(items0, h, cmp) else |items0|, h) && hh.inTable[h]
              && Order(head, t, hh, items) && Index(t, hh, chains, items) && t.numItems == |items|
              && BloomOk(t.bloomBv, nbits, hh.hashv, items)
    ensures oomed ==>
              && head == head0 && items == items0 && chains == chains0 && (items0 != [] ==> t == t0)
              && OthersSame(h, hh1, hh) && !hh.inTable[h]
              && Order(head, t, hh, items)
  {
    hide DList, Chains, Holds, BloomTest, BloomOk, Removed, Inserted, Place, SameOutside, OthersSame, KeysSame;
    hide Crowded, Grown, OfOne;
    head, t, chains, items := head0, t0, chains0, items0;
    HeadNull(head0, t0, hh1, items0);
    if head0 == NULL {
      FirstOfTable(hh1.next, hh1.prev, hh1.hhNext, hh1.hhPrev, hh1.hashv, h, nbits);
      EnterFirst(items0, h, cmp);
      hh := hh1.(next := hh1.next[h := NULL]);
      hh := hh.(prev := hh.prev[h := NULL]);
      var made;
      made, hh, oomed := MakeTable(hh, h, nbits, oom);
      if !oomed {
        head, t, chains, items := h, made, NoLists(INITIAL_NUM_BUCKETS), [h];
        head, t, hh, oomed, chains := AddToTable(head, t, hh, h, nbits, oom, chains, items, 0);
        GrownFirst(made, t, hh1.hashv[h], h);
        OnlyLinks(h, hh1, hh);
      } else {
        hh := hh.(inTable := hh.inTable[h := false]);
        NothingElse(h, hh1, hh, t, items);
      }
    } else {
      hh := hh1.(inTable := hh1.inTable[h := true]);
      ghost var k := if inOrder then Place(items0, h, cmp) else |items0|;
      if inOrder {
        head, t, hh := InsertList(head, t, hh, h, cmp, items0);
      } else {
        t, hh := AppendList(t, hh, h, head, items0);
      }
      items := Inserted(items0, k, h);
      Listed(items0, k, h, t0, hh1, hh, chains0);
      ghost var hhListed := hh;
      ghost var tListed := t;
      head, t, hh, oomed, chains := AddToTable(head, t, hh, h, nbits, oom, chains, items, k);
      CrowdedStill(t0, tListed, hh1.hashv[h]);
      if !oomed { GrownStill(t0, tListed, t, t, hh1.hashv[h], h); }
      OnlyLinks(h, hh1, hh);
      if oomed {
        items := items0;
        RolledBack(h, items0, k, hh1, hhListed, hh, head0, head, t0, t);
      }
    }
  }

  class UtHash {
    var head: int
    var t: Table
    var hh: Handles
    const nbits: int
    const hashFcn: Key -> nat
    ghost var items: seq<int>
    ghost var chains: seq<seq<int>>

    ghost predicate Valid()
      reads this
    {
      TableOk(head, t, hh, nbits, hashFcn, chains, items)
    }

    /** `h` is one of the program's elements and not in the table. */
    ghost predicate Free(h: int)
      reads this
    {
      0 <= h < |hh.next| && h !in items
    }

    ghost predicate KeyIn(k: Key)
      reads this
      requires Valid()
    {
      exists i :: 0 <= i < |items| && hh.key[items[i]] == k
    }

    /** No two elements have the same key. */
    ghost predicate Unique()
      reads this
    {
      UniqueKeys(items, hh.key)
    }

    /** The table as a map from keys to elements. */
    ghost function Dictionary(): map<Key, int>
      reads this
      requires Unique()
    {
      Contents(items, hh.key)
    }

    constructor (hh: Handles, nbits: int, hashFcn: Key -> nat)
      requires hh.Sized()
      ensures Valid() && items == [] && this.hh == hh && this.nbits == nbits && this.hashFcn == hashFcn
    {
      this.hh, this.nbits, this.hashFcn := hh, nbits, hashFcn;
      head, items, chains := NULL, [], [];
      t := Table([], 0, 0, 0, NULL, 0, 0, 0, false, []);
    }

    /** HASH_FIND. */
    method Find(k: Key) returns (out: int)
      requires Valid()
      ensures out != NULL ==> out in items && 0 <= out < |hh.key| && hh.key[out] == k
      ensures out == NULL <==> !KeyIn(k)
      ensures Unique() ==> out == if k in Dictionary() then Dictionary()[k] else NULL
    {
      hide Order, Index, BloomOk, UniqueKeys, Contents;
      out := NULL;
      HeadNull(head, t, hh, items);
      if head != NULL {
        out := FindByHashValue(t, hh, nbits, k, hashFcn(k), chains, items);
      }
      if Unique() { DictionaryFind(items, hh.key, k, out); }
    }

    /** HASH_ADD. With `oom`, some allocation of the call fails. */
    method Add(h: int, k: Key, oom: bool) returns (oomed: bool)
      requires Valid() && Free(h)
      modifies `head, `t, `hh, `items, `chains
      ensures Valid() && (oomed <==> oom && (old(items) == [] || Crowded(old(t), hashFcn(k))))
      ensures !oomed ==> if old(items) == [] then OfOne(t, hashFcn(k), h) else Grown(old(t), t, hashFcn(k), h)
      ensures !oomed ==> items == old(items) + [h] && Keyed(h, k)
      ensures oomed ==> Restored(h)
      ensures old(Unique() && !KeyIn(k)) ==>
        Unique() && Dictionary() == if oomed then old(Dictionary()) else old(Dictionary())[k := h]
    {
      hide Order, Index, BloomOk, AllHashed, Inserted, OthersSame, KeysSame, UniqueKeys, Contents;
      hide Crowded, Grown, OfOne;
      InsertedLast(items, h);
      oomed := AddAt(h, k, oom, false, (x, y) => 0);
    }

    /** HASH_ADD_INORDER. */
    method AddInOrder(h: int, k: Key, cmp: Compare, oom: bool) returns (oomed: bool)
      requires Valid() && Free(h)
      modifies `head, `t, `hh, `items, `chains
      ensures Valid() && (oomed <==> oom && (old(items) == [] || Crowded(old(t), hashFcn(k))))
      ensures !oomed ==> if old(items) == [] then OfOne(t, hashFcn(k), h) else Grown(old(t), t, hashFcn(k), h)
      ensures !oomed ==> items == Inserted(old(items), Place(old(items), h, cmp), h) && Keyed(h, k)
      ensures !oomed ==> var n := Place(old(items), h, cmp);
        && (forall i :: 0 <= i < n ==> cmp(old(items)[i], h) <= 0)
        && (n < |old(items)| ==> cmp(old(items)[n], h) > 0)
      ensures oomed ==> Restored(h)
      ensures old(Unique() && !KeyIn(k)) ==>
        Unique() && Dictionary() == if oomed then old(Dictionary()) else old(Dictionary())[k := h]
    {
      hide Order, Index, BloomOk, AllHashed, Inserted, OthersSame, KeysSame, UniqueKeys, Contents;
      hide Crowded, Grown, OfOne;
      oomed := AddAt(h, k, oom, true, cmp);
    }

    /** HASH_DELETE. */
    method Delete(h: int)
      requires Valid() && h in items
      modifies `head, `t, `hh, `items, `chains
      ensures Valid() && items == Removed(old(items), Position(old(items), h))
      ensures hh.key == old(hh.key) && hh.hashv == old(hh.hashv) && hh.inTable == old(hh.inTable)
      ensures |hh.next| == old(|hh.next|) && |items| == |old(items)| - 1
      ensures 0 <= h < |old(hh.key)| == |old(hh.hhNext)|
      ensures |old(items)| > 1 ==> OneLess(old(t), t, hashFcn(old(hh.key)[h]), h, old(hh.hhNext)[h])
      ensures old(Unique()) ==>
        Unique() && Dictionary() == old(Dictionary()) - {old(hh.key)[h]}
    {
      hide Order, Index, BloomOk, Removed, AllHashed, UniqueKeys, Contents, OneLess;
      ghost var k := Position(items, h);
      HashedAt(hh, items, hashFcn, k);
      OrderDistinct(head, t, hh, items);
      if Unique() {
        ContentsRemoved(items, hh.key, k);
        KeyInRange(items, hh.key, h);
      }
      StillOk(head, t, hh, nbits, hashFcn, chains, items, k);
      head, t, hh, chains := DeleteFromTable(head, t, hh, h, chains, items, k);
      items := Removed(items, k);
      HeadNull(head, t, hh, items);
      AllHashedLinks(old(hh), hh, items, hashFcn);
    }

    /** HASH_REPLACE. */
    method Replace(h: int, k: Key, oom: bool) returns (replaced: int, oomed: bool)
      requires Valid() && Free(h)
      modifies `head, `t, `hh, `items, `chains
      ensures Valid()
      ensures oomed <==>
        oom && if replaced == NULL then old(items) == [] || Crowded(old(t), hashFcn(k))
               else |old(items)| == 1 || Full(old(t), hashFcn(k))
      ensures !oomed ==>
        if |old(items)| == (if replaced == NULL then 0 else 1) then OfOne(t, hashFcn(k), h)
        else if replaced == NULL then Grown(old(t), t, hashFcn(k), h)
        else if Full(old(t), hashFcn(k)) then Expanded(old(t), t) else SameSizes(old(t), t)
      ensures replaced != NULL ==> replaced in old(items) && 0 <= replaced < |old(hh.key)| && old(hh.key)[replaced] == k
      ensures replaced == NULL <==> !old(KeyIn(k))
      ensures var rest := if replaced == NULL then old(items) else Removed(old(items), Position(old(items), replaced));
              items == if oomed then rest else rest + [h]
      ensures !oomed ==> Keyed(h, k)
      ensures old(Unique()) ==>
        Unique() && Dictionary() == if oomed then old(Dictionary()) - {k} else old(Dictionary())[k := h]
    {
      hide Order, Index, BloomOk, AllHashed, Removed, OthersSame, UniqueKeys, Contents;
      hide Crowded, Grown, OfOne, OneLess, Full, SameSizes, Expanded;
      HeadNull(head, t, hh, items);
      replaced := Find(k);
      OrderDistinct(head, t, hh, items);
      if Unique() { DictionaryWithout(items, hh.key, k, replaced); }
      if replaced != NULL {
        StillFree(items, replaced, h);
        Delete(replaced);
      }
      ghost var hh1 := hh;
      HeadNull(head, t, hh, items);
      ghost var t1 := t;
      oomed := Add(h, k, oom);
      if replaced != NULL && |old(items)| > 1 {
        Exchanged(old(t), t1, t, hashFcn(k), replaced, old(hh.hhNext)[replaced], h);
      }
      KeysTransitive(h, old(hh), hh1, hh);
    }

    /** HASH_SRT. */
    method Sort(cmp: Compare)
      requires Valid()
      modifies `head, `t, `hh, `items
      ensures Valid() && items == SortFrom(old(items), 1, cmp) && StableSort(old(items), items, cmp)
      ensures old(Unique()) ==> Unique() && Dictionary() == old(Dictionary())
      ensures hh == old(hh).(next := hh.next, prev := hh.prev) && t == old(t).(tail := t.tail)
    {
      hide Order, Index, BloomOk, AllHashed, SortFrom, StableSort, UniqueKeys, Contents;
      SortFromIsStableSort(items, cmp);
      HeadNull(head, t, hh, items);
      if head != NULL {
        OrderList(head, t, hh, items);
        var next, prev, tail;
        next, prev, head, tail := MergeSort.Sort(hh.next, hh.prev, head, cmp, items);
        SortFromMultiset(items, 1, cmp);
        Reordered(t, hh, next, prev, head, tail, nbits, hashFcn, chains, items, SortFrom(items, 1, cmp));
        hh := hh.(next := next, prev := prev);
        t := t.(tail := tail);
        items := SortFrom(items, 1, cmp);
      } else {
        SortNothing(items, cmp);
      }
      OrderDistinct(head, t, hh, items);
      if old(Unique()) { ContentsSorted(old(items), hh.key, cmp); }
    }

    /** HASH_CLEAR. */
    method Clear()
      requires Valid()
      modifies `head, `items, `chains
      ensures Valid() && items == [] && Unique() && Dictionary() == map[]
    {
      hide Order, Index, BloomOk, AllHashed;
      HeadNull(head, t, hh, items);
      NoTable(t, hh, nbits, hashFcn);
      head, items, chains := NULL, [], [];
    }

    /** HASH_COUNT. */
    method Count() returns (n: nat)
      requires Valid()
      ensures n == |items|
    {
      HeadNull(head, t, hh, items);
      n := if head != NULL then t.numItems else 0;
    }

    /** HASH_FSCK finds nothing wrong. */
    method Check() returns (ok: bool)
      requires Valid()
      ensures ok
    {
      IndexConsistent(head, t, hh, chains, items);
      ok := Fsck(head, t, hh, chains, items);
    }

    method AddAt(h: int, k: Key, oom: bool, inOrder: bool, cmp: Compare) returns (oomed: bool)
      requires Valid() && Free(h)
      modifies `head, `t, `hh, `items, `chains
      ensures Valid() && (oomed <==> oom && (old(items) == [] || Crowded(old(t), hashFcn(k))))
      ensures !oomed ==> if old(items) == [] then OfOne(t, hashFcn(k), h) else Grown(old(t), t, hashFcn(k), h)
      ensures !oomed ==>
                && items == Inserted(old(items), if inOrder then Place(old(items), h, cmp) else |old(items)|, h)
                && Keyed(h, k)
      ensures oomed ==> Restored(h)
      ensures old(Unique() && !KeyIn(k)) ==>
        Unique() && Dictionary() == if oomed then old(Dictionary()) else old(Dictionary())[k := h]
    {
      hide Order, Index, BloomOk, Inserted, OthersSame, KeysSame, AllHashed, UniqueKeys, Contents;
      hide Crowded, Grown, OfOne;
      KeyOutside(head, t, hh, nbits, hashFcn, chains, items, h, k);
      var hh1 := hh.(hashv := hh.hashv[h := hashFcn(k)], key := hh.key[h := k]);
      Retag(head, t, hh1, nbits, hashFcn, chains, items, h);
      head, t, hh, oomed, chains, items := Enter(head, t, hh1, h, nbits, oom, inOrder, cmp, chains, items);
      if oomed && items != [] {
        IndexKept(t, hh1, hh, chains, items, h);
      }
      AfterEnter(old(hh), hh1, hh, h, k, hashFcn, old(items),
                 if inOrder then Place(old(items), h, cmp) else |old(items)|, oomed);
      if old(Unique() && !KeyIn(k)) {
        DictionaryAdded(old(items), old(hh), hh, if inOrder then Place(old(items), h, cmp) else |old(items)|, h, k);
      }
    }

    /** The new element has its key, and no other key has changed. */
    twostate predicate Keyed(h: int, k: Key)
      reads this
    {
      KeysSame(h, old(hh), hh) && 0 <= h < |hh.key| && hh.key[h] == k && h < |hh.inTable| && hh.inTable[h]
    }

    /** A failed addition has left no trace but in the handle of its own element. */
    twostate predicate Restored(h: int)
      reads this
    {
      && items == old(items) && head == old(head) && chains == old(chains) && (items != [] ==> t == old(t))
      && OthersSame(h, old(hh), hh) && 0 <= h < |hh.inTable| && !hh.inTable[h]
    }
  }

  lemma HeadNull(head: int, t: Table, hh: Handles, items: seq<int>)
    requires Order(head, t, hh, items)
    ensures hh.Sized() && (head == NULL <==> items == [])
  {
  }

  lemma EnterFirst(items: seq<int>, h: int, cmp: Compare)
    requires items == []
    ensures Inserted(items, 0, h) == [h] && Place(items, h, cmp) == 0
  {
  }

  lemma OnlyLinks(h: int, hh: Handles, hh': Handles)
    requires hh.Sized() && 0 <= h < |hh.next|
    requires |hh'.next| == |hh'.prev| == |hh'.hhNext| == |hh'.hhPrev| == |hh.next|
    requires hh'.key == hh.key && hh'.hashv == hh.hashv && |hh'.inTable| == |hh.inTable|
    requires hh'.inTable == hh.inTable[h := hh'.inTable[h]]
    ensures KeysSame(h, hh, hh')
  {
  }

  lemma NothingElse(h: int, hh: Handles, hh': Handles, t: Table, items: seq<int>)
    requires hh.Sized() && 0 <= h < |hh.next| && items == []
    requires hh' == hh.(next := hh.next[h := NULL], prev := hh.prev[h := NULL],
                        inTable := hh.inTable[h := true][h := false])
    ensures OthersSame(h, hh, hh') && KeysSame(h, hh, hh') && Order(NULL, t, hh', items)
  {
  }

  /** With `h` listed but not yet indexed, the index is still that of the other elements. */
  lemma Listed(items: seq<int>, k: nat, h: int, t: Table, hh: Handles, hh': Handles, chains: seq<seq<int>>)
    requires k <= |items| && h !in items && hh.Sized() && hh'.Sized()
    requires hh' == hh.(next := hh'.next, prev := hh'.prev, inTable := hh'.inTable)
    ensures k < |Inserted(items, k, h)| == |items| + 1 && Inserted(items, k, h)[k] == h
    ensures Removed(Inserted(items, k, h), k) == items
  {
    assert Inserted(items, k, h)[..k] == items[..k] && Inserted(items, k, h)[k + 1..] == items[k..];
  }

  /** Taking an element out of the list again restores every other link. */
  lemma RolledBack(h: int, items: seq<int>, k: nat, hh: Handles, listed: Handles, hh': Handles,
                   head: int, head': int, t: Table, t': Table)
    requires k <= |items| && items != [] && 0 <= h < |hh.next| && h !in items && listed.Sized()
    requires Order(head, t, hh, items) && Order(head', t', hh', Removed(Inserted(items, k, h), k))
    requires listed == hh.(next := listed.next, prev := listed.prev, inTable := hh.inTable[h := true])
    requires SameOutside(listed.next, hh.next, Inserted(items, k, h))
    requires SameOutside(listed.prev, hh.prev, Inserted(items, k, h))
    requires SameOutside(hh'.next, listed.next, Inserted(items, k, h))
    requires SameOutside(hh'.prev, listed.prev, Inserted(items, k, h))
    requires SameButFor(h, listed.(next := hh'.next, prev := hh'.prev, inTable := listed.inTable[h := false]), hh')
    requires t' == t.(tail := t'.tail)
    ensures head' == head && t' == t && OthersSame(h, hh, hh') && Order(head, t, hh', items)
  {
    hide Removed, Inserted, DList, NoDup;
    Listed(items, k, h, t, hh, listed, []);
    InsertHas(items, k, h);
    forall x | 0 <= x < |hh.next| && x != h ensures hh'.next[x] == hh.next[x] && hh'.prev[x] == hh.prev[x] {
      if x in items {
        SameLinks(hh.next, hh.prev, hh'.next, hh'.prev, items, x);
      }
    }
  }

  /** The order of a list determines the links of its elements. */
  lemma SameLinks(next: seq<int>, prev: seq<int>, next': seq<int>, prev': seq<int>, items: seq<int>, x: int)
    requires DList(next, prev, items) && DList(next', prev', items) && x in items
    ensures 0 <= x < |next| && x < |next'| && next'[x] == next[x] && prev'[x] == prev[x]
  {
    var i :| 0 <= i < |items| && items[i] == x;
    InOrder(next, prev, items, i);
    InOrder(next', prev', items, i);
  }

  /** The in-table mark of an element outside the table does not matter. */
  lemma Retag(head: int, t: Table, hh: Handles, nbits: int, hashFcn: Key -> nat, chains: seq<seq<int>>,
              items: seq<int>, h: int)
    requires hh.Sized() && 0 <= h < |hh.next| && h !in items
    requires TableOk(head, t, hh.(inTable := hh.inTable[h := true]), nbits, hashFcn, chains, items)
    ensures TableOk(head, t, hh, nbits, hashFcn, chains, items)
  {
    hide DList, Chains, Holds, BloomTest, BloomOk;
  }

  lemma AfterEnter(hh0: Handles, hh1: Handles, hh: Handles, h: int, k: Key, hashFcn: Key -> nat, items: seq<int>,
                   place: nat, oomed: bool)
    requires hh0.Sized() && 0 <= h < |hh0.next| && h !in items && place <= |items|
    requires hh1 == hh0.(hashv := hh0.hashv[h := hashFcn(k)], key := hh0.key[h := k])
    requires AllHashed(hh0, items, hashFcn) && KeysSame(h, hh1, hh) && hh.key == hh1.key && hh.hashv == hh1.hashv
    ensures KeysSame(h, hh0, hh) && hh.Sized() && |hh.next| == |hh0.next| && hh.key[h] == k
    ensures AllHashed(hh, items, hashFcn)
    ensures hh.inTable[h] ==> AllHashed(hh, Inserted(items, place, h), hashFcn)
    ensures OthersSame(h, hh1, hh) ==> OthersSame(h, hh0, hh)
  {
    InsertHas(items, place, h);
    hide Inserted;
    var items' := Inserted(items, place, h);
    if hh.inTable[h] {
      forall i | 0 <= i < |items'|
        ensures 0 <= items'[i] < |hh.key| && hh.inTable[items'[i]] && hh.hashv[items'[i]] == hashFcn(hh.key[items'[i]])
      {
        if items'[i] != h {
          var j :| 0 <= j < |items| && items[j] == items'[i];
        }
      }
    }
  }

  /** The index does not depend on the handle of an element outside the table. */
  lemma IndexKept(t: Table, hh: Handles, hh': Handles, chains: seq<seq<int>>, items: seq<int>, h: int)
    requires Index(t, hh, chains, items) && h !in items && OthersSame(h, hh, hh') && hh'.hashv == hh.hashv
    ensures Index(t, hh', chains, items)
  {
    hide DList, ToBkt;
    forall b | 0 <= b < |chains| ensures BucketOk(t.buckets[b], hh'.hhNext, hh'.hhPrev, chains[b]) {
      assert BucketOk(t.buckets[b], hh.hhNext, hh.hhPrev, chains[b]);
      forall i | 0 <= i < |chains[b]| ensures chains[b][i] != h && 0 <= chains[b][i] < |hh.hashv| {
        assert chains[b][i] in items && HashesTo(hh.hashv, chains[b][i], |t.buckets|, b);
      }
      KeepDList(hh.hhNext, hh.hhPrev, hh'.hhNext, hh'.hhPrev, chains[b]);
    }
  }

  function Position(items: seq<int>, h: int): (k: nat)
    requires h in items
    ensures k < |items| && items[k] == h
  {
    if items[0] == h then 0 else 1 + Position(items[1..], h)
  }

  lemma StillOk(head: int, t: Table, hh: Handles, nbits: int, hashFcn: Key -> nat, chains: seq<seq<int>>,
                items: seq<int>, k: nat)
    requires TableOk(head, t, hh, nbits, hashFcn, chains, items) && k < |items|
    ensures |Removed(items, k)| == |items| - 1 && AllHashed(hh, Removed(items, k), hashFcn) && hh.Sized()
    ensures BloomOk(t.bloomBv, nbits, hh.hashv, Removed(items, k))
  {
    hide DList, Chains, Holds, BloomTest;
  }

  lemma AllHashedLinks(hh: Handles, hh': Handles, items: seq<int>, hashFcn: Key -> nat)
    requires AllHashed(hh, items, hashFcn) && hh'.Sized()
    requires hh'.key == hh.key && hh'.hashv == hh.hashv && hh'.inTable == hh.inTable
    ensures AllHashed(hh', items, hashFcn)
  {
  }

  lemma HashedAt(hh: Handles, items: seq<int>, hashFcn: Key -> nat, k: nat)
    requires AllHashed(hh, items, hashFcn) && k < |items|
    ensures hh.Sized() && 0 <= items[k] < |hh.key| && hh.hashv[items[k]] == hashFcn(hh.key[items[k]])
  {
  }

  lemma StillFree(items: seq<int>, x: int, h: int)
    requires x in items && h !in items
    ensures h !in Removed(items, Position(items, x))
  {
  }

  lemma KeysTransitive(h: int, a: Handles, b: Handles, c: Handles)
    requires a.Sized() && b.Sized() && |b.next| == |a.next|
    requires b.key == a.key && b.hashv == a.hashv && b.inTable == a.inTable
    ensures KeysSame(h, b, c) ==> KeysSame(h, a, c)
  {
  }

  lemma OrderList(head: int, t: Table, hh: Handles, items: seq<int>)
    requires Order(head, t, hh, items)
    ensures hh.Sized() && Linked(hh.next, items) && head == At(items, 0)
  {
  }

  lemma SortNothing(items: seq<int>, cmp: Compare)
    requires items == []
    ensures SortFrom(items, 1, cmp) == []
  {
  }

  lemma NoTable(t: Table, hh: Handles, nbits: int, hashFcn: Key -> nat)
    requires hh.Sized()
    ensures TableOk(NULL, t, hh, nbits, hashFcn, [], [])
  {
    EmptyDList(hh.next, hh.prev);
  }

  /** Putting the same elements in another order leaves the index right. */
  lemma Reordered(t: Table, hh: Handles, next: seq<int>, prev: seq<int>, head: int, tail: int, nbits: int,
                  hashFcn: Key -> nat,
                  chains: seq<seq<int>>, items: seq<int>, items': seq<int>)
    requires AllHashed(hh, items, hashFcn) && Index(t, hh, chains, items) && t.numItems == |items|
    requires BloomOk(t.bloomBv, nbits, hh.hashv, items)
    requires multiset(items') == multiset(items) && |items'| == |items| > 0
    requires DList(next, prev, items') && |next| == |prev| == |hh.next| && head == At(items', 0)
    requires tail == At(items', |items'| - 1)
    ensures TableOk(head, t.(tail := tail), hh.(next := next, prev := prev), nbits, hashFcn, chains, items')
  {
    hide DList, Chains, BloomTest, HashedIn;
    forall i | 0 <= i < |items'| ensures items'[i] in items {
      assert items'[i] in multiset(items');
    }
    forall i | 0 <= i < |items| ensures items[i] in items' {
      assert items[i] in multiset(items);
    }
    assert Holds(chains, hh.hashv, items') by {
      forall i | 0 <= i < |items'|
        ensures 0 <= items'[i] < |hh.hashv| && HashedIn(chains, hh.hashv[items'[i]], items'[i])
      {
        var j :| 0 <= j < |items| && items[j] == items'[i];
        assert HashedIn(chains, hh.hashv[items[j]], items[j]);
      }
    }
  }

  // ---------- What the table means ----------

  ghost predicate UniqueKeys(items: seq<int>, key: seq<Key>) {
    InArena(items, |key|) && forall i, j :: 0 <= i < j < |items| ==> key[items[i]] != key[items[j]]
  }

  /** The table as a dictionary. */
  ghost function Contents(items: seq<int>, key: seq<Key>): map<Key, int>
    requires InArena(items, |key|)
  {
    if items == [] then map[]
    else var last := items[|items| - 1]; Contents(items[..|items| - 1], key)[key[last] := last]
  }

  /** With unique keys the dictionary sends a key to the one element that has it. */
  lemma {:induction false} ContentsHas(items: seq<int>, key: seq<Key>, k: Key)
    requires UniqueKeys(items, key)
    ensures forall i :: 0 <= i < |items| && key[items[i]] == k ==>
      k in Contents(items, key) && Contents(items, key)[k] == items[i]
    ensures k in Contents(items, key) ==> exists i :: 0 <= i < |items| && key[items[i]] == k
  {
    if items != [] {
      ContentsHas(items[..|items| - 1], key, k);
      if k in Contents(items, key) && k != key[items[|items| - 1]] {
        var i :| 0 <= i < |items| - 1 && key[items[..|items| - 1][i]] == k;
        assert key[items[i]] == k;
      }
    }
  }

  ghost predicate Holder(items: seq<int>, key: seq<Key>, k: Key, x: int) {
    x in items && 0 <= x < |key| && key[x] == k
  }

  lemma ContentsHolder(items: seq<int>, key: seq<Key>, k: Key, x: int)
    requires UniqueKeys(items, key)
    ensures k in Contents(items, key) && Contents(items, key)[k] == x <==> Holder(items, key, k, x)
  {
    ContentsHas(items, key, k);
    if Holder(items, key, k, x) {
      var i :| 0 <= i < |items| && items[i] == x;
    }
  }

  /** A map that agrees with the holders of every key is the contents. */
  lemma ContentsAre(items: seq<int>, key: seq<Key>, m: map<Key, int>)
    requires UniqueKeys(items, key)
    requires forall k, x :: k in m && m[k] == x <==> Holder(items, key, k, x)
    ensures Contents(items, key) == m
  {
    forall k ensures k in m <==> k in Contents(items, key) {
      if k in m { ContentsHolder(items, key, k, m[k]); }
      if k in Contents(items, key) { ContentsHolder(items, key, k, Contents(items, key)[k]); }
    }
    forall k | k in m ensures m[k] == Contents(items, key)[k] {
      ContentsHolder(items, key, k, m[k]);
    }
  }

  /** Adding an element under a new key, at whatever position, adds that key to the dictionary. */
  lemma ContentsInserted(items: seq<int>, key: seq<Key>, key': seq<Key>, p: nat, h: int, k: Key)
    requires UniqueKeys(items, key) && p <= |items| && h !in items && 0 <= h < |key'| == |key| && key'[h] == k
    requires forall i :: 0 <= i < |items| ==> key'[items[i]] == key[items[i]] != k
    ensures UniqueKeys(Inserted(items, p, h), key')
    ensures Contents(Inserted(items, p, h), key') == Contents(items, key)[k := h]
  {
    var items', m := Inserted(items, p, h), Contents(items, key)[k := h];
    InsertHas(items, p, h);
    forall i | 0 <= i < |items'| ensures 0 <= items'[i] < |key'| {
      InsertedAt(items, p, h, i);
    }
    forall i, j | 0 <= i < j < |items'| ensures key'[items'[i]] != key'[items'[j]] {
      InsertedAt(items, p, h, i);
      InsertedAt(items, p, h, j);
    }
    hide Inserted, Contents;
    forall l, x ensures l in m && m[l] == x <==> Holder(items', key', l, x) {
      ContentsHolder(items, key, l, x);
      ContentsHolder(items, key, k, x);
    }
    ContentsAre(items', key', m);
  }

  /** Deleting an element takes its key out of the dictionary. */
  lemma ContentsRemoved(items: seq<int>, key: seq<Key>, p: nat)
    requires UniqueKeys(items, key) && p < |items| && NoDup(items)
    ensures UniqueKeys(Removed(items, p), key)
    ensures Contents(Removed(items, p), key) == Contents(items, key) - {key[items[p]]}
  {
    var items', m := Removed(items, p), Contents(items, key) - {key[items[p]]};
    RemoveHas(items, p);
    forall i, j | 0 <= i < j < |items'| ensures key[items'[i]] != key[items'[j]] {
      RemovedAt(items, p, i);
      RemovedAt(items, p, j);
    }
    hide Removed, Contents;
    forall l, x ensures l in m && m[l] == x <==> Holder(items', key, l, x) {
      ContentsHolder(items, key, l, x);
      ContentsHolder(items, key, l, items[p]);
    }
    ContentsAre(items', key, m);
  }

  /** Sorting does not change the dictionary. */
  lemma ContentsSorted(items: seq<int>, key: seq<Key>, cmp: Compare)
    requires UniqueKeys(items, key) && NoDup(SortFrom(items, 1, cmp))
    ensures UniqueKeys(SortFrom(items, 1, cmp), key)
    ensures Contents(SortFrom(items, 1, cmp), key) == Contents(items, key)
  {
    SortFromMultiset(items, 1, cmp);
    var items', m := SortFrom(items, 1, cmp), Contents(items, key);
    hide SortFrom, Contents;
    forall i | 0 <= i < |items'| ensures items'[i] in items {
      assert items'[i] in multiset(items');
    }
    forall i, j | 0 <= i < j < |items'| ensures key[items'[i]] != key[items'[j]] {
      var i' :| 0 <= i' < |items| && items[i'] == items'[i];
      var j' :| 0 <= j' < |items| && items[j'] == items'[j];
    }
    forall l, x ensures l in m && m[l] == x <==> Holder(items', key, l, x) {
      ContentsHolder(items, key, l, x);
      assert x in items <==> x in multiset(items);
      assert x in items' <==> x in multiset(items');
    }
    ContentsAre(items', key, m);
  }

  lemma DictionaryFind(items: seq<int>, key: seq<Key>, k: Key, out: int)
    requires UniqueKeys(items, key)
    requires if out == NULL then forall i :: 0 <= i < |items| ==> key[items[i]] != k else Holder(items, key, k, out)
    ensures out == if k in Contents(items, key) then Contents(items, key)[k] else NULL
  {
    ContentsHas(items, key, k);
    ContentsHolder(items, key, k, out);
  }

  /** An element under a new key, or a failed addition. */
  lemma DictionaryAdded(items: seq<int>, hh: Handles, hh': Handles, p: nat, h: int, k: Key)
    requires UniqueKeys(items, hh.key) && h !in items && p <= |items| && hh.Sized() && hh'.Sized()
    requires forall i :: 0 <= i < |items| ==> hh.key[items[i]] != k
    requires KeysSame(h, hh, hh') && |hh'.next| == |hh.next| && 0 <= h < |hh'.key| && hh'.key[h] == k
    ensures UniqueKeys(items, hh'.key) && Contents(items, hh'.key) == Contents(items, hh.key)
    ensures UniqueKeys(Inserted(items, p, h), hh'.key)
    ensures Contents(Inserted(items, p, h), hh'.key) == Contents(items, hh.key)[k := h]
  {
    forall i | 0 <= i < |items| ensures hh'.key[items[i]] == hh.key[items[i]] {
      assert items[i] in items;
    }
    ContentsInserted(items, hh.key, hh'.key, p, h, k);
    forall l, x
      ensures l in Contents(items, hh.key) && Contents(items, hh.key)[l] == x <==> Holder(items, hh'.key, l, x)
    {
      ContentsHolder(items, hh.key, l, x);
    }
    ContentsAre(items, hh'.key, Contents(items, hh.key));
  }

  /** Without the element that has it, if any, no element has the key. */
  lemma DictionaryWithout(items: seq<int>, key: seq<Key>, k: Key, out: int)
    requires UniqueKeys(items, key) && NoDup(items)
    requires if out == NULL then forall i :: 0 <= i < |items| ==> key[items[i]] != k else Holder(items, key, k, out)
    ensures var rest := if out == NULL then items else Removed(items, Position(items, out));
            && UniqueKeys(rest, key) && Contents(rest, key) == Contents(items, key) - {k}
            && forall i :: 0 <= i < |rest| ==> key[rest[i]] != k
  {
    hide Contents;
    if out == NULL {
      ContentsHas(items, key, k);
    } else {
      var p := Position(items, out);
      ContentsRemoved(items, key, p);
      forall i | 0 <= i < |Removed(items, p)| ensures key[Removed(items, p)[i]] != k {
        RemovedAt(items, p, i);
      }
    }
  }

  lemma KeyInRange(items: seq<int>, key: seq<Key>, h: int)
    requires UniqueKeys(items, key) && h in items
    ensures 0 <= h < |key|
  {
  }

  lemma InsertedLast(items: seq<int>, h: int)
    ensures Inserted(items, |items|, h) == items + [h]
  {
  }

  lemma OrderDistinct(head: int, t: Table, hh: Handles, items: seq<int>)
    requires Order(head, t, hh, items)
    ensures NoDup(items)
  {
  }

  /** An in-order addition to a sorted table keeps it sorted, after the elements equal to the new one. */
  lemma PlaceSorted(items: seq<int>, h: int, cmp: Compare)
    requires Preorder(cmp) && Sorted(items, cmp)
    ensures Sorted(Inserted(items, Place(items, h, cmp), h), cmp)
  {
    var k := Place(items, h, cmp);
    var r := Inserted(items, k, h);
    forall i | k <= i < |items| ensures Le(cmp, h, items[i]) {
      assert !Le(cmp, items[k], h);
      assert i == k || Le(cmp, items[k], items[i]);
    }
    forall i | 0 <= i < k ensures Le(cmp, items[i], h) {
    }
    forall i, j | 0 <= i < j < |r| ensures Le(cmp, r[i], r[j]) {
      InsertedAt(items, k, h, i);
      InsertedAt(items, k, h, j);
    }
  }
}
