/**
 * The holdings ledger: for each customer who has something out, the records
 * borrowed, oldest first, at most 13 of them. The store keeps each list in a
 * 13-slot array of pointers, filled from the front, with null marking a free
 * slot; the operations below come both at that level (`Slots`, methods that
 * follow the array loops) and at the level of the list they represent.
 */
module Holdings {
  import opened Outcomes
  import opened Movies

  /** `defaultMaxCustMovieLimit`: how many records one customer may hold. */
  const MaxHoldings: nat := 13

  type Ledger = map<int, seq<Movie>>

  /** The records a customer holds; none when the customer has no entry. */
  function HeldBy(l: Ledger, id: int): seq<Movie> {
    if id in l then l[id] else []
  }

  /** Entries exist only while non-empty, and never exceed the limit. */
  ghost predicate LedgerInv(l: Ledger) {
    forall id | id in l :: 1 <= |l[id]| <= MaxHoldings
  }

  // ------------------------------------------------------------ list level

  /**
   * `addToCustomersBorrowList(m, id)`: a customer without an entry gets one
   * if `known` (the directory finds the ID); the record then goes into the
   * first free place, which fails when all 13 are taken.
   */
  function AddHolding(l: Ledger, id: int, m: Movie, known: bool): (r: Attempt<Ledger>)
    ensures r.ok <==> (id in l || known) && |HeldBy(l, id)| < MaxHoldings
    ensures !r.ok ==> r.state == l
    ensures r.ok ==> r.state == l[id := HeldBy(l, id) + [m]]
  {
    if id !in l && !known then Attempt(false, l)
    else if |HeldBy(l, id)| < MaxHoldings then Attempt(true, l[id := HeldBy(l, id) + [m]])
    else Attempt(false, l)
  }

  /**
   * `customerBorrowListEmpty(id)`: every one of the customer's 13 slots is
   * null, read here off the list those slots hold.
   */
  function HoldingsEmpty(l: Ledger, id: int): (r: bool)
    requires id in l && |l[id]| <= MaxHoldings
    ensures r <==> forall k | 0 <= k < MaxHoldings :: Pack(l[id], MaxHoldings)[k].None?
  {
    assert |l[id]| > 0 ==> Pack(l[id], MaxHoldings)[0] == Some(l[id][0]);
    |l[id]| == 0
  }

  /**
   * The position of the first record from `k` on whose key, as `keyOf`
   * computes it, is `key`. The store compares sorting keys, so `keyOf` is
   * `SortingCriteria` there.
   */
  function MatchFrom(h: seq<Movie>, keyOf: Movie -> string, key: string, k: nat): (r: Option<nat>)
    requires k <= |h|
    ensures r.Some? ==> k <= r.value < |h| && keyOf(h[r.value]) == key
    ensures r.Some? ==> forall j | k <= j < r.value :: keyOf(h[j]) != key
    ensures r.None? ==> forall j | k <= j < |h| :: keyOf(h[j]) != key
    decreases |h| - k
  {
    if k == |h| then None
    else if keyOf(h[k]) == key then Some(k)
    else MatchFrom(h, keyOf, key, k + 1)
  }

  /** The position of the first record whose key is `key`. */
  function FirstMatch(h: seq<Movie>, keyOf: Movie -> string, key: string): (r: Option<nat>)
    ensures r.Some? ==> r.value < |h| && keyOf(h[r.value]) == key
    ensures r.Some? ==> forall k | 0 <= k < r.value :: keyOf(h[k]) != key
    ensures r.None? <==> forall k | 0 <= k < |h| :: keyOf(h[k]) != key
  {
    MatchFrom(h, keyOf, key, 0)
  }

  lemma {:induction false} MatchFromAt(h: seq<Movie>, keyOf: Movie -> string, key: string, k: nat, i: nat)
    requires k <= i < |h| && keyOf(h[i]) == key
    requires forall j | k <= j < i :: keyOf(h[j]) != key
    ensures MatchFrom(h, keyOf, key, k) == Some(i)
    decreases i - k
  {
    if k < i {
      MatchFromAt(h, keyOf, key, k + 1, i);
    }
  }

  /** A matching record with no match before it is the first match. */
  lemma FirstMatchAt(h: seq<Movie>, keyOf: Movie -> string, key: string, i: nat)
    requires i < |h| && keyOf(h[i]) == key
    requires forall k | 0 <= k < i :: keyOf(h[k]) != key
    ensures FirstMatch(h, keyOf, key) == Some(i)
  {
    MatchFromAt(h, keyOf, key, 0, i);
  }

  function RemoveAt(h: seq<Movie>, i: nat): (r: seq<Movie>)
    requires i < |h|
    ensures |r| == |h| - 1
    ensures forall k | 0 <= k < i :: r[k] == h[k]
    ensures forall k | i <= k < |r| :: r[k] == h[k + 1]
  {
    h[..i] + h[i + 1..]
  }

  /**
   * `removeFromCustomerList(m, id)`: for a non-empty record (by the base
   * class's test) and a customer with an entry, the first held record with
   * the same sorting key is removed, the rest keeping their order, and an
   * entry left with nothing is erased. Any other case fails with no change.
   */
  function RemoveHolding(l: Ledger, id: int, m: Movie): (r: Attempt<Ledger>)
    ensures r.ok <==>
              && !BaseEmpty(m) && id in l
              && exists k | 0 <= k < |l[id]| :: SortingCriteria(l[id][k]) == SortingCriteria(m)
    ensures !r.ok ==> r.state == l
    ensures r.ok ==>
              var i := FirstMatch(l[id], SortingCriteria, SortingCriteria(m)).value;
              var rest := RemoveAt(l[id], i);
              r.state == if |rest| == 0 then l - {id} else l[id := rest]
  {
    if BaseEmpty(m) || id !in l then Attempt(false, l)
    else match FirstMatch(l[id], SortingCriteria, SortingCriteria(m))
         case None => Attempt(false, l)
         case Some(i) =>
           var rest := RemoveAt(l[id], i);
           Attempt(true, if |rest| == 0 then l - {id} else l[id := rest])
  }

  lemma AddHoldingPreservesInv(l: Ledger, id: int, m: Movie, known: bool)
    requires LedgerInv(l)
    ensures LedgerInv(AddHolding(l, id, m, known).state)
  {
  }

  lemma RemoveHoldingPreservesInv(l: Ledger, id: int, m: Movie)
    requires LedgerInv(l)
    ensures LedgerInv(RemoveHolding(l, id, m).state)
  {
  }

  /** Removing a record just added gives the ledger back, when nothing earlier shares its key. */
  lemma AddThenRemove(l: Ledger, id: int, m: Movie, known: bool)
    requires LedgerInv(l) && !BaseEmpty(m)
    requires AddHolding(l, id, m, known).ok
    requires forall k | 0 <= k < |HeldBy(l, id)| :: SortingCriteria(HeldBy(l, id)[k]) != SortingCriteria(m)
    ensures RemoveHolding(AddHolding(l, id, m, known).state, id, m) == Attempt(true, l)
  {
    var l2 := AddHolding(l, id, m, known).state;
    var h := HeldBy(l, id);
    assert l2[id] == h + [m];
    forall k | 0 <= k < |h|
      ensures SortingCriteria(l2[id][k]) != SortingCriteria(m)
    {
      assert l2[id][k] == h[k];
    }
    FirstMatchAt(l2[id], SortingCriteria, SortingCriteria(m), |h|);
    assert RemoveAt(l2[id], |h|) == h;
    if |h| == 0 {
      assert id !in l;
      assert l2 - {id} == l;
    } else {
      assert l2[id := h] == l;
    }
  }

  // ----------------------------------------------------------- array level

  /** One customer's 13-slot array; `None` is a null slot. */
  type Slots = seq<Option<Movie>>

  /** Filled from the front: no record after a free slot. */
  predicate Packed(a: Slots) {
    forall i, j | 0 <= i < j < |a| && a[i].None? :: a[j].None?
  }

  /** The records of an array, in slot order. */
  function Values(a: Slots): (h: seq<Movie>)
    ensures |h| <= |a|
  {
    if |a| == 0 then []
    else (if a[0].Some? then [a[0].value] else []) + Values(a[1..])
  }

  /** The array of `n` slots holding `h` from the front. */
  function Pack(h: seq<Movie>, n: nat): (a: Slots)
    requires |h| <= n
    ensures |a| == n
    ensures forall k | 0 <= k < |h| :: a[k] == Some(h[k])
    ensures forall k | |h| <= k < n :: a[k] == None
  {
    seq(n, k requires 0 <= k < n => if k < |h| then Some(h[k]) else None)
  }

  /** Packing a list and reading it back gives the list. */
  lemma {:induction false} ValuesOfPack(h: seq<Movie>, n: nat)
    requires |h| <= n
    ensures Values(Pack(h, n)) == h && Packed(Pack(h, n))
    decreases n
  {
    var a := Pack(h, n);
    if n > 0 {
      if |h| > 0 {
        assert a[1..] == Pack(h[1..], n - 1);
        ValuesOfPack(h[1..], n - 1);
        assert h == [h[0]] + h[1..];
      } else {
        assert a[1..] == Pack(h, n - 1);
        ValuesOfPack(h, n - 1);
      }
    }
  }

  /** A packed array is the packing of its own records. */
  lemma {:induction false} PackOfValues(a: Slots)
    requires Packed(a)
    ensures a == Pack(Values(a), |a|)
    decreases |a|
  {
    if |a| > 0 {
      if a[0].None? {
        assert forall k | 0 <= k < |a| :: a[k].None?;
        ValuesOfFree(a);
      } else {
        assert Packed(a[1..]);
        PackOfValues(a[1..]);
        var h := Values(a[1..]);
        assert Pack(Values(a), |a|)[1..] == Pack(h, |a| - 1);
      }
    }
  }

  /** An array of null slots holds no record. */
  lemma {:induction false} ValuesOfFree(a: Slots)
    requires forall k | 0 <= k < |a| :: a[k].None?
    ensures Values(a) == []
    decreases |a|
  {
    if |a| > 0 {
      ValuesOfFree(a[1..]);
    }
  }

  /** The present slots of a packed array are exactly its first `|Values(a)|` slots. */
  lemma PackedSlots(a: Slots)
    requires Packed(a)
    ensures forall k | 0 <= k < |Values(a)| :: a[k] == Some(Values(a)[k])
    ensures forall k | |Values(a)| <= k < |a| :: a[k] == None
  {
    PackOfValues(a);
  }

  /**
   * The loop of `addToCustomersBorrowList` over the array: the record goes
   * into the first null slot; with no null slot nothing changes.
   */
  method FillFirstFree(a: Slots, m: Movie) returns (ok: bool, a2: Slots)
    ensures ok <==> exists k | 0 <= k < |a| :: a[k].None?
    ensures !ok ==> a2 == a
    ensures ok ==> exists i | 0 <= i < |a| ::
                     && a[i].None? && (forall k | 0 <= k < i :: a[k].Some?) && a2 == a[i := Some(m)]
    ensures Packed(a) ==> Packed(a2) && (ok <==> |Values(a)| < |a|)
    ensures Packed(a) && ok ==> a2 == Pack(Values(a) + [m], |a|)
  {
    var i := 0;
    while i < |a|
      invariant 0 <= i <= |a|
      invariant forall k | 0 <= k < i :: a[k].Some?
    {
      if a[i].None? {
        a2 := a[i := Some(m)];
        ok := true;
        if Packed(a) {
          PackedSlots(a);
          assert |Values(a)| < |a| ==> a[|Values(a)|] == None;
          ValuesOfPack(Values(a) + [m], |a|);
        }
        return;
      }
      i := i + 1;
    }
    ok := false;
    a2 := a;
    ValuesOfFull(a);
  }

  /** An array with no null slot holds one record per slot. */
  lemma {:induction false} ValuesOfFull(a: Slots)
    requires forall k | 0 <= k < |a| :: a[k].Some?
    ensures |Values(a)| == |a|
    decreases |a|
  {
    if |a| > 0 {
      ValuesOfFull(a[1..]);
    }
  }

  /** `customerBorrowListEmpty` over the array: count the null slots and compare with the size. */
  method AllFree(a: Slots) returns (empty: bool)
    ensures empty <==> forall k | 0 <= k < |a| :: a[k].None?
    ensures Packed(a) ==> (empty <==> Values(a) == [])
  {
    var counter := 0;
    var i := 0;
    while i < |a|
      invariant 0 <= i <= |a|
      invariant 0 <= counter <= i
      invariant counter == i <==> forall k | 0 <= k < i :: a[k].None?
    {
      if a[i].None? {
        counter := counter + 1;
      }
      i := i + 1;
    }
    empty := counter == |a|;
    if Packed(a) {
      PackedSlots(a);
    }
  }

  /**
   * The loops of `removeFromCustomerList` over the array: find the first
   * record with the key, null its slot, then shift the following records
   * down one place until a null slot or the end of the array is reached.
   */
  method RemoveFirstMatch(a: Slots, keyOf: Movie -> string, key: string) returns (ok: bool, a2: Slots)
    requires |a| == MaxHoldings
    ensures |a2| == |a|
    ensures ok <==> exists k | 0 <= k < |a| :: a[k].Some? && keyOf(a[k].value) == key
    ensures !ok ==> a2 == a
    ensures Packed(a) ==> Packed(a2)
    ensures Packed(a) && ok ==>
              var f := FirstMatch(Values(a), keyOf, key);
              f.Some? && a2 == Pack(RemoveAt(Values(a), f.value), |a|)
  {
    var i := 0;
    while i < |a|
      invariant 0 <= i <= |a|
      invariant forall k | 0 <= k < i :: a[k].None? || keyOf(a[k].value) != key
    {
      if a[i].Some? && keyOf(a[i].value) == key {
        var start := i;
        ghost var e := |a| - 1;
        a2 := a[i := None];
        while i < |a| - 1
          invariant start <= i < |a| && |a2| == |a| && e == |a| - 1
          invariant forall k | 0 <= k < start :: a2[k] == a[k]
          invariant forall k | start <= k < i :: a2[k] == a[k + 1]
          invariant forall k | i < k < |a| :: a2[k] == a[k]
          invariant i == start ==> a2[i] == None
          invariant i > start ==> a2[i] == a[i] && i < |a| - 1
        {
          a2 := a2[i := a2[i + 1]];
          if a2[i + 1].None? {
            e := i + 1;
            break;
          }
          if i + 1 == |a| - 1 {
            a2 := a2[i + 1 := None];
            break;
          }
          i := i + 1;
        }
        ok := true;
        if Packed(a) {
          RemovedPacked(a, keyOf, key, start, e, a2);
        }
        return;
      }
      i := i + 1;
    }
    ok := false;
    a2 := a;
  }

  /**
   * What the shifting loop leaves in a packed array: the slots before the
   * match as they were, each later slot holding its successor's record.
   */
  lemma RemovedPacked(a: Slots, keyOf: Movie -> string, key: string, start: nat, e: nat, a2: Slots)
    requires Packed(a) && start <= e < |a| == |a2|
    requires a[start].Some? && keyOf(a[start].value) == key
    requires forall k | 0 <= k < start :: a[k].None? || keyOf(a[k].value) != key
    requires forall k | 0 <= k < start :: a2[k] == a[k]
    requires forall k | start <= k < e :: a2[k] == a[k + 1]
    requires forall k | e < k < |a| :: a2[k] == a[k]
    requires a2[e] == None && (e == |a| - 1 || a[e].None?)
    ensures Packed(a2)
    ensures var f := FirstMatch(Values(a), keyOf, key);
            f.Some? && a2 == Pack(RemoveAt(Values(a), f.value), |a|)
  {
    PackedSlots(a);
    var h := Values(a);
    assert start < |h|;
    forall k | 0 <= k < start
      ensures keyOf(h[k]) != key
    {
      assert a[k] == Some(h[k]);
    }
    FirstMatchAt(h, keyOf, key, start);
    var r := RemoveAt(h, start);
    var p := Pack(r, |a|);
    forall k | 0 <= k < |a|
      ensures a2[k] == p[k]
    {
      if k < start {
      } else if k < e {
        assert a2[k] == a[k + 1];
      } else if k < |a| - 1 {
        assert a[k + 1].None?;
      }
    }
    ValuesOfPack(r, |a|);
  }
}
