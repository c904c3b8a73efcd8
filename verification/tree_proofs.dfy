/**
 * What the array-based tree guarantees: insertion and stock changes keep the
 * tree invariant, the search finds every stored record, insertion never
 * stores a second record with the same key, stock changes undo each other,
 * the in-order traversal lists every record exactly once in ascending key
 * order, and "full" means "as many records as slots".
 */
module TreeProofs {
  import opened Outcomes
  import opened Movies
  import opened ArrayTree

  // -------------------------------------------------------- structure facts

  /** The parent chain of an occupied slot is occupied all the way up. */
  lemma {:induction false} AncestorOccupied(t: Tree, j: nat, a: nat)
    requires ParentClosed(t) && Occupied(t, j) && Descends(j, a)
    ensures Occupied(t, a)
    decreases j
  {
    if j != a {
      AncestorOccupied(t, Parent(j), a);
    }
  }

  lemma {:induction false} NotBelowFree(t: Tree, p: nat, j: nat)
    requires ParentClosed(t) && !Occupied(t, p) && Occupied(t, j)
    ensures !Descends(j, p)
    decreases j
  {
    if j > p {
      NotBelowFree(t, p, Parent(j));
    }
  }

  /** No occupied slot lies in the subtree of an unused one. */
  lemma FreeSubtree(t: Tree, p: nat)
    requires ParentClosed(t) && !Occupied(t, p)
    ensures forall j: nat | Occupied(t, j) :: !Descends(j, p) && !InLeft(j, p) && !InRight(j, p)
  {
    forall j: nat | Occupied(t, j)
      ensures !Descends(j, p) && !InLeft(j, p) && !InRight(j, p)
    {
      NotBelowFree(t, p, j);
      assert Parent(2 * p + 1) == p && Parent(2 * p + 2) == p;
      NotBelowFree(t, 2 * p + 1, j);
      NotBelowFree(t, 2 * p + 2, j);
    }
  }

  // ----------------------------------------------------------------- search

  /** A record sorting after one with the query's key compares greater than the query. */
  lemma AboveKey(m: Movie, n: Movie, q: Movie)
    requires GenreOf(m) == GenreOf(q) && Before(n, m) && SameKey(n, q)
    ensures !Eq(m, q) && Gt(m, q)
  {
    ComparatorsMatchOrder(m, q);
    SameKeyCompatible(n, q, m);
    BeforeAsymmetric(q, m);
  }

  /** A record sorting before one with the query's key compares neither equal nor greater. */
  lemma BelowKey(m: Movie, n: Movie, q: Movie)
    requires GenreOf(m) == GenreOf(q) && Before(m, n) && SameKey(n, q)
    ensures !Eq(m, q) && !Gt(m, q)
  {
    ComparatorsMatchOrder(m, q);
    SameKeyCompatible(n, q, m);
    BeforeAsymmetric(m, q);
  }

  /** A record with the query's key compares equal to it. */
  lemma AtKey(m: Movie, q: Movie)
    requires GenreOf(m) == GenreOf(q) && SameKey(m, q)
    ensures Eq(m, q)
  {
    ComparatorsMatchOrder(m, q);
  }

  /** One search step: a slot sorting after the sought key sends the search to its left child. */
  lemma SearchGoesLeft(t: Tree, q: Movie, i: nat, n: Movie)
    requires i < |t.slots| && Occupied(t, 2 * i + 1) && GenreOf(t.slots[i]) == GenreOf(q)
    requires Before(n, t.slots[i]) && SameKey(n, q)
    ensures SearchFrom(t, q, i) == SearchFrom(t, q, 2 * i + 1)
  {
    AboveKey(t.slots[i], n, q);
  }

  /** One search step: a slot sorting before the sought key sends the search to its right child. */
  lemma SearchGoesRight(t: Tree, q: Movie, i: nat, n: Movie)
    requires i < |t.slots| && Occupied(t, 2 * i + 2) && GenreOf(t.slots[i]) == GenreOf(q)
    requires Before(t.slots[i], n) && SameKey(n, q)
    ensures SearchFrom(t, q, i) == SearchFrom(t, q, 2 * i + 2)
  {
    BelowKey(t.slots[i], n, q);
  }

  /** The search stops at a slot holding the sought key. */
  lemma SearchStops(t: Tree, q: Movie, i: nat)
    requires i < |t.slots| && GenreOf(t.slots[i]) == GenreOf(q) && SameKey(t.slots[i], q)
    ensures SearchFrom(t, q, i) == SearchResult(true, i)
  {
    AtKey(t.slots[i], q);
  }

  /** A search that reaches the sought key in the left subtree of `i` reaches it from `i`. */
  lemma FoundThroughLeft(t: Tree, q: Movie, i: nat, j: nat)
    requires SameGenre(t) && Ordered(t) && GenreOf(q) == t.genre
    requires Occupied(t, i) && Occupied(t, j) && InLeft(j, i) && SameKey(t.slots[j], q)
    requires Occupied(t, 2 * i + 1) && SearchFrom(t, q, 2 * i + 1) == SearchResult(true, j)
    ensures SearchFrom(t, q, i) == SearchResult(true, j)
  {
    assert Before(SlotAt(t, j), SlotAt(t, i));
    SearchGoesLeft(t, q, i, t.slots[j]);
  }

  /** A search that reaches the sought key in the right subtree of `i` reaches it from `i`. */
  lemma FoundThroughRight(t: Tree, q: Movie, i: nat, j: nat)
    requires SameGenre(t) && Ordered(t) && GenreOf(q) == t.genre
    requires Occupied(t, i) && Occupied(t, j) && InRight(j, i) && SameKey(t.slots[j], q)
    requires Occupied(t, 2 * i + 2) && SearchFrom(t, q, 2 * i + 2) == SearchResult(true, j)
    ensures SearchFrom(t, q, i) == SearchResult(true, j)
  {
    assert Before(SlotAt(t, i), SlotAt(t, j));
    SearchGoesRight(t, q, i, t.slots[j]);
  }

  /**
   * Searching from an ancestor of the slot holding a record with the query's
   * key ends at exactly that slot.
   */
  lemma {:induction false} SearchFindsPresent(t: Tree, q: Movie, i: nat, j: nat)
    requires SameGenre(t) && ParentClosed(t) && Ordered(t) && GenreOf(q) == t.genre
    requires Occupied(t, j) && Descends(j, i) && SameKey(t.slots[j], q)
    ensures i < |t.slots| && SearchFrom(t, q, i) == SearchResult(true, j)
    decreases |t.slots| - i
  {
    AncestorOccupied(t, j, i);
    if i == j {
      SearchStops(t, q, i);
    } else {
      DescendsSplit(j, i);
      if InLeft(j, i) {
        AncestorOccupied(t, j, 2 * i + 1);
        SearchFindsPresent(t, q, 2 * i + 1, j);
        FoundThroughLeft(t, q, i, j);
      } else {
        AncestorOccupied(t, j, 2 * i + 2);
        SearchFindsPresent(t, q, 2 * i + 2, j);
        FoundThroughRight(t, q, i, j);
      }
    }
  }

  /** The search from the root finds every stored record's key, at the slot holding it. */
  lemma SearchComplete(t: Tree, q: Movie, j: nat)
    requires Inv(t) && GenreOf(q) == t.genre
    requires Occupied(t, j) && SameKey(t.slots[j], q)
    ensures Search(t, q) == SearchResult(true, j)
  {
    DescendsFromRoot(j);
    SearchFindsPresent(t, q, 0, j);
  }

  /**
   * A successful search names a slot holding a record with the query's key,
   * and an occupied one unless the tree is empty.
   */
  lemma SearchSound(t: Tree, q: Movie)
    requires SameGenre(t) && GenreOf(q) == t.genre && 0 < |t.slots|
    ensures Search(t, q).found ==> SameKey(t.slots[Search(t, q).index], q)
    ensures Search(t, q).found && Occupied(t, 0) ==> Occupied(t, Search(t, q).index)
  {
    var r := Search(t, q);
    if r.found {
      ComparatorsMatchOrder(t.slots[r.index], q);
    }
  }

  /**
   * `q` belongs below slot `p` in key order: it sorts before every occupied
   * ancestor whose left subtree holds `p` and after every one whose right
   * subtree does.
   */
  ghost predicate OnPath(t: Tree, q: Movie, p: nat) {
    && (forall a: nat {:trigger InLeft(p, a)} | Occupied(t, a) && InLeft(p, a) :: Before(q, SlotAt(t, a)))
    && (forall a: nat {:trigger InRight(p, a)} | Occupied(t, a) && InRight(p, a) :: Before(SlotAt(t, a), q))
  }

  lemma StepLeft(t: Tree, q: Movie, i: nat)
    requires OnPath(t, q, i) && Before(q, SlotAt(t, i))
    ensures OnPath(t, q, 2 * i + 1)
  {
    var c := 2 * i + 1;
    forall a: nat | Occupied(t, a) && InLeft(c, a)
      ensures Before(q, SlotAt(t, a))
    {
      if c != 2 * a + 1 {
        assert InLeft(i, a);
      }
    }
    forall a: nat | Occupied(t, a) && InRight(c, a)
      ensures Before(SlotAt(t, a), q)
    {
      assert c != 2 * a + 2;
      assert InRight(i, a);
    }
  }

  lemma StepRight(t: Tree, q: Movie, i: nat)
    requires OnPath(t, q, i) && Before(SlotAt(t, i), q)
    ensures OnPath(t, q, 2 * i + 2)
  {
    var c := 2 * i + 2;
    forall a: nat | Occupied(t, a) && InLeft(c, a)
      ensures Before(q, SlotAt(t, a))
    {
      assert c != 2 * a + 1;
      assert InLeft(i, a);
    }
    forall a: nat | Occupied(t, a) && InRight(c, a)
      ensures Before(SlotAt(t, a), q)
    {
      if c != 2 * a + 2 {
        assert InRight(i, a);
      }
    }
  }

  /** Which way a search that does not match at slot `i` goes, in key-order terms. */
  lemma SearchTurn(t: Tree, q: Movie, i: nat)
    requires SameGenre(t) && GenreOf(q) == t.genre && i < |t.slots| && !Eq(t.slots[i], q)
    ensures Gt(t.slots[i], q) ==> Before(q, SlotAt(t, i))
    ensures !Gt(t.slots[i], q) ==> Before(SlotAt(t, i), q)
  {
    ComparatorsMatchOrder(t.slots[i], q);
    Trichotomy(t.slots[i], q);
  }

  /** One step of a search that does not match at slot `i`: it continues at, or stops on, child `c`. */
  lemma SearchStep(t: Tree, q: Movie, i: nat)
    requires i < |t.slots| && !Eq(t.slots[i], q)
    ensures var c := if Gt(t.slots[i], q) then 2 * i + 1 else 2 * i + 2;
      SearchFrom(t, q, i) == if Occupied(t, c) then SearchFrom(t, q, c) else SearchResult(false, c)
  {
  }

  /** A search that misses stops at a slot where the query fits the key order. */
  lemma {:induction false} SearchPath(t: Tree, q: Movie, i: nat)
    requires SameGenre(t) && GenreOf(q) == t.genre && i < |t.slots| && OnPath(t, q, i)
    ensures !SearchFrom(t, q, i).found ==> OnPath(t, q, SearchFrom(t, q, i).index)
    decreases |t.slots| - i
  {
    if !Eq(t.slots[i], q) {
      SearchTurn(t, q, i);
      SearchStep(t, q, i);
      var c := if Gt(t.slots[i], q) then 2 * i + 1 else 2 * i + 2;
      if Gt(t.slots[i], q) {
        StepLeft(t, q, i);
      } else {
        StepRight(t, q, i);
      }
      if Occupied(t, c) {
        SearchPath(t, q, c);
      }
    }
  }

  // -------------------------------------------------------------- insertion

  /** The slots after writing `m` at `p`: the old ones, plus `p`. */
  lemma PlacedSlots(t: Tree, t2: Tree, p: nat, m: Movie)
    requires PlacedAt(t, t2, p, m) && !IsEmpty(m)
    ensures forall k: nat :: Occupied(t2, k) <==> Occupied(t, k) || k == p
    ensures forall k: nat :: SlotAt(t2, k) == if k == p then m else SlotAt(t, k)
  {
  }

  lemma PlaceKeepsOrder(t: Tree, t2: Tree, p: nat, m: Movie)
    requires ParentClosed(t) && Ordered(t) && !Occupied(t, p) && OnPath(t, m, p)
    requires PlacedAt(t, t2, p, m) && !IsEmpty(m)
    ensures Ordered(t2)
  {
    PlacedSlots(t, t2, p, m);
    FreeSubtree(t, p);
    forall i: nat, j: nat | Occupied(t2, i) && Occupied(t2, j) && InLeft(j, i)
      ensures Before(SlotAt(t2, j), SlotAt(t2, i))
    {
      if j != p {
        assert Occupied(t, j);
      }
    }
    forall i: nat, j: nat | Occupied(t2, i) && Occupied(t2, j) && InRight(j, i)
      ensures Before(SlotAt(t2, i), SlotAt(t2, j))
    {
      if j != p {
        assert Occupied(t, j);
      }
    }
  }

  lemma PlaceKeepsParentClosed(t: Tree, t2: Tree, p: nat, m: Movie)
    requires ParentClosed(t) && PlacedAt(t, t2, p, m) && !IsEmpty(m)
    requires p == 0 || Occupied(t, Parent(p))
    ensures ParentClosed(t2)
  {
    PlacedSlots(t, t2, p, m);
  }

  lemma PlaceCounts(t: Tree, t2: Tree, p: nat, m: Movie)
    requires PlacedAt(t, t2, p, m) && !IsEmpty(m) && !Occupied(t, p)
    ensures |OccupiedSet(t2)| == |OccupiedSet(t)| + 1
  {
    PlacedSlots(t, t2, p, m);
    assert OccupiedSet(t2) == OccupiedSet(t) + {p};
  }

  /**
   * Writing a well-formed record into an unused slot whose parent is
   * occupied, at a place that respects the key order, keeps the invariant.
   */
  lemma PlacePreservesInv(t: Tree, t2: Tree, p: nat, m: Movie)
    requires Inv(t) && GenreOf(m) == t.genre && WellFormed(m)
    requires PlacedAt(t, t2, p, m) && !Occupied(t, p) && |t2.slots| <= MaxCapacity
    requires t2.currentSize == t.currentSize + 1
    requires OnPath(t, m, p)
    requires p == 0 || Occupied(t, Parent(p))
    ensures Inv(t2)
  {
    WellFormedIsNotEmpty(m);
    PlacedSlots(t, t2, p, m);
    PlaceKeepsOrder(t, t2, p, m);
    PlaceKeepsParentClosed(t, t2, p, m);
    PlaceCounts(t, t2, p, m);
  }

  /** Insertion keeps the tree invariant for a well-formed record of the tree's genre. */
  lemma InsertPreservesInv(t: Tree, m: Movie)
    requires Inv(t) && GenreOf(m) == t.genre && WellFormed(m)
    ensures Inv(Insert(t, m).state)
  {
    var r := Insert(t, m);
    if r.ok {
      var p := InsertionPoint(t, m);
      if !IsEmpty(t.slots[0]) {
        SearchPath(t, m, 0);
      }
      PlacePreservesInv(t, r.state, p, m);
    }
  }

  /** A successful insertion stores a key that was not in the tree before. */
  lemma InsertAddsNewKey(t: Tree, m: Movie)
    requires Inv(t) && GenreOf(m) == t.genre
    ensures Insert(t, m).ok ==> forall j: nat | Occupied(t, j) :: !SameKey(t.slots[j], m)
  {
    if Insert(t, m).ok {
      forall j: nat | Occupied(t, j)
        ensures !SameKey(t.slots[j], m)
      {
        DescendsFromRoot(j);
        AncestorOccupied(t, j, 0);
        if SameKey(t.slots[j], m) {
          SearchComplete(t, m, j);
        }
      }
    }
  }

  /** After a successful insertion the search finds the new record where it was stored. */
  lemma InsertedIsFound(t: Tree, m: Movie)
    requires Inv(t) && GenreOf(m) == t.genre && WellFormed(m)
    ensures Insert(t, m).ok ==> Search(Insert(t, m).state, m) == SearchResult(true, InsertionPoint(t, m))
  {
    var r := Insert(t, m);
    if r.ok {
      InsertPreservesInv(t, m);
      WellFormedIsNotEmpty(m);
      SearchComplete(r.state, m, InsertionPoint(t, m));
    }
  }

  /**
   * A record as a genre constructor builds it for the catalog, with a title
   * and every copy on the shelf, can always be offered to `Insert`: the tree
   * stays valid, and an accepted record is found where it was stored.
   */
  lemma InsertConstructedRecord(t: Tree, m: Movie)
    requires Inv(t) && GenreOf(m) == t.genre
    requires m.title != "" && 0 <= m.stock == m.startingStock
    ensures Inv(Insert(t, m).state)
    ensures Insert(t, m).ok ==> Search(Insert(t, m).state, m) == SearchResult(true, InsertionPoint(t, m))
  {
    ConstructedIsWellFormed(m);
    InsertPreservesInv(t, m);
    InsertedIsFound(t, m);
  }

  /**
   * Why the invariant admits only well-formed records: a comedy with no
   * director, title or year but one copy is accepted into an empty tree;
   * once that copy is lent out its slot reads as unused although the count
   * still says one record is stored, and the next insertion overwrites it.
   */
  lemma BlankRecordVanishes()
    ensures var m := Comedy("", "", 0, 1, 1);
            var t := Insert(NewTree(ComedyGenre), m);
            var c := ChangeStock(t.state, m, false);
            var heat := Comedy("", "Heat", 1995, 1, 1);
            && t.ok && c.ok && !Occupied(c.state, 0) && c.state.currentSize == 1 && !Inv(c.state)
            && Insert(c.state, heat).ok && Insert(c.state, heat).state.slots[0] == heat
  {
    var m := Comedy("", "", 0, 1, 1);
    var t := Insert(NewTree(ComedyGenre), m).state;
    assert t.slots[0] == m;
    assert Search(t, m) == SearchResult(true, 0);
    var c := ChangeStock(t, m, false).state;
    assert c.slots[0] == Comedy("", "", 0, 0, 1);
  }

  // ------------------------------------------------------------------ stock

  /** `t2` is `t` with only the stock count of the record at slot `p` changed. */
  ghost predicate Restocked(t: Tree, t2: Tree, p: nat) {
    && t2.genre == t.genre && t2.currentSize == t.currentSize
    && p < |t.slots| == |t2.slots|
    && t2.slots == t.slots[p := t.slots[p].(stock := t2.slots[p].stock)]
  }

  /** Restocking an occupied slot within its bounds keeps the tree invariant and every slot's occupancy. */
  lemma RestockPreservesInv(t: Tree, t2: Tree, p: nat)
    requires Inv(t) && Restocked(t, t2, p) && Occupied(t, p)
    requires 0 <= t2.slots[p].stock <= t2.slots[p].startingStock
    ensures Inv(t2)
    ensures forall k: nat :: Occupied(t2, k) == Occupied(t, k)
  {
    var cur, nxt := t.slots[p], t2.slots[p];
    RestockKeepsKey(cur, nxt);
    assert WellFormed(nxt);
    WellFormedIsNotEmpty(nxt);
    forall k: nat
      ensures Occupied(t2, k) == Occupied(t, k)
      ensures k != p ==> SlotAt(t2, k) == SlotAt(t, k)
    {
    }
    assert OccupiedSet(t2) == OccupiedSet(t);
    forall i: nat, j: nat | Occupied(t2, i) && Occupied(t2, j) && InLeft(j, i)
      ensures Before(SlotAt(t2, j), SlotAt(t2, i))
    {
      assert Before(SlotAt(t, j), SlotAt(t, i));
    }
    forall i: nat, j: nat | Occupied(t2, i) && Occupied(t2, j) && InRight(j, i)
      ensures Before(SlotAt(t2, i), SlotAt(t2, j))
    {
      assert Before(SlotAt(t, i), SlotAt(t, j));
    }
  }

  /** A successful stock change touches an occupied slot. */
  lemma ChangedSlotIsOccupied(t: Tree, q: Movie, increment: bool)
    requires Inv(t)
    ensures ChangeStock(t, q, increment).ok ==> Occupied(t, Search(t, q).index)
  {
    var p := Search(t, q).index;
    if Search(t, q).found {
      assert IsEmpty(t.slots[p]) ==> t.slots[p] == Empty(t.genre);
    }
  }

  /**
   * `changeMediaStock` keeps the tree invariant, and no slot changes between
   * used and unused although the source's `isEmpty` test reads the stock.
   */
  lemma ChangeStockPreservesInv(t: Tree, q: Movie, increment: bool)
    requires Inv(t)
    ensures Inv(ChangeStock(t, q, increment).state)
    ensures forall k: nat :: Occupied(ChangeStock(t, q, increment).state, k) == Occupied(t, k)
  {
    var r := ChangeStock(t, q, increment);
    if r.ok {
      ChangedSlotIsOccupied(t, q, increment);
      RestockPreservesInv(t, r.state, Search(t, q).index);
    }
  }

  /** After a stock change the search for the same query ends where it did, at a well-formed record. */
  lemma ChangeStockKeepsSearch(t: Tree, q: Movie, increment: bool)
    requires Inv(t) && GenreOf(q) == t.genre
    ensures ChangeStock(t, q, increment).ok ==>
              && Search(ChangeStock(t, q, increment).state, q) == Search(t, q)
              && WellFormed(t.slots[Search(t, q).index])
  {
    var r := ChangeStock(t, q, increment);
    if r.ok {
      var p := Search(t, q).index;
      ChangedSlotIsOccupied(t, q, increment);
      assert WellFormed(t.slots[p]);
      RestockPreservesInv(t, r.state, p);
      SearchSound(t, q);
      RestockKeepsKey(t.slots[p], r.state.slots[p]);
      SearchComplete(r.state, q, p);
    }
  }

  /** Taking out a copy and putting it back (or the reverse) restores the tree exactly. */
  lemma ChangeStockUndo(t: Tree, q: Movie, increment: bool)
    requires Inv(t) && GenreOf(q) == t.genre
    ensures ChangeStock(t, q, increment).ok ==> ChangeStock(ChangeStock(t, q, increment).state, q, !increment) == Attempt(true, t)
  {
    var r := ChangeStock(t, q, increment);
    if r.ok {
      ChangeStockKeepsSearch(t, q, increment);
      UndoneFrom(t, r.state, q, increment);
    }
  }

  /**
   * The opposite change on the changed tree: the search lands on the same
   * well-formed record, whose stock moved one step from within its bounds,
   * so it moves back.
   */
  lemma UndoneFrom(t: Tree, t2: Tree, q: Movie, increment: bool)
    requires 0 < |t.slots| && ChangeStock(t, q, increment) == Attempt(true, t2)
    requires Search(t2, q) == Search(t, q) && WellFormed(t.slots[Search(t, q).index])
    ensures ChangeStock(t2, q, !increment) == Attempt(true, t)
  {
    var p := Search(t, q).index;
    var cur := t.slots[p];
    assert t2.slots[p] == cur.(stock := if increment then cur.stock + 1 else cur.stock - 1);
    RestockUndone(t, t2, p, increment);
  }

  /** Moving the stock of slot `p` one step back, after moving it one step, gives the tree back. */
  lemma RestockUndone(t: Tree, t2: Tree, p: nat, increment: bool)
    requires p < |t.slots|
    requires var cur := t.slots[p];
      t2 == t.(slots := t.slots[p := cur.(stock := if increment then cur.stock + 1 else cur.stock - 1)])
    ensures var cur := t2.slots[p];
      t2.(slots := t2.slots[p := cur.(stock := if !increment then cur.stock + 1 else cur.stock - 1)]) == t
  {
    var cur := t.slots[p];
    assert t2.slots[p].(stock := cur.stock) == cur;
    assert t2.slots[p := cur] == t.slots;
  }

  /** A record whose key is stored is the one `changeMediaStock` changes, exactly when its bound allows. */
  lemma ChangeStockTargets(t: Tree, q: Movie, increment: bool, j: nat)
    requires Inv(t) && GenreOf(q) == t.genre && Occupied(t, j) && SameKey(t.slots[j], q)
    ensures ChangeStock(t, q, increment).ok <==>
              (if increment then t.slots[j].stock < t.slots[j].startingStock else t.slots[j].stock > 0)
    ensures Search(t, q) == SearchResult(true, j)
  {
    SearchComplete(t, q, j);
  }

  /** `changeMediaStock` fails when no stored record has the query's key. */
  lemma ChangeStockMissing(t: Tree, q: Movie, increment: bool)
    requires Inv(t) && GenreOf(q) == t.genre
    requires forall j: nat | Occupied(t, j) :: !SameKey(t.slots[j], q)
    ensures !ChangeStock(t, q, increment).ok
  {
    ChangedSlotIsOccupied(t, q, increment);
    SearchSound(t, q);
  }

  // --------------------------------------------------------------- fullness

  /** The slot indices below `n`. */
  function Range(n: nat): (r: set<nat>)
    ensures forall k: nat :: k in r <==> k < n
    ensures |r| == n
  {
    if n == 0 then {} else Range(n - 1) + {n - 1}
  }

  lemma {:induction false} SubsetCard(a: set<nat>, b: set<nat>)
    requires a <= b
    ensures |a| <= |b|
    decreases |b|
  {
    if b != {} {
      var x :| x in b;
      SubsetCard(a - {x}, b - {x});
    }
  }

  /**
   * `isFull` scans for an unused slot; under the invariant that is the same
   * as the stored count reaching the capacity.
   */
  lemma FullIffSizeAtCapacity(t: Tree)
    requires Inv(t)
    ensures IsFull(t) <==> t.currentSize == |t.slots|
  {
    var n := |t.slots|;
    var range := Range(n);
    if IsFull(t) {
      forall k: nat ensures k in OccupiedSet(t) <==> k in range {
        if k < n {
          assert Occupied(t, k);
        }
      }
      assert OccupiedSet(t) == range;
    } else {
      var k: nat :| k < n && !Occupied(t, k);
      assert OccupiedSet(t) <= range - {k};
      SubsetCard(OccupiedSet(t), range - {k});
    }
  }

  // -------------------------------------------------------------- traversal

  /** The traversal from slot `i` only lists slots of `i`'s subtree. */
  lemma {:induction false} InOrderBelow(t: Tree, i: nat, x: nat)
    requires x in InOrderFrom(t, i)
    ensures Descends(x, i)
    decreases |t.slots| - i
  {
    var c1, c2 := 2 * i + 1, 2 * i + 2;
    InOrderMember(t, i, x);
    if x != i {
      if Occupied(t, c1) && x in InOrderFrom(t, c1) {
        InOrderBelow(t, c1, x);
        DescendsTransitive(x, c1, i);
      } else {
        InOrderBelow(t, c2, x);
        DescendsTransitive(x, c2, i);
      }
    }
  }

  /** A slot the traversal from `i` lists is `i` itself or listed by a child's traversal. */
  lemma InOrderMember(t: Tree, i: nat, x: nat)
    requires x in InOrderFrom(t, i)
    ensures x == i || (Occupied(t, 2 * i + 1) && x in InOrderFrom(t, 2 * i + 1))
                   || (Occupied(t, 2 * i + 2) && x in InOrderFrom(t, 2 * i + 2))
  {
    var c1, c2 := 2 * i + 1, 2 * i + 2;
    var left := if Occupied(t, c1) then InOrderFrom(t, c1) else [];
    var mid := if Occupied(t, i) then [i] else [];
    var right := if Occupied(t, c2) then InOrderFrom(t, c2) else [];
    assert InOrderFrom(t, i) == left + mid + right;
  }

  /** The traversal from slot `i` lists every occupied slot `x` of `i`'s subtree. */
  lemma {:induction false} InOrderComplete(t: Tree, i: nat, x: nat)
    requires ParentClosed(t) && Occupied(t, x) && Descends(x, i)
    ensures x in InOrderFrom(t, i)
    decreases x - i
  {
    if x == i {
      InOrderListsParts(t, i, x);
    } else {
      DescendsSplit(x, i);
      if InLeft(x, i) {
        AncestorOccupied(t, x, 2 * i + 1);
        InOrderComplete(t, 2 * i + 1, x);
      } else {
        AncestorOccupied(t, x, 2 * i + 2);
        InOrderComplete(t, 2 * i + 2, x);
      }
      InOrderListsParts(t, i, x);
    }
  }

  /** The traversal from `i` lists `i` itself when occupied, and whatever its children's traversals list. */
  lemma InOrderListsParts(t: Tree, i: nat, x: nat)
    ensures x == i && Occupied(t, i) ==> x in InOrderFrom(t, i)
    ensures Occupied(t, 2 * i + 1) && x in InOrderFrom(t, 2 * i + 1) ==> x in InOrderFrom(t, i)
    ensures Occupied(t, 2 * i + 2) && x in InOrderFrom(t, 2 * i + 2) ==> x in InOrderFrom(t, i)
  {
    var c1, c2 := 2 * i + 1, 2 * i + 2;
    var left := if Occupied(t, c1) then InOrderFrom(t, c1) else [];
    var mid := if Occupied(t, i) then [i] else [];
    var right := if Occupied(t, c2) then InOrderFrom(t, c2) else [];
    assert InOrderFrom(t, i) == left + mid + right;
  }

  /** The slots of `r` hold records in strictly ascending key order. */
  ghost predicate Ascending(t: Tree, r: seq<nat>) {
    forall a, b | 0 <= a < b < |r| :: Before(SlotAt(t, r[a]), SlotAt(t, r[b]))
  }

  /** Two ascending runs joined around a record that sorts between them stay ascending. */
  lemma JoinAscending(t: Tree, left: seq<nat>, mid: seq<nat>, right: seq<nat>, i: nat)
    requires Ascending(t, left) && Ascending(t, right) && (mid == [] || mid == [i])
    requires forall x | x in left :: Before(SlotAt(t, x), SlotAt(t, i))
    requires forall y | y in right :: Before(SlotAt(t, i), SlotAt(t, y))
    ensures Ascending(t, left + mid + right)
  {
    var r := left + mid + right;
    var lm := |left| + |mid|;
    forall a, b | 0 <= a < b < |r|
      ensures Before(SlotAt(t, r[a]), SlotAt(t, r[b]))
    {
      if b < |left| {
        assert r[a] == left[a] && r[b] == left[b];
      } else if a >= lm {
        assert r[a] == right[a - lm] && r[b] == right[b - lm];
      } else if a < |left| {
        assert r[a] == left[a] && r[a] in left;
        if b < lm {
          assert r[b] == i;
        } else {
          assert r[b] == right[b - lm] && r[b] in right;
          BeforeTransitive(SlotAt(t, r[a]), SlotAt(t, i), SlotAt(t, r[b]));
        }
      } else {
        assert r[a] == i;
        assert r[b] == right[b - lm] && r[b] in right;
      }
    }
  }

  /** The traversal from any slot lists records in strictly ascending key order. */
  lemma {:induction false} InOrderAscending(t: Tree, i: nat)
    requires ParentClosed(t) && Ordered(t)
    ensures Ascending(t, InOrderFrom(t, i))
    decreases |t.slots| - i
  {
    var c1, c2 := 2 * i + 1, 2 * i + 2;
    var left := if Occupied(t, c1) then InOrderFrom(t, c1) else [];
    var mid := if Occupied(t, i) then [i] else [];
    var right := if Occupied(t, c2) then InOrderFrom(t, c2) else [];
    assert Parent(c1) == i && Parent(c2) == i;
    if Occupied(t, c1) {
      InOrderAscending(t, c1);
      forall x | x in left ensures Before(SlotAt(t, x), SlotAt(t, i)) {
        InOrderBelow(t, c1, x);
        assert InLeft(x, i);
      }
    }
    if Occupied(t, c2) {
      InOrderAscending(t, c2);
      forall y | y in right ensures Before(SlotAt(t, i), SlotAt(t, y)) {
        InOrderBelow(t, c2, y);
        assert InRight(y, i);
      }
    }
    JoinAscending(t, left, mid, right, i);
    assert InOrderFrom(t, i) == left + mid + right;
  }

  /** The set of values a sequence lists. */
  function Elements(r: seq<nat>): (e: set<nat>)
    ensures forall x :: x in e <==> x in r
  {
    set x | x in r
  }

  lemma {:induction false} DistinctCard(r: seq<nat>)
    requires forall a, b | 0 <= a < b < |r| :: r[a] != r[b]
    ensures |Elements(r)| == |r|
    decreases |r|
  {
    if |r| > 0 {
      var front, last := r[..|r| - 1], r[|r| - 1];
      DistinctCard(front);
      assert r == front + [last];
      assert Elements(r) == Elements(front) + {last};
      assert last !in Elements(front);
    }
  }

  /**
   * `inorderTraversal` prints every stored record exactly once, in strictly
   * ascending key order, and prints `getSize()` records.
   */
  lemma TraversalSortedAndComplete(t: Tree)
    requires Inv(t)
    ensures forall k: nat :: k in InOrderFrom(t, 0) <==> Occupied(t, k)
    ensures forall a, b | 0 <= a < b < |Traversal(t)| :: Before(Traversal(t)[a], Traversal(t)[b])
    ensures |Traversal(t)| == t.currentSize
  {
    var r := InOrderFrom(t, 0);
    forall k: nat | Occupied(t, k) ensures k in r {
      DescendsFromRoot(k);
      InOrderComplete(t, 0, k);
    }
    InOrderAscending(t, 0);
    forall a, b | 0 <= a < b < |r| ensures r[a] != r[b] {
      BeforeIrreflexive(SlotAt(t, r[a]));
    }
    DistinctCard(r);
    assert Elements(r) == OccupiedSet(t);
  }
}
