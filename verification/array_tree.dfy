/**
 * The array-based binary search tree that holds one genre's catalog. Records
 * sit in a flat array: the root at 0, the children of slot `i` at `2i+1` and
 * `2i+2`. A slot is unused when it holds a record that `IsEmpty`; any index
 * at or beyond the capacity reads as unused as well.
 */
module ArrayTree {
  import opened Outcomes
  import opened Movies

  /** Capacity of a new tree. */
  const OriginalSize: nat := 100

  /** Growth beyond this many slots is refused. */
  const MaxCapacity: nat := 1000

  /** `slots` is the array (its length is the capacity); `currentSize` the stored count. */
  datatype Tree = Tree(genre: Genre, slots: seq<Movie>, currentSize: int)

  // ------------------------------------------------------------ addressing

  function Parent(k: nat): nat
    requires k > 0
  {
    (k - 1) / 2
  }

  /** Slot `j` lies in the subtree rooted at slot `i`. */
  predicate Descends(j: nat, i: nat)
    decreases j
  {
    j == i || (j > i && Descends((j - 1) / 2, i))
  }

  /** Slot `j` lies in the left subtree of slot `i`. */
  predicate InLeft(j: nat, i: nat) {
    Descends(j, 2 * i + 1)
  }

  /** Slot `j` lies in the right subtree of slot `i`. */
  predicate InRight(j: nat, i: nat) {
    Descends(j, 2 * i + 2)
  }

  lemma {:induction false} DescendsTransitive(k: nat, j: nat, i: nat)
    requires Descends(k, j) && Descends(j, i)
    ensures Descends(k, i)
    decreases k
  {
    if k != j {
      DescendsTransitive((k - 1) / 2, j, i);
    }
  }

  /** A proper descendant of `i` lies in its left or its right subtree. */
  lemma {:induction false} DescendsSplit(j: nat, i: nat)
    requires Descends(j, i) && j != i
    ensures InLeft(j, i) || InRight(j, i)
    decreases j
  {
    var p := (j - 1) / 2;
    if p != i {
      DescendsSplit(p, i);
    }
  }

  /** Every slot lies in the subtree of the root. */
  lemma {:induction false} DescendsFromRoot(j: nat)
    ensures Descends(j, 0)
    decreases j
  {
    if j > 0 {
      DescendsFromRoot((j - 1) / 2);
    }
  }

  // ----------------------------------------------------------------- slots

  /** The record at slot `k`; an index beyond the capacity reads as the empty record. */
  function SlotAt(t: Tree, k: nat): Movie {
    if k < |t.slots| then t.slots[k] else Empty(t.genre)
  }

  /** Slot `k` holds a record (the negation of the source's `isEmpty` test on it). */
  predicate Occupied(t: Tree, k: nat) {
    k < |t.slots| && !IsEmpty(t.slots[k])
  }

  ghost function OccupiedSet(t: Tree): set<nat> {
    set k: nat | k < |t.slots| && !IsEmpty(t.slots[k])
  }

  /** Every occupied slot below the root has an occupied parent. */
  ghost predicate ParentClosed(t: Tree) {
    forall k: nat {:trigger Parent(k)} | 0 < k < |t.slots| && !IsEmpty(t.slots[k]) :: Occupied(t, Parent(k))
  }

  /**
   * The search-tree order: everything in the left subtree of an occupied slot
   * sorts before it, everything in its right subtree after it.
   */
  ghost predicate Ordered(t: Tree) {
    && (forall i: nat, j: nat {:trigger InLeft(j, i)} | Occupied(t, i) && Occupied(t, j) && InLeft(j, i) ::
          Before(SlotAt(t, j), SlotAt(t, i)))
    && (forall i: nat, j: nat {:trigger InRight(j, i)} | Occupied(t, i) && Occupied(t, j) && InRight(j, i) ::
          Before(SlotAt(t, i), SlotAt(t, j)))
  }

  /** Every slot holds a record of the tree's genre. */
  ghost predicate SameGenre(t: Tree) {
    forall k | 0 <= k < |t.slots| :: GenreOf(t.slots[k]) == t.genre
  }

  /** Every unused slot holds exactly the default record of the genre. */
  ghost predicate UnusedAreEmpty(t: Tree) {
    forall k | 0 <= k < |t.slots| && IsEmpty(t.slots[k]) :: t.slots[k] == Empty(t.genre)
  }

  /**
   * What the tree keeps between operations: capacity within [100, 1000], one
   * genre throughout, unused slots holding the empty record, well-formed
   * records, occupied slots closed under "parent of", the search-tree order,
   * and `currentSize` counting the occupied slots.
   */
  ghost predicate Inv(t: Tree) {
    && OriginalSize <= |t.slots| <= MaxCapacity
    && SameGenre(t)
    && UnusedAreEmpty(t)
    && (forall k | 0 <= k < |t.slots| && !IsEmpty(t.slots[k]) :: WellFormed(t.slots[k]))
    && ParentClosed(t)
    && Ordered(t)
    && t.currentSize == |OccupiedSet(t)|
  }

  /** The constructor: 100 empty slots and nothing stored. */
  function NewTree(g: Genre): (t: Tree)
    ensures Inv(t) && t.genre == g
    ensures |t.slots| == OriginalSize && t.currentSize == 0
    ensures forall k: nat :: !Occupied(t, k)
  {
    var t := Tree(g, seq(OriginalSize, _ => Empty(g)), 0);
    assert OccupiedSet(t) == {};
    t
  }

  /** `getSize`: the number of records stored. */
  function Size(t: Tree): (n: int)
    requires Inv(t)
    ensures n == |OccupiedSet(t)|
  {
    t.currentSize
  }

  // ---------------------------------------------------------------- search

  /** `E`: whether the record was found, and where it is or would be inserted. */
  datatype SearchResult = SearchResult(found: bool, index: nat)

  /**
   * `searchTree(movie, i)`: descend from slot `i`, left when the slot's record
   * is greater than the query and right otherwise, until an equal record or
   * an unused child is reached. A miss reports that child as the insertion
   * point; it may lie beyond the capacity.
   */
  function SearchFrom(t: Tree, q: Movie, i: nat): (r: SearchResult)
    requires i < |t.slots|
    ensures Descends(r.index, i)
    ensures r.found ==> r.index < |t.slots| && Eq(t.slots[r.index], q)
    ensures r.found ==> r.index == i || Occupied(t, r.index)
    ensures !r.found ==> r.index > i && !Occupied(t, r.index) && Parent(r.index) < |t.slots|
    ensures !r.found ==> Parent(r.index) == i || Occupied(t, Parent(r.index))
    decreases |t.slots| - i
  {
    var m := t.slots[i];
    if Eq(m, q) then SearchResult(true, i)
    else
      var c := if Gt(m, q) then 2 * i + 1 else 2 * i + 2;
      if Occupied(t, c) then
        var r := SearchFrom(t, q, c);
        ChildOutcome(t, q, i, c, r);
        r
      else SearchResult(false, c)
  }

  /** What `SearchFrom` reports about a search that started at slot `i`. */
  predicate Outcome(t: Tree, q: Movie, i: nat, r: SearchResult) {
    && Descends(r.index, i)
    && (r.found ==> r.index < |t.slots| && Eq(t.slots[r.index], q))
    && (r.found ==> r.index == i || Occupied(t, r.index))
    && (!r.found ==> r.index > i && !Occupied(t, r.index) && r.index > 0 && Parent(r.index) < |t.slots|)
    && (!r.found ==> Parent(r.index) == i || Occupied(t, Parent(r.index)))
  }

  /** The outcome of a search from an occupied child of `i` is an outcome of one from `i`. */
  lemma ChildOutcome(t: Tree, q: Movie, i: nat, c: nat, r: SearchResult)
    requires i < |t.slots| && (c == 2 * i + 1 || c == 2 * i + 2) && Occupied(t, c)
    requires Outcome(t, q, c, r)
    ensures Outcome(t, q, i, r)
  {
    DescendsTransitive(r.index, c, i);
  }

  /** The search from the root. */
  function Search(t: Tree, q: Movie): SearchResult
    requires 0 < |t.slots|
  {
    SearchFrom(t, q, 0)
  }

  // ---------------------------------------------------------------- growth

  /**
   * `increaseInventorySize`: extend the array by `additional` unused slots,
   * keeping every existing slot where it is; refused when the new capacity
   * would exceed 1000.
   */
  function Grow(t: Tree, additional: nat): (r: Attempt<Tree>)
    ensures r.ok <==> |t.slots| + additional <= MaxCapacity
    ensures !r.ok ==> r.state == t
    ensures r.ok ==> |r.state.slots| == |t.slots| + additional
    ensures r.state.genre == t.genre && r.state.currentSize == t.currentSize
    ensures forall k: nat | k < |t.slots| :: r.state.slots[k] == t.slots[k]
    ensures forall k: nat :: SlotAt(r.state, k) == SlotAt(t, k)
    ensures forall k: nat :: Occupied(r.state, k) <==> Occupied(t, k)
  {
    if |t.slots| + additional > MaxCapacity then Attempt(false, t)
    else Attempt(true, t.(slots := t.slots + seq(additional, _ => Empty(t.genre))))
  }

  // ------------------------------------------------------------- insertion

  /** The codes of `InsertHelper`: -1, 0, 1 and 2 in the source. */
  datatype InsertOutcome = AlreadyFull | Duplicate | Inserted | GrowthFailed

  datatype InsertResult = InsertResult(outcome: InsertOutcome, tree: Tree)

  /** Run of occupied slots starting at `i`, the scan `isFull` performs. */
  function OccupiedRun(t: Tree, i: nat): (n: nat)
    requires i <= |t.slots|
    ensures i + n <= |t.slots|
    ensures forall k: nat | i <= k < i + n :: Occupied(t, k)
    ensures i + n < |t.slots| ==> !Occupied(t, i + n)
    decreases |t.slots| - i
  {
    if i == |t.slots| || IsEmpty(t.slots[i]) then 0 else 1 + OccupiedRun(t, i + 1)
  }

  /** `isFull`: the scan from slot 0 reaches the end of the array without meeting an unused slot. */
  function IsFull(t: Tree): (r: bool)
    ensures r <==> forall k: nat | k < |t.slots| :: Occupied(t, k)
  {
    OccupiedRun(t, 0) == |t.slots|
  }

  /** `t2` is `t` (grown to `t2`'s capacity) with slot `p` set to `m` and nothing else changed. */
  ghost predicate PlacedAt(t: Tree, t2: Tree, p: nat, m: Movie) {
    && t2.genre == t.genre
    && |t.slots| <= |t2.slots|
    && p < |t2.slots|
    && t2.slots[p] == m
    && forall k: nat | k < |t2.slots| && k != p :: t2.slots[k] == SlotAt(t, k)
  }

  /** The capacity growth `InsertHelper` asks for when the insertion point is past the end. */
  function GrowthFor(capacity: int, index: int): int {
    (index - (capacity - 1)) * 5
  }

  /**
   * `InsertHelper`: refuse when full; search; refuse a duplicate; grow the
   * array when the insertion point is past its end (refusing when growth is
   * refused); then store the record at the insertion point.
   */
  function InsertHelper(t: Tree, m: Movie): (r: InsertResult)
    requires 0 < |t.slots|
    ensures r.outcome == AlreadyFull <==> IsFull(t)
    ensures r.outcome == Duplicate <==> !IsFull(t) && Search(t, m).found
    ensures r.outcome == GrowthFailed <==>
              !IsFull(t) && !Search(t, m).found && Search(t, m).index >= |t.slots|
              && |t.slots| + GrowthFor(|t.slots|, Search(t, m).index) > MaxCapacity
    ensures r.outcome != Inserted ==> r.tree == t
    ensures r.outcome == Inserted ==>
              PlacedAt(t, r.tree, Search(t, m).index, m) && r.tree.currentSize == t.currentSize
              && |r.tree.slots| == (if Search(t, m).index < |t.slots| then |t.slots|
                                    else |t.slots| + GrowthFor(|t.slots|, Search(t, m).index))
  {
    if IsFull(t) then InsertResult(AlreadyFull, t)
    else
      var s := Search(t, m);
      if s.found then InsertResult(Duplicate, t)
      else
        var last := |t.slots| - 1;
        if s.index > last then
          var g := Grow(t, (s.index - last) * 5);
          if !g.ok then InsertResult(GrowthFailed, t)
          else InsertResult(Inserted, g.state.(slots := g.state.slots[s.index := m]))
        else InsertResult(Inserted, t.(slots := t.slots[s.index := m]))
  }

  /** Where `Insert` stores a new record: the root of an empty tree, else the search's insertion point. */
  function InsertionPoint(t: Tree, m: Movie): nat
    requires 0 < |t.slots|
  {
    if IsEmpty(t.slots[0]) then 0 else Search(t, m).index
  }

  /**
   * `Insert`: an unused root takes the record directly; otherwise
   * `InsertHelper` decides. Success writes one previously unused slot and
   * counts the record; failure changes nothing.
   */
  function Insert(t: Tree, m: Movie): (r: Attempt<Tree>)
    requires 0 < |t.slots|
    ensures !r.ok ==> r.state == t
    ensures IsEmpty(t.slots[0]) ==> r.ok && |r.state.slots| == |t.slots| && r.state.slots[0] == m
    ensures r.ok ==> !Occupied(t, InsertionPoint(t, m)) && PlacedAt(t, r.state, InsertionPoint(t, m), m)
    ensures r.ok ==> r.state.currentSize == t.currentSize + 1
    ensures |t.slots| <= MaxCapacity ==> |r.state.slots| <= MaxCapacity
    ensures !IsEmpty(t.slots[0]) ==> (r.ok <==> InsertHelper(t, m).outcome == Inserted)
  {
    if IsEmpty(t.slots[0]) then
      Attempt(true, t.(slots := t.slots[0 := m], currentSize := t.currentSize + 1))
    else
      var h := InsertHelper(t, m);
      if h.outcome == Inserted then Attempt(true, h.tree.(currentSize := t.currentSize + 1))
      else Attempt(false, t)
  }

  // ---------------------------------------------------------------- stock

  /**
   * `changeMediaStock(movie, increment)`: find the record and put back
   * (`increment` true) or take out (`increment` false) one copy. Fails with
   * no change when the record is absent or its stock is at the bound.
   */
  function ChangeStock(t: Tree, q: Movie, increment: bool): (r: Attempt<Tree>)
    requires 0 < |t.slots|
    ensures !r.ok ==> r.state == t
    ensures r.ok ==> Search(t, q).found
    ensures r.ok ==>
              var p := Search(t, q).index;
              var cur := t.slots[p];
              && r.state == t.(slots := t.slots[p := cur.(stock := if increment then cur.stock + 1 else cur.stock - 1)])
              && (if increment then cur.stock < cur.startingStock else cur.stock > 0)
    ensures Search(t, q).found ==>
              var cur := t.slots[Search(t, q).index];
              r.ok <==> (if increment then cur.stock < cur.startingStock else cur.stock > 0)
  {
    var s := Search(t, q);
    if !s.found then Attempt(false, t)
    else
      var cur := t.slots[s.index];
      var c := if increment then IncrementStock(cur) else DecrementStock(cur);
      if c.ok then Attempt(true, t.(slots := t.slots[s.index := c.state])) else Attempt(false, t)
  }

  // ------------------------------------------------------------- traversal

  /**
   * `inorderTraversalHelper(i)`: the occupied slots of the subtree at `i` in
   * the order the traversal prints them: left subtree, the slot, right subtree.
   */
  function InOrderFrom(t: Tree, i: nat): (r: seq<nat>)
    ensures forall x | x in r :: Occupied(t, x)
    decreases |t.slots| - i
  {
    (if Occupied(t, 2 * i + 1) then InOrderFrom(t, 2 * i + 1) else [])
    + (if Occupied(t, i) then [i] else [])
    + (if Occupied(t, 2 * i + 2) then InOrderFrom(t, 2 * i + 2) else [])
  }

  /** `inorderTraversal`: the records in the order they are printed. */
  function Traversal(t: Tree): (r: seq<Movie>)
    ensures |r| == |InOrderFrom(t, 0)|
    ensures forall k | 0 <= k < |r| :: r[k] == SlotAt(t, InOrderFrom(t, 0)[k])
  {
    var idx := InOrderFrom(t, 0);
    seq(|idx|, k requires 0 <= k < |idx| => SlotAt(t, idx[k]))
  }
}
