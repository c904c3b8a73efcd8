/**
 * The customer directory: a table of 5000 buckets with separate chaining.
 * Each bucket is the chain starting at the customer stored in the table slot
 * itself, followed by the customers linked behind it. A slot still holding
 * the default customer with nothing linked is an empty bucket.
 */
module Directory {
  import opened Outcomes
  import opened Hashing
  import opened Customers

  /** `maxNumberofCustomers`: the number of buckets. */
  const TableSize: int := 5000

  datatype Directory = Directory(buckets: seq<seq<Customer>>)

  /** Every bucket exists and starts with its table slot. */
  predicate WellShaped(d: Directory) {
    |d.buckets| == TableSize && forall b | 0 <= b < |d.buckets| :: |d.buckets[b]| >= 1
  }

  /** `customers[i].isEmpty()`: the slot holds the default customer and nothing is linked behind it. */
  predicate HeadIsEmpty(chain: seq<Customer>)
    requires |chain| >= 1
  {
    IsBlank(chain[0]) && |chain| == 1
  }

  /** `new Customer[5000]`: every slot default-constructed. */
  function NewDirectory(): (d: Directory)
    ensures WellShaped(d)
    ensures forall b | 0 <= b < TableSize :: HeadIsEmpty(d.buckets[b])
  {
    Directory(seq(TableSize, _ => [DefaultCustomer()]))
  }

  function BucketFor(id: int): (b: int)
    requires id >= 0
    ensures 0 <= b < TableSize
  {
    BucketOf(id, TableSize)
  }

  /** The position of the first customer of `chain` from `k` on with ID `id`. */
  function IndexFrom(chain: seq<Customer>, id: int, k: nat): (r: Option<nat>)
    requires k <= |chain|
    ensures r.Some? ==> k <= r.value < |chain| && chain[r.value].id == id
    ensures r.Some? ==> forall j | k <= j < r.value :: chain[j].id != id
    ensures r.None? ==> forall j | k <= j < |chain| :: chain[j].id != id
    decreases |chain| - k
  {
    if k == |chain| then None
    else if chain[k].id == id then Some(k)
    else IndexFrom(chain, id, k + 1)
  }

  /** The walk down a chain: the head first, then each linked customer in turn. */
  function IndexInChain(chain: seq<Customer>, id: int): (r: Option<nat>)
    ensures r.Some? ==> r.value < |chain| && chain[r.value].id == id
    ensures r.Some? ==> forall j | 0 <= j < r.value :: chain[j].id != id
    ensures r.None? <==> forall j | 0 <= j < |chain| :: chain[j].id != id
  {
    IndexFrom(chain, id, 0)
  }

  /**
   * `findCustomer(id)`: false for an empty bucket, otherwise whether the
   * head or any customer linked behind it has that ID.
   */
  function FindCustomer(d: Directory, id: int): (found: bool)
    requires WellShaped(d) && id >= 0
    ensures found <==>
              var chain := d.buckets[BucketFor(id)];
              !HeadIsEmpty(chain) && exists j | 0 <= j < |chain| :: chain[j].id == id
  {
    var chain := d.buckets[BucketFor(id)];
    if HeadIsEmpty(chain) then false else IndexInChain(chain, id).Some?
  }

  /**
   * `addCustomer(c)`: an empty bucket takes the customer into its slot;
   * otherwise the customer is linked at the end of the chain unless some
   * customer of the chain already has that ID. `ok` reports whether the
   * customer was stored.
   */
  function AddCustomer(d: Directory, c: Customer): (r: Attempt<Directory>)
    requires WellShaped(d) && c.id >= 0
    ensures WellShaped(r.state)
    ensures !r.ok <==> FindCustomer(d, c.id)
    ensures !r.ok ==> r.state == d
    ensures r.ok ==>
              var b := BucketFor(c.id);
              var chain := d.buckets[b];
              && r.state.buckets == d.buckets[b := if HeadIsEmpty(chain) then [c] else chain + [c]]
  {
    var b := BucketFor(c.id);
    var chain := d.buckets[b];
    if HeadIsEmpty(chain) then
      Attempt(true, Directory(d.buckets[b := [c]]))
    else if IndexInChain(chain, c.id).Some? then
      Attempt(false, d)
    else
      Attempt(true, Directory(d.buckets[b := chain + [c]]))
  }

  /**
   * After an add the customer can be found, unless it was a default
   * customer placed in an empty bucket, where it still reads as empty.
   */
  lemma AddThenFind(d: Directory, c: Customer)
    requires WellShaped(d) && c.id >= 0
    ensures FindCustomer(AddCustomer(d, c).state, c.id) <==>
              !(IsBlank(c) && HeadIsEmpty(d.buckets[BucketFor(c.id)]))
  {
    var r := AddCustomer(d, c);
    var b := BucketFor(c.id);
    var chain := d.buckets[b];
    if r.ok && !HeadIsEmpty(chain) {
      var chain2 := r.state.buckets[b];
      assert chain2 == chain + [c];
      assert chain2[|chain|].id == c.id;
    } else if r.ok {
      assert r.state.buckets[b] == [c];
    }
  }

  /** Adding a customer does not change whether any other ID is found. */
  lemma AddKeepsOtherLookups(d: Directory, c: Customer, id: int)
    requires WellShaped(d) && c.id >= 0 && id >= 0 && id != c.id
    ensures FindCustomer(AddCustomer(d, c).state, id) == FindCustomer(d, id)
  {
    var r := AddCustomer(d, c);
    var b := BucketFor(c.id);
    var chain := d.buckets[b];
    if r.ok && BucketFor(id) == b {
      var chain2 := r.state.buckets[b];
      if HeadIsEmpty(chain) {
        assert chain2 == [c];
      } else {
        assert chain2 == chain + [c];
        if exists j | 0 <= j < |chain2| :: chain2[j].id == id {
          var j :| 0 <= j < |chain2| && chain2[j].id == id;
          assert j < |chain| && chain[j].id == id;
        }
        if exists j | 0 <= j < |chain| :: chain[j].id == id {
          var j :| 0 <= j < |chain| && chain[j].id == id;
          assert chain2[j].id == id;
        }
      }
    }
  }

  /**
   * Lookups compare IDs only, as customers' `operator==` does: replacing a
   * stored customer by any non-blank record with the same ID changes no
   * lookup.
   */
  lemma LookupUsesIdOnly(d: Directory, b: int, k: int, c: Customer)
    requires WellShaped(d) && 0 <= b < TableSize && 0 <= k < |d.buckets[b]|
    requires !HeadIsEmpty(d.buckets[b]) && !IsBlank(c) && SameCustomer(c, d.buckets[b][k])
    ensures var d2 := Directory(d.buckets[b := d.buckets[b][k := c]]);
            WellShaped(d2) && forall x | x >= 0 :: FindCustomer(d2, x) == FindCustomer(d, x)
  {
    var d2 := Directory(d.buckets[b := d.buckets[b][k := c]]);
    forall x | x >= 0
      ensures FindCustomer(d2, x) == FindCustomer(d, x)
    {
      var ch := d.buckets[BucketFor(x)];
      var ch2 := d2.buckets[BucketFor(x)];
      assert |ch2| == |ch|;
      assert forall j | 0 <= j < |ch| :: ch2[j].id == ch[j].id;
      assert HeadIsEmpty(ch2) == HeadIsEmpty(ch);
    }
  }

  // ------------------------------------------------------------- invariant

  /** Position `k` of bucket `b` holds a stored customer (an empty bucket holds none). */
  predicate Live(d: Directory, b: int, k: int)
    requires WellShaped(d)
  {
    0 <= b < TableSize && 0 <= k < |d.buckets[b]| && !HeadIsEmpty(d.buckets[b])
  }

  /**
   * What `addCustomer` maintains: every stored customer sits in the bucket
   * its ID hashes to, and no chain holds two customers with one ID.
   */
  ghost predicate DirInv(d: Directory) {
    && WellShaped(d)
    && (forall b, k | Live(d, b, k) :: d.buckets[b][k].id >= 0 && BucketFor(d.buckets[b][k].id) == b)
    && (forall b, j, k | 0 <= b < TableSize && 0 <= j < k < |d.buckets[b]| ::
          d.buckets[b][j].id != d.buckets[b][k].id)
  }

  lemma NewDirectoryInv()
    ensures DirInv(NewDirectory())
  {
  }

  /** The directory stores a customer with this ID somewhere. */
  ghost predicate Stored(d: Directory, id: int)
    requires WellShaped(d)
  {
    exists b, k | Live(d, b, k) :: d.buckets[b][k].id == id
  }

  /** Under the invariant, `findCustomer` answers exactly whether the ID is stored anywhere. */
  lemma FindIffStored(d: Directory, id: int)
    requires DirInv(d) && id >= 0
    ensures FindCustomer(d, id) <==> Stored(d, id)
  {
    var b := BucketFor(id);
    if Stored(d, id) {
      var b', k :| Live(d, b', k) && d.buckets[b'][k].id == id;
      assert b' == b;
    }
    if FindCustomer(d, id) {
      var chain := d.buckets[b];
      var j :| 0 <= j < |chain| && chain[j].id == id;
      assert Live(d, b, j);
    }
  }

  lemma AddPreservesInv(d: Directory, c: Customer)
    requires DirInv(d) && c.id >= 0
    ensures DirInv(AddCustomer(d, c).state)
  {
    var r := AddCustomer(d, c);
    var b := BucketFor(c.id);
    var chain := d.buckets[b];
    if r.ok {
      var d2 := r.state;
      if HeadIsEmpty(chain) {
        assert d2.buckets[b] == [c];
      } else {
        var chain2 := d2.buckets[b];
        assert chain2 == chain + [c];
        assert !HeadIsEmpty(chain2);
        forall k | 0 <= k < |chain2|
          ensures chain2[k].id >= 0 && BucketFor(chain2[k].id) == b
        {
          if k < |chain| {
            assert Live(d, b, k);
          }
        }
      }
      forall b', k | Live(d2, b', k)
        ensures d2.buckets[b'][k].id >= 0 && BucketFor(d2.buckets[b'][k].id) == b'
      {
        if b' != b {
          assert Live(d, b', k);
        }
      }
    }
  }

  // ------------------------------------------------------------ transactions

  /**
   * `MovieRentalStore::addTransaction(text, id)`: when the customer is
   * found, the text is appended to that customer's log. The result is true
   * only when the customer is linked behind the head of its chain; a match
   * at the head is logged but reported as false.
   */
  function AddTransaction(d: Directory, text: string, id: int): (r: Attempt<Directory>)
    requires WellShaped(d) && id >= 0
    ensures WellShaped(r.state)
    ensures !FindCustomer(d, id) ==> r == Attempt(false, d)
    ensures FindCustomer(d, id) ==>
              var b := BucketFor(id);
              var k := IndexInChain(d.buckets[b], id).value;
              && (r.ok <==> k > 0)
              && r.state.buckets == d.buckets[b := d.buckets[b][k := Customers.AddTransaction(d.buckets[b][k], text)]]
  {
    if !FindCustomer(d, id) then Attempt(false, d)
    else
      var b := BucketFor(id);
      var chain := d.buckets[b];
      match IndexInChain(chain, id)
      case None => Attempt(false, d)
      case Some(k) => Attempt(k > 0, Directory(d.buckets[b := chain[k := Customers.AddTransaction(chain[k], text)]]))
  }

  /**
   * Logging a transaction touches no customer but the one with that ID:
   * every other record is unchanged, the owner only gains the text at the
   * end of its log, and every lookup answers as before.
   */
  lemma AddTransactionOnlyTouchesOwner(d: Directory, text: string, id: int)
    requires WellShaped(d) && id >= 0
    ensures var d2 := AddTransaction(d, text, id).state;
            && (forall b | 0 <= b < TableSize :: |d2.buckets[b]| == |d.buckets[b]|)
            && (forall b, k | 0 <= b < TableSize && 0 <= k < |d.buckets[b]| ::
                  d2.buckets[b][k].(transactions := d.buckets[b][k].transactions) == d.buckets[b][k])
            && (forall b, k | 0 <= b < TableSize && 0 <= k < |d.buckets[b]| && d.buckets[b][k].id != id ::
                  d2.buckets[b][k] == d.buckets[b][k])
            && (forall b, k | 0 <= b < TableSize && 0 <= k < |d.buckets[b]| && d.buckets[b][k].id == id ::
                  d2.buckets[b][k].transactions == d.buckets[b][k].transactions
                  || d2.buckets[b][k].transactions == d.buckets[b][k].transactions + [text])
            && (forall x | x >= 0 :: FindCustomer(d2, x) == FindCustomer(d, x))
  {
    var d2 := AddTransaction(d, text, id).state;
    forall x | x >= 0
      ensures FindCustomer(d2, x) == FindCustomer(d, x)
    {
      var c := d.buckets[BucketFor(x)];
      var c2 := d2.buckets[BucketFor(x)];
      assert |c2| == |c| && c2[0].(transactions := c[0].transactions) == c[0];
      assert forall j | 0 <= j < |c| :: c2[j].id == c[j].id;
    }
  }

  /** The logged text lands in the found customer's log, at its end. */
  lemma AddTransactionLogsOwner(d: Directory, text: string, id: int)
    requires WellShaped(d) && id >= 0 && FindCustomer(d, id)
    ensures var b := BucketFor(id);
            var k := IndexInChain(d.buckets[b], id).value;
            var d2 := AddTransaction(d, text, id).state;
            && d2.buckets[b][k].id == id
            && d2.buckets[b][k].transactions == d.buckets[b][k].transactions + [text]
  {
  }

  lemma AddTransactionPreservesInv(d: Directory, text: string, id: int)
    requires DirInv(d) && id >= 0
    ensures DirInv(AddTransaction(d, text, id).state)
  {
    AddTransactionOnlyTouchesOwner(d, text, id);
    var d2 := AddTransaction(d, text, id).state;
    forall b | 0 <= b < TableSize
      ensures HeadIsEmpty(d2.buckets[b]) == HeadIsEmpty(d.buckets[b])
    {
      assert d2.buckets[b][0].(transactions := d.buckets[b][0].transactions) == d.buckets[b][0];
    }
    forall b, k | Live(d2, b, k)
      ensures d2.buckets[b][k].id >= 0 && BucketFor(d2.buckets[b][k].id) == b
    {
      assert Live(d, b, k);
      assert d2.buckets[b][k].(transactions := d.buckets[b][k].transactions) == d.buckets[b][k];
    }
    forall b, j, k | 0 <= b < TableSize && 0 <= j < k < |d2.buckets[b]|
      ensures d2.buckets[b][j].id != d2.buckets[b][k].id
    {
      assert d2.buckets[b][j].(transactions := d.buckets[b][j].transactions) == d.buckets[b][j];
      assert d2.buckets[b][k].(transactions := d.buckets[b][k].transactions) == d.buckets[b][k];
    }
  }
}
