/**
 * The rental store: one inventory tree per genre, the customer directory,
 * and the holdings ledger, tied together by the borrow and return commands.
 * A command is first checked against the directory, the media code and the
 * genre code, then handed to its genre's helper, which changes the stock
 * first and the ledger second, undoing the stock change when the ledger
 * step fails, and logs the transaction with the customer on success.
 */
module Store {
  import opened Outcomes
  import opened Movies
  import opened ArrayTree
  import opened TreeProofs
  import opened Holdings
  import Directory

  datatype Store = Store(
    comedies: Tree,
    dramas: Tree,
    classics: Tree,
    customers: Directory.Directory,
    ledger: Ledger)

  /** The inventory holding a genre's records. */
  function Inventory(s: Store, g: Genre): Tree {
    match g
    case ComedyGenre => s.comedies
    case DramaGenre => s.dramas
    case ClassicsGenre => s.classics
  }

  /** The store with one genre's inventory replaced. */
  function WithInventory(s: Store, g: Genre, t: Tree): (r: Store)
    ensures Inventory(r, g) == t
    ensures forall h: Genre | h != g :: Inventory(r, h) == Inventory(s, h)
    ensures r.customers == s.customers && r.ledger == s.ledger
  {
    match g
    case ComedyGenre => s.(comedies := t)
    case DramaGenre => s.(dramas := t)
    case ClassicsGenre => s.(classics := t)
  }

  /** Replacing an inventory by itself changes nothing. */
  lemma WithOwnInventory(s: Store, g: Genre)
    ensures WithInventory(s, g, Inventory(s, g)) == s
  {
  }

  /** What every operation below needs to be defined: 5000 buckets and non-empty arrays. */
  predicate Shaped(s: Store) {
    && Directory.WellShaped(s.customers)
    && 0 < |s.comedies.slots| && 0 < |s.dramas.slots| && 0 < |s.classics.slots|
  }

  /**
   * What the store keeps between commands: each tree is a valid search tree
   * of its own genre, the directory keeps its hashing invariant, every
   * ledger entry holds 1 to 13 records and belongs to a customer the
   * directory finds.
   */
  ghost predicate StoreInv(s: Store) {
    && Inv(s.comedies) && s.comedies.genre == ComedyGenre
    && Inv(s.dramas) && s.dramas.genre == DramaGenre
    && Inv(s.classics) && s.classics.genre == ClassicsGenre
    && Directory.DirInv(s.customers)
    && LedgerInv(s.ledger)
    && (forall id | id in s.ledger :: id >= 0 && Directory.FindCustomer(s.customers, id))
  }

  lemma StoreInvIsShaped(s: Store)
    requires StoreInv(s)
    ensures Shaped(s)
    ensures forall g: Genre :: Inv(Inventory(s, g)) && Inventory(s, g).genre == g
  {
  }

  /** The store as constructed: empty inventories, an empty directory, nothing borrowed. */
  function NewStore(): (s: Store)
    ensures StoreInv(s)
    ensures forall g: Genre, k: nat :: !Occupied(Inventory(s, g), k)
    ensures s.ledger == map[]
  {
    Directory.NewDirectoryInv();
    Store(NewTree(ComedyGenre), NewTree(DramaGenre), NewTree(ClassicsGenre), Directory.NewDirectory(), map[])
  }

  // ---------------------------------------------------------------- queries

  /** The fields a borrow or return line gives for its record, already parsed. */
  datatype Fields = Fields(title: string, year: int, director: string, month: int, actor: string)

  /**
   * The record a helper builds from the command, from its sorting fields
   * only: `Comedy(year, title)`, `Drama(director, title)` or
   * `Classics(year, month, actor)`, every other field defaulted.
   */
  function QueryFor(g: Genre, f: Fields): (q: Movie)
    ensures GenreOf(q) == g && q.stock == 0 && q.startingStock == 0
    ensures g == ComedyGenre ==> q.title == f.title && q.year == f.year
    ensures g == DramaGenre ==> q.director == f.director && q.title == f.title
    ensures g == ClassicsGenre ==> q.year == f.year && q.month == f.month && q.actor == f.actor
  {
    match g
    case ComedyGenre => NewComedy(f.year, f.title, "", 0)
    case DramaGenre => NewDrama(f.director, f.title, 0, 0)
    case ClassicsGenre => NewClassics(f.year, f.month, f.actor, "", "", 0)
  }

  function GenreWord(g: Genre): string {
    match g
    case ComedyGenre => "comedy"
    case DramaGenre => "drama"
    case ClassicsGenre => "classics"
  }

  /** The text logged with the customer for a completed borrow or return. */
  function TransactionText(borrow: bool, g: Genre, q: Movie): string {
    (if borrow then "Borrowed " else "Returned ") + GenreWord(g)
    + " DVD movie with sorting criteria: " + SortingCriteria(q)
  }

  /** `addTransaction(text, id)` on the store; its result is not consulted by the callers. */
  function Logged(s: Store, text: string, id: int): (r: Store)
    requires Shaped(s) && id >= 0
    ensures Shaped(r)
    ensures r.(customers := s.customers) == s
    ensures r.customers == Directory.AddTransaction(s.customers, text, id).state
  {
    s.(customers := Directory.AddTransaction(s.customers, text, id).state)
  }

  // ---------------------------------------------------------------- helpers

  /**
   * The borrow half of `borrowReturnCommand<Genre>Helper`: take a copy of
   * the query's record off the shelf, then add the query record to the
   * customer's holdings; if that fails, put the copy back and fail.
   */
  function Borrow(s: Store, g: Genre, q: Movie, id: int): (r: Attempt<Store>)
    requires Shaped(s) && id >= 0
    ensures Shaped(r.state)
    ensures r.ok <==> && ChangeStock(Inventory(s, g), q, false).ok
                      && AddHolding(s.ledger, id, q, Directory.FindCustomer(s.customers, id)).ok
    ensures !r.ok ==> r.state.customers == s.customers && r.state.ledger == s.ledger
    ensures forall h: Genre | h != g :: Inventory(r.state, h) == Inventory(s, h)
  {
    var c := ChangeStock(Inventory(s, g), q, false);
    if !c.ok then Attempt(false, s)
    else
      var a := AddHolding(s.ledger, id, q, Directory.FindCustomer(s.customers, id));
      if !a.ok then Attempt(false, WithInventory(s, g, ChangeStock(c.state, q, true).state))
      else Attempt(true, Logged(WithInventory(s, g, c.state).(ledger := a.state), TransactionText(true, g, q), id))
  }

  /**
   * The return half: put a copy back on the shelf, then remove the first
   * holding with the query's sorting key; if that fails, take the copy off
   * again and fail.
   */
  function Return(s: Store, g: Genre, q: Movie, id: int): (r: Attempt<Store>)
    requires Shaped(s) && id >= 0
    ensures Shaped(r.state)
    ensures r.ok <==> ChangeStock(Inventory(s, g), q, true).ok && RemoveHolding(s.ledger, id, q).ok
    ensures !r.ok ==> r.state.customers == s.customers && r.state.ledger == s.ledger
    ensures forall h: Genre | h != g :: Inventory(r.state, h) == Inventory(s, h)
  {
    var c := ChangeStock(Inventory(s, g), q, true);
    if !c.ok then Attempt(false, s)
    else
      var rm := RemoveHolding(s.ledger, id, q);
      if !rm.ok then Attempt(false, WithInventory(s, g, ChangeStock(c.state, q, false).state))
      else Attempt(true, Logged(WithInventory(s, g, c.state).(ledger := rm.state), TransactionText(false, g, q), id))
  }

  /**
   * `borrowReturnCommand<Genre>Helper(fields, id, borrow)`: build the query
   * record from the command's fields and borrow or return it.
   */
  function BorrowReturn(s: Store, g: Genre, f: Fields, id: int, borrow: bool): (r: Attempt<Store>)
    requires Shaped(s) && id >= 0
  {
    if borrow then Borrow(s, g, QueryFor(g, f), id) else Return(s, g, QueryFor(g, f), id)
  }

  /** With valid trees the compensation restores the stock, so a failed borrow changes nothing. */
  lemma BorrowFailureUnchanged(s: Store, g: Genre, q: Movie, id: int)
    requires StoreInv(s) && id >= 0 && GenreOf(q) == g
    ensures !Borrow(s, g, q, id).ok ==> Borrow(s, g, q, id).state == s
  {
    StoreInvIsShaped(s);
    ChangeStockUndo(Inventory(s, g), q, false);
    WithOwnInventory(s, g);
  }

  /** With valid trees a failed return changes nothing. */
  lemma ReturnFailureUnchanged(s: Store, g: Genre, q: Movie, id: int)
    requires StoreInv(s) && id >= 0 && GenreOf(q) == g
    ensures !Return(s, g, q, id).ok ==> Return(s, g, q, id).state == s
  {
    StoreInvIsShaped(s);
    ChangeStockUndo(Inventory(s, g), q, true);
    WithOwnInventory(s, g);
  }

  /**
   * A successful borrow takes one copy off the record the search finds,
   * appends the query to the customer's holdings, and logs "Borrowed …";
   * the other inventories are untouched.
   */
  lemma BorrowSuccess(s: Store, g: Genre, q: Movie, id: int)
    requires Shaped(s) && id >= 0 && Borrow(s, g, q, id).ok
    ensures var t := Inventory(s, g);
            var r := Borrow(s, g, q, id).state;
            var p := Search(t, q).index;
            && Search(t, q).found && t.slots[p].stock > 0
            && Inventory(r, g) == t.(slots := t.slots[p := t.slots[p].(stock := t.slots[p].stock - 1)])
            && r.ledger == s.ledger[id := HeldBy(s.ledger, id) + [q]]
            && r.customers == Directory.AddTransaction(s.customers, TransactionText(true, g, q), id).state
  {
  }

  /**
   * A successful return puts one copy back on the record the search finds,
   * removes the customer's first holding with the query's key, and logs
   * "Returned …".
   */
  lemma ReturnSuccess(s: Store, g: Genre, q: Movie, id: int)
    requires Shaped(s) && id >= 0 && Return(s, g, q, id).ok
    ensures var t := Inventory(s, g);
            var r := Return(s, g, q, id).state;
            var p := Search(t, q).index;
            && Search(t, q).found && t.slots[p].stock < t.slots[p].startingStock
            && Inventory(r, g) == t.(slots := t.slots[p := t.slots[p].(stock := t.slots[p].stock + 1)])
            && r.ledger == RemoveHolding(s.ledger, id, q).state
            && r.customers == Directory.AddTransaction(s.customers, TransactionText(false, g, q), id).state
  {
  }

  /** A borrow keeps the store invariant, for a customer the directory finds. */
  lemma BorrowPreservesInv(s: Store, g: Genre, q: Movie, id: int)
    requires StoreInv(s) && id >= 0 && GenreOf(q) == g && Directory.FindCustomer(s.customers, id)
    ensures StoreInv(Borrow(s, g, q, id).state)
  {
    StoreInvIsShaped(s);
    if !Borrow(s, g, q, id).ok {
      BorrowFailureUnchanged(s, g, q, id);
    } else {
      BorrowSuccessKeepsInv(s, g, q, id);
    }
  }

  lemma BorrowSuccessKeepsInv(s: Store, g: Genre, q: Movie, id: int)
    requires StoreInv(s) && id >= 0 && Directory.FindCustomer(s.customers, id)
    requires Shaped(s) && Borrow(s, g, q, id).ok
    ensures StoreInv(Borrow(s, g, q, id).state)
  {
    ChangeStockPreservesInv(Inventory(s, g), q, false);
    LoggedKeepsInv(s, TransactionText(true, g, q), id);
    AddHoldingPreservesInv(s.ledger, id, q, true);
    StoreInvAfter(s, Borrow(s, g, q, id).state, g);
  }

  /** A return keeps the store invariant. */
  lemma ReturnPreservesInv(s: Store, g: Genre, q: Movie, id: int)
    requires StoreInv(s) && id >= 0 && GenreOf(q) == g
    ensures StoreInv(Return(s, g, q, id).state)
  {
    StoreInvIsShaped(s);
    if !Return(s, g, q, id).ok {
      ReturnFailureUnchanged(s, g, q, id);
    } else {
      ReturnSuccessKeepsInv(s, g, q, id);
    }
  }

  lemma ReturnSuccessKeepsInv(s: Store, g: Genre, q: Movie, id: int)
    requires StoreInv(s) && id >= 0 && Shaped(s) && Return(s, g, q, id).ok
    ensures StoreInv(Return(s, g, q, id).state)
  {
    ChangeStockPreservesInv(Inventory(s, g), q, true);
    LoggedKeepsInv(s, TransactionText(false, g, q), id);
    RemoveHoldingPreservesInv(s.ledger, id, q);
    StoreInvAfter(s, Return(s, g, q, id).state, g);
  }

  /** Logging keeps the directory invariant and every lookup. */
  lemma LoggedKeepsInv(s: Store, text: string, id: int)
    requires StoreInv(s) && id >= 0
    ensures Directory.DirInv(Directory.AddTransaction(s.customers, text, id).state)
    ensures forall x | x >= 0 ::
              Directory.FindCustomer(Directory.AddTransaction(s.customers, text, id).state, x)
              == Directory.FindCustomer(s.customers, x)
  {
    Directory.AddTransactionPreservesInv(s.customers, text, id);
    Directory.AddTransactionOnlyTouchesOwner(s.customers, text, id);
  }

  /** The pieces of the invariant, reassembled for a store with one inventory replaced. */
  lemma StoreInvAfter(s: Store, s2: Store, g: Genre)
    requires StoreInv(s)
    requires Inv(Inventory(s2, g)) && Inventory(s2, g).genre == g
    requires forall h: Genre | h != g :: Inventory(s2, h) == Inventory(s, h)
    requires Directory.DirInv(s2.customers) && LedgerInv(s2.ledger)
    requires forall x | x >= 0 :: Directory.FindCustomer(s2.customers, x) == Directory.FindCustomer(s.customers, x)
    requires forall x | x in s2.ledger :: x in s.ledger || (x >= 0 && Directory.FindCustomer(s.customers, x))
    ensures StoreInv(s2)
  {
    assert Inventory(s2, ComedyGenre) == s2.comedies;
    assert Inventory(s2, DramaGenre) == s2.dramas;
    assert Inventory(s2, ClassicsGenre) == s2.classics;
  }
  /**
   * Borrowing a record and returning it gives back the store as it was,
   * except for the two lines added to the customer's log, provided the
   * query is not the empty record by the base-class test and the customer
   * held nothing with the same sorting key.
   */
  lemma BorrowThenReturn(s: Store, g: Genre, q: Movie, id: int)
    requires StoreInv(s) && id >= 0 && GenreOf(q) == g && Borrow(s, g, q, id).ok && !BaseEmpty(q)
    requires forall k | 0 <= k < |HeldBy(s.ledger, id)| ::
               SortingCriteria(HeldBy(s.ledger, id)[k]) != SortingCriteria(q)
    ensures var s1 := Borrow(s, g, q, id).state;
            && Return(s1, g, q, id).ok
            && Return(s1, g, q, id).state.(customers := s.customers) == s
  {
    StoreInvIsShaped(s);
    var t := Inventory(s, g);
    var known := Directory.FindCustomer(s.customers, id);
    var s1 := Borrow(s, g, q, id).state;
    BorrowedParts(s, g, q, id);
    ChangeStockUndo(t, q, false);
    AddThenRemove(s.ledger, id, q, known);
    ReturnedParts(s1, g, q, id);
    var s2 := Return(s1, g, q, id).state;
    SameStoreExceptLog(s, s2);
  }

  /** The inventory and the holdings after a successful borrow. */
  lemma BorrowedParts(s: Store, g: Genre, q: Movie, id: int)
    requires Shaped(s) && id >= 0 && Borrow(s, g, q, id).ok
    ensures Inventory(Borrow(s, g, q, id).state, g) == ChangeStock(Inventory(s, g), q, false).state
    ensures Borrow(s, g, q, id).state.ledger
            == AddHolding(s.ledger, id, q, Directory.FindCustomer(s.customers, id)).state
  {
  }

  /** The inventory and the holdings after a successful return. */
  lemma ReturnedParts(s: Store, g: Genre, q: Movie, id: int)
    requires Shaped(s) && id >= 0
    ensures Return(s, g, q, id).ok ==>
              && Inventory(Return(s, g, q, id).state, g) == ChangeStock(Inventory(s, g), q, true).state
              && Return(s, g, q, id).state.ledger == RemoveHolding(s.ledger, id, q).state
  {
  }

  /** Two stores with the same inventories and holdings differ at most in the customer directory. */
  lemma SameStoreExceptLog(s: Store, s2: Store)
    requires forall h: Genre :: Inventory(s2, h) == Inventory(s, h)
    requires s2.ledger == s.ledger
    ensures s2.(customers := s.customers) == s
  {
    assert Inventory(s2, ComedyGenre) == Inventory(s, ComedyGenre);
    assert Inventory(s2, DramaGenre) == Inventory(s, DramaGenre);
    assert Inventory(s2, ClassicsGenre) == Inventory(s, ClassicsGenre);
  }

  // --------------------------------------------------------------- dispatch

  /**
   * A borrow or return line after tokenising: the customer ID, the media
   * code, the genre code, and the record's fields. A missing token (the line
   * ended early) is `None`.
   */
  datatype Command = Command(custID: Option<int>, videoCode: Option<char>, genreCode: Option<char>, fields: Fields)

  /** The genre codes: 'F' for comedy, 'D' for drama, 'C' for classics. */
  function GenreForCode(c: char): (g: Option<Genre>)
    ensures g.Some? <==> c == 'F' || c == 'D' || c == 'C'
  {
    if c == 'F' then Some(ComedyGenre)
    else if c == 'D' then Some(DramaGenre)
    else if c == 'C' then Some(ClassicsGenre)
    else None
  }

  /** The checks the dispatcher makes before calling a genre helper. */
  predicate Accepted(s: Store, cmd: Command)
    requires Shaped(s) && (cmd.custID.Some? ==> cmd.custID.value >= 0)
  {
    && cmd.custID.Some? && Directory.FindCustomer(s.customers, cmd.custID.value)
    && cmd.videoCode == Some('D')
    && cmd.genreCode.Some? && GenreForCode(cmd.genreCode.value).Some?
  }

  /**
   * `handleBorrowReturnCommand(command, borrow)`: an unknown customer, a
   * media code other than 'D', a genre code other than 'F', 'D' or 'C', or a
   * line that ends before the genre code fails with nothing changed;
   * otherwise the genre's helper decides.
   */
  function HandleBorrowReturn(s: Store, cmd: Command, borrow: bool): (r: Attempt<Store>)
    requires Shaped(s) && (cmd.custID.Some? ==> cmd.custID.value >= 0)
    ensures !Accepted(s, cmd) ==> r == Attempt(false, s)
    ensures Accepted(s, cmd) ==>
              var g := GenreForCode(cmd.genreCode.value).value;
              r == BorrowReturn(s, g, cmd.fields, cmd.custID.value, borrow)
  {
    match cmd.custID
    case None => Attempt(false, s)
    case Some(id) =>
      if !Directory.FindCustomer(s.customers, id) then Attempt(false, s)
      else match cmd.videoCode
        case None => Attempt(false, s)
        case Some(v) =>
          if v != 'D' then Attempt(false, s)
          else match cmd.genreCode
            case None => Attempt(false, s)
            case Some(c) =>
              match GenreForCode(c)
              case None => Attempt(false, s)
              case Some(g) => BorrowReturn(s, g, cmd.fields, id, borrow)
  }

  /** A command that fails leaves the whole store as it was. */
  lemma HandleFailureUnchanged(s: Store, cmd: Command, borrow: bool)
    requires StoreInv(s) && (cmd.custID.Some? ==> cmd.custID.value >= 0)
    ensures StoreInv(HandleBorrowReturn(s, cmd, borrow).state)
    ensures !HandleBorrowReturn(s, cmd, borrow).ok ==> HandleBorrowReturn(s, cmd, borrow).state == s
  {
    StoreInvIsShaped(s);
    if Accepted(s, cmd) {
      var g := GenreForCode(cmd.genreCode.value).value;
      var q := QueryFor(g, cmd.fields);
      var id := cmd.custID.value;
      if borrow {
        BorrowFailureUnchanged(s, g, q, id);
        BorrowPreservesInv(s, g, q, id);
      } else {
        ReturnFailureUnchanged(s, g, q, id);
        ReturnPreservesInv(s, g, q, id);
      }
    }
  }

  /** A command changes no inventory but the one its genre code names. */
  lemma CommandTouchesOnlyItsGenre(s: Store, cmd: Command, borrow: bool)
    requires Shaped(s) && (cmd.custID.Some? ==> cmd.custID.value >= 0) && Accepted(s, cmd)
    ensures var g := GenreForCode(cmd.genreCode.value).value;
            && (g == ComedyGenre <==> cmd.genreCode.value == 'F')
            && (g == DramaGenre <==> cmd.genreCode.value == 'D')
            && (g == ClassicsGenre <==> cmd.genreCode.value == 'C')
            && forall h: Genre | h != g :: Inventory(HandleBorrowReturn(s, cmd, borrow).state, h) == Inventory(s, h)
  {
  }

  /**
   * Whether an accepted command succeeds: a borrow when the record is in
   * stock and the customer holds fewer than 13 records, a return when a copy
   * is out and the customer holds a record with the query's key.
   */
  lemma HandleSucceeds(s: Store, cmd: Command, borrow: bool)
    requires Shaped(s) && (cmd.custID.Some? ==> cmd.custID.value >= 0) && Accepted(s, cmd)
    ensures var g := GenreForCode(cmd.genreCode.value).value;
            var q := QueryFor(g, cmd.fields);
            var id := cmd.custID.value;
            HandleBorrowReturn(s, cmd, borrow).ok <==>
              && ChangeStock(Inventory(s, g), q, !borrow).ok
              && if borrow then |HeldBy(s.ledger, id)| < MaxHoldings else RemoveHolding(s.ledger, id, q).ok
  {
  }

  // ---------------------------------------------------------------- finding

  /** How a run of the drama return ends: normally, or at the null dereference. */
  datatype Run = Finished(result: Attempt<Store>) | NullDereference(before: Store)

  /**
   * The drama return as the source writes it: when the holdings removal
   * fails, the stock change is undone and the query record deleted, but the
   * function does not return, and goes on to read the deleted record's
   * sorting key through a null pointer.
   */
  function DramaReturnAsWritten(s: Store, q: Movie, id: int): (r: Run)
    requires Shaped(s) && id >= 0
    ensures r.NullDereference? <==> ChangeStock(s.dramas, q, true).ok && !RemoveHolding(s.ledger, id, q).ok
    ensures r.Finished? ==> r.result == Return(s, DramaGenre, q, id)
  {
    var c := ChangeStock(s.dramas, q, true);
    if !c.ok then Finished(Attempt(false, s))
    else
      var rm := RemoveHolding(s.ledger, id, q);
      if !rm.ok then NullDereference(s.(dramas := ChangeStock(c.state, q, false).state))
      else Finished(Attempt(true, Logged(s.(dramas := c.state, ledger := rm.state), TransactionText(false, DramaGenre, q), id)))
  }

  /** One copy of "Heat" owned and lent out; nobody's holdings recorded. */
  function HeatLentOut(): (s: Store)
    ensures Shaped(s)
  {
    var heat := Drama("Michael Mann", "Heat", 1995, 0, 1);
    var dramas := Tree(DramaGenre, [heat] + seq(OriginalSize - 1, _ => Empty(DramaGenre)), 1);
    Store(NewTree(ComedyGenre), dramas, NewTree(ClassicsGenre), Directory.NewDirectory(), map[])
  }

  /**
   * Customer 1000 returns "Heat" without holding it. The stock change
   * succeeds (a copy is out) and the holdings removal fails: as written the
   * run reaches the null dereference; the intended return fails with the
   * store unchanged.
   */
  lemma DramaReturnOfUnheldCopy()
    ensures var s := HeatLentOut();
            var q := QueryFor(DramaGenre, Fields("Heat", 0, "Michael Mann", 0, ""));
            && DramaReturnAsWritten(s, q, 1000).NullDereference?
            && Return(s, DramaGenre, q, 1000) == Attempt(false, s)
  {
    var s := HeatLentOut();
    var q := QueryFor(DramaGenre, Fields("Heat", 0, "Michael Mann", 0, ""));
    var t := s.dramas;
    assert Search(t, q) == SearchResult(true, 0);
    var c := ChangeStock(t, q, true);
    assert c.ok;
    assert Search(c.state, q) == SearchResult(true, 0);
    assert c.state.slots[0 := t.slots[0]] == t.slots;
  }
}
