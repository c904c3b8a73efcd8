# Movie rental store — a Dafny model

This project models the core of a small video-rental store written in C++.
The store keeps one inventory per genre: comedy, drama and classics. Each
inventory is a binary search tree laid out in an array, where the children of
slot `i` are slots `2i+1` and `2i+2`. Records are ordered by a per-genre key,
and an unused slot holds the genre's default ("empty") record.

The model covers:

- **Movie records**: their stock counters, the sorting-key strings, and the
  per-genre `==`, `<` and `>` operators.
- **The array tree**: search, growth up to a capacity of 1000 slots, insertion with its
  four outcome codes, the stock change, the fullness scan and the in-order
  traversal.
- **Customers**: a log of transaction texts and a borrow counter.
- **The customer directory**: 5000 buckets with separate chaining, indexed by
  a digit-folding hash of the customer ID.
- **The holdings ledger**: per customer, at most 13 borrowed records. It is
  modelled twice, as an array of 13 nullable slots and as the list those
  slots represent.
- **Borrow and return**: the per-genre helpers change the stock first and the
  ledger second. They undo the stock change when the ledger step fails, and
  log the transaction with the customer on success.
- **The dispatcher**: it checks a command's customer ID, its media code and
  its genre code before calling a helper.

Modules, one per file:

- `Outcomes`: `Option` and `Attempt`. An `Attempt` is a success flag plus the
  resulting state.
- `Strings`: the character-wise string order (on UTF-8 text it agrees with std::string's unsigned-byte order), and decimal printing and reading of
  integers.
- `Movies`: records, stock, keys and comparisons.
- `ArrayTree`: the tree operations. `TreeProofs` holds what is proved about
  them.
- `Hashing`: the folding hash.
- `Customers`: customer records.
- `Directory`: the customer directory.
- `Holdings`: the holdings ledger.
- `Store`: the helpers, the dispatcher, and the finding below.

Parsing a command line is not modelled. A command arrives already split into
its customer ID, media code, genre code and record fields, each optional.

Two choices differ from the source's types:

- The C++ genre templates guarantee that a query record has its tree's genre.
  The model states this as `GenreOf(q) == g` where a proof needs it.
- `InsertHelper`'s integer codes (-1, 0, 1, 2) become the datatype
  `InsertOutcome`.

## Model

| member | source | states |
|---|---|---|
| Movies.Empty | Movie.cpp:6-13 | The default record of each genre reads as empty and has no copies. |
| Movies.NewComedy | Movie.cpp:203-204 | A new comedy carries the given title, year and director. Every owned copy starts on the shelf (stock equals starting stock). |
| Movies.NewDrama | Movie.cpp:297-298 | A new drama carries the given director, title and year, with stock equal to starting stock. |
| Movies.NewClassics | Movie.cpp:394-398 | A new classic carries the given year, month, actor, director and title, with stock equal to starting stock. |
| Movies.IncrementStock | Movie.cpp:142-152 | Putting a copy back succeeds exactly when stock is below the owned count; then the stock rises by one, otherwise nothing changes. The stock stays within bounds. |
| Movies.DecrementStock | Movie.cpp:159-168 | Taking a copy succeeds exactly when stock is positive; then the stock falls by one, otherwise nothing changes. The stock stays within bounds. |
| Movies.StockRoundTrip | Movie.cpp:142-168 | A successful decrement is undone by an increment, and a successful increment by a decrement. |
| Movies.RestockKeepsKey | Movie.cpp:239-282 | Changing only a record's stock changes none of its comparisons, its genre or its blankness. |
| Movies.ReleaseDateInjective | Movie.cpp:430-433 | Two equal release-date strings ("month year") come from the same month and year. |
| Movies.ComparatorsMatchOrder | Movie.cpp:239-520 | For two records of one genre, `==` is "same key", `<` is lexicographic key order and `>` is that order reversed. The keys are (title, year) for comedy, (director, title) for drama, and (release date, actor) for classics. |
| Movies.Trichotomy | Movie.cpp:478-520 | Exactly one of `==`, `<` and `>` holds between two records of one genre. This holds even for classics, where `<` is written as "neither `==` nor `>`". |
| Movies.GreaterIsConverseOfLess | Movie.cpp:254-282 | `a > b` holds exactly when `b < a`, and `==` is symmetric. |
| Movies.BeforeTransitive | Movie.cpp:348-378 | The key order that `<` implements is transitive. |
| Movies.BeforeTotal | Movie.cpp:492-506 | Two records of one genre either share a key or are ordered one way or the other. |
| Movies.EqualRecordsShareKey | Movie.cpp:216-219 | Records that compare `==` print the same sorting-key string. |
| Movies.ComedyKeyDeterminesRecord | Movie.cpp:216-219 | Two comedies with the same key string "title, year" compare `==`. |
| Movies.ClassicsKeyDeterminesRecord | Movie.cpp:410-413 | Two classics with the same key string "month year actor" compare `==`. |
| Movies.DramaKeyDeterminesRecord | Movie.cpp:310-313 | Two dramas with the same key string "director, title," compare `==`, provided neither director contains a comma. |
| Movies.DramaKeyAmbiguous | Movie.cpp:310-313 | Without that proviso, two different dramas can print the same key. |
| Strings.IntToStringInjective | Movie.cpp:430-433 | Different integers print differently, so the numbers inside a key can be read back from it. |
| ArrayTree.NewTree | BSTArray.h:220-224 | A new inventory has 100 unused slots, stores nothing and satisfies the tree invariant. |
| ArrayTree.Size | BSTArray.h:339-342 | Under the invariant, the stored count equals the number of occupied slots. |
| ArrayTree.SearchFrom | BSTArray.h:78-109 | The search ends in the subtree of its start. A hit is a slot whose record compares `==` to the query. A miss is an unused child of an occupied slot, or of the start, and may lie past the end of the array. |
| ArrayTree.Grow | BSTArray.h:136-154 | Growth is refused exactly when the new capacity would exceed 1000. It keeps every existing slot and what it holds, and adds unused slots. |
| ArrayTree.OccupiedRun | BSTArray.h:240-253 | The fullness scan counts the occupied slots before the first unused one. |
| ArrayTree.IsFull | BSTArray.h:240-253 | A tree is full exactly when every slot of its array is occupied. |
| ArrayTree.InsertHelper | BSTArray.h:164-192 | Each outcome code holds exactly in its case: full, duplicate key, growth refused, or inserted. Only the inserted case changes the tree: it writes the record at the search's insertion point, first growing the array by five times the overshoot when that point lies past the end. |
| ArrayTree.Insert | BSTArray.h:300-332 | A failed insertion changes nothing. A successful one fills one previously unused slot, changes no other slot and adds one to the count. An empty root always takes the record, at slot 0, without a search. Capacity never exceeds 1000. |
| ArrayTree.ChangeStock | BSTArray.h:263-290 | A stock change succeeds only on a record the search finds. For a found record, it succeeds exactly when that record's stock is within bounds for the direction. On success only that slot's stock moves, by one; on failure nothing changes. |
| ArrayTree.InOrderFrom | BSTArray.h:199-212 | The traversal lists only occupied slots. |
| TreeProofs.SearchFindsPresent | BSTArray.h:78-109 | A search started at any ancestor of the slot holding a key finds that slot. |
| TreeProofs.SearchComplete | BSTArray.h:118-122 | In a valid tree, a search from the root finds the slot holding any stored key. |
| TreeProofs.SearchSound | BSTArray.h:80-84 | A hit is a slot with the query's key, and is occupied whenever the root is. |
| TreeProofs.SearchPath | BSTArray.h:85-108 | Every slot that a missed search passes lies on the same side of the query as the insertion point it reports, so storing the query there keeps the order. |
| TreeProofs.InsertPreservesInv | BSTArray.h:300-332 | Inserting a well-formed record of the tree's genre keeps the tree ordered and parent-closed, with an accurate count and a capacity of at most 1000. |
| TreeProofs.InsertAddsNewKey | BSTArray.h:172-190 | An insertion succeeds only when no stored record shares the new record's key. |
| TreeProofs.InsertedIsFound | BSTArray.h:184-185 | After a successful insertion, searching for the record finds it at the slot it was written to. |
| TreeProofs.InsertConstructedRecord | BSTArray.h:300-332 | A record built by a genre constructor, with a title and every copy on the shelf, can be inserted into any valid tree of its genre. The tree stays valid, and an accepted record is found where it was stored. |
| TreeProofs.BlankRecordVanishes | Movie.cpp:226-229 | A comedy with no director, title or year but one copy is accepted into an empty tree. After one copy is lent out, its slot reads as unused although the count still says one record is stored, and the next insertion overwrites it. |
| TreeProofs.FullIffSizeAtCapacity | BSTArray.h:240-253 | In a valid tree, the fullness scan answers exactly whether the count equals the capacity. |
| TreeProofs.ChangeStockPreservesInv | BSTArray.h:263-290 | A stock change keeps the tree invariant. No slot turns from used to unused or back, although `isEmpty` reads the stock. |
| TreeProofs.ChangeStockKeepsSearch | BSTArray.h:263-290 | After a successful stock change, the query still finds the same slot, and that slot holds a well-formed record. |
| TreeProofs.ChangeStockUndo | BSTArray.h:263-290 | A successful stock change followed by the opposite change restores the tree exactly. |
| TreeProofs.ChangeStockTargets | BSTArray.h:263-290 | For a stored key, the search lands on its slot, and the change succeeds exactly when that slot's stock allows the direction. |
| TreeProofs.ChangeStockMissing | BSTArray.h:265-289 | Changing the stock of a key that is not stored always fails. |
| TreeProofs.InOrderComplete | BSTArray.h:199-212 | Every occupied slot below a slot appears in that slot's traversal. |
| TreeProofs.TraversalSortedAndComplete | BSTArray.h:362-365 | In a valid tree, the traversal visits exactly the occupied slots. It lists their records in strictly ascending key order, and lists as many as the count says. |
| Hashing.GetHashCode | MovieRentalStore.cpp:49-70 | The loop computes the folded sum of the ID's digit groups modulo the table size. Each group is as wide as the largest bucket index, and the last group also takes the leftover digits. The result is a valid bucket. |
| Hashing.BucketOf | MovieRentalStore.cpp:49-70 | Every non-negative ID hashes to a bucket between 0 and the table size. |
| Hashing.ShortKeyHash | MovieRentalStore.cpp:66-69 | An ID below the table size hashes to itself. |
| Hashing.FoldExample | MovieRentalStore.cpp:57-64 | In the 5000-bucket table, ID 12345 folds to 1234 + 5 = 1239. |
| Customers.DefaultCustomer | Customer.cpp:8 | The default customer is blank and has an empty log. |
| Customers.NewCustomer | Customer.cpp:19 | A new customer has the given ID and names, an empty log and no borrows. It is blank only when all three of those are default values. |
| Customers.AddTransaction | Customer.cpp:123-126 | Logging appends the text at the end of the log, keeps earlier entries, and changes nothing else. |
| Customers.TransactionReport | Customer.cpp:100-116 | The printed history is the log from newest to oldest, or the single "no transactions" line for an empty log. |
| Customers.ReversedTwice | Customer.cpp:100-116 | Reading the history backwards twice gives the log back, so the printout loses and reorders nothing. |
| Customers.ReportShowsNewestFirst | Customer.cpp:100-116 | A customer who logged `a` and then `b` sees `b` printed first. |
| Customers.BorrowCountRoundTrip | Customer.cpp:141-152 | Incrementing and decrementing the borrow count undo each other. |
| Directory.NewDirectory | MovieRentalStore.h:17-20 | The directory starts with 5000 empty buckets. |
| Directory.NewDirectoryInv | MovieRentalStore.h:17-20 | The empty directory satisfies the directory invariant. |
| Directory.BucketFor | MovieRentalStore.cpp:81 | A customer's bucket is the hash of its ID over 5000 buckets, and is always a valid index. |
| Directory.IndexInChain | MovieRentalStore.cpp:132-145 | The chain walk returns the first position holding the ID, and fails exactly when no position does. |
| Directory.FindCustomer | MovieRentalStore.cpp:119-147 | A lookup answers exactly whether the ID's bucket is non-empty and some customer of its chain has that ID. |
| Directory.FindIffStored | MovieRentalStore.cpp:119-147 | In a valid directory, a lookup answers exactly whether a customer with that ID is stored in any bucket. |
| Directory.LookupUsesIdOnly | MovieRentalStore.cpp:132-145 | Lookups compare IDs only: replacing a stored customer by any non-blank record with the same ID changes no lookup. |
| Directory.AddCustomer | MovieRentalStore.cpp:79-110 | Adding is refused, with nothing changed, exactly when the ID is already found. Otherwise the customer becomes the head of an empty bucket, or is appended to the end of its chain. |
| Directory.AddThenFind | MovieRentalStore.cpp:79-110 | After an add, the customer is found, unless a blank default customer went into an empty bucket. |
| Directory.AddKeepsOtherLookups | MovieRentalStore.cpp:79-110 | Adding a customer does not change the lookup of any other ID. |
| Directory.AddPreservesInv | MovieRentalStore.cpp:79-110 | Adding keeps every stored customer in the bucket its ID hashes to, with no repeated ID within a chain. |
| Directory.AddTransaction | MovieRentalStore.cpp:157-184 | For a customer who is found, the text is appended to that customer's log. The result is true only when the customer is not the head of its chain. An unknown ID fails with nothing changed. |
| Directory.AddTransactionOnlyTouchesOwner | MovieRentalStore.cpp:157-184 | Logging changes no customer other than the one with that ID. It only ever extends that customer's log, and every lookup answers as before. |
| Directory.AddTransactionLogsOwner | MovieRentalStore.cpp:163-179 | The text lands at the end of the found customer's log. |
| Directory.AddTransactionPreservesInv | MovieRentalStore.cpp:157-184 | Logging keeps the directory invariant. |
| Holdings.AddHolding | MovieRentalStore.cpp:253-273 | Adding a holding succeeds exactly when the customer already has an entry or is known to the directory, and holds fewer than 13 records. On success the record is appended; on failure nothing changes. |
| Holdings.HoldingsEmpty | MovieRentalStore.cpp:282-293 | The list-level emptiness test answers exactly whether all 13 slots of the customer's array are null, the array being the list packed from the front. |
| Holdings.FirstMatch | MovieRentalStore.cpp:311-315 | The scan returns the first held record with the given key, and fails exactly when none has it. |
| Holdings.RemoveHolding | MovieRentalStore.cpp:303-345 | Removal succeeds exactly when the query is not empty by the base-class test, the customer has an entry, and some held record shares the query's sorting key. It removes the first such record, keeps the others in order, and erases an entry left with nothing. Otherwise nothing changes. |
| Holdings.AddHoldingPreservesInv | MovieRentalStore.cpp:253-273 | Adding keeps every entry holding between 1 and 13 records. |
| Holdings.RemoveHoldingPreservesInv | MovieRentalStore.cpp:303-345 | Removal keeps every entry holding between 1 and 13 records. |
| Holdings.AddThenRemove | MovieRentalStore.cpp:253-345 | Removing a record just added gives back the ledger as it was, when no earlier holding shares its key. |
| Holdings.ValuesOfPack | MovieRentalStore.cpp:236-241 | Packing a list of at most 13 records into the slot array and reading it back gives the list. |
| Holdings.PackOfValues | MovieRentalStore.cpp:263-270 | A slot array filled from the front is the packing of the records it holds. |
| Holdings.FillFirstFree | MovieRentalStore.cpp:263-272 | The record goes into the first null slot; with no null slot nothing changes. On a packed array this is appending to the held list, and it fails exactly when the list is full. |
| Holdings.AllFree | MovieRentalStore.cpp:282-293 | Counting null slots answers exactly whether every slot is null. On a packed array, that is whether the held list is empty. |
| Holdings.RemoveFirstMatch | MovieRentalStore.cpp:311-340 | The array loops succeed exactly when some slot holds a record with the key. They keep the array packed, and on a packed array they remove the first such record from the held list. |
| Holdings.RemovedPacked | MovieRentalStore.cpp:319-332 | What the shift-down loop leaves is packed, and it holds the list with the first match removed. |
| Store.NewStore | MovieRentalStore.h:17-30 | The store starts with three empty inventories, an empty directory and nothing borrowed, and satisfies the store invariant. |
| Store.QueryFor | MovieRentalStore.cpp:722-723 | The query a helper builds has the command's genre and key fields, and no stock. |
| Store.Borrow | MovieRentalStore.cpp:730-745 | A borrow succeeds exactly when the stock change and the holdings addition both succeed. A failure leaves directory and ledger alone, and no other genre's inventory changes. |
| Store.Return | MovieRentalStore.cpp:840-858 | A return succeeds exactly when the stock change and the holdings removal both succeed. A failure leaves directory and ledger alone, and no other genre's inventory changes. |
| Store.BorrowFailureUnchanged | MovieRentalStore.cpp:733-741 | In a valid store, a failed borrow is fully undone: the store is exactly as before. |
| Store.ReturnFailureUnchanged | MovieRentalStore.cpp:842-850 | In a valid store, a failed return is fully undone: the store is exactly as before. |
| Store.BorrowSuccess | MovieRentalStore.cpp:730-745 | A successful borrow takes one copy off the record the search finds. It appends the query to the customer's holdings and logs "Borrowed …" with the customer. |
| Store.ReturnSuccess | MovieRentalStore.cpp:840-858 | A successful return puts one copy back on the found record. It removes the first matching holding and logs "Returned …". |
| Store.BorrowPreservesInv | MovieRentalStore.cpp:824-839 | A borrow by a known customer keeps the store invariant. The invariant covers the valid trees, the directory invariant, 1 to 13 holdings per entry, and a known customer behind every entry. |
| Store.ReturnPreservesInv | MovieRentalStore.cpp:840-858 | A return keeps the store invariant. |
| Store.LoggedKeepsInv | MovieRentalStore.cpp:157-184 | Logging a transaction keeps the directory invariant and every lookup. |
| Store.BorrowThenReturn | MovieRentalStore.cpp:824-858 | Borrowing a record and then returning it succeeds, and gives back the store as it was except for the two log lines. This needs a non-empty query and a customer who held nothing with its key. |
| Store.GenreForCode | MovieRentalStore.cpp:916-932 | A genre code is accepted exactly when it is 'F', 'D' or 'C'. |
| Store.CommandTouchesOnlyItsGenre | MovieRentalStore.cpp:916-932 | An accepted command acts on the genre its code names ('F' comedy, 'D' drama, 'C' classics) and leaves the other two inventories unchanged. |
| Store.HandleBorrowReturn | MovieRentalStore.cpp:879-951 | A command with an unknown customer, a media code other than 'D', a bad genre code, or too few tokens fails with nothing changed. Any other command is decided by its genre's helper. |
| Store.HandleFailureUnchanged | MovieRentalStore.cpp:879-951 | In a valid store, every command keeps the invariant, and a failed command leaves the store exactly as it was. |
| Store.HandleSucceeds | MovieRentalStore.cpp:824-858 | An accepted borrow succeeds exactly when the record is in stock and the customer holds fewer than 13 records. An accepted return succeeds exactly when a copy is out and the customer holds a record with the query's key. |
| Store.DramaReturnAsWritten | MovieRentalStore.cpp:746-763 | The drama return as written reaches a null dereference exactly when the stock change succeeds and the holdings removal fails. Otherwise it ends as the intended return does. |
| Store.DramaReturnOfUnheldCopy | MovieRentalStore.cpp:749-757 | A concrete store and command where the written drama return dereferences null, while the intended return fails with the store unchanged. |

## Left out

- Reading the movie, customer and command files, tokenising lines, `stoi`, and the movie factories are not modelled. Commands arrive already parsed, with a missing token as `None`.
- Printing is not modelled: `outputStoreInventory`, `printCustomerTransHistory`, `printCustomerBorrowList`, `printTreeContents` and the console messages. Only the content of a customer's history printout is modelled, by `Customers.TransactionReport`.
- Memory management is not modelled: destructors, `delete`, `clearCustMovieBorrowData` and the end-of-run cleanup. Values replace pointers.
- `searchMediaInventory` returns only whether the record is present: it is the `found` flag of `ArrayTree.Search`, and has no member of its own.
- `Hashing.GroupWidth`: `log10(tableSize - 1) + 1` is computed exactly as the digit count, instead of in floating point.
- `Holdings.FillFirstFree`: `initializeCustomerBorrowList` is folded into `Holdings.AddHolding`, which takes a `known` flag for the directory lookup.
- TreeProofs.InsertPreservesInv: holds only for well-formed records, meaning not blank and with `0 <= stock <= startingStock`; `InsertedIsFound` and the tree invariant carry the same restriction. The source's `Insert` accepts any record. A blank record with copies on the shelf, or one with a negative stock, breaks the tree once its slot reads as empty. `TreeProofs.BlankRecordVanishes` exhibits this. Records built by the genre constructors with a title satisfy the restriction (`TreeProofs.InsertConstructedRecord`).
- Reading a child slot past the end of the array (BSTArray.h:87 and 99) is undefined in C++; the model reads such a slot as unused, which is what makes a miss report an insertion point past the end.
- Negative customer IDs are outside the model: every directory operation requires `id >= 0`. For a negative ID, the source would hash a string with a minus sign.
- Integer widths are unbounded: `short` release years, and `int` stock counters and hash sums, never wrap here. A year above 32767 wraps in the source but not in the model.
- `Customers.IsBlank`: the `nextCustomer == nullptr` part of `Customer::isEmpty` belongs to the chain, so it is checked by `Directory.HeadIsEmpty`.
- `Movies.BaseEmpty`: `Movie::isEmpty` is not virtual. The ledger's removal test through a `Movie*` therefore ignores the Classics-only month and actor fields. The model keeps this base-class test, distinct from the genre's own `Movies.IsEmpty`.
- The genre agreement `GenreOf(q) == g` required by the store and tree lemmas is guaranteed by the C++ templates, which instantiate one tree per genre class.
- `ArrayTree.ChangeStock`: the parameter documentation at BSTArray.h:259 calls the flag a decrement, but the code at BSTArray.h:269-271 increments when it is true. The model follows the code.
- `Directory.AddTransaction`: when the customer is the head of its bucket, the code logs the text but returns false (MovieRentalStore.cpp:165-167 and 183). The model follows the code; the callers ignore the result.
- `Movies.DramaKeyDeterminesRecord`: a drama's key "director, title," is ambiguous when a director contains a comma, so the ledger can match a different drama. `Movies.DramaKeyAmbiguous` exhibits this, and the model keeps the source's key.

## Findings

| source | as written | input that shows it | evidently intended | confidence | as-written member | corrected member |
|---|---|---|---|---|---|---|
| MovieRentalStore.cpp:749-757 | When the holdings removal fails, the drama return undoes the stock change and deletes the query, but does not return. It then reads `dramaMovie->getSortingCriteria()` through the null pointer it just set. | One copy of "Heat" (Michael Mann) owned and lent out; customer 1000, who holds nothing, returns it. | Fail with the stock restored and the store unchanged, as the comedy and classics helpers do. | not executed | Store.DramaReturnAsWritten (counterexample Store.DramaReturnOfUnheldCopy) | Store.Return |
