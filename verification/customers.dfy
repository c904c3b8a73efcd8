/**
 * Customers: an ID, a name, the log of transaction texts the store records
 * for them, and a borrow counter. The link to the next customer of a hash
 * chain is not a field here: a chain is a sequence of customers in the
 * directory module.
 */
module Customers {

  datatype Customer = Customer(
    id: int,
    firstName: string,
    lastName: string,
    transactions: seq<string>,
    borrowCount: int)

  /** `Customer()`: ID 0, no names, nothing logged, nothing borrowed. */
  function DefaultCustomer(): (c: Customer)
    ensures IsBlank(c) && c.transactions == []
  {
    Customer(0, "", "", [], 0)
  }

  /** `Customer(id, firstName, lastName)`: an empty log and a borrow count of 0. */
  function NewCustomer(id: int, firstName: string, lastName: string): (c: Customer)
    ensures c.id == id && c.firstName == firstName && c.lastName == lastName
    ensures c.transactions == [] && c.borrowCount == 0
    ensures IsBlank(c) <==> id == 0 && firstName == "" && lastName == ""
  {
    Customer(id, firstName, lastName, [], 0)
  }

  /**
   * `Customer::isEmpty` without its last conjunct: every field still holds
   * the default constructor's value. The log is not consulted. The test that
   * no successor is linked belongs to the chain (`Directory.HeadIsEmpty`).
   */
  predicate IsBlank(c: Customer) {
    c.id == 0 && c.lastName == "" && c.firstName == "" && c.borrowCount == 0
  }

  /** `operator==`: two customers are the same customer when their IDs agree. */
  predicate SameCustomer(a: Customer, b: Customer) {
    a.id == b.id
  }

  /** `addTransaction`: the text goes at the end of the log, and nothing else changes. */
  function AddTransaction(c: Customer, text: string): (r: Customer)
    ensures |r.transactions| == |c.transactions| + 1
    ensures r.transactions[..|c.transactions|] == c.transactions
    ensures r.transactions[|c.transactions|] == text
    ensures r.(transactions := c.transactions) == c
  {
    c.(transactions := c.transactions + [text])
  }

  const NoTransactionsMessage: string := "This customer has made no transactions."

  /** The log read backwards. */
  function Reversed(s: seq<string>): (r: seq<string>)
    ensures |r| == |s|
  {
    if |s| == 0 then [] else [s[|s| - 1]] + Reversed(s[..|s| - 1])
  }

  lemma {:induction false} ReversedAt(s: seq<string>, k: nat)
    requires k < |s|
    ensures Reversed(s)[k] == s[|s| - 1 - k]
    decreases |s|
  {
    if k > 0 {
      ReversedAt(s[..|s| - 1], k - 1);
    }
  }

  /** Reading the log backwards twice gives it back. */
  lemma ReversedTwice(s: seq<string>)
    ensures Reversed(Reversed(s)) == s
  {
    var r := Reversed(Reversed(s));
    forall k | 0 <= k < |s|
      ensures r[k] == s[k]
    {
      ReversedAt(Reversed(s), k);
      ReversedAt(s, |s| - 1 - k);
    }
  }

  /**
   * `printCustomerTransactions`, as the lines it prints: the log from the
   * newest entry back to the oldest, or the "no transactions" line when the
   * log is empty.
   */
  method TransactionReport(c: Customer) returns (lines: seq<string>)
    ensures |c.transactions| == 0 ==> lines == [NoTransactionsMessage]
    ensures |c.transactions| > 0 ==> lines == Reversed(c.transactions)
  {
    var log := c.transactions;
    if |log| > 0 {
      lines := [];
      var it := |log| - 1;
      while it != 0
        invariant 0 <= it < |log|
        invariant |lines| == |log| - 1 - it
        invariant forall k | 0 <= k < |lines| :: lines[k] == log[|log| - 1 - k]
        decreases it
      {
        lines := lines + [log[it]];
        it := it - 1;
      }
      lines := lines + [log[it]];
      forall k | 0 <= k < |log|
        ensures lines[k] == Reversed(log)[k]
      {
        ReversedAt(log, k);
      }
    } else {
      lines := [NoTransactionsMessage];
    }
  }

  /** The log of a customer who logged `a` and then `b`, printed, starts with `b`. */
  lemma ReportShowsNewestFirst(c: Customer, a: string, b: string)
    requires c.transactions == []
    ensures Reversed(AddTransaction(AddTransaction(c, a), b).transactions) == [b, a]
  {
    var log := AddTransaction(AddTransaction(c, a), b).transactions;
    assert log == [a, b];
    assert log[..1] == [a];
    assert [a][..0] == [];
  }

  /** `incrementBorrowCount`: one more, with no upper bound. */
  function IncrementBorrowCount(c: Customer): (r: Customer)
    ensures r.borrowCount == c.borrowCount + 1
    ensures r.(borrowCount := c.borrowCount) == c
  {
    c.(borrowCount := c.borrowCount + 1)
  }

  /** `decrementBorrowCount`: one fewer, with no lower bound. */
  function DecrementBorrowCount(c: Customer): (r: Customer)
    ensures r.borrowCount == c.borrowCount - 1
    ensures r.(borrowCount := c.borrowCount) == c
  {
    c.(borrowCount := c.borrowCount - 1)
  }

  /** Each borrow-count change is undone by the other. */
  lemma BorrowCountRoundTrip(c: Customer)
    ensures DecrementBorrowCount(IncrementBorrowCount(c)) == c
    ensures IncrementBorrowCount(DecrementBorrowCount(c)) == c
  {
  }
}
