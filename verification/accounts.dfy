/**
  The account store: an ordered sequence of records standing in for the
  document collection. It answers "is there a record with this user name"
  and appends records; it does not enforce uniqueness itself.
 */
module Accounts {
  import opened Wrappers
  import opened Validation

  datatype Account = Account(userName: string, password: string, email: string, age: int)

  type Store = seq<Account>

  ghost predicate Exists(store: Store, userName: string)
  {
    exists i :: 0 <= i < |store| && store[i].userName == userName
  }

  /** No two records share a user name. */
  ghost predicate Unique(store: Store)
  {
    forall i, j :: 0 <= i < j < |store| ==> store[i].userName != store[j].userName
  }

  /** The first record with the given user name, if any. */
  function FindOne(store: Store, userName: string): (r: Option<Account>)
    ensures r.Some? ==> r.value in store && r.value.userName == userName
    ensures r.None? <==> !Exists(store, userName)
  {
    if |store| == 0 then None
    else if store[0].userName == userName then Some(store[0])
    else
      var rest := FindOne(store[1..], userName);
      assert forall i :: 1 <= i < |store| ==> store[i] == store[1..][i - 1];
      rest
  }

  /** Whether some record has the given user name; a missing record is an ordinary `false`. */
  function DoesExist(store: Store, userName: string): (b: bool)
    ensures b <==> Exists(store, userName)
  {
    FindOne(store, userName).Some?
  }

  /** The number of records with the given user name. */
  function Count(store: Store, userName: string): nat
  {
    if |store| == 0 then 0
    else Count(store[..|store| - 1], userName) + (if store[|store| - 1].userName == userName then 1 else 0)
  }

  /** Appending one record adds one to the count of its own user name and leaves every other count alone. */
  lemma CountAppend(store: Store, a: Account, userName: string)
    ensures Count(store + [a], userName) == Count(store, userName) + (if a.userName == userName then 1 else 0)
  {
  }

  /** A record with the name is there iff the count is positive. */
  lemma {:induction false} CountPositiveIffExists(store: Store, userName: string)
    ensures Count(store, userName) > 0 <==> Exists(store, userName)
    decreases |store|
  {
    if |store| > 0 {
      var init := store[..|store| - 1];
      CountPositiveIffExists(init, userName);
      if Exists(init, userName) {
        var i :| 0 <= i < |init| && init[i].userName == userName;
        assert store[i].userName == userName;
      }
      if Exists(store, userName) && store[|store| - 1].userName != userName {
        var i :| 0 <= i < |store| && store[i].userName == userName;
        assert init[i].userName == userName;
      }
    }
  }

  /** In a store without duplicate names every name has at most one record. */
  lemma {:induction false} UniqueCountAtMostOne(store: Store, userName: string)
    requires Unique(store)
    ensures Count(store, userName) <= 1
    decreases |store|
  {
    if |store| > 0 {
      var init := store[..|store| - 1];
      var last := store[|store| - 1];
      UniqueCountAtMostOne(init, userName);
      if last.userName == userName {
        assert forall i :: 0 <= i < |init| ==> init[i].userName != userName by {
          forall i | 0 <= i < |init|
            ensures init[i].userName != userName
          {
            assert init[i] == store[i];
          }
        }
        CountPositiveIffExists(init, userName);
      }
    }
  }

  /** Appending a record whose name is absent keeps the store free of duplicates. */
  lemma AppendFreshKeepsUnique(store: Store, a: Account)
    requires Unique(store)
    requires !Exists(store, a.userName)
    ensures Unique(store + [a])
  {
  }
}
