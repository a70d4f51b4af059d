/**
 * The listing queries of the three controllers: a filter over the table and an
 * ordering on `CreateAt`. The database is free to order claims created at the
 * same instant either way, so a listing is specified by what it must satisfy
 * (`IsListing`) and `Select` computes one listing that does.
 */
module Listing {
  import opened Wrappers
  import opened Text
  import opened Time
  import opened Claims

  /** The `Where` clauses the controllers use. */
  datatype Filter =
    | OwnedBy(fullName: string)
    | AwaitingCoordinator(nameTerm: Option<string>)
    | AwaitingManager(nameTerm: Option<string>)

  /** The reviewers' optional name search: no constraint when the term is null or
      blank, else the lecturer's name contains the trimmed term (`LIKE '%term%'`). */
  predicate NameMatches(name: string, nameTerm: Option<string>) {
    IsNullOrWhiteSpace(nameTerm) || Contains(name, Trim(nameTerm.value))
  }

  predicate Keeps(f: Filter, c: Claim) {
    match f
    case OwnedBy(fullName) => c.lecturerName == fullName
    case AwaitingCoordinator(term) => c.status == Pending && NameMatches(c.lecturerName, term)
    case AwaitingManager(term) => c.status == CoordinatorApproved && NameMatches(c.lecturerName, term)
  }

  /** `OrderBy(c => c.CreateAt)` or `OrderByDescending(c => c.CreateAt)`. */
  datatype Order = OldestFirst | NewestFirst

  /** Position key of a claim: ascending rank is the requested order. */
  function Rank(c: Claim, order: Order): int {
    if order == OldestFirst then OrderKey(c.createAt) else -OrderKey(c.createAt)
  }

  predicate Sorted(r: seq<Entry>, order: Order) {
    forall i, j :: 0 <= i < j < |r| ==> Rank(r[i].claim, order) <= Rank(r[j].claim, order)
  }

  predicate NoRepeatedIds(r: seq<Entry>) {
    forall i, j :: 0 <= i < j < |r| ==> r[i].id != r[j].id
  }

  /** Record `id` appears in the listing. */
  predicate Lists(r: seq<Entry>, id: int) {
    exists i :: 0 <= i < |r| && r[i].id == id
  }

  /** Every row of the listing is a record of the table that passes the filter. */
  predicate RowsFromTable(store: Store, f: Filter, r: seq<Entry>) {
    forall i :: 0 <= i < |r| ==> r[i].id in store && r[i].claim == store[r[i].id] && Keeps(f, r[i].claim)
  }

  /** What the query returns: the records that pass the filter, each once, in the
      requested order. */
  predicate IsListing(store: Store, f: Filter, order: Order, r: seq<Entry>) {
    && RowsFromTable(store, f, r)
    && (forall id :: id in store && Keeps(f, store[id]) ==> Lists(r, id))
    && NoRepeatedIds(r)
    && Sorted(r, order)
  }

  /** Where `e` goes in a sorted listing: after every entry ranking no later than it,
      before every entry ranking later. */
  function Slot(xs: seq<Entry>, e: Entry, order: Order): (k: nat)
    requires Sorted(xs, order)
    ensures k <= |xs|
    ensures forall i :: 0 <= i < k ==> Rank(xs[i].claim, order) <= Rank(e.claim, order)
    ensures forall i :: k <= i < |xs| ==> Rank(e.claim, order) < Rank(xs[i].claim, order)
  {
    if |xs| == 0 || Rank(e.claim, order) < Rank(xs[0].claim, order) then 0
    else 1 + Slot(xs[1..], e, order)
  }

  /** Inserting at the slot keeps the listing sorted, adds exactly `e`, and keeps
      ids distinct when `e`'s id is new. */
  function Insert(xs: seq<Entry>, e: Entry, order: Order): (r: seq<Entry>)
    requires Sorted(xs, order)
    ensures Sorted(r, order)
    ensures |r| == |xs| + 1
    ensures forall x :: x in r <==> x == e || x in xs
    ensures NoRepeatedIds(xs) && (forall x :: x in xs ==> x.id != e.id) ==> NoRepeatedIds(r)
  {
    var k := Slot(xs, e, order);
    InsertAtSlot(xs, e, order, k);
    xs[..k] + [e] + xs[k..]
  }

  lemma InsertAtSlot(xs: seq<Entry>, e: Entry, order: Order, k: nat)
    requires Sorted(xs, order) && k <= |xs|
    requires forall i :: 0 <= i < k ==> Rank(xs[i].claim, order) <= Rank(e.claim, order)
    requires forall i :: k <= i < |xs| ==> Rank(e.claim, order) < Rank(xs[i].claim, order)
    ensures Sorted(xs[..k] + [e] + xs[k..], order)
    ensures forall x :: x in xs[..k] + [e] + xs[k..] <==> x == e || x in xs
    ensures NoRepeatedIds(xs) && (forall x :: x in xs ==> x.id != e.id) ==> NoRepeatedIds(xs[..k] + [e] + xs[k..])
  {
    var r := xs[..k] + [e] + xs[k..];
    SlotLayout(xs, e, k);
    forall i, j | 0 <= i < j < |r|
      ensures Rank(r[i].claim, order) <= Rank(r[j].claim, order)
    {
      if j < k {
        assert r[i] == xs[i] && r[j] == xs[j];
      } else if i > k {
        assert r[i] == xs[i - 1] && r[j] == xs[j - 1];
      } else if i == k {
        assert r[j] == xs[j - 1];
      } else if j == k {
        assert r[i] == xs[i];
      } else {
        assert r[i] == xs[i] && r[j] == xs[j - 1];
      }
    }
    forall x ensures x in r <==> x == e || x in xs {
      if x in xs {
        var i :| 0 <= i < |xs| && xs[i] == x;
        if i < k { assert r[i] == x; } else { assert r[i + 1] == x; }
      }
    }
    if NoRepeatedIds(xs) && (forall x :: x in xs ==> x.id != e.id) {
      forall i, j | 0 <= i < j < |r| ensures r[i].id != r[j].id {
        if j < k {
          assert r[i] == xs[i] && r[j] == xs[j];
        } else if i > k {
          assert r[i] == xs[i - 1] && r[j] == xs[j - 1];
        } else if i == k {
          assert r[j] == xs[j - 1];
          assert xs[j - 1] in xs;
        } else if j == k {
          assert r[i] == xs[i];
          assert xs[i] in xs;
        } else {
          assert r[i] == xs[i] && r[j] == xs[j - 1];
        }
      }
    }
  }

  /** Where each element of `xs[..k] + [e] + xs[k..]` comes from. */
  lemma SlotLayout(xs: seq<Entry>, e: Entry, k: nat)
    requires k <= |xs|
    ensures |xs[..k] + [e] + xs[k..]| == |xs| + 1
    ensures forall i :: 0 <= i < k ==> (xs[..k] + [e] + xs[k..])[i] == xs[i]
    ensures (xs[..k] + [e] + xs[k..])[k] == e
    ensures forall i :: k < i <= |xs| ==> (xs[..k] + [e] + xs[k..])[i] == xs[i - 1]
  {
  }

  /** A non-empty set has an element (what picking the next record relies on). */
  lemma NonEmptyHasMember(s: set<int>)
    requires s != {}
    ensures exists x :: x in s
  {
    if forall y :: y !in s {
      assert false;
    }
  }

  /** One step of the query loop: inserting record `id` keeps everything the loop maintains. */
  lemma InsertStep(store: Store, f: Filter, order: Order, r: seq<Entry>, unseen: set<int>, id: int)
    requires id in unseen && unseen <= store.Keys && Keeps(f, store[id])
    requires RowsFromTable(store, f, r)
    requires forall i :: 0 <= i < |r| ==> r[i].id !in unseen
    requires forall k :: k in store && k !in unseen && Keeps(f, store[k]) ==> Lists(r, k)
    requires NoRepeatedIds(r) && Sorted(r, order)
    ensures var next := Insert(r, Entry(id, store[id]), order);
      && RowsFromTable(store, f, next)
      && (forall i :: 0 <= i < |next| ==> next[i].id !in unseen - {id})
      && (forall k :: k in store && k !in unseen - {id} && Keeps(f, store[k]) ==> Lists(next, k))
      && NoRepeatedIds(next)
      && Sorted(next, order)
  {
    var e := Entry(id, store[id]);
    var next := Insert(r, e, order);
    forall x | x in r ensures x.id != id {
      var i :| 0 <= i < |r| && r[i] == x;
    }
    assert e in next;
    forall i | 0 <= i < |next|
      ensures next[i].id in store && next[i].claim == store[next[i].id] && Keeps(f, next[i].claim)
      ensures next[i].id !in unseen - {id}
    {
      assert next[i] in next;
      if next[i] != e {
        var j :| 0 <= j < |r| && r[j] == next[i];
      }
    }
    forall k | k in store && k !in unseen - {id} && Keeps(f, store[k])
      ensures Lists(next, k)
    {
      if k == id {
        var i :| 0 <= i < |next| && next[i] == e;
      } else {
        var j :| 0 <= j < |r| && r[j].id == k;
        assert r[j] in next;
        var i :| 0 <= i < |next| && next[i] == r[j];
      }
    }
  }

  /** Runs the query: every record is visited once and the ones the filter keeps
      are inserted in order. */
  method Select(store: Store, f: Filter, order: Order) returns (r: seq<Entry>)
    ensures IsListing(store, f, order, r)
  {
    r := [];
    var unseen := store.Keys;
    while unseen != {}
      invariant unseen <= store.Keys
      invariant RowsFromTable(store, f, r)
      invariant forall i :: 0 <= i < |r| ==> r[i].id !in unseen
      invariant forall id :: id in store && id !in unseen && Keeps(f, store[id]) ==> Lists(r, id)
      invariant NoRepeatedIds(r)
      invariant Sorted(r, order)
      decreases unseen
    {
      NonEmptyHasMember(unseen);
      var id :| id in unseen;
      if Keeps(f, store[id]) {
        InsertStep(store, f, order, r, unseen, id);
        r := Insert(r, Entry(id, store[id]), order);
      }
      unseen := unseen - {id};
    }
  }

  /** A lecturer's own listing holds only claims filed under that name. */
  lemma OwnListingIsOwn(store: Store, fullName: string, order: Order, r: seq<Entry>)
    requires IsListing(store, OwnedBy(fullName), order, r)
    ensures forall i :: 0 <= i < |r| ==> r[i].claim.lecturerName == fullName
  {
  }

  /** The coordinator's queue holds only Pending claims, and with a blank search
      term it holds every one of them. */
  lemma CoordinatorQueueIsPending(store: Store, nameTerm: Option<string>, order: Order, r: seq<Entry>)
    requires IsListing(store, AwaitingCoordinator(nameTerm), order, r)
    ensures forall i :: 0 <= i < |r| ==> r[i].claim.status == Pending
    ensures IsNullOrWhiteSpace(nameTerm) ==>
              forall id :: id in store && store[id].status == Pending ==> Lists(r, id)
  {
  }

  /** The manager's queue holds only Coordinator Approved claims, and with a blank
      search term it holds every one of them. */
  lemma ManagerQueueIsCoordinatorApproved(store: Store, nameTerm: Option<string>, order: Order, r: seq<Entry>)
    requires IsListing(store, AwaitingManager(nameTerm), order, r)
    ensures forall i :: 0 <= i < |r| ==> r[i].claim.status == CoordinatorApproved
    ensures IsNullOrWhiteSpace(nameTerm) ==>
              forall id :: id in store && store[id].status == CoordinatorApproved ==> Lists(r, id)
  {
  }
}
