/**
 * The customer store and the controller's handlers that read and write it:
 * create (`postCustomer`), edit (`editPost`), delete (`deleteCustomer`), the
 * paged home listing (`homepage`) and search (`searchCustomers`). The
 * document database behind them is modelled as a sequence of records in
 * insertion order; a lookup by email returns the first record in that order.
 */
module Customers {
  import opened Options
  import opened Validation
  import opened Paging
  import opened Search

  /** A stored customer: a store-assigned id, the four editable fields and two timestamps. */
  datatype Customer = Customer(
    id: nat,
    firstName: string,
    lastName: string,
    telephone: string,
    email: string,
    createdAt: nat,
    updatedAt: nat)

  /** The four fields a create or edit form submits. */
  datatype Payload = Payload(firstName: string, lastName: string, telephone: string, email: string)

  /** What a write handler answers: accepted, redirected with a reason, or 400 "All fields are required". */
  datatype Outcome = Accept | Reject(reason: Reason) | BadRequest

  /** What the home page renders: one page of the listing with the page count, or nothing when the store refuses a negative skip. */
  datatype HomeView = Index(customers: seq<Customer>, current: nat, pages: nat) | Failed

  ghost predicate IdsUnique(rs: seq<Customer>)
  {
    forall i, j :: 0 <= i < j < |rs| ==> rs[i].id != rs[j].id
  }

  /** No two records share an email: the intent of the uniqueness checks, not something the store enforces. */
  ghost predicate EmailsUnique(rs: seq<Customer>)
  {
    forall i, j :: 0 <= i < j < |rs| ==> rs[i].email != rs[j].email
  }

  predicate EmailTaken(rs: seq<Customer>, email: string)
  {
    exists i :: 0 <= i < |rs| && rs[i].email == email
  }

  /** `Customer.findOne({ email })`: the first record, in store order, with exactly this email. */
  function FindByEmail(rs: seq<Customer>, email: string): (found: Option<Customer>)
    ensures found.None? <==> !EmailTaken(rs, email)
    ensures found.Some? ==>
      exists i :: 0 <= i < |rs| && rs[i] == found.value && rs[i].email == email &&
        forall j :: 0 <= j < i ==> rs[j].email != email
  {
    if rs == [] then None
    else if rs[0].email == email then Some(rs[0])
    else
      var found := FindByEmail(rs[1..], email);
      assert forall i :: 1 <= i < |rs| ==> rs[i] == rs[1..][i - 1];
      found
  }

  /** The edit handler's conflict rule: the record found by email blocks the edit only if it is another record. */
  predicate BlocksEdit(found: Option<Customer>, target: nat)
  {
    found.Some? && found.value.id != target
  }

  /** Every stored email ends with `@gmail.com`: both writers check the suffix before writing. */
  ghost predicate EmailsSuffixed(rs: seq<Customer>)
  {
    forall i :: 0 <= i < |rs| ==> HasGmailSuffix(rs[i].email)
  }

  /**
   * `findByIdAndUpdate(id, fields)` on one record: the four editable fields
   * and the update time take the submitted values; the id and the creation
   * time are kept.
   */
  function Edited(c: Customer, p: Payload, now: nat): (e: Customer)
    ensures e.id == c.id && e.createdAt == c.createdAt && e.updatedAt == now
    ensures Payload(e.firstName, e.lastName, e.telephone, e.email) == p
  {
    c.(firstName := p.firstName, lastName := p.lastName, telephone := p.telephone, email := p.email, updatedAt := now)
  }

  /** `findByIdAndUpdate` on the store: only records with this id change, and no id changes. */
  function ReplaceById(rs: seq<Customer>, id: nat, p: Payload, now: nat): (r: seq<Customer>)
    ensures |r| == |rs|
    ensures forall i :: 0 <= i < |rs| ==> r[i].id == rs[i].id
    ensures forall i :: 0 <= i < |rs| && rs[i].id != id ==> r[i] == rs[i]
    ensures forall i :: 0 <= i < |rs| && rs[i].id == id ==> r[i] == Edited(rs[i], p, now)
  {
    seq(|rs|, i requires 0 <= i < |rs| => if rs[i].id == id then Edited(rs[i], p, now) else rs[i])
  }

  /** The position of the first record with this id, or `|rs|` when there is none. */
  function IndexOfId(rs: seq<Customer>, id: nat): (k: nat)
    ensures k <= |rs|
    ensures k < |rs| ==> rs[k].id == id
    ensures forall j :: 0 <= j < k ==> rs[j].id != id
  {
    if rs == [] then 0
    else if rs[0].id == id then 0
    else
      var k := IndexOfId(rs[1..], id);
      assert forall j :: 1 <= j < |rs| ==> rs[j] == rs[1..][j - 1];
      k + 1
  }

  /** `deleteOne({ _id: id })`: the first record with this id is removed, if any. */
  function RemoveById(rs: seq<Customer>, id: nat): (r: seq<Customer>)
    ensures |r| == |rs| - (if IndexOfId(rs, id) < |rs| then 1 else 0)
    ensures forall c :: c in r ==> c in rs
  {
    var k := IndexOfId(rs, id);
    if k < |rs| then rs[..k] + rs[k + 1..] else rs
  }

  /** The records whose id is not `id`, in store order: a reference for delete-by-id. */
  function Without(rs: seq<Customer>, id: nat): seq<Customer>
  {
    if rs == [] then []
    else (if rs[0].id == id then [] else [rs[0]]) + Without(rs[1..], id)
  }

  /** The reference keeps exactly the records with another id. */
  lemma {:induction false} WithoutMembers(rs: seq<Customer>, id: nat)
    ensures forall c :: c in Without(rs, id) <==> c in rs && c.id != id
  {
    if rs != [] {
      WithoutMembers(rs[1..], id);
      assert rs == [rs[0]] + rs[1..];
    }
  }

  /** Filtering out an id no record has changes nothing. */
  lemma {:induction false} WithoutAbsent(rs: seq<Customer>, id: nat)
    requires forall i :: 0 <= i < |rs| ==> rs[i].id != id
    ensures Without(rs, id) == rs
  {
    if rs != [] {
      WithoutAbsent(rs[1..], id);
      assert rs == [rs[0]] + rs[1..];
    }
  }

  /** Removing by an id the first record does not have keeps that record in front. */
  lemma RemoveByIdCons(rs: seq<Customer>, id: nat)
    requires rs != [] && rs[0].id != id
    ensures RemoveById(rs, id) == [rs[0]] + RemoveById(rs[1..], id)
  {
    var tail := rs[1..];
    var k := IndexOfId(tail, id);
    assert IndexOfId(rs, id) == k + 1;
    if k < |tail| {
      assert rs[..k + 1] == [rs[0]] + tail[..k];
      assert rs[k + 2..] == tail[k + 1..];
    } else {
      assert rs == [rs[0]] + tail;
    }
  }

  /** With unique ids, removing the first record with an id is filtering that id out: the others stay, in order. */
  lemma {:induction false} RemoveByIdIsWithout(rs: seq<Customer>, id: nat)
    requires IdsUnique(rs)
    ensures RemoveById(rs, id) == Without(rs, id)
  {
    if rs == [] {
    } else {
      var tail := rs[1..];
      assert forall i :: 0 <= i < |tail| ==> tail[i] == rs[i + 1];
      if rs[0].id == id {
        assert RemoveById(rs, id) == tail;
        WithoutAbsent(tail, id);
      } else {
        RemoveByIdIsWithout(tail, id);
        RemoveByIdCons(rs, id);
      }
    }
  }

  /** `find({ $or: [{ firstName: term/i }, { lastName: term/i }] })`. */
  predicate MatchesSearch(c: Customer, term: string)
  {
    ContainsIgnoringCase(c.firstName, term) || ContainsIgnoringCase(c.lastName, term)
  }

  function MatchingRecords(rs: seq<Customer>, term: string): (found: seq<Customer>)
    ensures |found| <= |rs|
    ensures forall c :: c in found <==> c in rs && MatchesSearch(c, term)
  {
    if rs == [] then []
    else
      var rest := MatchingRecords(rs[1..], term);
      assert forall c :: c in rs <==> c == rs[0] || c in rs[1..];
      (if MatchesSearch(rs[0], term) then [rs[0]] else []) + rest
  }

  /** Search results keep store order: searching a concatenation concatenates the results. */
  lemma {:induction false} MatchingRecordsAppend(a: seq<Customer>, b: seq<Customer>, term: string)
    ensures MatchingRecords(a + b, term) == MatchingRecords(a, term) + MatchingRecords(b, term)
  {
    if a == [] {
      assert a + b == b;
    } else {
      assert (a + b)[0] == a[0];
      assert (a + b)[1..] == a[1..] + b;
      MatchingRecordsAppend(a[1..], b, term);
    }
  }

  /** Listed newest first, by creation time, as the home page's `$sort: { createdAt: -1 }` orders it. */
  ghost predicate NewestFirst(listing: seq<Customer>)
  {
    forall i, j :: 0 <= i < j < |listing| ==> listing[i].createdAt >= listing[j].createdAt
  }

  /**
   * With unique emails, the edit is blocked exactly when some OTHER record
   * holds the submitted email.
   */
  lemma BlocksEditIffOtherHolder(rs: seq<Customer>, email: string, target: nat)
    requires EmailsUnique(rs)
    ensures BlocksEdit(FindByEmail(rs, email), target) <==>
      exists i :: 0 <= i < |rs| && rs[i].email == email && rs[i].id != target
  {
  }

  /** With unique emails, resubmitting a record's own email never conflicts. */
  lemma KeepingOwnEmailNeverBlocks(rs: seq<Customer>, k: nat)
    requires EmailsUnique(rs) && k < |rs|
    ensures !BlocksEdit(FindByEmail(rs, rs[k].email), rs[k].id)
  {
  }

  /** Appending a record whose email nobody holds keeps emails unique. */
  lemma InsertKeepsEmailsUnique(rs: seq<Customer>, c: Customer)
    requires EmailsUnique(rs) && !EmailTaken(rs, c.email)
    ensures EmailsUnique(rs + [c])
  {
  }

  /** An edit the conflict rule lets through keeps emails unique. */
  lemma EditKeepsEmailsUnique(rs: seq<Customer>, id: nat, p: Payload, now: nat)
    requires IdsUnique(rs) && EmailsUnique(rs)
    requires !BlocksEdit(FindByEmail(rs, p.email), id)
    ensures EmailsUnique(ReplaceById(rs, id, p, now))
  {
  }

  /** Removing one position keeps ids and emails unique. */
  lemma DropKeepsUnique(rs: seq<Customer>, k: nat)
    requires k < |rs|
    ensures IdsUnique(rs) ==> IdsUnique(rs[..k] + rs[k + 1..])
    ensures EmailsUnique(rs) ==> EmailsUnique(rs[..k] + rs[k + 1..])
  {
  }

  /** With unique ids, deleting by id removes exactly the records with that id and keeps all others, in order. */
  lemma RemoveByIdRemovesOnlyTarget(rs: seq<Customer>, id: nat)
    requires IdsUnique(rs)
    ensures forall c :: c in RemoveById(rs, id) <==> c in rs && c.id != id
    ensures |RemoveById(rs, id)| == |rs| - (if exists i :: 0 <= i < |rs| && rs[i].id == id then 1 else 0)
  {
  }

  /** Every page of a newest-first listing is newest first, and a record on an earlier page is no older than one on a later page. */
  lemma PagesNewestFirst(listing: seq<Customer>, p: nat, q: nat)
    requires NewestFirst(listing) && 1 <= p <= q
    ensures NewestFirst(PageOf(listing, p))
    ensures forall a, b :: 0 <= a < |PageOf(listing, p)| && 0 <= b < |PageOf(listing, q)| && (p < q || a < b) ==>
      PageOf(listing, p)[a].createdAt >= PageOf(listing, q)[b].createdAt
  {
  }

  /**
   * The customer collection. Ids are assigned by the store from a counter
   * and are never reused; the handlers below are the only writers.
   */
  class CustomerStore {
    var records: seq<Customer>
    var nextId: nat

    ghost predicate Valid()
      reads this
    {
      && IdsUnique(records)
      && (forall i :: 0 <= i < |records| ==> records[i].id < nextId)
      && EmailsSuffixed(records)
    }

    constructor ()
      ensures Valid() && records == [] && nextId == 0
    {
      records := [];
      nextId := 0;
    }

    /**
     * `postCustomer`: the first failing check wins. Email in use, then the
     * name pattern, then the suffix, then the all-fields test; only a
     * payload that passes all four is inserted, as one new record.
     */
    method PostCustomer(p: Payload, now: nat) returns (outcome: Outcome)
      requires Valid()
      modifies this
      ensures Valid()
      ensures EmailTaken(old(records), p.email) ==> outcome == Reject(EmailInUse)
      ensures !EmailTaken(old(records), p.email) && !(IsValidName(p.firstName) && IsValidName(p.lastName)) ==>
        outcome == Reject(InvalidName)
      ensures (!EmailTaken(old(records), p.email) && IsValidName(p.firstName) && IsValidName(p.lastName) &&
               !HasGmailSuffix(p.email)) ==> outcome == Reject(InvalidEmailDomain)
      ensures (!EmailTaken(old(records), p.email) && IsValidName(p.firstName) && IsValidName(p.lastName) &&
               HasGmailSuffix(p.email)) ==> outcome == (if p.telephone == "" then BadRequest else Accept)
      ensures outcome == Accept ==>
        records == old(records) + [Customer(old(nextId), p.firstName, p.lastName, p.telephone, p.email, now, now)] &&
        nextId == old(nextId) + 1
      ensures outcome != Accept ==> records == old(records) && nextId == old(nextId)
      ensures EmailsUnique(old(records)) ==> EmailsUnique(records)
      ensures EmailsSuffixed(records)
    {
      var existing := FindByEmail(records, p.email);
      if existing.Some? {
        return Reject(EmailInUse);
      }
      if !IsValidName(p.firstName) || !IsValidName(p.lastName) {
        return Reject(InvalidName);
      }
      if !HasGmailSuffix(p.email) {
        return Reject(InvalidEmailDomain);
      }
      if !AllFieldsPresent(p.firstName, p.lastName, p.telephone, p.email) {
        return BadRequest;
      }
      var c := Customer(nextId, p.firstName, p.lastName, p.telephone, p.email, now, now);
      if EmailsUnique(records) {
        InsertKeepsEmailsUnique(records, c);
      }
      records := records + [c];
      nextId := nextId + 1;
      outcome := Accept;
    }

    /**
     * `editPost`: the suffix check first, then the conflict rule (a record
     * found by email blocks only if its id is not the target's). On
     * acceptance the target's four fields are replaced, with no name or
     * telephone check; every other record is unchanged. An id that names
     * no record is accepted and changes nothing.
     */
    method EditPost(id: nat, p: Payload, now: nat) returns (outcome: Outcome)
      requires Valid()
      modifies this
      ensures Valid() && nextId == old(nextId)
      ensures !HasGmailSuffix(p.email) ==> outcome == Reject(InvalidEmailDomain)
      ensures HasGmailSuffix(p.email) && BlocksEdit(FindByEmail(old(records), p.email), id) ==>
        outcome == Reject(EmailInUse)
      ensures outcome == Accept <==> HasGmailSuffix(p.email) && !BlocksEdit(FindByEmail(old(records), p.email), id)
      ensures outcome != Accept ==> records == old(records)
      ensures outcome == Accept ==> |records| == |old(records)|
      ensures outcome == Accept ==> forall i :: 0 <= i < |records| ==>
        records[i] == if old(records)[i].id == id then Edited(old(records)[i], p, now) else old(records)[i]
      ensures EmailsUnique(old(records)) ==> EmailsUnique(records)
      ensures EmailsSuffixed(records)
    {
      if !HasGmailSuffix(p.email) {
        return Reject(InvalidEmailDomain);
      }
      var existing := FindByEmail(records, p.email);
      if BlocksEdit(existing, id) {
        return Reject(EmailInUse);
      }
      if EmailsUnique(records) {
        EditKeepsEmailsUnique(records, id, p, now);
      }
      records := ReplaceById(records, id, p, now);
      outcome := Accept;
    }

    /** `deleteCustomer`: the record with this id, if any, is removed; the others stay, in order. */
    method DeleteCustomer(id: nat)
      requires Valid()
      modifies this
      ensures Valid() && nextId == old(nextId)
      ensures records == Without(old(records), id)
      ensures forall c :: c in records <==> c in old(records) && c.id != id
      ensures |records| == |old(records)| - (if exists i :: 0 <= i < |old(records)| && old(records)[i].id == id then 1 else 0)
      ensures EmailsUnique(old(records)) ==> EmailsUnique(records)
      ensures EmailsSuffixed(records)
    {
      RemoveByIdRemovesOnlyTarget(records, id);
      RemoveByIdIsWithout(records, id);
      var k := IndexOfId(records, id);
      if k < |records| {
        DropKeepsUnique(records, k);
      }
      records := RemoveById(records, id);
    }

    /**
     * `homepage`: page `page` (default 1) of the listing the database returns
     * sorted newest first, with the page count over all records. Page 0 asks
     * the store for a negative skip, which it refuses; the handler then logs
     * and renders nothing.
     */
    method Homepage(query: Option<nat>, listing: seq<Customer>) returns (view: HomeView)
      requires multiset(listing) == multiset(records) && NewestFirst(listing)
      ensures query.None? ==> view.Index? && view.current == 1
      ensures RequestedPage(query) == 0 <==> view == Failed
      ensures view.Index? ==>
        && view.current == RequestedPage(query)
        && view.pages == PageCount(|records|)
        && view.customers == PageOf(listing, view.current)
        && |view.customers| <= PerPage
        && NewestFirst(view.customers)
        && forall c :: c in view.customers ==> c in records
    {
      var page := RequestedPage(query);
      if page == 0 {
        return Failed;
      }
      var shown := PageOf(listing, page);
      PagesNewestFirst(listing, page, page);
      forall c | c in shown
        ensures c in records
      {
        assert c in multiset(listing);
      }
      view := Index(shown, page, PageCount(|records|));
    }

    /**
     * `searchCustomers`: the term is cleaned to `[a-zA-Z0-9 ]` and the
     * records whose first or last name contains it, ignoring case, are
     * returned in store order.
     */
    method SearchCustomers(searchTerm: string) returns (found: seq<Customer>)
      ensures |found| <= |records|
      ensures forall c :: c in found <==> c in records && MatchesSearch(c, Sanitize(searchTerm))
      ensures found == MatchingRecords(records, Sanitize(searchTerm))
    {
      found := MatchingRecords(records, Sanitize(searchTerm));
    }
  }
}
