/**
 * The home page's pagination arithmetic: a fixed page size of 12, the page
 * number taken from the query with 1 as its default, the offset
 * `perPage * page - perPage`, the page slice, and the page count
 * `ceil(count / perPage)`.
 */
module Paging {
  import opened Options

  const PerPage: nat := 12

  /** `req.query.page || 1`: an absent page means page 1; a given `0` is truthy text and is kept. */
  function RequestedPage(query: Option<nat>): (page: nat)
    ensures query.None? ==> page == 1
    ensures page == 0 <==> query == Some(0)
  {
    match query
    case None => 1
    case Some(p) => p
  }

  /** The number of records skipped before page `page`: `perPage * page - perPage`, negative for page 0. */
  function Skip(page: nat): (offset: int)
    ensures page >= 1 ==> offset >= 0 && offset == PerPage * (page - 1)
    ensures page == 0 ==> offset < 0
  {
    PerPage * page - PerPage
  }

  /** `Math.ceil(count / perPage)`, in integer arithmetic. */
  function PageCount(count: nat): (pages: nat)
    ensures count == 0 ==> pages == 0
    ensures count > 0 ==> PerPage * (pages - 1) < count <= PerPage * pages
  {
    (count + PerPage - 1) / PerPage
  }

  function Min(a: int, b: int): int
  {
    if a <= b then a else b
  }

  /**
   * `.skip(perPage * page - perPage).limit(perPage)`: page `page` holds
   * exactly the records at positions `[12 (page - 1), 12 page)` of the
   * listing, so at most 12 of them.
   */
  function PageOf<T>(listing: seq<T>, page: nat): (shown: seq<T>)
    requires page >= 1
    ensures |shown| <= PerPage
    ensures forall i :: 0 <= i < |shown| ==> Skip(page) + i < |listing| && shown[i] == listing[Skip(page) + i]
    ensures forall n :: 0 <= n < |listing| && Skip(page) <= n < Skip(page) + PerPage ==>
              n - Skip(page) < |shown| && shown[n - Skip(page)] == listing[n]
  {
    var from := Min(Skip(page), |listing|);
    listing[from..Min(from + PerPage, |listing|)]
  }

  /** A page number past the page count shows nothing; every page up to it shows something. */
  lemma PageEmptyIffPastCount<T>(listing: seq<T>, page: nat)
    requires page >= 1
    ensures PageOf(listing, page) == [] <==> page > PageCount(|listing|)
  {
  }

  /**
   * A reference pagination: cut the listing into chunks of 12 from the
   * front, the last chunk holding what is left.
   */
  function Paginate<T>(listing: seq<T>): seq<seq<T>>
    decreases |listing|
  {
    if listing == [] then []
    else if |listing| <= PerPage then [listing]
    else [listing[..PerPage]] + Paginate(listing[PerPage..])
  }

  function Flatten<T>(pages: seq<seq<T>>): seq<T>
  {
    if pages == [] then [] else pages[0] + Flatten(pages[1..])
  }

  /** Putting the chunks back together gives the listing: every record is on some page, once, in order. */
  lemma {:induction false} PaginateCovers<T>(listing: seq<T>)
    ensures Flatten(Paginate(listing)) == listing
  {
    if listing == [] {
    } else if |listing| <= PerPage {
      assert Flatten(Paginate(listing)) == listing + Flatten([]);
    } else {
      var rest := listing[PerPage..];
      PaginateCovers(rest);
      assert Paginate(listing)[1..] == Paginate(rest);
      assert listing == listing[..PerPage] + rest;
    }
  }

  /** Page `page + 1` of a listing is page `page` of the listing without its first 12 records. */
  lemma PageOfDrop<T>(listing: seq<T>, page: nat)
    requires page >= 1 && |listing| > PerPage
    ensures PageOf(listing, page + 1) == PageOf(listing[PerPage..], page)
  {
  }

  /**
   * The handler's pages are the reference chunks: there are `PageCount`
   * of them and page `p` is chunk `p - 1`.
   */
  lemma {:induction false} PaginateAgrees<T>(listing: seq<T>)
    ensures |Paginate(listing)| == PageCount(|listing|)
    ensures forall p :: 1 <= p <= |Paginate(listing)| ==> Paginate(listing)[p - 1] == PageOf(listing, p)
  {
    if listing == [] {
    } else if |listing| <= PerPage {
      assert PageOf(listing, 1) == listing;
    } else {
      var rest := listing[PerPage..];
      PaginateAgrees(rest);
      assert PageCount(|listing|) == PageCount(|rest|) + 1;
      forall p | 1 <= p <= |Paginate(listing)|
        ensures Paginate(listing)[p - 1] == PageOf(listing, p)
      {
        if p == 1 {
          assert PageOf(listing, 1) == listing[..PerPage];
        } else {
          PageOfDrop(listing, p - 1);
        }
      }
    }
  }
}
