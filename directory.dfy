/**
 * A stand-in for the LDAP client (`Ldap::search`, `isPartialSearchResult`):
 * a page oracle. The server's answer to the current search is a fixed
 * sequence of pages; a fresh search hands out the first page, a continued
 * search the next one, and the result is partial while pages remain.
 */
module Directory {
  import opened Php

  /** The arguments of one `search` call. */
  datatype SearchRequest = SearchRequest(
    baseDn: string,
    filter: string,
    attributes: seq<string>,
    firstEntryOnly: bool,
    sizeLimit: int,
    continueLastSearch: bool)

  /** The array `search` returns: the entries under keys 0..n-1 plus a `count` element. */
  datatype SearchResult = SearchResult(count: nat, entries: seq<Record>)

  class Ldap {
    /** The server's pages for the current search. */
    var pages: seq<seq<Record>>
    /** How many pages have been handed out. */
    var cursor: nat
    ghost var requests: seq<SearchRequest>

    constructor (pages: seq<seq<Record>>)
      ensures this.pages == pages && cursor == 0 && requests == []
    {
      this.pages := pages;
      cursor := 0;
      requests := [];
    }

    function PageAt(k: nat): seq<Record>
      reads this
    {
      if k < |pages| then pages[k] else []
    }

    /** The page a search starts from: the first one, or the next one when continuing. */
    function StartOf(continueLastSearch: bool): nat
      reads this
    {
      if continueLastSearch then cursor else 0
    }

    method Search(request: SearchRequest) returns (result: SearchResult)
      modifies this
      ensures pages == old(pages)
      ensures result.entries == old(PageAt(StartOf(request.continueLastSearch)))
      ensures result.count == |result.entries|
      ensures var start := old(StartOf(request.continueLastSearch));
              cursor == if start < |pages| then start + 1 else start
      ensures requests == old(requests) + [request]
    {
      var start := StartOf(request.continueLastSearch);
      var page := PageAt(start);
      result := SearchResult(|page|, page);
      cursor := if start < |pages| then start + 1 else start;
      requests := requests + [request];
    }

    /** The last search left pages on the server. */
    predicate IsPartialSearchResult()
      reads this
    {
      cursor < |pages|
    }
  }
}
