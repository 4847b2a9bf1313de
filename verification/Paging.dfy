/** What the paged endpoints share (apps/api/service.ts: page, queryBrowse): legal page sizes,
    JavaScript's slice, and the answers of the browse index. */
module Paging {

  predicate LegalLimit(limit: int) {
    1 <= limit <= 50
  }

  /** slice(o, o + n). */
  function Slice<T>(s: seq<T>, o: nat, n: nat): seq<T> {
    var a := if o <= |s| then o else |s|;
    var b := if o + n <= |s| then o + n else |s|;
    s[a..b]
  }

  datatype BrowsePage<T> = BrowsePage(items: seq<T>, total: nat)

  /** Every answer of the index is a stretch of the list at the requested offset; it may be
      shorter than asked for. */
  ghost predicate Honest<T>(browse: nat -> BrowsePage<T>, all: seq<T>) {
    forall o: nat :: o <= |all| ==>
      var p := browse(o);
      && p.total == |all| && |p.items| <= 1000
      && o + |p.items| <= |all| && p.items == all[o..o + |p.items|]
  }

  /** The index answers nothing somewhere before the end. */
  ghost predicate StopsShort<T>(browse: nat -> BrowsePage<T>, all: seq<T>) {
    exists o: nat :: o < |all| && browse(o).items == []
  }
}
