/**
 Listing a directory page by page (Readdir and readdir in file_reader.go). The namenode
 returns entries after a given name in batches of its own choosing; whatever a page does
 not use is thrown away and fetched again.
 */
module Readdir {
  import opened Common

  type Name = string

  /** The byte order in which the namenode sorts names. */
  predicate Less(a: Name, b: Name) {
    if a == [] then b != []
    else b != [] && (a[0] < b[0] || (a[0] == b[0] && Less(a[1..], b[1..])))
  }

  lemma {:induction false} LessIsAsymmetric(a: Name, b: Name)
    requires Less(a, b)
    ensures !Less(b, a)
    decreases |a|
  {
    if a != [] && a[0] == b[0] {
      LessIsAsymmetric(a[1..], b[1..]);
    }
  }

  predicate IsListing(l: seq<Name>) {
    && (forall i :: 0 <= i < |l| ==> l[i] != "")
    && (forall i, j :: 0 <= i < j < |l| ==> Less(l[i], l[j]))
  }

  /** The name after which position `pos` of the listing begins. */
  function LastBefore(l: seq<Name>, pos: nat): Name
    requires pos <= |l|
  {
    if pos == 0 then "" else l[pos - 1]
  }

  /** The entries after a listed name are those at later positions. */
  lemma PositionIsCut(l: seq<Name>, pos: nat, i: nat)
    requires IsListing(l) && pos <= |l| && i < |l|
    ensures Less(LastBefore(l, pos), l[i]) <==> pos <= i
  {
    if i < pos {
      if i == pos - 1 {
        if Less(l[i], l[i]) {
          LessIsAsymmetric(l[i], l[i]);
        }
      } else {
        LessIsAsymmetric(l[i], l[pos - 1]);
      }
    }
  }

  class DirReader {
    const listing: seq<Name>            // what the directory holds
    const isDir: bool
    var readdirLast: Name
    var closed: bool
    var position: nat                   // number of entries up to readdirLast
    var faults: nat                     // requests that the namenode failed

    ghost predicate Valid()
      reads this
    {
      IsListing(listing) && position <= |listing| && readdirLast == LastBefore(listing, position)
    }

    constructor (listing: seq<Name>, isDir: bool)
      requires IsListing(listing)
      ensures Valid() && position == 0 && !closed && this.listing == listing && this.isDir == isDir && faults == 0
    {
      this.listing, this.isDir, readdirLast, closed, position, faults := listing, isDir, "", false, 0, 0;
    }

    method Close()
      requires Valid()
      modifies this`closed
      ensures Valid() && closed
    {
      closed := true;
    }

    /** getListing: the namenode looks up the first entry after readdirLast and returns at
        least one entry from there, if there is one, and how many remain. */
    method GetListing() returns (batch: seq<Name>, remaining: nat, err: Error)
      requires Valid()
      modifies this`faults
      ensures Valid() && err in {Nil, Failed} && faults == old(faults) + if err == Failed then 1 else 0
      ensures err == Nil ==>
                && position + |batch| + remaining == |listing|
                && batch == listing[position..position + |batch|]
                && (position < |listing| ==> batch != [])
    {
      var ok: bool := *;
      if !ok {
        faults := faults + 1;
        return [], 0, Failed;
      }
      var k := 0;
      while k < |listing| && !Less(readdirLast, listing[k])
        invariant k <= position && faults == old(faults)
      {
        PositionIsCut(listing, position, k);
        k := k + 1;
      }
      if k < |listing| {
        PositionIsCut(listing, position, k);
      }
      var size: int := *;
      if size < 1 {
        size := 1;
      }
      var m := Min(size, |listing| - k);
      batch, remaining, err := listing[k..k + m], |listing| - k - m, Nil;
    }

    /** The loop of Readdir: fetches batches until there are n entries or no more. An error
        leaves the reader behind the batches that were fetched before it. */
    method Fetch(n: int) returns (res: seq<Name>, err: Error, batches: nat)
      requires Valid()
      modifies this`readdirLast, this`position, this`faults
      ensures Valid() && err in {Nil, Failed} && old(position) <= position
      ensures faults == old(faults) + if err == Failed then 1 else 0
      ensures err == Nil ==> res == listing[old(position)..position] && (position == |listing| || (n > 0 && |res| >= n))
      ensures err == Failed ==> res == [] && (position == old(position) <==> batches == 0)
      ensures err == Failed && batches > 0 ==> position < |listing| && (n > 0 ==> position < old(position) + n)
    {
      hide IsListing;
      res, batches := [], 0;
      while true
        invariant Valid() && old(position) <= position && res == listing[old(position)..position]
        invariant position == old(position) <==> batches == 0
        invariant faults == old(faults)
        invariant batches > 0 ==> position < |listing| && (n > 0 ==> |res| < n)
        decreases |listing| - position
      {
        var batch, remaining;
        batch, remaining, err := GetListing();
        if err != Nil {
          return [], Failed, batches;
        }
        if |batch| > 0 {
          readdirLast := batch[|batch| - 1];
        }
        SliceSplit(listing, old(position), position, position + |batch|);
        position := position + |batch|;
        res, batches := res + batch, batches + 1;
        if remaining == 0 || (n > 0 && |res| >= n) {
          return;
        }
      }
    }

    method Readdir(n: int) returns (res: seq<Name>, err: Error, batches: nat)
      requires Valid()
      modifies this`readdirLast, this`position, this`faults
      ensures Valid()
      ensures faults == old(faults) + if !closed && isDir && err == Failed then 1 else 0
      ensures closed ==> res == [] && err == ClosedPipe && position == old(position)
      ensures !closed && !isDir ==> res == [] && err == Failed && position == old(position)
      ensures !closed && isDir ==> IsPage(listing, old(position), n, Page(res, err, position, batches))
    {
      hide IsListing;
      if closed {
        return [], ClosedPipe, 0;
      } else if !isDir {
        return [], Failed, 0;
      }
      if n <= 0 {
        readdirLast, position := "", 0;
      }
      var start := position;
      res, err, batches := Fetch(n);
      if err != Nil {
        return;
      }
      if n > 0 {
        if |res| == 0 {
          return [], EOF, batches;
        }
        if |res| > n {
          SliceOfSlice(listing, start, position, 0, n);
          res := res[..n];
          readdirLast := res[|res| - 1];
          position := start + n;
        }
      }
    }
  }

  /** What a Readdir call returned, where it left the reader, and how many batches the namenode
      answered it with. */
  datatype Page = Page(entries: seq<Name>, err: Error, position: nat, batches: nat)

  /** A call at position `from`: with n > 0 the next at most n entries, or EOF if there are
      none; otherwise the whole listing, wherever the reader was. Only an error of the
      namenode can get in the way. */
  ghost predicate IsPage(listing: seq<Name>, from: nat, n: int, page: Page) {
    && page.err in {Nil, EOF, Failed} && page.position <= |listing|
    && (page.err != Nil ==> page.entries == [])
    && (page.err == Failed ==> IsLost(listing, if n <= 0 then 0 else from, n, page))
    && (page.err != Failed ==>
          if n <= 0 then page.entries == listing && page.err == Nil && page.position == |listing|
          else if from >= |listing| then page.entries == [] && page.err == EOF && page.position == from
          else page.position == Min(from + n, |listing|) && page.entries == listing[from..page.position] && page.err == Nil)
  }

  /** A failed call that began at `start` has moved the reader past the entries
      listing[start..page.position] without returning them. There are none exactly if it was
      the call's first request that failed, and never as many as were asked for. */
  predicate IsLost(listing: seq<Name>, start: nat, n: int, page: Page) {
    && start <= page.position
    && (page.position == start <==> page.batches == 0)
    && (page.batches > 0 ==> page.position < |listing| && (n > 0 ==> page.position < start + n))
  }

  function PositionBefore(pages: seq<Page>, i: nat): nat
    requires i <= |pages|
  {
    if i == 0 then 0 else pages[i - 1].position
  }

  /** The entries from one position to another, or none if the other is not behind it. */
  function Between(listing: seq<Name>, from: nat, to: nat): seq<Name> {
    if from <= to <= |listing| then listing[from..to] else []
  }

  /** Everything that pages of positive size returned, with what failed pages skipped put
      back in its place. */
  function Restored(listing: seq<Name>, pages: seq<Page>): seq<Name> {
    if pages == [] then []
    else
      var init, page := pages[..|pages| - 1], pages[|pages| - 1];
      Restored(listing, init)
      + if page.err == Failed then Between(listing, PositionBefore(pages, |init|), page.position) else page.entries
  }

  function Returned(pages: seq<Page>): seq<Name> {
    if pages == [] then [] else Returned(pages[..|pages| - 1]) + pages[|pages| - 1].entries
  }

  /** Paging equals slicing, over any sequence of page sizes. */
  method Session(listing: seq<Name>, sizes: seq<int>) returns (pages: seq<Page>, faults: nat)
    requires IsListing(listing)
    ensures |pages| == |sizes|
    ensures forall i :: 0 <= i < |pages| ==> IsPage(listing, PositionBefore(pages, i), sizes[i], pages[i])
    ensures faults == 0 <==> forall i :: 0 <= i < |pages| ==> pages[i].err != Failed
  {
    hide IsPage, IsListing;
    var d := new DirReader(listing, true);
    pages := [];
    while |pages| < |sizes|
      invariant |pages| <= |sizes| && fresh(d) && d.Valid() && !d.closed && d.isDir && d.listing == listing
      invariant d.position == PositionBefore(pages, |pages|)
      invariant forall i :: 0 <= i < |pages| ==> IsPage(listing, PositionBefore(pages, i), sizes[i], pages[i])
      invariant d.faults == 0 <==> forall i :: 0 <= i < |pages| ==> pages[i].err != Failed
    {
      var res, err, batches := d.Readdir(sizes[|pages|]);
      ghost var was := pages;
      pages := pages + [Page(res, err, d.position, batches)];
      assert forall i :: 0 <= i <= |was| ==> PositionBefore(pages, i) == PositionBefore(was, i);
      assert pages[|was|].err == err;
    }
    faults := d.faults;
  }

  ghost predicate IsSession(listing: seq<Name>, sizes: seq<int>, pages: seq<Page>) {
    && |pages| == |sizes|
    && forall i :: 0 <= i < |pages| ==> sizes[i] > 0 && IsPage(listing, PositionBefore(pages, i), sizes[i], pages[i])
  }

  /** The pages before the last one, and where the last one left from. */
  lemma SessionInit(listing: seq<Name>, sizes: seq<int>, pages: seq<Page>) returns (init: seq<Page>, from: nat)
    requires pages != [] && IsSession(listing, sizes, pages)
    ensures init == pages[..|pages| - 1] && IsSession(listing, sizes[..|sizes| - 1], init)
    ensures from == PositionBefore(init, |init|) == PositionBefore(pages, |init|)
    ensures sizes[|init|] > 0 && IsPage(listing, from, sizes[|init|], pages[|init|])
    ensures PositionBefore(pages, |pages|) == pages[|init|].position
    ensures |init| < |sizes| == |pages|
  {
    hide IsPage;
    init := pages[..|pages| - 1];
    from := PositionBefore(init, |init|);
    forall i | 0 <= i < |init|
      ensures IsPage(listing, PositionBefore(init, i), sizes[..|sizes| - 1][i], init[i])
    {
      assert PositionBefore(init, i) == PositionBefore(pages, i);
    }
  }

  lemma PageStep(listing: seq<Name>, from: nat, n: int, page: Page)
    requires n > 0 && from <= |listing| && IsPage(listing, from, n, page)
    ensures from <= page.position <= |listing|
    ensures page.err == Failed ==> page.entries == [] && (page.position == from <==> page.batches == 0)
    ensures page.err != Failed ==> page.entries == listing[from..page.position]
  {
  }

  lemma RestoredSnoc(listing: seq<Name>, pages: seq<Page>, init: seq<Page>, from: nat)
    requires pages != [] && init == pages[..|pages| - 1] && from == PositionBefore(pages, |init|)
    requires from <= pages[|init|].position <= |listing|
    requires pages[|init|].err != Failed ==> pages[|init|].entries == listing[from..pages[|init|].position]
    ensures Restored(listing, pages) == Restored(listing, init) + listing[from..pages[|init|].position]
  {
  }

  /** Over pages of positive size, what was returned and what failed pages skipped make up the
      listing up to where the reader stands. */
  lemma {:induction false} PagesAndGaps(listing: seq<Name>, sizes: seq<int>, pages: seq<Page>)
    requires IsSession(listing, sizes, pages)
    ensures PositionBefore(pages, |pages|) <= |listing|
    ensures Restored(listing, pages) == listing[..PositionBefore(pages, |pages|)]
    decreases |pages|
  {
    if pages != [] {
      hide *;
      var init, from := SessionInit(listing, sizes, pages);
      PagesAndGaps(listing, sizes[..|sizes| - 1], init);
      PageStep(listing, from, sizes[|init|], pages[|init|]);
      RestoredSnoc(listing, pages, init, from);
      SliceSplit(listing, 0, from, pages[|init|].position);
    }
  }

  /** No page failed after it had fetched a batch. */
  predicate FailsAtOnce(pages: seq<Page>) {
    forall i :: 0 <= i < |pages| && pages[i].err == Failed ==> pages[i].batches == 0
  }

  lemma FailsAtOnceSnoc(pages: seq<Page>)
    requires pages != []
    ensures var init, page := pages[..|pages| - 1], pages[|pages| - 1];
            FailsAtOnce(pages) <==> FailsAtOnce(init) && (page.err == Failed ==> page.batches == 0)
  {
    var init := pages[..|pages| - 1];
    if FailsAtOnce(pages) {
      assert forall i :: 0 <= i < |init| ==> init[i] == pages[i];
    } else if i :| 0 <= i < |pages| && pages[i].err == Failed && pages[i].batches != 0 {
      assert i < |init| ==> init[i] == pages[i];
    }
  }

  /** Appending a page: of a gap-free beginning only a gap-free page makes a longer one. */
  lemma AppendPage(listing: seq<Name>, returned: seq<Name>, from: nat, page: Page)
    requires |returned| <= from <= page.position <= |listing|
    requires page.err == Failed ==> page.entries == [] && (page.position == from <==> page.batches == 0)
    requires page.err != Failed ==> page.entries == listing[from..page.position]
    ensures |returned + page.entries| <= page.position
    ensures returned + page.entries == listing[..page.position]
            <==> returned == listing[..from] && (page.err == Failed ==> page.batches == 0)
  {
    SliceSplit(listing, 0, from, page.position);
    if returned + page.entries == listing[..page.position] {
      assert |returned| == from;
      assert returned == (returned + page.entries)[..from];
    }
  }

  lemma ReturnedSnoc(pages: seq<Page>, init: seq<Page>)
    requires pages != [] && init == pages[..|pages| - 1]
    ensures Returned(pages) == Returned(init) + pages[|init|].entries
  {
  }

  /** So pages of positive size return the listing in order, without a gap, exactly if whenever
      a page failed it was its first request that did. */
  lemma {:induction false} WhenNothingIsLost(listing: seq<Name>, sizes: seq<int>, pages: seq<Page>)
    requires IsSession(listing, sizes, pages)
    ensures |Returned(pages)| <= PositionBefore(pages, |pages|) <= |listing|
    ensures Returned(pages) == listing[..PositionBefore(pages, |pages|)] <==> FailsAtOnce(pages)
    decreases |pages|
  {
    if pages != [] {
      hide *;
      var init, from := SessionInit(listing, sizes, pages);
      WhenNothingIsLost(listing, sizes[..|sizes| - 1], init);
      PageStep(listing, from, sizes[|init|], pages[|init|]);
      ReturnedSnoc(pages, init);
      FailsAtOnceSnoc(pages);
      AppendPage(listing, Returned(init), from, pages[|init|]);
    }
  }

  /** Pages of one entry never skip any: a page that has got a batch is complete. */
  lemma SinglesLoseNothing(listing: seq<Name>, sizes: seq<int>, pages: seq<Page>)
    requires IsSession(listing, sizes, pages) && forall i :: 0 <= i < |sizes| ==> sizes[i] == 1
    ensures PositionBefore(pages, |pages|) <= |listing|
    ensures Returned(pages) == listing[..PositionBefore(pages, |pages|)]
  {
    forall i | 0 <= i < |pages| && pages[i].err == Failed
      ensures pages[i].batches == 0
    {
      assert IsPage(listing, PositionBefore(pages, i), sizes[i], pages[i]);
    }
    WhenNothingIsLost(listing, sizes, pages);
  }

  lemma NamesAreDistinct(listing: seq<Name>, i: nat, j: nat)
    requires IsListing(listing) && i < j < |listing|
    ensures listing[i] != listing[j]
  {
    LessIsAsymmetric(listing[i], listing[j]);
  }

  /** Larger ones can: the first page of a fresh reader gets a batch and then fails, and the
      next page begins behind what was fetched. `ok` says that this happened. */
  method FailedPageSkips(listing: seq<Name>, n: int, m: int) returns (ok: bool, skipped: nat, next: seq<Name>)
    requires IsListing(listing) && n >= 1 && m >= 1
    ensures ok ==> 0 < skipped < n && skipped < |listing|
    ensures ok ==> next == listing[skipped..Min(skipped + m, |listing|)]
    ensures ok ==> forall i :: 0 <= i < skipped ==> listing[i] !in next
  {
    hide IsListing;
    var d := new DirReader(listing, true);
    var res, err, batches := d.Readdir(n);
    ok, skipped, next := err == Failed && batches > 0, d.position, [];
    if ok {
      next, err, batches := d.Readdir(m);
      ok := err == Nil;
      forall i, j | 0 <= i < skipped <= j < |listing|
        ensures listing[i] != listing[j]
      {
        NamesAreDistinct(listing, i, j);
      }
    }
  }
}
