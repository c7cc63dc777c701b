/**
 The last lines of a file (`tailLines` in cmd/hdfs/cat.go): windows of 16 KiB are searched
 for newlines from the end of the file backwards.
 */
module TailLines {
  import opened Common

  const SEARCH_SIZE := 16384
  const NEWLINE: uint8 := 10

  /** A newline that ends a line before the last one. */
  predicate IsBreak(file: Bytes, i: nat)
    requires i < |file|
  {
    file[i] == NEWLINE && i + 1 != |file|
  }

  /** The positions of line breaks from lo up to hi. */
  function Breaks(file: Bytes, lo: nat, hi: nat): (ps: seq<nat>)
    requires lo <= hi <= |file|
    ensures forall i :: 0 <= i < |ps| ==> lo <= ps[i] < hi
    decreases hi
  {
    if lo == hi then []
    else
      var init := Breaks(file, lo, hi - 1);
      if IsBreak(file, hi - 1) then init + [hi - 1] else init
  }

  lemma {:induction false} BreaksSplit(file: Bytes, lo: nat, mid: nat, hi: nat)
    requires lo <= mid <= hi <= |file|
    ensures Breaks(file, lo, hi) == Breaks(file, lo, mid) + Breaks(file, mid, hi)
    decreases hi
  {
    if mid < hi {
      BreaksSplit(file, lo, mid, hi - 1);
    }
  }

  /** Where the last n lines begin, given the line breaks of a stretch that reaches to the end
      of the file; zero if there are too few. */
  function LinesFrom(breaks: seq<nat>, n: nat): nat
    requires n >= 1
  {
    if |breaks| >= n then breaks[|breaks| - n] + 1 else 0
  }

  /** What `tail -n` means. */
  function TailOffset(file: Bytes, n: nat): nat
    requires n >= 1
  {
    LinesFrom(Breaks(file, 0, |file|), n)
  }

  /** Lines as a reader counts them: one for each newline, and one for text behind the last. */
  function Lines(text: Bytes): nat {
    Newlines(text) + if text != [] && text[|text| - 1] != NEWLINE then 1 else 0
  }

  function Newlines(text: Bytes): nat {
    if text == [] then 0
    else Newlines(text[..|text| - 1]) + if text[|text| - 1] == NEWLINE then 1 else 0
  }

  lemma {:induction false} BreaksAreNewlines(file: Bytes, lo: nat, hi: nat)
    requires lo <= hi <= |file|
    ensures |Breaks(file, lo, hi)| + (if lo < hi == |file| && file[hi - 1] == NEWLINE then 1 else 0)
            == Newlines(file[lo..hi])
    decreases hi
  {
    if lo < hi {
      BreaksAreNewlines(file, lo, hi - 1);
      assert file[lo..hi][..hi - lo - 1] == file[lo..hi - 1];
    }
  }

  /** A newline that ends the file breaks no line, so there is one break fewer than lines. */
  lemma BreaksAreLines(file: Bytes, lo: nat)
    requires lo < |file|
    ensures Lines(file[lo..]) == |Breaks(file, lo, |file|)| + 1
  {
    BreaksAreNewlines(file, lo, |file|);
    assert file[lo..] == file[lo..|file|];
  }

  lemma {:induction false} BreakAt(file: Bytes, hi: nat, j: nat)
    requires hi <= |file| && j < |Breaks(file, 0, hi)|
    ensures var b := Breaks(file, 0, hi)[j]; IsBreak(file, b) && |Breaks(file, 0, b + 1)| == j + 1
    decreases hi
  {
    if j < |Breaks(file, 0, hi - 1)| {
      BreakAt(file, hi - 1, j);
    }
  }

  /** The offset really is where the last n lines begin: behind a newline, with n lines from
      there on; and it is zero exactly if there are no more than n lines. */
  lemma TailIsLastLines(file: Bytes, n: nat)
    requires n >= 1
    ensures var off := TailOffset(file, n);
            && off <= |file| && (off == 0 <==> Lines(file) <= n)
            && (off > 0 ==> file[off - 1] == NEWLINE && Lines(file[off..]) == n)
  {
    var breaks := Breaks(file, 0, |file|);
    if file != [] {
      BreaksAreLines(file, 0);
      assert file[0..] == file;
    }
    if |breaks| >= n {
      var j := |breaks| - n;
      BreakAt(file, |file|, j);
      var off := breaks[j] + 1;
      BreaksSplit(file, 0, off, |file|);
      BreaksAreLines(file, off);
    }
  }

  /** The part of the file in front of this position is never searched. */
  function Unsearched(size: nat): (low: nat)
    ensures low <= size
    ensures size <= SEARCH_SIZE || size % SEARCH_SIZE == 0 ==> low == 0
  {
    if size <= SEARCH_SIZE then 0 else size % SEARCH_SIZE
  }

  /** Searches one window for line breaks. */
  method SearchWindow(file: Bytes, searchPoint: nat, readSize: nat) returns (newlines: seq<nat>)
    requires searchPoint + readSize <= |file|
    ensures newlines == Breaks(file, searchPoint, searchPoint + readSize)
  {
    var off := searchPoint;
    newlines := [];
    while off < searchPoint + readSize
      invariant searchPoint <= off <= searchPoint + readSize
      invariant newlines == Breaks(file, searchPoint, off)
    {
      if file[off] == NEWLINE && off + 1 != |file| {
        newlines := newlines + [off];
      }
      off := off + 1;
    }
  }

  lemma PickFromMiddle(a: seq<nat>, b: seq<nat>, c: seq<nat>, n: nat)
    requires |c| < n <= |b| + |c|
    ensures LinesFrom(a + (b + c), n) == b[|b| - (n - |c|)] + 1
  {
  }

  /** `windows` whole windows have been searched; everything from `searched` on is behind us. */
  predicate Progress(size: nat, windows: nat, searched: nat, searchPoint: int) {
    if windows == 0 then searched == size && searchPoint == (if size < SEARCH_SIZE then 0 else size - SEARCH_SIZE)
    else if size <= SEARCH_SIZE then searched == 0 && searchPoint == -SEARCH_SIZE
    else searched == size - windows * SEARCH_SIZE >= 0 && searchPoint == searched - SEARCH_SIZE
  }

  lemma ProgressEnds(size: nat, windows: nat, searched: nat, searchPoint: int)
    requires Progress(size, windows, searched, searchPoint)
    ensures searchPoint < 0 ==> searched == Unsearched(size)
    ensures searchPoint >= 0 ==> Unsearched(size) <= searchPoint && searched == searchPoint + Min(SEARCH_SIZE, size)
    ensures searchPoint >= 0 ==> Progress(size, windows + 1, searchPoint, searchPoint - SEARCH_SIZE)
  {
  }

  /** The line looked for starts behind a break of the window from `point` to `searched`. */
  lemma FoundInWindow(file: Bytes, low: nat, point: nat, searched: nat, n: nat)
    requires low <= point <= searched <= |file|
    requires |Breaks(file, searched, |file|)| < n <= |Breaks(file, point, searched)| + |Breaks(file, searched, |file|)|
    ensures LinesFrom(Breaks(file, low, |file|), n)
            == var b := Breaks(file, point, searched);
               b[|b| - (n - |Breaks(file, searched, |file|)|)] + 1
  {
    hide Breaks, LinesFrom;
    BreaksSplit(file, low, point, |file|);
    BreaksSplit(file, point, searched, |file|);
    PickFromMiddle(Breaks(file, low, point), Breaks(file, point, searched), Breaks(file, searched, |file|), n);
  }

  /** Without a line to look for, the first window makes the source index past its list of
      line breaks. */
  method TailLines(file: Bytes, numLines: int) returns (printOffset: nat, err: Error)
    ensures err == if numLines >= 1 then Nil else Panic
    ensures numLines >= 1 ==> printOffset == LinesFrom(Breaks(file, Unsearched(|file|), |file|), numLines)
  {
    var fileSize := |file|;
    var searchPoint := fileSize - SEARCH_SIZE;
    if searchPoint < 0 {
      searchPoint := 0;
    }
    var readSize := SEARCH_SIZE;
    if readSize > fileSize {
      readSize := fileSize;
    }
    var wanted := numLines;
    printOffset, err := 0, Nil;
    ghost var windows: nat, searched: nat := 0, fileSize;
    assert Breaks(file, fileSize, fileSize) == [];
    assert Progress(fileSize, windows, searched, searchPoint);
    hide Breaks, Progress, Unsearched, LinesFrom;
    while searchPoint >= 0
      invariant searched <= fileSize && Progress(fileSize, windows, searched, searchPoint)
      invariant wanted == numLines - |Breaks(file, searched, fileSize)|
      invariant wanted >= 1 || (numLines < 1 && windows == 0)
      decreases searchPoint + SEARCH_SIZE
    {
      ProgressEnds(fileSize, windows, searched, searchPoint);
      var newlines := SearchWindow(file, searchPoint, readSize);
      var found := |newlines|;
      if found >= wanted {
        if found - wanted >= found {
          err := Panic;
          return;
        }
        printOffset := newlines[found - wanted] + 1;
        FoundInWindow(file, Unsearched(fileSize), searchPoint, searched, numLines);
        return;
      }
      BreaksSplit(file, searchPoint, searched, fileSize);
      wanted := wanted - found;
      windows, searched := windows + 1, searchPoint;
      searchPoint := searchPoint - SEARCH_SIZE;
    }
    ProgressEnds(fileSize, windows, searched, searchPoint);
    TooFewLines(Breaks(file, searched, fileSize), numLines);
  }

  lemma TooFewLines(breaks: seq<nat>, n: nat)
    requires |breaks| < n
    ensures LinesFrom(breaks, n) == 0
  {
  }

  /** The search is exact if and only if it does not miss what it looks for: either enough
      line breaks lie behind the unsearched part, or the file has too few altogether. */
  lemma SearchIsExact(file: Bytes, n: nat)
    requires n >= 1
    ensures var found := Breaks(file, Unsearched(|file|), |file|);
            LinesFrom(found, n) == TailOffset(file, n)
            <==> |found| >= n || |Breaks(file, 0, |file|)| < n
  {
    hide Breaks, Unsearched;
    BreaksSplit(file, 0, Unsearched(|file|), |file|);
  }

  /** A non-zero offset is always right, and a file of at most one window or a whole number of
      windows is searched completely. */
  lemma WhenSearchIsExact(file: Bytes, n: nat)
    requires n >= 1
    ensures var off := LinesFrom(Breaks(file, Unsearched(|file|), |file|), n);
            off != 0 || |file| <= SEARCH_SIZE || |file| % SEARCH_SIZE == 0 ==> off == TailOffset(file, n)
  {
    hide Breaks, Unsearched, LinesFrom;
    NonZeroIsExact(file, Unsearched(|file|), n);
  }

  lemma NonZeroIsExact(file: Bytes, low: nat, n: nat)
    requires n >= 1 && low <= |file|
    ensures var off := LinesFrom(Breaks(file, low, |file|), n); off != 0 || low == 0 ==> off == TailOffset(file, n)
  {
    hide Breaks;
    BreaksSplit(file, 0, low, |file|);
  }

  /** The search finds where the last n lines of this file begin. */
  predicate IsExact(file: Bytes, n: nat)
    requires n >= 1
  {
    LinesFrom(Breaks(file, Unsearched(|file|), |file|), n) == TailOffset(file, n)
  }

  /** Otherwise a line break in front of the first window can be missed. */
  lemma SearchMisses(size: nat) returns (file: Bytes)
    requires SEARCH_SIZE < size && size % SEARCH_SIZE != 0
    ensures |file| == size && !IsExact(file, 1)
    ensures LinesFrom(Breaks(file, Unsearched(|file|), |file|), 1) == 0 < TailOffset(file, 1)
  {
    file := [NEWLINE] + seq(size - 1, _ => 0);
    var low := Unsearched(size);
    NoBreaks(file, low, size);
    NoBreaks(file, 1, size);
    BreaksSplit(file, 0, 1, size);
    assert Breaks(file, 0, 1) == Breaks(file, 0, 0) + [0];
  }

  /** So the size of a file decides whether the search can be trusted with it. */
  lemma SizeDecides(size: nat)
    ensures (forall file: Bytes, n: nat :: |file| == size && n >= 1 ==> IsExact(file, n))
            <==> size <= SEARCH_SIZE || size % SEARCH_SIZE == 0
  {
    hide IsExact;
    if size <= SEARCH_SIZE || size % SEARCH_SIZE == 0 {
      forall file: Bytes, n: nat | |file| == size && n >= 1
        ensures IsExact(file, n)
      {
        SearchedInFull(file, n);
      }
    } else {
      var file := SearchMisses(size);
    }
  }

  lemma SearchedInFull(file: Bytes, n: nat)
    requires n >= 1 && (|file| <= SEARCH_SIZE || |file| % SEARCH_SIZE == 0)
    ensures IsExact(file, n)
  {
    WhenSearchIsExact(file, n);
  }

  lemma {:induction false} NoBreaks(file: Bytes, lo: nat, hi: nat)
    requires lo <= hi <= |file| && forall i :: lo <= i < hi ==> file[i] != NEWLINE
    ensures Breaks(file, lo, hi) == []
    decreases hi
  {
    if lo < hi {
      NoBreaks(file, lo, hi - 1);
    }
  }
}
