/** A loop over pages that stops once it has counted enough, or once a page says so. */
module BoundedLoop {
  /** What one page does to the state, how many it counts, and whether another may follow. */
  datatype Loop<!S, !T> = Loop(step: (S, T) -> S, counts: (S, T) -> nat, goesOn: T -> bool, bound: nat)

  /** The state after the first `k` pages, and how many those counted. */
  function After<S, T>(loop: Loop<S, T>, s: S, pages: seq<T>, k: nat): S
    requires k <= |pages|
    decreases k
  {
    if k == 0 then s else loop.step(After(loop, s, pages, k - 1), pages[k - 1])
  }

  function Total<S, T>(loop: Loop<S, T>, s: S, pages: seq<T>, k: nat): nat
    requires k <= |pages|
    decreases k
  {
    if k == 0 then 0
    else Total(loop, s, pages, k - 1) + loop.counts(After(loop, s, pages, k - 1), pages[k - 1])
  }

  /** How many pages are read in all, when `k` have been read and the loop goes round again. */
  function PagesRead<S, T>(loop: Loop<S, T>, s: S, pages: seq<T>, k: nat): (n: nat)
    requires k <= |pages|
    ensures k <= n <= |pages|
    decreases |pages| - k
  {
    if Total(loop, s, pages, k) >= loop.bound || k == |pages| then k
    else if !loop.goesOn(pages[k]) then k + 1
    else PagesRead(loop, s, pages, k + 1)
  }

  /** The first `k` pages let the loop go on. */
  ghost predicate AllGoOn<S, T>(loop: Loop<S, T>, pages: seq<T>, k: nat) {
    k <= |pages| && forall j | 0 <= j < k :: loop.goesOn(pages[j])
  }

  lemma {:induction false} TotalGrows<S, T>(loop: Loop<S, T>, s: S, pages: seq<T>, j: nat, k: nat)
    requires j <= k <= |pages|
    ensures Total(loop, s, pages, j) <= Total(loop, s, pages, k)
    decreases k
  {
    if j == k {
    } else {
      TotalGrows(loop, s, pages, j, k - 1);
    }
  }

  lemma {:induction false} PageReadFrom<S, T>(loop: Loop<S, T>, s: S, pages: seq<T>, from: nat, k: nat)
    requires from <= |pages| && from <= k
    ensures k < PagesRead(loop, s, pages, from)
        <==> && k < |pages| && (forall j | from <= j < k :: loop.goesOn(pages[j]))
             && Total(loop, s, pages, k) < loop.bound
    decreases |pages| - from
  {
    if k < |pages| { TotalGrows(loop, s, pages, from, k); }
    if from == |pages| || from == k || Total(loop, s, pages, from) >= loop.bound || !loop.goesOn(pages[from]) {
    } else {
      PageReadFrom(loop, s, pages, from + 1, k);
    }
  }

  /** Page `k` is read exactly when every earlier page let the loop go on, and less than the
      bound has been counted by then. */
  lemma PageReadExactly<S, T>(loop: Loop<S, T>, s: S, pages: seq<T>, k: nat)
    ensures k < PagesRead(loop, s, pages, 0)
        <==> k < |pages| && AllGoOn(loop, pages, k) && Total(loop, s, pages, k) < loop.bound
  {
    PageReadFrom(loop, s, pages, 0, k);
  }

  /** What is counted stays below the bound and one page, and reaches one below that exactly
      when the last page read was counted to the full from one below the bound. */
  lemma TotalBound<S, T>(loop: Loop<S, T>, s: S, pages: seq<T>, most: nat)
    requires loop.bound > 0 && most > 0
    requires forall k | 0 <= k < |pages| :: loop.counts(After(loop, s, pages, k), pages[k]) <= most
    ensures var n := PagesRead(loop, s, pages, 0);
            && Total(loop, s, pages, n) < loop.bound + most
            && (Total(loop, s, pages, n) == loop.bound + most - 1 <==>
                  && n > 0 && Total(loop, s, pages, n - 1) == loop.bound - 1
                  && loop.counts(After(loop, s, pages, n - 1), pages[n - 1]) == most)
  {
    var n := PagesRead(loop, s, pages, 0);
    if n > 0 {
      PageReadExactly(loop, s, pages, n - 1);
    }
  }

  /** Every page is read exactly when all but the last let the loop go on, with less than the
      bound counted. */
  lemma EveryPageReadExactly<S, T>(loop: Loop<S, T>, s: S, pages: seq<T>)
    requires pages != []
    ensures PagesRead(loop, s, pages, 0) == |pages|
        <==> AllGoOn(loop, pages, |pages| - 1) && Total(loop, s, pages, |pages| - 1) < loop.bound
  {
    PageReadExactly(loop, s, pages, |pages| - 1);
  }

  lemma {:induction false} NothingTotal<S, T>(loop: Loop<S, T>, s: S, pages: seq<T>, k: nat)
    requires k <= |pages|
    requires forall i | 0 <= i < |pages| :: loop.counts(After(loop, s, pages, i), pages[i]) == 0
    ensures Total(loop, s, pages, k) == 0
  {
    if k == 0 {
    } else {
      NothingTotal(loop, s, pages, k - 1);
    }
  }

  /** Pages that let the loop go on and count nothing are all read, however many there are. */
  lemma NothingCountedReadsAll<S, T>(loop: Loop<S, T>, s: S, pages: seq<T>)
    requires loop.bound > 0 && AllGoOn(loop, pages, |pages|)
    requires forall i | 0 <= i < |pages| :: loop.counts(After(loop, s, pages, i), pages[i]) == 0
    ensures PagesRead(loop, s, pages, 0) == |pages| && Total(loop, s, pages, |pages|) == 0
  {
    NothingTotal(loop, s, pages, |pages|);
    if pages != [] {
      NothingTotal(loop, s, pages, |pages| - 1);
      EveryPageReadExactly(loop, s, pages);
    }
  }

  // ----- Sums over the pages -----

  /** What a measure of single pages adds up to over the first `k`. */
  function Sum<S, T>(loop: Loop<S, T>, s: S, pages: seq<T>, k: nat, measure: (S, T) -> int): int
    requires k <= |pages|
    decreases k
  {
    if k == 0 then 0
    else Sum(loop, s, pages, k - 1, measure) + measure(After(loop, s, pages, k - 1), pages[k - 1])
  }

  ghost predicate Adds<S, T>(
    loop: Loop<S, T>, s: S, pages: seq<T>, i: nat, measure: (S, T) -> int, size: S -> int)
    requires i < |pages|
  {
    var before := After(loop, s, pages, i);
    size(loop.step(before, pages[i])) == size(before) + measure(before, pages[i])
  }

  /** What a page adds to a size of the state, all pages together add. */
  lemma {:induction false} SumTracks<S, T>(
    loop: Loop<S, T>, s: S, pages: seq<T>, k: nat, measure: (S, T) -> int, size: S -> int)
    requires k <= |pages| && forall i | 0 <= i < |pages| :: Adds(loop, s, pages, i, measure, size)
    ensures size(After(loop, s, pages, k)) == size(s) + Sum(loop, s, pages, k, measure)
  {
    if k == 0 {
    } else {
      SumTracks(loop, s, pages, k - 1, measure, size);
      assert Adds(loop, s, pages, k - 1, measure, size);
    }
  }

  /** A measure that is what is counted and three others on each page is so in all. */
  lemma {:induction false} SumSplits<S, T>(
    loop: Loop<S, T>, s: S, pages: seq<T>, k: nat,
    whole: (S, T) -> int, a: (S, T) -> int, b: (S, T) -> int, c: (S, T) -> int)
    requires k <= |pages|
    requires forall i | 0 <= i < |pages| ::
               var before := After(loop, s, pages, i);
               whole(before, pages[i])
               == loop.counts(before, pages[i]) + a(before, pages[i]) + b(before, pages[i]) + c(before, pages[i])
    ensures Sum(loop, s, pages, k, whole)
         == Total(loop, s, pages, k)
            + Sum(loop, s, pages, k, a) + Sum(loop, s, pages, k, b) + Sum(loop, s, pages, k, c)
  {
    if k == 0 {
    } else {
      SumSplits(loop, s, pages, k - 1, whole, a, b, c);
    }
  }

  lemma {:induction false} SumOfNothing<S, T>(
    loop: Loop<S, T>, s: S, pages: seq<T>, k: nat, measure: (S, T) -> int)
    requires k <= |pages| && forall before, page :: measure(before, page) == 0
    ensures Sum(loop, s, pages, k, measure) == 0
  {
    if k == 0 {
    } else {
      SumOfNothing(loop, s, pages, k - 1, measure);
    }
  }
}
