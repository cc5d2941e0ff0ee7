/** The streaming delimiter search (`sbmh_feed`, `sbmh_reset`) modelled by its
    contract: a reference matcher whose carried state is the last bytes fed
    since the last reset, which is all an occurrence of the 13-byte delimiter
    that completes later can depend on. */
module StreamMatcher {
  import opened Util
  import opened Delimiter

  /** The part of the search context that persists between feeds. */
  datatype Matcher = Matcher(lookbehind: seq<byte>)

  /** The result of one feed: `n` bytes consumed, and whether a delimiter
      occurrence completed at the last of them. */
  datatype FeedResult = FeedResult(n: nat, found: bool, after: Matcher)

  /** `sbmh_reset`: forget any partial match. */
  function Reset(): (m: Matcher)
    ensures m.lookbehind == []
  {
    Matcher([])
  }

  /** An occurrence of the delimiter completes at byte `k - 1` of `chunk`,
      counting the partial match carried in `m`. */
  predicate CompletesAt(m: Matcher, chunk: seq<byte>, k: nat)
    requires k <= |chunk|
  {
    EndsWithDelim(m.lookbehind + chunk[..k])
  }

  /** Feeding from byte `k` on: stops at the first `j >= k` at which an
      occurrence completes, or at the end of the chunk. */
  function FeedFrom(m: Matcher, chunk: seq<byte>, k: nat): (f: FeedResult)
    requires 1 <= k <= |chunk|
    ensures k <= f.n <= |chunk|
    decreases |chunk| - k
  {
    if k == |chunk| || CompletesAt(m, chunk, k) then
      FeedResult(k, CompletesAt(m, chunk, k), Matcher(Tail(m.lookbehind + chunk[..k])))
    else FeedFrom(m, chunk, k + 1)
  }

  /** Where a feed from `k` stops, and what it reports there. */
  lemma {:induction false} FeedFromStops(m: Matcher, chunk: seq<byte>, k: nat)
    requires 1 <= k <= |chunk|
    ensures var f := FeedFrom(m, chunk, k);
      && (f.found <==> CompletesAt(m, chunk, f.n))
      && (!f.found ==> f.n == |chunk|)
      && f.after.lookbehind == Tail(m.lookbehind + chunk[..f.n])
    decreases |chunk| - k
  {
    if !(k == |chunk| || CompletesAt(m, chunk, k)) {
      FeedFromStops(m, chunk, k + 1);
    }
  }

  /** A feed from `k` passes no completed occurrence. */
  lemma {:induction false} FeedFromIsFirst(m: Matcher, chunk: seq<byte>, k: nat)
    requires 1 <= k <= |chunk|
    ensures forall j :: k <= j < FeedFrom(m, chunk, k).n ==> !CompletesAt(m, chunk, j)
    decreases |chunk| - k
  {
    if !(k == |chunk| || CompletesAt(m, chunk, k)) {
      FeedFromIsFirst(m, chunk, k + 1);
    }
  }

  /** `sbmh_feed` on a non-empty chunk: consumes bytes up to and including
      the first completed occurrence, or the whole chunk. */
  function Feed(m: Matcher, chunk: seq<byte>): (f: FeedResult)
    requires |chunk| > 0
    ensures 1 <= f.n <= |chunk|
  {
    FeedFrom(m, chunk, 1)
  }

  /** The contract of `sbmh_feed`: the count is the position just past the
      first completed occurrence, `found` says whether there was one (if not,
      the whole chunk is consumed), and the carried state is the last bytes
      seen. */
  lemma FeedContract(m: Matcher, chunk: seq<byte>)
    requires |chunk| > 0
    ensures var f := Feed(m, chunk);
      && (f.found <==> CompletesAt(m, chunk, f.n))
      && (forall j :: 1 <= j < f.n ==> !CompletesAt(m, chunk, j))
      && (!f.found ==> f.n == |chunk|)
      && f.after.lookbehind == Tail(m.lookbehind + chunk[..f.n])
  {
    FeedStops(m, chunk);
    FeedIsFirst(m, chunk);
  }

  lemma FeedIsFirst(m: Matcher, chunk: seq<byte>)
    requires |chunk| > 0
    ensures forall j :: 1 <= j < Feed(m, chunk).n ==> !CompletesAt(m, chunk, j)
  {
    FeedFromIsFirst(m, chunk, 1);
  }

  lemma FeedStops(m: Matcher, chunk: seq<byte>)
    requires |chunk| > 0
    ensures var f := Feed(m, chunk);
      && (f.found <==> CompletesAt(m, chunk, f.n))
      && (!f.found ==> f.n == |chunk|)
      && f.after.lookbehind == Tail(m.lookbehind + chunk[..f.n])
  {
    FeedFromStops(m, chunk, 1);
  }

  /** The three properties of the contract determine the count uniquely. */
  lemma FeedUnique(m: Matcher, chunk: seq<byte>, n: nat)
    requires 1 <= n <= |chunk|
    requires forall j :: 1 <= j < n ==> !CompletesAt(m, chunk, j)
    requires n < |chunk| ==> CompletesAt(m, chunk, n)
    ensures Feed(m, chunk).n == n
  {
    FeedContract(m, chunk);
  }

  /** The carried state stands for the whole history since the last reset:
      feeding after history `h` finds exactly the occurrences that end in the
      new chunk in `h + chunk`. */
  lemma LookbehindStandsForHistory(h: seq<byte>, chunk: seq<byte>, k: nat)
    requires 1 <= k <= |chunk|
    ensures CompletesAt(Matcher(Tail(h)), chunk, k) <==> EndsWithDelim(h + chunk[..k])
  {
    TailKeepsOccurrences(h, chunk[..k]);
  }

  /** Feeding `a + b` agrees with feeding `a` up to `|a|` bytes. */
  lemma PrefixCompletions(m: Matcher, a: seq<byte>, b: seq<byte>, j: nat)
    requires 1 <= j <= |a|
    ensures CompletesAt(m, a + b, j) == CompletesAt(m, a, j)
  {
    assert (a + b)[..j] == a[..j];
  }

  /** Past `|a|`, feeding `a + b` agrees with feeding `b` after `a`. */
  lemma SuffixCompletions(m: Matcher, a: seq<byte>, b: seq<byte>, i: nat)
    requires 1 <= i <= |b|
    ensures CompletesAt(m, a + b, |a| + i) == CompletesAt(Matcher(Tail(m.lookbehind + a)), b, i)
  {
    assert m.lookbehind + (a + b)[..|a| + i] == (m.lookbehind + a) + b[..i];
    TailKeepsOccurrences(m.lookbehind + a, b[..i]);
  }

  /** Splitting a chunk in two does not change what the matcher finds: a
      delimiter completing in the first part is found at the same place. */
  lemma FeedSplitFound(m: Matcher, a: seq<byte>, b: seq<byte>)
    requires |a| > 0 && |b| > 0
    requires Feed(m, a).found
    ensures Feed(m, a + b) == Feed(m, a)
  {
    var fa := Feed(m, a);
    FeedIsFirst(m, a);
    FeedStops(m, a);
    FeedStops(m, a + b);
    forall j | 1 <= j <= fa.n
      ensures CompletesAt(m, a + b, j) == CompletesAt(m, a, j)
    {
      PrefixCompletions(m, a, b, j);
    }
    FeedUnique(m, a + b, fa.n);
    assert (a + b)[..fa.n] == a[..fa.n];
  }

  /** No occurrence completes within `a` when feeding `a + b`. */
  lemma NoCompletionInFirst(m: Matcher, a: seq<byte>, b: seq<byte>)
    requires |a| > 0 && !Feed(m, a).found
    ensures forall j :: 1 <= j <= |a| ==> !CompletesAt(m, a + b, j)
  {
    FeedIsFirst(m, a);
    FeedStops(m, a);
    forall j | 1 <= j <= |a|
      ensures !CompletesAt(m, a + b, j)
    {
      PrefixCompletions(m, a, b, j);
    }
  }

  /** Nor before the first completion in `b`, fed after `a`. */
  lemma NoCompletionInSecond(m: Matcher, a: seq<byte>, b: seq<byte>)
    requires |b| > 0
    ensures var fb := Feed(Matcher(Tail(m.lookbehind + a)), b);
      forall j :: |a| < j < |a| + fb.n ==> !CompletesAt(m, a + b, j)
  {
    var fb := Feed(Matcher(Tail(m.lookbehind + a)), b);
    FeedIsFirst(Matcher(Tail(m.lookbehind + a)), b);
    forall j | |a| < j < |a| + fb.n
      ensures !CompletesAt(m, a + b, j)
    {
      SuffixCompletions(m, a, b, j - |a|);
    }
  }

  /** When no delimiter completes in `a`, the count of a feed of `a + b` is
      `|a|` plus that of feeding `b` after `a`. */
  lemma FeedSplitCount(m: Matcher, a: seq<byte>, b: seq<byte>)
    requires |a| > 0 && |b| > 0
    requires !Feed(m, a).found
    ensures Feed(m, a + b).n == |a| + Feed(Matcher(Tail(m.lookbehind + a)), b).n
  {
    var fb := Feed(Matcher(Tail(m.lookbehind + a)), b);
    NoCompletionBefore(m, a, b);
    CompletionInSecond(m, a, b);
    FeedUnique(m, a + b, |a| + fb.n);
  }

  lemma NoCompletionBefore(m: Matcher, a: seq<byte>, b: seq<byte>)
    requires |a| > 0 && |b| > 0 && !Feed(m, a).found
    ensures var fb := Feed(Matcher(Tail(m.lookbehind + a)), b);
      forall j :: 1 <= j < |a| + fb.n ==> !CompletesAt(m, a + b, j)
  {
    NoCompletionInFirst(m, a, b);
    NoCompletionInSecond(m, a, b);
  }

  /** And the first completion in `b`, if any, is one of `a + b`. */
  lemma CompletionInSecond(m: Matcher, a: seq<byte>, b: seq<byte>)
    requires |b| > 0
    ensures var fb := Feed(Matcher(Tail(m.lookbehind + a)), b);
      fb.n < |b| ==> CompletesAt(m, a + b, |a| + fb.n)
  {
    var m1 := Matcher(Tail(m.lookbehind + a));
    var fb := Feed(m1, b);
    if fb.n < |b| {
      FeedStopsEarly(m1, b);
      SuffixCompletions(m, a, b, fb.n);
    }
  }

  /** A feed that stops before the end of the chunk stops at a completion. */
  lemma FeedStopsEarly(m: Matcher, chunk: seq<byte>)
    requires |chunk| > 0
    ensures Feed(m, chunk).n < |chunk| ==> CompletesAt(m, chunk, Feed(m, chunk).n)
  {
    FeedFromStops(m, chunk, 1);
  }

  /** Splitting a chunk in two does not change what the matcher finds: a
      delimiter that straddles the split is found, at the same place, by the
      partial match carried from the first part into the second. */
  lemma FeedSplitNotFound(m: Matcher, a: seq<byte>, b: seq<byte>)
    requires |a| > 0 && |b| > 0
    requires !Feed(m, a).found
    ensures var fb := Feed(Feed(m, a).after, b);
      Feed(m, a + b) == FeedResult(|a| + fb.n, fb.found, fb.after)
  {
    var m1 := Matcher(Tail(m.lookbehind + a));
    FeedStops(m, a);
    assert Feed(m, a).after == m1 by {
      SlicesWhole(a);
    }
    var fb := Feed(m1, b);
    FeedSplitCount(m, a, b);
    FeedStops(m1, b);
    FeedStops(m, a + b);
    SuffixCompletions(m, a, b, fb.n);
    CarriedStateOfSplit(m, a, b, fb.n);
  }

  /** The carried state after `|a| + k` bytes of `a + b` is that after `k`
      bytes of `b` fed with the state carried from `a`. */
  lemma CarriedStateOfSplit(m: Matcher, a: seq<byte>, b: seq<byte>, k: nat)
    requires k <= |b|
    ensures Tail(m.lookbehind + (a + b)[..|a| + k]) == Tail(Tail(m.lookbehind + a) + b[..k])
  {
    SlicesOfAppendRight(a, b, k);
    AppendAssoc(m.lookbehind, a, b[..k]);
    TailOfAppend(m.lookbehind + a, b[..k]);
  }
}
