/** The record-aware rate limiter (`apply_rate_limit`): keep one record out of
    every `rateLimit`, rewriting the buffer in place. */
module RateLimiter {
  import opened Util
  import opened Delimiter
  import opened StreamMatcher

  /** C's `%` on `int`: the remainder has the sign of the dividend. */
  function CRem(a: int, b: int): (r: int)
    requires b > 0
    ensures a >= 0 ==> 0 <= r < b
    ensures a < 0 ==> -b < r <= 0
    ensures (a - r) % b == 0
  {
    if a >= 0 then
      ModUnique(a - a % b, b, a / b, 0);
      a % b
    else
      ModUnique(a + (-a) % b, b, -((-a) / b), 0);
      -((-a) % b)
  }

  /** What one pass of the rate limiter leaves: the kept bytes, and the
      counter and matcher state carried to the next pass. */
  datatype Filtered = Filtered(out: seq<byte>, counter: int, matcher: Matcher)

  /** The specification of `apply_rate_limit`: the buffer is cut into the
      spans the matcher reports; a span is kept iff the counter is 0 when it
      begins; each completed delimiter advances the counter modulo
      `rateLimit` and resets the matcher. */
  function Compact(m: Matcher, buf: seq<byte>, rateLimit: int, counter: int): (r: Filtered)
    requires rateLimit >= 1
    ensures |r.out| <= |buf|
    decreases |buf|
  {
    if |buf| == 0 then Filtered([], counter, m)
    else
      var f := Feed(m, buf);
      var counter' := if f.found then CRem(counter + 1, rateLimit) else counter;
      var m' := if f.found then Reset() else f.after;
      var rest := Compact(m', buf[f.n..], rateLimit, counter');
      Filtered((if counter == 0 then buf[..f.n] else []) + rest.out, rest.counter, rest.matcher)
  }

  // ---------------------------------------------------------------------
  // An independent description: spans, and which of them are kept
  // ---------------------------------------------------------------------

  /** One matcher span: the bytes up to and including the next completed
      delimiter, or up to the end of the buffer. */
  datatype Span = Span(bytes: seq<byte>, delimited: bool)

  /** The successive spans reported by the matcher over `buf`. */
  function Spans(m: Matcher, buf: seq<byte>): seq<Span>
    decreases |buf|
  {
    if |buf| == 0 then []
    else
      var f := Feed(m, buf);
      [Span(buf[..f.n], f.found)] + Spans(if f.found then Reset() else f.after, buf[f.n..])
  }

  function Concat(spans: seq<Span>): seq<byte>
  {
    if spans == [] then [] else spans[0].bytes + Concat(spans[1..])
  }

  /** The number of completed delimiters among `spans`. */
  function Delimiters(spans: seq<Span>): nat
  {
    if spans == [] then 0 else (if spans[0].delimited then 1 else 0) + Delimiters(spans[1..])
  }

  /** The counter after `d` completed delimiters, starting from `c0`. */
  function CounterAt(c0: int, d: nat, rateLimit: int): int
    requires rateLimit >= 1
  {
    if d == 0 then c0 else CRem(CounterAt(c0, d - 1, rateLimit) + 1, rateLimit)
  }

  /** The same counter in closed form: the sentinel -1 persists until the
      first delimiter; from then on the counter is the number of delimiters
      seen (plus the start value), modulo `rateLimit`. */
  function CounterClosedForm(c0: int, d: nat, rateLimit: int): int
    requires rateLimit >= 1
  {
    if c0 + d < 0 then -1 else (c0 + d) % rateLimit
  }

  /** The bytes of the spans kept when `d` delimiters precede `spans`. */
  function KeptBytes(spans: seq<Span>, c0: int, rateLimit: int, d: nat): seq<byte>
    requires rateLimit >= 1
  {
    if spans == [] then []
    else
      (if CounterAt(c0, d, rateLimit) == 0 then spans[0].bytes else [])
      + KeptBytes(spans[1..], c0, rateLimit, d + if spans[0].delimited then 1 else 0)
  }

  /** One unfolding of Spans. */
  lemma SpansStep(m: Matcher, buf: seq<byte>)
    requires |buf| > 0
    ensures var f := Feed(m, buf);
      Spans(m, buf) == [Span(buf[..f.n], f.found)] + Spans(if f.found then Reset() else f.after, buf[f.n..])
  {
  }

  lemma ConsParts(x: Span, rest: seq<Span>)
    ensures ([x] + rest)[0] == x && ([x] + rest)[1..] == rest
  {
  }

  lemma KeptBytesCons(x: Span, rest: seq<Span>, c0: int, rateLimit: int, d: nat)
    requires rateLimit >= 1
    ensures KeptBytes([x] + rest, c0, rateLimit, d)
         == (if CounterAt(c0, d, rateLimit) == 0 then x.bytes else [])
            + KeptBytes(rest, c0, rateLimit, d + if x.delimited then 1 else 0)
  {
    ConsParts(x, rest);
  }

  lemma DelimitersCons(x: Span, rest: seq<Span>)
    ensures Delimiters([x] + rest) == (if x.delimited then 1 else 0) + Delimiters(rest)
  {
    ConsParts(x, rest);
  }

  /** Delimiters counted span by span. */
  lemma DelimitersStep(m: Matcher, buf: seq<byte>)
    requires |buf| > 0
    ensures var f := Feed(m, buf);
      Delimiters(Spans(m, buf))
        == (if f.found then 1 else 0) + Delimiters(Spans(if f.found then Reset() else f.after, buf[f.n..]))
  {
    var f := Feed(m, buf);
    SpansStep(m, buf);
    DelimitersCons(Span(buf[..f.n], f.found), Spans(if f.found then Reset() else f.after, buf[f.n..]));
  }

  /** The spans partition the buffer, in order. */
  lemma {:induction false} SpansPartition(m: Matcher, buf: seq<byte>)
    ensures Concat(Spans(m, buf)) == buf
    decreases |buf|
  {
    if |buf| > 0 {
      var f := Feed(m, buf);
      var m' := if f.found then Reset() else f.after;
      SpansPartition(m', buf[f.n..]);
      SpansStep(m, buf);
      ConsParts(Span(buf[..f.n], f.found), Spans(m', buf[f.n..]));
      SliceSplit(buf, f.n);
    }
  }

  /** Every span is non-empty, and every span but the last ends with a
      completed delimiter. */
  lemma {:induction false} SpansShape(m: Matcher, buf: seq<byte>)
    ensures forall i :: 0 <= i < |Spans(m, buf)| ==> |Spans(m, buf)[i].bytes| > 0
    ensures forall i :: 0 <= i < |Spans(m, buf)| - 1 ==> Spans(m, buf)[i].delimited
    decreases |buf|
  {
    if |buf| > 0 {
      var f := Feed(m, buf);
      var m' := if f.found then Reset() else f.after;
      SpansShape(m', buf[f.n..]);
      SpansStep(m, buf);
      var s := Spans(m, buf);
      ConsParts(Span(buf[..f.n], f.found), Spans(m', buf[f.n..]));
      FeedStops(m, buf);
      assert !f.found ==> buf[f.n..] == [];
      forall i | 1 <= i < |s|
        ensures s[i] == Spans(m', buf[f.n..])[i - 1]
      {
      }
    }
  }

  lemma {:induction false} MulAtLeast(k: nat, n: int)
    requires k >= 1 && n >= 1
    ensures k * n >= n
    decreases k
  {
    if k > 1 {
      MulAtLeast(k - 1, n);
      assert k * n == (k - 1) * n + n;
    }
  }

  /** Quotient and remainder are unique. */
  lemma ModUnique(x: int, n: int, q: int, r: int)
    requires n >= 1 && 0 <= r < n && x == q * n + r
    ensures x % n == r
  {
    var q0, r0 := x / n, x % n;
    assert x == q0 * n + r0;
    assert (q - q0) * n == r0 - r;
    if q > q0 {
      MulAtLeast(q - q0, n);
    } else if q < q0 {
      MulAtLeast(q0 - q, n);
    }
  }

  /** Adding one commutes with taking the remainder. */
  lemma ModSuccessor(x: int, n: int)
    requires x >= 0 && n >= 1
    ensures (x % n + 1) % n == (x + 1) % n
  {
    var q, r := x / n, x % n;
    assert x == q * n + r;
    if r + 1 < n {
      ModUnique(x + 1, n, q, r + 1);
      ModUnique(r + 1, n, 0, r + 1);
    } else {
      ModUnique(x + 1, n, q + 1, 0);
      ModUnique(n, n, 1, 0);
    }
  }

  /** One step of the counter, in closed form. */
  lemma ClosedFormStep(c0: int, d: nat, rateLimit: int)
    requires rateLimit >= 1 && c0 >= -1
    ensures CRem(CounterClosedForm(c0, d, rateLimit) + 1, rateLimit) == CounterClosedForm(c0, d + 1, rateLimit)
  {
    if c0 + d >= 0 {
      ModSuccessor(c0 + d, rateLimit);
    } else {
      ModUnique(0, rateLimit, 0, 0);
    }
  }

  /** From a start value in [-1, rateLimit), the counter after `d`
      delimiters is -1 while `c0 + d` is negative, and `(c0 + d) % rateLimit`
      from then on. */
  lemma {:induction false} CounterAtClosedForm(c0: int, d: nat, rateLimit: int)
    requires rateLimit >= 1 && -1 <= c0 < rateLimit
    ensures CounterAt(c0, d, rateLimit) == CounterClosedForm(c0, d, rateLimit)
    decreases d
  {
    if d == 0 {
      if c0 >= 0 {
        ModUnique(c0, rateLimit, 0, c0);
      }
    } else {
      CounterAtClosedForm(c0, d - 1, rateLimit);
      ClosedFormStep(c0, d - 1, rateLimit);
    }
  }

  /** The counter for the span after the first one. */
  lemma CounterAfterSpan(c0: int, d: nat, rateLimit: int, found: bool)
    requires rateLimit >= 1
    ensures var c := CounterAt(c0, d, rateLimit);
      CounterAt(c0, d + if found then 1 else 0, rateLimit) == if found then CRem(c + 1, rateLimit) else c
  {
  }

  /** Keep-1-of-N: after `d` delimiters from the start value `c0`, the rate
      limiter keeps exactly the spans at which the counter is 0, in order. */
  lemma {:induction false} CompactKeepsOneInN(m: Matcher, buf: seq<byte>, rateLimit: int, c0: int, d: nat)
    requires rateLimit >= 1
    ensures Compact(m, buf, rateLimit, CounterAt(c0, d, rateLimit)).out == KeptBytes(Spans(m, buf), c0, rateLimit, d)
    decreases |buf|
  {
    if |buf| > 0 {
      var f := Feed(m, buf);
      var m' := if f.found then Reset() else f.after;
      var d' := d + if f.found then 1 else 0;
      SpansStep(m, buf);
      KeptBytesCons(Span(buf[..f.n], f.found), Spans(m', buf[f.n..]), c0, rateLimit, d);
      CounterAfterSpan(c0, d, rateLimit, f.found);
      CompactStep(m, buf, rateLimit, CounterAt(c0, d, rateLimit));
      CompactKeepsOneInN(m', buf[f.n..], rateLimit, c0, d');
    }
  }

  /** The counter a pass ends with, one span at a time. */
  lemma CompactCounterStep(m: Matcher, buf: seq<byte>, rateLimit: int, c0: int, d: nat)
    requires rateLimit >= 1 && |buf| > 0
    ensures var f := Feed(m, buf);
      Compact(m, buf, rateLimit, CounterAt(c0, d, rateLimit)).counter
        == Compact(if f.found then Reset() else f.after, buf[f.n..], rateLimit,
                   CounterAt(c0, d + if f.found then 1 else 0, rateLimit)).counter
  {
    var f := Feed(m, buf);
    CounterAfterSpan(c0, d, rateLimit, f.found);
    CompactStep(m, buf, rateLimit, CounterAt(c0, d, rateLimit));
  }

  /** The counter a pass ends with is the one that the number of delimiters
      it saw determines. */
  lemma {:induction false} CompactCounterAfter(m: Matcher, buf: seq<byte>, rateLimit: int, c0: int, d: nat)
    requires rateLimit >= 1
    ensures Compact(m, buf, rateLimit, CounterAt(c0, d, rateLimit)).counter
         == CounterAt(c0, d + Delimiters(Spans(m, buf)), rateLimit)
    decreases |buf|
  {
    if |buf| > 0 {
      var f := Feed(m, buf);
      CompactCounterStep(m, buf, rateLimit, c0, d);
      DelimitersStep(m, buf);
      CompactCounterAfter(if f.found then Reset() else f.after, buf[f.n..], rateLimit, c0,
                          d + if f.found then 1 else 0);
    } else {
      assert Delimiters(Spans(m, buf)) == 0;
      assert d + 0 == d;
    }
  }

  /** A counter in [-1, rateLimit) stays there, and once a delimiter has
      been seen it is in [0, rateLimit). */
  lemma {:induction false} CompactCounterInRange(m: Matcher, buf: seq<byte>, rateLimit: int, c: int)
    requires rateLimit >= 1 && -1 <= c < rateLimit
    ensures -1 <= Compact(m, buf, rateLimit, c).counter < rateLimit
    ensures c >= 0 || Delimiters(Spans(m, buf)) > 0 ==> 0 <= Compact(m, buf, rateLimit, c).counter
    decreases |buf|
  {
    if |buf| > 0 {
      var f := Feed(m, buf);
      var m' := if f.found then Reset() else f.after;
      var c' := if f.found then CRem(c + 1, rateLimit) else c;
      CompactCounterInRange(m', buf[f.n..], rateLimit, c');
      DelimitersStep(m, buf);
      CompactStep(m, buf, rateLimit, c);
    }
  }

  /** With the sentinel -1, every byte up to and including the end of the
      first delimiter is dropped, and the rest is limited from counter 0
      with a fresh matcher, so the span right after that delimiter is kept. */
  lemma LeadingPartialDropped(m: Matcher, buf: seq<byte>, rateLimit: int)
    requires rateLimit >= 1 && |buf| > 0
    ensures var f := Feed(m, buf);
      f.found ==> Compact(m, buf, rateLimit, -1) == Compact(Reset(), buf[f.n..], rateLimit, 0)
    ensures var f := Feed(m, buf);
      !f.found ==> Compact(m, buf, rateLimit, -1) == Filtered([], -1, f.after)
  {
    var f := Feed(m, buf);
    FeedStops(m, buf);
    if !f.found {
      assert buf[f.n..] == [];
    }
  }

  /** From counter 0 the first span is kept whole. */
  lemma FirstSpanKept(m: Matcher, buf: seq<byte>, rateLimit: int)
    requires rateLimit >= 1 && |buf| > 0
    ensures var n := Feed(m, buf).n;
      |Compact(m, buf, rateLimit, 0).out| >= n && Compact(m, buf, rateLimit, 0).out[..n] == buf[..n]
  {
  }

  /** With rateLimit 1 and counter 0 nothing is dropped: compaction of an
      already compact buffer leaves it byte-identical. */
  lemma {:induction false} NoLimitKeepsAll(m: Matcher, buf: seq<byte>)
    ensures Compact(m, buf, 1, 0).out == buf
    ensures Compact(m, buf, 1, 0).counter == 0
    decreases |buf|
  {
    if |buf| > 0 {
      var f := Feed(m, buf);
      var m' := if f.found then Reset() else f.after;
      NoLimitKeepsAll(m', buf[f.n..]);
      CompactStep(m, buf, 1, 0);
      SliceSplit(buf, f.n);
    }
  }

  /** One step of Compact, spelled out. */
  lemma CompactStep(m: Matcher, buf: seq<byte>, rateLimit: int, c: int)
    requires rateLimit >= 1 && |buf| > 0
    ensures var f := Feed(m, buf);
      var r := Compact(if f.found then Reset() else f.after, buf[f.n..], rateLimit,
                       if f.found then CRem(c + 1, rateLimit) else c);
      Compact(m, buf, rateLimit, c) == Filtered((if c == 0 then buf[..f.n] else []) + r.out, r.counter, r.matcher)
  {
  }

  /** CompactSplit when the first span of `a + b` runs past the end of `a`. */
  lemma CompactSplitStraddling(m: Matcher, a: seq<byte>, b: seq<byte>, rateLimit: int, c: int)
    requires rateLimit >= 1 && |a| > 0 && |b| > 0 && !Feed(m, a).found
    ensures var ra := Compact(m, a, rateLimit, c);
      var rb := Compact(ra.matcher, b, rateLimit, ra.counter);
      Compact(m, a + b, rateLimit, c) == Filtered(ra.out + rb.out, rb.counter, rb.matcher)
  {
    var fa := Feed(m, a);
    var fb := Feed(fa.after, b);
    var c' := if fb.found then CRem(c + 1, rateLimit) else c;
    var m' := if fb.found then Reset() else fb.after;
    var rest := Compact(m', b[fb.n..], rateLimit, c');
    var kept := if c == 0 then a else [];
    var keptB := if c == 0 then b[..fb.n] else [];
    assert Compact(m, a, rateLimit, c) == Filtered(kept, c, fa.after) by {
      FeedStops(m, a);
      CompactStep(m, a, rateLimit, c);
      SlicesWhole(a);
    }
    assert Compact(fa.after, b, rateLimit, c) == Filtered(keptB + rest.out, rest.counter, rest.matcher) by {
      CompactStep(fa.after, b, rateLimit, c);
    }
    var n := |a| + fb.n;
    assert Feed(m, a + b) == FeedResult(n, fb.found, fb.after) by {
      FeedSplitNotFound(m, a, b);
    }
    assert (a + b)[..n] == a + b[..fb.n] && (a + b)[n..] == b[fb.n..] by {
      SlicesOfAppendRight(a, b, fb.n);
    }
    assert (if c == 0 then (a + b)[..n] else []) == kept + keptB;
    assert Compact(m, a + b, rateLimit, c) == Filtered((kept + keptB) + rest.out, rest.counter, rest.matcher) by {
      CompactStep(m, a + b, rateLimit, c);
    }
    AppendAssoc(kept, keptB, rest.out);
  }

  /** CompactSplit when a delimiter completes inside `a`. */
  lemma {:induction false} CompactSplitFound(m: Matcher, a: seq<byte>, b: seq<byte>, rateLimit: int, c: int)
    requires rateLimit >= 1 && |a| > 0 && |b| > 0 && Feed(m, a).found
    ensures var ra := Compact(m, a, rateLimit, c);
      var rb := Compact(ra.matcher, b, rateLimit, ra.counter);
      Compact(m, a + b, rateLimit, c) == Filtered(ra.out + rb.out, rb.counter, rb.matcher)
    decreases |a|, 0
  {
    var n := Feed(m, a).n;
    var c' := CRem(c + 1, rateLimit);
    var kept := if c == 0 then a[..n] else [];
    var ra' := Compact(Reset(), a[n..], rateLimit, c');
    var rb := Compact(ra'.matcher, b, rateLimit, ra'.counter);
    assert Compact(m, a, rateLimit, c) == Filtered(kept + ra'.out, ra'.counter, ra'.matcher) by {
      CompactStep(m, a, rateLimit, c);
    }
    var rab := Compact(Reset(), a[n..] + b, rateLimit, c');
    assert Compact(m, a + b, rateLimit, c) == Filtered(kept + rab.out, rab.counter, rab.matcher) by {
      FeedSplitFound(m, a, b);
      CompactStep(m, a + b, rateLimit, c);
      SlicesOfAppendLeft(a, b, n);
    }
    assert rab == Filtered(ra'.out + rb.out, rb.counter, rb.matcher) by {
      CompactSplit(Reset(), a[n..], b, rateLimit, c');
    }
    AppendAssoc(kept, ra'.out, rb.out);
  }

  /** Partial records continue across buffers: limiting `a` and then `b`
      with the carried counter and matcher gives the same bytes, counter and
      matcher as limiting `a + b` at once. */
  lemma {:induction false} CompactSplit(m: Matcher, a: seq<byte>, b: seq<byte>, rateLimit: int, c: int)
    requires rateLimit >= 1
    ensures var ra := Compact(m, a, rateLimit, c);
      var rb := Compact(ra.matcher, b, rateLimit, ra.counter);
      Compact(m, a + b, rateLimit, c) == Filtered(ra.out + rb.out, rb.counter, rb.matcher)
    decreases |a|, 1
  {
    if |a| == 0 {
      assert a + b == b;
    } else if |b| == 0 {
      assert a + b == a;
      assert Compact(Compact(m, a, rateLimit, c).matcher, b, rateLimit, Compact(m, a, rateLimit, c).counter).out == [];
    } else if Feed(m, a).found {
      CompactSplitFound(m, a, b, rateLimit, c);
    } else {
      CompactSplitStraddling(m, a, b, rateLimit, c);
    }
  }

  // ---------------------------------------------------------------------
  // The in-place implementation
  // ---------------------------------------------------------------------

  /** `memmove(buf + dest, buf + src, n)` for `dest <= src`. */
  method MoveDown(buf: array<byte>, dest: nat, src: nat, n: nat)
    requires dest <= src && src + n <= buf.Length
    modifies buf
    ensures buf[..dest] == old(buf[..dest])
    ensures buf[dest..dest + n] == old(buf[src..src + n])
    ensures forall k :: 0 <= k < buf.Length && !(dest <= k < dest + n) ==> buf[k] == old(buf[k])
  {
    var i := 0;
    while i < n
      invariant 0 <= i <= n
      invariant forall k :: dest <= k < dest + i ==> buf[k] == old(buf[k - dest + src])
      invariant forall k :: 0 <= k < buf.Length && !(dest <= k < dest + i) ==> buf[k] == old(buf[k])
    {
      assert buf[src + i] == old(buf[src + i]);
      buf[dest + i] := buf[src + i];
      i := i + 1;
    }
    ShiftedSlices(buf[..], old(buf[..]), dest, src, n);
  }

  /** Two sequences that agree at offsets `dest` and `src` agree as slices. */
  lemma ShiftedSlices(a: seq<byte>, b: seq<byte>, dest: nat, src: nat, n: nat)
    requires dest + n <= |a| && src + n <= |b|
    requires forall k :: dest <= k < dest + n ==> a[k] == b[k - dest + src]
    ensures a[dest..dest + n] == b[src..src + n]
  {
  }

  /** The result of a pass whose first part has already produced `done`. */
  function Then(done: seq<byte>, r: Filtered): Filtered
  {
    Filtered(done + r.out, r.counter, r.matcher)
  }

  lemma ArrayRangeAgrees(buf: array<byte>, orig: seq<byte>, i: nat, j: nat)
    requires i <= j <= buf.Length == |orig|
    requires forall k :: i <= k < buf.Length ==> buf[k] == orig[k]
    ensures buf[i..j] == orig[i..j]
  {
  }

  /** The bytes not yet consumed are still those of the input. */
  lemma UnconsumedAgrees(buf: array<byte>, orig: seq<byte>, input: seq<byte>, next: nat, len: nat)
    requires next <= len <= buf.Length == |orig| && input == orig[..len]
    requires forall k :: next <= k < buf.Length ==> buf[k] == orig[k]
    ensures buf[next..len] == input[next..]
    ensures buf[len..] == orig[len..]
  {
    assert buf[next..len] == orig[next..len];
  }

  /** One turn of the compaction loop: the span at `next` is consumed and,
      when the counter is 0, appended to what has been produced. */
  lemma CompactAdvance(m: Matcher, input: seq<byte>, next: nat, rateLimit: int, c: int,
                       done: seq<byte>, whole: Filtered)
    requires rateLimit >= 1 && next < |input|
    requires whole == Then(done, Compact(m, input[next..], rateLimit, c))
    ensures var f := Feed(m, input[next..]);
      next + f.n <= |input| &&
      whole == Then(done + (if c == 0 then input[next..][..f.n] else []),
                    Compact(if f.found then Reset() else f.after, input[next + f.n..], rateLimit,
                            if f.found then CRem(c + 1, rateLimit) else c))
  {
    var rest := input[next..];
    var f := Feed(m, rest);
    assert rest[f.n..] == input[next + f.n..];
    CompactStep(m, rest, rateLimit, c);
    var kept := if c == 0 then rest[..f.n] else [];
    var r := Compact(if f.found then Reset() else f.after, rest[f.n..], rateLimit,
                     if f.found then CRem(c + 1, rateLimit) else c);
    AppendAssoc(done, kept, r.out);
  }

  /** Moves the span `buf[next..next + n)` down to `dest`, extending the
      produced prefix `buf[..dest)` by it. */
  method KeepSpan(buf: array<byte>, dest: nat, next: nat, n: nat)
    requires dest <= next && next + n <= buf.Length
    modifies buf
    ensures buf[..dest + n] == old(buf[..dest]) + old(buf[next..next + n])
    ensures forall k :: next + n <= k < buf.Length ==> buf[k] == old(buf[k])
  {
    if dest != next {
      MoveDown(buf, dest, next, n);
    }
    assert buf[..dest + n] == buf[..dest] + buf[dest..dest + n];
  }

  /** One turn of the loop of `apply_rate_limit`: feeds the unconsumed bytes
      `buf[next..len)` to the matcher, moves the span it consumed down to
      `dest` when the counter is 0, and advances the counter on a delimiter. */
  method ConsumeSpan(buf: array<byte>, len: nat, dest: nat, next: nat, rateLimit: int, c: int, m: Matcher,
                     ghost rest: seq<byte>)
    returns (dest': nat, next': nat, c': int, m': Matcher)
    requires dest <= next < len <= buf.Length && rateLimit >= 1
    requires buf[next..len] == rest
    modifies buf
    ensures var f := Feed(m, rest);
      next' == next + f.n && dest' == dest + (if c == 0 then f.n else 0) && dest' <= next' <= len &&
      c' == (if f.found then CRem(c + 1, rateLimit) else c) &&
      m' == (if f.found then Reset() else f.after) &&
      buf[..dest'] == old(buf[..dest]) + (if c == 0 then rest[..f.n] else [])
    ensures forall k :: next' <= k < buf.Length ==> buf[k] == old(buf[k])
  {
    var f := Feed(m, buf[next..len]);
    if c == 0 {
      assert rest[..f.n] == buf[next..next + f.n];
      KeepSpan(buf, dest, next, f.n);
      dest' := dest + f.n;
    } else {
      dest' := dest;
      assert buf[..dest'] + [] == buf[..dest'];
    }
    next' := next + f.n;
    if f.found {
      c' := CRem(c + 1, rateLimit);
      m' := Reset();
    } else {
      m' := f.after;
      c' := c;
    }
  }

  /** `apply_rate_limit`: rewrites `buf[0..len)` in place to the kept spans
      and returns the new length, counter and matcher. */
  method ApplyRateLimit(buf: array<byte>, len: nat, rateLimit: int, counter: int, matcher: Matcher)
    returns (newLen: nat, counter': int, matcher': Matcher)
    requires len <= buf.Length && rateLimit >= 1
    modifies buf
    ensures newLen <= len
    ensures var r := Compact(matcher, old(buf[..len]), rateLimit, counter);
      buf[..newLen] == r.out && counter' == r.counter && matcher' == r.matcher
    ensures buf[len..] == old(buf[len..])
  {
    ghost var orig := buf[..];
    ghost var input := buf[..len];
    ghost var whole := Compact(matcher, input, rateLimit, counter);
    ghost var done: seq<byte> := [];
    var dest: nat, next: nat := 0, 0;
    counter', matcher' := counter, matcher;
    assert input[0..] == input;
    while next < len
      invariant dest <= next <= len
      invariant |input| == len && input == orig[..len] && |orig| == buf.Length
      invariant buf[..dest] == done
      invariant forall k :: next <= k < buf.Length ==> buf[k] == orig[k]
      invariant whole == Then(done, Compact(matcher', input[next..], rateLimit, counter'))
      decreases len - next
    {
      UnconsumedAgrees(buf, orig, input, next, len);
      CompactAdvance(matcher', input, next, rateLimit, counter', done, whole);
      ghost var rest := input[next..];
      ghost var f := Feed(matcher', rest);
      done := done + (if counter' == 0 then rest[..f.n] else []);
      dest, next, counter', matcher' := ConsumeSpan(buf, len, dest, next, rateLimit, counter', matcher', rest);
    }
    assert input[next..] == [];
    assert done + [] == done;
    UnconsumedAgrees(buf, orig, input, len, len);
    newLen := dest;
  }
}
