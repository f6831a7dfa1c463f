/** The shared I/O token bucket, in exact arithmetic, and its batching front. */
module Limit {
  const IO_BATCH_BYTES: nat := 256 * 1024
  const U64_MAX: nat := 0xffff_ffff_ffff_ffff

  // ---------------------------------------------------------------- the bucket as a value

  /** Tokens that accrue between two instants. */
  function Accrued(rate: real, from: real, to: real): real {
    rate * (to - from)
  }

  lemma AccruedAdds(rate: real, a: real, b: real, c: real)
    requires 0.0 < rate
    ensures Accrued(rate, a, c) == Accrued(rate, a, b) + Accrued(rate, b, c)
    ensures Accrued(rate, a, a) == 0.0 && (a <= b ==> 0.0 <= Accrued(rate, a, b))
  {
    assert rate * (c - a) == rate * ((b - a) + (c - b)) == rate * (b - a) + rate * (c - b);
  }

  datatype Bucket = Bucket(rate: real, burst: real, tokens: real, last: real) {
    predicate Valid() {
      0.0 < rate && burst == rate * 2.0 && 0.0 <= tokens <= burst
    }

    /** Tokens that have accrued by `now`, up to the burst. */
    function Refill(now: real): Bucket {
      if now > last then
        var filled := tokens + Accrued(rate, last, now);
        this.(tokens := if filled < burst then filled else burst, last := now)
      else this
    }

    /** One attempt: refill, then take `need` if it is there. */
    function Attempt(e: Try): Bucket {
      var r := Refill(e.now);
      if r.tokens >= e.need then r.(tokens := r.tokens - e.need) else r
    }

    function Granted(e: Try): real {
      if Refill(e.now).tokens >= e.need then e.need else 0.0
    }
  }

  datatype Try = Try(now: real, need: real)

  function After(b: Bucket, es: seq<Try>): Bucket {
    if es == [] then b else After(b, es[..|es| - 1]).Attempt(es[|es| - 1])
  }

  function TotalGranted(b: Bucket, es: seq<Try>): real {
    if es == [] then 0.0 else TotalGranted(b, es[..|es| - 1]) + After(b, es[..|es| - 1]).Granted(es[|es| - 1])
  }

  /** The clock never runs backwards, neither against the bucket nor between attempts. */
  predicate Ordered(b: Bucket, es: seq<Try>) {
    && (forall i :: 0 <= i < |es| ==> b.last <= es[i].now && 0.0 <= es[i].need)
    && forall i, j :: 0 <= i < j < |es| ==> es[i].now <= es[j].now
  }

  lemma AttemptConserves(b: Bucket, e: Try)
    requires b.Valid() && b.last <= e.now && 0.0 <= e.need
    ensures
      var a := b.Attempt(e);
      && a.Valid() && a.rate == b.rate && a.last == e.now
      && b.Granted(e) + a.tokens <= b.tokens + Accrued(b.rate, b.last, e.now)
      && b.Granted(e) + a.tokens <= b.burst
      && 0.0 <= b.Granted(e)
  {
    hide Accrued;
    AccruedAdds(b.rate, b.last, e.now, e.now);
  }

  /** Refilling twice is refilling once: no time is lost and none counts twice. */
  lemma RefillComposes(b: Bucket, a: real, c: real)
    requires b.Valid() && b.last <= a <= c
    ensures b.Refill(a).Refill(c) == b.Refill(c)
  {
    hide Accrued;
    AccruedAdds(b.rate, b.last, a, c);
    AccruedAdds(b.rate, b.last, a, a);
    AccruedAdds(b.rate, a, c, c);
    AccruedAdds(b.rate, b.last, c, c);
  }

  /** Between refills `rate` tokens accrue each second, until the burst is full. */
  lemma RefillExactly(b: Bucket, now: real)
    requires b.Valid() && b.last <= now
    ensures
      var whole := b.tokens + b.rate * (now - b.last);
      && b.Refill(now).tokens == (if whole <= b.burst then whole else b.burst)
      && b.Refill(now).last == now
  {
  }

  /** An attempt is granted exactly if the need fits the burst and what was left with all that has accrued since. */
  lemma GrantedExactly(b: Bucket, e: Try)
    requires b.Valid() && b.last <= e.now && 0.0 < e.need
    ensures
      var there := b.tokens + b.rate * (e.now - b.last);
      b.Granted(e) == if e.need <= b.burst && e.need <= there then e.need else 0.0
  {
    hide Accrued, Bucket.Refill;
    RefillExactly(b, e.now);
  }

  /** What accrued before attempt `e` found room in the bucket. */
  predicate FindsRoom(b: Bucket, e: Try) {
    b.tokens + Accrued(b.rate, b.last, e.now) <= b.burst
  }

  ghost predicate NeverFull(b: Bucket, es: seq<Try>) {
    forall i :: 0 <= i < |es| ==> FindsRoom(After(b, es[..i]), es[i])
  }

  /**
   Nothing is lost while the bucket is never full: what was granted and what is left is what was there and what
   accrued.
   */
  lemma {:induction false} RunConservesExactly(b: Bucket, es: seq<Try>)
    requires b.Valid() && Ordered(b, es) && NeverFull(b, es)
    ensures TotalGranted(b, es) + After(b, es).tokens == b.tokens + Accrued(b.rate, b.last, After(b, es).last)
    decreases |es|
  {
    hide Accrued, Ordered, NeverFull, FindsRoom, Bucket.Attempt, Bucket.Granted, Bucket.Valid;
    if es == [] {
      assert b.Valid();
      RateIsPositive(b);
      AccruedAdds(b.rate, b.last, b.last, b.last);
    } else {
      var front, e := es[..|es| - 1], es[|es| - 1];
      NeverFullPrefix(b, es);
      RunConservesExactly(b, front);
      RunConserves(b, front);
      var m := After(b, front);
      RateIsPositive(b);
      OneAttemptConserves(m, e);
      AttemptConserves(m, e);
      AccruedAdds(b.rate, b.last, m.last, e.now);
    }
  }

  lemma RateIsPositive(b: Bucket)
    requires b.Valid()
    ensures 0.0 < b.rate
  {
  }

  lemma NeverFullPrefix(b: Bucket, es: seq<Try>)
    requires b.Valid() && es != [] && NeverFull(b, es) && Ordered(b, es)
    ensures
      var front, e := es[..|es| - 1], es[|es| - 1];
      && NeverFull(b, front) && Ordered(b, front) && FindsRoom(After(b, front), e)
      && After(b, front).last <= e.now && 0.0 <= e.need
  {
    hide After, FindsRoom, Accrued;
    var front, e := es[..|es| - 1], es[|es| - 1];
    forall i | 0 <= i < |front|
      ensures FindsRoom(After(b, front[..i]), front[i])
    {
      assert front[..i] == es[..i];
    }
    RunConserves(b, front);
  }

  lemma OneAttemptConserves(m: Bucket, e: Try)
    requires m.Valid() && m.last <= e.now && FindsRoom(m, e)
    ensures m.Granted(e) + m.Attempt(e).tokens == m.tokens + Accrued(m.rate, m.last, e.now)
  {
    hide Accrued;
    AccruedAdds(m.rate, m.last, e.now, e.now);
  }

  /** Over any run, what was granted and what is left never exceed what was there and what accrued. */
  lemma {:induction false} RunConserves(b: Bucket, es: seq<Try>)
    requires b.Valid() && Ordered(b, es)
    ensures
      var a := After(b, es);
      && a.Valid() && a.rate == b.rate
      && a.last == (if es == [] then b.last else es[|es| - 1].now)
      && TotalGranted(b, es) + a.tokens <= b.tokens + Accrued(b.rate, b.last, a.last)
      && 0.0 <= TotalGranted(b, es)
    decreases |es|
  {
    hide Accrued, Bucket.Attempt, Bucket.Granted;
    if es == [] {
      AccruedAdds(b.rate, b.last, b.last, b.last);
    } else {
      var rest, e := es[..|es| - 1], es[|es| - 1];
      RunConserves(b, rest);
      var m := After(b, rest);
      AttemptConserves(m, e);
      AccruedAdds(b.rate, b.last, m.last, e.now);
    }
  }

  lemma {:induction false} SplitRun(b: Bucket, es: seq<Try>, fs: seq<Try>)
    ensures After(b, es + fs) == After(After(b, es), fs)
    ensures TotalGranted(b, es + fs) == TotalGranted(b, es) + TotalGranted(After(b, es), fs)
    decreases |fs|
  {
    if fs == [] {
      assert es + fs == es;
    } else {
      SplitRun(b, es, fs[..|fs| - 1]);
      assert (es + fs)[..|es + fs| - 1] == es + fs[..|fs| - 1];
    }
  }

  lemma OneTry(b: Bucket, e: Try)
    ensures After(b, [e]) == b.Attempt(e) && TotalGranted(b, [e]) == b.Granted(e)
  {
    assert [e][..0] == [];
  }

  lemma OrderedTail(b: Bucket, e: Try, tail: seq<Try>)
    requires Ordered(b, [e] + tail)
    ensures b.last <= e.now && 0.0 <= e.need
    ensures forall a: Bucket :: a.last == e.now ==> Ordered(a, tail)
  {
    var es := [e] + tail;
    assert es[0] == e;
    forall i | 0 <= i < |tail|
      ensures e.now <= tail[i].now && 0.0 <= tail[i].need
    {
      assert es[i + 1] == tail[i];
    }
    forall i, j | 0 <= i < j < |tail|
      ensures tail[i].now <= tail[j].now
    {
      assert es[i + 1] == tail[i] && es[j + 1] == tail[j];
    }
  }

  lemma OrderedSlices(b: Bucket, es: seq<Try>, lo: nat, hi: nat)
    requires Ordered(b, es) && lo <= hi <= |es|
    ensures Ordered(b, es[..hi])
    ensures forall a: Bucket :: a.last == (if lo == 0 then b.last else es[lo - 1].now) ==> Ordered(a, es[lo..hi])
  {
  }

  /** A run that starts with `e` grants at most one burst plus what accrues after `e`. */
  lemma WindowBound(b: Bucket, e: Try, tail: seq<Try>)
    requires b.Valid() && Ordered(b, [e] + tail)
    ensures TotalGranted(b, [e] + tail)
         <= b.burst + Accrued(b.rate, e.now, if tail == [] then e.now else tail[|tail| - 1].now)
  {
    hide Accrued, After, TotalGranted, Ordered, Bucket.Attempt, Bucket.Granted;
    OrderedTail(b, e, tail);
    AttemptConserves(b, e);
    OneTry(b, e);
    SplitRun(b, [e], tail);
    RunConserves(b.Attempt(e), tail);
  }

  lemma WindowParts(es: seq<Try>, lo: nat, hi: nat)
    requires lo < hi <= |es|
    ensures es[..hi] == es[..lo] + es[lo..hi] && es[lo..hi] == [es[lo]] + es[lo + 1..hi]
    ensures es[lo + 1..hi] == [] ==> es[hi - 1] == es[lo]
    ensures es[lo + 1..hi] != [] ==> es[hi - 1] == es[lo + 1..hi][|es[lo + 1..hi]| - 1]
    ensures lo > 0 ==> es[..lo] != [] && es[..lo][|es[..lo]| - 1] == es[lo - 1]
  {
  }

  /**
   The rate bound: in any window of any run, from its first attempt to its last, no more is granted
   than one burst and the rate times the length of the window.
   */
  lemma RateBound(b: Bucket, es: seq<Try>, lo: nat, hi: nat)
    requires b.Valid() && Ordered(b, es) && lo < hi <= |es|
    ensures TotalGranted(b, es[..hi]) - TotalGranted(b, es[..lo])
         <= b.burst + Accrued(b.rate, es[lo].now, es[hi - 1].now)
    ensures 0.0 <= After(b, es[..hi]).tokens <= b.burst
  {
    hide After, TotalGranted, Ordered, Accrued, Bucket.Attempt, Bucket.Granted, Bucket.Refill;
    OrderedSlices(b, es, 0, lo);
    OrderedSlices(b, es, lo, hi);
    RunConserves(b, es[..lo]);
    RunConserves(b, es[..hi]);
    var start, tail := After(b, es[..lo]), es[lo + 1..hi];
    WindowParts(es, lo, hi);
    SplitRun(b, es[..lo], es[lo..hi]);
    WindowBound(start, es[lo], tail);
  }

  // ---------------------------------------------------------------- progress

  /** How long the source sleeps for a deficit. */
  function Wait(deficit: real, rate: real): real
    requires 0.0 < rate
  {
    if deficit / rate < 1.0 then deficit / rate else 1.0
  }

  /** A sleep is asked for just as long as the deficit, or one second's tokens, take to accrue. */
  lemma WaitExactly(deficit: real, rate: real)
    requires 0.0 < rate && 0.0 < deficit
    ensures rate * Wait(deficit, rate) == if deficit <= rate then deficit else rate
    ensures 0.0 < Wait(deficit, rate) <= 1.0
  {
    var q := deficit / rate;
    assert rate * q == deficit;
    assert 0.0 < q;
    assert deficit <= rate <==> q <= 1.0;
  }

  /** The time asked to sleep in a run of attempts: after each refusal, for what was still missing then. */
  function Slept(b: Bucket, es: seq<Try>): real
    requires 0.0 < b.rate
  {
    if es == [] then 0.0
    else
      var before, e := es[..|es| - 1], es[|es| - 1];
      var r := After(b, before).Refill(e.now);
      Slept(b, before) + if r.tokens >= e.need then 0.0 else Wait(e.need - r.tokens, b.rate)
  }

  lemma SleptStep(b: Bucket, es: seq<Try>, e: Try)
    requires 0.0 < b.rate
    ensures
      var r := After(b, es).Refill(e.now);
      Slept(b, es + [e]) == Slept(b, es) + if r.tokens >= e.need then 0.0 else Wait(e.need - r.tokens, b.rate)
  {
    hide After, Wait, Bucket.Refill;
    assert (es + [e])[..|es|] == es;
  }

  lemma WaitAccrues(deficit: real, rate: real, from: real, wake: real)
    requires 0.0 < rate && 0.0 < deficit && from + Wait(deficit, rate) <= wake
    ensures from < wake
    ensures Accrued(rate, from, wake) >= if deficit <= rate then deficit else rate
  {
    var q := deficit / rate;
    assert rate * q == deficit;
    assert 0.0 < q;
    assert deficit <= rate <==> q <= 1.0;
    var w := Wait(deficit, rate);
    assert rate * w == if deficit <= rate then deficit else rate;
    assert rate * (wake - from) >= rate * w;
  }

  /** A sleep covers a deficit of at most one second's tokens, and takes a full second's worth off a larger one. */
  lemma SleepHelps(b: Bucket, need: real, wake: real)
    requires b.Valid() && b.tokens < need <= b.burst
    requires b.last + Wait(need - b.tokens, b.rate) <= wake
    ensures need - b.tokens <= b.rate ==> need <= b.Refill(wake).tokens
    ensures need - b.Refill(wake).tokens <= b.rate
  {
    hide Accrued, Wait;
    WaitAccrues(need - b.tokens, b.rate, b.last, wake);
  }

  /** A need above the burst is never met, however long the run. */
  lemma {:induction false} TooLargeNeverGranted(b: Bucket, es: seq<Try>)
    requires b.Valid() && Ordered(b, es) && forall i :: 0 <= i < |es| ==> b.burst < es[i].need
    ensures TotalGranted(b, es) == 0.0
    decreases |es|
  {
    if es != [] {
      var rest, e := es[..|es| - 1], es[|es| - 1];
      TooLargeNeverGranted(b, rest);
      RunConserves(b, rest);
      var m := After(b, rest);
      hide After, TotalGranted, Ordered;
      AttemptConserves(m, e);
    }
  }

  /** The bucket a rate limit of `maxMbps` starts with. */
  function FullBucket(maxMbps: real, now: real): Bucket {
    Bucket(maxMbps * 1000000.0, maxMbps * 1000000.0 * 2.0, maxMbps * 1000000.0 * 2.0, now)
  }

  /** Below 0.131072 MB/s the burst is smaller than any batch: the loop charging one tries for ever. */
  lemma SlowRateStalls(maxMbps: real, now: real, batch: nat, es: seq<Try>)
    requires 0.0 < maxMbps < 0.131072 && IO_BATCH_BYTES <= batch
    requires Ordered(FullBucket(maxMbps, now), es) && forall i :: 0 <= i < |es| ==> es[i].need == batch as real
    ensures FullBucket(maxMbps, now).Valid() && TotalGranted(FullBucket(maxMbps, now), es) == 0.0
  {
    hide TotalGranted, Ordered;
    assert FullBucket(maxMbps, now).burst < batch as real;
    TooLargeNeverGranted(FullBucket(maxMbps, now), es);
  }

  /** A limit of 0.1 MB/s is such a one: of its first 262144-byte batch nothing is ever granted. */
  lemma SlowRateWitness()
    ensures forall es: seq<Try> ::
              Ordered(FullBucket(0.1, 0.0), es) && (forall i :: 0 <= i < |es| ==> es[i].need == 262144.0) ==>
                TotalGranted(FullBucket(0.1, 0.0), es) == 0.0
  {
    forall es: seq<Try> | Ordered(FullBucket(0.1, 0.0), es) && forall i :: 0 <= i < |es| ==> es[i].need == 262144.0
      ensures TotalGranted(FullBucket(0.1, 0.0), es) == 0.0
    {
      SlowRateStalls(0.1, 0.0, IO_BATCH_BYTES, es);
    }
  }

  // ---------------------------------------------------------------- calls one after another

  /** Every attempt of `es` happened between `from` and `to`, in order. */
  ghost predicate Between(es: seq<Try>, from: real, to: real) {
    && (forall i :: 0 <= i < |es| ==> from <= es[i].now <= to && 0.0 <= es[i].need)
    && forall i, j :: 0 <= i < j < |es| ==> es[i].now <= es[j].now
  }

  /** One call of the front: when it began and ended, and the attempts it made on the bucket. */
  datatype Call = Call(from: real, to: real, tries: seq<Try>)

  /** The mutex lets no two calls overlap. */
  ghost predicate CallsInOrder(b: Bucket, calls: seq<Call>) {
    && (forall i :: 0 <= i < |calls| ==>
          b.last <= calls[i].from <= calls[i].to && Between(calls[i].tries, calls[i].from, calls[i].to))
    && forall i, j :: 0 <= i < j < |calls| ==> calls[i].to <= calls[j].from
  }

  function AllTries(calls: seq<Call>): seq<Try> {
    if calls == [] then [] else AllTries(calls[..|calls| - 1]) + calls[|calls| - 1].tries
  }

  /** One more call after others extends their run in order and adds its grants. */
  lemma CallsJoin(b: Bucket, calls: seq<Call>, call: Call)
    requires CallsInOrder(b, calls) && b.last <= call.from <= call.to && Between(call.tries, call.from, call.to)
    requires calls != [] ==> calls[|calls| - 1].to <= call.from
    ensures CallsInOrder(b, calls + [call]) && AllTries(calls + [call]) == AllTries(calls) + call.tries
    ensures TotalGranted(b, AllTries(calls + [call]))
         == TotalGranted(b, AllTries(calls)) + TotalGranted(After(b, AllTries(calls)), call.tries)
    ensures After(b, AllTries(calls + [call])) == After(After(b, AllTries(calls)), call.tries)
  {
    hide *;
    OrderExtends(b, calls, call);
    TriesExtend(calls, call);
    SplitRun(b, AllTries(calls), call.tries);
  }

  lemma TriesExtend(calls: seq<Call>, call: Call)
    ensures AllTries(calls + [call]) == AllTries(calls) + call.tries
  {
    assert (calls + [call])[..|calls|] == calls;
  }

  lemma OrderExtends(b: Bucket, calls: seq<Call>, call: Call)
    requires CallsInOrder(b, calls) && b.last <= call.from <= call.to && Between(call.tries, call.from, call.to)
    requires calls != [] ==> calls[|calls| - 1].to <= call.from
    ensures CallsInOrder(b, calls + [call])
  {
    hide Between;
    var all := calls + [call];
    forall i, j | 0 <= i < j < |all|
      ensures all[i].to <= all[j].from
    {
      if j == |calls| && i < |calls| - 1 {
        assert calls[i].to <= calls[|calls| - 1].from <= calls[|calls| - 1].to;
      }
    }
  }

  /** All attempts of calls in order lie between the first call and the last. */
  lemma {:induction false} TriesBetween(b: Bucket, calls: seq<Call>)
    requires CallsInOrder(b, calls) && calls != []
    ensures Between(AllTries(calls), calls[0].from, calls[|calls| - 1].to)
    decreases |calls|
  {
    var k := |calls| - 1;
    if k == 0 {
      assert AllTries(calls[..0]) == [];
      assert AllTries(calls) == calls[0].tries;
    } else {
      TriesBetween(b, calls[..k]);
      assert calls[k - 1].to <= calls[k].from && calls[0].from <= calls[0].to <= calls[k].from;
    }
  }

  lemma {:induction false} TriesOfParts(calls: seq<Call>, more: seq<Call>)
    ensures AllTries(calls + more) == AllTries(calls) + AllTries(more)
    decreases |more|
  {
    if more == [] {
      assert calls + more == calls;
    } else {
      TriesOfParts(calls, more[..|more| - 1]);
      assert (calls + more)[..|calls + more| - 1] == calls + more[..|more| - 1];
    }
  }

  lemma OrderedBetween(b: Bucket, es: seq<Try>, from: real, to: real)
    requires Between(es, from, to) && b.last <= from
    ensures Ordered(b, es)
    ensures es != [] ==> from <= es[0].now && es[|es| - 1].now <= to
  {
  }

  lemma AccruedGrows(rate: real, a: real, b: real, c: real, d: real)
    requires 0.0 < rate && a <= b <= c <= d
    ensures 0.0 <= Accrued(rate, b, c) <= Accrued(rate, a, d)
  {
    assert 0.0 <= rate * (b - a) && 0.0 <= rate * (d - c) && 0.0 <= rate * (c - b);
    assert rate * (d - a) == rate * (b - a) + rate * (c - b) + rate * (d - c);
  }

  /**
   The rate bound at the front: over any consecutive calls, whoever makes them, no more is granted than
   one burst and the rate times the time from the first call's start to the last call's end.
   */
  lemma FrontRateBound(b: Bucket, calls: seq<Call>, lo: nat, hi: nat)
    requires b.Valid() && CallsInOrder(b, calls) && lo < hi <= |calls|
    ensures TotalGranted(b, AllTries(calls[..hi])) - TotalGranted(b, AllTries(calls[..lo]))
         <= b.burst + Accrued(b.rate, calls[lo].from, calls[hi - 1].to)
  {
    hide After, TotalGranted, Between, Accrued, AllTries, CallsInOrder, Ordered;
    var head, window := AllTries(calls[..lo]), AllTries(calls[lo..hi]);
    assert calls[..hi] == calls[..lo] + calls[lo..hi];
    TriesOfParts(calls[..lo], calls[lo..hi]);
    TriesOfStretch(b, calls, 0, hi);
    assert calls[0..hi] == calls[..hi];
    TriesOfStretch(b, calls, lo, hi);
    if window == [] {
      assert head + window == head;
      AccruedGrows(b.rate, calls[lo].from, calls[lo].from, calls[hi - 1].to, calls[hi - 1].to);
    } else {
      FrontWindow(b, head, window, calls[lo].from, calls[hi - 1].to);
    }
  }

  lemma TriesOfStretch(b: Bucket, calls: seq<Call>, lo: nat, hi: nat)
    requires CallsInOrder(b, calls) && lo < hi <= |calls|
    ensures Between(AllTries(calls[lo..hi]), calls[lo].from, calls[hi - 1].to) && calls[lo].from <= calls[hi - 1].to
    ensures Ordered(b, AllTries(calls[lo..hi]))
  {
    hide Between, Ordered, AllTries, CallsInOrder;
    StretchInOrder(b, calls, lo, hi);
    TriesBetween(b, calls[lo..hi]);
    OrderedBetween(b, AllTries(calls[lo..hi]), calls[lo].from, calls[hi - 1].to);
  }

  lemma StretchInOrder(b: Bucket, calls: seq<Call>, lo: nat, hi: nat)
    requires CallsInOrder(b, calls) && lo < hi <= |calls|
    ensures CallsInOrder(b, calls[lo..hi]) && b.last <= calls[lo].from <= calls[hi - 1].to
  {
    hide Between;
    assert calls[lo].from <= calls[lo].to && (lo < hi - 1 ==> calls[lo].to <= calls[hi - 1].from);
  }

  lemma FrontWindow(b: Bucket, head: seq<Try>, window: seq<Try>, from: real, to: real)
    requires b.Valid() && Ordered(b, head + window) && window != [] && Between(window, from, to)
    ensures TotalGranted(b, head + window) - TotalGranted(b, head) <= b.burst + Accrued(b.rate, from, to)
  {
    var es, lo := head + window, |head|;
    assert es[..lo] == head && es[..|es|] == es && es[lo] == window[0] && es[|es| - 1] == window[|window| - 1];
    assert window[0].now <= window[|window| - 1].now;
    hide After, TotalGranted, Ordered, Accrued;
    RateBound(b, es, lo, |es|);
    AccruedGrows(b.rate, from, window[0].now, window[|window| - 1].now, to);
  }

  // ---------------------------------------------------------------- the shared objects

  /** A monotone clock; sleeping takes at least as long as asked. */
  class Clock {
    var now: real
    ghost var asked: real // the time all sleeps so far were asked to last

    method Now() returns (t: real)
      modifies this
      ensures t == now >= old(now) && asked == old(asked)
    {
      t := *;
      if t < now {
        t := now;
      }
      now := t;
    }

    method Sleep(d: real)
      requires 0.0 <= d
      modifies this
      ensures old(now) + d <= now && asked == old(asked) + d
    {
      asked := asked + d;
      var extra: real := *;
      now := now + d + if extra > 0.0 then extra else 0.0;
    }
  }

  class IoBucket {
    const rate: real
    const burst: real
    var tokens: real
    var lastRefill: real

    constructor (maxMbps: real, now: real)
      requires 0.0 < maxMbps
      ensures View() == FullBucket(maxMbps, now) && View().Valid()
    {
      rate := maxMbps * 1000000.0;
      burst := maxMbps * 1000000.0 * 2.0;
      tokens := maxMbps * 1000000.0 * 2.0;
      lastRefill := now;
    }

    function View(): Bucket
      reads this
    {
      Bucket(rate, burst, tokens, lastRefill)
    }

    method Refill(now: real)
      modifies this
      ensures View() == old(View()).Refill(now)
    {
      var dt := now - lastRefill;
      if dt > 0.0 {
        var filled := tokens + rate * dt;
        tokens := if filled < burst then filled else burst;
        lastRefill := now;
      }
    }

    /**
     The acquire loop, followed for at most `rounds` attempts. It is the run `es` of the bucket; a
     need that fits the burst is granted by the third attempt, a larger one by none.
     */
    method Acquire(bytes: nat, clock: Clock, rounds: nat) returns (granted: bool, ghost es: seq<Try>)
      requires View().Valid() && lastRefill <= clock.now
      modifies this, clock
      ensures View() == After(old(View()), es) && View().Valid() && lastRefill <= clock.now
      ensures Between(es, old(clock.now), clock.now) && old(clock.now) <= clock.now && |es| <= rounds
      ensures TotalGranted(old(View()), es) == if granted then bytes as real else 0.0
      ensures bytes as real > burst ==> !granted
      ensures bytes == 0 || (bytes as real <= burst && 3 <= rounds) ==> granted
      ensures granted ==> |es| <= 3
      ensures (forall e :: e in es ==> e.need == bytes as real) && (granted && bytes > 0 ==> es != [])
      ensures clock.asked == old(clock.asked) + Slept(old(View()), es)
    {
      hide Bucket.Attempt, Bucket.Granted, Bucket.Refill, Wait, Accrued, After, TotalGranted, Between, Slept;
      ghost var start := View();
      es := [];
      NoTries(start, clock.now);
      NoSleep(start);
      var need := bytes as real;
      if need <= 0.0 {
        return true, es;
      }
      var round := 0;
      while round < rounds
        invariant 0 <= round == |es| <= rounds
        invariant View() == After(start, es) && View().Valid() && lastRefill <= clock.now && old(clock.now) <= clock.now
        invariant Between(es, old(clock.now), clock.now)
        invariant TotalGranted(start, es) == 0.0
        invariant forall e :: e in es ==> e.need == need
        invariant clock.asked == old(clock.asked) + Slept(start, es)
        invariant 1 <= round ==> tokens < need && lastRefill + Wait(need - tokens, rate) <= clock.now
        invariant 2 <= round && need <= burst ==> need - tokens <= rate
        invariant 3 <= round ==> need > burst
      {
        ghost var before := View();
        var now := clock.Now();
        ghost var e := Try(now, need);
        TryOutcome(start, es, e, old(clock.now));
        SleptStep(start, es, e);
        if 1 <= round && need <= burst {
          SleepHelps(before, need, now);
        }
        Refill(now);
        es := es + [e];
        if tokens >= need {
          tokens := tokens - need;
          return true, es;
        }
        var deficit := need - tokens;
        var waitSecs := deficit / rate;
        WaitPositive(deficit, rate);
        clock.Sleep(if waitSecs < 1.0 then waitSecs else 1.0);
        LaterBound(es, old(clock.now), now, clock.now);
        round := round + 1;
      }
      return false, es;
    }
  }

  lemma NoTries(b: Bucket, now: real)
    ensures After(b, []) == b && TotalGranted(b, []) == 0.0 && Between([], now, now)
  {
  }

  lemma NoSleep(b: Bucket)
    requires 0.0 < b.rate
    ensures Slept(b, []) == 0.0
  {
  }

  lemma WaitPositive(deficit: real, rate: real)
    requires 0.0 < rate && 0.0 < deficit
    ensures 0.0 < deficit / rate && Wait(deficit, rate) == if deficit / rate < 1.0 then deficit / rate else 1.0
  {
  }

  lemma LaterBound(es: seq<Try>, from: real, to: real, later: real)
    requires Between(es, from, to) && to <= later
    ensures Between(es, from, later)
  {
  }

  /** One more attempt on a bucket that has been through `es`. */
  lemma TryOutcome(b: Bucket, es: seq<Try>, e: Try, from: real)
    requires After(b, es).Valid() && After(b, es).last <= e.now && from <= e.now && 0.0 <= e.need
    requires exists t :: t <= e.now && Between(es, from, t)
    ensures
      var r := After(b, es).Refill(e.now);
      && r.Valid() && r.last == e.now && r.rate == After(b, es).rate && r.burst == After(b, es).burst
      && Between(es + [e], from, e.now)
      && (if r.tokens >= e.need then
            && After(b, es + [e]) == r.(tokens := r.tokens - e.need)
            && TotalGranted(b, es + [e]) == TotalGranted(b, es) + e.need
          else
            After(b, es + [e]) == r && TotalGranted(b, es + [e]) == TotalGranted(b, es))
  {
    hide *;
    AttemptOutcome(After(b, es), e);
    AfterLast(b, es, e);
    BetweenExtends(es, e, from);
  }

  lemma AttemptOutcome(b: Bucket, e: Try)
    requires b.Valid() && b.last <= e.now && 0.0 <= e.need
    ensures
      var r := b.Refill(e.now);
      && r.Valid() && r.last == e.now && r.rate == b.rate && r.burst == b.burst
      && (if r.tokens >= e.need then b.Attempt(e) == r.(tokens := r.tokens - e.need) && b.Granted(e) == e.need
          else b.Attempt(e) == r && b.Granted(e) == 0.0)
  {
    hide Accrued;
    AccruedAdds(b.rate, b.last, e.now, e.now);
  }

  lemma AfterLast(b: Bucket, es: seq<Try>, e: Try)
    ensures After(b, es + [e]) == After(b, es).Attempt(e)
    ensures TotalGranted(b, es + [e]) == TotalGranted(b, es) + After(b, es).Granted(e)
  {
    assert (es + [e])[..|es|] == es;
  }

  lemma BetweenExtends(es: seq<Try>, e: Try, from: real)
    requires from <= e.now && 0.0 <= e.need && exists t :: t <= e.now && Between(es, from, t)
    ensures Between(es + [e], from, e.now)
  {
  }

  /** The mutex-protected front: bytes are collected and charged to the bucket in batches. */
  class ResourceLimits {
    const io: IoBucket?
    var ioPending: nat
    ghost var accounted: nat
    ghost var granted: nat
    ghost var saturated: nat // bytes lost to the saturating addition

    constructor (io: IoBucket?)
      ensures this.io == io && ioPending == 0 && accounted == granted == saturated == 0
    {
      this.io := io;
      ioPending := 0;
      accounted, granted, saturated := 0, 0, 0;
    }

    /** Between calls less than one batch is pending, and with a bucket every accounted byte is granted or pending. */
    ghost predicate Valid()
      reads this, io
    {
      && ioPending < IO_BATCH_BYTES
      && (io != null ==> io.View().Valid() && accounted == granted + ioPending + saturated)
    }

    /** `pending.saturating_add(bytes)` */
    static function SaturatingAdd(pending: nat, bytes: nat): nat {
      if pending + bytes < U64_MAX then pending + bytes else U64_MAX
    }

    /** Charges everything pending; without a bucket the pending bytes are simply dropped. */
    method Charge(clock: Clock, rounds: nat) returns (done: bool, ghost es: seq<Try>)
      requires io != null ==> io.View().Valid() && io.lastRefill <= clock.now
      modifies this, io, clock
      ensures ioPending == 0 && accounted == old(accounted) && saturated == old(saturated)
      ensures io != null ==>
                && io.View() == After(old(io.View()), es) && io.View().Valid() && io.lastRefill <= clock.now
                && Between(es, old(clock.now), clock.now)
                && granted == old(granted) + (if done then old(ioPending) else 0)
                && TotalGranted(old(io.View()), es) == (granted - old(granted)) as real
                && (old(ioPending) as real > io.burst ==> !done)
                && (old(ioPending) == 0 || (old(ioPending) as real <= io.burst && 3 <= rounds) ==> done)
      ensures io == null ==> done && granted == old(granted)
      ensures old(clock.now) <= clock.now
    {
      hide After, TotalGranted, Between, Bucket.Valid;
      var pending := ioPending;
      ioPending := 0;
      es := [];
      done := true;
      if io != null {
        done, es := io.Acquire(pending, clock, rounds);
        if done {
          granted := granted + pending;
        }
      }
    }

    /** `done` is false only while the bucket still refuses after `rounds` attempts. */
    method AcquireIo(bytes: nat, clock: Clock, rounds: nat) returns (done: bool, ghost es: seq<Try>)
      requires Valid() && (io != null ==> io.lastRefill <= clock.now)
      modifies this, io, clock
      ensures accounted == old(accounted) + bytes && old(clock.now) <= clock.now
      ensures (done ==> Valid()) && (io == null ==> done)
      ensures saturated == old(saturated) + (old(ioPending) + bytes - SaturatingAdd(old(ioPending), bytes))
      ensures io != null ==>
                && io.View() == After(old(io.View()), es) && io.View().Valid() && io.lastRefill <= clock.now
                && Between(es, old(clock.now), clock.now)
                && TotalGranted(old(io.View()), es) == (granted - old(granted)) as real
      ensures old(ioPending) + bytes < IO_BATCH_BYTES ==>
                done && ioPending == old(ioPending) + bytes && granted == old(granted)
      ensures IO_BATCH_BYTES <= old(ioPending) + bytes ==> ioPending == 0
      ensures io != null && IO_BATCH_BYTES <= old(ioPending) + bytes ==>
                var fits := SaturatingAdd(old(ioPending), bytes) as real <= io.burst;
                (done ==> fits) && (3 <= rounds && fits ==> done)
    {
      hide After, TotalGranted, Between, Bucket.Valid;
      es := [];
      if io != null {
        NoTries(io.View(), clock.now);
      }
      if bytes == 0 {
        return true, es;
      }
      accounted := accounted + bytes;
      saturated := saturated + (ioPending + bytes - SaturatingAdd(ioPending, bytes));
      ioPending := SaturatingAdd(ioPending, bytes);
      done := true;
      if ioPending >= IO_BATCH_BYTES {
        done, es := Charge(clock, rounds);
      }
    }

    method FlushIo(clock: Clock, rounds: nat) returns (done: bool, ghost es: seq<Try>)
      requires Valid() && (io != null ==> io.lastRefill <= clock.now)
      modifies this, io, clock
      ensures accounted == old(accounted) && saturated == old(saturated)
      ensures ioPending == 0 && old(clock.now) <= clock.now
      ensures (done ==> Valid() && (io != null ==> accounted == granted + saturated)) && (io == null ==> done)
      ensures io != null ==>
                && io.View() == After(old(io.View()), es) && io.View().Valid() && io.lastRefill <= clock.now
                && Between(es, old(clock.now), clock.now)
                && TotalGranted(old(io.View()), es) == (granted - old(granted)) as real
      ensures io != null ==>
                var fits := old(ioPending) as real <= io.burst;
                (done ==> fits) && (3 <= rounds && fits ==> done)
    {
      hide After, TotalGranted, Between;
      es := [];
      done := true;
      if io != null {
        NoTries(io.View(), clock.now);
      }
      if ioPending > 0 {
        done, es := Charge(clock, rounds);
      }
    }
  }

  // ---------------------------------------------------------------- all workers together

  datatype Request = Acquire(bytes: nat) | Flush

  function Asked(request: Request): nat {
    match request
    case Acquire(bytes) => bytes
    case Flush => 0
  }

  function Requested(requests: seq<Request>): nat {
    if requests == [] then 0 else Requested(requests[..|requests| - 1]) + Asked(requests[|requests| - 1])
  }

  lemma RequestedStep(requests: seq<Request>, k: nat)
    requires k < |requests|
    ensures Requested(requests[..k + 1]) == Requested(requests[..k]) + Asked(requests[k])
  {
    assert requests[..k + 1][..k] == requests[..k];
  }

  lemma {:induction false} RequestedCovers(requests: seq<Request>, k: nat)
    requires k <= |requests|
    ensures Requested(requests[..k]) <= Requested(requests)
    decreases |requests| - k
  {
    if k == |requests| {
      assert requests[..k] == requests;
    } else {
      RequestedStep(requests, k);
      RequestedCovers(requests, k + 1);
    }
  }

  /** Every batch that `requests` make of what is `pending` and of their own bytes fits the burst. */
  predicate AllFit(pending: nat, requests: seq<Request>, burst: real)
    decreases |requests|
  {
    if requests == [] then true
    else
      match requests[0]
      case Flush => pending as real <= burst && AllFit(0, requests[1..], burst)
      case Acquire(bytes) =>
        var total := ResourceLimits.SaturatingAdd(pending, bytes);
        if total < IO_BATCH_BYTES then AllFit(total, requests[1..], burst)
        else total as real <= burst && AllFit(0, requests[1..], burst)
  }

  /** A burst with room for the largest request on top of an almost full batch lets everything through. */
  lemma {:induction false} SmallRequestsFit(pending: nat, requests: seq<Request>, burst: real, largest: nat)
    requires pending < IO_BATCH_BYTES
    requires forall i :: 0 <= i < |requests| && requests[i].Acquire? ==> requests[i].bytes <= largest
    requires (IO_BATCH_BYTES - 1 + largest) as real <= burst
    ensures AllFit(pending, requests, burst)
    decreases |requests|
  {
    if requests != [] {
      var total := if requests[0].Acquire? then ResourceLimits.SaturatingAdd(pending, requests[0].bytes) else 0;
      SmallRequestsFit(if total < IO_BATCH_BYTES then total else 0, requests[1..], burst, largest);
    }
  }

  /** Pending bytes never exceed the largest u64, and below it none is lost. */
  lemma SaturatesExactly(pending: nat, bytes: nat)
    ensures ResourceLimits.SaturatingAdd(pending, bytes)
         == if pending + bytes <= 18446744073709551615 then pending + bytes else 18446744073709551615
  {
  }

  /** One request that is a batch by itself and above the burst is enough to stop the rest. */
  lemma {:induction false} LargeRequestStalls(pending: nat, requests: seq<Request>, burst: real, k: nat)
    requires k < |requests| && requests[k].Acquire? && IO_BATCH_BYTES <= requests[k].bytes <= U64_MAX
    requires burst < requests[k].bytes as real
    ensures !AllFit(pending, requests, burst)
    decreases |requests|
  {
    if k > 0 {
      var total := if requests[0].Acquire? then ResourceLimits.SaturatingAdd(pending, requests[0].bytes) else 0;
      LargeRequestStalls(if total < IO_BATCH_BYTES then total else 0, requests[1..], burst, k - 1);
    }
  }

  lemma FitStep(pending: nat, requests: seq<Request>, k: nat, burst: real)
    requires k < |requests|
    ensures AllFit(pending, requests[k..], burst) <==>
              match requests[k]
              case Flush => pending as real <= burst && AllFit(0, requests[k + 1..], burst)
              case Acquire(bytes) =>
                var total := ResourceLimits.SaturatingAdd(pending, bytes);
                if total < IO_BATCH_BYTES then AllFit(total, requests[k + 1..], burst)
                else total as real <= burst && AllFit(0, requests[k + 1..], burst)
  {
    assert requests[k..][1..] == requests[k + 1..];
  }

  /**
   The calls of all workers as the mutex lets them in: any requests in any order, with any pauses. The
   bucket sees one run of calls in order, so `FrontRateBound` holds for every stretch of it.
   With three rounds for each batch all of them are served exactly when every batch fits the burst.
   */
  method Serve(limits: ResourceLimits, clock: Clock, requests: seq<Request>, rounds: nat)
    returns (done: bool, ghost calls: seq<Call>)
    requires limits.Valid() && (limits.io != null ==> limits.io.lastRefill <= clock.now)
    modifies limits, limits.io, clock
    ensures done ==> limits.Valid() && |calls| == |requests|
    ensures done ==> limits.accounted == old(limits.accounted) + Requested(requests)
    ensures done && requests != [] && requests[|requests| - 1] == Flush ==> limits.ioPending == 0
    ensures IO_BATCH_BYTES + Requested(requests) <= U64_MAX ==> limits.saturated == old(limits.saturated)
    ensures limits.io != null ==>
              && CallsInOrder(old(limits.io.View()), calls)
              && limits.io.View() == After(old(limits.io.View()), AllTries(calls))
              && TotalGranted(old(limits.io.View()), AllTries(calls)) == (limits.granted - old(limits.granted)) as real
              && (done ==> AllFit(old(limits.ioPending), requests, limits.io.burst))
              && (3 <= rounds && AllFit(old(limits.ioPending), requests, limits.io.burst) ==> done)
    ensures limits.io == null ==> done
  {
    hide After, TotalGranted, Between, CallsInOrder, AllTries, Requested, Bucket.Valid, AllFit;
    calls := [];
    done := true;
    ghost var granted := limits.granted;
    ghost var start := if limits.io == null then Bucket(1.0, 2.0, 2.0, 0.0) else limits.io.View();
    NoCalls(start);
    assert requests[0..] == requests;
    for k := 0 to |requests|
      invariant done && limits.Valid() && |calls| == k
      invariant limits.accounted == old(limits.accounted) + Requested(requests[..k])
      invariant 0 < k && requests[k - 1] == Flush ==> limits.ioPending == 0
      invariant IO_BATCH_BYTES + Requested(requests) <= U64_MAX ==> limits.saturated == old(limits.saturated)
      invariant limits.io != null ==>
                  && limits.io.lastRefill <= clock.now && start.last <= clock.now
                  && CallsInOrder(start, calls) && (k > 0 ==> calls[k - 1].to <= clock.now)
                  && limits.io.View() == After(start, AllTries(calls))
                  && TotalGranted(start, AllTries(calls)) == (limits.granted - granted) as real
                  && (AllFit(old(limits.ioPending), requests, limits.io.burst) <==>
                        AllFit(limits.ioPending, requests[k..], limits.io.burst))
    {
      var pause: real := *;
      clock.Sleep(if pause > 0.0 then pause else 0.0);
      ghost var from := clock.now;
      RequestedStep(requests, k);
      RequestedCovers(requests, k + 1);
      if limits.io != null {
        FitStep(limits.ioPending, requests, k, limits.io.burst);
      }
      ghost var tries: seq<Try>;
      match requests[k] {
        case Acquire(bytes) => done, tries := limits.AcquireIo(bytes, clock, rounds);
        case Flush => done, tries := limits.FlushIo(clock, rounds);
      }
      if limits.io != null {
        CallsJoin(start, calls, Call(from, clock.now, tries));
      }
      calls := calls + [Call(from, clock.now, tries)];
      if !done {
        return;
      }
    }
    assert requests[..|requests|] == requests;
    NothingLeft(limits.ioPending, requests[|requests|..], if limits.io == null then 0.0 else limits.io.burst);
  }

  lemma NothingLeft(pending: nat, requests: seq<Request>, burst: real)
    requires requests == []
    ensures AllFit(pending, requests, burst)
  {
  }

  lemma NoCalls(b: Bucket)
    ensures CallsInOrder(b, []) && AllTries([]) == [] && Requested([]) == 0
    ensures After(b, []) == b && TotalGranted(b, []) == 0.0
  {
  }
}
