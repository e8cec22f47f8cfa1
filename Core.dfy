/** The sequence helpers of wulib/core.py: `take`, `ichunks`, `chunks`, `unique`, `anyp`,
    `frequency` and `fuckunicode`. Iterables are modelled as finite sequences and
    generators as the list of everything they yield. */
module Core {
  import opened Wrappers
  import opened Seqs

  function Min(a: int, b: int): int {
    if a <= b then a else b
  }

  /** `chunks[0] + chunks[1] + ...` */
  function Flatten<T>(chunks: seq<seq<T>>): seq<T> {
    if chunks == [] then [] else chunks[0] + Flatten(chunks[1..])
  }

  // ---------------------------------------------------------------------------
  // take

  /** `take(n, iterable)`: `list(islice(iterable, n))`, which consumes items one at a
      time until it has `n` of them or the iterable is exhausted. */
  function Take<T>(n: nat, xs: seq<T>): (r: seq<T>)
    ensures r == xs[..Min(n, |xs|)]
  {
    if n == 0 || xs == [] then []
    else
      var rest := Take(n - 1, xs[1..]);
      assert [xs[0]] + xs[1..][..Min(n - 1, |xs| - 1)] == xs[..Min(n, |xs|)];
      [xs[0]] + rest
  }

  // ---------------------------------------------------------------------------
  // chunks

  /** Python's reading of a slice bound `i` on a list of length `len`: a negative bound
      counts from the end, and the result is clamped to `0..len`. */
  function SliceIndex(i: int, len: nat): (r: nat)
    ensures r <= len
  {
    if i < 0 then (if i + len < 0 then 0 else i + len) else Min(i, len)
  }

  /** `l[start:stop]`. */
  function Slice<T>(l: seq<T>, start: int, stop: int): (r: seq<T>)
    ensures 0 <= start <= stop ==> r == l[Min(start, |l|)..Min(stop, |l|)]
  {
    var a := SliceIndex(start, |l|);
    var b := SliceIndex(stop, |l|);
    if a < b then l[a..b] else []
  }

  /** What `for i in range(start, len(l), step): yield l[i:i+n]` yields. */
  function Windows<T>(l: seq<T>, n: int, step: nat, start: nat): seq<seq<T>>
    requires step >= 1
    decreases |l| - start
  {
    if start >= |l| then [] else [Slice(l, start, start + n)] + Windows(l, n, step, start + step)
  }

  /** Where the `k`-th window from `start` begins. */
  function Offset(start: nat, step: nat, k: nat): nat
    decreases k
  {
    if k == 0 then start else Offset(start + step, step, k - 1)
  }

  /** The `k`-th window begins `k` steps after `start`. */
  lemma {:induction false} OffsetIsProduct(start: nat, step: nat, k: nat)
    ensures Offset(start, step, k) == start + k * step
    decreases k
  {
    if k > 0 {
      OffsetIsProduct(start + step, step, k - 1);
      assert step + (k - 1) * step == k * step;
    }
  }

  /** The `k`-th window is the slice of size `n` at its offset. */
  lemma {:induction false} WindowsAt<T>(l: seq<T>, n: int, step: nat, start: nat, k: nat)
    requires step >= 1 && k < |Windows(l, n, step, start)|
    ensures Windows(l, n, step, start)[k] ==
              Slice(l, Offset(start, step, k), Offset(start, step, k) + n)
    decreases |l| - start
  {
    if k > 0 {
      WindowsAt(l, n, step, start + step, k - 1);
    }
  }

  /** There is one window per start below `len(l)`: `c` windows where `c` is the least
      count whose `c` steps reach `len(l)`. */
  lemma {:induction false} WindowsCount<T>(l: seq<T>, n: int, step: nat, start: nat)
    requires step >= 1
    ensures var c := |Windows(l, n, step, start)|;
            start + c * step >= |l| && (c == 0 || start + (c - 1) * step < |l|)
    decreases |l| - start
  {
    if start < |l| {
      WindowsCount(l, n, step, start + step);
      var c := |Windows(l, n, step, start + step)|;
      assert (c + 1) * step == c * step + step;
      assert c == 0 || (c - 1) * step + step == c * step;
    }
  }

  /** The window `range` steps by: `slide`, or `n` when `slide is None`. */
  function Step(n: int, slide: Option<int>): int {
    if slide.None? then n else slide.value
  }

  /** `range()` refuses a zero step. */
  datatype RangeError = ZeroStep

  /** `chunks(l, n, slide)`: the slices `l[k*step : k*step+n]` for every `k >= 0` with
      `k*step < len(l)`; a zero step raises `ValueError` and a negative step makes the range
      empty. */
  function Chunks<T>(l: seq<T>, n: int, slide: Option<int>): (r: Result<seq<seq<T>>, RangeError>)
    ensures r.Failure? <==> Step(n, slide) == 0
    ensures Step(n, slide) < 0 ==> r == Success([])
    ensures Step(n, slide) > 0 ==>
              && r.Success?
              && |r.value| * Step(n, slide) >= |l|
              && (r.value == [] || (|r.value| - 1) * Step(n, slide) < |l|)
              && forall k :: 0 <= k < |r.value| ==>
                   r.value[k] == Slice(l, k * Step(n, slide), k * Step(n, slide) + n)
  {
    var step := Step(n, slide);
    if step == 0 then Failure(ZeroStep)
    else if step < 0 then Success([])
    else
      var c := Windows(l, n, step, 0);
      WindowsCount(l, n, step, 0);
      assert forall k :: 0 <= k < |c| ==> c[k] == Slice(l, k * step, k * step + n) by {
        forall k | 0 <= k < |c|
          ensures c[k] == Slice(l, k * step, k * step + n)
        {
          WindowsAt(l, n, step, 0, k);
          OffsetIsProduct(0, step, k);
        }
      }
      Success(c)
  }

  /** With the step equal to the size, the windows from `start` concatenate to
      `l[start..]`. */
  lemma {:induction false} WindowsFlatten<T>(l: seq<T>, n: nat, start: nat)
    requires n >= 1 && start <= |l|
    ensures Flatten(Windows(l, n, n, start)) == l[start..]
    decreases |l| - start
  {
    if start < |l| {
      var next := Min(start + n, |l|);
      var w := Windows(l, n, n, next);
      WindowsStep(l, n, start);
      WindowsFlatten(l, n, next);
      assert ([l[start..next]] + w)[1..] == w;
      assert l[start..] == l[start..next] + l[next..];
    }
  }

  /** With the step equal to the size, the windows from `start` are non-empty pieces of
      at most `n` items, all but the last of exactly `n`. */
  lemma {:induction false} WindowsSizes<T>(l: seq<T>, n: nat, start: nat)
    requires n >= 1 && start <= |l|
    ensures var w := Windows(l, n, n, start);
            (forall k :: 0 <= k < |w| ==> 1 <= |w[k]| <= n) &&
            (forall k :: 0 <= k < |w| - 1 ==> |w[k]| == n)
    decreases |l| - start
  {
    if start < |l| {
      var next := Min(start + n, |l|);
      var w := Windows(l, n, n, next);
      WindowsStep(l, n, start);
      WindowsSizes(l, n, next);
      assert forall k :: 1 <= k < |w| + 1 ==> ([l[start..next]] + w)[k] == w[k - 1];
      assert w != [] ==> next == start + n;
    }
  }

  /** `chunks(l, n)` with the default slide: non-overlapping pieces that concatenate to
      `l`, `ceil(len(l) / n)` of them, each of `n` items except the last, which has 1 to
      `n`. */
  lemma ChunksPartition<T>(l: seq<T>, n: int)
    requires n >= 1
    ensures Chunks(l, n, None).Success?
    ensures var c := Chunks(l, n, None).value;
            && Flatten(c) == l
            && |c| * n >= |l| && (c == [] || (|c| - 1) * n < |l|)
            && (forall k :: 0 <= k < |c| ==> 1 <= |c[k]| <= n)
            && (forall k :: 0 <= k < |c| - 1 ==> |c[k]| == n)
  {
    WindowsFlatten(l, n, 0);
    WindowsSizes(l, n, 0);
  }

  // ---------------------------------------------------------------------------
  // ichunks

  /** `take(n, ...)` on an iterator already advanced to `start`. */
  lemma TakeFrom<T>(l: seq<T>, n: nat, start: nat)
    requires start <= |l|
    ensures Take(n, l[start..]) == l[start..Min(start + n, |l|)]
  {
  }

  /** The first window of size and step `n` from `start` is the next `take(n, ...)`. */
  lemma WindowsStep<T>(l: seq<T>, n: nat, start: nat)
    requires n >= 1 && start < |l|
    ensures Windows(l, n, n, start) ==
              [l[start..Min(start + n, |l|)]] + Windows(l, n, n, Min(start + n, |l|))
  {
    if start + n > |l| {
      assert Windows(l, n, n, start + n) == [] == Windows(l, n, n, |l|);
    }
  }

  /** `ichunks(l, n)`: take `n` items at a time from one iterator until a `take` comes
      back empty. With `n == 0` the first `take` is already empty; otherwise the chunks
      are those of `chunks(l, n)`. */
  method IChunks<T>(l: seq<T>, n: nat) returns (chunks: seq<seq<T>>)
    ensures n == 0 ==> chunks == []
    ensures n >= 1 ==> Chunks(l, n, None) == Success(chunks)
  {
    chunks := [];
    var pos := 0;
    ghost var start := 0;
    TakeFrom(l, n, pos);
    var chunk := Take(n, l[pos..]);
    pos := pos + |chunk|;
    while chunk != []
      invariant start <= pos <= |l|
      invariant pos == Min(start + n, |l|) && chunk == l[start..pos]
      invariant n >= 1 ==> chunks + Windows(l, n, n, start) == Windows(l, n, n, 0)
      invariant n == 0 ==> chunks == []
      decreases |l| - start
    {
      if n >= 1 {
        ChunksStep(l, n, chunks, start);
      }
      chunks := chunks + [chunk];
      start := pos;
      TakeFrom(l, n, pos);
      chunk := Take(n, l[pos..]);
      pos := pos + |chunk|;
    }
    if n >= 1 {
      assert start == |l|;
      assert chunks == Windows(l, n, n, 0);
      ChunksAreWindows(l, n);
    }
  }

  /** One more `take` moves the next window from the pending ones to the yielded ones. */
  lemma ChunksStep<T>(l: seq<T>, n: nat, chunks: seq<seq<T>>, start: nat)
    requires n >= 1 && start < |l|
    requires chunks + Windows(l, n, n, start) == Windows(l, n, n, 0)
    ensures var next := Min(start + n, |l|);
            (chunks + [l[start..next]]) + Windows(l, n, n, next) == Windows(l, n, n, 0)
  {
    var next := Min(start + n, |l|);
    WindowsStep(l, n, start);
    assert (chunks + [l[start..next]]) + Windows(l, n, n, next) ==
           chunks + ([l[start..next]] + Windows(l, n, n, next));
  }

  /** With the default slide, `chunks` yields the windows of size and step `n`. */
  lemma ChunksAreWindows<T>(l: seq<T>, n: nat)
    requires n >= 1
    ensures Chunks(l, n, None) == Success(Windows(l, n, n, 0))
  {
  }

  // ---------------------------------------------------------------------------
  // unique

  /** The keys of the items in `xs`. */
  ghost function Keys<T, K>(xs: seq<T>, key: T -> K): set<K> {
    set i | 0 <= i < |xs| :: key(xs[i])
  }

  /** The items of `xs` whose key is neither in `seen` nor the key of an earlier item:
      what `unique` yields once `seen` holds the keys met so far. */
  function FirstOfEach<T, K(==)>(xs: seq<T>, key: T -> K, seen: set<K>): seq<T> {
    if xs == [] then []
    else if key(xs[0]) in seen then FirstOfEach(xs[1..], key, seen)
    else [xs[0]] + FirstOfEach(xs[1..], key, seen + {key(xs[0])})
  }

  /** `a` is `b` with some items removed, the rest in their order. */
  ghost predicate IsSubseq<T>(a: seq<T>, b: seq<T>) {
    if a == [] then true
    else if b == [] then false
    else if a[0] == b[0] then IsSubseq(a[1..], b[1..])
    else IsSubseq(a, b[1..])
  }

  /** The identity, the key `unique` uses when none is given. */
  function Identity<T>(x: T): T {
    x
  }

  /** An item is yielded exactly when its key was not met before: appending an item to
      the input appends it to the output iff its key is new. */
  lemma {:induction false} FirstOfEachSnoc<T, K>(xs: seq<T>, x: T, key: T -> K, seen: set<K>)
    ensures FirstOfEach(xs + [x], key, seen) ==
            FirstOfEach(xs, key, seen) + (if key(x) in seen + Keys(xs, key) then [] else [x])
  {
    if xs == [] {
      assert Keys(xs, key) == {};
    } else {
      assert (xs + [x])[1..] == xs[1..] + [x];
      var next := if key(xs[0]) in seen then seen else seen + {key(xs[0])};
      FirstOfEachSnoc(xs[1..], x, key, next);
      assert Keys(xs, key) == {key(xs[0])} + Keys(xs[1..], key) by {
        forall k | k in Keys(xs, key)
          ensures k in {key(xs[0])} + Keys(xs[1..], key)
        {
          var i :| 0 <= i < |xs| && key(xs[i]) == k;
          if i > 0 {
            assert xs[1..][i - 1] == xs[i];
          }
        }
        forall k | k in Keys(xs[1..], key)
          ensures k in Keys(xs, key)
        {
          var i :| 0 <= i < |xs[1..]| && key(xs[1..][i]) == k;
          assert xs[i + 1] == xs[1..][i];
        }
      }
    }
  }

  /** One step of `unique`: the item is yielded when its key is new. */
  lemma FirstOfEachCons<T, K>(xs: seq<T>, key: T -> K, seen: set<K>)
    requires xs != []
    ensures FirstOfEach(xs, key, seen) ==
            if key(xs[0]) in seen then FirstOfEach(xs[1..], key, seen)
            else [xs[0]] + FirstOfEach(xs[1..], key, seen + {key(xs[0])})
  {
  }

  /** No two yielded items share a key, and none has a key already in `seen`. */
  lemma {:induction false} FirstOfEachDistinct<T, K>(xs: seq<T>, key: T -> K, seen: set<K>)
    ensures forall a :: 0 <= a < |FirstOfEach(xs, key, seen)| ==> key(FirstOfEach(xs, key, seen)[a]) !in seen
    ensures forall a, b :: 0 <= a < b < |FirstOfEach(xs, key, seen)| ==>
              key(FirstOfEach(xs, key, seen)[a]) != key(FirstOfEach(xs, key, seen)[b])
  {
    if xs != [] {
      if key(xs[0]) in seen {
        FirstOfEachDistinct(xs[1..], key, seen);
        assert FirstOfEach(xs, key, seen) == FirstOfEach(xs[1..], key, seen);
      } else {
        var next := seen + {key(xs[0])};
        FirstOfEachDistinct(xs[1..], key, next);
        var rest := FirstOfEach(xs[1..], key, next);
        var r := FirstOfEach(xs, key, seen);
        assert r == [xs[0]] + rest;
        forall a, b | 0 <= a < b < |r|
          ensures key(r[a]) != key(r[b])
        {
          assert r[b] == rest[b - 1];
          if a > 0 {
            assert r[a] == rest[a - 1];
          }
        }
      }
    }
  }

  /** Every key of the input outside `seen` is the key of a yielded item. */
  lemma {:induction false} FirstOfEachCovers<T, K>(xs: seq<T>, key: T -> K, seen: set<K>)
    ensures seen + Keys(FirstOfEach(xs, key, seen), key) == seen + Keys(xs, key)
  {
    if xs != [] {
      var next := if key(xs[0]) in seen then seen else seen + {key(xs[0])};
      FirstOfEachCovers(xs[1..], key, next);
      var r := FirstOfEach(xs, key, seen);
      var rest := FirstOfEach(xs[1..], key, next);
      KeysCons(xs, key);
      if key(xs[0]) !in seen {
        assert r == [xs[0]] + rest;
        KeysCons(r, key);
        assert r[1..] == rest;
      }
    }
  }

  /** The keys of a non-empty sequence: the first item's and the rest's. */
  lemma KeysCons<T, K>(xs: seq<T>, key: T -> K)
    requires xs != []
    ensures Keys(xs, key) == {key(xs[0])} + Keys(xs[1..], key)
  {
    forall k | k in Keys(xs, key)
      ensures k in {key(xs[0])} + Keys(xs[1..], key)
    {
      var i :| 0 <= i < |xs| && key(xs[i]) == k;
      if i > 0 {
        assert xs[1..][i - 1] == xs[i];
      }
    }
    forall k | k in Keys(xs[1..], key)
      ensures k in Keys(xs, key)
    {
      var i :| 0 <= i < |xs[1..]| && key(xs[1..][i]) == k;
      assert xs[i + 1] == xs[1..][i];
    }
  }

  /** The yielded items appear in the input, in input order. */
  lemma {:induction false} FirstOfEachSubseq<T, K>(xs: seq<T>, key: T -> K, seen: set<K>)
    ensures IsSubseq(FirstOfEach(xs, key, seen), xs)
  {
    if xs != [] {
      var next := if key(xs[0]) in seen then seen else seen + {key(xs[0])};
      FirstOfEachSubseq(xs[1..], key, next);
      if key(xs[0]) in seen {
        SubseqOfTail(FirstOfEach(xs[1..], key, seen), xs);
      } else {
        assert ([xs[0]] + FirstOfEach(xs[1..], key, next))[1..] == FirstOfEach(xs[1..], key, next);
      }
    }
  }

  /** A subsequence of the tail is a subsequence of the whole. */
  lemma {:induction false} SubseqOfTail<T>(a: seq<T>, b: seq<T>)
    requires b != [] && IsSubseq(a, b[1..])
    ensures IsSubseq(a, b)
    decreases |b|
  {
    if a != [] && a[0] == b[0] {
      SubseqDropHead(a, b[1..]);
      SubseqOfTail(a[1..], b[1..]);
    }
  }

  /** Dropping the first item of a subsequence keeps it a subsequence. */
  lemma {:induction false} SubseqDropHead<T>(a: seq<T>, b: seq<T>)
    requires a != [] && IsSubseq(a, b)
    ensures IsSubseq(a[1..], b[1..])
    decreases |b|
  {
    if a[0] != b[0] {
      SubseqDropHead(a, b[1..]);
      SubseqOfTail(a[1..], b[1..]);
    }
  }

  /** `unique(iterable, key)`: loop over the items, yielding an item and adding its key
      to `seen` when the key is not there yet. */
  method UniqueBy<T, K(==)>(xs: seq<T>, key: T -> K) returns (out: seq<T>)
    ensures out == FirstOfEach(xs, key, {})
  {
    var seen: set<K> := {};
    out := [];
    var i := 0;
    while i < |xs|
      invariant 0 <= i <= |xs|
      invariant out + FirstOfEach(xs[i..], key, seen) == FirstOfEach(xs, key, {})
    {
      var k := key(xs[i]);
      assert xs[i..][1..] == xs[i + 1..];
      if k !in seen {
        seen := seen + {k};
        out := out + [xs[i]];
      }
      i := i + 1;
    }
  }

  /** `unique(iterable)` without a key: `filterfalse(seen.__contains__, iterable)` tests each
      item against the `seen` set as it stands after the items before it. */
  method Unique<T(==)>(xs: seq<T>) returns (out: seq<T>)
    ensures out == FirstOfEach(xs, Identity, {})
  {
    var seen: set<T> := {};
    out := [];
    var i := 0;
    while i < |xs|
      invariant 0 <= i <= |xs|
      invariant out + FirstOfEach(xs[i..], Identity, seen) == FirstOfEach(xs, Identity, {})
    {
      assert xs[i..][1..] == xs[i + 1..];
      if xs[i] !in seen {
        seen := seen + {xs[i]};
        out := out + [xs[i]];
      }
      i := i + 1;
    }
  }

  /** The keys of `xs` under the identity are its items. */
  lemma KeysOfIdentity<T>(xs: seq<T>)
    ensures Keys(xs, Identity) == set x | x in xs
  {
    forall x | x in xs
      ensures x in Keys(xs, Identity)
    {
      var i :| 0 <= i < |xs| && xs[i] == x;
      assert Identity(xs[i]) == x;
    }
  }

  /** Without a key the output has no repeated item, keeps the input order and holds
      every item of the input. */
  lemma UniqueWithoutKey<T>(xs: seq<T>)
    ensures var r := FirstOfEach(xs, Identity, {});
            && (forall a, b :: 0 <= a < b < |r| ==> r[a] != r[b])
            && IsSubseq(r, xs)
            && (set x | x in r) == (set x | x in xs)
  {
    var r := FirstOfEach(xs, Identity, {});
    FirstOfEachDistinct(xs, Identity, {});
    FirstOfEachSubseq(xs, Identity, {});
    FirstOfEachCovers(xs, Identity, {});
    KeysOfIdentity(r);
    KeysOfIdentity(xs);
  }

  /** `FirstOfEachCons` for the suffix that starts at `j`. */
  lemma FirstOfEachFrom<T, K>(xs: seq<T>, key: T -> K, seen: set<K>, j: nat)
    requires j < |xs|
    ensures FirstOfEach(xs[j..], key, seen) ==
            if key(xs[j]) in seen then FirstOfEach(xs[j + 1..], key, seen)
            else [xs[j]] + FirstOfEach(xs[j + 1..], key, seen + {key(xs[j])})
  {
    assert xs[j..][1..] == xs[j + 1..];
  }

  /** A run of items whose keys were all seen already yields nothing. */
  lemma {:induction false} FirstOfEachSeenRun<T, K>(xs: seq<T>, key: T -> K, seen: set<K>, i: nat, j: nat)
    requires i <= j <= |xs|
    requires forall k :: i <= k < j ==> key(xs[k]) in seen
    ensures FirstOfEach(xs[i..], key, seen) == FirstOfEach(xs[j..], key, seen)
    decreases j - i
  {
    if i < j {
      FirstOfEachFrom(xs, key, seen, i);
      FirstOfEachSeenRun(xs, key, seen, i + 1, j);
    }
  }

  /** One step of `unique` at an item whose key is new: it is yielded and its key
      joins `seen`, giving `seen'`. */
  lemma FirstOfEachNew<T, K>(xs: seq<T>, key: T -> K, seen: set<K>, j: nat, seen': set<K>)
    requires j < |xs| && key(xs[j]) !in seen && seen' == seen + {key(xs[j])}
    ensures FirstOfEach(xs[j..], key, seen) == [xs[j]] + FirstOfEach(xs[j + 1..], key, seen')
  {
    FirstOfEachFrom(xs, key, seen, j);
  }

  /** `unique(xs)` for a string spelled `AAAABBBCCDAABBB`, with any key that leaves the
      four letters alone: `A`, `B`, `C` and `D` are new at positions 0, 4, 7 and 9, and
      every other item repeats a letter already yielded. (The letters are stated one by
      one so that the steps below, not the evaluation of a literal, do the work.) */
  lemma UniqueExampleWith(key: char -> char, xs: string)
    requires key('A') == 'A' && key('B') == 'B' && key('C') == 'C' && key('D') == 'D'
    requires |xs| == 15
    requires xs[0] == 'A' && xs[1] == 'A' && xs[2] == 'A' && xs[3] == 'A' && xs[4] == 'B' && xs[5] == 'B' && xs[6] == 'B' && xs[7] == 'C'
    requires xs[8] == 'C' && xs[9] == 'D' && xs[10] == 'A' && xs[11] == 'A' && xs[12] == 'B' && xs[13] == 'B' && xs[14] == 'B'
    ensures FirstOfEach(xs, key, {}) == "ABCD"
  {
    assert xs[0..] == xs;
    FirstOfEachNew(xs, key, {}, 0, {'A'});
    FirstOfEachSeenRun(xs, key, {'A'}, 1, 4);
    FirstOfEachNew(xs, key, {'A'}, 4, {'A', 'B'});
    FirstOfEachSeenRun(xs, key, {'A', 'B'}, 5, 7);
    FirstOfEachNew(xs, key, {'A', 'B'}, 7, {'A', 'B', 'C'});
    FirstOfEachSeenRun(xs, key, {'A', 'B', 'C'}, 8, 9);
    FirstOfEachNew(xs, key, {'A', 'B', 'C'}, 9, {'A', 'B', 'C', 'D'});
    FirstOfEachSeenRun(xs, key, {'A', 'B', 'C', 'D'}, 10, 15);
    assert xs[15..] == [];
  }

  /** The first docstring example: `unique('AAAABBBCCDAABBB')` yields `A B C D`. */
  lemma UniqueExample()
    ensures FirstOfEach("AAAABBBCCDAABBB", Identity, {}) == "ABCD"
  {
    UniqueExampleWith(Identity, "AAAABBBCCDAABBB");
  }

  /** `str.lower` on the characters of the docstring's second example. */
  function AsciiLower(c: char): char {
    if 'A' <= c <= 'Z' then (c as int + 32) as char else c
  }

  /** `unique(xs, key)` for a string spelled `ABBCcAD` and a key that lowers these
      letters: the keys `a`, `b`, `c` and `d` are new at positions 0, 1, 3 and 6. */
  lemma UniqueByExampleWith(key: char -> char, xs: string)
    requires key('A') == 'a' && key('B') == 'b' && key('C') == 'c' && key('c') == 'c' && key('D') == 'd'
    requires |xs| == 7 && xs[0] == 'A' && xs[1] == 'B' && xs[2] == 'B' && xs[3] == 'C' && xs[4] == 'c' && xs[5] == 'A' && xs[6] == 'D'
    ensures FirstOfEach(xs, key, {}) == "ABCD"
  {
    assert xs[0..] == xs;
    FirstOfEachNew(xs, key, {}, 0, {'a'});
    FirstOfEachNew(xs, key, {'a'}, 1, {'a', 'b'});
    FirstOfEachSeenRun(xs, key, {'a', 'b'}, 2, 3);
    FirstOfEachNew(xs, key, {'a', 'b'}, 3, {'a', 'b', 'c'});
    FirstOfEachSeenRun(xs, key, {'a', 'b', 'c'}, 4, 6);
    FirstOfEachNew(xs, key, {'a', 'b', 'c'}, 6, {'a', 'b', 'c', 'd'});
    assert xs[7..] == [];
  }

  /** The second docstring example: `unique('ABBCcAD', str.lower)` yields `A B C D`; the
      `c` is dropped because `C` already gave the key `c`. */
  lemma UniqueByExample()
    ensures FirstOfEach("ABBCcAD", AsciiLower, {}) == "ABCD"
  {
    UniqueByExampleWith(AsciiLower, "ABBCcAD");
  }

  // ---------------------------------------------------------------------------
  // anyp

  /** `anyp(pred, iterable)`: the first item satisfying `pred`, or `None` for the `False`
      returned when there is none. */
  method AnyP<T>(pred: T -> bool, xs: seq<T>) returns (r: Option<T>)
    ensures r.None? <==> forall i :: 0 <= i < |xs| ==> !pred(xs[i])
    ensures r.Some? ==> exists i :: 0 <= i < |xs| && xs[i] == r.value && pred(xs[i]) &&
                                    forall j :: 0 <= j < i ==> !pred(xs[j])
  {
    for i := 0 to |xs|
      invariant forall j :: 0 <= j < i ==> !pred(xs[j])
    {
      if pred(xs[i]) {
        return Some(xs[i]);
      }
    }
    return None;
  }

  // ---------------------------------------------------------------------------
  // frequency

  /** An item and how often it occurs: one entry of `d.items()`. */
  type Tallied<T> = (T, nat)

  /** The items of a list of entries. */
  ghost function Items<T>(s: seq<Tallied<T>>): set<T> {
    set p | p in s :: p.0
  }

  /** No item has two entries. */
  ghost predicate DistinctItems<T>(s: seq<Tallied<T>>) {
    forall a, b :: 0 <= a < b < |s| ==> s[a].0 != s[b].0
  }

  /** Ordered by non-increasing count. */
  ghost predicate SortedByCount<T>(s: seq<Tallied<T>>) {
    forall a, b :: 0 <= a < b < |s| ==> s[a].1 >= s[b].1
  }

  /** The sum of the counts. */
  function SumCounts<T>(s: seq<Tallied<T>>): nat {
    if s == [] then 0 else s[0].1 + SumCounts(s[1..])
  }

  /** The entries with count `v`, in list order. */
  function WithCount<T>(s: seq<Tallied<T>>, v: nat): seq<Tallied<T>> {
    if s == [] then []
    else (if s[0].1 == v then [s[0]] else []) + WithCount(s[1..], v)
  }

  /** Inserts `p` before the first entry whose count is not larger; with `SortByCount`
      this is the stable sort `sorted(..., key=itemgetter(1), reverse=True)`, under which
      entries with equal counts keep their order. */
  function InsertByCount<T>(p: Tallied<T>, s: seq<Tallied<T>>): seq<Tallied<T>> {
    if s == [] || s[0].1 <= p.1 then [p] + s
    else [s[0]] + InsertByCount(p, s[1..])
  }

  /** Inserting adds `p` and loses nothing. */
  lemma {:induction false} InsertByCountPermutes<T>(p: Tallied<T>, s: seq<Tallied<T>>)
    ensures multiset(InsertByCount(p, s)) == multiset(s) + multiset{p}
  {
    if s != [] && s[0].1 > p.1 {
      InsertByCountPermutes(p, s[1..]);
      assert [s[0]] + s[1..] == s;
    }
  }

  function SortByCount<T>(s: seq<Tallied<T>>): (r: seq<Tallied<T>>)
    ensures multiset(r) == multiset(s)
  {
    if s == [] then []
    else
      assert [s[0]] + s[1..] == s;
      InsertByCountPermutes(s[0], SortByCount(s[1..]));
      InsertByCount(s[0], SortByCount(s[1..]))
  }

  /** Entries that are a permutation of each other have the same items. */
  lemma ItemsOfPermutation<T>(a: seq<Tallied<T>>, b: seq<Tallied<T>>)
    requires multiset(a) == multiset(b)
    ensures Items(a) == Items(b)
  {
    forall x | x in Items(a)
      ensures x in Items(b)
    {
      var p :| p in a && p.0 == x;
      assert p in multiset(b);
    }
    forall x | x in Items(b)
      ensures x in Items(a)
    {
      var p :| p in b && p.0 == x;
      assert p in multiset(a);
    }
  }

  /** A list with a known first entry is sorted exactly when its rest is and no entry
      of the rest has a larger count than the first. */
  lemma SortedCons<T>(q: Tallied<T>, t: seq<Tallied<T>>)
    ensures SortedByCount([q] + t) <==> SortedByCount(t) && forall e :: e in t ==> e.1 <= q.1
  {
    var r := [q] + t;
    assert forall k :: 0 <= k < |t| ==> r[k + 1] == t[k];
    if SortedByCount(r) {
      forall e | e in t
        ensures e.1 <= q.1
      {
        var j :| 0 <= j < |t| && t[j] == e;
        assert r[0] == q && r[j + 1] == e;
        assert r[0].1 >= r[j + 1].1;
      }
    }
    if SortedByCount(t) && forall e :: e in t ==> e.1 <= q.1 {
      forall a, b | 0 <= a < b < |r|
        ensures r[a].1 >= r[b].1
      {
        assert r[b] == t[b - 1];
        if a == 0 {
          assert t[b - 1] in t;
        } else {
          assert r[a] == t[a - 1];
        }
      }
    }
  }

  /** Inserting an entry under a bound on the counts keeps every count under it. */
  lemma {:induction false} InsertByCountBounded<T>(p: Tallied<T>, s: seq<Tallied<T>>, c: nat)
    requires p.1 <= c && forall e :: e in s ==> e.1 <= c
    ensures forall e :: e in InsertByCount(p, s) ==> e.1 <= c
  {
    if s != [] && s[0].1 > p.1 {
      assert forall e :: e in s[1..] ==> e in s;
      InsertByCountBounded(p, s[1..], c);
      assert forall e :: e in [s[0]] + InsertByCount(p, s[1..]) ==>
               e == s[0] || e in InsertByCount(p, s[1..]);
    } else {
      assert forall e :: e in [p] + s ==> e == p || e in s;
    }
  }

  lemma {:induction false} InsertByCountSorted<T>(p: Tallied<T>, s: seq<Tallied<T>>)
    requires SortedByCount(s)
    ensures SortedByCount(InsertByCount(p, s))
  {
    if s != [] && s[0].1 > p.1 {
      assert [s[0]] + s[1..] == s;
      SortedCons(s[0], s[1..]);
      InsertByCountSorted(p, s[1..]);
      InsertByCountBounded(p, s[1..], s[0].1);
      SortedCons(s[0], InsertByCount(p, s[1..]));
    } else {
      SortedCons(p, s);
      if s != [] {
        assert [s[0]] + s[1..] == s;
        SortedCons(s[0], s[1..]);
        assert forall e :: e in s ==> e == s[0] || e in s[1..];
      }
    }
  }

  /** The sorted entries have non-increasing counts. */
  lemma {:induction false} SortByCountSorted<T>(s: seq<Tallied<T>>)
    ensures SortedByCount(SortByCount(s))
  {
    if s != [] {
      SortByCountSorted(s[1..]);
      InsertByCountSorted(s[0], SortByCount(s[1..]));
    }
  }

  /** `WithCount` of a list with a known first entry. */
  lemma WithCountCons<T>(p: Tallied<T>, s: seq<Tallied<T>>, v: nat)
    ensures WithCount([p] + s, v) == (if p.1 == v then [p] else []) + WithCount(s, v)
  {
    assert ([p] + s)[1..] == s;
  }

  /** Inserting `p` keeps it ahead of the entries with the same count. */
  lemma {:induction false} InsertByCountStable<T>(p: Tallied<T>, s: seq<Tallied<T>>, v: nat)
    ensures WithCount(InsertByCount(p, s), v) == WithCount([p] + s, v)
  {
    if s != [] && s[0].1 > p.1 {
      // s[0] has the larger count, so at most one of them has count v.
      var rest := InsertByCount(p, s[1..]);
      assert InsertByCount(p, s) == [s[0]] + rest;
      var a := if s[0].1 == v then [s[0]] else [];
      var b := if p.1 == v then [p] else [];
      InsertByCountStable(p, s[1..], v);
      WithCountCons(s[0], rest, v);
      WithCountCons(p, s[1..], v);
      WithCountCons(s[0], s[1..], v);
      WithCountCons(p, s, v);
      assert [s[0]] + s[1..] == s;
      SwapDisjoint(a, b, WithCount(s[1..], v));
    }
  }

  /** The sort is stable: entries with the same count keep their relative order. */
  lemma {:induction false} SortByCountStable<T>(s: seq<Tallied<T>>, v: nat)
    ensures WithCount(SortByCount(s), v) == WithCount(s, v)
  {
    if s != [] {
      SortByCountStable(s[1..], v);
      InsertByCountStable(s[0], SortByCount(s[1..]), v);
      WithCountCons(s[0], SortByCount(s[1..]), v);
      WithCountCons(s[0], s[1..], v);
      assert [s[0]] + s[1..] == s;
    }
  }

  /** The items of a list with a known first entry. */
  lemma ItemsCons<T>(q: Tallied<T>, t: seq<Tallied<T>>)
    ensures Items([q] + t) == {q.0} + Items(t)
  {
    assert forall e :: e in [q] + t <==> e == q || e in t;
  }

  /** A list with a known first entry has no repeated item exactly when its rest has
      none and does not hold the first item. */
  lemma DistinctCons<T>(q: Tallied<T>, t: seq<Tallied<T>>)
    ensures DistinctItems([q] + t) <==> DistinctItems(t) && q.0 !in Items(t)
  {
    var r := [q] + t;
    assert forall k :: 0 <= k < |t| ==> r[k + 1] == t[k];
    if DistinctItems(r) {
      forall e | e in t
        ensures e.0 != q.0
      {
        var j :| 0 <= j < |t| && t[j] == e;
        assert r[0] == q && r[j + 1] == e;
        assert r[0].0 != r[j + 1].0;
      }
    }
    if DistinctItems(t) && q.0 !in Items(t) {
      forall a, b | 0 <= a < b < |r|
        ensures r[a].0 != r[b].0
      {
        assert r[b] == t[b - 1];
        if a == 0 {
          assert t[b - 1] in t;
        } else {
          assert r[a] == t[a - 1];
        }
      }
    }
  }

  /** Inserting adds the item of `p` to the items. */
  lemma {:induction false} InsertByCountItems<T>(p: Tallied<T>, s: seq<Tallied<T>>)
    ensures Items(InsertByCount(p, s)) == {p.0} + Items(s)
  {
    if s != [] && s[0].1 > p.1 {
      InsertByCountItems(p, s[1..]);
      ItemsCons(s[0], InsertByCount(p, s[1..]));
      ItemsCons(s[0], s[1..]);
      assert [s[0]] + s[1..] == s;
    } else {
      ItemsCons(p, s);
    }
  }

  lemma {:induction false} InsertByCountDistinct<T>(p: Tallied<T>, s: seq<Tallied<T>>)
    requires DistinctItems(s) && p.0 !in Items(s)
    ensures DistinctItems(InsertByCount(p, s))
  {
    if s != [] && s[0].1 > p.1 {
      assert [s[0]] + s[1..] == s;
      DistinctCons(s[0], s[1..]);
      ItemsCons(s[0], s[1..]);
      InsertByCountDistinct(p, s[1..]);
      InsertByCountItems(p, s[1..]);
      DistinctCons(s[0], InsertByCount(p, s[1..]));
    } else {
      DistinctCons(p, s);
    }
  }

  /** Sorting a list without repeated items leaves it without repeated items. */
  lemma {:induction false} SortByCountDistinct<T>(s: seq<Tallied<T>>)
    requires DistinctItems(s)
    ensures DistinctItems(SortByCount(s))
  {
    if s != [] {
      assert [s[0]] + s[1..] == s;
      DistinctCons(s[0], s[1..]);
      SortByCountDistinct(s[1..]);
      ItemsOfPermutation(SortByCount(s[1..]), s[1..]);
      InsertByCountDistinct(s[0], SortByCount(s[1..]));
    }
  }

  lemma {:induction false} InsertByCountSum<T>(p: Tallied<T>, s: seq<Tallied<T>>)
    ensures SumCounts(InsertByCount(p, s)) == p.1 + SumCounts(s)
  {
    if s != [] && s[0].1 > p.1 {
      InsertByCountSum(p, s[1..]);
      assert ([s[0]] + InsertByCount(p, s[1..]))[1..] == InsertByCount(p, s[1..]);
    } else {
      assert ([p] + s)[1..] == s;
    }
  }

  /** Sorting keeps the sum of the counts. */
  lemma {:induction false} SortByCountSum<T>(s: seq<Tallied<T>>)
    ensures SumCounts(SortByCount(s)) == SumCounts(s)
  {
    if s != [] {
      SortByCountSum(s[1..]);
      InsertByCountSum(s[0], SortByCount(s[1..]));
    }
  }

  lemma {:induction false} SumCountsSnoc<T>(s: seq<Tallied<T>>, p: Tallied<T>)
    ensures SumCounts(s + [p]) == SumCounts(s) + p.1
  {
    if s != [] {
      assert (s + [p])[1..] == s[1..] + [p];
      SumCountsSnoc(s[1..], p);
    }
  }

  lemma {:induction false} SumCountsUpdate<T>(s: seq<Tallied<T>>, j: nat, p: Tallied<T>)
    requires j < |s|
    ensures SumCounts(s[j := p]) + s[j].1 == SumCounts(s) + p.1
  {
    if j > 0 {
      assert s[j := p][1..] == s[1..][j - 1 := p];
      SumCountsUpdate(s[1..], j - 1, p);
    }
  }

  /** `d.items()` for the dictionary `d` whose keys, in insertion order, are `order`. */
  function Entries<T>(order: seq<T>, d: map<T, nat>): (r: seq<Tallied<T>>)
    requires forall k :: 0 <= k < |order| ==> order[k] in d
    ensures |r| == |order| && forall k :: 0 <= k < |order| ==> r[k] == (order[k], d[order[k]])
  {
    seq(|order|, k requires 0 <= k < |order| => (order[k], d[order[k]]))
  }

  /** Counting one more occurrence of an item already among the keys. */
  lemma EntriesBump<T>(order: seq<T>, d: map<T, nat>, x: T)
    requires forall k :: 0 <= k < |order| ==> order[k] in d
    requires forall a, b :: 0 <= a < b < |order| ==> order[a] != order[b]
    requires x in order
    ensures SumCounts(Entries(order, d[x := d[x] + 1])) == SumCounts(Entries(order, d)) + 1
  {
    var j :| 0 <= j < |order| && order[j] == x;
    var before := Entries(order, d);
    var d' := d[x := d[x] + 1];
    assert Entries(order, d') == before[j := (x, d'[x])] by {
      forall k | 0 <= k < |order| && k != j
        ensures order[k] != x
      {
        if k < j {
          assert order[k] != order[j];
        } else {
          assert order[j] != order[k];
        }
      }
    }
    SumCountsUpdate(before, j, (x, d'[x]));
  }

  /** Counting the first occurrence of an item adds a key at the end. */
  lemma EntriesAppend<T>(order: seq<T>, d: map<T, nat>, x: T)
    requires forall k :: 0 <= k < |order| ==> order[k] in d
    requires x !in d
    ensures SumCounts(Entries(order + [x], d[x := 1])) == SumCounts(Entries(order, d)) + 1
  {
    var before := Entries(order, d);
    assert Entries(order + [x], d[x := 1]) == before + [(x, 1)];
    SumCountsSnoc(before, (x, 1));
  }

  /** A dictionary holding the count of every item, listed in first-occurrence order,
      has the tally as its entries. */
  lemma EntriesAreTally<T>(xs: seq<T>, order: seq<T>, d: map<T, nat>)
    requires order == FirstOfEach(xs, Identity, {})
    requires forall k :: 0 <= k < |order| ==> order[k] in d
    requires forall x :: x in d ==> d[x] == multiset(xs)[x]
    ensures Entries(order, d) == Tally(xs)
  {
  }

  /** The distinct items of `xs` in order of first occurrence, each with its number of
      occurrences: `d.items()` once the counting loop has finished. */
  ghost function Tally<T>(xs: seq<T>): seq<Tallied<T>> {
    var u := FirstOfEach(xs, Identity, {});
    seq(|u|, k requires 0 <= k < |u| => (u[k], multiset(xs)[u[k]]))
  }

  /** What `frequency(xs)` returns: each distinct item once with its number of
      occurrences, ordered by non-increasing count, items with equal counts in order of
      first occurrence. */
  lemma FrequencyOrder<T>(xs: seq<T>)
    ensures var r := SortByCount(Tally(xs));
            && DistinctItems(r)
            && (forall k :: 0 <= k < |r| ==> r[k].1 == multiset(xs)[r[k].0])
            && Items(r) == (set x | x in xs)
            && SortedByCount(r)
            && (forall v :: WithCount(r, v) == WithCount(Tally(xs), v))
  {
    var t := Tally(xs);
    var r := SortByCount(t);
    TallyDistinct(xs);
    TallyItems(xs);
    SortByCountDistinct(t);
    SortByCountSorted(t);
    forall v {
      SortByCountStable(t, v);
    }
    forall k | 0 <= k < |r|
      ensures r[k].1 == multiset(xs)[r[k].0]
    {
      assert r[k] in multiset(t);
      var j :| 0 <= j < |t| && t[j] == r[k];
    }
    ItemsOfPermutation(r, t);
  }

  /** Every item has one entry in the tally. */
  lemma TallyDistinct<T>(xs: seq<T>)
    ensures DistinctItems(Tally(xs))
  {
    var t := Tally(xs);
    var u := FirstOfEach(xs, Identity, {});
    FirstOfEachDistinct(xs, Identity, {});
    forall a, b | 0 <= a < b < |t|
      ensures t[a].0 != t[b].0
    {
      assert Identity(u[a]) != Identity(u[b]);
    }
  }

  /** The tally has an entry for every item of `xs` and for nothing else. */
  lemma TallyItems<T>(xs: seq<T>)
    ensures Items(Tally(xs)) == set x | x in xs
  {
    var t := Tally(xs);
    var u := FirstOfEach(xs, Identity, {});
    FirstOfEachCovers(xs, Identity, {});
    KeysOfIdentity(xs);
    KeysOfIdentity(u);
    forall x | x in u
      ensures x in Items(t)
    {
      var i :| 0 <= i < |u| && u[i] == x;
      assert t[i] in t;
    }
  }

  /** `frequency(iterable)`: count every item in a dictionary whose keys keep insertion
      order, then sort its entries by count, largest first. */
  method Frequency<T(==)>(xs: seq<T>) returns (r: seq<Tallied<T>>)
    ensures r == SortByCount(Tally(xs))
    ensures SumCounts(r) == |xs|
  {
    var d: map<T, nat> := map[];
    var order: seq<T> := [];
    for i := 0 to |xs|
      invariant Counted(xs[..i], d, order)
    {
      var x := xs[i];
      assert xs[..i + 1] == xs[..i] + [x];
      if x in d {
        CountAgain(xs[..i], d, order, x);
        d := d[x := d[x] + 1];
      } else {
        CountFirst(xs[..i], d, order, x);
        d := d[x := 1];
        order := order + [x];
      }
    }
    assert xs[..|xs|] == xs;
    var entries := Entries(order, d);
    EntriesAreTally(xs, order, d);
    r := SortByCount(entries);
    SortByCountSum(entries);
  }

  /** The state of the counting loop once it has met the items `seen`: `d` maps every
      item met to its number of occurrences, `order` lists the keys of `d` in insertion
      order, and the counts add up to the number of items met. */
  ghost predicate Counted<T>(seen: seq<T>, d: map<T, nat>, order: seq<T>) {
    && order == FirstOfEach(seen, Identity, {})
    && KeysAreSeen(seen, d)
    && CountsAreOccurrences(seen, d)
    && (forall k :: 0 <= k < |order| ==> order[k] in d)
    && SumCounts(Entries(order, d)) == |seen|
  }

  /** The keys of `d` are exactly the items met. */
  ghost predicate KeysAreSeen<T>(seen: seq<T>, d: map<T, nat>) {
    && (forall x :: x in d ==> x in seen)
    && (forall k :: 0 <= k < |seen| ==> seen[k] in d)
  }

  /** Every key of `d` maps to its number of occurrences among the items met. */
  ghost predicate CountsAreOccurrences<T>(seen: seq<T>, d: map<T, nat>) {
    forall x :: x in d ==> d[x] == multiset(seen)[x]
  }

  /** One more item met, and counted under key `x`. */
  lemma KeysAfter<T>(seen: seq<T>, d: map<T, nat>, x: T, v: nat)
    requires KeysAreSeen(seen, d)
    ensures KeysAreSeen(seen + [x], d[x := v])
  {
    assert forall k :: 0 <= k < |seen| ==> (seen + [x])[k] == seen[k];
  }

  /** One more occurrence of `x` adds one to its count, or starts it at one. */
  lemma CountsAfter<T>(seen: seq<T>, d: map<T, nat>, x: T)
    requires KeysAreSeen(seen, d) && CountsAreOccurrences(seen, d)
    ensures CountsAreOccurrences(seen + [x], d[x := if x in d then d[x] + 1 else 1])
  {
    assert multiset(seen + [x]) == multiset(seen) + multiset{x};
  }

  /** `d[item] += 1` for an item met before. */
  lemma CountAgain<T>(seen: seq<T>, d: map<T, nat>, order: seq<T>, x: T)
    requires Counted(seen, d, order) && x in d
    ensures Counted(seen + [x], d[x := d[x] + 1], order)
  {
    FirstSeenAfter(seen, x);
    assert x in seen;
    MetIsListed(seen, x);
    EntriesBump(order, d, x);
    KeysAfter(seen, d, x, d[x] + 1);
    CountsAfter(seen, d, x);
  }

  /** `d[item] += 1` for an item met for the first time: its key is added at the end. */
  lemma CountFirst<T>(seen: seq<T>, d: map<T, nat>, order: seq<T>, x: T)
    requires Counted(seen, d, order) && x !in d
    ensures Counted(seen + [x], d[x := 1], order + [x])
  {
    FirstSeenAfter(seen, x);
    EntriesAppend(order, d, x);
    KeysAfter(seen, d, x, 1);
    CountsAfter(seen, d, x);
  }

  /** An item met is among the keys, which are distinct. */
  lemma MetIsListed<T>(seen: seq<T>, x: T)
    requires x in seen
    ensures var r := FirstOfEach(seen, Identity, {});
            && x in r
            && forall a, b :: 0 <= a < b < |r| ==> r[a] != r[b]
  {
    var r := FirstOfEach(seen, Identity, {});
    FirstOfEachDistinct(seen, Identity, {});
    FirstOfEachCovers(seen, Identity, {});
    var i :| 0 <= i < |seen| && seen[i] == x;
    assert Identity(seen[i]) in Keys(seen, Identity);
    var j :| 0 <= j < |r| && Identity(r[j]) == x;
  }

  /** The items in order of first occurrence after one more item. */
  lemma FirstSeenAfter<T>(seen: seq<T>, x: T)
    ensures FirstOfEach(seen + [x], Identity, {}) ==
              FirstOfEach(seen, Identity, {}) + if x in seen then [] else [x]
  {
    FirstOfEachSnoc(seen, x, Identity, {});
    KeysOfIdentity(seen);
    assert Identity(x) in {} + Keys(seen, Identity) <==> x in seen;
  }

  // ---------------------------------------------------------------------------
  // fuckunicode

  /** `fuckunicode(s)`: `list(filter(isascii, s))`, the characters whose code point is
      below 128, in their order in `s`. */
  function AsciiOnly(s: string): (r: string)
    ensures forall k :: 0 <= k < |r| ==> (r[k] as int) < 128
    ensures forall c :: multiset(r)[c] == if (c as int) < 128 then multiset(s)[c] else 0
    ensures IsSubseq(r, s)
  {
    if s == [] then []
    else
      var rest := AsciiOnly(s[1..]);
      assert s == [s[0]] + s[1..];
      if (s[0] as int) < 128 then
        assert ([s[0]] + rest)[1..] == rest;
        [s[0]] + rest
      else
        SubseqOfTail(rest, s);
        rest
  }
}
