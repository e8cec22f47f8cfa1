/** `IPList` (wulib/network.py): a whitelist/blacklist of networks kept sorted by their
    first address and searched by bisection. A network is modelled as the interval of
    integer addresses [lo, hi] it covers (`net.int()` and `net[-1].int()`). */
module Networks {
  import opened Wrappers
  import opened Seqs

  /** The addresses `lo..hi` of one network. */
  datatype Interval = Interval(lo: int, hi: int)

  /** Every network IPy builds holds at least one address. */
  type Network = n: Interval | n.lo <= n.hi witness Interval(0, 0)

  /** `ip in net`. */
  predicate Holds(net: Network, ip: int) {
    net.lo <= ip <= net.hi
  }

  /** Some listed network holds `ip`. */
  ghost predicate AnyHolds(nets: seq<Network>, ip: int) {
    exists k :: 0 <= k < |nets| && Holds(nets[k], ip)
  }

  /** Ascending by first address, the order `sorted(..., key=x.int())` produces. */
  ghost predicate SortedByLo(nets: seq<Network>) {
    forall i, j :: 0 <= i < j < |nets| ==> nets[i].lo <= nets[j].lo
  }

  /** No later network ends before an earlier one: what the constructor's pairwise
      assertion checks. */
  ghost predicate HiNonDecreasing(nets: seq<Network>) {
    forall i, j :: 0 <= i < j < |nets| ==> nets[i].hi <= nets[j].hi
  }

  /** Why construction fails. */
  datatype BuildError =
    | NegativeShift(netsize: int)                     // `2 << netsize - 1` with netsize < 1
    | ContainedWithin(inner: Network, outer: Network) // "<inner> is contained within <outer>!"

  // ---------------------------------------------------------------------------
  // Membership: `_find`

  /** `_find(networks, ip)`: look at the middle network; return it if it holds `ip`,
      otherwise continue in the right half when `ip` is above its first address and in
      the left half otherwise. `None` stands for the `False` returned on an empty slice.
      Each recursive call is on a slice strictly shorter than `nets`. */
  function Find(nets: seq<Network>, ip: int): (r: Option<Network>)
    ensures nets == [] ==> r.None?
    ensures r.Some? ==> r.value in nets && Holds(r.value, ip)
    decreases |nets|
  {
    if |nets| == 0 then None
    else
      var mid := |nets| / 2;
      var net := nets[mid];
      if Holds(net, ip) then Some(net)
      else if ip > net.lo then Find(nets[mid + 1..], ip)
      else Find(nets[..mid], ip)
  }

  /** The search is complete on a list sorted by first address whose last addresses never
      decrease: it finds a network exactly when some listed network holds `ip`. */
  lemma {:induction false} FindComplete(nets: seq<Network>, ip: int)
    ensures SortedByLo(nets) && HiNonDecreasing(nets) ==>
              (Find(nets, ip).Some? <==> AnyHolds(nets, ip))
    decreases |nets|
  {
    if |nets| > 0 && SortedByLo(nets) && HiNonDecreasing(nets) {
      var mid := |nets| / 2;
      var net := nets[mid];
      if Holds(net, ip) {
        assert Holds(nets[mid], ip);
      } else if ip > net.lo {
        FindComplete(nets[mid + 1..], ip);
        HolderAboveMiddle(nets, ip, mid);
      } else {
        FindComplete(nets[..mid], ip);
        HolderBelowMiddle(nets, ip, mid);
      }
    }
  }

  /** When `ip` is above the first address of `nets[mid]` but not in it, it is above that
      network's last address and so above every network before it: only the right half
      can hold it. */
  lemma HolderAboveMiddle(nets: seq<Network>, ip: int, mid: nat)
    requires HiNonDecreasing(nets)
    requires mid < |nets| && !Holds(nets[mid], ip) && ip > nets[mid].lo
    ensures AnyHolds(nets, ip) ==> AnyHolds(nets[mid + 1..], ip)
  {
    forall k | 0 <= k < mid
      ensures !Holds(nets[k], ip)
    {
      assert nets[k].hi <= nets[mid].hi;
    }
    if AnyHolds(nets, ip) {
      var k :| 0 <= k < |nets| && Holds(nets[k], ip);
      assert nets[mid + 1..][k - mid - 1] == nets[k];
    }
  }

  /** When `ip` is at or below the first address of `nets[mid]` but not in it, it is below
      that address and so below every network after it: only the left half can hold it. */
  lemma HolderBelowMiddle(nets: seq<Network>, ip: int, mid: nat)
    requires SortedByLo(nets)
    requires mid < |nets| && !Holds(nets[mid], ip) && ip <= nets[mid].lo
    ensures AnyHolds(nets, ip) ==> AnyHolds(nets[..mid], ip)
  {
    forall k | mid < k < |nets|
      ensures !Holds(nets[k], ip)
    {
      assert nets[mid].lo <= nets[k].lo;
    }
    if AnyHolds(nets, ip) {
      var k :| 0 <= k < |nets| && Holds(nets[k], ip);
      assert nets[..mid][k] == nets[k];
    }
  }

  // ---------------------------------------------------------------------------
  // Construction: expansion, sorting, pairwise validation

  /** Python's `a << k`: a negative shift count raises `ValueError`, modelled as `None`. */
  function ShiftLeft(a: int, k: int): Option<int> {
    if k < 0 then None else Some(a * Pow2(k))
  }

  /** 2 to the power `k`. */
  function Pow2(k: nat): (r: nat)
    ensures r >= 1
  {
    if k == 0 then 1 else 2 * Pow2(k - 1)
  }

  /** The network of `size` addresses, aligned to a multiple of `size`, that holds `ip`;
      what `IP(ip).make_net(mask)` is taken to build for `mask = size - 1`. */
  function AlignedBlock(ip: int, size: nat): (r: Network)
    requires size >= 1
    ensures Holds(r, ip) && r.hi - r.lo + 1 == size && r.lo == (ip / size) * size
  {
    assert ip == (ip / size) * size + ip % size;
    Interval(ip - ip % size, ip - ip % size + size - 1)
  }

  /** One line's network when a `netsize` is given (wulib/network.py:56-58): the host
      mask `(2 << netsize - 1) - 1` and the block of `mask + 1` addresses around the
      line's address. */
  function ExpandEntry(entry: Network, netsize: int): Result<Network, BuildError> {
    match ShiftLeft(2, netsize - 1)
    case None => Failure(NegativeShift(netsize))
    case Some(twice) => Success(AlignedBlock(entry.lo, (twice - 1) + 1))
  }

  /** The mask is `2^netsize - 1`, and it is computable exactly when `netsize >= 1`. */
  lemma ExpandEntryBlock(entry: Network, netsize: int)
    ensures ExpandEntry(entry, netsize).Failure? <==> netsize < 1
    ensures ExpandEntry(entry, netsize).Failure? ==>
              ExpandEntry(entry, netsize).error == NegativeShift(netsize)
    ensures netsize >= 1 ==> ExpandEntry(entry, netsize) == Success(AlignedBlock(entry.lo, Pow2(netsize)))
  {
    if netsize >= 1 {
      assert 2 * Pow2(netsize - 1) == Pow2(netsize);
    }
  }

  /** The loop over the lines (wulib/network.py:52-59): each line's network as parsed,
      or expanded to a block when `netsize` is given. The shift error is raised at the
      first line, so an empty list never raises it. */
  method ParseLines(entries: seq<Network>, netsize: Option<int>) returns (r: Result<seq<Network>, BuildError>)
    ensures netsize.None? ==> r == Success(entries)
    ensures netsize.Some? ==> (r.Failure? <==> netsize.value < 1 && |entries| > 0)
    ensures r.Failure? ==> r.error == NegativeShift(netsize.value)
    ensures netsize.Some? && r.Success? ==>
              |r.value| == |entries| &&
              forall k :: 0 <= k < |entries| ==> r.value[k] == AlignedBlock(entries[k].lo, Pow2(netsize.value))
  {
    var networks: seq<Network> := [];
    var i := 0;
    while i < |entries|
      invariant 0 <= i <= |entries|
      invariant |networks| == i
      invariant netsize.None? ==> networks == entries[..i]
      invariant netsize.Some? ==> i > 0 ==> netsize.value >= 1
      invariant netsize.Some? ==>
                  forall k :: 0 <= k < i ==> networks[k] == AlignedBlock(entries[k].lo, Pow2(netsize.value))
    {
      if netsize.None? {
        networks := networks + [entries[i]];
      } else {
        ExpandEntryBlock(entries[i], netsize.value);
        match ExpandEntry(entries[i], netsize.value)
        case Failure(err) =>
          return Failure(err);
        case Success(net) =>
          networks := networks + [net];
      }
      i := i + 1;
    }
    if netsize.None? {
      assert entries[..i] == entries;
    }
    r := Success(networks);
  }

  /** Inserts `x` before the first element whose first address is not smaller; together
      with `SortByLo` this is a stable sort, like Python's `sorted`. */
  function InsertByLo(x: Network, s: seq<Network>): seq<Network> {
    if s == [] || x.lo <= s[0].lo then [x] + s
    else [s[0]] + InsertByLo(x, s[1..])
  }

  /** Inserting adds `x` and loses nothing. */
  lemma {:induction false} InsertByLoPermutes(x: Network, s: seq<Network>)
    ensures multiset(InsertByLo(x, s)) == multiset(s) + multiset{x}
  {
    if s != [] && x.lo > s[0].lo {
      InsertByLoPermutes(x, s[1..]);
      assert [s[0]] + s[1..] == s;
    }
  }

  /** Inserting into a sorted list keeps it sorted. */
  lemma {:induction false} InsertByLoSorted(x: Network, s: seq<Network>)
    requires SortedByLo(s)
    ensures SortedByLo(InsertByLo(x, s))
  {
    if s != [] && x.lo > s[0].lo {
      InsertByLoSorted(x, s[1..]);
      var rest := InsertByLo(x, s[1..]);
      InsertByLoPermutes(x, s[1..]);
      forall y | y in rest
        ensures s[0].lo <= y.lo
      {
        assert y in multiset(rest);
        if y != x {
          assert y in multiset(s[1..]);
        }
      }
    }
  }

  /** `sorted(networks, key=lambda x: x.int())`. */
  function SortByLo(s: seq<Network>): (r: seq<Network>)
    ensures multiset(r) == multiset(s)
  {
    if s == [] then []
    else
      assert [s[0]] + s[1..] == s;
      InsertByLoPermutes(s[0], SortByLo(s[1..]));
      InsertByLo(s[0], SortByLo(s[1..]))
  }

  /** The sort's result is ascending by first address. */
  lemma {:induction false} SortByLoSorted(s: seq<Network>)
    ensures SortedByLo(SortByLo(s))
  {
    if s != [] {
      SortByLoSorted(s[1..]);
      InsertByLoSorted(s[0], SortByLo(s[1..]));
    }
  }

  /** The networks with first address `v`, in list order. */
  function WithLo(s: seq<Network>, v: int): seq<Network> {
    if s == [] then []
    else (if s[0].lo == v then [s[0]] else []) + WithLo(s[1..], v)
  }

  /** `WithLo` of a list with a known first element. */
  lemma WithLoCons(x: Network, s: seq<Network>, v: int)
    ensures WithLo([x] + s, v) == (if x.lo == v then [x] else []) + WithLo(s, v)
  {
    assert ([x] + s)[1..] == s;
  }

  /** Inserting `x` keeps it ahead of the networks with the same first address. */
  lemma {:induction false} InsertByLoStable(x: Network, s: seq<Network>, v: int)
    ensures WithLo(InsertByLo(x, s), v) == WithLo([x] + s, v)
  {
    if s != [] && x.lo > s[0].lo {
      // s[0] starts before x, so at most one of them starts at v.
      var rest := InsertByLo(x, s[1..]);
      assert InsertByLo(x, s) == [s[0]] + rest;
      var a := if s[0].lo == v then [s[0]] else [];
      var b := if x.lo == v then [x] else [];
      InsertByLoStable(x, s[1..], v);
      WithLoCons(s[0], rest, v);
      WithLoCons(x, s[1..], v);
      WithLoCons(s[0], s[1..], v);
      WithLoCons(x, s, v);
      assert [s[0]] + s[1..] == s;
      SwapDisjoint(a, b, WithLo(s[1..], v));
    }
  }

  /** The sort is stable: networks with the same first address keep their input order.
      This fixes which of two such networks comes first, and so whether the pairwise
      check rejects them. */
  lemma {:induction false} SortByLoStable(s: seq<Network>, v: int)
    ensures WithLo(SortByLo(s), v) == WithLo(s, v)
  {
    if s != [] {
      SortByLoStable(s[1..], v);
      InsertByLoStable(s[0], SortByLo(s[1..]), v);
      WithLoCons(s[0], SortByLo(s[1..]), v);
      WithLoCons(s[0], s[1..], v);
      assert [s[0]] + s[1..] == s;
    }
  }

  /** The first pair, in the order the nested loops visit them, whose later network ends
      before the earlier one. */
  ghost predicate FirstViolation(nets: seq<Network>, i: int, j: int) {
    && 0 <= i < j < |nets|
    && nets[i].hi > nets[j].hi
    && (forall i', j' :: 0 <= i' < i && i' < j' < |nets| ==> nets[i'].hi <= nets[j'].hi)
    && (forall j' :: i < j' < j ==> nets[i].hi <= nets[j'].hi)
  }

  /** The nested validation loops (wulib/network.py:62-82): for every pair i < j assert
      `net1[-1].int() <= net2[-1].int()`, raising at the first pair that fails. */
  method CheckNesting(nets: seq<Network>) returns (r: Outcome<BuildError>)
    ensures r.Pass? <==> HiNonDecreasing(nets)
    ensures r.Fail? ==> exists i, j :: FirstViolation(nets, i, j) &&
                                     r.error == ContainedWithin(nets[j], nets[i])
  {
    var i := 0;
    while i < |nets|
      invariant 0 <= i <= |nets|
      invariant forall i', j' :: 0 <= i' < i && i' < j' < |nets| ==> nets[i'].hi <= nets[j'].hi
    {
      var j := i + 1;
      while j < |nets|
        invariant i + 1 <= j <= |nets|
        invariant forall j' :: i < j' < j ==> nets[i].hi <= nets[j'].hi
      {
        if nets[i].hi > nets[j].hi {
          assert FirstViolation(nets, i, j);
          return Fail(ContainedWithin(nets[j], nets[i]));
        }
        j := j + 1;
      }
      i := i + 1;
    }
    r := Pass;
  }

  /** There is only one first violating pair, so the error `CheckNesting` reports is
      determined by the list. */
  lemma FirstViolationUnique(nets: seq<Network>, i: int, j: int, i': int, j': int)
    requires FirstViolation(nets, i, j) && FirstViolation(nets, i', j')
    ensures i == i' && j == j'
  {
  }

  /** In a list sorted by first address, a pair the check rejects really is nested: the
      later network lies inside the earlier one, as the error message says. */
  lemma ViolationIsContainment(nets: seq<Network>, i: int, j: int)
    requires SortedByLo(nets) && 0 <= i < j < |nets| && nets[i].hi > nets[j].hi
    ensures forall ip :: Holds(nets[j], ip) ==> Holds(nets[i], ip)
    ensures nets[j] != nets[i]
  {
    assert nets[i].lo <= nets[j].lo;
  }

  /** The check lets through every pair whose later network starts and ends no earlier
      than the earlier one, nested or not: a network inside another with the same last
      address, a network inside another with the same first address listed first, and
      a duplicate. Such a list sorts to itself and passes, so `Load` accepts it. */
  lemma PairAccepted(a: Network, b: Network)
    requires a.lo <= b.lo && a.hi <= b.hi
    ensures SortByLo(Parsed([a, b], None)) == [a, b]
    ensures HiNonDecreasing(SortByLo(Parsed([a, b], None)))
  {
  }

  /** 10.0.0.0/8 followed by 10.255.0.0/16: the second lies strictly inside the first and
      both end at 10.255.255.255, so the list is accepted although one network is a
      subset of another. */
  lemma NestedSameEndAccepted()
    ensures var l: seq<Network> := [Interval(167772160, 184549375), Interval(184483840, 184549375)];
            && (forall ip :: Holds(l[1], ip) ==> Holds(l[0], ip)) && l[0] != l[1]
            && SortByLo(Parsed(l, None)) == l
            && SortedByLo(l) && HiNonDecreasing(l)
  {
  }

  /** The list the constructor ends with, and the networks parsed from the lines. */
  class IPList {
    var networks: seq<Network>

    /** The representation invariant that construction establishes. */
    ghost predicate Valid()
      reads this
    {
      SortedByLo(networks) && HiNonDecreasing(networks)
    }

    /** The object `__init__` leaves behind once the checks have passed. */
    constructor FromChecked(nets: seq<Network>)
      requires SortedByLo(nets) && HiNonDecreasing(nets)
      ensures networks == nets && Valid()
    {
      networks := nets;
    }

    /** `IPList(lines, netsize)`: parse the lines, sort by first address and reject any
        nesting that breaks the search; the failure is the exception `__init__` raises. */
    static method Load(entries: seq<Network>, netsize: Option<int>) returns (r: Result<IPList, BuildError>)
      ensures netsize.Some? && netsize.value < 1 && |entries| > 0 <==>
                r.Failure? && r.error.NegativeShift?
      ensures r.Failure? && r.error.ContainedWithin? ==>
                var sorted := SortByLo(Parsed(entries, netsize));
                exists i, j :: FirstViolation(sorted, i, j) && r.error == ContainedWithin(sorted[j], sorted[i])
      ensures r.Success? ==>
                && fresh(r.value)
                && r.value.Valid()
                && r.value.networks == SortByLo(Parsed(entries, netsize))
                && multiset(r.value.networks) == multiset(Parsed(entries, netsize))
      ensures !(netsize.Some? && netsize.value < 1 && |entries| > 0) ==>
                (r.Success? <==> HiNonDecreasing(SortByLo(Parsed(entries, netsize))))
    {
      var parsed := ParseLines(entries, netsize);
      if parsed.Failure? {
        return Failure(parsed.error);
      }
      assert parsed.value == Parsed(entries, netsize);
      var sorted := SortByLo(parsed.value);
      SortByLoSorted(parsed.value);
      var ok := CheckNesting(sorted);
      if ok.Fail? {
        ghost var i, j :| FirstViolation(sorted, i, j) && ok.error == ContainedWithin(sorted[j], sorted[i]);
        assert sorted == SortByLo(Parsed(entries, netsize));
        r := Failure(ok.error);
        assert r.error == ContainedWithin(sorted[j], sorted[i]);
        return;
      }
      var list := new IPList.FromChecked(sorted);
      r := Success(list);
    }

    /** `ip in self`: the network found by `_find`, or `None` for `False`. On a valid list
        it is found exactly when some listed network holds `ip`. */
    function Contains(ip: int): (r: Option<Network>)
      reads this
      ensures r.Some? ==> r.value in networks && Holds(r.value, ip)
      ensures Valid() ==> (r.Some? <==> AnyHolds(networks, ip))
    {
      FindComplete(networks, ip);
      Find(networks, ip)
    }
  }

  /** The networks the line loop produces when it does not raise. */
  function Parsed(entries: seq<Network>, netsize: Option<int>): seq<Network> {
    if netsize.None? || netsize.value < 1 then entries
    else seq(|entries|, k requires 0 <= k < |entries| => AlignedBlock(entries[k].lo, Pow2(netsize.value)))
  }

  // ---------------------------------------------------------------------------
  // The nested list from the comment in `IPList.__init__`

  /** 41.0.0.0/8, 41.41.0.0/24 and 41.255.0.0/16, already sorted by first address. */
  const Bogons: seq<Network> := [
    Interval(687865856, 704643071),
    Interval(690552832, 690553087),
    Interval(704577536, 704643071)]

  /** 41.100.0.0 */
  const BogonQuery := 694419456

  /** Without the invariant the search is incomplete: 41.100.0.0 lies in 41.0.0.0/8, but
      the search looks at 41.41.0.0/24, goes right because the address is above its first
      address, and misses. The validation rejects this list at the pair (41.0.0.0/8,
      41.41.0.0/24), so an `IPList` never holds it. */
  lemma NestedListDefeatsSearch()
    ensures SortedByLo(Bogons) && Holds(Bogons[0], BogonQuery)
    ensures Find(Bogons, BogonQuery) == None
    ensures !HiNonDecreasing(Bogons) && FirstViolation(Bogons, 0, 1)
  {
    assert Bogons[1..][1..] == [Bogons[2]];
    assert [Bogons[2]][..0] == [];
  }

  // ---------------------------------------------------------------------------
  // Python 3 division in `_find`

  /** A list subscript: Python rejects a `float` index before looking at its value. */
  datatype Index = IntIndex(i: int) | FloatIndex(f: real)

  /** Exceptions that subscripting raises. */
  datatype PyError = IndexError | TypeError

  /** `networks[index]`, with the negative-index wrap-around of Python lists. */
  function Subscript(nets: seq<Network>, index: Index): (r: Result<Network, PyError>)
    ensures r.Failure? && r.error == TypeError <==> index.FloatIndex?
    ensures index.IntIndex? && 0 <= index.i < |nets| ==> r == Success(nets[index.i])
  {
    match index
    case FloatIndex(_) => Failure(TypeError)
    case IntIndex(i) =>
      if 0 <= i < |nets| then Success(nets[i])
      else if -|nets| <= i < 0 then Success(nets[|nets| + i])
      else Failure(IndexError)
  }

  /** `_find` as written, under Python 3: `len(networks) / 2` is a `float`, so the
      subscript raises `TypeError`, which the `except IndexError` clause does not catch. */
  function FindAsWritten(nets: seq<Network>, ip: int): Result<Option<Network>, PyError> {
    var mid := FloatIndex(|nets| as real / 2.0);
    match Subscript(nets, mid)
    case Failure(IndexError) => Success(None)
    case Failure(err) => Failure(err)
    case Success(_) =>
      // A float subscript never succeeds, so the comparisons and the recursive calls
      // that follow the subscript are never reached.
      assert false; Success(None)
  }

  /** Every membership query raises, even on an empty list and even when the list holds
      the address; `Find` uses the floor division `len(networks) // 2` instead. */
  lemma FindAsWrittenAlwaysRaises(nets: seq<Network>, ip: int)
    ensures FindAsWritten(nets, ip) == Failure(TypeError)
  {
  }
}
