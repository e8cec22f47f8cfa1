# wulib list structures and sequence helpers, in Dafny

This project models the core of `wulib`, a small Python utility library:

- **`DomainList`** (`wulib/network.py`) is a domain-name whitelist or blacklist. It is
  kept as a tree that mirrors the DNS hierarchy.
  - Each listed name is stripped and split on `.`. Its labels are reversed, so the
    top-level domain comes first, and the path is created in the tree.
  - The node where the path ends gets a sentinel, which Python stores under the key `1`.
  - A query walks its own reversed labels as far as the tree allows. It answers whether
    the deepest node it reached carries the sentinel.
- **`IPList`** (`wulib/network.py`) is a list of networks.
  - Each network is an interval `[lo, hi]` of integer addresses (`net.int()` and
    `net[-1].int()`).
  - The list is sorted by `lo`. Each pair is then checked: construction fails when a later
    network ends strictly before an earlier one.
  - Membership is answered by a recursive bisection, `_find`.
- **Sequence helpers** come from `wulib/core.py` (Python 3) and its older single-file
  edition `wulib.py` (Python 2): `take`, `ichunks`, `chunks`, `unique`, `anyp`,
  `frequency` and `fuckunicode`.

Modules:

| module | file | contents |
|---|---|---|
| `Wrappers` | `Wrappers.dfy` | `Option`, `Result`, `Outcome` |
| `Seqs` | `Seqs.dfy` | one concatenation lemma shared by the two stable sorts |
| `PyStr` | `PyStr.dfy` | `str.strip()`, `str.split(sep)`, `list.reverse()` |
| `Dns` | `Dns.dfy` | the `DomainList` class, the tree as a value, its invariant and the query rule |
| `Networks` | `Networks.dfy` | the `IPList` class, line parsing, the stable sort, the nesting check, `_find` |
| `Core` | `Core.dfy` | the helpers of `wulib/core.py` |
| `Legacy` | `Legacy.dfy` | `chunks` of `wulib.py`; its `unique` is the same code as the package's and is modelled once, in `Core` |

How the source maps onto Dafny:

- **Loops become methods.** Python code that changes state in a loop is a method with
  its loop and invariants. Each method is proved against a specification function.
  - `DomainList.__init__` and `__contains__`.
  - The line loop and the nested validation loops of `IPList.__init__`.
  - `ichunks`, both branches of `unique`, `anyp` and `frequency`.
- **Expressions become functions.** Recursion and slicing are functions.
  - `_find`, `sorted`, `chunks`, `take` and `fuckunicode`.
- **Generators** are modelled as the list of everything they yield.
- **The constructors** take the lines of the list file as a sequence.
  - For `DomainList` each line is a string.
  - For `IPList` each line is the network IPy parses from it.

## Model

| member | source | states |
|---|---|---|
| Dns.Insert | wulib/network.py:16-24 | Definition: one pass of the inner loop over a line's labels, creating missing children, then the sentinel at the last node. |
| Dns.Build | wulib/network.py:12-24 | Definition: the tree after inserting every line's reversed labels, in file order. |
| Dns.Walk | wulib/network.py:29-36 | Definition: the node the query loop stops at, when the path is used up or a label is missing. |
| Dns.Covers | wulib/network.py:29-39 | Definition: the answer of `__contains__`, the sentinel of the node `Walk` reaches. |
| Dns.DomainList.constructor | wulib/network.py:9-24 | The tree after reading the lines is the tree built by inserting every line's reversed label path, in file order. |
| Dns.DomainList.Contains | wulib/network.py:26-39 | `domain in self` is the sentinel of the deepest node the walk over the reversed labels of `domain` reaches. The method has no `modifies` clause, so a query never changes the tree. |
| Dns.DomainList.ContainsPath | wulib/network.py:29-39 | The walk stops at the first missing label. The answer is true exactly when the consumed prefix of the path ends at a node carrying the sentinel. |
| Dns.InsertListed | wulib/network.py:16-24 | Inserting a path gives exactly that path the sentinel. Every other path keeps its status. |
| Dns.BuildListed | wulib/network.py:12-24 | The tree's invariant: a node carries the sentinel if and only if some line's reversed label path ends exactly at it. |
| Dns.InsertFound | wulib/network.py:17-20 | Inserting a path creates the nodes of its initial segments and no other nodes. |
| Dns.BuildFound | wulib/network.py:12-20 | The nodes of the built tree are exactly the root and the initial segments of the lines' paths. |
| Dns.LineLabelsNonEmpty | wulib/network.py:13 | Every line yields at least one label, even a blank line. |
| Dns.RootNeverListed | wulib/network.py:13-24 | The root never carries the sentinel. |
| Dns.WalkReachesPrefix | wulib/network.py:29-36 | The walk ends at the node of the consumed prefix. It stopped because the whole path was consumed or the next label is missing. |
| Dns.FullWalk | wulib/network.py:31-32 | When every label of the path exists, the walk consumes the whole path. |
| Dns.DepthAtMissingLabel | wulib/network.py:30-36 | The walk consumes exactly `j` labels when the first `j` exist and the next one is missing. |
| Dns.ContainsIffConsumedPrefixIsLine | wulib/network.py:26-39 | A domain is covered if and only if the prefix of its reversed labels that the walk consumes is, as a whole, the path of some line. |
| Dns.CoveredAtLongestPrefix | wulib/network.py:29-39 | The answer is decided at the longest prefix of the query that exists in the tree. It is true exactly when that prefix is a line's path, whatever the nodes above or below carry. |
| Dns.ListedLineIsFound | wulib/network.py:13-39 | After building, querying any stripped line gives true. |
| Dns.CoveredHasListedAncestor | wulib/network.py:26-39 | A covered query has a non-empty, label-aligned prefix that is a whole line's path. Names are matched by whole labels, never through a suffix of a label. |
| Dns.AbsentTldNotCovered | wulib/network.py:29-39 | A query whose top-level label is not in the tree is not covered. |
| Dns.InsertListedUnchanged | wulib/network.py:17-24 | Inserting a path that is already listed leaves the tree unchanged. |
| Dns.InsertIdempotent | wulib/network.py:17-24 | Inserting the same path twice gives the tree that inserting it once gives. |
| Dns.RepeatedLineUnchanged | wulib/network.py:12-24 | Appending a line that is already in the list does not change the tree. |
| Dns.ParentCoversSubdomain | wulib/network.py:22-39 | Listing `example.com` covers `www.example.com`. |
| Dns.SubdomainDoesNotCoverParent | wulib/network.py:26-39 | Listing only `www.example.com` does not cover `example.com`. |
| Dns.TwoDomainsCoverSubdomain | wulib/network.py:26-39 | With `google.com` and `example.com` listed, `mail.google.com` is covered. |
| Dns.ListedNameAsLabelsNotCovered | wulib/network.py:27-39 | With `google.com` and `example.com` listed, `google.com.evil.com` is not covered. |
| Dns.OtherLabelNotCovered | wulib/network.py:27-39 | With `google.com` and `example.com` listed, `evil.com` and `notexample.com` are not covered. |
| Dns.DeepestNodeDecides | wulib/network.py:33-39 | With `example.com` and `a.b.example.com` listed, `x.b.example.com` is not covered. The walk stops at the unlisted `b.example.com`, and the listed node above it does not count. |
| Dns.LineLabels | wulib/network.py:13-14 | Definition: the path a list line is inserted along, `line.strip().split('.')` reversed. |
| Dns.BlankLineLabels | wulib/network.py:13 | A whitespace-only line becomes the path `[""]`. |
| Dns.BlankLineCoversTrailingDot | wulib/network.py:12-39 | A blank line is not skipped. It lists the empty label, so both the empty query and every name with a trailing dot are covered. The same name without the dot is not covered. |
| Dns.QueryLabels | wulib/network.py:27-28 | Definition: the path a query walks, `domain.split('.')` reversed, with no stripping. |
| Dns.QueryLabelsCons | wulib/network.py:27-28 | The first label of a name is walked last. |
| PyStr.Strip | wulib/network.py:13 | Definition: `str.strip()`, dropping whitespace at both ends. |
| PyStr.Split | wulib/network.py:13 | `str.split(sep)` for one separator character. The result is never empty, since `''.split('.')` is `['']`. |
| PyStr.Reverse | wulib/network.py:14 | `list.reverse()` as a value. The result has the input's length. |
| PyStr.StripIsTrimmedSlice | wulib/network.py:13 | `strip()` removes exactly the whitespace at both ends. What is left starts and ends with a non-whitespace character. |
| PyStr.SplitJoin | wulib/network.py:13 | Joining the pieces of `split('.')` gives back the string. No piece contains the separator. |
| PyStr.SplitOfJoin | wulib/network.py:27 | Splitting a join of separator-free pieces gives the pieces back. |
| PyStr.ReverseAt | wulib/network.py:14 | `reverse()` puts the element at index `k` at the mirrored position. |
| Networks.Find | wulib/network.py:84-95 | `_find` on an empty list finds nothing. Any network it returns is in the list and holds the address. It recurses on strictly shorter slices. |
| Networks.FindComplete | wulib/network.py:84-95 | On a list sorted by first address whose last addresses never decrease, the search finds a network if and only if some listed network holds the address. |
| Networks.HolderAboveMiddle | wulib/network.py:92-93 | Going right is safe. An address above the middle network's first address but outside it is above every earlier network. |
| Networks.HolderBelowMiddle | wulib/network.py:94-95 | Going left is safe. An address at or below the middle network's first address but outside it is below every later network. |
| Networks.AlignedBlock | wulib/network.py:58 | The block for a mask holds the address, has `mask + 1` addresses and starts at a multiple of that size. |
| Networks.ShiftLeft | wulib/network.py:58 | Definition: Python's `a << k`, which raises `ValueError` for a negative count (`None`). `ExpandEntry` turns that into the error naming `netsize`. |
| Networks.ExpandEntry | wulib/network.py:56-58 | Definition: a line's network when `netsize` is given, the block of `mask + 1` addresses around the address. |
| Networks.ExpandEntryBlock | wulib/network.py:58 | The mask `(2 << netsize - 1) - 1` is `2^netsize - 1`. The shift raises exactly when `netsize < 1`. |
| Networks.ParseLines | wulib/network.py:52-59 | Without `netsize` the networks are the parsed lines. With `netsize` each becomes its aligned block of `2^netsize` addresses. The negative shift raises at the first line, so an empty list never raises it. |
| Networks.SortByLo | wulib/network.py:61 | The sorted list is a permutation of its input. |
| Networks.SortByLoSorted | wulib/network.py:61 | The sorted list is ascending by first address. |
| Networks.SortByLoStable | wulib/network.py:61 | The sort is stable: networks with the same first address keep their input order. |
| Networks.CheckNesting | wulib/network.py:62-82 | The check passes if and only if no later network ends before an earlier one. Otherwise it reports the first such pair in loop order as `<inner> is contained within <outer>`. |
| Networks.FirstViolationUnique | wulib/network.py:62-82 | The first violating pair is unique, so the reported error is determined by the list. |
| Networks.ViolationIsContainment | wulib/network.py:80-82 | In a list sorted by first address, a rejected pair is nested, as the error message says: the later network lies inside the earlier one. |
| Networks.IPList.FromChecked | wulib/network.py:61-82 | The object holds the given list, which is sorted by first address with last addresses non-decreasing (`Valid()`). |
| Networks.PairAccepted | wulib/network.py:61-82 | Two networks where the second starts and ends no earlier than the first sort to themselves and pass the check. This covers a nested pair with the same last address, a nested pair with the same first address listed smaller first, and a duplicate. |
| Networks.NestedSameEndAccepted | wulib/network.py:61-82 | `10.0.0.0/8` followed by `10.255.0.0/16`: the second lies strictly inside the first, yet the list sorts to itself and passes the check, so `Load` accepts it. |
| Networks.IPList.Load | wulib/network.py:49-82 | Parse, sort and check. After parsing, the shift error is raised exactly in its case. Otherwise construction succeeds if and only if the sorted list has non-decreasing last addresses, and the error names the first violating pair. On success `networks` is the sorted permutation of the parsed networks, and the invariant holds. |
| Networks.IPList.Contains | wulib/network.py:97-98 | `ip in self` returns a listed network holding `ip`. On a constructed list it finds one if and only if some listed network holds `ip`. |
| Networks.NestedListDefeatsSearch | wulib/network.py:65-79 | The example in the constructor's comment: `41.0.0.0/8`, `41.41.0.0/24`, `41.255.0.0/16` with the query `41.100.0.0`. The list is sorted and holds the address, yet the search misses it; the check rejects the first two networks. |
| Networks.Subscript | wulib/network.py:86-89 | Definition: Python's list subscript `networks[mid]`. A float index raises `TypeError`, an out-of-range integer index raises `IndexError`, and a negative one counts from the end. |
| Networks.FindAsWritten | wulib/network.py:84-89 | Definition: `_find` as written under Python 3, where `mid = len(networks) / 2` is a float. The subscript raises before any comparison is made. |
| Networks.FindAsWrittenAlwaysRaises | wulib/network.py:85-89 | Under Python 3, `_find` as written raises `TypeError` on every list, even an empty one. |
| Core.Take | wulib/core.py:17-19 | `take(n, xs)` is the first `min(n, len(xs))` items of `xs`, in order. |
| Core.Slice | wulib/core.py:36 | With non-negative bounds `l[i:j]` is the clamped slice. |
| Core.Step | wulib/core.py:34 | Definition: the step `range` uses, `slide`, or `n` when `slide is None`. |
| Core.Chunks | wulib/core.py:31-36 | A zero step raises, and a negative step yields nothing. Otherwise the chunks are the slices `l[k*step : k*step+n]` for exactly those `k` with `k*step < len(l)`. |
| Core.Windows | wulib/core.py:35-36 | Definition: what `for i in range(start, len(l), step): yield l[i:i+n]` yields. |
| Core.WindowsAt | wulib/core.py:35-36 | The `k`-th window is the slice of size `n` at its offset. |
| Core.WindowsCount | wulib/core.py:35 | There is one window per start below `len(l)`. |
| Core.WindowsFlatten | wulib/core.py:34-36 | When the step equals the size, the windows concatenate to the rest of the list. |
| Core.WindowsSizes | wulib/core.py:34-36 | When the step equals the size, every window holds 1 to `n` items, and all but the last hold exactly `n`. |
| Core.ChunksPartition | wulib/core.py:34-36 | With the default slide, there are `ceil(len(l) / n)` chunks. They concatenate to `l`, each holds `n` items except the last, and the last holds 1 to `n`. |
| Core.IChunks | wulib/core.py:21-29 | `ichunks(l, n)` yields nothing for `n == 0`. Otherwise it yields exactly the chunks of `chunks(l, n)`, so these pieces partition `l`. |
| Core.TakeFrom | wulib/core.py:25-26 | A `take` from an iterator advanced to `start` gives the next `n` items, or fewer at the end. |
| Core.UniqueBy | wulib/core.py:51-56 | The keyed loop yields the first item of each key, in input order. |
| Core.Unique | wulib/core.py:47-50 | The `filterfalse(seen.__contains__, ...)` loop yields the first occurrence of each item, in input order. |
| Core.FirstOfEach | wulib/core.py:40-56 | Definition: the items whose key is neither in `seen` nor the key of an earlier item, which is what `unique` yields. |
| Core.FirstOfEachSnoc | wulib.py:24-29 | An item is yielded exactly when its key was not met before it. The keyed loop is the same code in both editions (wulib/core.py:51-56). |
| Core.FirstOfEachDistinct | wulib/core.py:51-56 | No two yielded items share a key. |
| Core.FirstOfEachCovers | wulib/core.py:51-56 | Every key of the input is the key of a yielded item. |
| Core.FirstOfEachSubseq | wulib/core.py:40-56 | The yielded items appear in the input, in input order. |
| Core.UniqueWithoutKey | wulib.py:20-23 | Without a key, the output has no duplicates, keeps first-occurrence order and has the same set of items as the input. The loop is the same code in both editions (wulib/core.py:47-50). |
| Core.UniqueExample | wulib/core.py:43 | `unique('AAAABBBCCDAABBB')` yields `A B C D`. |
| Core.UniqueByExample | wulib/core.py:44 | `unique('ABBCcAD', str.lower)` yields `A B C D`. |
| Core.AnyP | wulib/core.py:61-66 | The result is the first item satisfying the predicate. It is `False` (here `None`) if and only if no item satisfies it. |
| Core.SortByCount | wulib/core.py:155 | Sorting by count gives a permutation of the entries. |
| Core.SortByCountSorted | wulib/core.py:155 | The sorted entries have non-increasing counts. |
| Core.SortByCountStable | wulib/core.py:155 | Entries with equal counts keep their `d.items()` order. |
| Core.SortByCountDistinct | wulib/core.py:155 | Sorting keeps the items distinct. |
| Core.SortByCountSum | wulib/core.py:155 | Sorting keeps the sum of the counts. |
| Core.CountAgain | wulib/core.py:152-153 | Counting an item already in the dictionary adds one to its count and keeps the loop's invariant. |
| Core.CountFirst | wulib/core.py:152-153 | Counting a new item adds it with count 1 at the end of the insertion order and keeps the loop's invariant. |
| Core.EntriesAreTally | wulib/core.py:155 | When the count loop ends, `d.items()` lists each distinct item with its number of occurrences, in first-occurrence order. |
| Core.TallyDistinct | wulib/core.py:151-155 | The tally has one entry per item. |
| Core.TallyItems | wulib/core.py:151-155 | The tally has an entry for every item of the input and for nothing else. |
| Core.FrequencyOrder | wulib/core.py:149-155 | The result of `frequency` lists each distinct item once, with its number of occurrences. It is ordered by non-increasing count, and equal counts are in first-occurrence order. |
| Core.Frequency | wulib/core.py:149-155 | The counting loop followed by the sort yields the sorted tally, and the counts sum to the length of the input. |
| Core.AsciiOnly | wulib/core.py:168-170 | `fuckunicode(s)` keeps exactly the characters of `s` below 128, each as often as in `s`, in their order in `s`. |
| Legacy.Chunks | wulib.py:6-9 | A zero size raises, and a negative size yields nothing. For a positive size there are `ceil(len(l) / n)` chunks that concatenate to `l`, each of `n` items except the last, which holds 1 to `n`. |

## Left out

- Reading the list files (wulib/network.py:11, 51) is not modelled. The constructors take the lines as a sequence.
- IPy is not modelled. Networks are given as integer intervals, so the model does not cover:
  - address parsing and IPv4/IPv6 distinctions;
  - `ip in net`, which is taken to be `lo <= ip <= hi`.
- `self.IP` is not defined on the class. It is read as `IPy.IP`, and the query address is already an integer.
- `make_net` is abstracted. How IPy reads the mask is not visible, so the network it builds is taken to be the aligned block of `2^netsize` addresses around the line's address (`Networks.AlignedBlock`).
- Networks.IPList.Contains: returns the found network, or `None` for `False`. Python's `in` turns this into `True` or `False`, so a returned object counts as true.
- Dns.DomainList.constructor: the tree is a value. The aliasing between `node` and the nested dicts it points into is not modelled, only the resulting tree.
- In three places the two list structures behave in a way their comments or a reader might not expect. The model follows the code:
  - The comment at wulib/network.py:22-23 ties the sentinel to including subdomains. In the code a query is decided only at the deepest node it reaches, not by a listed ancestor on the way (`Dns.DeepestNodeDecides`).
  - Blank lines are not skipped. An empty line lists the empty label (`Dns.BlankLineCoversTrailingDot`).
  - wulib/network.py:45-47 says no network may be a subset of another. The check at wulib/network.py:80 only rejects a later network that ends strictly before an earlier one. A rejected pair is indeed nested (`Networks.ViolationIsContainment`). The converse fails: nested pairs with the same last address, a pair with the same first address listed smaller first, and duplicates are all accepted (`Networks.PairAccepted`, `Networks.NestedSameEndAccepted`). The search stays complete on every accepted list (`Networks.FindComplete`).
- Networks.IPList.Load: assumes Python assertions are enabled. The whole check is the `assert` at wulib/network.py:80. Under `python -O` it is removed, so construction never raises and nested lists are accepted silently.
- Core.Take: `n` is a natural number. A negative `n`, for which `islice` raises `ValueError`, is not modelled.
- Core.IChunks: `n` is a natural number for the same reason.
- Generators are modelled as the finite list of everything they yield. Laziness and infinite iterables are out of scope.
- Core.AnyP: `False` is modelled as `None`. A found item that is itself falsy cannot be told apart from `False` in Python.
- Core.AsciiOnly: returns the list of characters that `list(filter(...))` builds, as a string.
- Core.Frequency: `d.items()` lists keys in insertion order, as dictionaries do from Python 3.7 on.
- Core.UniqueBy: the key is a total, side-effect-free function.
- Legacy.Chunks: a non-integer `n`, which Python 2's `range` rejects, is not modelled.
- The rest of `wulib/core.py` is not modelled:
  - `retry`, `withtor`, `inittorsocket` and `ipythonshell` (sleeping, randomness, processes, threads, IPython);
  - `meanwithconfidence` (floating point, numpy, scipy);
  - `scriptdir` and `rwalk` (the filesystem);
  - `ConfClass` (reflection);
  - `flatten` and `compose` (thin wrappers over `chain` and `reduce`).

## Findings

| source | as written | input that shows it | evidently intended | confidence | as-written member | corrected member |
|---|---|---|---|---|---|---|
| wulib/network.py:85 | `mid = len(networks) / 2` is a `float` under Python 3, in which the package is written. `networks[mid]` then raises `TypeError`, which `except IndexError` does not catch. | any list, even the empty one: `_find([], ip)` raises instead of returning `False` | floor division `len(networks) // 2` | not executed | Networks.FindAsWrittenAlwaysRaises | Networks.FindComplete |
