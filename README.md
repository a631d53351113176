# Parallel range downloader, modelled in Dafny

The program downloads one HTTP resource with `parts` concurrent tasks. It
reads the resource's size from a `HEAD` request. It gives task `i` an
inclusive byte range computed from `partSize = size / parts`. Each task
sends a `Range: bytes=<offset>-<end>` request and reads the whole body.
The tasks' results come back through a channel in any order. The receive
loop stores them in a map keyed by task index. `sortParts` concatenates
the map's values in ascending key order, with key 0 first. The file name
defaults to the last `/`-separated part of the URL.

The model keeps the deterministic parts and replaces the network with a
model server that holds the resource as a byte sequence.

- `RangePlan` (`ranges.dfy`): the per-task range arithmetic, exactly as
  the goroutine body computes it. Segment 0 is `[0, partSize]`. Segment
  `i >= 1` is `[partSize*i+1, partSize*(i+1)]`. The last segment ends at
  `size`, one past the last byte. Lemmas cover start, span, contiguity,
  coverage and disjointness.
- `Decimal`, `RangeSyntax` (`decimal.dfy`, `range_syntax.dfy`): the
  header format `bytes=%d-%d` and the reading of it that a server
  performs (a round trip).
- `Assembly` (`assembly.dfy`): the receive loop as a method over an
  arbitrary arrival sequence. `sortParts` as a method: it gathers keys in
  an unspecified order, sorts them with `sort.Ints` (used by its contract),
  then appends. The result is specified by the ghost function `Joined`,
  and lemmas relate `Joined` to the values in key order.
- `Download` (`download.dfy`): a range-supporting server of section 14 of
  RFC 9110 and the whole pipeline. The server answers an unsatisfiable range with status
  416 and an arbitrary body, and clamps the end of a range. For an invalid
  range (end before start) section 14.2 of RFC 9110 lets a server either
  ignore the header or answer 416; the server carries that choice as a
  parameter (a rejecting server with a 416 body of its own for invalid
  ranges), and the properties are stated for both. The pipeline is
  `Download.Download`. It takes the size advertised by the `HEAD` response
  as a parameter, separate from the resource. The round-trip theorem covers
  an advertised size equal to the resource's length, and a separate lemma
  covers size 0. This module also holds the inputs the code mishandles and
  a corrected plan.
- `Params` (`params.dfy`): `strings.Split` on `/`, `getFileName`, and the
  decision rules of `getParameters`.

Behaviour of the code worth noting:

- For size 10 in 3 parts, segment 1 is `[4, 6]`, and byte 7 goes to
  segment 2.
- The last segment ends at `size`, not `size - 1`. The server's clamping
  makes this harmless.
- `parts > size` is not rejected.
- A missing `Content-Length` yields size 0, not an error.
- The status of a range response is not checked. Whatever body the server
  sends, a 416 body included, is joined in.

## Model

| member | source | states |
|---|---|---|
| RangePlan.PartSize | main.go:80 | `partSize` is the floor of `size / parts`: `partSize * parts <= size < (partSize + 1) * parts` |
| RangePlan.PartSizePositive | main.go:80 | with `1 <= parts <= size`, `partSize >= 1` |
| RangePlan.Segment | main.go:85-95 | no task asks for a range ending past `size`, and a range is at worst empty by one: its end is at least its start minus one |
| RangePlan.Plan | main.go:83-95 | one range per task, `parts` of them, range `i` being the one task `i` computes |
| RangePlan.SegmentStart | main.go:85-88 | segment 0 starts at 0; segment `i >= 1` starts at `partSize * i + 1` |
| RangePlan.SegmentSpan | main.go:85-92 | a segment that is not last ends at `partSize * (i + 1)`; it spans `partSize` bytes, or `partSize + 1` for segment 0 |
| RangePlan.Contiguous | main.go:85-92 | the start of segment `i + 1` is the end of segment `i` plus one |
| RangePlan.LastSegment | main.go:93-94 | the last segment ends at exactly `size`; with one part the segment is `[0, size]` |
| RangePlan.SegmentNonEmpty | main.go:80-95 | with `1 <= parts <= size`, every segment has start <= end |
| RangePlan.StartsIncrease | main.go:85-88 | with `1 <= parts <= size`, the starts strictly increase with the index |
| RangePlan.Covered | main.go:80-95 | with `1 <= parts <= size`, every byte `b < size` is delivered by some task (in its range, end clamped to `size - 1`) |
| RangePlan.Disjoint | main.go:80-95 | with `1 <= parts <= size`, no byte is delivered by two different tasks |
| RangePlan.LastStartsPastEnd | main.go:85-95 | with `1 <= parts <= size`, the last segment starts at `size` (past every byte) if and only if `2 <= parts == size` |
| RangePlan.MoreTasksThanBytes | main.go:80-92 | with `parts > size`, `partSize` is 0 and every interior segment is `[1, 0]` |
| RangePlan.TenBytesThreeParts | main.go:80-95 | size 10 in 3 parts gives `[0,3] [4,6] [7,10]` |
| Decimal.NatToDecimal | main.go:50 | the `%d` rendering of a non-negative number is a non-empty digit string with no leading zero |
| Decimal.DecimalRoundTrip | main.go:50 | reading back the decimal rendering of `n` gives `n` |
| RangeSyntax.RangeHeader | main.go:50 | the header starts with `bytes=`, has at least nine characters, and after `bytes=` holds only digits and dashes (HeaderShape gives the exact form) |
| RangeSyntax.HeaderShape | main.go:50 | the header is `bytes=`, one or more digits, exactly one dash, then one or more digits |
| RangeSyntax.HeaderRoundTrip | main.go:50 | the header `bytes=<first>-<last>` parses back to the range `(first, last)` |
| RangeSyntax.HeaderInjective | main.go:50 | different ranges give different headers |
| Assembly.MapOf | main.go:102-103 | the map after storing a sequence of results: its keys are the indices received, and each holds the data of the last result with that index |
| Assembly.Collect | main.go:100-108 | the receive loop performs exactly `parts` receives, and its map is the one built from the first `parts` arrivals |
| Assembly.CollectedMap | main.go:97-108 | if the arrivals are the results of tasks `0..n-1`, each exactly once in any order, the map has keys `0..n-1` and holds at `i` what task `i` sent |
| Assembly.ArrivalOrderIrrelevant | main.go:100-108 | two arrival orders of the same results give the same map |
| Assembly.SortInts | main.go:63 | `sort.Ints`: the result is non-decreasing and a permutation of the input |
| Assembly.MapKeys | main.go:59-62 | the gathered keys are the map's keys, each exactly once |
| Assembly.SortedKeys | main.go:59-63 | sorting the gathered keys gives the keys in strictly increasing order |
| Assembly.SortedJoin | main.go:63-71 | appending the values in sorted-key order after `parts[0]`, skipping key 0, gives `Joined` |
| Assembly.SortParts | main.go:57-74 | the result is `parts[0]` (empty if absent) followed by the other values in ascending key order |
| Assembly.JoinedInKeyOrder | main.go:64-71 | if key 0 is absent, or no key is negative, the result is all values in ascending key order; a missing key 0 contributes nothing |
| Assembly.JoinedLength | main.go:57-74 | the result's length is the sum of the values' lengths |
| Assembly.NegativeKeyAfterZero | main.go:63-70 | a negative key is joined after key 0: `{-1: [1], 0: [2]}` gives `[2, 1]` |
| Download.DownloadPartial | main.go:48-55 | the body a task reads for `[offset, end]` is the server's answer to exactly that range, since the header it sends parses back to it: the policy's answer for an invalid range, the 416 body for a range starting at or past the end, otherwise the bytes of the range with the end clamped |
| Download.Fetch | main.go:82-110 | for any plan, the tasks' bodies, received in any arrival order, are joined by task index |
| Download.Download | main.go:76-111 | the result is the task bodies joined by index, whatever the arrival order; when the advertised size is the resource's length and `parts <= size`, it is the resource, plus the 416 body when `2 <= parts == size`; when the advertised size is 0, it is the answer to `[0, 0]` followed by one invalid-range answer per further task |
| Download.TiledAssembly | main.go:97-110 | for any plan that tiles the resource, and either invalid-range policy, joining the bodies gives the resource, plus the 416 body when the last range starts at the end |
| Download.PlanTiles | main.go:80-95 | with `1 <= parts <= size`, the plan tiles the resource: it starts at 0, adjacent ranges touch, and the last range reaches the last byte |
| Download.PlanLeftover | main.go:93-94 | with `1 <= parts <= size`, the extra body read by the last task is the 416 body exactly when `2 <= parts == size` |
| Download.RoundTrip | main.go:76-111 | with `1 <= parts <= size`, slicing by the plan and joining gives back the resource, plus the 416 body when `2 <= parts == size` |
| Download.SinglePart | main.go:93-94 | for a non-empty resource, a single task downloads the resource exactly |
| Download.ZeroSizePlan | main.go:80-95 | with advertised size 0, task 0 asks for `[0, 0]` and every other task for the invalid range `[1, 0]` |
| Download.ZeroSize | main.go:79-110 | with advertised size 0 (also what a missing `Content-Length` gives), the output is the answer to `[0, 0]` (the first byte, or the 416 body for an empty resource) followed, once per further task, by the answer to the invalid range: the whole resource, or the rejecting server's invalid-range body |
| Download.EmptyResource | main.go:44 | an empty resource advertised as empty yields the 416 body for task 0 and nothing more when the server ignores invalid ranges; a server that rejects them adds its invalid-range body once per further task |
| Download.TwoBytesTwoParts | main.go:93-94 | two bytes in two parts: the plan is `[0,1] [2,2]`, and the 416 body ends up after the resource |
| Download.OneByteThreeParts | main.go:85-95 | one byte in three parts: the plan is `[0,0] [1,0] [1,1]`; the output is the byte twice then the 416 body when the server ignores invalid ranges, and the byte, the rejecting server's invalid-range body, then the 416 body when it rejects them |
| Download.OneByteThreeJoin | main.go:97-110 | for a one-byte resource in three parts the output is the byte, the answer to the invalid range, then the 416 body |
| Download.FixedPlanTiles | main.go:80-95 | the corrected plan tiles the resource, and every range in it is well formed and inside the resource |
| Download.FixedRoundTrip | main.go:80-95 | the corrected plan is accepted exactly when `parts <= size`; when accepted, joining its bodies gives back the resource exactly, for either invalid-range policy |
| Download.CheckedDownload | main.go:76-111 | the download with the corrected plan fails exactly when `parts` exceeds the advertised size (so size 0 always fails), and with a correct advertised size returns the resource exactly |
| Params.Split | main.go:20 | `strings.Split` by `/` yields at least one piece |
| Params.SplitPieces | main.go:20 | no piece contains `/`, and there is one piece exactly when the string has no `/` |
| Params.SplitJoin | main.go:20 | joining the pieces with `/` gives back the string |
| Params.JoinSplit | main.go:20 | splitting the join of `/`-free pieces gives back the pieces |
| Params.Last | main.go:21 | the definition of `parts[len(parts)-1]`; `Params.LastPiece` gives its properties for a split |
| Params.LastPiece | main.go:20-21 | the last piece of a split by `/` has no `/`, ends the string, and is the whole string or follows a `/` |
| Params.GetFileName | main.go:19-22 | the file name has no `/`, ends the URL, and is either the whole URL or preceded by a `/` |
| Params.FileNameUnique | main.go:19-22 | a suffix with those three properties is the file name: it is exactly the text after the last `/` |
| Params.FileNameWithoutSlash | main.go:19-22 | a URL with no `/` is its own file name |
| Params.FileNameTrailingSlash | main.go:19-22 | a URL ending in `/` gives the empty file name |
| Params.GetParameters | main.go:113-135 | fewer than three arguments, a non-numeric part count, or a part count `<= 0` each give their own error; otherwise the URL is `args[1]`, the part count is positive, and the file name is `args[3]` if given, else the URL's file name |
| Params.DefaultFileName | main.go:129-134 | without a third argument the file name has no `/` and ends the URL |

## Left out

- `getSize` (main.go:34-46): the `HEAD` request and its exits are not modelled. The advertised size is a parameter of `Download.Download`; a missing `Content-Length` gives 0 at main.go:44, and `Download.ZeroSize` states the outcome. Whether a malformed but present `Content-Length` reaches main.go:44 depends on the HTTP library, which is not part of this model. A negative `Content-Length` is not modelled (the size is a `nat`).
- `downloadPartial` (main.go:48-55): the HTTP client is not modelled. It is replaced by the model server `Download.Serve`. A transport failure leaves `resp` nil, and `resp.Body` at main.go:53 then panics and ends the program; the model has no transport failures. A short read is not modelled either: the body is always the server's whole answer.
- `Download.Serve` reads only a single `first-last` range. Suffix ranges and lists of ranges are not parsed, because the program never sends them. A header it cannot read is ignored, as section 14.2 of RFC 9110 allows. Which answer a real server gives to an invalid range is its policy parameter (Go's `net/http` file server, for one, rejects `bytes=1-0` with 416). The body sent for an unsatisfiable range is one fixed body, whatever the range.
- `Download.Serve`: the model server honours every valid, satisfiable range. Section 14.2 of RFC 9110 also lets a server ignore the Range header altogether and answer 200 with the whole representation; the code does not check for status 206 (main.go:52-54), so against such a server every task reads the whole resource and the output is `parts` copies of it. Such a server is not modelled, and `Download.TiledAssembly`, `Download.RoundTrip`, `Download.Download` and `Download.CheckedDownload` hold only for a server that honours ranges.
- Goroutines and the channel (main.go:82-99): an arrival order, a permutation of the task indices, stands in for the scheduler.
- Timing and printing (main.go:58, 72, 77, 81, 109, 114-127): they have no logical content.
- `save` (main.go:24-32): file output is not modelled.
- `os.Args`, `os.Exit` and `strconv.Atoi` (main.go:113-128): the argument vector is a parameter, and `Atoi` is a function parameter returning `None` on error. An exit is an `Err` result.
- Go slice aliasing in `append(parts[0], ...)` (main.go:64-70): the result is modelled as a new sequence.
- Assembly.SortInts: it stands for the library routine `sort.Ints` and is specified by that routine's contract. The in-place sort itself is not modelled.
- Go's 64-bit `int`: wrap-around is not modelled. `partSize * i` never exceeds `size`, so it cannot overflow for any size a `Content-Length` can carry.
- Assembly.MapKeys: Go's randomised map iteration order is modelled as an arbitrary choice (`:|`). The modelled order is therefore unspecified, not random.

## Findings

| source | as written | input that shows it | evidently intended | confidence | as-written member | corrected member |
|---|---|---|---|---|---|---|
| main.go:85-95 | the last task asks for `bytes=size-size` when `2 <= parts == size`. That range is unsatisfiable, and the body of the 416 response is appended to the file | a 2-byte resource in 2 parts: the plan is `[0,1] [2,2]` | `parts` ranges that all lie inside the resource | not executed | Download.TwoBytesTwoParts | Download.CheckedDownload |
| main.go:80-95 | `parts > size` is accepted. Interior tasks then ask for the invalid range `bytes=1-0`, and the server's answer to it (the whole resource, or a 416 body) is joined once per such task | a 1-byte resource in 3 parts: the output is the byte twice then the 416 body, or the byte, the server's invalid-range body, then the 416 body, depending on the server | reject more tasks than bytes | not executed | Download.OneByteThreeParts | Download.CheckedDownload |
| main.go:44 | the error of `strconv.Atoi` is discarded, so a missing `Content-Length` becomes size 0 and the download goes ahead | a 3-byte resource with no `Content-Length`, in 2 parts, from a server that ignores invalid ranges: the output is the first byte followed by the whole resource | stop when the size cannot be read | not executed | Download.ZeroSize | Download.CheckedDownload |
