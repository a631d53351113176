/**
 * The download engine with its network stripped away. The resource is a
 * byte sequence held by a model server; each task's body is what that server
 * answers to the task's Range header, and the channel delivers the tasks'
 * results in an arbitrary order.
 */
module Download {
  import opened Wrappers
  import opened RangePlan
  import opened RangeSyntax
  import opened Assembly

  function Min(a: int, b: int): int {
    if a <= b then a else b
  }

  /** What a server does with a range whose end precedes its start: section
      14.2 of RFC 9110 lets it ignore the header (status 200, whole
      representation) or reject the request (status 416, with a body of its
      own, which need not be the one sent for an unsatisfiable range). */
  datatype InvalidRange = IgnoreInvalid | RejectInvalid(body: seq<byte>)

  /** A model server: the representation it holds, its choice for invalid
      ranges, and the body it sends with a 416 response to an unsatisfiable
      range. */
  datatype Server = Server(resource: seq<byte>, policy: InvalidRange, errorBody: seq<byte>)

  /** The body the server sends for a request whose header reads as the
      range `r`: for an invalid range, what its policy says; for a range that
      starts at or past the end (unsatisfiable), the 416 body; otherwise the
      bytes of the range with its end clamped to the last byte. */
  function Answer(srv: Server, r: ByteRange): seq<byte> {
    if r.last < r.first then InvalidAnswer(srv)
    else if r.first >= |srv.resource| then srv.errorBody
    else srv.resource[r.first..Min(r.last + 1, |srv.resource|)]
  }

  /** The body sent for an invalid range. */
  function InvalidAnswer(srv: Server): seq<byte> {
    match srv.policy
    case IgnoreInvalid => srv.resource
    case RejectInvalid(body) => body
  }

  /** The body the server sends for a request with Range header `header`
      (section 14 of RFC 9110); a header it cannot read is ignored. */
  function Serve(srv: Server, header: string): seq<byte> {
    match ParseRange(header)
    case None => srv.resource
    case Some(r) => Answer(srv, r)
  }

  /** `downloadPartial`: send the Range header and read the whole body,
      whatever the status of the response. The header parses back to the
      range `[offset, end]`, so the body is the server's answer to it. */
  function DownloadPartial(srv: Server, offset: nat, end: nat): (body: seq<byte>)
    ensures body == Answer(srv, ByteRange(offset, end))
  {
    HeaderRoundTrip(offset, end);
    Serve(srv, RangeHeader(offset, end))
  }

  /** The body each task of `plan` reads, by task index: the server's answer
      to that task's range. */
  function Payloads(srv: Server, plan: seq<ByteRange>): (p: seq<seq<byte>>)
    ensures |p| == |plan|
    ensures forall i :: 0 <= i < |plan| ==> p[i] == DownloadPartial(srv, plan[i].first, plan[i].last)
    ensures forall i :: 0 <= i < |plan| ==> p[i] == Answer(srv, plan[i])
  {
    seq(|plan|, i requires 0 <= i < |plan| => DownloadPartial(srv, plan[i].first, plan[i].last))
  }

  /**
   * The tasks of `download` for the ranges of `plan`: task `i` sends its
   * index and the body it reads for `plan[i]`; the results are received in
   * the order `order`, stored in a map and joined by `sortParts`.
   */
  method Fetch(srv: Server, plan: seq<ByteRange>, order: seq<int>) returns (data: seq<byte>)
    requires 1 <= |plan|
    requires IsArrivalOrder(order, |plan|)
    ensures data == Joined(Indexed(Payloads(srv, plan)))
  {
    var payloads: seq<seq<byte>> := [];
    for i := 0 to |plan|
      invariant payloads == Payloads(srv, plan)[..i]
    {
      payloads := payloads + [DownloadPartial(srv, plan[i].first, plan[i].last)];
    }
    assert payloads == Payloads(srv, plan);
    var arrivals := Deliver(order, payloads);
    var m, received := Collect(arrivals, |plan|);
    assert arrivals[..|plan|] == arrivals;
    CollectedMap(order, payloads);
    data := SortParts(m);
  }

  /**
   * `download` with the plan of the code. `size` is the Content-Length the
   * server advertised, which `getSize` reads as 0 when it is missing.
   */
  method Download(srv: Server, size: nat, parts: int, order: seq<int>) returns (data: seq<byte>)
    requires 1 <= parts
    requires IsArrivalOrder(order, parts)
    ensures data == Joined(Indexed(Payloads(srv, Plan(size, parts))))
    ensures size == |srv.resource| && parts <= size ==>
              data == srv.resource + (if 2 <= parts == size then srv.errorBody else [])
    ensures size == 0 ==> data == Answer(srv, ByteRange(0, 0)) + Repeat(InvalidAnswer(srv), parts - 1)
  {
    data := Fetch(srv, Plan(size, parts), order);
    if size == |srv.resource| && parts <= size {
      RoundTrip(srv, parts);
    }
    if size == 0 {
      ZeroSize(srv, parts);
    }
  }

  // ---------------------------------------------------------------------------
  // Reassembly of a tiling plan

  /** `plan` tiles a resource of `size` bytes: it starts at 0, each range but
      the last is well formed, inside the resource and followed directly by the
      next, and the last range reaches the end. */
  predicate Tiles(plan: seq<ByteRange>, size: nat) {
    && 1 <= |plan|
    && plan[0].first == 0
    && (forall j :: 0 <= j < |plan| - 1 ==> Link(plan, size, j))
    && plan[|plan| - 1].first <= plan[|plan| - 1].last
    && plan[|plan| - 1].first <= size <= plan[|plan| - 1].last + 1
  }

  /** Range `j` is well formed, inside the resource, and range `j + 1`
      starts right after it. */
  predicate Link(plan: seq<ByteRange>, size: nat, j: nat)
    requires j + 1 < |plan|
  {
    plan[j].first <= plan[j].last < size && plan[j + 1].first == plan[j].last + 1
  }

  /** The extra body read for a last range that starts at the end of the
      resource (unsatisfiable), and nothing otherwise. */
  function Leftover(plan: seq<ByteRange>, size: nat, errorBody: seq<byte>): seq<byte>
    requires 1 <= |plan|
  {
    if plan[|plan| - 1].first == size then errorBody else []
  }

  /** The first step of `TiledSuffix`: the values at `j, j+1, ..., n-1` are
      the value at `j` followed by those at `j+1, ..., n-1`. */
  lemma ConcatIota(m: map<int, seq<byte>>, j: int, n: int)
    requires j < n && KeysIn(m, Iota(j + 1, n)) && j in m
    ensures KeysIn(m, Iota(j, n))
    ensures ConcatValues(m, Iota(j, n)) == m[j] + ConcatValues(m, Iota(j + 1, n))
  {
    assert Iota(j, n)[1..] == Iota(j + 1, n);
  }

  /** The answer to a range of a tiling plan: a slice of the resource, or the
      error body for a last range that starts at the end. */
  lemma TileAnswer(srv: Server, plan: seq<ByteRange>, j: nat)
    requires Tiles(plan, |srv.resource|) && j < |plan|
    ensures plan[j].first <= |srv.resource|
    ensures j < |plan| - 1 ==>
              plan[j].first <= plan[j].last && plan[j + 1].first == plan[j].last + 1 <= |srv.resource|
    ensures j < |plan| - 1 ==>
              Answer(srv, plan[j]) == srv.resource[plan[j].first..plan[j + 1].first]
    ensures j == |plan| - 1 ==>
              Answer(srv, plan[j]) + []
              == srv.resource[plan[j].first..] + Leftover(plan, |srv.resource|, srv.errorBody)
  {
    if j < |plan| - 1 {
      assert Link(plan, |srv.resource|, j);
    }
  }

  lemma SliceSplit(s: seq<byte>, a: nat, b: nat)
    requires a <= b <= |s|
    ensures s[a..b] + s[b..] == s[a..]
  {
  }

  lemma AppendAssoc(a: seq<byte>, b: seq<byte>, c: seq<byte>)
    ensures a + (b + c) == (a + b) + c
  {
  }

  lemma {:induction false} TiledSuffix(srv: Server, plan: seq<ByteRange>, m: map<int, seq<byte>>, j: nat)
    requires Tiles(plan, |srv.resource|) && j < |plan| && plan[j].first <= |srv.resource|
    requires forall i :: 0 <= i < |plan| ==> i in m && m[i] == Answer(srv, plan[i])
    ensures KeysIn(m, Iota(j, |plan|))
    ensures ConcatValues(m, Iota(j, |plan|))
         == srv.resource[plan[j].first..] + Leftover(plan, |srv.resource|, srv.errorBody)
    decreases |plan| - j
  {
    var n := |plan|;
    TileAnswer(srv, plan, j);
    if j == n - 1 {
      assert Iota(j + 1, n) == [];
      ConcatIota(m, j, n);
    } else {
      TiledSuffix(srv, plan, m, j + 1);
      ConcatIota(m, j, n);
      var a, b := plan[j].first, plan[j + 1].first;
      var head, tail, rest := srv.resource[a..b], srv.resource[b..], Leftover(plan, |srv.resource|, srv.errorBody);
      assert m[j] == head;
      assert ConcatValues(m, Iota(j + 1, n)) == tail + rest;
      SliceSplit(srv.resource, a, b);
      AppendAssoc(head, tail, rest);
    }
  }

  /** The bodies of tasks `0..n-1`, joined, in task order. */
  lemma JoinedIndexed(p: seq<seq<byte>>)
    ensures KeysIn(Indexed(p), Iota(0, |p|))
    ensures Joined(Indexed(p)) == ConcatValues(Indexed(p), Iota(0, |p|))
  {
    JoinedInKeyOrder(Indexed(p));
    AscendingIndices(p);
  }

  /** Joining the bodies read for a tiling plan gives back the resource,
      followed by the error body when the last range is unsatisfiable,
      whatever the server does with invalid ranges. */
  lemma TiledAssembly(srv: Server, plan: seq<ByteRange>)
    requires Tiles(plan, |srv.resource|)
    ensures Joined(Indexed(Payloads(srv, plan)))
         == srv.resource + Leftover(plan, |srv.resource|, srv.errorBody)
  {
    var p := Payloads(srv, plan);
    JoinedIndexed(p);
    TiledSuffix(srv, plan, Indexed(p), 0);
    assert srv.resource[0..] == srv.resource;
  }

  // ---------------------------------------------------------------------------
  // The plan of the code

  /** With `1 <= parts <= size` the plan tiles the resource. */
  lemma PlanTiles(size: nat, parts: int)
    requires 1 <= parts <= size
    ensures Tiles(Plan(size, parts), size)
  {
    var plan := Plan(size, parts);
    var ps := PartSize(size, parts);
    PartSizePositive(size, parts);
    forall j | 0 <= j < parts - 1
      ensures Link(plan, size, j)
    {
      SegmentNonEmpty(size, parts, j);
      SegmentSpan(size, parts, j);
      Contiguous(size, parts, j);
      MulStrict(ps, j + 1, parts);
    }
    SegmentNonEmpty(size, parts, parts - 1);
    LastSegment(size, parts);
  }

  /** Slicing a resource by the plan and joining the slices gives back the
      resource, except that with as many tasks as bytes (and more than one) the
      last task reads the body of a 416 response, which is appended. */
  lemma RoundTrip(srv: Server, parts: int)
    requires 1 <= parts <= |srv.resource|
    ensures Joined(Indexed(Payloads(srv, Plan(|srv.resource|, parts))))
         == srv.resource + (if 2 <= parts == |srv.resource| then srv.errorBody else [])
  {
    PlanTiles(|srv.resource|, parts);
    TiledAssembly(srv, Plan(|srv.resource|, parts));
    PlanLeftover(|srv.resource|, parts, srv.errorBody);
  }

  lemma PlanLeftover(size: nat, parts: int, errorBody: seq<byte>)
    requires 1 <= parts <= size
    ensures Leftover(Plan(size, parts), size, errorBody) == if 2 <= parts == size then errorBody else []
  {
    LastStartsPastEnd(size, parts);
  }

  /** A single task downloads the whole resource. */
  lemma SinglePart(srv: Server)
    requires 1 <= |srv.resource|
    ensures Joined(Indexed(Payloads(srv, Plan(|srv.resource|, 1)))) == srv.resource
  {
    RoundTrip(srv, 1);
  }

  /** `n` copies of `s`, one after another. */
  function Repeat(s: seq<byte>, n: nat): (r: seq<byte>)
    ensures |r| == n * |s|
  {
    if n == 0 then [] else s + Repeat(s, n - 1)
  }

  /** The plan for an advertised size of 0: task 0 asks for `[0, 0]` and
      every other task for the invalid range `[1, 0]`. */
  lemma ZeroSizePlan(parts: int)
    requires 1 <= parts
    ensures Plan(0, parts)[0] == ByteRange(0, 0)
    ensures forall i :: 1 <= i < parts ==> Plan(0, parts)[i] == ByteRange(1, 0)
  {
    assert PartSize(0, parts) == 0;
  }

  /** An advertised size of 0 (also what a missing Content-Length gives)
      yields the answer to `bytes=0-0` (the first byte, or the 416 body for
      an empty resource) followed by the answer to the invalid `bytes=1-0`
      once per further task (the whole resource, or the invalid-range body). */
  lemma ZeroSize(srv: Server, parts: int)
    requires 1 <= parts
    ensures Joined(Indexed(Payloads(srv, Plan(0, parts))))
         == Answer(srv, ByteRange(0, 0)) + Repeat(InvalidAnswer(srv), parts - 1)
  {
    var plan := Plan(0, parts);
    var p := Payloads(srv, plan);
    ZeroSizeBodies(srv, parts);
    var m := Indexed(p);
    JoinedIndexed(p);
    SameBodies(m, InvalidAnswer(srv), 1, parts);
    assert Iota(0, parts)[1..] == Iota(1, parts);
  }

  lemma ZeroSizeBodies(srv: Server, parts: int)
    requires 1 <= parts
    ensures Payloads(srv, Plan(0, parts))[0] == Answer(srv, ByteRange(0, 0))
    ensures forall i :: 1 <= i < parts ==> Payloads(srv, Plan(0, parts))[i] == InvalidAnswer(srv)
  {
    ZeroSizePlan(parts);
  }

  lemma {:induction false} SameBodies(m: map<int, seq<byte>>, body: seq<byte>, j: int, n: int)
    requires 0 <= j <= n
    requires forall i :: j <= i < n ==> i in m && m[i] == body
    ensures KeysIn(m, Iota(j, n)) && ConcatValues(m, Iota(j, n)) == Repeat(body, n - j)
    decreases n - j
  {
    if j < n {
      SameBodies(m, body, j + 1, n);
      assert Iota(j, n)[1..] == Iota(j + 1, n);
    }
  }

  /** An empty resource advertised as empty yields the 416 body of task 0
      alone for a server that ignores invalid ranges; one that rejects them
      adds its invalid-range body once per further task. */
  lemma EmptyResource(srv: Server, parts: int)
    requires 1 <= parts && srv.resource == []
    ensures srv.policy == IgnoreInvalid ==>
              Joined(Indexed(Payloads(srv, Plan(0, parts)))) == srv.errorBody
    ensures srv.policy.RejectInvalid? ==>
              Joined(Indexed(Payloads(srv, Plan(0, parts))))
              == srv.errorBody + Repeat(srv.policy.body, parts - 1)
  {
    ZeroSize(srv, parts);
    if srv.policy == IgnoreInvalid {
      EmptyRepeat(parts - 1);
    }
  }

  lemma {:induction false} EmptyRepeat(n: nat)
    ensures Repeat([], n) == []
  {
    if n > 0 {
      EmptyRepeat(n - 1);
    }
  }

  // ---------------------------------------------------------------------------
  // Two inputs the code mishandles

  /** Two bytes in two parts: task 1 asks for `bytes=2-2`, which names no byte
      of the resource, and the 416 body ends up in the output. */
  lemma TwoBytesTwoParts(srv: Server)
    requires |srv.resource| == 2
    ensures Plan(2, 2) == [ByteRange(0, 1), ByteRange(2, 2)]
    ensures Joined(Indexed(Payloads(srv, Plan(2, 2)))) == srv.resource + srv.errorBody
  {
    RoundTrip(srv, 2);
  }

  /** One byte in three parts: task 1 asks for the invalid range `bytes=1-0`.
      A server that ignores it sends the whole resource, which is joined
      twice; one that rejects it sends its invalid-range body. */
  lemma OneByteThreeParts(b: byte, policy: InvalidRange, errorBody: seq<byte>)
    ensures Plan(1, 3) == [ByteRange(0, 0), ByteRange(1, 0), ByteRange(1, 1)]
    ensures policy == IgnoreInvalid ==>
              Joined(Indexed(Payloads(Server([b], policy, errorBody), Plan(1, 3)))) == [b, b] + errorBody
    ensures policy.RejectInvalid? ==>
              Joined(Indexed(Payloads(Server([b], policy, errorBody), Plan(1, 3))))
              == [b] + policy.body + errorBody
  {
    var srv := Server([b], policy, errorBody);
    OneByteThreePlan();
    OneByteThreeJoin(srv);
    var out := Joined(Indexed(Payloads(srv, Plan(1, 3))));
    assert out == [b] + InvalidAnswer(srv) + errorBody;
  }

  /** One byte in three parts, for either policy: the byte, the answer to the
      invalid range, the 416 body. */
  lemma OneByteThreeJoin(srv: Server)
    requires |srv.resource| == 1
    ensures Joined(Indexed(Payloads(srv, Plan(1, 3)))) == srv.resource + InvalidAnswer(srv) + srv.errorBody
  {
    OneByteThreePlan();
    var x := InvalidAnswer(srv);
    OneByteThreeBodies(srv);
    var p := [srv.resource, x, srv.errorBody];
    JoinedIndexed(p);
    ThreeValues(Indexed(p));
    AppendAssoc(srv.resource, x, srv.errorBody);
  }

  lemma OneByteThreePlan()
    ensures Plan(1, 3) == [ByteRange(0, 0), ByteRange(1, 0), ByteRange(1, 1)]
  {
    assert PartSize(1, 3) == 0;
    var plan := Plan(1, 3);
    assert plan[0] == ByteRange(0, 0) && plan[1] == ByteRange(1, 0) && plan[2] == ByteRange(1, 1);
  }

  lemma OneByteThreeBodies(srv: Server)
    requires |srv.resource| == 1
    ensures Payloads(srv, [ByteRange(0, 0), ByteRange(1, 0), ByteRange(1, 1)])
         == [srv.resource, InvalidAnswer(srv), srv.errorBody]
  {
    var plan := [ByteRange(0, 0), ByteRange(1, 0), ByteRange(1, 1)];
    var p := Payloads(srv, plan);
    assert Answer(srv, plan[0]) == srv.resource by {
      assert srv.resource[0..1] == srv.resource;
    }
    assert p[0] == srv.resource && p[1] == InvalidAnswer(srv) && p[2] == srv.errorBody;
  }

  lemma ThreeValues(m: map<int, seq<byte>>)
    requires 0 in m && 1 in m && 2 in m
    ensures KeysIn(m, Iota(0, 3)) && ConcatValues(m, Iota(0, 3)) == m[0] + (m[1] + m[2])
  {
    assert Iota(3, 3) == [];
    ConcatIota(m, 2, 3);
    ConcatIota(m, 1, 3);
    ConcatIota(m, 0, 3);
    assert m[2] + [] == m[2];
  }

  // ---------------------------------------------------------------------------
  // The plan as intended

  datatype PlanError = PartsExceedSize

  /** Segment `i` when every task takes `partSize` bytes starting at
      `partSize * i` and the last one ends at the last byte. */
  function FixedSegment(size: nat, parts: int, i: nat): ByteRange
    requires 1 <= parts <= size && i < parts
  {
    var partSize := PartSize(size, parts);
    PartSizePositive(size, parts);
    ByteRange(partSize * i, if i == parts - 1 then size - 1 else partSize * (i + 1) - 1)
  }

  /** A plan that rejects more tasks than bytes (an advertised size of 0
      included) and keeps every range inside the resource. */
  function CheckedPlan(size: nat, parts: int): Result<seq<ByteRange>, PlanError>
    requires 1 <= parts
  {
    if parts > size then Err(PartsExceedSize)
    else Ok(seq(parts, i requires 0 <= i < parts => FixedSegment(size, parts, i)))
  }

  lemma FixedPlanTiles(size: nat, parts: int)
    requires 1 <= parts <= size
    ensures CheckedPlan(size, parts).Ok?
    ensures Tiles(CheckedPlan(size, parts).value, size)
    ensures forall i :: 0 <= i < parts ==>
              CheckedPlan(size, parts).value[i].first <= CheckedPlan(size, parts).value[i].last < size
  {
    var plan := CheckedPlan(size, parts).value;
    var ps := PartSize(size, parts);
    PartSizePositive(size, parts);
    forall i | 0 <= i < parts
      ensures plan[i].first <= plan[i].last < size
      ensures i < parts - 1 ==> Link(plan, size, i)
    {
      MulStrict(ps, i, parts);
      assert ps * (i + 1) == ps * i + ps;
      if i < parts - 1 {
        MulStrict(ps, i + 1, parts);
      }
    }
  }

  /** With the intended plan every accepted download gives back the resource
      exactly, whatever the server does with invalid ranges, and only more
      tasks than bytes is rejected. */
  lemma FixedRoundTrip(srv: Server, parts: int)
    requires 1 <= parts
    ensures CheckedPlan(|srv.resource|, parts).Ok? <==> parts <= |srv.resource|
    ensures CheckedPlan(|srv.resource|, parts).Ok? ==>
              Joined(Indexed(Payloads(srv, CheckedPlan(|srv.resource|, parts).value))) == srv.resource
  {
    if parts <= |srv.resource| {
      FixedPlanTiles(|srv.resource|, parts);
      TiledAssembly(srv, CheckedPlan(|srv.resource|, parts).value);
    }
  }

  /** `download` with the intended plan: more tasks than advertised bytes is
      an error, and when the advertised size is right the result is the
      resource exactly. */
  method CheckedDownload(srv: Server, size: nat, parts: int, order: seq<int>)
    returns (r: Result<seq<byte>, PlanError>)
    requires 1 <= parts
    requires IsArrivalOrder(order, parts)
    ensures r.Ok? <==> parts <= size
    ensures r.Ok? && size == |srv.resource| ==> r.value == srv.resource
  {
    var plan := CheckedPlan(size, parts);
    if plan.Err? {
      r := Err(plan.error);
    } else {
      var data := Fetch(srv, plan.value, order);
      if size == |srv.resource| {
        FixedRoundTrip(srv, parts);
      }
      r := Ok(data);
    }
  }
}
