/**
 * Range planning: the inclusive byte range each download task asks for.
 * `size` is the advertised Content-Length and `parts` the number of tasks;
 * task `i` computes its `(offset, end)` pair by straight-line arithmetic.
 */
module RangePlan {

  /** An inclusive byte range, as written in a `Range: bytes=first-last` header. */
  datatype ByteRange = ByteRange(first: nat, last: nat)

  /** `partSize := size / parts`; `parts` is positive once the arguments are accepted. */
  function PartSize(size: nat, parts: int): (ps: nat)
    requires 1 <= parts
    ensures ps * parts <= size < (ps + 1) * parts
  {
    size / parts
  }

  /** The range task `i` requests, computed as the goroutine body computes it.
      No range ends past `size`, and a range is at worst empty by one: its end
      is at least its start minus one. */
  function Segment(size: nat, parts: int, i: nat): (r: ByteRange)
    requires 1 <= parts && i < parts
    ensures r.last <= size && r.first <= r.last + 1
  {
    var partSize := PartSize(size, parts);
    MulMono(partSize, i + 1, parts);
    var offset := if i != 0 then partSize * i + 1 else 0;
    var end0 := offset + partSize;
    var end1 := if i != 0 then end0 - 1 else end0;
    var end := if i == parts - 1 then size else end1;
    ByteRange(offset, end)
  }

  /** The ranges of all tasks, by task index. */
  function Plan(size: nat, parts: int): (p: seq<ByteRange>)
    requires 1 <= parts
    ensures |p| == parts
    ensures forall i :: 0 <= i < parts ==> p[i] == Segment(size, parts, i)
  {
    seq(parts, i requires 0 <= i < parts => Segment(size, parts, i))
  }

  /** Byte `b` of the resource is delivered by task `i`: it lies in the requested
      range and exists (a server clamps a range end past the resource). */
  predicate Delivers(size: nat, parts: int, i: nat, b: int)
    requires 1 <= parts && i < parts
  {
    Segment(size, parts, i).first <= b <= Segment(size, parts, i).last && b < size
  }

  // ---------------------------------------------------------------------------
  // Arithmetic helpers

  lemma MulStrict(a: nat, i: nat, j: nat)
    requires 1 <= a && i < j
    ensures a * i < a * j
  {
    assert a * j == a * i + a * (j - i);
  }

  lemma MulMono(a: nat, i: nat, j: nat)
    requires i <= j
    ensures a * i <= a * j
  {
    assert a * j == a * i + a * (j - i);
  }

  // ---------------------------------------------------------------------------
  // Shape of every plan

  /** Segment 0 starts at 0; every later segment starts at `partSize * i + 1`. */
  lemma SegmentStart(size: nat, parts: int, i: nat)
    requires 1 <= parts && i < parts
    ensures Segment(size, parts, i).first == if i == 0 then 0 else PartSize(size, parts) * i + 1
  {
  }

  /** A segment that is not the last one ends at `partSize * (i + 1)`, so an
      interior segment spans `partSize` bytes and segment 0 spans one more. */
  lemma SegmentSpan(size: nat, parts: int, i: nat)
    requires 1 <= parts && i < parts - 1
    ensures Segment(size, parts, i).last == PartSize(size, parts) * (i + 1)
    ensures Segment(size, parts, i).last + 1 - Segment(size, parts, i).first
         == if i == 0 then PartSize(size, parts) + 1 else PartSize(size, parts)
  {
    var ps := PartSize(size, parts);
    assert ps * (i + 1) == ps * i + ps;
  }

  /** Adjacent segments are contiguous. */
  lemma Contiguous(size: nat, parts: int, i: nat)
    requires 1 <= parts && i < parts - 1
    ensures Segment(size, parts, i + 1).first == Segment(size, parts, i).last + 1
  {
    SegmentSpan(size, parts, i);
  }

  /** The last segment ends at `size` itself, one past the last byte; a single
      task asks for `[0, size]`. */
  lemma LastSegment(size: nat, parts: int)
    requires 1 <= parts
    ensures Segment(size, parts, parts - 1).last == size
    ensures parts == 1 ==> Segment(size, parts, 0) == ByteRange(0, size)
  {
  }

  // ---------------------------------------------------------------------------
  // Plans with 1 <= parts <= size

  lemma PartSizePositive(size: nat, parts: int)
    requires 1 <= parts <= size
    ensures 1 <= PartSize(size, parts)
  {
  }

  /** Every requested range is well formed: its start is not after its end. */
  lemma {:induction false} SegmentNonEmpty(size: nat, parts: int, i: nat)
    requires 1 <= parts <= size && i < parts
    ensures Segment(size, parts, i).first <= Segment(size, parts, i).last
  {
    var ps := PartSize(size, parts);
    PartSizePositive(size, parts);
    if i < parts - 1 {
      SegmentSpan(size, parts, i);
    } else if i != 0 {
      MulStrict(ps, i, parts);
    }
  }

  /** The starts strictly increase with the task index. */
  lemma {:induction false} StartsIncrease(size: nat, parts: int, i: nat, j: nat)
    requires 1 <= parts <= size && i < j < parts
    ensures Segment(size, parts, i).first < Segment(size, parts, j).first
  {
    var ps := PartSize(size, parts);
    PartSizePositive(size, parts);
    MulStrict(ps, i, j);
    SegmentStart(size, parts, i);
    SegmentStart(size, parts, j);
  }

  /** Every byte of the resource is delivered by some task. */
  lemma {:induction false} Covered(size: nat, parts: int, b: nat)
    requires 1 <= parts <= size && b < size
    ensures exists i: nat :: i < parts && Delivers(size, parts, i, b)
  {
    var ps := PartSize(size, parts);
    PartSizePositive(size, parts);
    if b <= ps {
      if parts > 1 {
        SegmentSpan(size, parts, 0);
      }
      assert Delivers(size, parts, 0, b);
    } else {
      var q := (b - 1) / ps;
      assert ps * q <= b - 1 < ps * (q + 1);
      CoveredPast(size, parts, b, q);
    }
  }

  /** A byte past segment 0 lies in segment `q = (b - 1) / partSize`, or in
      the last segment when `q` reaches it. */
  lemma CoveredPast(size: nat, parts: int, b: nat, q: nat)
    requires 1 <= parts <= size && b < size
    requires PartSize(size, parts) < b
    requires PartSize(size, parts) * q <= b - 1 < PartSize(size, parts) * (q + 1)
    ensures exists i: nat :: i < parts && Delivers(size, parts, i, b)
  {
    var ps := PartSize(size, parts);
    PartSizePositive(size, parts);
    assert 1 <= q;
    if q < parts - 1 {
      SegmentSpan(size, parts, q);
      assert Delivers(size, parts, q, b);
    } else {
      MulMono(ps, parts - 1, q);
      assert Delivers(size, parts, parts - 1, b);
    }
  }

  /** No byte is delivered by two tasks. */
  lemma {:induction false} Disjoint(size: nat, parts: int, i: nat, j: nat, b: int)
    requires 1 <= parts <= size && i < parts && j < parts
    requires Delivers(size, parts, i, b) && Delivers(size, parts, j, b)
    ensures i == j
  {
    if i < j {
      Contiguous(size, parts, i);
      if i + 1 < j {
        StartsIncrease(size, parts, i + 1, j);
      }
    } else if j < i {
      Contiguous(size, parts, j);
      if j + 1 < i {
        StartsIncrease(size, parts, j + 1, i);
      }
    }
  }

  /** The last range starts at `size`, past every byte, exactly when there are
      as many tasks as bytes and more than one task. */
  lemma {:induction false} LastStartsPastEnd(size: nat, parts: int)
    requires 1 <= parts <= size
    ensures Segment(size, parts, parts - 1).first == size <==> 2 <= parts == size
  {
    var ps := PartSize(size, parts);
    PartSizePositive(size, parts);
    if parts >= 2 {
      assert ps * parts == ps * (parts - 1) + ps;
      if ps * (parts - 1) + 1 == size {
        assert ps <= 1;
      }
      if size == parts {
        assert ps == 1;
      }
    }
  }

  // ---------------------------------------------------------------------------
  // Plans the code does not reject

  /** With more tasks than bytes the part size is 0: every interior task asks
      for the range `[1, 0]`, whose end precedes its start. */
  lemma MoreTasksThanBytes(size: nat, parts: int, i: nat)
    requires size < parts && 1 <= i < parts - 1
    ensures PartSize(size, parts) == 0
    ensures Segment(size, parts, i) == ByteRange(1, 0)
  {
    var ps := PartSize(size, parts);
    assert ps == 0;
    assert ps * i == 0;
  }

  /** The worked example: 10 bytes in 3 parts. */
  lemma TenBytesThreeParts()
    ensures Plan(10, 3) == [ByteRange(0, 3), ByteRange(4, 6), ByteRange(7, 10)]
  {
  }
}
