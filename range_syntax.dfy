/**
 * The `Range` request header a task sends: `bytes=<first>-<last>` with both
 * positions inclusive (section 14.1.2 of RFC 9110), and the reading of it that
 * a server performs.
 */
module RangeSyntax {
  import opened Wrappers
  import opened Decimal
  import opened RangePlan
  import opened Strings

  /** `fmt.Sprintf("bytes=%d-%d", offset, size)`: the unit `bytes=`, then at
      least nine characters in all, each a digit or a dash. HeaderShape pins
      the exact form. */
  function RangeHeader(first: nat, last: nat): (h: string)
    ensures 9 <= |h| && h[..6] == "bytes="
    ensures forall i :: 6 <= i < |h| ==> h[i] == '-' || IsDigit(h[i])
  {
    var a, b := NatToDecimal(first), NatToDecimal(last);
    var h := "bytes=" + a + "-" + b;
    assert forall i :: 6 <= i < 6 + |a| ==> h[i] == a[i - 6];
    assert forall i :: 7 + |a| <= i < |h| ==> h[i] == b[i - 7 - |a|];
    h
  }

  /** Every character of `h` after `bytes=` is a digit, except at `k`. */
  predicate OnlyDigitsBut(h: string, k: int) {
    forall i :: 6 <= i < |h| && i != k ==> IsDigit(h[i])
  }

  /** The header is `bytes=`, one or more digits, exactly one dash, and one or
      more digits. */
  lemma HeaderShape(first: nat, last: nat)
    ensures var h := RangeHeader(first, last);
      exists k :: 7 <= k < |h| - 1 && h[k] == '-' && OnlyDigitsBut(h, k)
  {
    var a, b := NatToDecimal(first), NatToDecimal(last);
    var h := RangeHeader(first, last);
    assert h == "bytes=" + a + "-" + b;
    assert forall i :: 6 <= i < 6 + |a| ==> h[i] == a[i - 6];
    assert forall i :: 7 + |a| <= i < |h| ==> h[i] == b[i - 7 - |a|];
    assert h[6 + |a|] == '-' && OnlyDigitsBut(h, 6 + |a|);
  }

  /** Reads a single `first-last` byte range with both positions present. */
  function ParseRange(h: string): Option<ByteRange> {
    if |h| < 6 || h[..6] != "bytes=" then None
    else
      var spec := h[6..];
      var k := FirstIndex(spec, '-');
      if k == |spec| then None
      else
        match (ParseDecimal(spec[..k]), ParseDecimal(spec[k + 1..]))
        case (Some(first), Some(last)) => Some(ByteRange(first, last))
        case _ => None
  }

  /** A server reads back exactly the range the task wrote. */
  lemma {:induction false} HeaderRoundTrip(first: nat, last: nat)
    ensures ParseRange(RangeHeader(first, last)) == Some(ByteRange(first, last))
  {
    var a, b := NatToDecimal(first), NatToDecimal(last);
    var h := RangeHeader(first, last);
    assert h[..6] == "bytes=";
    var spec := h[6..];
    assert spec == a + "-" + b;
    assert forall i :: 0 <= i < |a| ==> spec[i] != '-' by {
      forall i | 0 <= i < |a| ensures spec[i] != '-' {
        assert spec[i] == a[i] && IsDigit(a[i]);
      }
    }
    assert spec[|a|] == '-';
    assert FirstIndex(spec, '-') == |a|;
    assert spec[..|a|] == a;
    assert spec[|a| + 1..] == b;
    DecimalRoundTrip(first);
    DecimalRoundTrip(last);
  }

  /** Distinct ranges give distinct headers. */
  lemma HeaderInjective(a: ByteRange, b: ByteRange)
    requires RangeHeader(a.first, a.last) == RangeHeader(b.first, b.last)
    ensures a == b
  {
    HeaderRoundTrip(a.first, a.last);
    HeaderRoundTrip(b.first, b.last);
  }
}
