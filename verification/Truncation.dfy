/** Cutting a script's output to a byte limit without cutting a character in two. */
module Truncation {

  newtype byte = b: int | 0 <= b < 256

  type Bytes = seq<byte>

  // ---------------------------------------------------------------- UTF-8, section 4 of RFC 3629

  predicate IsTail(b: byte) { 0x80 <= b <= 0xBF }

  /** Number of bytes of the character that `s` begins with; 0 when `s` begins with no well-formed character. */
  function FirstCharLength(s: Bytes): (n: nat)
    ensures n <= 4 && n <= |s|
  {
    if |s| == 0 then 0
    else if s[0] <= 0x7F then 1
    else if |s| >= 2 && 0xC2 <= s[0] <= 0xDF && IsTail(s[1]) then 2
    else if |s| >= 3 && IsTail(s[1]) && IsTail(s[2]) && ThreeByteLead(s[0], s[1]) then 3
    else if |s| >= 4 && IsTail(s[1]) && IsTail(s[2]) && IsTail(s[3]) && FourByteLead(s[0], s[1]) then 4
    else 0
  }

  /** No encoding longer than needed (E0), no surrogate (ED). */
  predicate ThreeByteLead(lead: byte, second: byte) {
    || (lead == 0xE0 && 0xA0 <= second)
    || 0xE1 <= lead <= 0xEC
    || (lead == 0xED && second <= 0x9F)
    || 0xEE <= lead <= 0xEF
  }

  /** No encoding longer than needed (F0), nothing above U+10FFFF (F4). */
  predicate FourByteLead(lead: byte, second: byte) {
    || (lead == 0xF0 && 0x90 <= second)
    || 0xF1 <= lead <= 0xF3
    || (lead == 0xF4 && second <= 0x8F)
  }

  predicate WellFormed(s: Bytes) {
    s == [] || (FirstCharLength(s) > 0 && WellFormed(s[FirstCharLength(s)..]))
  }

  // ---------------------------------------------------------------- character boundaries

  /** Rust's `is_char_boundary`: the ends, and every place whose byte is not a continuation byte. */
  predicate IsCharBoundary(s: Bytes, i: nat) {
    i == 0 || i == |s| || (i < |s| && !IsTail(s[i]))
  }

  /** The byte test finds exactly the places where a well-formed text may be cut. */
  lemma {:induction false} BoundaryIsWellFormedCut(s: Bytes, i: nat)
    requires WellFormed(s) && i <= |s|
    ensures IsCharBoundary(s, i) <==> WellFormed(s[..i])
  {
    var n := FirstCharLength(s);
    if i == 0 {
    } else if i < n {
      assert IsTail(s[i]);
      assert FirstCharLength(s[..i]) == 0;
    } else {
      BoundaryIsWellFormedCut(s[n..], i - n);
      assert s[..i][n..] == s[n..][..i - n];
      assert FirstCharLength(s[..i]) == n;
      assert i == n ==> s[n..][..0] == [];
      if n < i < |s| { assert s[n..][i - n] == s[i]; }
      if i == n && n < |s| { assert FirstCharLength(s[n..]) > 0; assert s[n..][0] == s[n]; }
    }
  }

  /** At most three steps back from any place of a well-formed text lies a boundary. */
  lemma {:induction false} BoundaryNearby(s: Bytes, i: nat)
    requires WellFormed(s) && i <= |s|
    ensures exists k :: i - 3 <= k <= i && k >= 0 && IsCharBoundary(s, k)
  {
    var n := FirstCharLength(s);
    if i < n || i == 0 {
      assert IsCharBoundary(s, 0);
    } else {
      BoundaryNearby(s[n..], i - n);
      var k :| i - n - 3 <= k <= i - n && k >= 0 && IsCharBoundary(s[n..], k);
      BoundaryIsWellFormedCut(s[n..], k);
      if k < |s| - n {
        assert s[n..][k] == s[n + k];
        if k == 0 { assert FirstCharLength(s[n..]) > 0; }
      }
      assert IsCharBoundary(s, n + k);
    }
  }

  // "\n[output truncated]"
  const MARKER: Bytes := [10, 91, 111, 117, 116, 112, 117, 116, 32, 116, 114, 117, 110, 99, 97, 116, 101, 100, 93]

  lemma {:induction false} WellFormedConcat(a: Bytes, b: Bytes)
    requires WellFormed(a) && WellFormed(b)
    ensures WellFormed(a + b)
  {
    hide FirstCharLength;
    if a == [] {
      assert a + b == b;
    } else {
      var n := FirstCharLength(a);
      WellFormedConcat(a[n..], b);
      FirstCharIsLocal(a, b);
      assert (a + b)[n..] == a[n..] + b;
    }
  }

  lemma FirstCharIsLocal(a: Bytes, b: Bytes)
    requires FirstCharLength(a) > 0
    ensures FirstCharLength(a + b) == FirstCharLength(a)
  {
    assert forall k :: 0 <= k < |a| ==> (a + b)[k] == a[k];
  }

  lemma {:induction false} AsciiIsWellFormed(s: Bytes)
    requires forall k :: 0 <= k < |s| ==> s[k] <= 0x7F
    ensures WellFormed(s)
  {
    if s != [] {
      AsciiIsWellFormed(s[1..]);
    }
  }

  /** `end` is the length of the longest well-formed prefix of `s` of at most `max` bytes. */
  ghost predicate IsLongestCut(s: Bytes, max: nat, end: nat) {
    end <= max <= |s| && WellFormed(s[..end]) && forall k :: end < k <= max ==> !WellFormed(s[..k])
  }

  /** Text within the limit is kept; longer text is cut at the longest well-formed prefix within the limit, which is
      found at most three bytes below it, and marked. */
  method TruncateBytes(s: Bytes, maxBytes: nat) returns (r: Bytes)
    requires WellFormed(s)
    ensures WellFormed(r)
    ensures |s| <= maxBytes ==> r == s
    ensures |s| > maxBytes ==> exists end: nat ::
              IsLongestCut(s, maxBytes, end) && maxBytes - end <= 3 && r == s[..end] + MARKER
  {
    if |s| <= maxBytes {
      return s;
    }
    var end := maxBytes;
    while end > 0 && !IsCharBoundary(s, end)
      invariant 0 <= end <= maxBytes
      invariant forall k: nat :: end < k <= maxBytes ==> !IsCharBoundary(s, k)
    {
      end := end - 1;
    }
    r := s[..end] + MARKER;

    forall k: nat | end <= k <= maxBytes
      ensures IsCharBoundary(s, k) <==> WellFormed(s[..k])
    {
      BoundaryIsWellFormedCut(s, k);
    }
    BoundaryNearby(s, maxBytes);
    AsciiIsWellFormed(MARKER);
    WellFormedConcat(s[..end], MARKER);
    assert IsLongestCut(s, maxBytes, end);
  }
}
