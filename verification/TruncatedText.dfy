/** Characters and their UTF-8 bytes: cutting encoded text at a byte limit cuts the text between two characters. */
module TruncatedText {
  import T = Truncation

  type byte = T.byte

  function EncodeChar(c: char): (bs: seq<byte>)
    ensures 1 <= |bs| <= 4
  {
    var n := c as int;
    if n <= 0x7F then [n as byte]
    else if n <= 0x7FF then [(0xC0 + n / 0x40) as byte, Tail(n)]
    else if n <= 0xFFFF then [(0xE0 + n / 0x1000) as byte, Tail(n / 0x40), Tail(n)]
    else [(0xF0 + n / 0x4_0000) as byte, Tail(n / 0x1000), Tail(n / 0x40), Tail(n)]
  }

  function Tail(n: nat): byte {
    (0x80 + n % 0x40) as byte
  }

  function Encode(s: string): seq<byte> {
    if s == "" then [] else EncodeChar(s[0]) + Encode(s[1..])
  }

  /** One encoded character is one well-formed character, and none of its later bytes can begin one. */
  lemma EncodedCharIsOne(c: char)
    ensures T.FirstCharLength(EncodeChar(c)) == |EncodeChar(c)|
    ensures forall i :: 1 <= i < |EncodeChar(c)| ==> T.IsTail(EncodeChar(c)[i])
  {
  }

  lemma {:induction false} EncodedIsWellFormed(s: string)
    ensures T.WellFormed(Encode(s))
  {
    if s != "" {
      EncodedIsWellFormed(s[1..]);
      EncodedCharIsOne(s[0]);
      T.FirstCharIsLocal(EncodeChar(s[0]), Encode(s[1..]));
      assert Encode(s)[|EncodeChar(s[0])|..] == Encode(s[1..]);
    }
    hide EncodeChar, T.FirstCharLength;
  }

  lemma {:induction false} EncodeConcat(a: string, b: string)
    ensures Encode(a + b) == Encode(a) + Encode(b)
  {
    hide EncodeChar;
    if a == "" {
      assert a + b == b;
    } else {
      EncodeConcat(a[1..], b);
      assert (a + b)[0] == a[0] && (a + b)[1..] == a[1..] + b;
    }
  }

  /** A well-formed prefix of encoded text is the encoding of a prefix of the text. */
  lemma {:induction false} PrefixIsEncoded(s: string, n: nat) returns (k: nat)
    requires n <= |Encode(s)| && T.WellFormed(Encode(s)[..n])
    ensures k <= |s| && Encode(s[..k]) == Encode(s)[..n]
    ensures n < |Encode(s)| ==> k < |s|
  {
    hide EncodeChar, T.WellFormed;
    if n == 0 {
      k := 0;
    } else {
      PrefixSkipsFirst(s, n);
      var m := |EncodeChar(s[0])|;
      PrefixOfRest(EncodeChar(s[0]), Encode(s[1..]), n);
      var rest := PrefixIsEncoded(s[1..], n - m);
      k := rest + 1;
      assert s[..k][0] == s[0] && s[..k][1..] == s[1..][..rest];
    }
  }

  lemma PrefixOfRest(first: seq<byte>, rest: seq<byte>, n: nat)
    requires |first| <= n <= |first| + |rest|
    ensures (first + rest)[..n] == first + rest[..n - |first|] && (first + rest)[..n][|first|..] == rest[..n - |first|]
  {
  }

  lemma PrefixSkipsFirst(s: string, n: nat)
    requires 0 < n <= |Encode(s)| && T.WellFormed(Encode(s)[..n])
    ensures s != "" && |EncodeChar(s[0])| <= n
    ensures T.WellFormed(Encode(s)[..n][|EncodeChar(s[0])|..])
  {
    hide EncodeChar, T.FirstCharLength;
    CutBehindFirst(s, n);
    var first, cut := EncodeChar(s[0]), Encode(s)[..n];
    assert cut == first + cut[|first|..];
    EncodedCharIsOne(s[0]);
    T.FirstCharIsLocal(first, cut[|first|..]);
  }

  lemma CutBehindFirst(s: string, n: nat)
    requires 0 < n <= |Encode(s)| && T.WellFormed(Encode(s)[..n])
    ensures s != "" && |EncodeChar(s[0])| <= n
  {
    hide EncodeChar, T.WellFormed;
    EncodedIsWellFormed(s);
    EncodedCharIsOne(s[0]);
    var first := EncodeChar(s[0]);
    assert n < |first| ==> Encode(s)[n] == first[n] && T.IsTail(first[n]);
    T.BoundaryIsWellFormedCut(Encode(s), n);
  }

  const MARKER := "\n[output truncated]"

  lemma MarkerIsEncoded()
    ensures Encode(MARKER) == T.MARKER
  {
    var s := MARKER;
    EncodeAscii(s, T.MARKER);
  }

  lemma {:induction false} EncodeAscii(s: string, bs: seq<byte>)
    requires |s| == |bs| && forall i :: 0 <= i < |s| ==> s[i] as int <= 0x7F && s[i] as int == bs[i] as int
    ensures Encode(s) == bs
  {
    if s != "" {
      EncodeAscii(s[1..], bs[1..]);
    }
  }

  /** What the truncation makes of encoded text is encoded text: a prefix of it, and the marker. */
  lemma TruncatedIsText(s: string, max: nat, end: nat) returns (k: nat)
    requires |Encode(s)| > max && T.IsLongestCut(Encode(s), max, end)
    ensures k < |s| && Encode(s[..k] + MARKER) == Encode(s)[..end] + T.MARKER
    ensures |Encode(s[..k])| <= max && (k < |s| ==> |Encode(s[..k + 1])| > max)
  {
    hide *;
    k := PrefixWithin(s, max, end);
    MarkerIsEncoded();
    EncodeConcat(s[..k], MARKER);
    NextIsBeyond(s, max, end, k);
  }

  lemma PrefixWithin(s: string, max: nat, end: nat) returns (k: nat)
    requires |Encode(s)| > max && T.IsLongestCut(Encode(s), max, end)
    ensures k < |s| && Encode(s[..k]) == Encode(s)[..end] && |Encode(s[..k])| <= max
  {
    k := PrefixIsEncoded(s, end);
    hide T.WellFormed, Encode;
  }

  lemma NextIsBeyond(s: string, max: nat, end: nat, k: nat)
    requires |Encode(s)| > max && T.IsLongestCut(Encode(s), max, end)
    requires k < |s| && Encode(s[..k]) == Encode(s)[..end]
    ensures |Encode(s[..k + 1])| > max
  {
    var next := Encode(s[..k + 1]);
    EncodedIsWellFormed(s[..k + 1]);
    EncodeConcat(s[..k + 1], s[k + 1..]);
    EncodeConcat(s[..k], [s[k]]);
    assert s == s[..k + 1] + s[k + 1..] && s[..k + 1] == s[..k] + [s[k]];
    assert Encode(s)[..|next|] == next;
    assert Encode([s[k]]) == EncodeChar(s[k]) + Encode([s[k]][1..]);
    hide EncodeChar, T.WellFormed, Encode;
    assert |next| > end;
  }
}
