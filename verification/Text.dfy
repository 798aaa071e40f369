/** Lines, columns, trimming and numerals, as the string library of the repository's language defines them. */
module Text {
  import opened Options

  predicate Lacks(s: string, c: char) {
    forall i :: 0 <= i < |s| ==> s[i] != c
  }

  function IndexOf(s: string, c: char): (i: nat)
    ensures i <= |s| && Lacks(s[..i], c)
    ensures i < |s| ==> s[i] == c
  {
    if s == "" || s[0] == c then 0
    else
      var i := IndexOf(s[1..], c) + 1;
      assert forall j :: 1 <= j < i ==> s[j] == s[1..][j - 1];
      i
  }

  lemma IndexAfter(s: string, c: char, rest: string)
    requires Lacks(s, c) && (rest == "" || rest[0] == c)
    ensures IndexOf(s + rest, c) == |s|
  {
    assert forall k :: 0 <= k < |s| ==> (s + rest)[k] == s[k];
    if rest != "" {
      assert (s + rest)[|s|] == c;
    }
  }

  // ---------------------------------------------------------------- columns

  function Split(s: string, c: char): (parts: seq<string>)
    ensures |parts| >= 1
    decreases |s|
  {
    var i := IndexOf(s, c);
    if i == |s| then [s] else [s[..i]] + Split(s[i + 1..], c)
  }

  function Join(parts: seq<string>, c: char): string
    requires |parts| >= 1
  {
    if |parts| == 1 then parts[0] else parts[0] + [c] + Join(parts[1..], c)
  }

  lemma {:induction false} SplitJoin(parts: seq<string>, c: char)
    requires |parts| >= 1 && forall p :: p in parts ==> Lacks(p, c)
    ensures Split(Join(parts, c), c) == parts
  {
    if |parts| == 1 {
      IndexAfter(parts[0], c, "");
      assert parts[0] + "" == parts[0];
    } else {
      SplitJoin(parts[1..], c);
      var rest := [c] + Join(parts[1..], c);
      assert Join(parts, c) == parts[0] + rest;
      IndexAfter(parts[0], c, rest);
      assert (parts[0] + rest)[|parts[0]| + 1..] == Join(parts[1..], c);
      assert (parts[0] + rest)[..|parts[0]|] == parts[0];
    }
  }

  lemma {:induction false} JoinLacks(parts: seq<string>, c: char, d: char)
    requires |parts| >= 1 && c != d && forall p :: p in parts ==> Lacks(p, d)
    ensures Lacks(Join(parts, c), d)
  {
    if |parts| > 1 {
      JoinLacks(parts[1..], c, d);
      assert parts[0] in parts;
    }
  }

  // ---------------------------------------------------------------- lines

  /** A line ends at a newline or at the end of the text; a carriage return before the newline belongs to the ending. */
  function Lines(s: string): seq<string>
    decreases |s|
  {
    if s == "" then []
    else
      var i := IndexOf(s, '\n');
      if i == |s| then [s]
      else [if i > 0 && s[i - 1] == '\r' then s[..i - 1] else s[..i]] + Lines(s[i + 1..])
  }

  function TrimLineEnd(s: string): (t: string)
    ensures t <= s
  {
    if s != "" && s[|s| - 1] in {'\r', '\n'} then TrimLineEnd(s[..|s| - 1]) else s
  }

  predicate IsLine(s: string) {
    Lacks(s, '\n') && (s != "" ==> s[|s| - 1] != '\r')
  }

  function Terminated(lines: seq<string>): string {
    if lines == [] then "" else lines[0] + "\n" + Terminated(lines[1..])
  }

  /** A line without the carriage return that belongs to its ending. */
  function WithoutReturn(line: string): string {
    if line != "" && line[|line| - 1] == '\r' then line[..|line| - 1] else line
  }

  lemma LinesAt(s: string, i: nat)
    requires i < |s| && i == IndexOf(s, '\n')
    ensures Lines(s) == [WithoutReturn(s[..i])] + Lines(s[i + 1..])
  {
    hide IndexOf;
    assert i > 0 ==> s[..i][i - 1] == s[i - 1] && s[..i][..i - 1] == s[..i - 1];
  }

  lemma LinesCons(line: string, rest: string)
    requires Lacks(line, '\n')
    ensures Lines(line + ("\n" + rest)) == [WithoutReturn(line)] + Lines(rest)
  {
    hide Lines;
    var s := line + ("\n" + rest);
    IndexAfter(line, '\n', "\n" + rest);
    assert s[..|line|] == line && s[|line| + 1..] == rest;
    LinesAt(s, |line|);
  }

  lemma {:induction false} LinesAppend(lines: seq<string>, rest: string)
    requires forall line :: line in lines ==> IsLine(line)
    ensures Lines(Terminated(lines) + rest) == lines + Lines(rest)
  {
    hide Lines;
    if lines == [] {
      assert Terminated(lines) + rest == rest;
    } else {
      LinesAppend(lines[1..], rest);
      assert lines[0] in lines;
      LinesCons(lines[0], Terminated(lines[1..]) + rest);
      Regroup(lines[0], "\n", Terminated(lines[1..]), rest);
    }
  }

  lemma Associative(a: string, b: string, c: string)
    ensures a + (b + c) == a + b + c
  {
  }

  lemma Regroup(a: string, b: string, c: string, d: string)
    ensures a + b + c + d == a + (b + (c + d))
  {
  }

  lemma LinesOfTerminated(lines: seq<string>)
    requires forall line :: line in lines ==> IsLine(line)
    ensures Lines(Terminated(lines)) == lines
  {
    LinesAppend(lines, "");
    assert Terminated(lines) + "" == Terminated(lines);
  }

  lemma LastLine(line: string)
    requires IsLine(line) && line != ""
    ensures Lines(line) == [line] && TrimLineEnd(line) == line
  {
    IndexAfter(line, '\n', "");
    assert line + "" == line;
  }

  // ---------------------------------------------------------------- trimming

  predicate IsWhitespace(c: char) {
    var n := c as int;
    || 0x09 <= n <= 0x0D || n == 0x20 || n == 0x85 || n == 0xA0 || n == 0x1680 || 0x2000 <= n <= 0x200A
    || n in {0x2028, 0x2029, 0x202F, 0x205F, 0x3000}
  }

  /** Of the ASCII characters, exactly the blank, the tab and the four line breaks are whitespace. */
  lemma AsciiWhitespace(c: char)
    requires c as int < 0x80
    ensures IsWhitespace(c) <==> c in {' ', '\t', '\n', '\U{0B}', '\U{0C}', '\r'}
  {
  }

  function TrimStart(s: string): (t: string)
    ensures |t| <= |s|
  {
    if s != "" && IsWhitespace(s[0]) then TrimStart(s[1..]) else s
  }

  function TrimEnd(s: string): string {
    if s != "" && IsWhitespace(s[|s| - 1]) then TrimEnd(s[..|s| - 1]) else s
  }

  function Trim(s: string): string {
    TrimEnd(TrimStart(s))
  }

  predicate IsTrimmed(s: string) {
    s != "" ==> !IsWhitespace(s[0]) && !IsWhitespace(s[|s| - 1])
  }

  /** What the text is when trimmed, if anything is left. */
  function EmptyToOpt(s: string): Option<string> {
    if Trim(s) == "" then None else Some(Trim(s))
  }

  lemma {:induction false} TrimEndKeepsStart(s: string)
    ensures TrimEnd(s) <= s
    ensures TrimEnd(s) != "" ==> !IsWhitespace(TrimEnd(s)[|TrimEnd(s)| - 1])
  {
    if s != "" && IsWhitespace(s[|s| - 1]) {
      TrimEndKeepsStart(s[..|s| - 1]);
    }
  }

  lemma {:induction false} TrimStartStops(s: string)
    ensures TrimStart(s) != "" ==> !IsWhitespace(TrimStart(s)[0])
  {
    if s != "" && IsWhitespace(s[0]) {
      TrimStartStops(s[1..]);
    }
  }

  lemma TrimIsTrimmed(s: string)
    ensures IsTrimmed(Trim(s))
  {
    TrimStartStops(s);
    TrimEndKeepsStart(TrimStart(s));
  }

  // ---------------------------------------------------------------- numerals

  const I64_MIN := -0x8000_0000_0000_0000
  const I64_MAX := 0x7FFF_FFFF_FFFF_FFFF

  predicate IsDigit(c: char) {
    '0' <= c <= '9'
  }

  predicate AllDigits(s: string) {
    forall i :: 0 <= i < |s| ==> IsDigit(s[i])
  }

  function DigitsValue(s: string): int
    requires AllDigits(s)
  {
    if s == "" then 0 else 10 * DigitsValue(s[..|s| - 1]) + (s[|s| - 1] as int - '0' as int)
  }

  /** An optional sign, at least one digit, and a value that fits. */
  function ParseI64(s: string): Option<int> {
    var negative := s != "" && s[0] == '-';
    var digits := if s != "" && (s[0] == '-' || s[0] == '+') then s[1..] else s;
    if digits == "" || !AllDigits(digits) then None
    else
      var value := if negative then -DigitsValue(digits) else DigitsValue(digits);
      if I64_MIN <= value <= I64_MAX then Some(value) else None
  }

  function ParseOptI64(s: string): Option<int> {
    if Trim(s) == "" then None else ParseI64(Trim(s))
  }

  function PrintNat(n: nat): string {
    var last := [('0' as int + n % 10) as char];
    if n < 10 then last else PrintNat(n / 10) + last
  }

  function PrintInt(n: int): string {
    if n < 0 then "-" + PrintNat(-n) else PrintNat(n)
  }

  lemma {:induction false} PrintedDigits(n: nat)
    ensures PrintNat(n) != "" && AllDigits(PrintNat(n)) && DigitsValue(PrintNat(n)) == n
  {
    if n >= 10 {
      PrintedDigits(n / 10);
      assert PrintNat(n)[..|PrintNat(n)| - 1] == PrintNat(n / 10);
    }
  }

  lemma ParsePrintedI64(n: int)
    requires I64_MIN <= n <= I64_MAX
    ensures ParseI64(PrintInt(n)) == Some(n)
    ensures n >= 0 ==> ParseI64("+" + PrintInt(n)) == Some(n)
  {
    PrintedDigits(if n < 0 then -n else n);
    if n < 0 {
      assert PrintInt(n)[1..] == PrintNat(-n);
    } else {
      assert IsDigit(PrintNat(n)[0]);
      assert ("+" + PrintNat(n))[1..] == PrintNat(n);
    }
    hide PrintNat, DigitsValue;
  }

  /** Nothing else is an integer: no other character, no sign alone, and nothing outside the 64-bit range. */
  lemma OnlyIntegersParse(s: string, i: nat, n: int)
    ensures s in {"", "+", "-"} ==> ParseI64(s).None?
    ensures i < |s| && !IsDigit(s[i]) && (i > 0 || s[0] !in {'+', '-'}) ==> ParseI64(s).None?
    ensures !(I64_MIN <= n <= I64_MAX) ==> ParseI64(PrintInt(n)).None?
  {
    PrintedDigits(if n < 0 then -n else n);
    if n < 0 {
      assert PrintInt(n)[1..] == PrintNat(-n);
    } else {
      assert IsDigit(PrintNat(n)[0]);
    }
    hide PrintNat, DigitsValue;
    if 0 < i < |s| {
      assert s[1..][i - 1] == s[i];
    }
  }

  lemma PrintedIsPlain(n: int)
    ensures IsTrimmed(PrintInt(n)) && PrintInt(n) != ""
    ensures forall c :: !IsDigit(c) && c != '-' ==> Lacks(PrintInt(n), c)
  {
    PrintedDigits(if n < 0 then -n else n);
    hide PrintNat, DigitsValue;
    var s := PrintInt(n);
    assert forall i :: 0 <= i < |s| ==> IsDigit(s[i]) || s[i] == '-';
  }

  /** A floating-point number, known by its numeral. */
  datatype Float = Float(numeral: string)

  function Lowered(s: string): string {
    if s == "" then ""
    else [if 'A' <= s[0] <= 'Z' then (s[0] as int + 32) as char else s[0]] + Lowered(s[1..])
  }

  predicate IsExponent(s: string) {
    var digits := if s != "" && (s[0] == '-' || s[0] == '+') then s[1..] else s;
    digits != "" && AllDigits(digits)
  }

  /** Digits with at most one point among them and at least one digit. */
  predicate IsMantissa(s: string) {
    var point := IndexOf(s, '.');
    if point == |s| then s != "" && AllDigits(s)
    else AllDigits(s[..point]) && AllDigits(s[point + 1..]) && |s| > 1
  }

  predicate IsF64(s: string) {
    var unsigned := Lowered(if s != "" && (s[0] == '-' || s[0] == '+') then s[1..] else s);
    var e := IndexOf(unsigned, 'e');
    || unsigned in {"inf", "infinity", "nan"}
    || (if e == |unsigned| then IsMantissa(unsigned) else IsMantissa(unsigned[..e]) && IsExponent(unsigned[e + 1..]))
  }

  function ParseOptF64(s: string): Option<Float> {
    if Trim(s) != "" && IsF64(Trim(s)) then Some(Float(Trim(s))) else None
  }

  lemma {:induction false} LoweredAt(s: string)
    ensures |Lowered(s)| == |s|
    ensures forall i :: 0 <= i < |s| ==>
              Lowered(s)[i] == if 'A' <= s[i] <= 'Z' then (s[i] as int + 32) as char else s[i]
  {
    if s != "" {
      LoweredAt(s[1..]);
    }
  }

  /** Digits, with a point at `point` unless that is the end. */
  predicate IsDecimal(s: string, point: nat) {
    && s != "" && point <= |s| && (point < |s| ==> |s| > 1)
    && forall i :: 0 <= i < |s| ==> if i == point then s[i] == '.' else IsDigit(s[i])
  }

  lemma DecimalIsMantissa(s: string, point: nat)
    requires IsDecimal(s, point)
    ensures IsMantissa(s)
  {
    var whole, rest := s[..point], s[point..];
    assert Lacks(whole, '.') && s == whole + rest;
    IndexAfter(whole, '.', rest);
    hide IndexOf;
  }

  lemma DecimalIsLower(s: string, point: nat)
    requires IsDecimal(s, point)
    ensures Lowered(s) == s && IndexOf(s, 'e') == |s|
  {
    LoweredAt(s);
    hide Lowered;
    assert Lowered(s) == s;
  }

  /** Digits at its end, and a digit, point or sign at its start. */
  lemma NumeralIsTrimmed(s: string)
    requires s != "" && !IsWhitespace(s[0]) && !IsWhitespace(s[|s| - 1])
    ensures Trim(s) == s
  {
  }

  lemma UnsignedIsF64(s: string, unsigned: string)
    requires s != "" && (if s[0] in {'-', '+'} then s[1..] == unsigned else s == unsigned)
    requires Lowered(unsigned) == unsigned
    requires var e := IndexOf(unsigned, 'e');
             if e == |unsigned| then IsMantissa(unsigned)
             else IsMantissa(unsigned[..e]) && IsExponent(unsigned[e + 1..])
    ensures IsF64(s)
  {
    hide Lowered, IsMantissa, IsExponent, IndexOf;
  }

  /** Decimal numerals are numbers: digits, with at most one point among them, with or without a sign. */
  lemma DecimalsParse(numeral: string, point: nat, sign: char)
    requires IsDecimal(numeral, point) && sign in {'+', '-'}
    ensures ParseOptF64(numeral) == Some(Float(numeral))
    ensures ParseOptF64([sign] + numeral) == Some(Float([sign] + numeral))
  {
    hide Lowered, IsMantissa, IndexOf, Trim, IsF64;
    DecimalIsMantissa(numeral, point);
    DecimalIsLower(numeral, point);
    var signed := [sign] + numeral;
    assert signed[0] == sign && signed[1..] == numeral && signed[|signed| - 1] == numeral[|numeral| - 1];
    NumeralIsTrimmed(numeral);
    NumeralIsTrimmed(signed);
    UnsignedIsF64(numeral, numeral);
    UnsignedIsF64(signed, numeral);
  }

  /** So are decimal numerals with an exponent. */
  lemma ScientificParses(numeral: string, point: nat, exponent: string)
    requires IsDecimal(numeral, point) && exponent != "" && AllDigits(exponent)
    ensures ParseOptF64(numeral + ("e" + exponent)) == Some(Float(numeral + ("e" + exponent)))
  {
    hide Lowered, IsMantissa, IndexOf, Trim, IsF64;
    var s := numeral + ("e" + exponent);
    assert s[..|numeral|] == numeral && s[|numeral| + 1..] == exponent;
    assert s[0] == numeral[0] && s[|s| - 1] == exponent[|exponent| - 1];
    DecimalIsMantissa(numeral, point);
    ScientificIsLower(numeral, point, exponent);
    NumeralIsTrimmed(s);
    UnsignedIsF64(s, s);
  }

  lemma ScientificIsLower(numeral: string, point: nat, exponent: string)
    requires IsDecimal(numeral, point) && exponent != "" && AllDigits(exponent)
    ensures var s := numeral + ("e" + exponent);
            Lowered(s) == s && IndexOf(s, 'e') == |numeral|
  {
    hide Lowered, IndexOf;
    var s := numeral + ("e" + exponent);
    assert Lacks(numeral, 'e');
    IndexAfter(numeral, 'e', "e" + exponent);
    LoweredAt(s);
    assert Lowered(s) == s;
  }

  /** The characters that a floating-point numeral may have. */
  predicate IsF64Char(c: char) {
    IsDigit(c) || c in {'+', '-', '.', 'e', 'E', 'i', 'I', 'n', 'N', 'f', 'F', 't', 'T', 'y', 'Y', 'a', 'A'}
  }

  /** Text with any other character in it is none. */
  lemma OnlyNumeralsParse(s: string, i: nat)
    requires i < |Trim(s)| && !IsF64Char(Trim(s)[i])
    ensures ParseOptF64(s).None?
  {
    var t := Trim(s);
    hide Trim, Lowered, IsMantissa, IsExponent, IndexOf;
    if IsF64(t) {
      var signed := t[0] == '-' || t[0] == '+';
      var unsigned := if signed then t[1..] else t;
      LoweredAt(unsigned);
      var j := if signed then i - 1 else i;
      assert unsigned[j] == t[i];
      NumeralChars(Lowered(unsigned), j);
      assert false;
    }
  }

  predicate IsNumeralChar(c: char) {
    IsDigit(c) || c in {'+', '-', '.', 'e', 'i', 'n', 'f', 't', 'y', 'a'}
  }

  lemma WordChars(word: string)
    requires word in {"inf", "infinity", "nan"}
    ensures forall j :: 0 <= j < |word| ==> IsNumeralChar(word[j])
  {
  }

  lemma NumeralChars(lowered: string, j: nat)
    requires j < |lowered|
    requires var e := IndexOf(lowered, 'e');
             || lowered in {"inf", "infinity", "nan"}
             || (if e == |lowered| then IsMantissa(lowered)
                 else IsMantissa(lowered[..e]) && IsExponent(lowered[e + 1..]))
    ensures IsNumeralChar(lowered[j])
  {
    if lowered in {"inf", "infinity", "nan"} {
      WordChars(lowered);
    } else {
      ScientificChars(lowered, IndexOf(lowered, 'e'), j);
    }
    hide IsMantissa, IsExponent, IndexOf, IsNumeralChar;
  }

  lemma ScientificChars(s: string, e: nat, j: nat)
    requires j < |s| && e <= |s| && (e < |s| ==> s[e] == 'e')
    requires if e == |s| then IsMantissa(s) else IsMantissa(s[..e]) && IsExponent(s[e + 1..])
    ensures IsNumeralChar(s[j])
  {
    hide IsMantissa, IsExponent;
    if e == |s| {
      MantissaChars(s, j);
    } else if j < e {
      assert s[..e][j] == s[j];
      MantissaChars(s[..e], j);
    } else if j > e {
      assert s[e + 1..][j - e - 1] == s[j];
      ExponentChars(s[e + 1..], j - e - 1);
    }
  }

  lemma MantissaChars(s: string, j: nat)
    requires j < |s| && IsMantissa(s)
    ensures IsDigit(s[j]) || s[j] == '.'
  {
    var point := IndexOf(s, '.');
    if point < |s| {
      assert j < point ==> s[..point][j] == s[j];
      assert j > point ==> s[point + 1..][j - point - 1] == s[j];
    }
  }

  lemma ExponentChars(s: string, j: nat)
    requires j < |s| && IsExponent(s)
    ensures IsDigit(s[j]) || s[j] in {'+', '-'}
  {
    var digits := if s[0] == '-' || s[0] == '+' then s[1..] else s;
    if j > 0 && |digits| < |s| {
      assert digits[j - 1] == s[j];
    }
  }
}
