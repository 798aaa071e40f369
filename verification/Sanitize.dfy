/** What the platform log keeps out of its files. */
module Sanitize {
  import opened Text

  const NEEDLES := ["token", "password", "authorization", "api key", "api_key", "apikey", "secret"]
  const REDACTED := "[redacted — sensitive log line]"
  const MAX_LINE := 1000

  predicate OccursAt(s: string, needle: string, i: int) {
    0 <= i <= |s| - |needle| && s[i..i + |needle|] == needle
  }

  predicate Contains(s: string, needle: string) {
    exists i :: 0 <= i <= |s| && OccursAt(s, needle, i)
  }

  predicate IsSensitive(line: string) {
    exists k :: 0 <= k < |NEEDLES| && Contains(Lowered(line), NEEDLES[k])
  }

  function SanitizedLine(line: string): string {
    if IsSensitive(line) then REDACTED else if |line| > MAX_LINE then line[..MAX_LINE] else line
  }

  function SanitizedLines(lines: seq<string>): (r: seq<string>)
    ensures |r| == |lines| && forall i :: 0 <= i < |r| ==> r[i] == SanitizedLine(lines[i])
  {
    if lines == [] then [] else [SanitizedLine(lines[0])] + SanitizedLines(lines[1..])
  }

  function Sanitized(value: string): string {
    var lines := SanitizedLines(Lines(value));
    if lines == [] then "" else Join(lines, '\n')
  }

  // ---------------------------------------------------------------- substrings

  lemma LoweredTake(s: string, n: nat)
    requires n <= |s|
    ensures |Lowered(s)| == |s| && Lowered(s[..n]) == Lowered(s)[..n]
  {
    LoweredAt(s);
    LoweredAt(s[..n]);
    hide Lowered;
  }

  lemma ContainsPrefix(s: string, n: nat, needle: string)
    requires n <= |s| && Contains(s[..n], needle)
    ensures Contains(s, needle)
  {
    var i :| 0 <= i <= n && OccursAt(s[..n], needle, i);
    assert s[i..i + |needle|] == s[..n][i..i + |needle|];
    assert OccursAt(s, needle, i);
  }

  /** Text without the separator that occurs in joined parts occurs in one of them. */
  lemma {:induction false} ContainsInJoin(parts: seq<string>, c: char, needle: string)
    requires |parts| >= 1 && needle != "" && Lacks(needle, c) && Contains(Join(parts, c), needle)
    ensures exists k :: 0 <= k < |parts| && Contains(parts[k], needle)
  {
    if |parts| == 1 {
      assert Contains(parts[0], needle);
    } else {
      var a, rest := parts[0], Join(parts[1..], c);
      ContainsInPair(a, c, rest, needle);
      if Contains(a, needle) {
        assert Contains(parts[0], needle);
      } else {
        ContainsInJoin(parts[1..], c, needle);
        var k :| 0 <= k < |parts[1..]| && Contains(parts[1..][k], needle);
        assert parts[k + 1] == parts[1..][k];
      }
    }
  }

  lemma ContainsInPair(a: string, c: char, rest: string, needle: string)
    requires needle != "" && Lacks(needle, c) && Contains(a + [c] + rest, needle)
    ensures Contains(a, needle) || Contains(rest, needle)
  {
    var s, n := a + [c] + rest, |needle|;
    var i :| 0 <= i <= |s| && OccursAt(s, needle, i);
    if i + n <= |a| {
      assert a[i..i + n] == s[i..i + n];
      assert OccursAt(a, needle, i);
    } else if i > |a| {
      var j := i - |a| - 1;
      assert rest[j..j + n] == s[i..i + n];
      assert OccursAt(rest, needle, j);
    } else {
      SliceAt(s, i, n, |a| - i);
      assert false;
    }
  }

  lemma SliceAt(s: string, i: nat, n: nat, j: nat)
    requires i + n <= |s| && j < n
    ensures s[i..i + n][j] == s[i + j]
  {
  }

  lemma {:induction false} LoweredJoin(parts: seq<string>, lowered: seq<string>)
    requires |parts| == |lowered| >= 1 && forall k :: 0 <= k < |parts| ==> lowered[k] == Lowered(parts[k])
    ensures Lowered(Join(parts, '\n')) == Join(lowered, '\n')
  {
    if |parts| > 1 {
      LoweredJoin(parts[1..], lowered[1..]);
      LoweredConcat(parts[0] + ['\n'], Join(parts[1..], '\n'));
      LoweredConcat(parts[0], "\n");
    }
  }

  lemma {:induction false} LoweredConcat(a: string, b: string)
    ensures Lowered(a + b) == Lowered(a) + Lowered(b)
  {
    LoweredAt(a);
    LoweredAt(b);
    LoweredAt(a + b);
    hide Lowered;
  }

  // ---------------------------------------------------------------- what may be written

  lemma NeedlesAreOneLine()
    ensures forall k :: 0 <= k < |NEEDLES| ==> NEEDLES[k] != "" && Lacks(NEEDLES[k], '\n')
  {
  }

  lemma LacksLetter(s: string, needle: string, j: nat)
    requires j < |needle| && Lacks(s, needle[j])
    ensures !Contains(s, needle)
  {
    forall i | OccursAt(s, needle, i) ensures s[i + j] == needle[j] {
      assert s[i..i + |needle|][j] == needle[j];
    }
  }

  lemma LacksPair(s: string, needle: string, j: nat)
    requires j + 1 < |needle| && forall i :: 0 <= i < |s| - 1 && s[i] == needle[j] ==> s[i + 1] != needle[j + 1]
    ensures !Contains(s, needle)
  {
    forall i | OccursAt(s, needle, i) ensures s[i + j] == needle[j] && s[i + j + 1] == needle[j + 1] {
      assert s[i..i + |needle|][j] == needle[j] && s[i..i + |needle|][j + 1] == needle[j + 1];
    }
  }

  lemma NoticeIsLowerCase()
    ensures Lowered(REDACTED) == REDACTED
  {
    LoweredAt(REDACTED);
    hide Lowered;
  }

  lemma NoticeLetters()
    ensures Lacks(REDACTED, 'k') && Lacks(REDACTED, 'w') && Lacks(REDACTED, 'u') && Lacks(REDACTED, 'p')
    ensures forall i :: 0 <= i < |REDACTED| - 1 && REDACTED[i] == 'c' ==> REDACTED[i + 1] != 'r'
  {
  }

  /** Each needle has a letter the notice lacks, except "secret", which has a pair of letters the notice lacks. */
  lemma NoticeIsClean(k: nat)
    requires k < |NEEDLES|
    ensures !Contains(Lowered(REDACTED), NEEDLES[k])
  {
    NoticeIsLowerCase();
    NoticeLetters();
    hide REDACTED, Lowered, Contains;
    match k {
      case 0 => LacksLetter(REDACTED, "token", 2);
      case 1 => LacksLetter(REDACTED, "password", 0);
      case 2 => LacksLetter(REDACTED, "authorization", 1);
      case 3 => LacksLetter(REDACTED, "api key", 1);
      case 4 => LacksLetter(REDACTED, "api_key", 1);
      case 5 => LacksLetter(REDACTED, "apikey", 1);
      case _ => LacksPair(REDACTED, "secret", 2);
    }
  }

  lemma LineIsClean(line: string, k: nat)
    requires k < |NEEDLES|
    ensures !Contains(Lowered(SanitizedLine(line)), NEEDLES[k])
  {
    NoticeIsClean(k);
    hide REDACTED, Lowered, Contains, NEEDLES;
    if !IsSensitive(line) && |line| > MAX_LINE {
      LoweredTake(line, MAX_LINE);
      if Contains(Lowered(line)[..MAX_LINE], NEEDLES[k]) {
        ContainsPrefix(Lowered(line), MAX_LINE, NEEDLES[k]);
      }
    }
  }

  function AllLowered(parts: seq<string>): (r: seq<string>)
    ensures |r| == |parts| && forall k :: 0 <= k < |r| ==> r[k] == Lowered(parts[k])
  {
    if parts == [] then [] else [Lowered(parts[0])] + AllLowered(parts[1..])
  }

  /** For every message: what is written contains none of the sensitive words, in any mixture of cases, on any line. */
  lemma SanitizedIsClean(value: string, k: nat)
    requires k < |NEEDLES|
    ensures !Contains(Lowered(Sanitized(value)), NEEDLES[k])
  {
    hide Lowered, Lines, NEEDLES, SanitizedLine, Contains;
    NeedlesAreOneLine();
    var lines := SanitizedLines(Lines(value));
    if lines == [] {
      EmptyIsClean(k);
    } else if Contains(Lowered(Sanitized(value)), NEEDLES[k]) {
      var lowered := AllLowered(lines);
      LoweredJoin(lines, lowered);
      ContainsInJoin(lowered, '\n', NEEDLES[k]);
      var j :| 0 <= j < |lowered| && Contains(lowered[j], NEEDLES[k]);
      LineIsClean(Lines(value)[j], k);
      assert false;
    }
  }

  lemma EmptyIsClean(k: nat)
    requires k < |NEEDLES|
    ensures !Contains(Lowered(""), NEEDLES[k])
  {
    NeedlesAreOneLine();
    LoweredAt("");
    hide NEEDLES;
  }

  /** The character in lower case, for the letters of ASCII. */
  function LowerCase(c: char): char {
    if 'A' <= c <= 'Z' then (c as int + 32) as char else c
  }

  /** The word stands at position `i` of the line, in whatever case. */
  predicate StandsAt(line: string, word: string, i: int) {
    0 <= i <= |line| - |word| && forall j :: 0 <= j < |word| ==> LowerCase(line[i + j]) == word[j]
  }

  /** The words of which no trace may be kept. */
  predicate IsSecretWord(word: string) {
    word in {"token", "password", "authorization", "api key", "api_key", "apikey", "secret"}
  }

  lemma SecretWords(word: string)
    ensures IsSecretWord(word) <==> exists k :: 0 <= k < |NEEDLES| && NEEDLES[k] == word
  {
    assert NEEDLES[0] == "token" && NEEDLES[1] == "password" && NEEDLES[2] == "authorization";
    assert NEEDLES[3] == "api key" && NEEDLES[4] == "api_key" && NEEDLES[5] == "apikey" && NEEDLES[6] == "secret";
  }

  lemma StandsExactly(line: string, word: string)
    requires word != ""
    ensures Contains(Lowered(line), word) <==> exists i :: StandsAt(line, word, i)
  {
    LoweredAt(line);
    var lowered := Lowered(line);
    hide Lowered;
    if i :| 0 <= i <= |lowered| && OccursAt(lowered, word, i) {
      forall j | 0 <= j < |word| ensures LowerCase(line[i + j]) == word[j] {
        assert lowered[i..i + |word|][j] == lowered[i + j];
      }
      assert StandsAt(line, word, i);
    }
    if i :| StandsAt(line, word, i) {
      assert lowered[i..i + |word|] == word;
      assert OccursAt(lowered, word, i);
    }
  }

  /** A line is sensitive exactly when one of the seven words stands in it, in any mixture of upper and lower case. */
  lemma SensitiveExactly(line: string)
    ensures IsSensitive(line) <==> exists word, i :: IsSecretWord(word) && StandsAt(line, word, i)
  {
    hide NEEDLES, Lowered, Contains, IsSecretWord, StandsAt;
    NeedlesAreOneLine();
    if IsSensitive(line) {
      var k :| 0 <= k < |NEEDLES| && Contains(Lowered(line), NEEDLES[k]);
      SecretWords(NEEDLES[k]);
      StandsExactly(line, NEEDLES[k]);
    }
    if word, i :| IsSecretWord(word) && StandsAt(line, word, i) {
      SecretWords(word);
      var k :| 0 <= k < |NEEDLES| && NEEDLES[k] == word;
      StandsExactly(line, word);
    }
  }

  /** For every message: none of the seven words stands anywhere in what is written, in any mixture of cases. */
  lemma NothingSecretStays(value: string, word: string, i: int)
    requires IsSecretWord(word)
    ensures !StandsAt(Sanitized(value), word, i)
  {
    hide NEEDLES, Lowered, Contains, IsSecretWord, StandsAt, Sanitized;
    SecretWords(word);
    var k :| 0 <= k < |NEEDLES| && NEEDLES[k] == word;
    NeedlesAreOneLine();
    SanitizedIsClean(value, k);
    StandsExactly(Sanitized(value), word);
  }

  /** Line by line: a line with one of the words leaves the notice, any other line comes through, cut to 1000
      characters; and what is written are these lines, one behind the other. */
  lemma LinesComeThrough(value: string)
    ensures var lines, out := Lines(value), SanitizedLines(Lines(value));
            && |out| == |lines| && Sanitized(value) == (if out == [] then "" else Join(out, '\n'))
            && forall n :: 0 <= n < |lines| ==>
                 out[n] == if exists word, i :: IsSecretWord(word) && StandsAt(lines[n], word, i)
                           then "[redacted — sensitive log line]"
                           else if |lines[n]| > 1000 then lines[n][..1000] else lines[n]
  {
    hide Lines, IsSensitive, IsSecretWord, StandsAt, Join;
    forall n | 0 <= n < |Lines(value)|
      ensures SanitizedLines(Lines(value))[n] == SanitizedLine(Lines(value)[n])
    {
      SensitiveExactly(Lines(value)[n]);
    }
    forall line ensures IsSensitive(line) <==> exists word, i :: IsSecretWord(word) && StandsAt(line, word, i) {
      SensitiveExactly(line);
    }
  }
}
