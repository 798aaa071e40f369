/** The start time of a process, by which the Agent tells a managed process from another that reuses its number. */
module ProcessStat {
  import opened Options
  import opened Text

  const U64_MAX := 0xFFFF_FFFF_FFFF_FFFF

  /** Position of the last ") ", or -1. */
  function LastClose(s: string): (i: int)
    ensures -1 <= i < |s| - 1 || i == -1
    ensures i >= 0 ==> s[i] == ')' && s[i + 1] == ' '
    ensures forall j :: i < j < |s| - 1 ==> !(s[j] == ')' && s[j + 1] == ' ')
  {
    if |s| < 2 then -1
    else if s[|s| - 2] == ')' && s[|s| - 1] == ' ' then |s| - 2
    else LastClose(s[..|s| - 1])
  }

  function WordEnd(s: string): (i: nat)
    ensures i <= |s|
    ensures forall j :: 0 <= j < i ==> !IsWhitespace(s[j])
    ensures i < |s| ==> IsWhitespace(s[i])
  {
    if s == "" || IsWhitespace(s[0]) then 0 else WordEnd(s[1..]) + 1
  }

  /** The runs of characters between whitespace. */
  function Words(s: string): seq<string>
    decreases |s|
  {
    var t := TrimStart(s);
    if t == "" || IsWhitespace(t[0]) then [] else [t[..WordEnd(t)]] + Words(t[WordEnd(t)..])
  }

  function ParseU64(s: string): Option<int> {
    var digits := if s != "" && s[0] == '+' then s[1..] else s;
    if digits == "" || !AllDigits(digits) || DigitsValue(digits) > U64_MAX then None else Some(DigitsValue(digits))
  }

  /** The word at index 19 after the last ") ". */
  function ParseStartTime(stat: string): Option<int> {
    var close := LastClose(stat);
    if close < 0 then None
    else
      var words := Words(stat[close + 2..]);
      if |words| <= 19 then None else ParseU64(words[19])
  }

  predicate IsWord(s: string) {
    s != "" && forall i :: 0 <= i < |s| ==> !IsWhitespace(s[i])
  }

  lemma WordsCons(word: string, rest: string)
    requires IsWord(word) && (rest != "" ==> IsWhitespace(rest[0]))
    ensures Words(word + rest) == [word] + Words(rest)
  {
    var s := word + rest;
    assert TrimStart(s) == s;
    assert forall j :: 0 <= j < |word| ==> s[j] == word[j];
    assert rest != "" ==> s[|word|] == rest[0];
    assert s[..|word|] == word && s[|word|..] == rest;
  }

  lemma {:induction false} WordsOfJoin(words: seq<string>, tail: string)
    requires |words| >= 1 && (forall i :: 0 <= i < |words| ==> IsWord(words[i])) &&
             (tail != "" ==> IsWhitespace(tail[0]))
    ensures Words(Join(words, ' ') + tail) == words + Words(tail)
  {
    hide Words, IsWord, IsWhitespace;
    if |words| == 1 {
      WordsCons(words[0], tail);
      assert words == [words[0]];
    } else {
      WordsOfJoin(words[1..], tail);
      var next := Join(words[1..], ' ') + tail;
      Regroup(words[0], " ", Join(words[1..], ' '), tail);
      assert IsWhitespace(' ') by { BlankIsWhitespace(); }
      WordsCons(words[0], " " + next);
      SpaceIsSkipped(next);
      assert words == [words[0]] + words[1..];
      assert [words[0]] + (words[1..] + Words(tail)) == words + Words(tail);
    }
  }

  lemma BlankIsWhitespace()
    ensures IsWhitespace(' ')
  {
  }

  lemma SpaceIsSkipped(s: string)
    ensures Words(" " + s) == Words(s)
  {
    assert (" " + s)[1..] == s;
  }

  /** The record as the kernel writes it: the number, the command name in parentheses, and the other fields. */
  function StatRecord(pid: string, command: string, fields: seq<string>, tail: string): string
    requires |fields| >= 1
  {
    pid + " (" + command + ") " + (Join(fields, ' ') + tail)
  }

  /** The start time is the 22nd field, whatever the command name: spaces, parentheses, and even text that looks like
      the following fields do not mislead the search. */
  lemma StartTimeIsField22(pid: string, command: string, fields: seq<string>, tail: string, startTime: nat)
    requires |fields| >= 20 && startTime <= U64_MAX && fields[19] == PrintNat(startTime)
    requires forall i :: 0 <= i < |fields| ==> IsWord(fields[i]) && Lacks(fields[i], ')')
    requires tail in {"", "\n"}
    ensures ParseStartTime(StatRecord(pid, command, fields, tail)) == Some(startTime)
  {
    var rest := Join(fields, ' ') + tail;
    var head := pid + " (" + command;
    JoinLacks(fields, ' ', ')');
    WordsOfJoin(fields, tail);
    ParsePrintedU64(startTime);
    hide Words, Join, LastClose, PrintNat, ParseU64, IsWord;
    assert StatRecord(pid, command, fields, tail) == head + (") " + rest);
    LastCloseAfter(head, rest);
  }

  lemma ParsePrintedU64(n: nat)
    requires n <= U64_MAX
    ensures ParseU64(PrintNat(n)) == Some(n)
  {
    PrintedDigits(n);
    hide PrintNat, DigitsValue;
    assert IsDigit(PrintNat(n)[0]);
  }

  lemma LastCloseAfter(head: string, rest: string)
    requires Lacks(rest, ')')
    ensures LastClose(head + (") " + rest)) == |head| && (head + (") " + rest))[|head| + 2..] == rest
  {
    var s := head + (") " + rest);
    hide LastClose;
    assert s[|head|] == ')' && s[|head| + 1] == ' ';
    assert s[|head| + 2..] == rest;
    NoLaterClose(head, rest, LastClose(s));
  }

  lemma NoLaterClose(head: string, rest: string, i: int)
    requires Lacks(rest, ')')
    ensures |head| < i < |head| + 2 + |rest| ==> (head + (") " + rest))[i] != ')'
  {
    assert i > |head| + 1 && i < |head| + 2 + |rest| ==> (head + (") " + rest))[i] == rest[i - |head| - 2];
  }
}
