/**
 * Character classes and text framing shared by the DIMACS writer and the
 * reply parser: decimal numerals, Java's `\s` and `\d` classes, and lines
 * terminated by a newline.
 */
module Text {

  /** The characters Java's regular expression class `\s` matches: space, \t, \n, \x0B, \f, \r. */
  predicate IsWhitespace(c: char) {
    c == ' ' || c == '\t' || c == '\n' || c == '\r' || c as int == 11 || c as int == 12
  }

  /** The characters Java's regular expression class `\d` matches. */
  predicate IsDigit(c: char) {
    '0' <= c <= '9'
  }

  predicate AllDigits(s: string) {
    forall i :: 0 <= i < |s| ==> IsDigit(s[i])
  }

  predicate NoWhitespace(s: string) {
    forall i :: 0 <= i < |s| ==> !IsWhitespace(s[i])
  }

  function DigitChar(d: nat): (c: char)
    requires d < 10
    ensures IsDigit(c)
  {
    ('0' as int + d) as char
  }

  function DigitValue(c: char): (d: nat)
    requires IsDigit(c)
    ensures d < 10
  {
    c as int - '0' as int
  }

  /** Decimal text of a natural number, without sign or leading zeros (Java's `"" + n` for n >= 0). */
  function NatText(n: nat): (s: string)
    ensures |s| >= 1 && AllDigits(s)
  {
    if n < 10 then [DigitChar(n)] else NatText(n / 10) + [DigitChar(n % 10)]
  }

  /** The value of a string of decimal digits, as `Integer.parseInt` computes it before its range check. */
  function DigitsValue(s: string): nat
    requires AllDigits(s)
  {
    if s == [] then 0 else DigitsValue(s[..|s| - 1]) * 10 + DigitValue(s[|s| - 1])
  }

  /** Decimal text reads back as the number it was made from. */
  lemma {:induction false} NatTextRoundTrip(n: nat)
    ensures DigitsValue(NatText(n)) == n
  {
    var s := NatText(n);
    if n >= 10 {
      NatTextRoundTrip(n / 10);
      assert s[..|s| - 1] == NatText(n / 10);
    }
  }

  /** Only zero is written as the numeral "0". */
  lemma NatTextIsZero(n: nat)
    ensures NatText(n) == "0" <==> n == 0
  {
    if NatText(n) == "0" {
      NatTextRoundTrip(n);
      assert DigitsValue("0") == 0 by { assert "0"[..0] == []; }
    }
  }

  /** A numeral is a single word on a single line. */
  lemma NatTextIsWord(n: nat)
    ensures NoWhitespace(NatText(n)) && NoNewline(NatText(n))
  {
    var s := NatText(n);
    assert forall i :: 0 <= i < |s| ==> IsDigit(s[i]);
  }

  /** Each line followed by a newline, as a BufferedWriter/StringBuilder loop produces it. */
  function Terminated(lines: seq<string>): string
  {
    if lines == [] then "" else Terminated(lines[..|lines| - 1]) + lines[|lines| - 1] + "\n"
  }

  /** Position of the first newline in `s`, or |s| when there is none. */
  function NewlineAt(s: string): (k: nat)
    ensures k <= |s|
    ensures forall i :: 0 <= i < k ==> s[i] != '\n'
    ensures k < |s| ==> s[k] == '\n'
  {
    if s == [] then 0 else if s[0] == '\n' then 0 else 1 + NewlineAt(s[1..])
  }

  /** The lines of `s`, as successive `BufferedReader.readLine` calls return them when `s` contains no '\r'. */
  function Lines(s: string): seq<string>
    decreases |s|
  {
    if s == [] then []
    else
      var k := NewlineAt(s);
      if k == |s| then [s] else [s[..k]] + Lines(s[k + 1..])
  }

  predicate NoNewline(s: string) {
    forall i :: 0 <= i < |s| ==> s[i] != '\n'
  }

  lemma {:induction false} TerminatedCons(line: string, rest: seq<string>)
    ensures Terminated([line] + rest) == line + "\n" + Terminated(rest)
    decreases |rest|
  {
    if rest != [] {
      var all := [line] + rest;
      assert all[..|all| - 1] == [line] + rest[..|rest| - 1];
      TerminatedCons(line, rest[..|rest| - 1]);
    }
  }

  lemma {:induction false} TerminatedAppend(lines: seq<string>, more: seq<string>)
    ensures Terminated(lines + more) == Terminated(lines) + Terminated(more)
    decreases |more|
  {
    if more != [] {
      var all := lines + more;
      var init, last := more[..|more| - 1], more[|more| - 1];
      assert all[..|all| - 1] == lines + init;
      assert all[|all| - 1] == last;
      TerminatedAppend(lines, init);
      assert Terminated(more) == Terminated(init) + last + "\n";
    } else {
      assert lines + more == lines;
    }
  }

  /** Reading back text written line by line gives the same lines, in order. */
  lemma {:induction false} LinesOfTerminated(lines: seq<string>)
    requires forall i :: 0 <= i < |lines| ==> NoNewline(lines[i])
    ensures Lines(Terminated(lines)) == lines
    decreases |lines|
  {
    if lines != [] {
      var head, rest := lines[0], lines[1..];
      assert lines == [head] + rest;
      TerminatedCons(head, rest);
      var s := Terminated(lines);
      assert s == head + ("\n" + Terminated(rest));
      NewlineAtPrefix(head, "\n" + Terminated(rest));
      assert NewlineAt(s) == |head| < |s|;
      assert s[..|head|] == head;
      assert s[|head| + 1..] == Terminated(rest);
      assert Lines(s) == [head] + Lines(Terminated(rest));
      LinesOfTerminated(rest);
    }
  }

  lemma {:induction false} NewlineAtPrefix(head: string, tail: string)
    requires NoNewline(head) && tail != [] && tail[0] == '\n'
    ensures NewlineAt(head + tail) == |head|
    decreases |head|
  {
    if head != [] {
      assert (head + tail)[1..] == head[1..] + tail;
      NewlineAtPrefix(head[1..], tail);
    } else {
      assert head + tail == tail;
    }
  }
}
