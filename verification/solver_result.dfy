/**
 * The outcome of one solver run and the parser for the solver's assignment
 * line (SolverResult.java).
 *
 * The assignment line is split like Java's `line.split("\\s")`, and each
 * token is read like the first match of `(-?)(\d+)` followed by
 * `Integer.parseInt`; those library routines are written out here.
 */
module SolverResults {
  import opened Wrappers
  import opened Text
  import opened Variables
  import opened Clauses

  /** The largest value `Integer.parseInt` accepts. */
  const IntMax: nat := 0x7FFF_FFFF

  // ---------------------------------------------------------------------
  // Splitting a line at single whitespace characters

  /** The text between consecutive whitespace characters, including empty pieces. */
  function Pieces(s: string): (r: seq<string>)
    ensures |r| >= 1
    ensures forall k :: 0 <= k < |r| ==> NoWhitespace(r[k])
  {
    if s == [] then [""]
    else if IsWhitespace(s[0]) then [""] + Pieces(s[1..])
    else
      var p := Pieces(s[1..]);
      [[s[0]] + p[0]] + p[1..]
  }

  function DropTrailingEmpty(ps: seq<string>): (r: seq<string>)
    ensures |r| <= |ps| && r == ps[..|r|]
    ensures r == [] || r[|r| - 1] != ""
    ensures forall k :: |r| <= k < |ps| ==> ps[k] == ""
  {
    if ps == [] then []
    else if ps[|ps| - 1] == "" then DropTrailingEmpty(ps[..|ps| - 1])
    else ps
  }

  /**
   * `line.split("\\s")`: a line with no whitespace is returned whole (so ""
   * gives [""]); otherwise the pieces between single whitespace characters,
   * with the empty pieces at the end dropped.
   */
  function SplitWhitespace(line: string): (tokens: seq<string>)
    ensures forall k :: 0 <= k < |tokens| ==> NoWhitespace(tokens[k])
    ensures NoWhitespace(line) ==> tokens == [line]
    ensures !NoWhitespace(line) ==>
              && |tokens| <= |Pieces(line)| && tokens == Pieces(line)[..|tokens|]
              && (forall k :: |tokens| <= k < |Pieces(line)| ==> Pieces(line)[k] == "")
              && (tokens == [] || tokens[|tokens| - 1] != "")
  {
    if NoWhitespace(line) then [line] else DropTrailingEmpty(Pieces(line))
  }

  lemma {:induction false} PiecesOfWord(word: string, rest: string)
    requires NoWhitespace(word)
    ensures Pieces(word + " " + rest) == [word] + Pieces(rest)
    ensures Pieces(word) == [word]
    decreases |word|
  {
    if word != [] {
      PiecesOfWord(word[1..], rest);
      assert (word + " " + rest)[1..] == word[1..] + " " + rest;
      assert [word[0]] + word[1..] == word;
    } else {
      assert word + " " + rest == " " + rest;
      assert (" " + rest)[1..] == rest;
    }
  }

  /** The whitespace characters of `s`, in order: the separators `split` cuts at. */
  function Separators(s: string): (seps: string)
    ensures forall k :: 0 <= k < |seps| ==> IsWhitespace(seps[k])
  {
    if s == [] then [] else (if IsWhitespace(s[0]) then [s[0]] else []) + Separators(s[1..])
  }

  /** The pieces put back together, with separator k between piece k and piece k + 1. */
  function Interleave(pieces: seq<string>, seps: string): string
    requires |pieces| == |seps| + 1
    decreases |seps|
  {
    if seps == [] then pieces[0] else pieces[0] + [seps[0]] + Interleave(pieces[1..], seps[1..])
  }

  /** A character put in front of the first piece comes out in front of the whole text. */
  lemma InterleaveExtend(c: char, pieces: seq<string>, seps: string)
    requires |pieces| == |seps| + 1
    ensures Interleave([[c] + pieces[0]] + pieces[1..], seps) == [c] + Interleave(pieces, seps)
  {
    var longer := [[c] + pieces[0]] + pieces[1..];
    assert longer[0] == [c] + pieces[0] && longer[1..] == pieces[1..];
    if seps != [] {
      calc {
        Interleave(longer, seps);
        ([c] + pieces[0]) + [seps[0]] + Interleave(pieces[1..], seps[1..]);
        [c] + (pieces[0] + [seps[0]] + Interleave(pieces[1..], seps[1..]));
      }
    }
  }

  /** The pieces of `s` are the text between consecutive single whitespace characters: putting them back gives `s`. */
  lemma {:induction false} PiecesInterleave(s: string)
    ensures |Pieces(s)| == |Separators(s)| + 1
    ensures Interleave(Pieces(s), Separators(s)) == s
    decreases |s|
  {
    if s != [] {
      PiecesInterleave(s[1..]);
      var p, seps := Pieces(s[1..]), Separators(s[1..]);
      if IsWhitespace(s[0]) {
        assert Pieces(s) == [""] + p && Separators(s) == [s[0]] + seps;
        assert Pieces(s)[1..] == p && Separators(s)[1..] == seps;
        calc {
          Interleave(Pieces(s), Separators(s));
          "" + [s[0]] + Interleave(p, seps);
          [s[0]] + s[1..];
          s;
        }
      } else {
        assert Pieces(s) == [[s[0]] + p[0]] + p[1..] && Separators(s) == seps;
        InterleaveExtend(s[0], p, seps);
        assert s == [s[0]] + s[1..];
      }
    }
  }

  lemma {:induction false} PiecesAfterWord(word: string, c: char, rest: string)
    requires NoWhitespace(word) && IsWhitespace(c)
    ensures Pieces(word + [c] + rest) == [word] + Pieces(rest)
    decreases |word|
  {
    if word != [] {
      PiecesAfterWord(word[1..], c, rest);
      assert (word + [c] + rest)[1..] == word[1..] + [c] + rest;
      assert [word[0]] + word[1..] == word;
    } else {
      assert word + [c] + rest == [c] + rest;
      assert ([c] + rest)[1..] == rest;
    }
  }

  /** A piece holds a character that is not whitespace, so `split` keeps every piece up to it. */
  lemma {:induction false} PiecesNonEmpty(s: string, k: nat)
    requires k < |s| && !IsWhitespace(s[k])
    ensures exists j :: 0 <= j < |Pieces(s)| && Pieces(s)[j] != ""
    decreases k
  {
    if IsWhitespace(s[0]) {
      PiecesNonEmpty(s[1..], k - 1);
      var j :| 0 <= j < |Pieces(s[1..])| && Pieces(s[1..])[j] != "";
      assert Pieces(s)[j + 1] == Pieces(s[1..])[j];
    } else {
      assert Pieces(s)[0] != "";
    }
  }

  // ---------------------------------------------------------------------
  // Reading one token

  /** One recorded solver value: variable number and truth value. */
  datatype Entry = Entry(number: nat, value: bool)

  /** The failures `addVariables` reports by throwing. */
  datatype ParseError =
    | Malformed(token: string)      // "malformed result: " + token
    | NumberFormat(token: string)   // Integer.parseInt rejects a digit run above IntMax
    | UnexpectedEnd                 // "unexpected end of input"

  /** Index of the first digit of `s`, or |s| when it has none. */
  function FirstDigit(s: string): (k: nat)
    ensures k <= |s|
    ensures forall i :: 0 <= i < k ==> !IsDigit(s[i])
    ensures k < |s| ==> IsDigit(s[k])
  {
    if s == [] then 0 else if IsDigit(s[0]) then 0 else 1 + FirstDigit(s[1..])
  }

  /** The longest prefix of `s` made of digits (what the greedy `\d+` takes). */
  function DigitRun(s: string): (r: string)
    ensures |r| <= |s| && r == s[..|r|]
    ensures AllDigits(r)
    ensures |r| < |s| ==> !IsDigit(s[|r|])
  {
    if s == [] || !IsDigit(s[0]) then "" else [s[0]] + DigitRun(s[1..])
  }

  /**
   * One token of the assignment line, read as the first match of `(-?)(\d+)`:
   * the first run of digits is the number, and the value is false exactly
   * when a hyphen stands right before that run.
   */
  function ParseToken(token: string): (r: Result<Entry, ParseError>)
    ensures r.Failure? ==> r.error == Malformed(token) || r.error == NumberFormat(token)
    ensures r.Success? ==> r.value.number <= IntMax
  {
    var d := FirstDigit(token);
    if d == |token| then Failure(Malformed(token))
    else
      var digits := DigitRun(token[d..]);
      var negative := d > 0 && token[d - 1] == '-';
      var number := DigitsValue(digits);
      if number > IntMax then Failure(NumberFormat(token))
      else Success(Entry(number, !negative))
  }

  /** A token is rejected as malformed exactly when it holds no digit; the empty token is one. */
  lemma ParseTokenMalformed(token: string)
    ensures ParseToken(token) == Failure(Malformed(token)) <==> forall i :: 0 <= i < |token| ==> !IsDigit(token[i])
    ensures ParseToken("") == Failure(Malformed(""))
  {
  }

  /** A variable's own text reads back as its number, with value true exactly for the positive form. */
  lemma ParseVariableText(v: Variable)
    requires 1 <= v.number <= IntMax
    ensures VariableText(v) != "0"
    ensures ParseToken(VariableText(v)) == Success(Entry(v.number, !v.negative))
  {
    var digits := NatText(v.number);
    NatTextRoundTrip(v.number);
    NatTextIsZero(v.number);
    var token := VariableText(v);
    var d := if v.negative then 1 else 0;
    assert FirstDigit(token) == d by {
      if v.negative { assert token[0] == '-' && IsDigit(token[1]); } else { assert IsDigit(token[0]); }
    }
    assert token[d..] == digits;
    assert DigitRun(digits) == digits;
  }

  lemma {:induction false} FirstDigitAfter(pre: string, rest: string)
    requires forall i :: 0 <= i < |pre| ==> !IsDigit(pre[i])
    requires rest != [] && IsDigit(rest[0])
    ensures FirstDigit(pre + rest) == |pre|
    decreases |pre|
  {
    if pre != [] {
      assert (pre + rest)[1..] == pre[1..] + rest;
      FirstDigitAfter(pre[1..], rest);
    } else {
      assert pre + rest == rest;
    }
  }

  lemma {:induction false} DigitRunOf(digits: string, post: string)
    requires AllDigits(digits)
    requires post == [] || !IsDigit(post[0])
    ensures DigitRun(digits + post) == digits
    decreases |digits|
  {
    if digits != [] {
      assert (digits + post)[1..] == digits[1..] + post;
      DigitRunOf(digits[1..], post);
    } else {
      assert digits + post == post;
    }
  }

  /**
   * The first match of `(-?)(\d+)` in a token made of a digit-free prefix,
   * a digit run and a rest that does not start with a digit: the number is
   * the run, it is negative exactly when a hyphen stands right before the
   * run, and `parseInt` rejects it exactly when it exceeds IntMax.
   */
  lemma FirstMatch(pre: string, digits: string, post: string)
    requires forall i :: 0 <= i < |pre| ==> !IsDigit(pre[i])
    requires digits != [] && AllDigits(digits)
    requires post == [] || !IsDigit(post[0])
    ensures var token := pre + digits + post;
      ParseToken(token) ==
        if DigitsValue(digits) > IntMax then Failure(NumberFormat(token))
        else Success(Entry(DigitsValue(digits), !(pre != [] && pre[|pre| - 1] == '-')))
  {
    var token := pre + digits + post;
    assert token == pre + (digits + post);
    FirstDigitAfter(pre, digits + post);
    assert token[|pre|..] == digits + post;
    DigitRunOf(digits, post);
    assert |pre| > 0 ==> token[|pre| - 1] == pre[|pre| - 1];
  }

  lemma TwelveValue()
    ensures AllDigits("12") && DigitsValue("12") == 12
  {
    assert "12"[..1] == "1" && "1"[..0] == "";
  }

  /** In "x-12y" the first digit run is 12 and a hyphen stands right before it, so 12 is read as false. */
  lemma FirstMatchHyphen()
    ensures ParseToken("x-12y") == Success(Entry(12, false))
  {
    TwelveValue();
    FirstMatch("x-", "12", "y");
    assert "x-" + "12" + "y" == "x-12y";
  }

  /** In "-x12" the hyphen is not next to the digits, so 12 is read as true. */
  lemma FirstMatchApart()
    ensures ParseToken("-x12") == Success(Entry(12, true))
  {
    TwelveValue();
    FirstMatch("-x", "12", "");
    assert "-x" + "12" + "" == "-x12";
  }

  // ---------------------------------------------------------------------
  // Reading the whole line

  /** What reading a token list records, and how it ends (None: at a "0" token). */
  datatype Scan = Scan(entries: seq<Entry>, error: Option<ParseError>)

  /**
   * Reading from token `i` on: it stops with success at the first token
   * equal to "0", with an error at the first unreadable token, and with
   * UnexpectedEnd when the tokens run out.
   */
  function DecodeFrom(tokens: seq<string>, i: nat): (r: Scan)
    requires i <= |tokens|
    ensures i + |r.entries| <= |tokens|
    decreases |tokens| - i
  {
    if i == |tokens| then Scan([], Some(UnexpectedEnd))
    else if tokens[i] == "0" then Scan([], None)
    else match ParseToken(tokens[i])
      case Failure(e) => Scan([], Some(e))
      case Success(entry) =>
        var rest := DecodeFrom(tokens, i + 1);
        Scan([entry] + rest.entries, rest.error)
  }

  /** What `addVariables` makes of the tokens of a line, read from the first. */
  function Decode(tokens: seq<string>): (r: Scan)
    ensures |r.entries| <= |tokens|
  {
    DecodeFrom(tokens, 0)
  }

  /** Every token read before the stopping point is a readable non-"0" token, recorded in order. */
  lemma {:induction false} DecodeFromReads(tokens: seq<string>, i: nat)
    requires i <= |tokens|
    ensures var r := DecodeFrom(tokens, i);
      forall k :: i <= k < i + |r.entries| ==> tokens[k] != "0" && ParseToken(tokens[k]) == Success(r.entries[k - i])
    decreases |tokens| - i
  {
    if i < |tokens| && tokens[i] != "0" && ParseToken(tokens[i]).Success? {
      DecodeFromReads(tokens, i + 1);
      var r, rest := DecodeFrom(tokens, i), DecodeFrom(tokens, i + 1);
      assert r.entries == [ParseToken(tokens[i]).value] + rest.entries;
      forall k | i <= k < i + |r.entries|
        ensures tokens[k] != "0" && ParseToken(tokens[k]) == Success(r.entries[k - i])
      {
        if k > i { assert r.entries[k - i] == rest.entries[k - (i + 1)]; }
      }
    }
  }

  /** How reading that stopped at token `j` with `error` can have ended. */
  predicate Halted(tokens: seq<string>, j: nat, error: Option<ParseError>)
  {
    match error
    case None => j < |tokens| && tokens[j] == "0"
    case Some(UnexpectedEnd) => j == |tokens|
    case Some(e) => j < |tokens| && tokens[j] != "0" && ParseToken(tokens[j]) == Failure(e)
  }

  /** The token at the stopping point decides how reading ended. */
  lemma {:induction false} DecodeFromHalts(tokens: seq<string>, i: nat)
    requires i <= |tokens|
    ensures Halted(tokens, i + |DecodeFrom(tokens, i).entries|, DecodeFrom(tokens, i).error)
    decreases |tokens| - i
  {
    if i < |tokens| && tokens[i] != "0" {
      var parsed := ParseToken(tokens[i]);
      if parsed.Success? {
        DecodeFromHalts(tokens, i + 1);
        var r, rest := DecodeFrom(tokens, i), DecodeFrom(tokens, i + 1);
        assert r == Scan([parsed.value] + rest.entries, rest.error);
        assert i + |r.entries| == (i + 1) + |rest.entries|;
      } else {
        assert DecodeFrom(tokens, i) == Scan([], Some(parsed.error));
        assert parsed.error != UnexpectedEnd;
      }
    }
  }

  /**
   * Where reading stops: every token before the stopping point is recorded
   * in order; success happens at a "0" token; a parse error at the token
   * that caused it; "unexpected end of input" exactly when every token was
   * read, so only when no token is "0".
   */
  lemma DecodeStops(tokens: seq<string>)
    ensures var r := Decode(tokens);
      && (forall k :: 0 <= k < |r.entries| ==> tokens[k] != "0" && ParseToken(tokens[k]) == Success(r.entries[k]))
      && (r.error == None ==> |r.entries| < |tokens| && tokens[|r.entries|] == "0")
      && (r.error == Some(UnexpectedEnd) <==> |r.entries| == |tokens|)
      && (r.error.Some? && r.error != Some(UnexpectedEnd) ==>
            |r.entries| < |tokens| && tokens[|r.entries|] != "0" && ParseToken(tokens[|r.entries|]) == Failure(r.error.value))
  {
    DecodeReads(tokens);
    var r := DecodeFrom(tokens, 0);
    DecodeFromHalts(tokens, 0);
    assert Halted(tokens, |r.entries|, r.error);
  }

  lemma DecodeReads(tokens: seq<string>)
    ensures var r := Decode(tokens);
      forall k :: 0 <= k < |r.entries| ==> tokens[k] != "0" && ParseToken(tokens[k]) == Success(r.entries[k])
  {
    var r := DecodeFrom(tokens, 0);
    DecodeFromReads(tokens, 0);
    forall k | 0 <= k < |r.entries|
      ensures tokens[k] != "0" && ParseToken(tokens[k]) == Success(r.entries[k])
    {
      assert r.entries[k] == r.entries[k - 0];
    }
  }

  /** "unexpected end of input" happens exactly when no token is "0" and every token reads as a number. */
  lemma UnexpectedEndMeansNoTerminator(tokens: seq<string>)
    ensures Decode(tokens).error == Some(UnexpectedEnd) <==>
              forall k :: 0 <= k < |tokens| ==> tokens[k] != "0" && ParseToken(tokens[k]).Success?
  {
    DecodeStops(tokens);
    var r := Decode(tokens);
  }

  /** Results after storing each entry in turn, as `setResult` does. */
  function Record(results: map<nat, bool>, registered: set<nat>, entries: seq<Entry>): (r: map<nat, bool>)
    ensures forall n :: n in r <==> n in results || (n in registered && Mentions(entries, n))
    ensures forall n :: n in r && n !in registered ==> r[n] == results[n]
  {
    if entries == [] then results
    else
      var last := entries[|entries| - 1];
      var before := Record(results, registered, entries[..|entries| - 1]);
      if last.number in registered then before[last.number := last.value] else before
  }

  /** Recording one more entry updates just that entry's number, when it is registered. */
  lemma RecordSnoc(results: map<nat, bool>, registered: set<nat>, entries: seq<Entry>, e: Entry)
    ensures Record(results, registered, entries + [e]) ==
      if e.number in registered then Record(results, registered, entries)[e.number := e.value]
      else Record(results, registered, entries)
  {
    assert (entries + [e])[..|entries|] == entries;
  }

  /** With distinct numbers, each registered entry's value is what is stored; other numbers keep their old result. */
  lemma {:induction false} RecordDistinct(results: map<nat, bool>, registered: set<nat>, entries: seq<Entry>)
    requires forall p, q :: 0 <= p < q < |entries| ==> entries[p].number != entries[q].number
    ensures forall k :: 0 <= k < |entries| && entries[k].number in registered ==>
              entries[k].number in Record(results, registered, entries) &&
              Record(results, registered, entries)[entries[k].number] == entries[k].value
    ensures forall n :: !Mentions(entries, n) ==>
              (n in Record(results, registered, entries) <==> n in results) &&
              (n in results ==> Record(results, registered, entries)[n] == results[n])
  {
    if entries != [] {
      var init, last := entries[..|entries| - 1], entries[|entries| - 1];
      RecordDistinct(results, registered, init);
      var before, after := Record(results, registered, init), Record(results, registered, entries);
      assert after == if last.number in registered then before[last.number := last.value] else before;
      forall k | 0 <= k < |entries| && entries[k].number in registered
        ensures entries[k].number in after && after[entries[k].number] == entries[k].value
      {
        if k < |init| {
          assert init[k] == entries[k] && entries[k].number != last.number;
        }
      }
      forall n | !Mentions(entries, n)
        ensures (n in after <==> n in results) && (n in results ==> after[n] == results[n])
      {
        assert entries[|entries| - 1].number != n;
        assert !Mentions(init, n) by {
          forall k | 0 <= k < |init| ensures init[k].number != n {
            assert init[k] == entries[k];
          }
        }
      }
    }
  }

  /** Some entry is for number `n`. */
  predicate Mentions(entries: seq<Entry>, n: nat)
  {
    exists k :: 0 <= k < |entries| && entries[k].number == n
  }

  // ---------------------------------------------------------------------
  // A clause line (or an assignment line in the same shape) read back

  /** The entries a line of the given variables records: value true for positive forms. */
  function EntriesOf(vs: seq<Variable>): (es: seq<Entry>)
    ensures |es| == |vs|
  {
    seq(|vs|, k requires 0 <= k < |vs| => Entry(vs[k].number, !vs[k].negative))
  }

  /** The text of each variable, in order. */
  function Tokens(vs: seq<Variable>): (ts: seq<string>)
    ensures |ts| == |vs|
  {
    seq(|vs|, k requires 0 <= k < |vs| => VariableText(vs[k]))
  }

  lemma {:induction false} PiecesOfClauseText(vs: seq<Variable>)
    ensures Pieces(ClauseText(vs)) == Tokens(vs) + ["0"]
    decreases |vs|
  {
    if vs == [] {
      PiecesOfWord("0", "");
    } else {
      var word, rest := VariableText(vs[0]), ClauseText(vs[1..]);
      assert ClauseText(vs) == word + " " + rest;
      PiecesOfWord(word, rest);
      PiecesOfClauseText(vs[1..]);
      calc {
        Pieces(ClauseText(vs));
        [word] + Pieces(rest);
        [word] + (Tokens(vs[1..]) + ["0"]);
        { assert Tokens(vs) == [word] + Tokens(vs[1..]); }
        Tokens(vs) + ["0"];
      }
    }
  }

  /** `split("\\s")` of a clause line gives each variable's text and then "0". */
  lemma SplitClauseText(vs: seq<Variable>)
    ensures SplitWhitespace(ClauseText(vs)) == Tokens(vs) + ["0"]
  {
    PiecesOfClauseText(vs);
    if vs == [] {
      assert ClauseText(vs) == "0";
    } else {
      var line := ClauseText(vs);
      assert line == VariableText(vs[0]) + " " + ClauseText(vs[1..]);
      assert IsWhitespace(line[|VariableText(vs[0])|]);
    }
  }

  /**
   * Reading resumed at token `i`, after `done` was read: what token `i`
   * alone decides about the whole line.
   */
  lemma DecodeResume(tokens: seq<string>, i: nat, done: seq<Entry>)
    requires i <= |tokens|
    requires Decode(tokens) == Scan(done + DecodeFrom(tokens, i).entries, DecodeFrom(tokens, i).error)
    ensures i == |tokens| ==> Decode(tokens) == Scan(done, Some(UnexpectedEnd))
    ensures i < |tokens| && tokens[i] == "0" ==> Decode(tokens) == Scan(done, None)
    ensures i < |tokens| && tokens[i] != "0" && ParseToken(tokens[i]).Failure? ==>
              Decode(tokens) == Scan(done, Some(ParseToken(tokens[i]).error))
    ensures i < |tokens| && tokens[i] != "0" && ParseToken(tokens[i]).Success? ==>
              var rest := DecodeFrom(tokens, i + 1);
              Decode(tokens) == Scan((done + [ParseToken(tokens[i]).value]) + rest.entries, rest.error)
  {
    assert done + [] == done;
    if i < |tokens| && tokens[i] != "0" && ParseToken(tokens[i]).Success? {
      var rest := DecodeFrom(tokens, i + 1);
      assert done + ([ParseToken(tokens[i]).value] + rest.entries) == (done + [ParseToken(tokens[i]).value]) + rest.entries;
    }
  }

  /** Readable tokens followed by "0" record one entry per token and end normally. */
  lemma {:induction false} DecodeReadable(tokens: seq<string>, entries: seq<Entry>, i: nat)
    requires |tokens| == |entries| + 1 && tokens[|entries|] == "0"
    requires forall k :: 0 <= k < |entries| ==> tokens[k] != "0" && ParseToken(tokens[k]) == Success(entries[k])
    requires i <= |entries|
    ensures DecodeFrom(tokens, i) == Scan(entries[i..], None)
    decreases |entries| - i
  {
    if i < |entries| {
      DecodeReadable(tokens, entries, i + 1);
      assert entries[i..] == [entries[i]] + entries[i + 1..];
    }
  }

  lemma DecodeTokens(vs: seq<Variable>)
    requires forall k :: 0 <= k < |vs| ==> 1 <= vs[k].number <= IntMax
    ensures Decode(Tokens(vs) + ["0"]) == Scan(EntriesOf(vs), None)
  {
    var tokens, entries := Tokens(vs) + ["0"], EntriesOf(vs);
    forall k | 0 <= k < |entries|
      ensures tokens[k] != "0" && ParseToken(tokens[k]) == Success(entries[k])
    {
      ParseVariableText(vs[k]);
    }
    DecodeReadable(tokens, entries, 0);
    assert entries[0..] == entries;
  }

  /**
   * Round trip: a line written like a DIMACS clause line (which is the shape
   * of the solver's assignment line) reads back as one entry per variable,
   * in order, and ends normally at its "0".
   */
  lemma DecodeClauseText(vs: seq<Variable>)
    requires forall k :: 0 <= k < |vs| ==> 1 <= vs[k].number <= IntMax
    ensures Decode(SplitWhitespace(ClauseText(vs))) == Scan(EntriesOf(vs), None)
  {
    SplitClauseText(vs);
    DecodeTokens(vs);
  }

  /** The reply line "1 -2 3 0" records 1 as true, 2 as false and 3 as true. */
  lemma DecodeExample()
    ensures Decode(SplitWhitespace("1 -2 3 0")) == Scan([Entry(1, true), Entry(2, false), Entry(3, true)], None)
  {
    var vs := [Variable(1, false), Variable(2, true), Variable(3, false)];
    assert ClauseText(vs) == "1 -2 3 0";
    DecodeClauseText(vs);
    assert EntriesOf(vs) == [Entry(1, true), Entry(2, false), Entry(3, true)];
  }

  /**
   * Two whitespace characters in a row after a readable token leave an empty
   * token between them (`split` cuts at single characters), and the empty
   * token holds no digit: reading records the first token and stops with
   * "malformed result: " and nothing after it, as long as something other
   * than whitespace follows.
   */
  lemma DoubleWhitespaceMalformed(word: string, c1: char, c2: char, rest: string, k: nat)
    requires NoWhitespace(word) && word != "0" && ParseToken(word).Success?
    requires IsWhitespace(c1) && IsWhitespace(c2)
    requires k < |rest| && !IsWhitespace(rest[k])
    ensures Decode(SplitWhitespace(word + [c1, c2] + rest)) == Scan([ParseToken(word).value], Some(Malformed("")))
  {
    var line := word + [c1, c2] + rest;
    assert line == word + [c1] + ([c2] + rest);
    PiecesAfterWord(word, c1, [c2] + rest);
    assert ([c2] + rest)[1..] == rest;
    var pieces := Pieces(line);
    assert pieces == [word] + ([""] + Pieces(rest));
    PiecesNonEmpty(rest, k);
    var j :| 0 <= j < |Pieces(rest)| && Pieces(rest)[j] != "";
    assert pieces[j + 2] != "";
    assert line[|word|] == c1;
    var tokens := SplitWhitespace(line);
    assert |tokens| > 2 && tokens[0] == word && tokens[1] == "" by {
      assert !NoWhitespace(line);
      assert tokens == pieces[..|tokens|];
    }
    ParseTokenMalformed("");
    var second := DecodeFrom(tokens, 1);
    assert second == Scan([], Some(Malformed("")));
    assert DecodeFrom(tokens, 0) == Scan([ParseToken(word).value] + second.entries, second.error);
  }

  /** The reply line "1  0" (two spaces) records 1 as true and then stops at the empty token. */
  lemma DoubleSpaceExample()
    ensures Decode(SplitWhitespace("1  0")) == Scan([Entry(1, true)], Some(Malformed("")))
  {
    assert AllDigits("1") && DigitsValue("1") == 1 by { assert "1"[..0] == ""; }
    FirstMatch("", "1", "");
    assert "" + "1" + "" == "1";
    DoubleWhitespaceMalformed("1", ' ', ' ', "0", 0);
    assert "1" + [' ', ' '] + "0" == "1  0";
  }

  /** A line of whitespace alone splits into no tokens at all, so reading it ends at once. */
  lemma BlankLine()
    ensures SplitWhitespace(" ") == []
    ensures Decode(SplitWhitespace(" ")) == Scan([], Some(UnexpectedEnd))
  {
    assert !NoWhitespace(" ") by { assert IsWhitespace(" "[0]); }
    assert " "[1..] == "";
    assert Pieces(" ") == ["", ""];
  }

  // ---------------------------------------------------------------------
  // The result object

  /** What one run of the solver produced: the verdict and its diagnostic lines. */
  class SolverResult {
    const satisfiable: bool
    var statistics: seq<string>

    /** `SolverResult(satisfiable)`: the verdict is fixed here and there are no statistics yet. */
    constructor (satisfiable: bool)
      ensures this.satisfiable == satisfiable && statistics == []
    {
      this.satisfiable := satisfiable;
      statistics := [];
    }

    /** `isSatisfiable()`: the verdict given to the constructor (a constant field). */
    function IsSatisfiable(): (b: bool)
      ensures b == satisfiable
    {
      satisfiable
    }

    /** `addStatisticsLine(line)`: appended at the end. */
    method AddStatisticsLine(line: string)
      modifies this`statistics
      ensures statistics == old(statistics) + [line]
    {
      statistics := statistics + [line];
    }

    /** `getStatistics()`: a copy of the lines added so far, in order. */
    function GetStatistics(): (lines: seq<string>)
      reads this
      ensures |lines| == |statistics| && forall k :: 0 <= k < |lines| ==> lines[k] == statistics[k]
    {
      statistics
    }

    /** `toString()`: each statistics line followed by a newline; "" when there are none. */
    method ToString() returns (s: string)
      ensures s == Terminated(statistics)
      ensures statistics == [] ==> s == ""
    {
      var sb := "";
      for i := 0 to |statistics|
        invariant sb == Terminated(statistics[..i])
      {
        assert statistics[..i + 1][..i] == statistics[..i];
        sb := sb + statistics[i] + "\n";
      }
      assert statistics[..|statistics|] == statistics;
      s := sb;
    }

    /**
     * `addVariables(line)`: splits the line, stores each token's value in the
     * registry until the "0" token, and reports the error the source throws.
     * Values stored before an error stay stored.
     */
    method AddVariables(line: string, registry: Registry) returns (error: Option<ParseError>)
      requires registry.Valid()
      modifies registry`results
      ensures registry.Valid()
      ensures error == Decode(SplitWhitespace(line)).error
      ensures registry.results ==
                Record(old(registry.results), registry.variables.Keys, Decode(SplitWhitespace(line)).entries)
    {
      var tokens := SplitWhitespace(line);
      error := RecordTokens(tokens, registry);
    }

    /** The token loop of `addVariables`: it returns at "0" and throws at an unreadable token or at the end. */
    method RecordTokens(tokens: seq<string>, registry: Registry) returns (error: Option<ParseError>)
      requires registry.Valid()
      modifies registry`results
      ensures registry.Valid()
      ensures error == Decode(tokens).error
      ensures registry.results == Record(old(registry.results), registry.variables.Keys, Decode(tokens).entries)
    {
      ghost var initial, registered := registry.results, registry.variables.Keys;
      ghost var done: seq<Entry> := [];
      for i := 0 to |tokens|
        invariant registry.Valid() && registry.variables.Keys == registered
        invariant Decode(tokens) == Scan(done + DecodeFrom(tokens, i).entries, DecodeFrom(tokens, i).error)
        invariant registry.results == Record(initial, registered, done)
      {
        DecodeResume(tokens, i, done);
        if tokens[i] == "0" {
          return None;
        }
        var parsed := ParseToken(tokens[i]);
        if parsed.Failure? {
          return Some(parsed.error);
        }
        var entry := parsed.value;
        registry.SetResult(entry.number, entry.value);
        RecordSnoc(initial, registered, done, entry);
        done := done + [entry];
      }
      DecodeResume(tokens, |tokens|, done);
      error := Some(UnexpectedEnd);
    }
  }
}
