/** Quoting words for a shell command line, and the POSIX rules that read them back. */
module ShellWords {
  import opened Sequences
  import opened Texts

  const SINGLE_QUOTE: byte := 39
  const DOUBLE_QUOTE: byte := 34
  const BACKSLASH: byte := 92
  const SPACE: byte := 32
  const TAB: byte := 9
  const NEWLINE: byte := 10
  const DOLLAR: byte := 36
  const BACKQUOTE: byte := 96

  // ----- the printer

  /** Letters, digits and - _ = / . : , need no quotes. */
  predicate Plain(c: byte) {
    || c in {45, 95, 61, 47, 46, 58, 44}
    || 48 <= c <= 57 || 65 <= c <= 90 || 97 <= c <= 122
  }

  predicate AllPlain(word: Text) {
    forall i :: 0 <= i < |word| ==> Plain(word[i])
  }

  /** Every single quote is closed, escaped and reopened. */
  function QuotesReplaced(word: Text): Text {
    if word == [] then []
    else (if word[0] == SINGLE_QUOTE then [SINGLE_QUOTE, BACKSLASH, SINGLE_QUOTE, SINGLE_QUOTE] else [word[0]])
         + QuotesReplaced(word[1..])
  }

  function ShellQuoteWord(word: Text): Text {
    if word == [] then [SINGLE_QUOTE, SINGLE_QUOTE]
    else if AllPlain(word) then word
    else [SINGLE_QUOTE] + QuotesReplaced(word) + [SINGLE_QUOTE]
  }

  function Joined(parts: seq<Text>): Text {
    if parts == [] then []
    else if |parts| == 1 then parts[0]
    else parts[0] + [SPACE] + Joined(parts[1..])
  }

  function CommandLine(words: seq<Text>): Text {
    Joined(Map(ShellQuoteWord, words))
  }

  method JoinCommandWords(words: seq<Text>) returns (line: Text)
    ensures line == CommandLine(words)
    ensures Words(line) == Some(words)
  {
    var quoted := [];
    for i := 0 to |words|
      invariant |quoted| == i && forall j :: 0 <= j < i ==> quoted[j] == ShellQuoteWord(words[j])
    {
      quoted := quoted + [ShellQuoteWord(words[i])];
    }
    assert quoted == Map(ShellQuoteWord, words);
    line := Joined(quoted);
    WordsOfCommandLine(words);
  }

  // ----- the reader: token recognition and quoting of IEEE Std 1003.1-2017, volume XCU, sections 2.2 and 2.3

  datatype Mode = Unquoted | AfterBackslash | InSingle | InDouble | InDoubleAfterBackslash

  /** Unquoted, these do not stand for themselves: | & ; < > ( ) $ ` newline * ? [ # ~ { } ! */
  predicate Special(c: byte) {
    c in {124, 38, 59, 60, 62, 40, 41, 36, 96, 10, 42, 63, 91, 35, 126, 123, 125, 33}
  }

  function Started(current: Option<Text>): Text {
    if current.Some? then current.value else []
  }

  /** What one byte does: it is refused, or it ends some words and leaves a mode and a word begun. */
  datatype Step = Refused | Accepted(ended: seq<Text>, mode: Mode, current: Option<Text>)

  function Finished(current: Option<Text>): seq<Text> {
    if current.Some? then [current.value] else []
  }

  function Next(mode: Mode, current: Option<Text>, c: byte): Step {
    var begun := Started(current);
    match mode
    case Unquoted =>
      if c == SPACE || c == TAB then Accepted(Finished(current), Unquoted, None)
      else if c == SINGLE_QUOTE then Accepted([], InSingle, Some(begun))
      else if c == DOUBLE_QUOTE then Accepted([], InDouble, Some(begun))
      else if c == BACKSLASH then Accepted([], AfterBackslash, current)
      else if Special(c) then Refused
      else Accepted([], Unquoted, Some(begun + [c]))
    case AfterBackslash =>
      Accepted([], Unquoted, if c == NEWLINE then current else Some(begun + [c]))
    case InSingle =>
      if c == SINGLE_QUOTE then Accepted([], Unquoted, current)
      else Accepted([], InSingle, Some(begun + [c]))
    case InDouble =>
      if c == DOUBLE_QUOTE then Accepted([], Unquoted, current)
      else if c == BACKSLASH then Accepted([], InDoubleAfterBackslash, current)
      else if c == DOLLAR || c == BACKQUOTE then Refused
      else Accepted([], InDouble, Some(begun + [c]))
    case InDoubleAfterBackslash =>
      if c == NEWLINE then Accepted([], InDouble, current)
      else if c in {DOLLAR, BACKQUOTE, DOUBLE_QUOTE, BACKSLASH} then Accepted([], InDouble, Some(begun + [c]))
      else Accepted([], InDouble, Some(begun + [BACKSLASH, c]))
  }

  /** The words of s, given the quoting mode and the word begun so far;
      nothing if a quote stays open or an unquoted special character would be interpreted. */
  function Read(s: Text, mode: Mode, current: Option<Text>): Option<seq<Text>> {
    if s == [] then
      if mode == Unquoted then Some(Finished(current)) else None
    else
      var step := Next(mode, current, s[0]);
      if step == Refused then None else After(step.ended, Read(s[1..], step.mode, step.current))
  }

  function After(ended: seq<Text>, others: Option<seq<Text>>): Option<seq<Text>> {
    if others == None then None else Some(ended + others.value)
  }

  lemma ReadByte(c: byte, rest: Text, mode: Mode, current: Option<Text>)
    ensures var step := Next(mode, current, c);
            Read([c] + rest, mode, current)
            == if step == Refused then None else After(step.ended, Read(rest, step.mode, step.current))
  {
  }

  /** A byte that ends no word. */
  lemma ReadInWord(c: byte, rest: Text, mode: Mode, current: Option<Text>)
    requires Next(mode, current, c) != Refused && Next(mode, current, c).ended == []
    ensures var step := Next(mode, current, c);
            Read([c] + rest, mode, current) == Read(rest, step.mode, step.current)
  {
    ReadByte(c, rest, mode, current);
    var others := Read(rest, Next(mode, current, c).mode, Next(mode, current, c).current);
    if others.Some? {
      assert [] + others.value == others.value;
    }
  }

  function Words(line: Text): Option<seq<Text>> {
    Read(line, Unquoted, None)
  }

  // ----- what is left unquoted

  predicate Between(c: byte, first: char, last: char) {
    first as int <= c as int <= last as int
  }

  /** A letter, a digit, or one of a few signs without meaning to the shell. */
  predicate Harmless(c: byte) {
    Between(c, 'a', 'z') || Between(c, 'A', 'Z') || Between(c, '0', '9') || c in Ascii("-_=/.:,")
  }

  lemma {:induction false} ReplacedIsLonger(word: Text)
    ensures |QuotesReplaced(word)| >= |word|
  {
    if word != [] {
      ReplacedIsLonger(word[1..]);
    }
  }

  lemma HarmlessIsPlain(c: byte)
    ensures Harmless(c) <==> Plain(c)
  {
    var signs := Ascii("-_=/.:,");
    assert signs == [45, 95, 61, 47, 46, 58, 44];
  }

  /** A word is printed as it is exactly when it is not empty and all its bytes are harmless. */
  lemma PrintedVerbatimIff(word: Text)
    ensures ShellQuoteWord(word) == word <==> word != [] && forall i :: 0 <= i < |word| ==> Harmless(word[i])
  {
    ReplacedIsLonger(word);
    forall i | 0 <= i < |word| ensures Harmless(word[i]) <==> Plain(word[i]) {
      HarmlessIsPlain(word[i]);
    }
  }

  /** One blank between words. */
  lemma LineOfMoreWords(words: seq<Text>, word: Text)
    requires words != []
    ensures CommandLine(words + [word]) == CommandLine(words) + Ascii(" ") + ShellQuoteWord(word)
  {
    var parts := Map(ShellQuoteWord, words);
    assert Map(ShellQuoteWord, words + [word]) == parts + [ShellQuoteWord(word)];
    assert Ascii(" ") == [SPACE];
    JoinedPush(parts, ShellQuoteWord(word));
  }

  lemma {:induction false} JoinedPush(parts: seq<Text>, part: Text)
    requires parts != []
    ensures Joined(parts + [part]) == Joined(parts) + [SPACE] + part
  {
    if |parts| == 1 {
      assert (parts + [part])[1..] == [part];
    } else {
      assert (parts + [part])[1..] == parts[1..] + [part];
      JoinedPush(parts[1..], part);
      var rest := Joined(parts[1..]);
      assert parts[0] + [SPACE] + (rest + [SPACE] + part) == (parts[0] + [SPACE] + rest) + [SPACE] + part;
    }
  }

  // ----- reading undoes printing

  lemma {:induction false} ReadPlain(word: Text, current: Option<Text>, rest: Text)
    requires AllPlain(word) && word != []
    ensures Read(word + rest, Unquoted, current) == Read(rest, Unquoted, Some(Started(current) + word))
    decreases |word|
  {
    var c, others := word[0], word[1..];
    var begun := Started(current);
    assert Plain(c);
    assert word + rest == [c] + (others + rest);
    ReadInWord(c, others + rest, Unquoted, current);
    if others == [] {
      assert others + rest == rest && word == [c];
    } else {
      ReadPlain(others, Some(begun + [c]), rest);
      assert begun + [c] + others == begun + word;
    }
  }

  lemma ReadEscapedQuote(begun: Text, rest: Text)
    ensures Read([SINGLE_QUOTE, BACKSLASH, SINGLE_QUOTE, SINGLE_QUOTE] + rest, InSingle, Some(begun))
            == Read(rest, InSingle, Some(begun + [SINGLE_QUOTE]))
  {
    var q, b := [SINGLE_QUOTE], [BACKSLASH];
    assert [SINGLE_QUOTE, BACKSLASH, SINGLE_QUOTE, SINGLE_QUOTE] + rest == q + (b + (q + (q + rest)));
    ReadInWord(SINGLE_QUOTE, b + (q + (q + rest)), InSingle, Some(begun));
    ReadInWord(BACKSLASH, q + (q + rest), Unquoted, Some(begun));
    ReadInWord(SINGLE_QUOTE, q + rest, AfterBackslash, Some(begun));
    ReadInWord(SINGLE_QUOTE, rest, Unquoted, Some(begun + q));
  }

  lemma {:induction false} ReadSingleQuoted(word: Text, begun: Text, rest: Text)
    ensures Read(QuotesReplaced(word) + ([SINGLE_QUOTE] + rest), InSingle, Some(begun))
            == Read(rest, Unquoted, Some(begun + word))
    decreases |word|
  {
    var tail := [SINGLE_QUOTE] + rest;
    if word == [] {
      assert QuotesReplaced(word) + tail == tail && begun + word == begun;
      ReadInWord(SINGLE_QUOTE, rest, InSingle, Some(begun));
    } else {
      var c, others := word[0], word[1..];
      assert begun + [c] + others == begun + word;
      ReadSingleQuoted(others, begun + [c], rest);
      if c == SINGLE_QUOTE {
        var escaped := [SINGLE_QUOTE, BACKSLASH, SINGLE_QUOTE, SINGLE_QUOTE];
        assert QuotesReplaced(word) + tail == escaped + (QuotesReplaced(others) + tail);
        ReadEscapedQuote(begun, QuotesReplaced(others) + tail);
      } else {
        assert QuotesReplaced(word) + tail == [c] + (QuotesReplaced(others) + tail);
        ReadInWord(c, QuotesReplaced(others) + tail, InSingle, Some(begun));
      }
    }
  }

  lemma ReadQuotes(word: Text, rest: Text)
    ensures Read([SINGLE_QUOTE] + QuotesReplaced(word) + [SINGLE_QUOTE] + rest, Unquoted, None)
            == Read(rest, Unquoted, Some(word))
  {
    var tail := QuotesReplaced(word) + ([SINGLE_QUOTE] + rest);
    assert [SINGLE_QUOTE] + QuotesReplaced(word) + [SINGLE_QUOTE] + rest == [SINGLE_QUOTE] + tail;
    ReadInWord(SINGLE_QUOTE, tail, Unquoted, None);
    ReadSingleQuoted(word, [], rest);
    assert [] + word == word;
  }

  lemma ReadQuotedWord(word: Text, rest: Text)
    ensures Read(ShellQuoteWord(word) + rest, Unquoted, None) == Read(rest, Unquoted, Some(word))
  {
    if word != [] && AllPlain(word) {
      ReadPlain(word, None, rest);
      assert [] + word == word;
    } else {
      assert ShellQuoteWord(word) == [SINGLE_QUOTE] + QuotesReplaced(word) + [SINGLE_QUOTE];
      ReadQuotes(word, rest);
    }
  }

  /** The shell reads a printed command line back as exactly the words it was made of. */
  lemma {:induction false} WordsOfCommandLine(words: seq<Text>)
    ensures Words(CommandLine(words)) == Some(words)
  {
    if |words| == 1 {
      OneWord(words[0]);
      assert words == [words[0]];
    } else if |words| > 1 {
      WordsOfCommandLine(words[1..]);
      assert Map(ShellQuoteWord, words)[1..] == Map(ShellQuoteWord, words[1..]);
      FirstWord(words[0], CommandLine(words[1..]));
      assert words == [words[0]] + words[1..];
    }
  }

  lemma OneWord(word: Text)
    ensures Words(ShellQuoteWord(word)) == Some([word])
  {
    ReadQuotedWord(word, []);
    assert ShellQuoteWord(word) + [] == ShellQuoteWord(word);
  }

  lemma FirstWord(word: Text, line: Text)
    ensures Words(ShellQuoteWord(word) + [SPACE] + line) == After([word], Words(line))
  {
    ReadQuotedWord(word, [SPACE] + line);
    assert ShellQuoteWord(word) + [SPACE] + line == ShellQuoteWord(word) + ([SPACE] + line);
    ReadByte(SPACE, line, Unquoted, Some(word));
  }

  /** So different word lists never print as the same line. */
  lemma CommandLineInjective(words: seq<Text>, others: seq<Text>)
    requires CommandLine(words) == CommandLine(others)
    ensures words == others
  {
    WordsOfCommandLine(words);
    WordsOfCommandLine(others);
  }
}
