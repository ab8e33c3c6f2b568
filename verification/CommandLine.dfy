/** Splitting the "command" string of a compilation database into arguments. */
module CommandLine {

  datatype State = Normal | SingleQuote | DoubleQuote

  /** The space and the five control characters from the tab to the carriage return. */
  ghost predicate White(c: char) {
    c == ' ' || '\t' <= c <= '\r'
  }

  /** std::isspace in the C locale. */
  predicate IsSpace(c: char): (space: bool)
    ensures space <==> White(c)
  {
    c == ' ' || c == '\t' || c == '\n' || c == '\r' || c == 11 as char || c == 12 as char
  }

  function Flush(current: string): seq<string> {
    if current == [] then [] else [current]
  }

  /** The tokens still to come from the rest of the line. */
  function Scan(rest: string, state: State, current: string): seq<string>
    decreases |rest|
  {
    if rest == [] then Flush(current)
    else
      var c := rest[0];
      match state
      case Normal =>
        if IsSpace(c) then Flush(current) + Scan(rest[1..], Normal, [])
        else if c == '\'' then Scan(rest[1..], SingleQuote, current)
        else if c == '"' then Scan(rest[1..], DoubleQuote, current)
        else if c == '\\' && |rest| > 1 then Scan(rest[2..], Normal, current + [rest[1]])
        else Scan(rest[1..], Normal, current + [c])
      case SingleQuote =>
        if c == '\'' then Scan(rest[1..], Normal, current)
        else Scan(rest[1..], SingleQuote, current + [c])
      case DoubleQuote =>
        if c == '"' then Scan(rest[1..], Normal, current)
        else if c == '\\' && |rest| > 1 then Scan(rest[2..], DoubleQuote, current + [rest[1]])
        else Scan(rest[1..], DoubleQuote, current + [c])
  }

  /** tokenizeCommandLine. */
  method TokenizeCommandLine(command: string) returns (tokens: seq<string>)
    ensures tokens == Scan(command, Normal, [])
  {
    tokens := [];
    var current: string := [];
    var state := Normal;
    var i := 0;
    assert command[0..] == command;
    while i < |command|
      invariant 0 <= i <= |command|
      invariant tokens + Scan(command[i..], state, current) == Scan(command, Normal, [])
    {
      var c := command[i];
      assert command[i..][1..] == command[i + 1..];
      assert i + 1 < |command| ==> command[i..][2..] == command[i + 2..];
      if state == Normal {
        if IsSpace(c) {
          assert tokens + (Flush(current) + Scan(command[i + 1..], Normal, [])) ==
                 tokens + Flush(current) + Scan(command[i + 1..], Normal, []);
          if current != [] {
            tokens := tokens + [current];
            current := [];
          }
        } else if c == '\'' {
          state := SingleQuote;
        } else if c == '"' {
          state := DoubleQuote;
        } else if c == '\\' && i + 1 < |command| {
          i := i + 1;
          current := current + [command[i]];
        } else {
          current := current + [c];
        }
      } else if state == SingleQuote {
        if c == '\'' {
          state := Normal;
        } else {
          current := current + [c];
        }
      } else {
        if c == '"' {
          state := Normal;
        } else if c == '\\' && i + 1 < |command| {
          i := i + 1;
          current := current + [command[i]];
        } else {
          current := current + [c];
        }
      }
      i := i + 1;
    }
    if current != [] {
      tokens := tokens + [current];
    }
  }

  // Ways to write an argument

  /** A word is written as a run of pieces: plain characters, backslash escapes, and single- or
      double-quoted stretches, in any mixture. */
  datatype Piece = Plain(c: char) | Escape(c: char) | Single(text: string) | Double(text: string)

  ghost predicate WritablePiece(p: Piece) {
    match p
    case Plain(c) => !White(c) && c != '\'' && c != '"' && c != '\\'
    case Escape(_) => true
    case Single(text) => '\'' !in text
    case Double(_) => true
  }

  function EscapeInDouble(text: string): string {
    if text == [] then []
    else (if text[0] == '"' || text[0] == '\\' then ['\\', text[0]] else [text[0]]) + EscapeInDouble(text[1..])
  }

  function WritePiece(p: Piece): string {
    match p
    case Plain(c) => [c]
    case Escape(c) => ['\\', c]
    case Single(text) => "'" + text + "'"
    case Double(text) => "\"" + EscapeInDouble(text) + "\""
  }

  function PieceText(p: Piece): string {
    match p
    case Plain(c) => [c]
    case Escape(c) => [c]
    case Single(text) => text
    case Double(text) => text
  }

  type Word = seq<Piece>

  ghost predicate Writable(word: Word) {
    forall p :: p in word ==> WritablePiece(p)
  }

  function WriteWord(word: Word): string {
    if word == [] then [] else WritePiece(word[0]) + WriteWord(word[1..])
  }

  function WordText(word: Word): string {
    if word == [] then [] else PieceText(word[0]) + WordText(word[1..])
  }

  /** Words, each preceded by a gap of white space. */
  function WriteLine(gaps: seq<string>, words: seq<Word>): string
    requires |gaps| == |words|
  {
    if words == [] then [] else gaps[0] + (WriteWord(words[0]) + WriteLine(gaps[1..], words[1..]))
  }

  ghost predicate Gap(s: string) {
    forall i :: 0 <= i < |s| ==> White(s[i])
  }

  function Texts(words: seq<Word>): seq<string> {
    if words == [] then [] else [WordText(words[0])] + Texts(words[1..])
  }

  function NonEmpty(tokens: seq<string>): seq<string> {
    if tokens == [] then [] else Flush(tokens[0]) + NonEmpty(tokens[1..])
  }

  // Reading back what was written

  lemma {:induction false} ReadSingle(text: string, rest: string, current: string)
    requires '\'' !in text
    ensures Scan(text + ("'" + rest), SingleQuote, current) == Scan(rest, Normal, current + text)
    decreases |text|
  {
    var line := text + ("'" + rest);
    if text == [] {
      assert line[1..] == rest && current + text == current;
    } else {
      assert line[1..] == text[1..] + ("'" + rest);
      ReadSingle(text[1..], rest, current + [text[0]]);
      assert current + [text[0]] + text[1..] == current + text;
    }
  }

  lemma ReadInDouble(c: char, special: bool, after: string, current: string)
    requires special <==> c == '"' || c == '\\'
    ensures Scan((if special then ['\\', c] else [c]) + after, DoubleQuote, current) ==
            Scan(after, DoubleQuote, current + [c])
  {
    var line := (if special then ['\\', c] else [c]) + after;
    assert line[if special then 2 else 1..] == after;
  }

  lemma {:induction false} ReadDouble(text: string, rest: string, current: string)
    ensures Scan(EscapeInDouble(text) + ("\"" + rest), DoubleQuote, current) == Scan(rest, Normal, current + text)
    decreases |text|
  {
    var line := EscapeInDouble(text) + ("\"" + rest);
    if text == [] {
      assert line[1..] == rest && current + text == current;
    } else {
      var after := EscapeInDouble(text[1..]) + ("\"" + rest);
      var special := text[0] == '"' || text[0] == '\\';
      assert line == (if special then ['\\', text[0]] else [text[0]]) + after;
      ReadInDouble(text[0], special, after, current);
      ReadDouble(text[1..], rest, current + [text[0]]);
      assert current + [text[0]] + text[1..] == current + text;
    }
  }

  lemma ReadPiece(p: Piece, rest: string, current: string)
    requires WritablePiece(p)
    ensures Scan(WritePiece(p) + rest, Normal, current) == Scan(rest, Normal, current + PieceText(p))
  {
    match p
    case Plain(c) => ReadPlain(c, rest, current);
    case Escape(c) => ReadEscape(c, rest, current);
    case Single(text) =>
      assert WritePiece(p) + rest == ['\''] + (text + ("'" + rest));
      ReadSinglePiece(text, rest, current);
    case Double(text) =>
      assert WritePiece(p) + rest == ['"'] + (EscapeInDouble(text) + ("\"" + rest));
      ReadDoublePiece(text, rest, current);
  }

  lemma ReadSinglePiece(text: string, rest: string, current: string)
    requires '\'' !in text
    ensures Scan(['\''] + (text + ("'" + rest)), Normal, current) == Scan(rest, Normal, current + text)
  {
    ReadOpening('\'', text + ("'" + rest), current);
    ReadSingle(text, rest, current);
  }

  lemma ReadDoublePiece(text: string, rest: string, current: string)
    ensures Scan(['"'] + (EscapeInDouble(text) + ("\"" + rest)), Normal, current) == Scan(rest, Normal, current + text)
  {
    ReadOpening('"', EscapeInDouble(text) + ("\"" + rest), current);
    ReadDouble(text, rest, current);
  }

  lemma ReadPlain(c: char, rest: string, current: string)
    requires WritablePiece(Plain(c))
    ensures Scan([c] + rest, Normal, current) == Scan(rest, Normal, current + [c])
  {
    assert ([c] + rest)[1..] == rest;
  }

  lemma ReadEscape(c: char, rest: string, current: string)
    ensures Scan(['\\', c] + rest, Normal, current) == Scan(rest, Normal, current + [c])
  {
    assert (['\\', c] + rest)[2..] == rest;
  }

  lemma ReadOpening(quote: char, rest: string, current: string)
    requires quote == '\'' || quote == '"'
    ensures Scan([quote] + rest, Normal, current) ==
            Scan(rest, if quote == '"' then DoubleQuote else SingleQuote, current)
  {
    assert ([quote] + rest)[1..] == rest;
  }

  lemma {:induction false} ReadWord(word: Word, rest: string, current: string)
    requires Writable(word)
    ensures Scan(WriteWord(word) + rest, Normal, current) == Scan(rest, Normal, current + WordText(word))
    decreases |word|
  {
    if word == [] {
      assert WriteWord(word) + rest == rest && current + WordText(word) == current;
    } else {
      assert WriteWord(word) + rest == WritePiece(word[0]) + (WriteWord(word[1..]) + rest);
      ReadPiece(word[0], WriteWord(word[1..]) + rest, current);
      ReadWord(word[1..], rest, current + PieceText(word[0]));
      assert current + PieceText(word[0]) + WordText(word[1..]) == current + WordText(word);
    }
  }

  lemma {:induction false} ReadGap(gap: string, rest: string, current: string)
    requires Gap(gap) && (gap == [] ==> current == [])
    ensures Scan(gap + rest, Normal, current) == Flush(current) + Scan(rest, Normal, [])
    decreases |gap|
  {
    if gap == [] {
      assert gap + rest == rest;
    } else {
      assert IsSpace(gap[0]) && (gap + rest)[1..] == gap[1..] + rest;
      ReadGap(gap[1..], rest, []);
    }
  }

  /** Whatever mixture of quoting is used, the tokens are the words' texts, except that words
      without any text disappear. */
  lemma {:induction false} TokensAreWordTexts(gaps: seq<string>, words: seq<Word>, current: string)
    requires |gaps| == |words|
    requires forall i :: 0 <= i < |words| ==> Gap(gaps[i]) && Writable(words[i])
    requires forall i :: 0 < i < |words| ==> gaps[i] != []
    requires words != [] && gaps[0] == [] ==> current == []
    ensures Scan(WriteLine(gaps, words), Normal, current) == Flush(current) + NonEmpty(Texts(words))
    decreases |words|
  {
    if words != [] {
      var rest := WriteLine(gaps[1..], words[1..]);
      ReadGap(gaps[0], WriteWord(words[0]) + rest, current);
      ReadWord(words[0], rest, []);
      assert [] + WordText(words[0]) == WordText(words[0]);
      TokensAreWordTexts(gaps[1..], words[1..], WordText(words[0]));
    }
  }

  // The two uniform quoting styles, joined by single spaces

  function JoinWords(words: seq<Word>): string {
    if words == [] then []
    else if |words| == 1 then WriteWord(words[0])
    else WriteWord(words[0]) + " " + JoinWords(words[1..])
  }

  function SpaceGaps(n: nat): (gaps: seq<string>)
    ensures |gaps| == n && forall i :: 0 <= i < n ==> gaps[i] == " "
  {
    seq(n, _ => " ")
  }

  lemma {:induction false} JoinIsLine(words: seq<Word>)
    requires words != []
    ensures JoinWords(words) == WriteWord(words[0]) + WriteLine(SpaceGaps(|words| - 1), words[1..])
    decreases |words|
  {
    var gaps := SpaceGaps(|words| - 1);
    if |words| == 1 {
      assert WriteWord(words[0]) + [] == WriteWord(words[0]);
    } else {
      JoinIsLine(words[1..]);
      assert gaps[1..] == SpaceGaps(|words| - 2);
    }
  }

  /** The first word has no gap before it. */
  function FirstGaps(n: nat): (gaps: seq<string>)
    requires n > 0
    ensures |gaps| == n && gaps[0] == "" && gaps[1..] == SpaceGaps(n - 1)
    ensures forall i :: 0 < i < n ==> gaps[i] == " "
  {
    var spaces := SpaceGaps(n - 1);
    var gaps := [""] + spaces;
    assert gaps[1..] == spaces;
    assert forall i :: 0 < i < n ==> gaps[i] == spaces[i - 1];
    gaps
  }

  lemma LineOfJoined(words: seq<Word>)
    requires words != []
    ensures WriteLine(FirstGaps(|words|), words) == JoinWords(words)
  {
    JoinIsLine(words);
    NoFirstGap(FirstGaps(|words|), words);
  }

  lemma NoFirstGap(gaps: seq<string>, words: seq<Word>)
    requires |gaps| == |words| && words != [] && gaps[0] == []
    ensures WriteLine(gaps, words) == WriteWord(words[0]) + WriteLine(gaps[1..], words[1..])
  {
    var line := WriteWord(words[0]) + WriteLine(gaps[1..], words[1..]);
    assert [] + line == line;
  }

  lemma JoinedTokens(words: seq<Word>)
    requires forall i :: 0 <= i < |words| ==> Writable(words[i])
    ensures Scan(JoinWords(words), Normal, []) == NonEmpty(Texts(words))
  {
    if words != [] {
      LineOfJoined(words);
      TokensAreWordTexts(FirstGaps(|words|), words, []);
      assert Flush([]) + NonEmpty(Texts(words)) == NonEmpty(Texts(words));
    }
  }

  datatype Style = DoubleQuotes | BackslashEverything

  function EscapeAll(token: string): Word {
    if token == [] then [] else [Escape(token[0])] + EscapeAll(token[1..])
  }

  function QuoteToken(style: Style, token: string): Word {
    match style
    case DoubleQuotes => [Double(token)]
    case BackslashEverything => EscapeAll(token)
  }

  function QuoteTokens(style: Style, tokens: seq<string>): seq<Word> {
    if tokens == [] then [] else [QuoteToken(style, tokens[0])] + QuoteTokens(style, tokens[1..])
  }

  lemma {:induction false} EscapeAllText(token: string)
    ensures WordText(EscapeAll(token)) == token && Writable(EscapeAll(token))
  {
    if token != [] {
      EscapeAllText(token[1..]);
      assert token == [token[0]] + token[1..];
    }
  }

  lemma QuotedText(style: Style, token: string)
    ensures WordText(QuoteToken(style, token)) == token && Writable(QuoteToken(style, token))
  {
    match style
    case DoubleQuotes =>
      var word := [Double(token)];
      assert word[1..] == [] && WordText([]) == [];
      assert token + [] == token;
    case BackslashEverything =>
      EscapeAllText(token);
  }

  lemma {:induction false} QuotedAreWritable(style: Style, tokens: seq<string>)
    ensures forall word :: word in QuoteTokens(style, tokens) ==> Writable(word)
  {
    if tokens != [] {
      QuotedText(style, tokens[0]);
      QuotedAreWritable(style, tokens[1..]);
    }
  }

  lemma {:induction false} QuotedTexts(style: Style, tokens: seq<string>)
    ensures Texts(QuoteTokens(style, tokens)) == tokens
  {
    if tokens != [] {
      QuotedTexts(style, tokens[1..]);
      QuotedText(style, tokens[0]);
      assert QuoteTokens(style, tokens)[1..] == QuoteTokens(style, tokens[1..]);
      assert tokens == [tokens[0]] + tokens[1..];
    }
  }

  lemma {:induction false} NonEmptyKeepsAll(tokens: seq<string>)
    ensures |NonEmpty(tokens)| <= |tokens|
    ensures NonEmpty(tokens) == tokens <==> [] !in tokens
  {
    if tokens != [] {
      NonEmptyKeepsAll(tokens[1..]);
      assert tokens == [tokens[0]] + tokens[1..];
      assert [] in tokens <==> tokens[0] == [] || [] in tokens[1..];
      if tokens[0] != [] && NonEmpty(tokens) == tokens {
        assert NonEmpty(tokens)[1..] == NonEmpty(tokens[1..]);
      }
    }
  }

  /** Quoting a list of arguments, joining with spaces and tokenizing gives the list back
      exactly when no argument is empty. */
  lemma QuotingRoundTrip(style: Style, tokens: seq<string>)
    ensures Scan(JoinWords(QuoteTokens(style, tokens)), Normal, []) == NonEmpty(tokens)
    ensures Scan(JoinWords(QuoteTokens(style, tokens)), Normal, []) == tokens <==> [] !in tokens
  {
    QuotedTexts(style, tokens);
    QuotedAreWritable(style, tokens);
    JoinedTokens(QuoteTokens(style, tokens));
    NonEmptyKeepsAll(tokens);
  }
}
