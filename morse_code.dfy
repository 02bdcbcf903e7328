/** The Morse code decoding exercise: a transcript of Morse letters separated by single spaces is
    translated letter by letter with a `MorseMap`; a letter the map does not know is kept as written. */
module MorseCode {
  import opened Runtime
  import opened MorseMaps

  /** The separator between Morse letters. */
  const Space: char := ' '

  /** The letters read so far, all but the one being read. */
  function Front(tokens: seq<string>): seq<string>
    requires |tokens| >= 1
  {
    tokens[..|tokens| - 1]
  }

  /** The letter being read. */
  function Last(tokens: seq<string>): string
    requires |tokens| >= 1
  {
    tokens[|tokens| - 1]
  }

  /** A non-empty list of letters is its front followed by its last letter. */
  lemma FrontLast(tokens: seq<string>)
    requires |tokens| >= 1
    ensures tokens == Front(tokens) + [Last(tokens)]
  {
  }

  /** One more character of the transcript: a space closes the current letter and opens an empty one,
      any other character extends the current letter. */
  function Push(tokens: seq<string>, c: char): (r: seq<string>)
    requires |tokens| >= 1
    ensures |r| >= 1
    ensures c == Space ==> Front(r) == tokens && Last(r) == []
    ensures c != Space ==> Front(r) == Front(tokens) && Last(r) == Last(tokens) + [c]
  {
    if c == Space then
      assert (tokens + [[]])[..|tokens|] == tokens;
      tokens + [[]]
    else
      var r := Front(tokens) + [Last(tokens) + [c]];
      assert r[..|r| - 1] == Front(tokens);
      r
  }

  /** The Morse letters of a transcript: the text between consecutive spaces, and before the first and
      after the last one. Consecutive spaces delimit an empty letter. */
  function Tokens(message: string): (r: seq<string>)
    ensures |r| >= 1
    decreases |message|
  {
    if message == [] then [[]] else Push(Tokens(message[..|message| - 1]), message[|message| - 1])
  }

  /** The letters written out again, one space between neighbours. */
  function Join(tokens: seq<string>): string
    requires |tokens| >= 1
    decreases |tokens|
  {
    if |tokens| == 1 then tokens[0] else Join(tokens[..|tokens| - 1]) + [Space] + tokens[|tokens| - 1]
  }

  /** What `appendLetter` appends for one letter: its translation if the map has one, else the letter. */
  function Letter(translator: MorseMap, morseLetter: string): string {
    match translator.Lookup(morseLetter)
    case Some(c) => [c]
    case None => morseLetter
  }

  /** The letters' translations, concatenated. */
  function Decoded(translator: MorseMap, tokens: seq<string>): string
    decreases |tokens|
  {
    if tokens == [] then [] else Decoded(translator, tokens[..|tokens| - 1]) + Letter(translator, tokens[|tokens| - 1])
  }

  /** The translation of a whole transcript. */
  function Decode(translator: MorseMap, morseMessage: string): string {
    Decoded(translator, Tokens(morseMessage))
  }

  /** `appendLetter`: appends the letter's translation, or the letter itself when the map lacks it. */
  method AppendLetter(morseLetter: string, english: StringBuilder, translator: MorseMap)
    modifies english
    ensures english.contents == old(english.contents) + Letter(translator, morseLetter)
  {
    var known := translator.ContainsKey(morseLetter);
    if known {
      var translation := translator.Get(morseLetter);
      english.Append([translation.value]);
    } else {
      english.Append(morseLetter);
    }
  }

  /** `translateMorse`: scans the transcript once, resolving a letter at every space and the last
      letter at the end. */
  method TranslateMorse(morseMessage: string, translator: MorseMap) returns (r: string)
    ensures r == Decode(translator, morseMessage)
  {
    var characterStart := 0;
    var englishMessage := new StringBuilder();
    var idx := 0;
    ghost var tokens: seq<string> := [[]];
    while idx < |morseMessage|
      invariant 0 <= characterStart <= idx <= |morseMessage|
      invariant tokens == Tokens(morseMessage[..idx])
      invariant Last(tokens) == morseMessage[characterStart..idx]
      invariant englishMessage.contents == Decoded(translator, Front(tokens))
    {
      var currentSymbol := morseMessage[idx];
      TokensPrefix(morseMessage, idx);
      if currentSymbol == Space {
        var morseLetter := morseMessage[characterStart..idx];
        DecodedFrontLast(translator, tokens);
        AppendLetter(morseLetter, englishMessage, translator);
        characterStart := idx + 1;
      } else {
        SliceSnoc(morseMessage, characterStart, idx);
      }
      tokens := Push(tokens, currentSymbol);
      idx := idx + 1;
    }
    assert morseMessage[..idx] == morseMessage;
    var finalLetter := morseMessage[characterStart..idx];
    DecodedFrontLast(translator, tokens);
    AppendLetter(finalLetter, englishMessage, translator);
    return englishMessage.contents;
  }

  /** The letters of a longer prefix of the transcript. */
  lemma TokensPrefix(message: string, idx: nat)
    requires idx < |message|
    ensures Tokens(message[..idx + 1]) == Push(Tokens(message[..idx]), message[idx])
  {
    assert message[..idx + 1] == message[..idx] + [message[idx]];
    TokensSnoc(message[..idx], message[idx]);
  }

  /** The translation of the letters is that of all but the last, then the last one's. */
  lemma DecodedFrontLast(translator: MorseMap, tokens: seq<string>)
    requires |tokens| >= 1
    ensures Decoded(translator, tokens) == Decoded(translator, Front(tokens)) + Letter(translator, Last(tokens))
  {
    FrontLast(tokens);
    DecodedSnoc(translator, Front(tokens), Last(tokens));
  }

  lemma SliceSnoc(s: string, i: nat, j: nat)
    requires i <= j < |s|
    ensures s[i..j + 1] == s[i..j] + [s[j]]
  {
  }

  /** No letter holds a space. */
  lemma {:induction false} TokensHaveNoSpace(message: string)
    ensures forall k :: 0 <= k < |Tokens(message)| ==> Space !in Tokens(message)[k]
    decreases |message|
  {
    if message != [] {
      var init := message[..|message| - 1];
      TokensHaveNoSpace(init);
      var tokens := Tokens(init);
      var r := Tokens(message);
      assert r == Front(r) + [Last(r)];
    }
  }

  /** Splitting at the spaces loses nothing: the letters joined by single spaces give back the
      transcript. */
  lemma {:induction false} JoinTokens(message: string)
    ensures Join(Tokens(message)) == message
    decreases |message|
  {
    if message != [] {
      var init := message[..|message| - 1];
      var c := message[|message| - 1];
      assert message == init + [c];
      JoinTokens(init);
      TokensSnoc(init, c);
      var tokens := Tokens(init);
      var r := Tokens(message);
      FrontLast(r);
      if c == Space {
        assert Join(r) == Join(tokens) + [Space];
      } else if |tokens| == 1 {
        assert Join(r) == Last(tokens) + [c];
      } else {
        assert Join(tokens) == Join(Front(tokens)) + [Space] + Last(tokens);
        assert Join(r) == Join(Front(tokens)) + [Space] + (Last(tokens) + [c]);
      }
    }
  }

  /** Text without a space is a single letter. */
  lemma {:induction false} WordTokens(word: string)
    requires Space !in word
    ensures Tokens(word) == [word]
    decreases |word|
  {
    if word != [] {
      var init := word[..|word| - 1];
      var c := word[|word| - 1];
      assert c != Space;
      assert Space !in init;
      WordTokens(init);
      assert Front([init]) == [] && Last([init]) == init;
      var r := Tokens(word);
      assert r == Push([init], c);
      assert init + [c] == word;
      assert Front(r) == [] && Last(r) == word;
      assert r == Front(r) + [Last(r)];
    }
  }

  /** The other way round: letters without spaces, joined by single spaces, split back into the
      same letters. */
  lemma {:induction false} TokensJoin(tokens: seq<string>)
    requires |tokens| >= 1
    requires forall k :: 0 <= k < |tokens| ==> Space !in tokens[k]
    ensures Tokens(Join(tokens)) == tokens
    decreases |tokens|
  {
    WordTokens(Last(tokens));
    if |tokens| > 1 {
      TokensJoin(Front(tokens));
      TokensSplit(Join(Front(tokens)), Last(tokens));
      assert Front(tokens) + [Last(tokens)] == tokens;
    }
  }

  /** The letters of two transcripts joined by a space are the letters of the first, then those of
      the second. */
  lemma {:induction false} TokensSplit(first: string, second: string)
    ensures Tokens(first + [Space] + second) == Tokens(first) + Tokens(second)
    decreases |second|
  {
    if second == [] {
      TokensSnoc(first, Space);
      assert first + [Space] + second == first + [Space];
    } else {
      var init := second[..|second| - 1];
      var c := second[|second| - 1];
      assert first + [Space] + second == (first + [Space] + init) + [c];
      assert second == init + [c];
      TokensSplit(first, init);
      TokensSnoc(first + [Space] + init, c);
      TokensSnoc(init, c);
      PushAppend(Tokens(first), Tokens(init), c);
    }
  }

  /** `Tokens` reads the transcript one character at a time. */
  lemma TokensSnoc(message: string, c: char)
    ensures Tokens(message + [c]) == Push(Tokens(message), c)
  {
    assert (message + [c])[..|message|] == message;
  }

  /** Reading a character only touches the letters after the last space. */
  lemma PushAppend(front: seq<string>, back: seq<string>, c: char)
    requires |front| >= 1 && |back| >= 1
    ensures Push(front + back, c) == front + Push(back, c)
  {
    var r := Push(front + back, c);
    var r2 := Push(back, c);
    assert r == Front(r) + [Last(r)];
    assert r2 == Front(r2) + [Last(r2)];
    assert Front(front + back) == front + Front(back);
  }

  /** `Decoded` translates one letter at a time. */
  lemma DecodedSnoc(translator: MorseMap, tokens: seq<string>, token: string)
    ensures Decoded(translator, tokens + [token]) == Decoded(translator, tokens) + Letter(translator, token)
  {
    assert (tokens + [token])[..|tokens|] == tokens;
  }

  lemma ConcatAssoc(a: string, b: string, c: string)
    ensures (a + b) + c == a + (b + c)
  {
  }

  /** Translation goes letter by letter. */
  lemma {:induction false} DecodedConcat(translator: MorseMap, front: seq<string>, back: seq<string>)
    ensures Decoded(translator, front + back) == Decoded(translator, front) + Decoded(translator, back)
    decreases |back|
  {
    if back == [] {
      assert front + back == front;
    } else {
      var init, token := Front(back), Last(back);
      var letter := Letter(translator, token);
      assert Decoded(translator, front + back) == Decoded(translator, front + init) + letter by {
        FrontLast(back);
        assert front + back == (front + init) + [token];
        DecodedSnoc(translator, front + init, token);
      }
      assert Decoded(translator, back) == Decoded(translator, init) + letter by {
        FrontLast(back);
        DecodedSnoc(translator, init, token);
      }
      DecodedConcat(translator, front, init);
      ConcatAssoc(Decoded(translator, front), Decoded(translator, init), letter);
    }
  }

  /** The translation of two transcripts joined by a space is the two translations side by side: the
      separator itself never reaches the output. */
  lemma DecodeSplit(translator: MorseMap, first: string, second: string)
    ensures Decode(translator, first + [Space] + second) == Decode(translator, first) + Decode(translator, second)
  {
    TokensSplit(first, second);
    DecodedConcat(translator, Tokens(first), Tokens(second));
  }

  /** A transcript without spaces is one letter: translated if the map knows it, else kept. */
  lemma DecodeWord(translator: MorseMap, word: string)
    requires Space !in word
    ensures Decode(translator, word) == Letter(translator, word)
  {
    WordTokens(word);
    assert Decoded(translator, [word]) == Decoded(translator, []) + Letter(translator, word);
  }

  /** A letter without spaces followed by a space: its translation comes first. */
  lemma DecodeLeadingWord(translator: MorseMap, word: string, rest: string, letter: string, text: string)
    requires Space !in word && Letter(translator, word) == letter && Decode(translator, rest) == text
    ensures Decode(translator, word + [Space] + rest) == letter + text
  {
    DecodeSplit(translator, word, rest);
    DecodeWord(translator, word);
  }

  /** A transcript without spaces holding a character that is neither a dit nor a dah is copied
      through unchanged. */
  lemma ForeignTranscript(translator: MorseMap, word: string, j: int)
    requires Space !in word && 0 <= j < |word| && word[j] != translator.dit && word[j] != translator.dah
    ensures Decode(translator, word) == word
  {
    DecodeWord(translator, word);
  }

  /** Latin text is no Morse code: "X" comes back as it is. */
  lemma LatinTranscript()
    ensures Decode(Default(), "X") == "X"
  {
    ForeignTranscript(Default(), "X", 0);
  }

  /** Likewise "HI" and "CAT". */
  lemma LongerLatinTranscripts()
    ensures Decode(Default(), "HI") == "HI" && Decode(Default(), "CAT") == "CAT"
  {
    ForeignTranscript(Default(), "HI", 0);
    ForeignTranscript(Default(), "CAT", 0);
  }

  /** Single Morse letters translate to their characters: "." and "-" are "E" and "T". */
  lemma OneSymbolTranscripts()
    ensures Decode(Default(), ".") == "E" && Decode(Default(), "-") == "T"
  {
    OneSymbolLetters();
    DecodeWord(Default(), ".");
    DecodeWord(Default(), "-");
  }

  /** "..", ".-", "-." and "--" are "I", "A", "N" and "M". */
  lemma TwoSymbolTranscripts()
    ensures Decode(Default(), "..") == "I" && Decode(Default(), ".-") == "A"
    ensures Decode(Default(), "-.") == "N" && Decode(Default(), "--") == "M"
  {
    TwoSymbolLetters();
    DecodeWord(Default(), "..");
    DecodeWord(Default(), ".-");
    DecodeWord(Default(), "-.");
    DecodeWord(Default(), "--");
  }

  /** The empty transcript translates to the empty text. */
  lemma DecodeEmpty(translator: MorseMap)
    ensures Decode(translator, "") == ""
  {
    DecodeWord(translator, "");
  }

  /** "... --- ..." is "SOS". */
  lemma DistressCall()
    ensures Decode(Default(), "... --- ...") == "SOS"
  {
    DistressCallLetters();
    DistressCallTail();
    DistressCallPieces();
    DecodeLeadingWord(Default(), "...", "--- ...", "S", "OS");
  }

  lemma DistressCallLetters()
    ensures Letter(Default(), "...") == "S" && Letter(Default(), "---") == "O"
  {
    ThreeSymbolLetters();
  }

  lemma DistressCallTail()
    ensures Decode(Default(), "--- ...") == "OS"
  {
    DistressCallLetters();
    DecodeWord(Default(), "...");
    DistressCallPieces();
    DecodeLeadingWord(Default(), "---", "...", "O", "S");
  }

  lemma DistressCallPieces()
    ensures "---" + [Space] + "..." == "--- ..."
    ensures "..." + [Space] + "--- ..." == "... --- ..."
    ensures "O" + "S" == "OS" && "S" + "OS" == "SOS"
  {
  }

  /** A transcript without spaces that is no Morse letter is kept as written. */
  lemma UnbrokenTranscript()
    ensures Decode(Default(), "...---...") == "...---..."
  {
    UnknownPatterns();
    DecodeWord(Default(), "...---...");
  }

  /** A six-symbol pattern with no letter is kept between the letters around it. */
  lemma UnknownLetterKept()
    ensures Decode(Default(), "... ..-.-. ...") == "S..-.-.S"
  {
    UnknownLetterLetters();
    UnknownLetterTail();
    UnknownLetterPieces();
    DecodeLeadingWord(Default(), "...", "..-.-. ...", "S", "..-.-.S");
  }

  lemma UnknownLetterLetters()
    ensures Letter(Default(), "...") == "S" && Letter(Default(), "..-.-.") == "..-.-."
  {
    ThreeSymbolLetters();
    UnknownPatterns();
  }

  lemma UnknownLetterTail()
    ensures Decode(Default(), "..-.-. ...") == "..-.-.S"
  {
    UnknownLetterLetters();
    DecodeWord(Default(), "...");
    UnknownLetterPieces();
    DecodeLeadingWord(Default(), "..-.-.", "...", "..-.-.", "S");
  }

  lemma UnknownLetterPieces()
    ensures "..-.-." + [Space] + "..." == "..-.-. ..."
    ensures "..." + [Space] + "..-.-. ..." == "... ..-.-. ..."
    ensures "S" + "..-.-.S" == "S..-.-.S" && "..-.-." + "S" == "..-.-.S"
  {
  }

  /** "..- - -.-. ..." is "UTCS". */
  lemma PlainTranscript()
    ensures Decode(Default(), "..- - -.-. ...") == "UTCS"
  {
    PlainLetters();
    PlainTail();
    PlainPieces();
    DecodeLeadingWord(Default(), "..-", "- -.-. ...", "U", "TCS");
  }

  lemma PlainLetters()
    ensures Letter(Default(), "..-") == "U" && Letter(Default(), "-") == "T"
    ensures Letter(Default(), "-.-.") == "C" && Letter(Default(), "...") == "S"
  {
    OneSymbolLetters();
    ThreeSymbolLetters();
    FourSymbolLetters();
  }

  lemma PlainTail()
    ensures Decode(Default(), "- -.-. ...") == "TCS"
  {
    PlainLetters();
    DecodeWord(Default(), "...");
    PlainPieces();
    DecodeLeadingWord(Default(), "-.-.", "...", "C", "S");
    DecodeLeadingWord(Default(), "-", "-.-. ...", "T", "CS");
  }

  lemma PlainPieces()
    ensures "-.-." + [Space] + "..." == "-.-. ..." && "-" + [Space] + "-.-. ..." == "- -.-. ..."
    ensures "..-" + [Space] + "- -.-. ..." == "..- - -.-. ..."
    ensures "C" + "S" == "CS" && "T" + "CS" == "TCS" && "U" + "TCS" == "UTCS"
  {
  }

  /** A four-symbol pattern with no letter is kept among translated letters: ".... . .-.. .-.- ---"
      is "HEL.-.-O". */
  lemma GarbledTranscript()
    ensures Decode(Default(), ".... . .-.. .-.- ---") == "HEL.-.-O"
  {
    GarbledLetters();
    GarbledTail();
    GarbledPieces();
    GarbledPrefixes();
    GarbledOutputs();
    DecodeLeadingWord(Default(), "....", ". .-.. .-.- ---", "H", "EL.-.-O");
  }

  lemma GarbledLetters()
    ensures Letter(Default(), "....") == "H" && Letter(Default(), ".") == "E"
    ensures Letter(Default(), ".-..") == "L" && Letter(Default(), ".-.-") == ".-.-"
    ensures Letter(Default(), "---") == "O"
  {
    OneSymbolLetters();
    ThreeSymbolLetters();
    FourSymbolLetters();
    EmptyNodePattern();
  }

  lemma GarbledTail()
    ensures Decode(Default(), ". .-.. .-.- ---") == "EL.-.-O"
  {
    GarbledLetters();
    GarbledEnd();
    GarbledPieces();
    GarbledPrefixes();
    GarbledOutputs();
    DecodeLeadingWord(Default(), ".-..", ".-.- ---", "L", ".-.-O");
    DecodeLeadingWord(Default(), ".", ".-.. .-.- ---", "E", "L.-.-O");
  }

  lemma GarbledEnd()
    ensures Decode(Default(), ".-.- ---") == ".-.-O"
  {
    GarbledLetters();
    DecodeWord(Default(), "---");
    GarbledPieces();
    GarbledPrefixes();
    GarbledOutputs();
    DecodeLeadingWord(Default(), ".-.-", "---", ".-.-", "O");
  }

  lemma GarbledPieces()
    ensures ".-.-" + [Space] + "---" == ".-.- ---" && ".-.." + [Space] + ".-.- ---" == ".-.. .-.- ---"
  {
  }

  lemma GarbledPrefixes()
    ensures "." + [Space] + ".-.. .-.- ---" == ". .-.. .-.- ---"
    ensures "...." + [Space] + ". .-.. .-.- ---" == ".... . .-.. .-.- ---"
  {
  }

  lemma GarbledOutputs()
    ensures ".-.-" + "O" == ".-.-O" && "L" + ".-.-O" == "L.-.-O" && "E" + "L.-.-O" == "EL.-.-O"
    ensures "H" + "EL.-.-O" == "HEL.-.-O"
  {
  }

  /** Latin letters in the transcript have no Morse pattern and are copied through. */
  lemma MixedTranscript()
    ensures Decode(Default(), ".... . L .-.. O") == "HELLO"
  {
    MixedTranscriptLetters();
    MixedTranscriptTail();
    MixedTranscriptPieces();
    DecodeLeadingWord(Default(), "....", ". L .-.. O", "H", "ELLO");
  }

  lemma MixedTranscriptLetters()
    ensures Letter(Default(), "....") == "H" && Letter(Default(), ".") == "E"
    ensures Letter(Default(), "L") == "L" && Letter(Default(), ".-..") == "L"
    ensures Letter(Default(), "O") == "O"
  {
    OneSymbolLetters();
    FourSymbolLetters();
    ForeignPatterns();
  }

  lemma MixedTranscriptTail()
    ensures Decode(Default(), ". L .-.. O") == "ELLO"
  {
    MixedTranscriptLetters();
    MixedTranscriptEnd();
    MixedTranscriptPieces();
    DecodeLeadingWord(Default(), "L", ".-.. O", "L", "LO");
    DecodeLeadingWord(Default(), ".", "L .-.. O", "E", "LLO");
  }

  lemma MixedTranscriptEnd()
    ensures Decode(Default(), ".-.. O") == "LO"
  {
    MixedTranscriptLetters();
    DecodeWord(Default(), "O");
    MixedTranscriptPieces();
    DecodeLeadingWord(Default(), ".-..", "O", "L", "O");
  }

  lemma MixedTranscriptPieces()
    ensures ".-.." + [Space] + "O" == ".-.. O" && "L" + [Space] + ".-.. O" == "L .-.. O"
    ensures "." + [Space] + "L .-.. O" == ". L .-.. O" && "...." + [Space] + ". L .-.. O" == ".... . L .-.. O"
    ensures "L" + "O" == "LO" && "L" + "LO" == "LLO" && "E" + "LLO" == "ELLO" && "H" + "ELLO" == "HELLO"
  {
  }

  /** The same transcript written with other dit and dah characters translates the same way. */
  lemma RecodedTranscript()
    ensures Create('@', '_').Ok?
    ensures Decode(Create('@', '_').value, "@@_ _ _@_@ @@@") == "UTCS"
  {
    var at := MorseMap('@', '_');
    RecodedLetters();
    RecodedTail();
    RecodedPieces();
    DecodeLeadingWord(at, "@@_", "_ _@_@ @@@", "U", "TCS");
  }

  /** The letters of the transcript, through the default characters. */
  lemma RecodedLetters()
    ensures var at := MorseMap('@', '_');
      Letter(at, "@@_") == "U" && Letter(at, "_") == "T" && Letter(at, "_@_@") == "C" && Letter(at, "@@@") == "S"
  {
    ThreeSymbolLetters();
    OneSymbolLetters();
    FourSymbolLetters();
    RecodedShortPatterns();
    RecodedLongPatterns();
  }

  lemma RecodedShortPatterns()
    ensures var at := MorseMap('@', '_');
      at.Translate("@@_") == Default().Translate("..-") && at.Translate("_") == Default().Translate("-")
  {
    RecodedPatterns();
    RecodedLetter("@@_", "..-");
    RecodedLetter("_", "-");
  }

  lemma RecodedLongPatterns()
    ensures var at := MorseMap('@', '_');
      at.Translate("_@_@") == Default().Translate("-.-.") && at.Translate("@@@") == Default().Translate("...")
  {
    RecodedPatterns();
    RecodedLetter("_@_@", "-.-.");
    RecodedLetter("@@@", "...");
  }

  /** A pattern over '@' and '_' has the letter of the same pattern over '.' and '-'. */
  lemma RecodedLetter(pattern: string, standard: string)
    requires forall j :: 0 <= j < |pattern| ==> pattern[j] == '@' || pattern[j] == '_'
    requires Recode(MorseMap('@', '_'), Default(), pattern) == standard
    ensures MorseMap('@', '_').Translate(pattern) == Default().Translate(standard)
  {
    TranslateRecoded(MorseMap('@', '_'), Default(), pattern);
  }

  lemma RecodedPatterns()
    ensures var at := MorseMap('@', '_'); var m := Default();
      Recode(at, m, "@@_") == "..-" && Recode(at, m, "_") == "-" && Recode(at, m, "_@_@") == "-.-."
      && Recode(at, m, "@@@") == "..."
  {
  }

  lemma RecodedTail()
    ensures Decode(MorseMap('@', '_'), "_ _@_@ @@@") == "TCS"
  {
    var at := MorseMap('@', '_');
    RecodedLetters();
    DecodeWord(at, "@@@");
    RecodedPieces();
    DecodeLeadingWord(at, "_@_@", "@@@", "C", "S");
    DecodeLeadingWord(at, "_", "_@_@ @@@", "T", "CS");
  }

  lemma RecodedPieces()
    ensures "_@_@" + [Space] + "@@@" == "_@_@ @@@" && "_" + [Space] + "_@_@ @@@" == "_ _@_@ @@@"
    ensures "@@_" + [Space] + "_ _@_@ @@@" == "@@_ _ _@_@ @@@"
    ensures "C" + "S" == "CS" && "T" + "CS" == "TCS" && "U" + "TCS" == "UTCS"
  {
  }
}
