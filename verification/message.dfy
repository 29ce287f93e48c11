/** Translation of a Morse string into text (`decode_message`). Words are
    separated by three spaces and characters by one; each character code is
    looked up in the code table, unknown codes contributing nothing, and every
    decoded word is followed by one space. */
module MessageDecoder {
  import opened Text

  /** The code table, from Morse code to the letter or digit it stands for. */
  type CodeTable = map<string, string>

  const WordSeparator: string := "   "
  const CharSeparator: string := " "

  /** `MORSE_CODE_DICT.get(code, '')`. */
  function Lookup(table: CodeTable, code: string): string
  {
    if code in table then table[code] else ""
  }

  /** The looked-up texts of `codes`, concatenated in order. */
  function DecodeCodes(codes: seq<string>, table: CodeTable): string
    decreases |codes|
  {
    if |codes| == 0 then "" else Lookup(table, codes[0]) + DecodeCodes(codes[1..], table)
  }

  function DecodeWord(word: string, table: CodeTable): string
  {
    DecodeCodes(Split(word, CharSeparator), table)
  }

  /** The decoded form of each word, in order. */
  function DecodeWords(words: seq<string>, table: CodeTable): seq<string>
    decreases |words|
  {
    if |words| == 0 then [] else [DecodeWord(words[0], table)] + DecodeWords(words[1..], table)
  }

  /** Each string followed by one space, all concatenated. */
  function Spaced(words: seq<string>): string
    decreases |words|
  {
    if |words| == 0 then "" else words[0] + " " + Spaced(words[1..])
  }

  function DecodeMessage(morse: string, table: CodeTable): string
  {
    Spaced(DecodeWords(Split(morse, WordSeparator), table))
  }

  /** The codes of `codes` that the table knows, in order. */
  function KnownCodes(codes: seq<string>, table: CodeTable): seq<string>
    decreases |codes|
  {
    if |codes| == 0 then []
    else if codes[0] in table then [codes[0]] + KnownCodes(codes[1..], table)
    else KnownCodes(codes[1..], table)
  }

  /** No entry of the table holds a space. */
  predicate SpaceFree(table: CodeTable)
  {
    forall code :: code in table ==> ' ' !in table[code]
  }

  /** Every entry of the table is a single character. */
  predicate SingleCharacters(table: CodeTable)
  {
    forall code :: code in table ==> |table[code]| == 1
  }

  lemma {:induction false} DecodeWordsLength(words: seq<string>, table: CodeTable)
    ensures |DecodeWords(words, table)| == |words|
    ensures forall i :: 0 <= i < |words| ==> DecodeWords(words, table)[i] == DecodeWord(words[i], table)
    decreases |words|
  {
    if |words| > 0 {
      DecodeWordsLength(words[1..], table);
    }
  }

  /** Codes the table does not know vanish without a trace. */
  lemma {:induction false} UnknownCodesVanish(codes: seq<string>, table: CodeTable)
    ensures DecodeCodes(codes, table) == DecodeCodes(KnownCodes(codes, table), table)
    decreases |codes|
  {
    if |codes| > 0 {
      UnknownCodesVanish(codes[1..], table);
      if codes[0] in table {
        assert ([codes[0]] + KnownCodes(codes[1..], table))[1..] == KnownCodes(codes[1..], table);
      }
    }
  }

  /** With a table of single characters, each known code gives exactly one
      character and each unknown code none. */
  lemma {:induction false} DecodeCodesLength(codes: seq<string>, table: CodeTable)
    requires SingleCharacters(table)
    ensures |DecodeCodes(codes, table)| == |KnownCodes(codes, table)|
    decreases |codes|
  {
    if |codes| > 0 {
      DecodeCodesLength(codes[1..], table);
    }
  }

  lemma {:induction false} DecodeCodesSpaceFree(codes: seq<string>, table: CodeTable)
    requires SpaceFree(table)
    ensures ' ' !in DecodeCodes(codes, table)
    decreases |codes|
  {
    if |codes| > 0 {
      DecodeCodesSpaceFree(codes[1..], table);
      var head := Lookup(table, codes[0]);
      var tail := DecodeCodes(codes[1..], table);
      assert forall ch :: ch in head + tail ==> ch in head || ch in tail;
    }
  }

  /** Appending a space to every word is joining with a space and keeping a
      final empty piece. */
  lemma {:induction false} SpacedIsJoin(words: seq<string>)
    ensures Spaced(words) == Join(words + [""], " ")
    decreases |words|
  {
    if |words| > 0 {
      SpacedIsJoin(words[1..]);
      assert (words + [""])[1..] == words[1..] + [""];
    }
  }

  /** The message holds one decoded word per three-space-separated group of
      the input, each followed by a space, so it is never empty and always
      ends in a space. */
  lemma DecodeMessageEndsInSpace(morse: string, table: CodeTable)
    ensures |DecodeMessage(morse, table)| > 0
    ensures DecodeMessage(morse, table)[|DecodeMessage(morse, table)| - 1] == ' '
  {
    var words := DecodeWords(Split(morse, WordSeparator), table);
    DecodeWordsLength(Split(morse, WordSeparator), table);
    SpacedEndsInSpace(words);
  }

  lemma {:induction false} SpacedEndsInSpace(words: seq<string>)
    requires |words| > 0
    ensures |Spaced(words)| > 0 && Spaced(words)[|Spaced(words)| - 1] == ' '
    decreases |words|
  {
    if |words| > 1 {
      SpacedEndsInSpace(words[1..]);
    }
  }

  /** When no table entry holds a space, splitting the message at single
      spaces recovers the decoded words, one per group of the input, followed
      by the empty piece after the final space. */
  lemma DecodeMessageWords(morse: string, table: CodeTable)
    requires SpaceFree(table)
    ensures Split(DecodeMessage(morse, table), " ")
         == DecodeWords(Split(morse, WordSeparator), table) + [""]
  {
    var groups := Split(morse, WordSeparator);
    var words := DecodeWords(groups, table);
    DecodeWordsLength(groups, table);
    forall i | 0 <= i < |words|
      ensures ' ' !in words[i]
    {
      DecodeCodesSpaceFree(Split(groups[i], CharSeparator), table);
    }
    SpacedIsJoin(words);
    var pieces := words + [""];
    assert forall i :: 0 <= i < |pieces| ==> ' ' !in pieces[i];
    SplitJoin(pieces, ' ');
  }

  /** The five codes of the docstring example, as in International Morse
      code. */
  const ExampleTable: CodeTable :=
    map["-.." := "D", "." := "E", "..-." := "F", "--." := "G", "...." := "H"]

  /** The example of the docstring. The result carries the trailing space
      the loop appends. */
  lemma DocstringExample()
    ensures DecodeMessage("-.. . ..-.   --. ....", ExampleTable) == "DEF GH "
  {
    ExampleGroups();
    ExampleWords(Split("-.. . ..-.   --. ....", WordSeparator));
    ExampleSpaced(DecodeWords(Split("-.. . ..-.   --. ....", WordSeparator), ExampleTable));
  }

  lemma {:induction false} ExampleWords(groups: seq<string>)
    requires groups == ["-.. . ..-.", "--. ...."]
    ensures DecodeWords(groups, ExampleTable) == ["DEF", "GH"]
  {
    ExampleWordsLiteral();
  }

  lemma ExampleWordsLiteral()
    ensures DecodeWords(["-.. . ..-.", "--. ...."], ExampleTable) == ["DEF", "GH"]
  {
    ExampleFirstWord();
    ExampleSecondWord();
  }

  lemma ExampleFirstWord()
    ensures DecodeWord("-.. . ..-.", ExampleTable) == "DEF"
  {
    ExampleCodes();
    ExampleFirstCodes();
  }

  lemma ExampleFirstCodes()
    ensures DecodeCodes(["-..", ".", "..-."], ExampleTable) == "DEF"
  {
  }

  lemma ExampleSecondWord()
    ensures DecodeWord("--. ....", ExampleTable) == "GH"
  {
    ExampleCodes();
    ExampleSecondCodes();
  }

  lemma ExampleSecondCodes()
    ensures DecodeCodes(["--.", "...."], ExampleTable) == "GH"
  {
  }

  lemma ExampleSpaced(words: seq<string>)
    requires words == ["DEF", "GH"]
    ensures Spaced(words) == "DEF GH "
  {
    assert Spaced(["DEF", "GH"]) == "DEF GH ";
  }

  lemma ExampleGroups()
    ensures Split("-.. . ..-.   --. ....", WordSeparator) == ["-.. . ..-.", "--. ...."]
  {
    GroupsGlued();
    LastGroup();
    FirstGroup();
  }

  lemma GroupsGlued()
    ensures "-.. . ..-.   --. ...." == "-.. . ..-." + WordSeparator + "--. ...."
  {
  }

  lemma LastGroup()
    ensures Split("--. ....", WordSeparator) == ["--. ...."]
  {
    var second := "--. ....";
    forall i | 0 <= i <= |second|
      ensures !(WordSeparator <= second[i..])
    {
      if i < |second| {
        assert second[i..][0] == second[i];
      }
      if i + 1 < |second| {
        assert second[i..][1] == second[i + 1];
      }
    }
    NotOccursAnywhere(second, WordSeparator);
    SplitWithoutSeparator(second, WordSeparator);
  }

  lemma FirstGroup()
    ensures Split("-.. . ..-." + WordSeparator + "--. ....", WordSeparator)
         == ["-.. . ..-."] + Split("--. ....", WordSeparator)
  {
    var first := "-.. . ..-.";
    var second := "--. ....";
    var morse := first + WordSeparator + second;
    forall i | 0 <= i < |first|
      ensures !(WordSeparator <= morse[i..])
    {
      assert morse[i] != ' ' || morse[i + 1] != ' ';
      assert morse[i..][0] == morse[i] && morse[i..][1] == morse[i + 1];
    }
    SplitAfterPiece(first, WordSeparator, second);
  }

  lemma ExampleCodes()
    ensures Split("-.. . ..-.", CharSeparator) == ["-..", ".", "..-."]
    ensures Split("--. ....", CharSeparator) == ["--.", "...."]
  {
    SplitJoin(["-..", ".", "..-."], ' ');
    assert Join(["-..", ".", "..-."], " ") == "-.. . ..-.";
    SplitJoin(["--.", "...."], ' ');
    assert Join(["--.", "...."], " ") == "--. ....";
  }
}
