/** The post-capture pipeline of the program: boundary removal, the
    classification of the captured run into a Morse string, and the
    translation of that string into text. */
module Pipeline {
  import opened Entries
  import opened BoundaryRemoval
  import opened MorseClassifier
  import opened MessageDecoder
  import opened Text

  /** Decodes a captured run. Decoding fails exactly when, once the boundary
      entries are gone, no red or no white entry is left; otherwise the text
      is non-empty and ends in the space that follows its last word. */
  function DecodeRun(times: seq<Entry>, table: CodeTable): (r: Result<string>)
    ensures r == Err(NoRedEntries) <==> Red !in Colors(times)
    ensures r == Err(NoWhiteEntries) <==> Red in Colors(times) && White !in Colors(times)
    ensures r.Ok? <==> Red in Colors(times) && White in Colors(times)
    ensures r.Ok? ==> |r.value| > 0 && r.value[|r.value| - 1] == ' '
  {
    RemoveBoundariesKeepsColors(times);
    match DecodeMorseCodeData(RemoveBoundaries(times))
    case Err(e) => Err(e)
    case Ok(morse) =>
      DecodeMessageEndsInSpace(morse, table);
      Ok(DecodeMessage(morse, table))
  }

  /** With a table free of spaces, the words of the text are the
      translations of the three-space-separated groups of the Morse string
      the classifier produced. */
  lemma DecodeRunWords(times: seq<Entry>, table: CodeTable)
    requires SpaceFree(table)
    requires Red in Colors(times) && White in Colors(times)
    ensures var morse := DecodeMorseCodeData(RemoveBoundaries(times));
            && morse.Ok?
            && DecodeRun(times, table).Ok?
            && Split(DecodeRun(times, table).value, " ")
               == DecodeWords(Split(morse.value, WordSeparator), table) + [""]
  {
    RemoveBoundariesKeepsColors(times);
    DecodeMessageWords(DecodeMorseCodeData(RemoveBoundaries(times)).value, table);
  }

  /** Feeding the run through boundary removal first changes nothing, so the
      decoder depends only on the boundary-free recording. */
  lemma {:induction false} DecodeRunIgnoresBoundaries(times: seq<Entry>, table: CodeTable)
    ensures DecodeRun(RemoveBoundaries(times), table) == DecodeRun(times, table)
  {
    RemoveBoundariesIdempotent(times);
  }
}
