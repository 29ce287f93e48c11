# Morse-code robot: decoding pipeline in Dafny

The robot drives along a strip of red and white tape and records one entry
per stretch of colour: `{"color": c, "time": t}`, where `c` is `"red"`,
`"white"` or `"boundary"`. A `"boundary"` entry marks time spent recovering
after the robot left the track. Once capture is over, `main.py` turns the
list into text in three steps. This project models those steps and proves
what they promise.

1. `remove_boundary_time_intervals` deletes the boundary entries. When a
   boundary sits between two entries of the same colour, the two are glued
   into one entry. This is `BoundaryRemoval` (`boundary.dfy`). The method
   follows the source's in-place `while` loop. The function `Scan` is its
   functional reading. The function `Cleaned` says what the result is,
   entry by entry: a boundary is dropped, an entry right after one or more
   boundaries is glued onto the previous survivor when the colours match,
   and every other entry is kept as it is. The relation `MergedFrom` is the
   looser fact that the survivors are same-coloured runs of the
   non-boundary entries, which is what total time and colours need.
2. `decode_morse_code_data` turns the entries into a Morse string. Red times
   split into dots and dashes at the midpoint of the shortest and longest
   red time. White times first go through the interquartile outlier filter
   `remove_time_outliers`. A white time the filter drops becomes a word
   break (three spaces). A kept one becomes a letter break (one space) when
   it is at or above the midpoint of the kept times, and nothing otherwise.
   This is `Outliers` (`outliers.dfy`) and `MorseClassifier`
   (`classifier.dfy`).
3. `decode_message` splits the Morse string at three spaces into words, and
   each word at single spaces into codes. It looks each code up in the code
   table, with unknown codes giving nothing. Each decoded word is followed
   by one space. This is `MessageDecoder` (`message.dfy`). It uses `Text`
   (`text.dfy`), a model of Python's `str.split` for a non-empty separator
   and of `str.join`.

`Pipeline` (`pipeline.dfy`) composes the three steps as the top of
`main.py` does. `Entries` (`entries.dfy`) holds the entry datatype and the
error results. `Sequences` (`sequences.dfy`) holds specified counterparts
of `min`, `max`, `sorted` and filtering a list.

Modelling choices:

- Durations are `real`. The code only adds, subtracts, halves, scales by
  1.5 and compares, so exact reals idealise the device's floats.
- The code table `MORSE_CODE_DICT` comes from a module `morse_code`, which
  is not part of this model. It is a `map<string, string>` parameter
  (`CodeTable`). The docstring example uses the five codes it needs, with
  the letters International Morse code gives them.
- The source raises an exception when there is no red entry (`min` of an
  empty list) or no white entry (`remove_time_outliers` indexes an empty
  sorted list). These become `Err(NoRedEntries)` and `Err(NoWhiteEntries)`.
  The red check comes first, as in the source.
- `remove_time_outliers` requires a non-empty input. The source indexes
  the sorted list unguarded, so an empty list raises. Its only caller's
  empty case is the `Err(NoWhiteEntries)` result above, so the model never
  calls the filter on an empty list.
- `sorted` is modelled by the insertion sort `SortAscending`.
  `Sequences.SortedUnique` shows that any sort gives the same list.

Where a stated promise and the code differ, the model follows the code:

- The outlier filter is not idempotent. `Outliers.NotIdempotent` shows that
  filtering `[0,0,0,0,0,1,3,10]` twice removes `3`, which filtering once
  keeps.
- The docstring of `decode_message` prints `DEF GH` for its example. The
  code returns `DEF GH ` with a trailing space, because every word,
  including the last, is followed by a space
  (`MessageDecoder.DocstringExample`).
- Filtering happens by value, so a white time is kept exactly when it lies
  inside the fences. All duplicates of a value therefore share one fate,
  and the membership test `time in white_times` never misreads a duplicate
  (`Outliers.KeptIffWithinFences`).

## Model

| member | source | states |
|---|---|---|
| Entries.TimesOf | main.py:193-200 | The red (or white) list is empty exactly when no entry of that colour occurs; every value in it is the time of an entry of that colour. |
| Entries.TimesOfAppend | main.py:196-200 | The list collected from two recordings one after the other is the first's list followed by the second's: each entry contributes on its own, in order. |
| Entries.TimesOfSingle | main.py:197-200 | A single entry contributes its time when it has the colour, and nothing otherwise. |
| Entries.TimesOfCounts | main.py:196-200 | An entry of the colour at position `i`, with k entries of that colour before it, supplies the k-th value of the list, duplicates included. |
| BoundaryRemoval.RemoveBoundaryTimeIntervals | main.py:97-111 | The in-place loop, whose index stays put after a deletion, computes the left-to-right scan `RemoveBoundaries`. It leaves no boundary entry and is never longer than the input. |
| BoundaryRemoval.RemoveBoundariesCleaned | main.py:97-109 | The scan's result is the cleaned recording: a boundary is dropped, an entry right after one or more boundaries is glued onto the previous survivor exactly when the colours match, and every other entry is kept unchanged. |
| BoundaryRemoval.RemoveBoundariesSnoc | main.py:97-109 | Extending the input by one entry: a boundary changes nothing; an entry right after a non-boundary entry is appended unchanged, never glued; an entry right after a boundary is glued onto the last survivor if and only if their colours match. |
| BoundaryRemoval.RemoveBoundariesMerges | main.py:96-111 | No boundary survives, and every survivor is one non-boundary entry or a same-coloured run of consecutive non-boundary entries summed into one, in the original order. Which runs are glued is fixed by `RemoveBoundariesCleaned`. |
| BoundaryRemoval.RemoveBoundariesKeepsTotal | main.py:100-104 | The total time of the result equals the total time of the input's non-boundary entries, as if the robot had never left the track; only the boundary's own time is lost. |
| BoundaryRemoval.RemoveBoundariesKeepsColors | main.py:97-109 | The colours present afterwards are exactly the input's colours minus boundary. |
| BoundaryRemoval.MergedKeepsTotal | main.py:100-104 | Any gluing of same-coloured runs keeps the total time. |
| BoundaryRemoval.RemoveBoundariesIdentity | main.py:97-111 | A recording without boundary entries comes back unchanged. |
| BoundaryRemoval.RemoveBoundariesIdempotent | main.py:97-111 | Removing boundaries from an already cleaned recording changes nothing. |
| BoundaryRemoval.RemoveBoundariesExamples | main.py:100-107 | A boundary between two reds merges them (1.0 + 2.0 gives 3.0). A boundary between red and white is just dropped, and so is a boundary at either end. |
| Sequences.Min | main.py:203 | `min` returns an element of the list that no element is below. |
| Sequences.Max | main.py:204 | `max` returns an element of the list that no element exceeds. |
| Sequences.SortAscendingSorts | main.py:169 | `sorted` returns an ascending list with the same elements and multiplicities as its input. |
| Sequences.SortedUnique | main.py:169 | Two ascending lists with the same multiset of values are equal, so the sorted list is determined by the input alone. |
| Sequences.KeepWithinSelects | main.py:185-188 | The filtering loop keeps an order-preserving subsequence, with every occurrence of a value inside the bounds and none outside. |
| Outliers.FencesAroundQuartiles | main.py:172-180 | Because `n//4 <= 3n//4 < n`, `q1 <= q3`. Both quartiles lie inside the fences, which are four interquartile ranges apart. |
| Outliers.OutliersSelect | main.py:169-190 | The filtered list is an order-preserving subsequence of the input. It keeps each value exactly when `q1 - 1.5*IQR <= v <= q3 + 1.5*IQR`, with all its occurrences. |
| Outliers.KeptIffWithinFences | main.py:186-188 | An input value is in the output if and only if it lies inside the fences. |
| Outliers.FirstQuartileKept | main.py:172-188 | `q1` always survives, so a non-empty input never filters to an empty list. |
| Outliers.SortedFences | main.py:169-180 | On an already ascending input, the fences come from the input's own elements at `n//4` and `3n//4`. |
| Outliers.DocstringExample | main.py:163-165 | `[1.2, 3.2, 5.2, 1.2, 45.5]` filters to `[1.2, 3.2, 5.2, 1.2]`. |
| Outliers.NotIdempotent | main.py:169-190 | `[0,0,0,0,0,1,3,10]` filters to `[0,0,0,0,0,1,3]`, which filters further to `[0,0,0,0,0,1]`: filtering is not idempotent. |
| MorseClassifier.DecodeMorseCodeData | main.py:192-230 | Decoding fails with the red error exactly when no red entry occurs, and with the white error exactly when reds occur but no white does. It succeeds exactly when both occur. |
| MorseClassifier.DecodeMorseCodeDataSpec | main.py:212-230 | On success the string is, entry by entry in order, one stroke per red entry and, per white entry, three spaces (outside the fences), none (inside, below the midpoint of the kept times) or one (inside, at or above it); boundary entries give nothing. So it uses only `.`, `-` and space, its strokes are one per red entry, and its space count is the sum of the white widths. |
| MorseClassifier.MarksLayout | main.py:215-228 | The string built by the loop equals the fence-based pieces of the entries concatenated in entry order, so every space sits where its white entry sits. |
| MorseClassifier.StrokesOf | main.py:216-220 | One stroke per red time; the k-th is a dot exactly when the k-th red time is below the threshold, and a dash exactly when it is not. |
| MorseClassifier.MarksStrokes | main.py:215-228 | The dots and dashes of the output are exactly the strokes of the red times, in order; white and boundary entries contribute none. |
| MorseClassifier.HeadSpaces | main.py:215-228 | What one entry adds to the string is its fence-based piece: a white entry adds exactly three spaces when its value is outside the fences, and otherwise none or one by the letter-space threshold. A red entry adds its stroke and a boundary entry nothing. |
| MorseClassifier.MarksSpaces | main.py:221-228 | The spaces of the output are the sum of the per-white-entry widths, in terms of the fences. |
| MorseClassifier.DotsAndDashes | main.py:203-220 | When the red times differ, the output has both a dot and a dash. When all red times are equal, the output has no dot. |
| MorseClassifier.HasLetterSpace | main.py:207-226 | The longest kept white time is at or above the letter-space threshold, so every decoded string contains a space. |
| Text.Split | main.py:133 | `str.split` always returns at least one piece, and the first piece is a prefix of the input. |
| Text.JoinSplit | main.py:133 | Joining the pieces of a split with the separator gives back the string. |
| Text.SplitPiecesAreFree | main.py:133 | No piece of a split contains the separator. |
| Text.SplitJoin | main.py:137 | With a one-character separator, splitting a join of separator-free pieces returns the pieces. |
| MessageDecoder.UnknownCodesVanish | main.py:140-142 | Decoding a word gives the same text as decoding only the codes the table knows. |
| MessageDecoder.DecodeCodesLength | main.py:140-142 | With a table of one-character entries, a word decodes to one character per known code. |
| MessageDecoder.DecodeMessageEndsInSpace | main.py:131-146 | The message is never empty and always ends in a space, the one appended after the last word. |
| MessageDecoder.DecodeMessageWords | main.py:133-146 | When no table entry contains a space, splitting the message at spaces gives the decoded three-space groups of the input, in order, then one empty piece. |
| MessageDecoder.DocstringExample | main.py:127-129 | `-.. . ..-.   --. ....` decodes to `DEF GH ` (with the trailing space) under the letters D, E, F, G, H of International Morse code. |
| Pipeline.DecodeRun | main.py:309-313 | The whole pipeline fails exactly when the recording has no red entry or no white entry; boundaries never decide it. On success the text ends in a space. |
| Pipeline.DecodeRunWords | main.py:309-313 | With a space-free table, the words of the text are the translations of the three-space groups the classifier produced. |

## Left out

- `capture_morse_code_data` (main.py:232-299) is not modelled. It is a sensor-polling control loop over globals written by other threads. The model starts from the list it returns. In the code, boundary time is reset to zero before it is subtracted, and the obstruction time holds only the last pause. So "all boundary and obstruction time is subtracted" is not a property of this code, and it is not stated.
- The monitor threads `is_obstructed`, `has_hit_boundary` and `handle_sensor_pressed` (main.py:38-64, 302-304) are not modelled: they are concurrency over unsynchronised globals and raw sensor reads.
- `realign_robot` (main.py:66-82) is not modelled: it is motor choreography over live sensor reads.
- The speaker, screen, `wait` and every `print` (main.py:305-316 and the debug prints inside the modelled functions) are dropped; they do not affect the values computed.
- The contents of `MORSE_CODE_DICT` are not modelled: the `morse_code` module is not part of this model, and the table is a parameter.
- Floating-point rounding is not modelled; durations are exact reals.
