# dk-data-collector acquisition core, in Dafny

`dk-data-collector` reads accelerometer and gyroscope samples from a
development kit over a serial line. The board writes one line per sample:

    accel;I0;F0;I1;F1;I2;F2;I3;F3;I4;F4;I5;F5;\r\n

The host splits the line on `;`. It checks the `accel` marker and converts
every token except `\r\n` with `int()`. It then rebuilds the six values
acc x, y, z, gyr x, y, z as `Ik + Fk * 10^-6`. A loop reads lines while the
global `data_collect` flag is set, and the Esc key clears that flag. Each
sample is kept in a list and, when an output file was given, written as a
CSV row.

The model has four modules, one per concern:

- `PyBytes` (`py_bytes.dfy`) models the two Python built-ins the parser
  relies on, over bytes: `bytes.split` with a one-byte separator, and
  `int()` on an ASCII token. Each comes with its inverse (`Join`, `ShowInt`)
  and round-trip lemmas.
- `Samples` (`accelerometer_data.dfy`) is the class `AccelerometerData`:
  - the six-slot data and its axis constants;
  - the hand-written iterator (`__iter__`, `__next__`), whose index is a
    field the methods update;
  - the iteration protocol that `csv.writer.writerow` drives.
- `Parser` (`accelerometer_data_parser.dfy`) covers `parse_data`:
  - `Decode` is the specification function, with four outcomes: `None`, a
    sample, `ValueError` or `IndexError`.
  - `ParseData` is the method, with the token loop as a `while` loop proved
    against that function.
  - Lemmas characterise each outcome from the tokens.
  - Round trips go through the line format the board writes.
- `Acquisition` (`main.dfy`) covers `configure_logging`'s level choice,
  `on_press` and `collect_data`:
  - The class `DataCollector` holds the `data_collect` flag, which
    `OnPress` and `CollectData` update in place.
  - `CollectData` is the loop as written. Its whole result and final state
    are tied to the function `Collect`, whose properties are lemmas.

The serial port is the parameter `source: seq<Read>`. Each read returns a
line, fails in pyserial, or is interrupted by Ctrl-C.

The key listener is the parameter `presses: seq<seq<Key>>`. Batch `i` is
delivered before the flag is tested for the `i`-th time. That is the only
interleaving of the listener thread with the loop that the model captures.

A run that uses up `source` while the flag is still set ends as `Starved`.
That stands for "the next read would block".

Where the code and its documentation disagree, the model follows the code:

- The example line in the class comment of `AccelerometerDataParser.py`
  ends in `;` with no `\r\n`. `int('')` on the decoded empty last token
  then raises `ValueError`, so `parse_data` raises on exactly that example
  (`DocumentedLineAsPrintedRaises`, `FrameWithoutCrLfRaises`,
  `TrailingSeparatorRaises`). The same tokens followed by `\r\n`, as
  `read_data_until` delivers a line, decode to the documented values
  0.081405, -0.260377, -9.903318, 0.001331, -0.00213 and 0.0
  (`DocumentedLineDecodes`). Its zero-padded tokens such as `081405` and
  `-02130` are read as `int()` reads them (`ParseZeroPaddedInt`).
- The docstring of `parse_data` promises `None` for data that cannot be
  parsed. The code returns `None` only for a missing marker. A bad token
  raises `ValueError` and too few integers raise `IndexError`, and
  `collect_data` catches neither. Such an exception ends the loop and
  leaves the function (`CollectEndsAtLastRead`).
- The comment in `parse_data` says the fractional part is multiplied by
  `-10^6`. The code multiplies by `+10^-6`, which is what the class comment
  and its examples say (`FixedExamples`).
- `if parsed_data:` is always true for an `AccelerometerData`, because the
  class defines neither `__bool__` nor `__len__`. Every sample is kept.

## Model

| member | source | states |
|---|---|---|
| PyBytes.JoinSplit | AccelerometerDataParser.py:57 | joining the pieces of `split(b';')` with `;` gives the line back, so split loses nothing |
| PyBytes.SplitJoin | AccelerometerDataParser.py:57 | splitting a join of separator-free pieces gives exactly those pieces |
| PyBytes.SplitTrailingSeparator | AccelerometerDataParser.py:57 | bytes ending in `;` split into at least two pieces, the last one empty |
| PyBytes.Split | AccelerometerDataParser.py:57 | split never returns an empty list, and no piece contains the separator |
| PyBytes.ParseInt | AccelerometerDataParser.py:65 | `int()` succeeds only on a token that is not blank after stripping whitespace |
| PyBytes.ParseShowInt | AccelerometerDataParser.py:65 | `int()` reads the decimal text of every integer, negative ones included, back as that integer |
| PyBytes.ParsePaddedInt | AccelerometerDataParser.py:65 | whitespace around a literal does not change what `int()` reads, e.g. the ` 0` token of the example line |
| PyBytes.ParseZeroPaddedInt | AccelerometerDataParser.py:65 | a literal with whitespace around it, an optional `-` or `+` and any number of leading zeros before the digits of n reads as n, or -n after `-`; this covers tokens such as `081405`, `-02130` and `000000` |
| PyBytes.PaddedDigits | AccelerometerDataParser.py:65 | leading zeros before the digits of n still form a digit string, and its value is n |
| PyBytes.ParseIgnoresPadding | AccelerometerDataParser.py:65 | whitespace around any token that neither starts nor ends in whitespace leaves `int()`'s result unchanged, failure included |
| Parser.Fixed | AccelerometerDataParser.py:71-73 | an axis value times 10^6 is the integer part times 10^6 plus the fractional token, whatever that token's sign or size |
| Parser.Reconstruct | AccelerometerDataParser.py:71-73 | six values, value k built from integers 2k and 2k+1 |
| Parser.FixedExamples | AccelerometerDataParser.py:31-38 | the four worked examples of the class comment hold, plus a fraction above 10^6 and a mixed-sign pair |
| Parser.EncodeMicro | AccelerometerDataParser.py:31-38 | the board's split of a value in millionths into integer part and same-signed fraction below 10^6 in size recombines to the value |
| Parser.FixedEncodeMicro | AccelerometerDataParser.py:31-38 | decoding the encoded pair gives the value back exactly; -1.25 encodes as (-1, -250000) as the comment says |
| Parser.IntTokens | AccelerometerDataParser.py:63-65 | a successful conversion never holds more integers than there are tokens; `ParseIntegers` is proved equal to it and `IntTokensMeaning` characterises it |
| Parser.IntTokensMeaning | AccelerometerDataParser.py:63-65 | the token loop succeeds iff every non-`\r\n` token is an integer literal, and then holds their values in token order |
| Parser.ParseIntegers | AccelerometerDataParser.py:63-65 | the `for` loop that fills `data_int` computes `IntTokens` of the tokens |
| Parser.BadTokenSticks | AccelerometerDataParser.py:63-65 | once a token fails to convert, the whole loop fails, whatever follows |
| Parser.IntTokensOfLiterals | AccelerometerDataParser.py:63-65 | tokens that are all integer literals give exactly their values, in order |
| Parser.Decode | AccelerometerDataParser.py:57-73 | the result is `None` iff the first piece is not `accel`; a sample always has six values |
| Parser.DecodeMeaning | AccelerometerDataParser.py:57-73 | `ValueError` iff marked and some token is not an integer; `IndexError` iff marked, all integers and fewer than twelve; a sample iff twelve or more, axis k from integers 2k and 2k+1, the rest ignored |
| Parser.AxisOrder | AccelerometerDataParser.py:71-73 | the token pairs land in the slots named `ACC_X_IDX` ... `GYR_Z_IDX`; integers past the twelfth do not matter |
| Parser.SplitLine | AccelerometerDataParser.py:57 | a marked line of separator-free tokens ending in `\r\n` or in nothing splits back into the marker, those tokens and that ending |
| Parser.DecodeLine | AccelerometerDataParser.py:57-73 | a marked line of separator-free integer literals ending in `\r\n`, each written in any way `int()` accepts, decodes to the values of its first twelve integers, or raises `IndexError` when it carries fewer |
| Parser.DecodeFrame | AccelerometerDataParser.py:57-73 | round trip: a line of plainly printed integers, as `ShowInt` writes them, decodes to the values of its first twelve integers, or raises `IndexError` when it carries fewer |
| Parser.LiteralToken | AccelerometerDataParser.py:65 | a token of leading spaces, an optional sign, leading zeros and the digits of n holds no `;`, is not `\r\n`, and reads as n or -n |
| Parser.DocumentedTokenValue | AccelerometerDataParser.py:13 | each of the twelve tokens of the documented line, ` 0`, `081405`, ..., `000000`, reads as the matching integer |
| Parser.DocumentedLineDecodes | AccelerometerDataParser.py:13 | the documented line followed by `\r\n` decodes to the sample 0.081405, -0.260377, -9.903318, 0.001331, -0.00213, 0.0 |
| Parser.DocumentedLineAsPrintedRaises | AccelerometerDataParser.py:13 | the documented line exactly as printed, ending in `;`, raises `ValueError` |
| Parser.BadLastTokenRaises | AccelerometerDataParser.py:63-65 | a marked line whose last token is neither `\r\n` nor an integer raises `ValueError` |
| Parser.TrailingSeparatorRaises | AccelerometerDataParser.py:63-65 | every marked line ending in `;` raises `ValueError` |
| Parser.FrameWithoutCrLfRaises | AccelerometerDataParser.py:13 | the documented line format without `\r\n` raises `ValueError`, for any number of integers |
| Parser.ParseData | AccelerometerDataParser.py:42-79 | `None`, the raised exception, or a fresh `AccelerometerData` holding the decoded values with its iterator index unset, exactly as `Decode` says; the debug vector is logged iff `log` is set and a sample was built |
| Samples.AccelerometerData.constructor | AccelerometerData.py:9-19 | a sample of six values stores them, with no iterator index yet |
| Samples.AccelerometerData.Iter | AccelerometerData.py:21-31 | `__iter__` parks the index at -1 and returns the object itself |
| Samples.AccelerometerData.Next | AccelerometerData.py:33-45 | `__next__` advances the index and yields the element there, or `StopIteration` past the end; before any `__iter__` it is an `AttributeError` |
| Samples.AxisIndicesAreTheSlots | AccelerometerData.py:2-7 | the six axis constants are the slots 0 to 5 |
| Samples.IterateAll | AccelerometerData.py:21-45 | iterating a sample yields exactly its six values, in order, and leaves the index past the end |
| Samples.IterateTwice | AccelerometerData.py:21-45 | a second iteration yields the same values as the first |
| Acquisition.SelectLevel | main.py:21-35 | each matched name selects its arm's level silently: debug DEBUG, info INFO, waning WARNING, error ERROR, critical CRITICAL; the notice is printed iff the name matches no arm; WARNING exactly for names other than debug, info, error, critical |
| Acquisition.LevelChoicesSelected | main.py:91 | each command-line choice selects its own level silently, choice i giving the i-th of DEBUG, INFO, WARNING, ERROR, CRITICAL, and the default `"warning"` selects WARNING but prints the notice |
| Acquisition.SelectLevelIntended | main.py:28 | the corrected match maps debug, info, warning, error, critical to DEBUG ... CRITICAL silently, and prints the notice iff the name is not one of those choices |
| Acquisition.IntendedChoicesSelected | main.py:91 | with the corrected spelling, choice i selects the i-th level silently, and the default is a choice that selects WARNING silently |
| Acquisition.DataCollector.constructor | main.py:11 | the flag starts set |
| Acquisition.DataCollector.OnPress | main.py:15-18 | Esc clears the flag; any other key leaves it as it was |
| Acquisition.AfterKeys | main.py:15-18 | the flag after a batch of presses is the flag before with no Esc in the batch; `DeliverKeys`, which calls `OnPress` once per key, is proved equal to it, and `FlagAtMeaning` lifts it to every test |
| Acquisition.DataCollector.DeliverKeys | main.py:15-18 | after a batch of presses the flag is set iff it was set before and no Esc came |
| Acquisition.FlagAtMeaning | main.py:15-18 | the flag is set at test i iff it started set and no Esc came in any batch up to and including i |
| Acquisition.FlagStaysCleared | main.py:15-18 | once cleared, the flag stays cleared at every later test |
| Acquisition.EventOf | main.py:65-84 | a line decoding to a sample is kept with those values; an unmarked line is dropped; a parse error or serial failure escapes as that exception; Ctrl-C is caught |
| Acquisition.EventsOfAt | main.py:66-72 | the k-th loop pass handles the k-th read |
| Acquisition.LoopFrom | main.py:66-77 | the loop never reads more lines than the source holds |
| Acquisition.LoopContinues | main.py:66-77 | a pass that keeps or drops its line adds at most its sample and row in front, and the rest of the run is the loop from the next test |
| Acquisition.LoopKeepsReadOrder | main.py:66-77 | samples are the kept events of the reads made, in read order; rows equal samples with a writer and are empty without |
| Acquisition.LoopTestsFlagFirst | main.py:66 | the flag was found set before every read |
| Acquisition.LoopOutcomeFlag | main.py:66 | a normal finish means the flag was found cleared; running out of reads means all were read with the flag still set |
| Acquisition.LoopEndsAtLastRead | main.py:65-84 | only the last read can end the loop, and a crash or interrupt outcome is that read's event |
| Acquisition.LoopStopsAtEsc | main.py:15-18 | an Esc delivered before test k, with every earlier read survived, finishes the loop after at most k reads |
| Acquisition.LoopReadsAll | main.py:66-77 | with no Esc and no read ending the loop, every read is made and the loop runs out of reads |
| Acquisition.CollectProperties | main.py:64-77 | `collect_data` keeps exactly the samples of the reads it made, in order, writes a row per sample iff a writer exists, tests the flag before every read, and finishes normally only on a cleared flag |
| Acquisition.CollectEndsAtLastRead | main.py:65-84 | every read before the last was a line that decodes without raising; an escaping exception is the one the last read raised; `KeyboardInterrupt` comes from the last read |
| Acquisition.AllSurvivableReadsCollected | main.py:64-77 | with no Esc and only survivable lines, every line is read and every sample kept, in order |
| Acquisition.EscStopsCollection | main.py:15-18 | Esc before test k, with survivable reads up to it, stops `collect_data` normally after at most k reads |
| Acquisition.TwoSamplesAroundUnmarkedLine | main.py:72-74 | sample, unmarked line, sample: exactly the two samples are kept, in order |
| Acquisition.Pass | main.py:67-77 | one loop pass: a parsed sample is appended to the list and, with a writer, its iterated values are written as a row; otherwise list and rows are unchanged |
| Acquisition.Collect | main.py:40-84 | the run of `collect_data` from the flag's initial value: `CollectData` is proved equal to it, and `CollectProperties`, `CollectEndsAtLastRead`, `AllSurvivableReadsCollected` and `EscStopsCollection` state what it keeps, reads and raises |
| Acquisition.DataCollector.CollectData | main.py:40-84 | the method's outcome, list contents, rows, read count and final flag are exactly those of `Collect` from the flag's initial value |

## Findings

| source | as written | input that shows it | evidently intended | confidence | as-written member | corrected member |
|---|---|---|---|---|---|---|
| main.py:28 | the third arm of the match and the third command-line choice are spelt `"waning"`, while the default is `"warning"` | the call `configure_logging("warning")` with `"warning"` the argparse default of main.py:91: it matches no arm, so the fallback prints "Unknown logging level" although the input is the default, and `"warning"` cannot be passed explicitly. The entry point as written raises `AttributeError` at `Configuration(args)` (main.py:116, since Config.py:9 reads `args.log`, which argparse never defines) before main.py:118 makes this call | the arm and the choice read `"warning"`, so the default selects WARNING without the notice | not executed | Acquisition.LevelChoicesSelected | Acquisition.IntendedChoicesSelected |

The rest of the model keeps the code as written (`SelectLevel`), since the
chosen level is WARNING either way and only the notice differs.

## Left out

- Floating point: the axis values are exact reals. The rounding of
  Python's `int + int * 0.000001` in binary floating point is not modelled.
- Parser.Decode: yields a sample for integers of any size. In the code, an
  integer whose magnitude rounds beyond the double range (from about
  1.8 * 10^308) makes the float conversion at
  AccelerometerDataParser.py:71-73 raise `OverflowError`, which escapes
  `parse_data` and `collect_data`. A sum that rounds to `inf` is not
  modelled either.
- PyBytes.ParseInt: models `int()` on ASCII bytes only. It does not cover
  Unicode digits and spaces, which `codecs.decode` plus `int()` would
  accept, nor CPython's 4300-digit limit on conversions. A non-UTF-8 token,
  where `codecs.decode` raises `UnicodeDecodeError`, is modelled as the
  `ValueError` that `UnicodeDecodeError` is a subclass of.
- Samples.AccelerometerData.constructor: the `assert len(data) == 6` is a
  precondition, so `AssertionError` is not modelled. `parse_data` always
  passes six values.
- The debug messages of `parse_data` and `collect_data`: `ParseData`
  returns the logged vector, but not its text formatting. The `info` and
  `warning` messages of `collect_data`, `logging.basicConfig` and the
  notice's text are not modelled.
- The full `argparse` parser and the program entry (main.py:88-127): only
  the log-level choices and their default are modelled.
- `csv.writer` output: a row is the list of values that iterating the sample
  yields, not its CSV text. Opening the output file is not modelled.
- The listener thread: presses arrive only between loop passes, in batches,
  so a press during a read is seen at the next test. Nothing from the
  thread can race with the loop.
- `listener.join()` (main.py:81): the model ends at the flag test. The join
  can wait indefinitely, because `on_press` never returns `False` to stop
  the listener; that wait is not modelled.
- `KeyboardInterrupt` is modelled as the outcome of a read only, not as
  arriving during parsing, appending, writing or the join.
- Communication.py and Config.py are not part of this model. Reading a line
  is an element of `source`, and a pyserial failure is `SerialFault`.
