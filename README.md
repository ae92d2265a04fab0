# GROWTH event-file analysis: verified model of the bookkeeping core

This project models and proves, in Dafny, the integer and string bookkeeping of
`pyGROWTH.py`, the first-stage analysis script of the GROWTH gamma-ray detector.
The script reads an EVENTS table from a FITS file, converts it to a ROOT tree of
derived metrics, builds a result dictionary from the EVENTS header, and draws and
fits light curves and spectra. The model covers the parts the script computes
itself rather than handing to ROOT or pyfits:

- **Event-metric derivation** (`convertToROOT`, module `EventMetrics`). This is one
  forward pass over the event records. For each event it produces the elapsed time
  since the first event, the time-tag and trigger-count differences from the
  previous event, and phaMax and baseline copied unchanged. The tree is an
  append-only sequence of rows (`EventTree`).
- **Result dictionary** (`setResultDictionary`, module `ResultDictionary`). The
  header is a sequence of (keyword, value) cards. Every keyword k other than
  HISTORY is stored as `HEADER_k`. At the first HISTORY keyword, every HISTORY line
  is read; a line whose text after the last `YAML-- ` splits on `:` into exactly
  two fields stores `DAQCONFIG_<name>`, as an int when `int()` reads the value and
  as the raw text otherwise. `TOTAL_COUNTS` is `int(NAXIS2)`, and `RAW_RATE` is
  `float(NAXIS2) / float(HEADER_EXPOSURE)`.
- **Bin arithmetic** (module `Histograms`). This covers the four `nbin`
  expressions, the two loops that divide every bin's content and error by a
  divisor, and the loop that feeds the positive light-curve bins into the
  count-distribution histogram.

Shared helpers:

- `IntText` models Python 2 `int()` on a string: C whitespace around the number,
  an optional sign, optional whitespace after the sign, and at least one decimal
  digit.
- `FloatText` models Python 2 `float()` on a string: C whitespace around the
  number, an optional sign directly before it, digits with an optional decimal
  point, and an optional `e`/`E` exponent. The value is an exact real.
- `TextSplit` models `str.split(sep)` and the `[-1]` index.
- `PyScalars` models Python 2 values and arithmetic: `/` on two ints floors,
  `int()` of a float truncates toward zero, and a bool counts as an int.
- `Wrappers` holds `Option` and `Result`.

Where the script raises an exception the model returns a `Failure`. An
`IndexError` on an empty EVENTS table becomes `EmptyEventTable`. A non-text
HISTORY value, a missing `NAXIS2` and an unreadable `NAXIS2` each get their own
error. The `RAW_RATE` line has four more: `float()` cannot read `NAXIS2`, the
header has no `EXPOSURE` (KeyError), `float()` cannot read `EXPOSURE`
(ValueError), and `EXPOSURE` is zero (ZeroDivisionError). A str operand, a zero
divisor and an unreadable `int()` or `float()` argument in the bin arithmetic are
errors too.

The wrap correction is not cumulative. `rev0/src/pyGROWTH.py:132-134` adds
2^FPGA_CLOCK_BIT (2^40, `WrapSpanValue`) only on the step where the time tag drops
below the previous one, and carries nothing forward to later events.
`ElapseNotCarriedPastWrap` shows the elapsed time falling again on the event after
a wrap.

## Model

| member | source | states |
|---|---|---|
| EventMetrics.WrapSpanValue | rev0/src/pyGROWTH.py:134 | 2^FPGA_CLOCK_BIT with FPGA_CLOCK_BIT = 40 is 0x100_0000_0000 |
| EventMetrics.ConvertToRoot | rev0/src/pyGROWTH.py:122-145 | fails exactly on an empty event table (the IndexError at the first-record read); otherwise the filled tree rows are the derived row sequence, proved by a loop invariant tying the loop's running state to the fold over the events processed so far |
| EventMetrics.EventTree.Fill | rev0/src/pyGROWTH.py:145 | appends exactly one row to the tree and changes nothing else |
| EventMetrics.EventTree.constructor | rev0/src/pyGROWTH.py:95 | a new tree has no rows |
| EventMetrics.Derive | rev0/src/pyGROWTH.py:129-145 | one derived row per input event |
| EventMetrics.RunRows | rev0/src/pyGROWTH.py:129-140 | after the loop, the previous time tag and trigger count are those of the last event and the first time tag is unchanged; row i is the step applied to the state left by events 0..i-1 |
| EventMetrics.DeriveRowAt | rev0/src/pyGROWTH.py:129-143 | row i, field by field: the time tag; t[i] - t[0], plus 2^40 only when t[i] < t[i-1]; t[i] - t[i-1]; trig[i] - trig[i-1]; phaMax and baseline copied |
| EventMetrics.DeriveCopiesEvents | rev0/src/pyGROWTH.py:129-145 | one row per event in input order, with the time tag, phaMax and baseline unchanged |
| EventMetrics.FirstRowIsZero | rev0/src/pyGROWTH.py:122-140 | the first row's elapsed time and both deltas are 0, because the previous values start at the first record |
| EventMetrics.WrapStepIsNegativeDelta | rev0/src/pyGROWTH.py:132-137 | the raw time-tag delta is negative exactly when the time tag dropped, and that is the only step whose elapsed time carries the 2^40 correction |
| EventMetrics.DeltasTelescope | rev0/src/pyGROWTH.py:136-140 | the deltaTimeTag values of rows 0..k sum to t[k] - t[0], and the deltaTriggerCount values to trig[k] - trig[0] |
| EventMetrics.ElapseWithoutWrap | rev0/src/pyGROWTH.py:132-134 | when the time tags never drop, every elapsed time is t[i] - t[0] and the elapsed times never decrease |
| EventMetrics.ElapseNotCarriedPastWrap | rev0/src/pyGROWTH.py:132-134 | concrete table 10, 4, 6: the wrap event gets 2^40 - 6 and the next event gets -4, so the correction is not carried |
| EventMetrics.TwoEventWrapScenario | rev0/src/pyGROWTH.py:122-140 | concrete two-event table with one wrap: elapsed 0 and 2^40 - 2, deltaTimeTag 0 and -2, deltaTriggerCount 0 and 1 |
| IntText.ParseShowRoundTrip | rev0/src/pyGROWTH.py:72 | int() reads back any integer written in decimal, whatever whitespace surrounds it |
| IntText.ParseIntOfNegative | rev0/src/pyGROWTH.py:72 | int() of whitespace, '-', digits and whitespace is minus the digits' value |
| IntText.ParseIntOfUnsigned | rev0/src/pyGROWTH.py:72 | int() of whitespace, digits and whitespace is the digits' value |
| IntText.ParseIntRejectsForeignChar | rev0/src/pyGROWTH.py:71-74 | a string holding any character other than a digit, whitespace or a sign makes int() raise |
| TextSplit.IndexOf | rev0/src/pyGROWTH.py:69 | the first index where the separator occurs, or none when it does not occur |
| TextSplit.Split | rev0/src/pyGROWTH.py:69 | split always yields at least one field |
| TextSplit.SplitJoin | rev0/src/pyGROWTH.py:69 | joining the fields with the separator gives back the original string |
| TextSplit.SplitFieldsFree | rev0/src/pyGROWTH.py:69 | no field contains the separator |
| TextSplit.SplitWithoutSeparator | rev0/src/pyGROWTH.py:69 | a string without the separator splits into itself alone |
| TextSplit.LastFieldAfterSeparator | rev0/src/pyGROWTH.py:69 | for a border-free separator, the last field of p + sep + t is t whenever t has no separator, whatever p holds |
| TextSplit.SplitCharFieldCount | rev0/src/pyGROWTH.py:69-70 | splitting on one character yields one field more than the string has occurrences of it |
| TextSplit.SplitTwoFields | rev0/src/pyGROWTH.py:69-70 | a + ':' + b with no ':' in a or b splits into exactly [a, b] |
| PyScalars.ToNum | rev0/src/pyGROWTH.py:305 | every value except a str is a Python number |
| PyScalars.Trunc | rev0/src/pyGROWTH.py:244 | int() of a float truncates toward zero |
| PyScalars.FloorDiv | rev0/src/pyGROWTH.py:160 | Python 2 int / int is the floor of the quotient, for either sign of the divisor |
| PyScalars.Sub | rev0/src/pyGROWTH.py:305 | a - b is exact, and is an int exactly when both operands are |
| PyScalars.Div | rev0/src/pyGROWTH.py:160 | a / b raises exactly on a zero divisor, is an int exactly when both operands are, an int quotient is the floor of the quotient for either sign of the divisor, and a float quotient times the divisor is the dividend |
| PyScalars.NumToInt | rev0/src/pyGROWTH.py:160 | int() keeps an int and truncates a float toward zero |
| PyScalars.PyInt | rev0/src/pyGROWTH.py:72-79 | int() of a number never raises: an int is kept, a bool is 0 or 1, and a float is truncated toward zero |
| PyScalars.PyFloat | rev0/src/pyGROWTH.py:244 | float() of any number succeeds and keeps an int's value |
| FloatText.ParseFloatOfPointed | rev0/src/pyGROWTH.py:244 | float() of whitespace, an optional '-', digits '.' digits and whitespace is the signed decimal value |
| FloatText.ParseFloatOfScientific | rev0/src/pyGROWTH.py:244 | float() of digits, an 'e' or 'E', an optional '-' and the exponent digits is the digits scaled by 10 to the signed exponent |
| FloatText.ScientificValue | rev0/src/pyGROWTH.py:244 | a mantissa without fraction digits and exponent e has the value digits * 10^e, for either sign of e |
| FloatText.ParseFloatOfShow | rev0/src/pyGROWTH.py:80 | float() reads back any integer written in decimal, whatever whitespace surrounds it |
| FloatText.ParseFloatRejectsForeignChar | rev0/src/pyGROWTH.py:244 | text holding a character other than a digit, whitespace, a sign, '.', 'e' or 'E' makes float() raise (inf/nan text aside, see Left out) |
| FloatText.ParseFloatOfPointedExample | rev0/src/pyGROWTH.py:244 | float("2.0") is 2.0 |
| FloatText.ParseFloatOfScientificExample | rev0/src/pyGROWTH.py:244 | float("1e-5") is 10^-5 |
| ResultDictionary.FirstIndex | rev0/src/pyGROWTH.py:76 | the index of the first card with the keyword, or none when no card has it |
| ResultDictionary.Lookup | rev0/src/pyGROWTH.py:76-79 | header[k] succeeds exactly when some card has keyword k |
| ResultDictionary.Texts | rev0/src/pyGROWTH.py:68-69 | all HISTORY values are usable as text exactly when every one is a str, and then they are those strs |
| ResultDictionary.HistoryEntry | rev0/src/pyGROWTH.py:69-74 | a stored entry's key always starts with DAQCONFIG_ |
| ResultDictionary.DaqConfig | rev0/src/pyGROWTH.py:68-74 | every key stored from the HISTORY lines starts with DAQCONFIG_ |
| ResultDictionary.HeaderEntries | rev0/src/pyGROWTH.py:65-76 | every key copied from a header keyword starts with HEADER_ |
| ResultDictionary.HistoryEntryIff | rev0/src/pyGROWTH.py:69-70 | a line stores an entry exactly when the text after its last marker holds exactly one ':' |
| ResultDictionary.HistoryEntryOfFields | rev0/src/pyGROWTH.py:69-74 | when the text after the last marker is name:field, the line stores DAQCONFIG_name with the int or text value of field |
| ResultDictionary.YamlLineParsed | rev0/src/pyGROWTH.py:69-74 | a line ending in marker + name:field stores DAQCONFIG_name whatever precedes the marker, including further markers |
| ResultDictionary.YamlIntLineParsed | rev0/src/pyGROWTH.py:69-72 | the line "... YAML-- name: n" stores DAQCONFIG_name as the int n |
| ResultDictionary.ConfigValueOfNumber | rev0/src/pyGROWTH.py:72 | the value text " n" is stored as the int n |
| ResultDictionary.ConfigValueFallsBackToText | rev0/src/pyGROWTH.py:71-74 | a value int() cannot read is stored as the raw text, leading space included |
| ResultDictionary.DaqConfigKeysFromLines | rev0/src/pyGROWTH.py:68-74 | every stored DAQCONFIG key comes from some HISTORY line |
| ResultDictionary.DaqConfigKeysOfLines | rev0/src/pyGROWTH.py:68-74 | every HISTORY line that stores an entry leaves its key in the dictionary |
| ResultDictionary.DaqConfigLastWins | rev0/src/pyGROWTH.py:68-74 | the stored value of a key is the one from the last line that stores it |
| ResultDictionary.DaqConfigAppend | rev0/src/pyGROWTH.py:68-74 | processing lines a then b gives a's entries overridden by b's |
| ResultDictionary.HistoryValuesMembers | rev0/src/pyGROWTH.py:68 | header['HISTORY'] holds exactly the values of the HISTORY cards |
| ResultDictionary.HeaderEntriesKeys | rev0/src/pyGROWTH.py:65-76 | HEADER_k is stored exactly when a card has keyword k and k is not HISTORY, and its value is header[k] |
| ResultDictionary.ResultKeysNamespaced | rev0/src/pyGROWTH.py:63-80 | every key is HEADER_..., DAQCONFIG_..., TOTAL_COUNTS or RAW_RATE, and HEADER_HISTORY is never stored |
| ResultDictionary.ResultHeaderKeys | rev0/src/pyGROWTH.py:65-76 | in the finished dictionary, HEADER_k is present exactly for the non-HISTORY keywords and holds header[k] (the first card) |
| ResultDictionary.ResultDaqKeys | rev0/src/pyGROWTH.py:63-80 | the dictionary's DAQCONFIG_ entries are exactly those the HISTORY lines store, with the same values |
| ResultDictionary.ResultTotalCounts | rev0/src/pyGROWTH.py:79 | TOTAL_COUNTS is int(header['NAXIS2']) |
| ResultDictionary.ResultFailures | rev0/src/pyGROWTH.py:65-79 | it raises on a non-str HISTORY value exactly when one exists, and on NAXIS2 only when it is missing or int() cannot read it |
| ResultDictionary.ExposureEntry | rev0/src/pyGROWTH.py:76-80 | result['HEADER_EXPOSURE'] is present exactly when the header has EXPOSURE, and is header['EXPOSURE'] |
| ResultDictionary.ResultRawRate | rev0/src/pyGROWTH.py:80 | in a built dictionary, NAXIS2 and EXPOSURE read as floats, EXPOSURE is nonzero, and RAW_RATE is their quotient |
| ResultDictionary.ResultRateFailures | rev0/src/pyGROWTH.py:80 | the RAW_RATE line raises ValueError on NAXIS2 only when float() cannot read it, KeyError only without EXPOSURE, ValueError on EXPOSURE only when float() cannot read it, and ZeroDivisionError only when EXPOSURE is zero |
| ResultDictionary.ResultSucceeds | rev0/src/pyGROWTH.py:65-80 | the dictionary is built exactly when every HISTORY value is a str, int() and float() read NAXIS2, and float() reads EXPOSURE as a nonzero number |
| ResultDictionary.ZeroExposureRaises | rev0/src/pyGROWTH.py:80 | a header with NAXIS2 = 3 and EXPOSURE = 0.0 raises ZeroDivisionError |
| ResultDictionary.StoreHistory | rev0/src/pyGROWTH.py:68-74 | the inner loop fails exactly when some HISTORY value is not a str; otherwise it adds the entries of all lines to the dictionary |
| ResultDictionary.SetResultDictionary | rev0/src/pyGROWTH.py:63-80 | the loop with its history flag leaves the dictionary the declarative definition gives, or raises the same error |
| Histograms.LightCurveBinCount | rev0/src/pyGROWTH.py:160 | separates the three failures: int() of the exposure fails, LC_TBIN is a str, or LC_TBIN is zero |
| Histograms.LightCurveBinsCoverExposure | rev0/src/pyGROWTH.py:160 | for a non-negative exposure and a positive bin width, nbin bins fit in the exposure and nbin + 1 would not |
| Histograms.NegativeExposureRounding | rev0/src/pyGROWTH.py:160 | when the quotient is not whole, a negative exposure gives nbin rounded down with an int LC_TBIN, and toward zero (one more) with a float one |
| Histograms.DeltaTimeTagBinCount | rev0/src/pyGROWTH.py:244 | raises ValueError exactly when float() cannot read one of the two settings, ZeroDivisionError exactly when both read and the bin width is zero, and never fails on two numbers |
| Histograms.DeltaTimeTagReadsText | rev0/src/pyGROWTH.py:244 | settings given as the text "2.0" or "1e-5" are read as those numbers |
| Histograms.DeltaTimeTagBinsCoverRange | rev0/src/pyGROWTH.py:244 | nbin * DELTAT_TBIN <= DELTAT_PLOT_XMAX < (nbin + 1) * DELTAT_TBIN |
| Histograms.DeltaTriggerCountBinCount | rev0/src/pyGROWTH.py:281 | an int maximum is the bin count itself; a float one is truncated toward zero; only an unreadable str fails |
| Histograms.DeltaTriggerCountReadsText | rev0/src/pyGROWTH.py:281 | a maximum given as decimal text is read as that integer |
| Histograms.SpectrumBinCount | rev0/src/pyGROWTH.py:305 | with int bounds the bin count is exactly xmax - xmin; otherwise it is the difference truncated toward zero; a str bound fails |
| Histograms.Histogram.constructor | rev0/src/pyGROWTH.py:189 | a new histogram has nbins regular bins plus underflow and overflow, all with content and error 0 |
| Histograms.Histogram.SetBinContent | rev0/src/pyGROWTH.py:192 | sets one content bin and no other |
| Histograms.Histogram.SetBinError | rev0/src/pyGROWTH.py:193 | sets one error bin and no other |
| Histograms.Scaled | rev0/src/pyGROWTH.py:191-193 | each rescaled bin times the divisor gives back the original bin |
| Histograms.Divisor | rev0/src/pyGROWTH.py:191-193 | a divisor is usable exactly when it is a nonzero number; a str divisor raises TypeError |
| Histograms.RescaleBins | rev0/src/pyGROWTH.py:191-193 | bins 0..nbins of content and error become the source's divided by the divisor, the overflow bin is left as it was, and a str or zero divisor raises before any bin is changed |
| Histograms.Positives | rev0/src/pyGROWTH.py:210-212 | the values fed are all positive, and there are no more of them than bins |
| Histograms.PositiveIndices | rev0/src/pyGROWTH.py:210-212 | the indices listed are bin indices |
| Histograms.PositiveIndicesArePositive | rev0/src/pyGROWTH.py:211 | every listed bin has content > 0 |
| Histograms.PositiveIndicesIncrease | rev0/src/pyGROWTH.py:210 | bins are listed in strictly increasing index order |
| Histograms.PositiveIndicesComplete | rev0/src/pyGROWTH.py:210-211 | every bin with content > 0 is listed |
| Histograms.PositivesAtIndices | rev0/src/pyGROWTH.py:210-212 | the values fed are exactly the contents of the listed bins, in order |
| Histograms.FillLog.Fill | rev0/src/pyGROWTH.py:212 | records one more fill value |
| Histograms.FillPositiveBins | rev0/src/pyGROWTH.py:210-212 | fills the count distribution with exactly the positive contents of bins 0..nbins, in index order |

## Left out

- FITS file opening and the YAML configuration load (lines 34–58) are file I/O through pyfits and PyYAML. The EVENTS header that lines 65–80 and 119 read is a parameter, a sequence of cards.
- `makeOutputDirectory` (lines 82–88) runs `rm -rf` and `mkdir` through the shell, which is filesystem housekeeping.
- The ROOT tree's branch declarations and buffers (lines 95–113) are not modelled as storage. Rows keep mathematical integers, so a negative delta stays negative; the tree declares these branches unsigned 64-bit and would store its bit pattern. numpy `int64` overflow is not modelled.
- The progress bar (lines 115–120 and 147–153) is display only. Its `evtnum % TOOLBAR_BASE` raises ZeroDivisionError for tables with fewer than 40 events; that exception is not modelled.
- The `FPGA_CLOCK_PERIOD` scaling inside the `Draw` expressions is float arithmetic.
- How `ttree.Draw` bins the tree into histograms, `TCanvas` drawing and PDF printing are done inside ROOT, whose fill and edge rules are not visible here. The source histograms of the rescale and filter loops are parameters.
- The `pol0`, `expo` and `gaus` fits and their NDF, chi-square and parameter errors (lines 169–182, 194–198, 215–230, 254–271) run in ROOT's Minuit fitter on floating point.
- The YAML dump, the ROOT file write and close, and the `sleep` (lines 337–363) are I/O.
- Floating point is modelled as exact `real` arithmetic; rounding in `/` and in the rescaled bins is not modelled.
- FloatText.ParseFloatRejectsForeignChar: the letters of `inf`, `infinity` and `nan` are foreign characters here, although `float()` accepts those words (next line).
- FloatText.ParseFloat: `float()` also reads `inf`, `infinity` and `nan` text in any case; a real cannot hold those values, so the model treats such text as a ValueError.
- Histograms.DeltaTimeTagBinCount: numeric text is parsed as `float()` parses it; only `inf`/`nan` text, which `float()` accepts, is reported as NotConvertible.
- IntText.ParseInt: models `int()` of a byte string, which is what the HISTORY lines are. `int()` of a unicode object also reads non-ASCII decimal digits; that case is not modelled.
- ResultDictionary.Lookup: for any COMMENT or blank keyword pyfits returns the commentary-card view of all such cards (the model does this for HISTORY, which the code uses); for every other keyword the model returns the first card's value.
- Dictionary and configuration lookups (`self.result[...]`, `self.config[...]`) take their values as parameters, so the KeyError of a missing key is not modelled in the bin arithmetic.
- Histograms.RescaleBins: checks the divisor once before the loop. Because the loop always runs at least once, this raises at the same point as the source. ROOT's handling of out-of-range bin indices and its coercion of a bin count below 1 are not modelled; the source and destination must have the same bin count, as they do in the source.
- The `TH1I` count-distribution histogram (lines 207–208) is modelled only as the sequence of values passed to `Fill`; its binning is done inside ROOT.
