# Splitters, tables, atoms, requests and owned resources

A Dafny model of the stateful utilities of the balancer's `util/` library, with proofs over all inputs, all
runs or all reachable states. Code that works in place is a method on arrays or a class with `modifies`
clauses, and its contract ties the new state to a specification function. The laws are then proved about that
function.

| component | files | main results |
|---|---|---|
| Line splitters (`TLineSplitter`) | `CStrings`, `Separators`, `SplitTheory`, `LineSplitters`, `LineSplitterLaws` | `InPlaceSplit`, `NoEmptyLaw`, `ConstLength` |
| Field splitters (`sf` with a string or a tab) | `FieldSplit`, `FieldSplitLaws` | `CallDelivered`, `SameAsLineSplitter` |
| Token splitters (`sf` with a set, a blank, a character) | `Tokens`, `AwkSplit` | `TokensDelivered`, `BlankDelivered`, `BlankSameAsSplitter`, `CharLaw` |
| On-disk table of rows | `Array2d`, `Array2dWriter`, `Array2dReader`, `Array2dLaws` | `Save`, `LengthsIff`, `ZeroOffsetReads`, `MinusOneReads` |
| Atomizer | `AtomStore`, `AtomRuns`, `Atomizer` | `RunNames`, `RunGoodIff`, `CopyFindsIff`, `NeverRenumbered` |
| Atomizer text file | `Decimal`, `AtomText`, `AtomTextLaws`, `AtomReload` | `SaveLoadIff`, `ReloadIff` |
| Print buffer (`prnstr`) | `PrintBuffer` | `RunBounds` |
| HTTP request target and headers | `RequestTarget`, `RequestHeaders`, `RequestData` | `ParseIff`, `AddressRoundTrip`, `PortIsCurrentIff` |
| File ownership (`TFILEPtr`) | `FileHandles`, `FilePtr` | `AllClosedIff` |
| Exception-safe arrays (`autoarray`) | `ArrayStorage`, `AutoArray` | `NothingLeftIff`, `AutoArray.Resize`, `AutoArray.Copied` |

How memory is modelled:

- A C string is the text of a buffer up to its first NUL. A pointer is null or an index into its buffer.
- The atomizer's pool is a block of bytes at a base address which the allocator chooses. Pointers are plain
  numbers, so a pointer that was not moved along with the pool really does miss.
- File handles and storage blocks are addresses that may be handed out again after being released.
- An element is a sequence of `w` bytes, an offset is 32 bits wide, and both are stored with the low byte first.

Where the code does not do what one would expect of it, the model follows the code. A lemma then says, for all
inputs, exactly when the expectation is met:

- Of an empty text `TLineSplitter` reports no field, not the one empty field of its split (`InPlaceSplit`).
- `sf` with a separator string that has a newline inside runs over the end of the line (`LineWiseIff`).
- Leaving out empty fields with a separator of several characters also leaves out fields that begin with the
  separator's first character (`NoEmptyLaw`, `NoEmptyLosesField`).
- The reading overload of `TLineSplitter` reports a field's length only up to the separator's first character
  (`ConstLength`).
- `sf` with a character drops empty fields, but not the last one (`CharLaw`).
- `sf_blank` never takes its carriage-return branch (`SplitBlank`). A newline ends its scan only directly after
  a token (`BlankDelivered`).
- A table reads back right for start offset 0 or -1 only, and up to a bound that differs between the two
  (`LengthsIff`).
- When the pool moves, the hash shifts all its keys, also those of permanent strings which are not in the pool.
  The order vector shifts only what lay in the pool, so names stay right (`RunNames`), hash and order may differ
  (`CopyGoodIff`, `RunGoodIff`), and look-ups fail for the keys that do not read as their names at the shifted
  address (`CopyFindsIff`, `MixedRunLosesAtom`).
- The atom is cut to 32 bits: the insertion that makes 2^32 entries issues atom 0 (`PermGoodIff`, `IssuedName`).
- A line of the atom file longer than 999 characters, or a name with a newline, does not survive saving and
  loading (`SaveLoadIff`, `ReloadIff`).
- After loading a sparse atom file, an atom above the number of names is found but not named (`NamedIff`).
- A negative answer of the formatter is added to the position of a `prnstr`, which so loses characters
  (`PrnStr.F`).
- A path that still ends in a slash loses it when the page address is parsed again (`AddressRoundTrip`).
- A `Host` line without a port leaves the port of an earlier one standing (`PortIsCurrentIff`, `StalePort`).
- The page address is kept from the first call on, whatever is parsed later (`GetCurPage`).
- A `TFILEPtr` that is assigned a raw file at the address it already points to does not become its owner
  (`AllClosedIff`, `StaleBorrowerLeaks`).
- An array created without filling destroys elements that were never built, unless the program builds them
  (`NothingLeftIff`, `UnbuiltIsDestroyed`).

`Basics` holds what all of them share. `dafny verify dfyconfig.toml` checks the whole project.

## Model

| member | source | states |
|---|---|---|
| LineSplitters.Brk | util/string/util.h:83-91 | the search returns the first position holding a character of the set, or the end of the string |
| CStrings.SpacesAre | util/ffb.cpp:203-204 | white space is the blank and the five characters from tab to carriage return |
| LineSplitters.LineSplitter.SplitInPlace | util/ffb.cpp:164-182 | for every buffer, also null or empty: the starts of the reported fields are appended, none for an empty text, and a zero stands after every field of the scan and nothing else changes |
| LineSplitters.LineSplitter.SplitConst | util/ffb.cpp:184-201 | the reading overload appends the same starts, each with the distance to the first pause of the scan, none for an empty text, and changes no buffer |
| SplitTheory.SplitIsLeftmost | util/ffb.h:140-142 | the reference split glues back to the text and cuts at every leftmost, non-overlapping occurrence |
| SplitTheory.SplitUnique | util/ffb.h:140-142 | only one list of fields is a leftmost split of a text |
| SplitTheory.LineWiseIff | util/ffb.cpp:122-130 | scanning stops at the newline, that is, every text is split as its first line is, if and only if the separator has no newline after a first character that is none |
| SplitTheory.LeavesLine | util/ffb.cpp:122-130 | for each other separator a text on which the scan runs over the end of the line |
| LineSplitterLaws.DeliveredTexts | util/ffb.cpp:164-182 | reading the reported starts in the cut buffer gives the texts of the reported fields in the uncut one |
| LineSplitterLaws.InPlaceSplit | util/ffb.cpp:164-182 | with empty fields kept, what a caller reads is the leftmost split, which joined with the separator restores the text, if and only if there is text; it is then the only such list, and of an empty text no field is delivered |
| LineSplitterLaws.NoEmptyLaw | util/ffb.cpp:164-182 | with empty fields left out, fields that begin with the separator's first character go too; all non-empty fields are delivered if and only if none begins so, and always for one-character separators and sets |
| LineSplitterLaws.NoEmptyLosesField | util/ffb.cpp:170-172 | a one-field line that yields no field |
| LineSplitterLaws.PauseLength | util/ffb.cpp:189-192 | the scan first pauses at the field's end if and only if the field lacks the separator's first character |
| LineSplitterLaws.ConstLength | util/ffb.cpp:184-201 | of every reported field both overloads report the same start; the reported length runs up to the first character of the field that can begin a separator, and is the true one if and only if there is none |
| FieldSplit.SplitByString | util/ffb.cpp:116-135 | count, pointer array and buffer after the call are those of splitting the line at the string, for every limit, also after the narrowing of `fb_sz` to `int` |
| FieldSplit.SplitByTab | util/ffb.cpp:52-69 | the same for a tab |
| FieldSplit.SplitByTab32 | util/ffb.cpp:34-50 | the two-argument form does what the general one does at 32 |
| FieldSplit.LimitWraps | util/ffb.cpp:54-57 | the bound of the loops is the number of 32 bits that differs from `fb_sz - 1` by a multiple of 2^32, for every 64-bit size |
| FieldSplitLaws.FieldsDelivered | util/ffb.cpp:52-69 | the `n` pointers increase, lie in the buffer and read back as the expected texts, a null pointer follows, and the rest of `fb` is as it was |
| FieldSplitLaws.CallDelivered | util/ffb.cpp:116-135 | so for every call with a field, at every limit |
| FieldSplitLaws.FieldsOfLine | util/ffb.cpp:116-135 | the fields are the leftmost split of the text up to its first newline |
| FieldSplitLaws.ChompCuts | util/ffb.cpp:65 | what is cut off the last field is one carriage return, and only before a newline |
| FieldSplitLaws.BufferKept | util/ffb.cpp:52-69 | the buffer changes by zeros only, and not at all after the end of the last field |
| FieldSplitLaws.NarrowCount | util/ffb.cpp:57-68 | a size that narrows to a bound of one or less gives one field with an empty text |
| FieldSplitLaws.LimitedCount | util/ffb.cpp:57-68 | with room for two or more pointers the count is the smaller of the fields and `fb_sz - 1`, all texts but the last are exact, and the last is empty as soon as the fields reach `fb_sz - 1` |
| FieldSplitLaws.ExpectedAll | util/ffb.cpp:65-66 | below the limit all texts are exact, if and only if the last field does not end in a carriage return before the newline |
| FieldSplitLaws.SameAsLineSplitter | util/ffb_ut.cpp:114-240 | below the limit, on lines without newline, the texts are those of the in-place line splitter |
| FieldSplitLaws.ReturnsUnique | util/ffb.cpp:34-69 | the results of a call are determined by its arguments, so the two tab forms agree at 32 |
| Tokens.CBrk | util/string/util.h:98-105 | the search returns the first position holding no character of the set, or the end of the string |
| Tokens.RunsMaximal | util/ffb.h:83-86 | the tokens are maximal runs free of separators, and every other character lies in one of them |
| Tokens.SplitBySet | util/ffb.cpp:141-162 | count, pointer array and buffer after the call are those of closing the first tokens that fit, also for a null buffer and no room |
| Tokens.TakenIs | util/ffb.cpp:150 | the number of tokens taken is the smaller of their count and the size, for sizes up to 2^31; larger sizes count modulo 2^32, and as negative from 2^31 on |
| Tokens.TokenBuffer | util/ffb.cpp:141-162 | the buffer changes by zeros only, right after each token taken and nowhere else |
| Tokens.WordsAreNonEmpty | util/ffb.cpp:164-182 | the tokens are the non-empty fields of the split that keeps empty ones |
| Tokens.NoEmptyDeliversWords | util/ffb.cpp:164-182 | the line splitter over a set that leaves out empty fields delivers the tokens |
| Tokens.TokensDelivered | util/ffb.cpp:141-162 | the pointers read back as the first tokens that fit, which are the first fields of that line splitter; a null pointer follows and the rest of `fb` is as it was |
| AwkSplit.SplitBlank | util/ffb.cpp:71-91 | count, pointer array and buffer after the call; the carriage-return branch is never taken |
| AwkSplit.BlankIsLineTokens | util/ffb.cpp:71-91 | on every text the fields are the white-space tokens up to the first one that a newline follows directly |
| AwkSplit.LineTokensAre | util/ffb.cpp:77 | no counted token but the last has a newline right after it, and the last has one if others follow |
| AwkSplit.BlankTokens | util/ffb.h:74-76 | every field is a maximal run without white space |
| AwkSplit.BlankDelivered | util/ffb.cpp:71-91 | at every limit the pointers read back as those tokens, the last one empty if the limit was hit |
| AwkSplit.BlankSameAsSplitter | util/ffb.cpp:203-208 | below the limit, on text without newline, the texts are all white-space tokens, as from the splitter that `TSFReader` builds for a blank |
| AwkSplit.SplitByChar | util/ffb.cpp:93-114 | count, pointer array and buffer after the call; a blank is passed on to `sf_blank` |
| AwkSplit.CharDelivered | util/ffb.cpp:93-114 | at every limit the pointers read back as the expected texts of its fields |
| AwkSplit.CharIsSqueezed | util/ffb.cpp:93-114 | from every field start the fields are those of the split without its empty ones, but with its last one |
| AwkSplit.CharInLine | util/ffb.cpp:93-114 | the fields of a text are those of the line at its front |
| AwkSplit.CharFields | util/ffb.cpp:93-114 | the fields of every call are those of the split of the first line, without its empty ones but with its last; with the newline as separator, the first token between newlines |
| AwkSplit.CharNothing | util/ffb.cpp:96-97 | no field is reported if and only if the line, or with the newline as separator the text, is separators only |
| AwkSplit.CharLaw | util/ffb.h:74-77 | on a line without newline the fields are those of the exact split if and only if no field but the last is empty |
| Array2d.Le32RoundTrip | util/array2d_writer.h:46-53 | a 32-bit number read back from its four bytes is the number |
| Array2d.Le32At | util/array2d_writer.h:46-53 | byte i of a stored number is its digit i to the base 256, the low one first |
| Array2dWriter.TFile2DArrayWriter.constructor | util/array2d_writer.h:55-70 | any start offset, reduced to 32 bits, begins one empty row |
| Array2dWriter.TFile2DArrayWriter.NewLine | util/array2d_writer.h:82-86 | the files then hold one more, empty row |
| Array2dWriter.TFile2DArrayWriter.Write | util/array2d_writer.h:89-93 | the files then hold one more element in the last row |
| Array2dWriter.TFile2DArrayWriter.Finish | util/array2d_writer.h:96-116 | the finished file is the image of all rows written: element size, row count, wrapped offsets, data |
| Array2dWriter.Save | util/array2d_writer.h:55-116 | any list of rows, written by a whole run from any start offset, becomes its image |
| Array2dReader.FileMapped2DArray.InitSelf | util/array2d.h:112-124 | accepts a file exactly if the bytes after the offsets are whole elements, and otherwise clears its fields |
| Array2dLaws.AcceptsIff | util/array2d.h:112-124 | a file whose data part is n elements and k bytes more is accepted if and only if k is zero; the reader counts n elements |
| Array2dLaws.ShortFileIff | util/array2d.h:119 | a file shorter than its offset table is accepted if and only if the size, wrapped to 64 bits, is a multiple of the element size |
| Array2dLaws.HeaderRead | util/array2d_writer.h:96-103 | the image begins with the element size and the number of rows |
| Array2dLaws.PastTheRows | util/array2d.h:79-109 | for rows past the last the reader answers with the dummy element and null pointers |
| Array2dLaws.ImageMaps | util/array2d.h:112-124 | the image of any rows is accepted, with the right number of rows and elements |
| Array2dLaws.Lengths | util/array2d.h:56-109 | row pointers and row lengths in terms of the stored, wrapped offsets, for every start offset |
| Array2dLaws.LengthsIff | util/array2d.h:97-109 | all row lengths are read back right if and only if the start is 0 and every row begins before element 2^32-1, or the start is -1 and every row begins before element 2^32 |
| Array2dLaws.ElementRead | util/array2d.h:79-86 | every element is found at its position in the data |
| Array2dLaws.RowRead | util/array2d.h:56-72 | in range, a row's pointer is where its elements begin, less one in the -1 layout |
| Array2dLaws.ZeroOffsetReads | util/array2d.h:79-96 | start 0: `GetAt(r, j)` is element j of row r, the dummy element past the data, and `GetBegin`/`GetEnd` enclose the row |
| Array2dLaws.MinusOneReads | util/array2d.h:56-109 | start -1: element j of row r is read at `j + 1`, lengths are right, and `GetEnd - GetBegin` is one larger on the last row only |
| AtomStore.AppendKeeps | util/generic/buffer.h:90-101 | wherever the pool moves, each of its strings is found moved along with it, and strings outside stay |
| AtomStore.AppendMoves | util/generic/buffer.h:90-101 | a string that fits leaves base and room of the pool as they are; one that does not moves it, with the least power of two of room that is twice what is needed |
| AtomStore.CopyKeepsNames | util/atomizer.h:42-55 | a copying insertion keeps the name of every earlier atom |
| AtomStore.PermKeepsNames | util/atomizer.h:57-64 | so does a permanent one |
| AtomStore.PermGoodIff | util/atomizer.h:57-64 | a permanent insertion keeps hash and order in agreement if and only if the string is present or an atom is left for it |
| AtomStore.CopyBreaks | util/str_map.h:13-27 | a copying insertion that moves the pool leaves a permanent key shifted in the hash and unshifted in the order |
| AtomStore.CopyGoodIff | util/str_map.h:13-27 | a copying insertion keeps hash and order in agreement if and only if the string is present, or an atom is left for it and the pool stays or all keys lie in the pool |
| AtomRuns.FirstHitLooksUp | util/atomizer.h:65-72 | the look-up finds an entry with that name, or there is none |
| AtomRuns.Bijection | util/atomizer.h:65-78 | in an intact store `find_atom` and `get_atom_name` are inverse to each other, and the atoms are 1 up to the size |
| AtomRuns.StepIssues | util/atomizer.h:42-64 | an insertion returns the string's old atom and changes nothing, or issues the next number, under which the string is then found |
| AtomRuns.IssuedName | util/atomizer.h:73-78 | the atom returned names the string, also after an insertion that loses other keys, if and only if the string is present or an atom is left for it |
| AtomRuns.NotFound | util/atomizer.h:65-72 | an atom whose key does not read as its name is not found under that name |
| AtomRuns.FindsAllIff | util/atomizer.h:65-78 | all atoms are found under their names if and only if every key of the hash reads as the name in the order vector |
| AtomRuns.CopyFindsIff | util/str_map.h:13-27 | after a copying insertion of a new string into an intact store all atoms are found if and only if each key outside the pool reads as its name at the address to which it was shifted |
| AtomRuns.FittingCopyFindsAll | util/str_map.h:17-24 | a copying insertion that fits the pool keeps every atom found, permanent strings included |
| AtomRuns.NamedAtoms | util/atomizer.h:73-78 | the atoms with a name are 1 up to the size and no others |
| AtomRuns.RunNames | util/atomizer.h:42-64 | over any interleaving of both insertions, wherever the pool moves, every earlier atom keeps its name |
| AtomRuns.RunGoodIff | util/atomizer.h:42-64 | hash and order agree after every step of a run if and only if every insertion of it is safe |
| AtomRuns.CopiesAreSafe | util/atomizer.h:42-55 | copying insertions alone are safe if and only if fewer than 2^32 entries come out |
| AtomRuns.PermsAreSafe | util/atomizer.h:57-64 | permanent insertions alone are safe under the same condition |
| AtomRuns.EndsGood | util/atomizer.h:42-64 | a run that keeps the store intact ends with hash and order in agreement |
| AtomRuns.NeverRenumbered | util/atomizer.h:65-72 | over such a run a name stays found under its atom |
| AtomRuns.MixedRunLosesAtom | util/atomizer.h:42-64 | a permanent string that is no longer found after one copying insertion, although its atom still names it |
| Atomizer.Atomizer.Find | util/atomizer.h:65-72 | the loop finds the first entry of that name |
| Atomizer.Atomizer.ShiftKeys | util/str_map.h:20-23 | every key of the hash but the inserted one is moved |
| Atomizer.Atomizer.Repoint | util/atomizer.h:48-51 | exactly the order entries that lay in the old pool are moved |
| Atomizer.Atomizer.InsertCopy | util/str_map.h:13-27 | pool and hash after inserting a new string |
| Atomizer.Atomizer.StringToAtom | util/atomizer.h:42-55 | the whole store after the call, and the atom returned, also for a key in the pool that is present or need not move |
| Atomizer.Atomizer.PermStringToAtom | util/atomizer.h:57-64 | the same for permanent strings |
| Decimal.DigitsValue | util/atomizer.h:87 | the decimal text of a number consists of digits and stands for the number |
| Decimal.StrToLReads | util/atomizer.h:94 | a number at the front of a text is read back, up to the character after it |
| Decimal.StrToLIs | util/atomizer.h:94 | of white space, a sign, digits and a rest the signed value is read, held within the bounds of `long`, up to the end of the digits |
| Decimal.StrToLNothing | util/atomizer.h:94 | without a digit nothing is read |
| Decimal.StrToLPositive | util/atomizer.h:94-98 | an accepted number came from at least as many characters as its decimal text has |
| AtomText.SaveC2N | util/atomizer.h:84-88 | the file holds one line for each atom of the store that has a name, in order |
| AtomTextLaws.LineIs | util/atomizer.h:87 | a line is the number up to its first tab and the name up to its end |
| AtomTextLaws.RecordsAre | util/atomizer.h:85-87 | every line written is that of an atom with a name |
| AtomTextLaws.RecordsAll | util/atomizer.h:85-87 | every atom with a name has its line, whatever other entries are empty |
| AtomTextLaws.RecordsIncrease | util/atomizer.h:84-88 | the lines come in the order of the atoms |
| AtomText.ReadRecords | util/atomizer.h:90-102 | the loop enters the accepted records of all chunks and finds the greatest atom, also in a file with zeros |
| AtomText.LoadC2N | util/atomizer.h:89-107 | hash and order after loading a file into an empty atomizer |
| AtomTextLaws.ChunkIs | util/atomizer.h:91-93 | what is read at once ends after the first newline, after 999 characters or with the file, whichever comes first |
| AtomTextLaws.AcceptedIff | util/atomizer.h:94-98 | a number is taken if and only if it is positive and less than the largest `long` |
| AtomTextLaws.ParseAfterZero | util/atomizer.h:94-100 | a zero right after the number is skipped like any other character |
| AtomTextLaws.ParseBeforeZero | util/atomizer.h:94-100 | a zero after the name ends it |
| AtomTextLaws.EnteredFirst | util/atomizer.h:100 | a name keeps the number of the first record that has it |
| AtomTextLaws.GreatestIn | util/atomizer.h:99 | the size of the order vector is the greatest number taken, or zero |
| AtomTextLaws.SlotWraps | util/atomizer.h:106 | atom 1 has the first slot, and atom 0 the last one of 32 bits |
| AtomTextLaws.ParseRecord | util/atomizer.h:93-101 | a number, a tab and a name, with or without newline, are read as that record |
| AtomTextLaws.LinesTaken | util/atomizer.h:93-102 | lines that fit are read as their records |
| AtomTextLaws.LoadRestores | util/atomizer.h:84-107 | if all lines fit, loading them in any order gives the numbering back in hash and order, and nothing else can come out |
| AtomTextLaws.SaveLoadIff | util/atomizer.h:84-107 | loading the lines in any order gives the numbering back if and only if no name holds a newline and every line has at most 999 characters |
| AtomTextLaws.SaveThenLoad | util/atomizer.h:84-107 | the same condition for the file that `SaveC2N` writes |
| AtomTextLaws.ParsePlain | util/atomizer.h:94-100 | in a chunk without zeros the name runs from one past the number up to the newline |
| AtomReload.AnswersFit | util/atomizer.h:84-107 | a store whose look-ups survive a file has only lines that fit |
| AtomReload.ReloadIff | util/atomizer.h:84-107 | an intact store, saved and loaded, finds the same atoms under all names if and only if every line fits; then `get_atom_name` answers the same for every atom, in whatever order the hash is walked |
| AtomReload.NamedIff | util/atomizer.h:73-78 | after loading any file, a name with an atom of its own is the name of that atom if and only if the atom is not above the number of names |
| AtomReload.SparseFile | util/atomizer.h:73-107 | a loaded file after which a name is found under an atom that has no name |
| PrintBuffer.PrnStr.constructor | util/ffb.h:224-225 | an empty buffer with the given, positive room |
| PrintBuffer.PrnStr.Grow | util/ffb.cpp:313-319 | the doubling loop ends at the first doubling with room for the text and its zero, and the contents are copied once |
| PrintBuffer.DoubledFirst | util/ffb.cpp:314 | the loop ends at the first doubling that is large enough |
| PrintBuffer.AppendIs | util/ffb.cpp:310-323 | an append reallocates if and only if the text and its zero do not fit, to the first doubling with room, and then copies what was there |
| PrintBuffer.PrnStr.S | util/ffb.cpp:310-323 | contents are the old ones and the text, with a zero behind; a null text changes nothing |
| PrintBuffer.PrnStr.F | util/ffb.cpp:293-309 | contents are the old ones and the whole formatted text, also when the first attempt was cut off; an error code is added to the position, and what is left are the contents before it |
| PrintBuffer.PrnStr.Restart | util/ffb.h:237 | empty contents, with a zero, in the room there is |
| PrintBuffer.PrnStr.Clear | util/ffb.cpp:324-331 | empty contents, and at most 32768 characters of room |
| PrintBuffer.AppendBounded | util/ffb.cpp:310-323 | one append keeps the bounds on room and copying |
| PrintBuffer.RunBounds | util/ffb.cpp:310-323 | over any run of appends the room is at most what it was or four times the contents, and reallocations copied at most twice the contents |
| RequestTarget.PartsParsed | util/httpreqdata.h:160-186 | blanks, extra slashes, path, dropped slash, query, fragment and rest, glued together, parse into that path and query |
| RequestTarget.BlanksAre | util/httpreqdata.h:164 | blanks are the blank and the tab |
| RequestTarget.SeenText | util/httpreqdata.h:160-186 | a request that parses is rebuilt from the parts found in it |
| RequestTarget.ParseIff | util/httpreqdata.h:160-186 | a request parses into a path and a query if and only if it is such a text with that path and query; it parses at all if and only if its first character after blanks is a slash |
| RequestTarget.AddressRoundTrip | util/httpreqdata.h:142-186 | the address of a parsed target always parses, to the same query, and to the same path if and only if the path is the root or does not end in a slash |
| RequestHeaders.LastHeaderWins | util/httpreqdata.h:63-68 | over any header lines, the value found is that of the last line whose name differs from the key in the case of ASCII letters only |
| RequestHeaders.SameNameIff | util/httpreqdata.h:16 | names are taken for equal if and only if they have the same length and every two characters are equal or the two forms of one ASCII letter |
| RequestHeaders.ParseBlanks | util/httpreqdata.h:190-196 | a name, a colon, blanks and a value are taken apart into name and value |
| RequestHeaders.ParseHeaderIff | util/httpreqdata.h:190-196 | every line with a colon is of that form, and a line without one is no header |
| RequestHeaders.HostAndPort | util/httpreqdata.h:188-204 | the host is that of the last `Host` line, the port that of the last `Host` line with a port |
| RequestHeaders.PortIsCurrentIff | util/httpreqdata.h:198-203 | the port belongs to the last `Host` line if and only if that line has one or no earlier one left a port behind |
| RequestHeaders.HostPortPlain | util/httpreqdata.h:198-203 | a host without colon, with or without a port, is taken apart into them |
| RequestHeaders.StalePort | util/httpreqdata.h:198-203 | two `Host` lines after which the first one's port stands beside the second one's host |
| RequestData.TServerRequestData.AddHeader | util/httpreqdata.h:188-204 | headers, host and port after cutting any line in place |
| RequestData.TServerRequestData.SetHost | util/httpreqdata.h:39-42 | host and port are replaced, the port by the decimal text of the 16-bit number |
| RequestData.TServerRequestData.Parse | util/httpreqdata.h:160-186 | succeeds exactly if the request parses; then the pointers into the cut copy read back as path and query, otherwise they are as before |
| RequestData.TServerRequestData.GetCurPage | util/httpreqdata.h:142-158 | the address of the current target, or the one kept from an earlier call, or nothing without a host |
| RequestData.AuthorityParts | util/httpreqdata.h:144-150 | after `http://` the authority is taken apart again into the host and, if it is not empty, the port |
| RequestData.PageParts | util/httpreqdata.h:144-156 | a page address is taken apart at the first slash after the scheme into authority and target address |
| FileHandles.StepKeeps | util/fgood.h:60-158 | every operation keeps: each open file is held raw, owned by exactly one object, or lost; no file is closed twice or by the wrong call; a file is lost in one named case only |
| FileHandles.OnlyOwnersClose | util/fgood.h:146-158 | an operation closes at most one file: an open one, by the call of its kind, that an object owned and then no longer owns |
| FileHandles.Points | util/fgood.h:60-158 | what an object holds after each operation: the file it was given, as borrower after a copy and as owner of a raw or opened file, what it held if it pointed there already, and nothing after a closing, also one that threw |
| FileHandles.OthersKept | util/fgood.h:60-158 | an operation leaves all other objects as they are, and a destroyed one is gone |
| FileHandles.WrongIff | util/fgood.h:146-158 | a closing counts as wrong if and only if the file is not open or is of the other kind |
| FileHandles.AllClosedIff | util/fgood.h:60-158 | over every run, with addresses used again, no file has two owners or is closed wrongly; when all objects are gone, every opening has its closing if and only if no raw file was assigned to an object already pointing to it |
| FileHandles.StaleBorrowerLeaks | util/fgood.h:85-92 | a run, for every address, after which a file stays open for good |
| FilePtr.TFILEPtr.Copy | util/fgood.h:69-72 | a copy borrows |
| FilePtr.TFILEPtr.Adopt | util/fgood.h:81-84 | a raw file is taken over |
| FilePtr.TFILEPtr.Open | util/fgood.h:128-145 | the machine's opening step for files and pipes, or only an exception |
| FilePtr.TFILEPtr.Close | util/fgood.h:146-158 | the machine's closing step, also when closing fails; it then throws, unless an exception is in flight, and keeps the name |
| FilePtr.TFILEPtr.AssignCopy | util/fgood.h:73-80 | unless closing throws the object then points to the source's file, as a borrower if it did not before; the machine's borrowing step in every state with these files and objects, also when closing throws and when assigned to itself |
| FilePtr.TFILEPtr.AssignRaw | util/fgood.h:85-92 | unless closing throws the object then points to the file; the machine's take-over step in every such state; a file already pointed to is not taken over |
| ArrayStorage.StepKeeps | util/autoarray.h:37-64 | every operation, whatever throws, keeps: each array has storage of its size, no two share it, no storage is without array; it goes wrong if and only if it destroys an element that was not built |
| ArrayStorage.OthersKept | util/autoarray.h:245-260 | an operation leaves the contents of all arrays it does not name |
| ArrayStorage.CreateElements | util/autoarray.h:37-96 | a constructor that throws leaves nothing behind; any other leaves an array of exactly its elements, with storage only if there are any |
| ArrayStorage.RawElements | util/autoarray.h:118-122 | an array asked for without its elements has none of them |
| ArrayStorage.PlacedElement | util/autoarray.h:232-236 | an element the program builds in place is then there, and the others stay |
| ArrayStorage.DestroyGone | util/autoarray.h:223-231 | a dropped array is gone, with its storage and no other |
| ArrayStorage.WrongIff | util/autoarray.h:51-64 | what counts as wrong, exactly: building over an element, destroying none, freeing storage in use or not there |
| ArrayStorage.SwapExchanges | util/autoarray.h:245-252 | a swap exchanges contents, and a second one undoes it |
| ArrayStorage.ResizeElements | util/autoarray.h:253-260 | a resize that throws changes nothing; any other keeps the elements that fit, in place, and fills the rest |
| ArrayStorage.FillingIsClean | util/autoarray.h:51-96 | a run that never asks for unbuilt elements never destroys one |
| ArrayStorage.NothingLeftIff | util/autoarray.h:223-260 | over every run, when all arrays are gone all storage has been given back; every element was destroyed exactly once if and only if no array was dropped or resized with elements missing |
| ArrayStorage.UnbuiltIsDestroyed | util/autoarray.h:118-122 | an unfilled array of n elements, dropped at once, destroys n elements that never were |
| AutoArray.AutoArray.AllocBuf | util/autoarray.h:37-44 | storage for the size, none for size zero |
| AutoArray.AutoArray.Filled | util/autoarray.h:51-96 | an array of equal elements, or, if building one throws, no array and the memory as it was: the machine's creation step in every state with this memory |
| AutoArray.AutoArray.Copied | util/autoarray.h:139-174 | an array of the copied elements that fit and of fillers, or, if building one throws, no array and the memory as it was: the machine's creation step in every state with this memory |
| AutoArray.AutoArray.Unfilled | util/autoarray.h:118-122 | storage with no element built |
| AutoArray.AutoArray.Destroy | util/autoarray.h:223-231 | storage given back, with as many errors as elements were missing, or none for trivial elements |
| AutoArray.AutoArray.Swap | util/autoarray.h:245-252 | storage and size are exchanged |
| AutoArray.AutoArray.Resize | util/autoarray.h:253-260 | the machine's resizing step in every state with this memory and array, or, if an element throws, nothing changed |

## Left out

- Generated tables, HTTP dates and codes, URIs, static hash maps, coroutines and Lua: tables or wrappers around
  library code.
- Reading lines in `TSFReader`, opening helpers that end the program, and failures of writing: I/O.
- `super_atomizer`: the same insertions with data attached to each atom.
- Atomizer.Atomizer.Find: compares names exactly, which is one of the equality functors; others, such as
  case-insensitive ones, are not modelled.
- Atomizer.Atomizer.StringToAtom: requires, for a new string whose key lies in the pool, that the pool does not
  move, because the code then reads the key from memory that was given back.
- AtomText.SaveC2N: requires fewer than 2^31 atoms, because the number is printed as signed.
- AtomText.LoadC2N: loads into an empty atomizer only; old entries would be cleared by a byte count that is too
  small and could be written past the end. It requires a character after every accepted number, because
  otherwise the name is read from what the buffer held before. For a file with no record the code takes the
  address of a missing element, which is not modelled.
- AtomText.ReadRecords: requires a character after every accepted number, for the same reason.
- AtomTextLaws.SaveLoadIff: for a dense, non-empty atomizer.
- The order in which the hash is walked is left open; for distinct atoms the result does not depend on it.
- PrintBuffer.PrnStr.F: the formatter's answer is given; sizes past the range of `int` are not modelled.
- PrintBuffer.PrnStr.Clear: says nothing of the characters after the call, because no zero is written.
- `prnstr` with no initial room, for which the doubling loop does not end.
- `s_htmesc` and the other appends of `prnstr` that are built on `s`.
- RequestData.TServerRequestData.AddHeader: keeps the texts of name and value, not pointers into the caller's
  line, so a line that is reused afterwards is not modelled.
- RequestData.TServerRequestData.Parse: after a failed parse, the pointers of an earlier one are shown as indexes
  into the buffer they were made for, not as dangling.
- RequestData.TServerRequestData.GetCurPage: requires a parsed target where the address is put together, because
  the code then reads through the path pointer.
- CGI parameters, remote addresses, sockets and the scan of the script environment: library and system calls.
- Letter case outside ASCII in header names.
- FilePtr.TFILEPtr.Open: whether the file exists and the modes are left to the parameter that says what the
  library returned.
- AutoArray.AutoArray.Copied: copying an element gives an equal one, and only the first failing element matters.
- `automatrix`, `operator==` of arrays, and the constructors with more arguments: index arithmetic and copies of
  the same roll-back loop.
- Array2dReader.FileMapped2DArray.InitSelf: requires a header of eight bytes and elements of positive size, as the
  code reads them unchecked.
