# Simple speaker, modelled in Dafny

Simple speaker turns a document into one MP3 file of narrated speech. A
reader pulls raw text fragments out of the document: the lines of a `.txt`
file, the paragraphs of a `.docx` file, or the lines of each page of a `.pdf`
file. A line normaliser (the `processing_string` decorator) then cleans those
fragments. It strips each one, drops the blank ones, and rejoins a word that a
trailing hyphen broke across two lines. The speaker object (`BaseSpeaker`)
counts the normalised lines once when it is built. `recording` then reads them
again, sends each one to the speech synthesiser, appends the audio bytes to one
output file and, on request, reports progress after each line. The `Speaker`
factory picks the reader from the file extension. The output file is named after
the input's base name, cut at its first dot.

The project has five modules:

- `Wrappers` (`wrappers.dfy`): `Option` and `Result`.
- `Text` (`text.dfy`): the Python string operations the code relies on. These
  are `str.isspace` (as a set of characters), `strip()`, `split()` with no
  argument, `split(sep)` and `join`.
- `Paths` (`paths.dfy`): POSIX `os.path.basename`, `os.path.join` and the
  extension half of `os.path.splitext`, plus the output-name derivation.
- `Normaliser` (`normaliser.dfy`): the normaliser. `Process` is the loop of
  `processing`, written as a method. It is proved equal to `Normalise`, a
  recursive function that feeds the fragments one at a time through `Feed`.
  The lemmas are about `Normalise`.
- `Narrator` (`narrator.dfy`): the three readers, the `BaseSpeaker` class with
  its counting pass and its `Recording` method, and the factory.

The synthesiser is a parameter `tts: (string, bool) -> seq<byte>` (text, slow).
A document's contents are given as a `Document` value: the text lines, the
paragraph texts or the page texts its parser would return. The factory gets them
all in a `Disk` record.

Behaviours of `speaker.py` that are easy to misread:

- A stripped line that is one hyphenated token, such as `"exam-"` or `"-"`,
  yields the empty string. It is not skipped. So `["exam-", "ple text"]` gives
  `["", "example text"]`, not one line, and a yielded line can be empty.
- A word still pending after the last fragment is lost, but the line it came
  from is still yielded. So `["wor-"]` gives `[""]`, not nothing.
- The percent value is `int(k / n * 100)`, computed in floating point. It is
  not `floor(100 * k / n)`: k = 29, n = 100 gives 28.
- The factory's error message lists `doc`, but only `.docx` selects the Word
  reader. A `.doc` file is refused.

## Model

| member | source | states |
|---|---|---|
| Text.Strip | speaker.py:24 | `strip()` gives "" exactly when the fragment is all whitespace; otherwise the result starts and ends with a non-whitespace character |
| Text.StripInside | speaker.py:24 | the stripped line sits inside the fragment, with only whitespace cut off on each side |
| Text.Split | speaker.py:34 | `str.split()` with no argument; characterised by SplitTokens and SplitLast |
| Text.SplitTokens | speaker.py:34 | the tokens of `split()` are non-empty and hold no whitespace; there are none exactly when the string is blank |
| Text.SplitLast | speaker.py:34 | on a line ending in a non-whitespace character, `split()[-1]` exists and is the line's trailing run of non-whitespace characters |
| Text.SplitOn | speaker.py:149 | `split('\n')` gives at least one piece, no piece holds a newline, and the first piece is the text before the first newline |
| Text.JoinSplitOn | speaker.py:149 | joining the pieces of `split('\n')` with newlines gives back the page text |
| Text.SplitOnJoin | speaker.py:149 | splitting a newline-join of newline-free pieces gives back the pieces |
| Normaliser.DropLast | speaker.py:35-36 | Python's `s[:-k]`, which gives "" when k exceeds the length; its use is characterised by CutHyphenSpec |
| Normaliser.CutHyphen | speaker.py:33-36 | the hyphen rule on one non-blank line; characterised by CutHyphenSpec |
| Normaliser.Glue | speaker.py:29-31 | the pending word glued onto the line with no space; characterised by GlueOntoNext |
| Normaliser.CutHyphenSpec | speaker.py:33-36 | a line not ending in `-` is yielded whole with nothing pending; a line ending in `-` is yielded without its last token and the one whitespace character before it; that token minus its `-` becomes the pending word; a line that is a single hyphenated token yields "" |
| Normaliser.Unhyphenate | speaker.py:33-36 | the hyphen branch (`split()[-1]`, `line[:-len(w)-1]`, `w[:-1]`) computes exactly the cut that CutHyphenSpec describes |
| Normaliser.Feed | speaker.py:22-38 | one loop step: a blank fragment changes nothing; a non-blank one appends exactly one line after those already yielded |
| Normaliser.FeedPlain | speaker.py:24-38 | with nothing pending and no trailing `-`, a fragment yields its stripped form, or nothing when it is blank |
| Normaliser.Run | speaker.py:18-40 | the loop's state after all fragments, starting with nothing pending; Process is proved equal to it, and NormaliseLength, NoHyphenIsStrip, PendingHasNoWhitespace and NormalisePrefix characterise it |
| Normaliser.Normalise | speaker.py:18-40 | the lines `processing` yields; the word still pending at the end is dropped (ExampleDanglingLost) |
| Normaliser.ProcessLine | speaker.py:24-38 | the loop body for one fragment (strip, skip a blank one, glue, apply the hyphen rule, yield) does exactly one Feed step |
| Normaliser.Process | speaker.py:18-38 | the loop that carries `word_wrapped` yields exactly `Normalise(fragments)` |
| Normaliser.NormaliseLength | speaker.py:22-38 | exactly one line is yielded per fragment whose stripped form is non-empty |
| Normaliser.NoHyphenIsStrip | speaker.py:24-38 | when no stripped fragment ends in `-`, the output is the stripped non-blank fragments in order, and nothing is left pending |
| Normaliser.PendingHasNoWhitespace | speaker.py:33-36 | the pending word never holds whitespace, because it is one `split()` token |
| Normaliser.GlueOntoNext | speaker.py:29-38 | a pending word is prepended with no space to the next non-blank fragment, whatever that fragment ends in, and then cleared; the glued line goes through the hyphen rule, which CutHyphenSpec describes |
| Normaliser.NormalisePrefix | speaker.py:22-38 | lines already yielded are final: more fragments only add lines after them |
| Normaliser.ExampleCarryOver | speaker.py:18-38 | `["Hello wor-", "ld today"]` gives `["Hello", "world today"]` |
| Normaliser.ExampleEmptyLine | speaker.py:33-38 | `["exam-", "ple text"]` gives `["", "example text"]` |
| Normaliser.ExampleDanglingLost | speaker.py:22-40 | `["wor-"]` gives `[""]`, and the pending `"wor"` is never yielded |
| Normaliser.ExampleLoneHyphen | speaker.py:24-38 | a whitespace-only fragment yields nothing; a lone `-` yields "" |
| Narrator.PdfLines | speaker.py:145-150 | each page text split on newlines, pages in order; characterised by PdfLinesNoNewline, PdfLinesRejoin and PdfLinesNonEmpty |
| Narrator.PdfLinesNoNewline | speaker.py:145-150 | no fragment of the PDF reader holds a newline |
| Narrator.PdfLinesRejoin | speaker.py:145-150 | the PDF fragments joined with newlines are the page texts joined with newlines: only the page boundaries are lost |
| Narrator.PdfLinesNonEmpty | speaker.py:145-150 | every page gives at least one fragment |
| Narrator.Read | speaker.py:107-150 | each format is read by its own reader: text lines, paragraphs or pages |
| Narrator.RawFragments | speaker.py:113-150 | the fragments each reader yields before normalisation: text lines, paragraph texts, or PdfLines of the pages |
| Narrator.Lines | speaker.py:113-150 | what a decorated `_read_file` yields: the raw fragments through Normalise; ReadFile computes it |
| Narrator.ReadFile | speaker.py:113-150 | a reader yields its raw fragments passed through the normaliser |
| Narrator.CountLines | speaker.py:66-72 | the counting pass returns the number of lines the reader yields, empty lines included |
| Narrator.Audio | speaker.py:86-90 | the output stream after the given lines were synthesised; characterised by AudioAppend and AudioLength as the in-order concatenation of the synthesised bytes |
| Narrator.AudioAppend | speaker.py:86-90 | synthesising two runs of lines one after the other writes their audio one after the other |
| Narrator.AudioLength | speaker.py:86-90 | no lines give an empty file; one line gives exactly its synthesised bytes |
| Narrator.ProgressItem | speaker.py:92-99 | the value yielded after one line, or nothing; characterised by ProgressCounts, ProgressPercents and ProgressSilent |
| Narrator.ProgressValues | speaker.py:92-99 | every value `recording` yields over the first n lines; characterised by ProgressCounts, ProgressCountsIncrease, ProgressPercents, ProgressPercentsBounded and ProgressSilent |
| Narrator.ProgressCounts | speaker.py:92-99 | in `'lines'` mode the yielded values are 1, 2, ..., n |
| Narrator.ProgressCountsIncrease | speaker.py:98-99 | in `'lines'` mode the values strictly increase and the last one is n |
| Narrator.ProgressPercents | speaker.py:95-97 | in `'percent'` mode there is one value per line, and the k-th is computed from k lines out of `num_lines` |
| Narrator.ProgressPercentsBounded | speaker.py:95-97 | when both passes see the same n lines, every percent value has 0 < done <= total, so the division never has a zero divisor; the last value is n out of n |
| Narrator.ProgressSilent | speaker.py:92-99 | with the callback off, or a mode other than `'percent'` and `'lines'`, nothing is yielded |
| Narrator.BaseSpeaker.constructor | speaker.py:50-58 | the output path is derived from the file path and the output directory; `num_lines` is the number of lines the reader yields |
| Narrator.BaseSpeaker.Length | speaker.py:102-103 | `__len__` is the number of normalised lines, not the number of raw fragments |
| Narrator.BaseSpeaker.Recording | speaker.py:75-99 | the file holds the synthesised bytes of every line the reader yields, in order; the progress values are those the callback and mode ask for, one per line |
| Narrator.WrongFormat | speaker.py:161-171 | the TypeError the factory raises; WrongFormatMessage gives its text |
| Narrator.WrongFormatMessage | speaker.py:161-171 | the error reads "Wrong format! You must use txt or doc or pdf" |
| Narrator.Dispatch | speaker.py:160-171 | any extension other than `.txt`, `.docx` or `.pdf` raises the TypeError |
| Narrator.DispatchByExt | speaker.py:164-169 | a reader is chosen exactly when the `splitext` extension equals its own extension, case-sensitively |
| Narrator.DispatchByName | speaker.py:160-169 | a reader is chosen exactly when the base name ends in its extension after something that is not all dots |
| Narrator.Speaker | speaker.py:155-171 | the factory gives a fresh, counted speaker for the reader of the extension, or the TypeError |
| Narrator.ExampleFactoryNestedDots | speaker.py:160-169 | `books/a.b.pdf` goes to the PDF reader |
| Narrator.ExampleOutPathNestedDots | speaker.py:54-56 | `books/a.b.pdf` with output directory `out` is recorded to `out/a.mp3` |
| Narrator.ExampleFactoryLeadingDot | speaker.py:160-171 | `.pdf` has no extension, so it is refused |
| Narrator.ExampleFactoryUpperCase | speaker.py:164-171 | `a.PDF` is refused, because the match is case-sensitive |
| Narrator.ExampleFactoryDoc | speaker.py:161-171 | `report.doc` is refused even though the message lists `doc` |
| Paths.Basename | speaker.py:54 | the base name is the text after the last `/` and holds no `/` |
| Paths.Join | speaker.py:56 | `os.path.join`: an absolute second part replaces the first; otherwise one `/` goes between them, unless the first already ends in `/` or is empty |
| Paths.Ext | speaker.py:160 | `os.path.splitext(file_path)[1]`: the extension of the base name; characterised by NameExt, NameExtIs and NameExtNonEmpty |
| Paths.NameExt | speaker.py:160 | a non-empty extension is a suffix of the name that starts with a dot and holds no other dot |
| Paths.NameExtNonEmpty | speaker.py:160 | the extension is non-empty exactly when a dot follows some character that is not a dot |
| Paths.NameExtIs | speaker.py:160 | a name has extension e exactly when it ends in e and the text before e is not all dots |
| Paths.Stem | speaker.py:54 | `split('.')[0]` is the prefix of the name before its first dot |
| Paths.StemAt | speaker.py:54 | the stem ends at the first dot |
| Paths.OutName | speaker.py:54-55 | the base name up to its first dot, then ".mp3"; characterised by OutPathShape |
| Paths.OutPath | speaker.py:54-56 | the output file name joined to the output directory; characterised by OutPathShape |
| Paths.OutPathShape | speaker.py:54-56 | the output path is the directory, a `/` if needed, the base name up to its first dot, and `.mp3` |
| Paths.ExampleNestedDots | speaker.py:54 | for `books/a.b.pdf` the base name is `a.b.pdf`, the extension `.pdf` (from the last dot) and the stem `a` (to the first dot) |
| Paths.ExampleExtensions | speaker.py:160 | `.pdf` has no extension; `a.PDF` keeps `.PDF`; `report.doc` has `.doc` |

## Left out

- Speech synthesis: the gTTS call is a network service. It is the parameter `tts`. The fixed language `'ru'` is not modelled.
- Synthesis errors: `tts` is a total function, assumed to return bytes for every line, the empty line included. A synthesiser that raises, for example on empty text, would stop `recording` with the lines before it already written, leaving a truncated file. Those errors and the partial file are not modelled.
- Narrator.BaseSpeaker.Recording: `callback` is a `bool`. The source accepts any value and tests its truthiness with `if callback:`.
- File I/O and parsing: opening files and the `docx` and `fitz` libraries are not modelled. Each reader gets what its parser would return: lines, paragraph texts or page texts. Errors these libraries raise, such as a missing or corrupt file, are not modelled.
- The output file: `open(out_path, 'wb')` is modelled as the field `soundFile` starting from empty bytes. The path it names and the file system are not modelled.
- Narrator.BaseSpeaker.Recording: each percent value is an abstract `Percent(done, total)` item, not the integer `int(done / total * 100)`. That integer is computed in floating point, which is not modelled.
- Narrator.BaseSpeaker.Recording: `recording` is a generator. It does nothing, not even open the file, until its caller pulls values, and the caller may stop pulling at any time. The model runs it to the end and returns every value at once.
- Narrator.BaseSpeaker.Recording: a division by zero in percent mode needs two passes that see different documents. The model reads the same `Document` in both passes, so this case is out of reach.
- Paths: only POSIX paths are modelled. Windows separators and drive letters are not.
- Text.IsWhitespace: the whitespace set is the one Python's `str.isspace()` uses. Unicode normalisation and other encodings are not modelled.
