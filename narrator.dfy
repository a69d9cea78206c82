/**
  The narrator: the three readers, the speaker object that counts the
  normalised lines of its document and records them through a speech
  synthesiser, and the factory that picks a reader by file extension.
 */
module Narrator {
  import opened Wrappers
  import opened Text
  import opened Paths
  import opened Normaliser

  newtype byte = x: int | 0 <= x < 256

  /** The formats there is a reader for. */
  datatype Format = Txt | Docx | Pdf

  /**
    What a reader's parser gets out of a file before normalisation: the
    lines of a text file, the paragraph texts of a Word file, or the page
    texts of a PDF.
   */
  datatype Document =
    | TextFile(lines: seq<string>)
    | WordFile(paragraphs: seq<string>)
    | PdfFile(pages: seq<string>)

  /** The exception the factory raises. */
  datatype FormatError = TypeError(message: string)

  /**
    One value yielded by `recording`: in percent mode the line count so far
    and the total it is divided by, in lines mode the line count so far.
   */
  datatype Progress = Percent(done: nat, total: nat) | Count(done: nat)

  /** The PDF reader's fragments: each page's text split on '\n', pages in order. */
  function PdfLines(pages: seq<string>): seq<string>
    decreases |pages|
  {
    if pages == [] then [] else SplitOn(pages[0], '\n') + PdfLines(pages[1..])
  }

  /** No PDF fragment holds a newline. */
  lemma {:induction false} PdfLinesNoNewline(pages: seq<string>)
    ensures forall k :: 0 <= k < |PdfLines(pages)| ==> '\n' !in PdfLines(pages)[k]
    decreases |pages|
  {
    if pages != [] {
      PdfLinesNoNewline(pages[1..]);
      var head := SplitOn(pages[0], '\n');
      var rest := PdfLines(pages[1..]);
      forall k | 0 <= k < |head + rest| ensures '\n' !in (head + rest)[k] {
        if k >= |head| {
          assert (head + rest)[k] == rest[k - |head|];
        }
      }
    }
  }

  /**
    The flattening loses only the page boundaries: joining the fragments
    with '\n' gives the page texts joined with '\n'.
   */
  lemma {:induction false} PdfLinesRejoin(pages: seq<string>)
    ensures JoinWith("\n", PdfLines(pages)) == JoinWith("\n", pages)
    decreases |pages|
  {
    if pages == [] {
    } else if |pages| == 1 {
      JoinSplitOn(pages[0], '\n');
      assert PdfLines(pages[1..]) == [];
      assert PdfLines(pages) == SplitOn(pages[0], '\n');
    } else {
      JoinSplitOn(pages[0], '\n');
      PdfLinesRejoin(pages[1..]);
      PdfLinesNonEmpty(pages[1..]);
      JoinWithAppend("\n", SplitOn(pages[0], '\n'), PdfLines(pages[1..]));
    }
  }

  /** Every page contributes at least one fragment. */
  lemma {:induction false} PdfLinesNonEmpty(pages: seq<string>)
    ensures |PdfLines(pages)| >= |pages|
    decreases |pages|
  {
    if pages != [] {
      PdfLinesNonEmpty(pages[1..]);
    }
  }

  /** The raw fragments the reader of a document yields before normalisation. */
  function RawFragments(document: Document): seq<string> {
    match document
    case TextFile(lines) => lines
    case WordFile(paragraphs) => paragraphs
    case PdfFile(pages) => PdfLines(pages)
  }

  /** What the decorated `_read_file` of a document yields. */
  function Lines(document: Document): seq<string> {
    Normalise(RawFragments(document))
  }

  /** The reader: the document's fragments through the normaliser. */
  method ReadFile(document: Document) returns (lines: seq<string>)
    ensures lines == Lines(document)
  {
    lines := Process(RawFragments(document));
  }

  /** `_count_lines`: one pass over the reader, counting what it yields. */
  method CountLines(document: Document) returns (lines: nat)
    ensures lines == |Lines(document)|
  {
    var items := ReadFile(document);
    lines := 0;
    var i := 0;
    while i < |items|
      invariant 0 <= i <= |items|
      invariant lines == i
    {
      lines := lines + 1;
      i := i + 1;
    }
  }

  /** The bytes of the output stream after the given lines were synthesised, in order. */
  function Audio(lines: seq<string>, tts: (string, bool) -> seq<byte>, slow: bool): seq<byte>
    decreases |lines|
  {
    if lines == [] then [] else Audio(lines[..|lines| - 1], tts, slow) + tts(lines[|lines| - 1], slow)
  }

  /** Synthesising two runs of lines one after the other writes the two outputs one after the other. */
  lemma {:induction false} AudioAppend(a: seq<string>, b: seq<string>, tts: (string, bool) -> seq<byte>, slow: bool)
    ensures Audio(a + b, tts, slow) == Audio(a, tts, slow) + Audio(b, tts, slow)
    decreases |b|
  {
    if b == [] {
      assert a + b == a;
    } else {
      var init := b[..|b| - 1];
      assert (a + b)[..|a + b| - 1] == a + init;
      assert (a + b)[|a + b| - 1] == b[|b| - 1];
      AudioAppend(a, init, tts, slow);
    }
  }

  /** One more line synthesised appends its bytes. */
  lemma AudioStep(items: seq<string>, i: nat, tts: (string, bool) -> seq<byte>, slow: bool)
    requires i < |items|
    ensures Audio(items[..i + 1], tts, slow) == Audio(items[..i], tts, slow) + tts(items[i], slow)
  {
    assert items[..i + 1][..i] == items[..i];
  }

  /** The output stream is what synthesising each line gives, and nothing else, in line order. */
  lemma {:induction false} AudioLength(lines: seq<string>, tts: (string, bool) -> seq<byte>, slow: bool)
    ensures lines == [] ==> Audio(lines, tts, slow) == []
    ensures |lines| == 1 ==> Audio(lines, tts, slow) == tts(lines[0], slow)
  {
    if |lines| == 1 {
      assert lines[..0] == [];
    }
  }

  /** What `recording` yields for the line numbered n, given the total line count. */
  function ProgressItem(n: nat, total: nat, callback: bool, mode: string): seq<Progress> {
    if !callback then []
    else if mode == "percent" then [Percent(n, total)]
    else if mode == "lines" then [Count(n)]
    else []
  }

  /** Everything `recording` yields while it replays the first n lines. */
  function ProgressValues(n: nat, total: nat, callback: bool, mode: string): seq<Progress>
    decreases n
  {
    if n == 0 then [] else ProgressValues(n - 1, total, callback, mode) + ProgressItem(n, total, callback, mode)
  }

  /** With the callback on in lines mode the values are 1, 2, ..., n. */
  lemma {:induction false} ProgressCounts(n: nat, total: nat)
    ensures |ProgressValues(n, total, true, "lines")| == n
    ensures forall k :: 0 <= k < n ==> ProgressValues(n, total, true, "lines")[k] == Count(k + 1)
    decreases n
  {
    if n > 0 {
      ProgressCounts(n - 1, total);
    }
  }

  /** In lines mode the values strictly increase and the last one is n. */
  lemma ProgressCountsIncrease(n: nat, total: nat)
    ensures var p := ProgressValues(n, total, true, "lines");
      (forall i, j :: 0 <= i < j < |p| ==> p[i].done < p[j].done) && (n > 0 ==> p[|p| - 1] == Count(n))
  {
    ProgressCounts(n, total);
  }

  /**
    With the callback on in percent mode there is one value per line, and
    the k-th counts k lines out of the total.
   */
  lemma {:induction false} ProgressPercents(n: nat, total: nat)
    ensures |ProgressValues(n, total, true, "percent")| == n
    ensures forall k :: 0 <= k < n ==> ProgressValues(n, total, true, "percent")[k] == Percent(k + 1, total)
    decreases n
  {
    if n > 0 {
      ProgressPercents(n - 1, total);
    }
  }

  /**
    When both passes see the same n lines, every percent value has
    0 < done <= total, so the division in the source never has a zero
    divisor and its quotient is at most 1; the last value has done == total.
   */
  lemma ProgressPercentsBounded(n: nat)
    ensures var p := ProgressValues(n, n, true, "percent");
      (forall k :: 0 <= k < |p| ==> p[k].Percent? && 0 < p[k].done <= p[k].total)
      && (n > 0 ==> p[|p| - 1] == Percent(n, n))
  {
    ProgressPercents(n, n);
  }

  /** With the callback off, or any mode other than 'percent' and 'lines', nothing is yielded. */
  lemma {:induction false} ProgressSilent(n: nat, total: nat, callback: bool, mode: string)
    requires !callback || (mode != "percent" && mode != "lines")
    ensures ProgressValues(n, total, callback, mode) == []
    decreases n
  {
    if n > 0 {
      ProgressSilent(n - 1, total, callback, mode);
    }
  }

  /**
    `BaseSpeaker`: a document with its reader, the path of the MP3 file it
    records to and the line count taken when it was made. `soundFile` is
    what this object last wrote to that file, None before the first
    recording.
   */
  class BaseSpeaker {
    const filePath: string
    const outPath: string
    const document: Document
    const numLines: nat
    var soundFile: Option<seq<byte>>

    /** The count taken at construction is the number of lines the reader yields. */
    ghost predicate Valid() {
      numLines == |Lines(document)|
    }

    /** `__init__`: derive the output path, then count the lines with a full pass over the reader. */
    constructor (filePath: string, outDir: string, document: Document)
      ensures this.filePath == filePath && this.document == document
      ensures outPath == OutPath(filePath, outDir)
      ensures Valid()
      ensures soundFile == None
    {
      this.filePath := filePath;
      this.outPath := OutPath(filePath, outDir);
      this.document := document;
      var n := CountLines(document);
      this.numLines := n;
      this.soundFile := None;
    }

    /** `__len__`: the number of lines the reader yields, empty lines included. */
    function Length(): (n: nat)
      requires Valid()
      ensures n == |Lines(document)|
    {
      numLines
    }

    /**
      `recording`: the output file is opened afresh and each line the
      reader yields is synthesised and appended to it, in order; with the
      callback on, the running line count is reported after each line, as
      a percentage of `numLines` or as the count itself.
     */
    method Recording(tts: (string, bool) -> seq<byte>, slow: bool := false, callback: bool := false,
                     callbackInformation: string := "percent")
      returns (progress: seq<Progress>)
      requires Valid()
      modifies this
      ensures soundFile == Some(Audio(Lines(document), tts, slow))
      ensures progress == ProgressValues(|Lines(document)|, numLines, callback, callbackInformation)
    {
      var items := ReadFile(document);
      soundFile := Some([]);
      var linePerformed: nat := 0;
      progress := [];
      var i := 0;
      while i < |items|
        invariant 0 <= i <= |items|
        invariant soundFile == Some(Audio(items[..i], tts, slow))
        invariant linePerformed == if callback then i else 0
        invariant progress == ProgressValues(i, numLines, callback, callbackInformation)
      {
        AudioStep(items, i, tts, slow);
        assert ProgressValues(i + 1, numLines, callback, callbackInformation)
          == progress + ProgressItem(i + 1, numLines, callback, callbackInformation);
        soundFile := Some(soundFile.value + tts(items[i], slow));
        if callback {
          linePerformed := linePerformed + 1;
          if callbackInformation == "percent" {
            progress := progress + [Percent(linePerformed, numLines)];
          } else if callbackInformation == "lines" {
            progress := progress + [Count(linePerformed)];
          }
        }
        i := i + 1;
      }
      assert items[..|items|] == items;
    }
  }

  /** The format names the factory's error message lists. */
  const FileFormats: seq<string> := ["txt", "doc", "pdf"]

  /** The factory's error, naming the formats joined with " or ". */
  function WrongFormat(): FormatError {
    TypeError("Wrong format! You must use " + JoinWith(" or ", FileFormats))
  }

  /** The error message reads "Wrong format! You must use txt or doc or pdf". */
  lemma WrongFormatMessage()
    ensures WrongFormat().message == "Wrong format! You must use txt or doc or pdf"
  {
    assert JoinWith(" or ", FileFormats[2..]) == "pdf";
    assert JoinWith(" or ", FileFormats[1..]) == "doc or pdf";
  }

  /** The factory's choice: the splitext extension, matched exactly and case-sensitively. */
  function Dispatch(filePath: string): (r: Result<Format, FormatError>)
    ensures r.Err? ==> r == Err(WrongFormat())
  {
    var extension := Ext(filePath);
    if extension == ".txt" then Ok(Txt)
    else if extension == ".docx" then Ok(Docx)
    else if extension == ".pdf" then Ok(Pdf)
    else Err(WrongFormat())
  }

  /** The base name ends in e after something that is not all dots. */
  predicate EndsInExtension(filePath: string, e: string) {
    var name := Basename(filePath);
    |e| <= |name| && name[|name| - |e|..] == e && !AllDots(name[..|name| - |e|])
  }

  /** The extension that selects each reader. */
  function Extension(format: Format): (e: string)
    ensures e != [] && e[0] == '.' && '.' !in e[1..]
  {
    match format
    case Txt => ".txt"
    case Docx => ".docx"
    case Pdf => ".pdf"
  }

  /**
    A reader is chosen exactly when the base name ends in its extension
    after something that is not all dots: "a.b.pdf" picks the PDF reader,
    ".pdf", "a.PDF" and "a.doc" pick none.
   */
  lemma DispatchByName(filePath: string, format: Format)
    ensures Dispatch(filePath) == Ok(format) <==> EndsInExtension(filePath, Extension(format))
  {
    DispatchByExt(filePath, format);
    NameExtIs(Basename(filePath), Extension(format));
  }

  /** A reader is chosen exactly when the extension is its own. */
  lemma DispatchByExt(filePath: string, format: Format)
    ensures Dispatch(filePath) == Ok(format) <==> Ext(filePath) == Extension(format)
  {
    assert ".txt"[1] != ".pdf"[1];
    assert |".txt"| != |".docx"| && |".pdf"| != |".docx"|;
  }

  /** The document the reader for a format gets from the parsers' output for the file. */
  function Read(format: Format, disk: Disk): (d: Document)
    ensures format == Txt <==> d.TextFile?
    ensures format == Docx <==> d.WordFile?
    ensures format == Pdf <==> d.PdfFile?
  {
    match format
    case Txt => TextFile(disk.textLines)
    case Docx => WordFile(disk.paragraphs)
    case Pdf => PdfFile(disk.pages)
  }

  /**
    What the parsers would return for the file at the path: its lines when
    opened as text, its paragraph texts through docx, its page texts through
    fitz.
   */
  datatype Disk = Disk(textLines: seq<string>, paragraphs: seq<string>, pages: seq<string>)

  /** `Speaker`: a speaker with the reader the extension selects, or the TypeError. */
  method Speaker(filePath: string, outPath: string, disk: Disk) returns (r: Result<BaseSpeaker, FormatError>)
    ensures Dispatch(filePath).Err? ==> r == Err(WrongFormat())
    ensures Dispatch(filePath).Ok? ==>
      r.Ok? && fresh(r.value) && r.value.Valid() && r.value.soundFile == None
      && r.value.filePath == filePath && r.value.outPath == OutPath(filePath, outPath)
      && r.value.document == Read(Dispatch(filePath).value, disk)
  {
    var format := Dispatch(filePath);
    if format.Err? {
      return Err(format.error);
    }
    var speaker := new BaseSpeaker(filePath, outPath, Read(format.value, disk));
    return Ok(speaker);
  }

  /** "books/a.b.pdf" goes to the PDF reader: the extension is taken from the last dot. */
  lemma ExampleFactoryNestedDots()
    ensures Dispatch("books/a.b.pdf") == Ok(Pdf)
  {
    ExampleNestedDots();
    assert Ext("books/a.b.pdf") == ".pdf";
  }

  /** "books/a.b.pdf" is recorded to "out/a.mp3": the name is cut at the first dot. */
  lemma ExampleOutPathNestedDots()
    ensures OutPath("books/a.b.pdf", "out") == "out/a.mp3"
  {
    ExampleNestedDots();
    var name := OutName("books/a.b.pdf");
    assert name == "a" + ".mp3";
    assert Join("out", name) == "out" + "/" + name;
  }

  /** ".pdf" has no extension at all: a leading dot starts none. */
  lemma ExampleFactoryLeadingDot()
    ensures Dispatch(".pdf") == Err(WrongFormat())
  {
    BasenameNoSlash(".pdf");
    ExampleExtensions();
    assert Ext(".pdf") == "";
  }

  /** "a.PDF" is refused: the extension is matched case-sensitively. */
  lemma ExampleFactoryUpperCase()
    ensures Dispatch("a.PDF") == Err(WrongFormat())
  {
    BasenameNoSlash("a.PDF");
    ExampleExtensions();
    var e := Ext("a.PDF");
    assert e == ".PDF";
    assert e != ".txt" && e != ".docx" && e != ".pdf" by { assert e[1] == 'P'; }
  }

  /** "report.doc" is refused although the message lists "doc": only ".docx" selects the Word reader. */
  lemma ExampleFactoryDoc()
    ensures Dispatch("report.doc") == Err(WrongFormat())
  {
    BasenameNoSlash("report.doc");
    ExampleExtensions();
    var e := Ext("report.doc");
    assert e == ".doc";
    assert e != ".txt" && e != ".pdf" by { assert e[1] == 'd'; }
    assert e != ".docx" by { assert |e| == 4; }
  }
}
