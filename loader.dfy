/**
 * The loader of `SourceCode.writeToMemory`, as functions on the lines of the
 * compiled text.
 *
 * A line that is empty, starts with '/' or starts with "ERRO" is passed
 * over.  Of any other line the loader takes the text before its first '/',
 * trimmed; when that field is sixteen UTF-16 code units long it is read as a
 * binary number (`Long.parseLong(field, 2)`), cut to a `short`, and written
 * at the next address, counting from 0.  A field that does not parse, or a
 * 4097th word, ends the load with an exception; the words written before it
 * stay in memory.
 */
module Loader {
  import opened Wrappers
  import opened JavaText
  import opened JavaNumbers
  import opened MainMemoryModel

  /** A line the loader passes over without looking for a word. */
  predicate IsSkipped(line: string) {
    line == [] || StartsWith(line, "/") || StartsWith(line, "ERRO")
  }

  /** `line.split("/")[0].trim()`: the trimmed text before the first '/'. */
  function WordField(line: string): string {
    Trim(line[..IndexOf(line, '/')])
  }

  /** A line whose field the loader reads as a word: sixteen UTF-16 code units long, as `length()` counts. */
  predicate IsCandidate(line: string) {
    !IsSkipped(line) && Utf16Length(WordField(line)) == 16
  }

  /**
   * A field of sixteen characters one of which lies outside the Basic
   * Multilingual Plane is more than sixteen UTF-16 code units long, so its
   * line is passed over, whatever the field holds.
   */
  lemma WideFieldPassedOver(line: string, i: nat)
    requires |WordField(line)| == 16 && i < 16 && WordField(line)[i] >= '\U{10000}'
    ensures !IsCandidate(line)
  {
  }

  /** The exceptions the loader can meet. */
  datatype LoadError =
    | BadWord(field: string)           // `NumberFormatException` from `Long.parseLong`
    | StoreFailed(error: MemoryError)  // `IndexOutOfBoundsException` from `MainMemory.write`

  /** The message of the exception. */
  function LoadErrorMessage(e: LoadError): string {
    match e
    case BadWord(f) => "For input string: \"" + f + "\" under radix 2"
    case StoreFailed(m) => MemoryErrorMessage(m)
  }

  /** The words written, in address order from 0, and the exception that ended the load, if any. */
  datatype LoadResult = LoadResult(words: seq<Int16>, error: Option<LoadError>)

  /** The word a field is loaded as: its binary value cut to a `short`, or `None` when it does not parse. */
  function FieldValue(field: string): Option<Int16> {
    match ParseLongBinary(field)
    case None => None
    case Some(v) => Some(ToShort(v))
  }

  /** How the loader sees one line: passed over, or a field it reads, with the word it parses to. */
  datatype ScannedLine = PassedOver | Field(text: string, value: Option<Int16>)

  /** The loader's view of one line. */
  function Scan(line: string): (c: ScannedLine)
    ensures c.Field? <==> IsCandidate(line)
    ensures c.Field? ==> c.text == WordField(line) && c.value == FieldValue(WordField(line))
  {
    if IsCandidate(line) then Field(WordField(line), FieldValue(WordField(line))) else PassedOver
  }

  /** Every line of the compiled text, scanned. */
  function ScanLines(lines: seq<string>): (cs: seq<ScannedLine>)
    ensures |cs| == |lines| && forall i :: 0 <= i < |lines| ==> cs[i] == Scan(lines[i])
  {
    seq(|lines|, i requires 0 <= i < |lines| => Scan(lines[i]))
  }

  /** The loop of `writeToMemory` over the scanned lines `cs`, after the words `words` were written at 0.. */
  function LoadFrom(cs: seq<ScannedLine>, words: seq<Int16>): LoadResult
    decreases |cs|
  {
    if cs == [] then LoadResult(words, None)
    else
      match cs[0]
      case PassedOver => LoadFrom(cs[1..], words)
      case Field(f, None) => LoadResult(words, Some(BadWord(f)))
      case Field(_, Some(v)) =>
        if |words| >= MEMORY_SIZE then LoadResult(words, Some(StoreFailed(IndexOutOfBounds(|words|))))
        else LoadFrom(cs[1..], words + [v])
  }

  /** The load of a whole compiled text. */
  function Load(code: string): (r: LoadResult)
    ensures |r.words| <= MEMORY_SIZE
  {
    LoadFromStart(ScanLines(SplitOn(code, '\n')));
    LoadFrom(ScanLines(SplitOn(code, '\n')), [])
  }

  /** The memory after the load: memory was cleared, then the words written from address 0. */
  function Image(words: seq<Int16>): (m: seq<Int32>)
    requires |words| <= MEMORY_SIZE
    ensures |m| == MEMORY_SIZE
    ensures forall k :: 0 <= k < |words| ==> m[k] == words[k]
    ensures forall k :: |words| <= k < MEMORY_SIZE ==> m[k] == 0
  {
    seq(MEMORY_SIZE, k requires 0 <= k < MEMORY_SIZE => if k < |words| then words[k] as Int32 else 0)
  }

  /** The comment `writeToMemory` appends to the text after a load without exception. */
  const LoadedNote: string := "// Código gravado" + " na Memória Principal"

  /** The text `writeToMemory` leaves in `compiledCode` once memory is linked. */
  function LoadReport(code: string, r: LoadResult): string {
    match r.error
    case Some(e) => "ERRO AO GRAVAR NA MEMÓRIA:\n" + LoadErrorMessage(e)
    case None => if StartsWith(code, "ERRO") then code else code + "\n\n" + LoadedNote
  }

  /** The text `writeToMemory` leaves when no memory is linked. */
  function UnlinkedReport(code: string): string {
    "ERRO: O modelo de Memória não está conectado.\n" + code
  }

  // ------------------------------------------------------ reference definition

  /** The candidate lines, in order: what the loader tries to write. */
  function Fields(cs: seq<ScannedLine>): (fs: seq<ScannedLine>)
    ensures forall k :: 0 <= k < |fs| ==> fs[k].Field?
    decreases |cs|
  {
    if cs == [] then []
    else (if cs[0].Field? then [cs[0]] else []) + Fields(cs[1..])
  }

  /** The exception a candidate line stops the load with: its field does not parse, or memory is full. */
  function StopError(c: ScannedLine): LoadError
    requires c.Field?
  {
    if c.value.None? then BadWord(c.text) else StoreFailed(IndexOutOfBounds(MEMORY_SIZE))
  }

  /** The loop over the scanned lines meets the candidate-field description, from any words already written. */
  lemma {:induction false} LoadFromFields(cs: seq<ScannedLine>, words: seq<Int16>)
    requires |words| <= MEMORY_SIZE
    ensures LoadMatchesFields(cs, words)
    decreases |cs|
  {
    if cs != [] {
      var rest := cs[1..];
      if cs[0].PassedOver? {
        LoadFromFields(rest, words);
        LoadSkipStep(cs, words);
      } else if cs[0].value.None? || |words| >= MEMORY_SIZE {
        LoadStopStep(cs, words);
      } else {
        LoadFromFields(rest, words + [cs[0].value.value]);
        LoadWriteStep(cs, words);
      }
    }
  }

  /**
   * The load against the candidate fields: the `k`-th word written after
   * `words` is the value of the `k`-th field; the load stops only at the
   * first field that does not parse, or at a field with nowhere left to
   * go, and otherwise takes every field.
   */
  ghost predicate LoadMatchesFields(cs: seq<ScannedLine>, words: seq<Int16>) {
    var r, fs := LoadFrom(cs, words), Fields(cs);
    && |words| <= |r.words| <= MEMORY_SIZE && r.words[..|words|] == words
    && |r.words| - |words| <= |fs|
    && (forall k :: 0 <= k < |r.words| - |words| ==> fs[k].value == Some(r.words[|words| + k]))
    && (r.error.None? <==> |r.words| - |words| == |fs|)
    && (r.error.Some? ==> |r.words| - |words| < |fs| && r.error.value == StopError(fs[|r.words| - |words|]))
    && (r.error.Some? && r.error.value.StoreFailed? ==> |r.words| == MEMORY_SIZE)
  }

  /** A line passed over changes nothing. */
  lemma {:induction false} LoadSkipStep(cs: seq<ScannedLine>, words: seq<Int16>)
    requires cs != [] && cs[0].PassedOver? && |words| <= MEMORY_SIZE
    requires LoadMatchesFields(cs[1..], words)
    ensures LoadMatchesFields(cs, words)
  {
    assert Fields(cs) == Fields(cs[1..]);
    assert LoadFrom(cs, words) == LoadFrom(cs[1..], words);
  }

  /** A candidate line that does not parse, or finds memory full, ends the load at once. */
  lemma {:induction false} LoadStopStep(cs: seq<ScannedLine>, words: seq<Int16>)
    requires cs != [] && cs[0].Field? && (cs[0].value.None? || |words| >= MEMORY_SIZE) && |words| <= MEMORY_SIZE
    ensures LoadMatchesFields(cs, words)
  {
    var fs, r := Fields(cs), LoadFrom(cs, words);
    assert fs == [cs[0]] + Fields(cs[1..]);
    assert fs[0] == cs[0];
    assert r.words == words && r.error == Some(StopError(cs[0]));
    assert r.words[..|words|] == words;
  }

  /** A candidate line whose word fits extends what the rest of the lines load. */
  lemma {:induction false} LoadWriteStep(cs: seq<ScannedLine>, words: seq<Int16>)
    requires cs != [] && cs[0].Field? && cs[0].value.Some? && |words| < MEMORY_SIZE
    requires LoadMatchesFields(cs[1..], words + [cs[0].value.value])
    ensures LoadMatchesFields(cs, words)
  {
    var rest, w' := cs[1..], words + [cs[0].value.value];
    var fs, r := Fields(cs), LoadFrom(cs, words);
    assert fs == [cs[0]] + Fields(rest);
    assert r == LoadFrom(rest, w');
    assert r.words[..|words|] == r.words[..|w'|][..|words|];
    forall k | 0 <= k < |r.words| - |words|
      ensures fs[k].value == Some(r.words[|words| + k])
    {
      if k == 0 {
        assert r.words[|words|] == r.words[..|w'|][|words|];
      } else {
        assert fs[k] == Fields(rest)[k - 1];
      }
    }
    if r.error.Some? {
      assert fs[|r.words| - |words|] == Fields(rest)[|r.words| - |w'|];
    }
  }

  /**
   * The load of a whole text: it writes the values of its candidate lines
   * in order, all of them unless one does not parse or there are more than
   * 4096, and then the error names that line; memory is full when a word
   * finds no address.
   */
  lemma LoadWords(code: string)
    ensures var r, fs := Load(code), Fields(ScanLines(SplitOn(code, '\n')));
      && |r.words| <= |fs| && |r.words| <= MEMORY_SIZE
      && (forall k :: 0 <= k < |r.words| ==> fs[k].value == Some(r.words[k]))
      && (r.error.None? <==> |r.words| == |fs|)
      && (r.error.Some? ==> r.error.value == StopError(fs[|r.words|]))
      && (r.error.Some? && r.error.value.StoreFailed? ==> |r.words| == MEMORY_SIZE)
  {
    LoadFromStart(ScanLines(SplitOn(code, '\n')));
  }

  /** `LoadFromFields` for a load that starts with nothing written. */
  lemma LoadFromStart(cs: seq<ScannedLine>)
    ensures var r, fs := LoadFrom(cs, []), Fields(cs);
      && |r.words| <= |fs| && |r.words| <= MEMORY_SIZE
      && (forall k :: 0 <= k < |r.words| ==> fs[k].value == Some(r.words[k]))
      && (r.error.None? <==> |r.words| == |fs|)
      && (r.error.Some? ==> r.error.value == StopError(fs[|r.words|]))
      && (r.error.Some? && r.error.value.StoreFailed? ==> |r.words| == MEMORY_SIZE)
  {
    LoadFromFields(cs, []);
  }

  // ------------------------------------------------------ writing twice

  /**
   * Writing to memory a second time loads the same words: after a load
   * without exception the text gains only an empty line and a comment line,
   * which the loader passes over, so loading the new text writes the same
   * words and again raises nothing.
   */
  lemma ReloadAfterReport(code: string)
    ensures var r := Load(code); r.error.None? ==> Load(LoadReport(code, r)) == r
  {
    if Load(code).error.None? && !StartsWith(code, "ERRO") {
      LoadedNoteShape();
      ReloadWithComment(code, LoadedNote);
    }
  }

  /** The appended note is one line starting with '/'. */
  lemma LoadedNoteShape()
    ensures LoadedNote != [] && LoadedNote[0] == '/' && '\n' !in LoadedNote
  {
    var a, b := "// Código gravado", " na Memória Principal";
    assert '\n' !in a && '\n' !in b;
    assert LoadedNote == a + b;
  }

  /** A load without exception is unchanged by an empty line and a comment line after the text. */
  lemma ReloadWithComment(code: string, note: string)
    requires Load(code).error.None?
    requires note != [] && note[0] == '/' && '\n' !in note
    ensures Load(code + "\n\n" + note) == Load(code)
  {
    var lines := SplitOn(code, '\n');
    SplitWithComment(code, note);
    ScanLinesConcat(lines, ["", note]);
    CommentPassedOver(note);
    LoadFromSkippedTail(ScanLines(lines), ScanLines(["", note]), []);
  }

  /** The lines of a text followed by an empty line and a one-line note. */
  lemma SplitWithComment(code: string, note: string)
    requires '\n' !in note
    ensures SplitOn(code + "\n\n" + note, '\n') == SplitOn(code, '\n') + ["", note]
  {
    var lines, extra := SplitOn(code, '\n'), ["", note];
    var pieces := lines + extra;
    JoinConcat(lines, extra, '\n');
    assert Join(extra, '\n') == "" + ['\n'] + note;
    assert Join(pieces, '\n') == code + "\n\n" + note;
    forall i | 0 <= i < |pieces|
      ensures '\n' !in pieces[i]
    {
      if i < |lines| {
        assert pieces[i] == lines[i];
      } else {
        assert pieces[i] == extra[i - |lines|];
      }
    }
    SplitJoin(pieces, '\n');
  }

  /** An empty line and a comment line are both passed over. */
  lemma CommentPassedOver(note: string)
    requires note != [] && note[0] == '/'
    ensures forall k :: 0 <= k < |ScanLines(["", note])| ==> ScanLines(["", note])[k].PassedOver?
  {
    assert note[..1] == "/";
    assert IsSkipped("") && IsSkipped(note);
  }

  /** Scanning two runs of lines scans each. */
  lemma ScanLinesConcat(xs: seq<string>, ys: seq<string>)
    ensures ScanLines(xs + ys) == ScanLines(xs) + ScanLines(ys)
  {
    var l, r := ScanLines(xs + ys), ScanLines(xs) + ScanLines(ys);
    forall i | 0 <= i < |l|
      ensures l[i] == r[i]
    {
      if i < |xs| {
        assert (xs + ys)[i] == xs[i];
      } else {
        assert (xs + ys)[i] == ys[i - |xs|];
      }
    }
  }

  /** Lines passed over after a load without exception change nothing. */
  lemma {:induction false} LoadFromSkippedTail(cs: seq<ScannedLine>, ds: seq<ScannedLine>, words: seq<Int16>)
    requires LoadFrom(cs, words).error.None?
    requires forall k :: 0 <= k < |ds| ==> ds[k].PassedOver?
    ensures LoadFrom(cs + ds, words) == LoadFrom(cs, words)
    decreases |cs| + |ds|
  {
    if cs == [] {
      if ds != [] {
        assert [] + ds == ds && [] + ds[1..] == ds[1..];
        LoadFromSkippedTail([], ds[1..], words);
      }
    } else {
      assert (cs + ds)[0] == cs[0] && (cs + ds)[1..] == cs[1..] + ds;
      match cs[0]
      case PassedOver => LoadFromSkippedTail(cs[1..], ds, words);
      case Field(_, None) =>
      case Field(_, Some(v)) =>
        if |words| < MEMORY_SIZE {
          LoadFromSkippedTail(cs[1..], ds, words + [v]);
        }
    }
  }

  /** Writing one more word changes only its address in the image. */
  lemma ImageAppend(words: seq<Int16>, v: Int16)
    requires |words| < MEMORY_SIZE
    ensures Image(words + [v]) == Image(words)[|words| := v as Int32]
  {
  }
}
