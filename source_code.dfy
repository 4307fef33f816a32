/**
 * The `SourceCode` model object: the assembly text, the compiled text shown
 * beside it, the symbol table of the last assembly and the linked main
 * memory.  `Assemble` runs the two passes line by line; `WriteToMemory`
 * loads the compiled text into memory.  Each method is proved against the
 * functions of `Assembler` and `Loader`.
 */
module SourceCodeModel {
  import opened Wrappers
  import opened JavaText
  import opened JavaNumbers
  import opened MainMemoryModel
  import opened Assembler
  import opened Loader

  /** The text `compiledCode` holds before the first assembly. */
  const InitialMessage: string :=
    "Pressione 'Assemble' para compilar.\n\n" +
    "Pressione 'Write code to Main Memory' para enviar os dados para a memória principal."

  /** `Prepend` twice is `Prepend` of both prefixes at once. */
  lemma PrependTwice(a: seq<string>, b: seq<string>, r: Result<seq<string>, AsmError>)
    ensures Prepend(a, Prepend(b, r)) == Prepend(a + b, r)
  {
    if r.Success? {
      assert a + (b + r.value) == (a + b) + r.value;
    }
  }

  /** `Prepend` of nothing keeps the result. */
  lemma PrependNothing(r: Result<seq<string>, AsmError>)
    ensures Prepend([], r) == r
  {
    if r.Success? {
      assert [] + r.value == r.value;
    }
  }

  class SourceCode {
    /** `assemblyCode`: the source the user edits. */
    var assemblyCode: string
    /** `compiledCode`: the assembled lines, or a status or error report. */
    var compiledCode: string
    /** `mainMemory`: the memory `writeToMemory` loads into, once linked. */
    var mainMemory: MainMemory?
    /** `symbolTable`: the labels of the last assembly and their addresses. */
    var symbolTable: map<string, int>

    /** `new SourceCode()`: no source, the initial message, no memory, an empty table. */
    constructor ()
      ensures assemblyCode == "" && compiledCode == InitialMessage
      ensures mainMemory == null && symbolTable == map[]
    {
      assemblyCode := "";
      compiledCode := InitialMessage;
      mainMemory := null;
      symbolTable := map[];
    }

    /** `assemblyCodeProperty().set(code)`: the user's edit of the source. */
    method SetAssemblyCode(code: string)
      modifies this
      ensures assemblyCode == code
      ensures compiledCode == old(compiledCode) && mainMemory == old(mainMemory) && symbolTable == old(symbolTable)
    {
      assemblyCode := code;
    }

    /** `linkMainMemory(memory)`. */
    method LinkMainMemory(memory: MainMemory?)
      modifies this
      ensures mainMemory == memory
      ensures assemblyCode == old(assemblyCode) && compiledCode == old(compiledCode) && symbolTable == old(symbolTable)
    {
      mainMemory := memory;
    }

    /**
     * `assemble`: the compiled text becomes the assembly of the source (its
     * lines, or the report of the first error), and the symbol table holds
     * what pass 1 entered before it finished or stopped.
     */
    method Assemble()
      modifies this
      ensures assemblyCode == old(assemblyCode) && mainMemory == old(mainMemory)
      ensures compiledCode == CompiledText(Assembler.Assemble(assemblyCode))
      ensures symbolTable == Pass1(Classify(SplitOn(assemblyCode, '\n'))).state.table
    {
      var ls := Classify(SplitOn(assemblyCode, '\n'));
      var duplicate := CollectSymbols(ls);
      if duplicate.Some? {
        compiledCode := CompiledText(Failure(DuplicateLabel(duplicate.value)));
        return;
      }
      var text := Translate(EncoderFor(symbolTable), ls);
      compiledCode := if text.Success? then text.value else CompiledText(Failure(text.error));
    }

    /**
     * Pass 1 of `assemble`: the table is cleared and filled line by line; a
     * label already in the table stops the pass and is returned.
     */
    method CollectSymbols(ls: seq<SourceLine>) returns (duplicate: Option<string>)
      modifies this
      ensures symbolTable == Pass1(ls).state.table
      ensures duplicate == if Pass1(ls).Pass1Failed? then Some(Pass1(ls).duplicate) else None
      ensures assemblyCode == old(assemblyCode) && compiledCode == old(compiledCode) && mainMemory == old(mainMemory)
    {
      symbolTable := map[];
      var currentAddress := 0;
      var variableAddress := LastAddress;
      var i := 0;
      while i < |ls|
        invariant 0 <= i <= |ls|
        invariant Pass1From(SymbolState(symbolTable, currentAddress, variableAddress), ls[i..]) == Pass1(ls)
        invariant assemblyCode == old(assemblyCode) && compiledCode == old(compiledCode) && mainMemory == old(mainMemory)
      {
        assert ls[i..][0] == ls[i] && ls[i..][1..] == ls[i + 1..];
        match ls[i] {
          case Skipped =>
          case VariableDecl(name) =>
            if name in symbolTable {
              return Some(name);
            }
            symbolTable := symbolTable[name := variableAddress];
            variableAddress := variableAddress - 1;
          case Instruction(tag, _) =>
            if tag.Some? {
              if tag.value in symbolTable {
                return Some(tag.value);
              }
              symbolTable := symbolTable[tag.value := currentAddress];
            }
            currentAddress := currentAddress + 1;
        }
        i := i + 1;
      }
      assert ls[|ls|..] == [];
      return None;
    }

    /**
     * `writeToMemory`: without a linked memory only a warning is put in front
     * of the compiled text.  Otherwise memory is cleared and then holds the
     * words the compiled text loads from address 0, every other word 0, and
     * the compiled text reports the load.
     */
    method WriteToMemory()
      requires mainMemory != null ==> mainMemory.Valid()
      modifies this, if mainMemory == null then {} else {mainMemory, mainMemory.memoryArray}
      ensures assemblyCode == old(assemblyCode) && symbolTable == old(symbolTable) && mainMemory == old(mainMemory)
      ensures mainMemory == null ==> compiledCode == UnlinkedReport(old(compiledCode))
      ensures mainMemory != null ==>
        var r := Load(old(compiledCode));
        && mainMemory.Valid()
        && mainMemory.memoryArray[..] == Image(r.words)
        && compiledCode == LoadReport(old(compiledCode), r)
    {
      if mainMemory == null {
        compiledCode := UnlinkedReport(compiledCode);
        return;
      }
      var code := compiledCode;
      var error := LoadLines(mainMemory, SplitOn(code, '\n'));
      if error.Some? {
        compiledCode := "ERRO AO GRAVAR NA MEMÓRIA:\n" + LoadErrorMessage(error.value);
      } else if !StartsWith(code, "ERRO") {
        compiledCode := code + "\n\n" + LoadedNote;
      }
    }
  }

  /**
   * Pass 2 of `assemble`: every instruction translated by `encode` (the
   * encoder of the symbol table) and appended to the text with a newline,
   * or the first error.
   */
  method Translate(encode: Encoder, ls: seq<SourceLine>) returns (r: Result<string, AsmError>)
    ensures r == match Pass2From(encode, 0, ls)
                 case Success(out) => Success(Render(out))
                 case Failure(e) => Failure(e)
  {
    var compiledText := "";
    ghost var emitted: seq<string> := [];
    var currentAddress := 0;
    var i := 0;
    assert ls[0..] == ls;
    PrependNothing(Pass2From(encode, 0, ls));
    while i < |ls|
      invariant 0 <= i <= |ls|
      invariant Pass2From(encode, 0, ls) == Prepend(emitted, Pass2From(encode, currentAddress, ls[i..]))
      invariant compiledText == Render(emitted)
    {
      assert ls[i..][0] == ls[i] && ls[i..][1..] == ls[i + 1..];
      match ls[i] {
        case Instruction(_, text) =>
          var w := encode(text, currentAddress);
          if w.Failure? {
            return Failure(w.error);
          }
          PrependTwice(emitted, [w.value], Pass2From(encode, currentAddress + 1, ls[i + 1..]));
          compiledText := compiledText + w.value + "\n";
          emitted := emitted + [w.value];
          currentAddress := currentAddress + 1;
        case _ =>
      }
      i := i + 1;
    }
    assert ls[|ls|..] == [] && emitted + [] == emitted;
    return Success(compiledText);
  }

  /**
   * The loop of `writeToMemory`: memory is cleared, then each line's word
   * is written at the next address until the lines run out or an exception
   * ends the loop, which is returned.
   */
  method LoadLines(memory: MainMemory, lines: seq<string>) returns (error: Option<LoadError>)
    requires memory.Valid()
    modifies memory, memory.memoryArray
    ensures var r := LoadFrom(ScanLines(lines), []);
      && memory.Valid() && error == r.error
      && |r.words| <= MEMORY_SIZE && memory.memoryArray[..] == Image(r.words)
  {
    ghost var cs := ScanLines(lines);
    LoadFromStart(cs);
    memory.ClearMemory();
    assert Image([]) == ZeroWords(MEMORY_SIZE);
    var address := 0;
    ghost var words: seq<Int16> := [];
    var i := 0;
    while i < |lines|
      modifies memory, memory.memoryArray
      invariant 0 <= i <= |lines|
      invariant memory.Valid() && address == |words| <= MEMORY_SIZE
      invariant LoadFrom(cs[i..], words) == LoadFrom(cs, [])
      invariant memory.memoryArray[..] == Image(words)
    {
      assert cs[i..][0] == cs[i] && cs[i..][1..] == cs[i + 1..];
      var line := lines[i];
      if !IsSkipped(line) {
        var binaryCode := WordField(line);
        if Utf16Length(binaryCode) == 16 {
          var parsed := ParseLongBinary(binaryCode);
          if parsed.None? {
            return Some(BadWord(binaryCode));
          }
          var shortVal := ToShort(parsed.value);
          var outcome := memory.Write(address, shortVal);
          if outcome.Fail? {
            return Some(StoreFailed(outcome.error));
          }
          ImageAppend(words, shortVal);
          words := words + [shortVal];
          address := address + 1;
        }
      }
      i := i + 1;
    }
    assert cs[|lines|..] == [];
    return None;
  }
}
