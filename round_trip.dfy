/**
 * The assembler and the loader together: the compiled text of a successful
 * assembly loads, line by line, the sixteen digits at the head of each line,
 * and the memory view decodes each of them back to the operand of its
 * instruction; the report of a failed assembly loads nothing and is kept as
 * it is.
 */
module RoundTrip {
  import opened Wrappers
  import opened JavaText
  import opened JavaNumbers
  import opened WordDecoder
  import opened MainMemoryModel
  import opened Assembler
  import opened AssemblerProperties
  import opened EncodingProperties
  import opened Loader

  // ------------------------------------------------------ one line per line

  /** A classified line whose label and instruction hold no newline. */
  predicate OneLine(l: SourceLine) {
    && (l.Instruction? ==> '\n' !in l.text)
    && (LabelOf(l).Some? ==> '\n' !in LabelOf(l).value)
  }

  /** The label and the instruction of a line are pieces of it. */
  lemma ParseLineOneLine(raw: string)
    requires '\n' !in raw
    ensures OneLine(ParseLine(raw))
  {
    var line := Trim(raw);
    TrimExcludes(raw, '\n');
    if line == [] || line[0] == '/' {
      assert ParseLine(raw) == Skipped;
    } else if ':' in line {
      var k := IndexOf(line, ':');
      ColonPartsOneLine(line, k);
      var name, rest := Trim(line[..k]), Trim(line[k + 1..]);
      assert ParseLine(raw) == if rest == [] then VariableDecl(name) else Instruction(Some(name), rest);
    } else {
      assert ParseLine(raw) == Instruction(None, line);
    }
  }

  /** Both sides of a colon, trimmed, are pieces of the line. */
  lemma ColonPartsOneLine(line: string, k: nat)
    requires '\n' !in line && k < |line|
    ensures '\n' !in Trim(line[..k]) && '\n' !in Trim(line[k + 1..])
  {
    SliceExcludes(line, '\n', 0, k);
    SliceExcludes(line, '\n', k + 1, |line|);
    TrimExcludes(line[..k], '\n');
    TrimExcludes(line[k + 1..], '\n');
  }

  /** No classified line holds a newline when no line of the source does. */
  lemma ClassifyOneLine(lines: seq<string>)
    requires forall i :: 0 <= i < |lines| ==> '\n' !in lines[i]
    ensures forall i :: 0 <= i < |lines| ==> OneLine(Classify(lines)[i])
  {
    forall i | 0 <= i < |lines|
      ensures OneLine(Classify(lines)[i])
    {
      ParseLineOneLine(lines[i]);
    }
  }

  /** An encoder that turns every one-line instruction into a word line on one line. */
  ghost predicate EmitsWordLines(encode: Encoder) {
    forall text, n :: '\n' !in text && encode(text, n).Success? ==>
      IsWordLine(encode(text, n).value) && '\n' !in encode(text, n).value
  }

  /** Pass 2 over one-line instructions with such an encoder emits only word lines, each on one line. */
  lemma {:induction false} Pass2Lines(encode: Encoder, at: int, ls: seq<SourceLine>)
    requires EmitsWordLines(encode)
    requires forall i :: 0 <= i < |ls| ==> OneLine(ls[i])
    ensures var r := Pass2From(encode, at, ls);
      r.Success? ==> forall k :: 0 <= k < |r.value| ==> IsWordLine(r.value[k]) && '\n' !in r.value[k]
    decreases |ls|
  {
    if ls != [] {
      assert forall i :: 0 <= i < |ls[1..]| ==> ls[1..][i] == ls[i + 1];
      if ls[0].Instruction? {
        Pass2Lines(encode, at + 1, ls[1..]);
        var w := encode(ls[0].text, at);
        if w.Success? && Pass2From(encode, at + 1, ls[1..]).Success? {
          var rest := Pass2From(encode, at + 1, ls[1..]).value;
          var out := Pass2From(encode, at, ls).value;
          assert out == [w.value] + rest;
          assert IsWordLine(w.value) && '\n' !in w.value;
          forall k | 0 <= k < |out|
            ensures IsWordLine(out[k]) && '\n' !in out[k]
          {
            if k > 0 {
              assert out[k] == rest[k - 1];
            }
          }
        }
      } else {
        Pass2Lines(encode, at, ls[1..]);
        assert Pass2From(encode, at, ls) == Pass2From(encode, at, ls[1..]);
      }
    }
  }

  /** The encoder of any symbol table emits word lines. */
  lemma EncoderEmitsWordLines(table: map<string, int>)
    ensures EmitsWordLines(EncoderFor(table))
  {
    forall text, n | '\n' !in text
      ensures var r := EncoderFor(table)(text, n); r.Success? ==> IsWordLine(r.value) && '\n' !in r.value
    {
      EncodedInstructionLine(text, table, n);
    }
  }

  /** Every line of a successful assembly is a word line: sixteen binary digits, " / ", a note, and no newline. */
  lemma AssembledLines(source: string)
    requires Assemble(source).Success?
    ensures var out := Assemble(source).value;
      forall k :: 0 <= k < |out| ==> IsWordLine(out[k]) && '\n' !in out[k]
  {
    var lines := SplitOn(source, '\n');
    ClassifyOneLine(lines);
    var ls := Classify(lines);
    var table := Pass1(ls).state.table;
    EncoderEmitsWordLines(table);
    Pass2Lines(EncoderFor(table), 0, ls);
    assert Assemble(source) == Pass2From(EncoderFor(table), 0, ls);
  }

  // ------------------------------------------------------- loading the lines

  /** The word the loader stores for an output line: its sixteen leading digits, cut to a `short`. */
  function StoredWord(line: string): Int16
    requires |line| >= 16
  {
    ToShort(BinValue(line[..16]))
  }

  /** The loader reads a word line's first sixteen digits and nothing else. */
  lemma ScanWordLine(line: string)
    requires IsWordLine(line)
    ensures Scan(line) == Field(line[..16], Some(StoredWord(line)))
  {
    var b := line[..16];
    WordLineField(line);
    assert line[0] == b[0] && IsBinary(b);
    assert !IsSkipped(line);
    ParseLongOfBinary(b);
  }

  /** The field of a word line: the text before its '/' is its sixteen digits and a space. */
  lemma WordLineField(line: string)
    requires IsWordLine(line)
    ensures WordField(line) == line[..16]
  {
    var b := line[..16];
    assert line[17] == '/';
    assert forall i :: 0 <= i < 16 ==> line[i] == b[i];
    assert IndexOf(line, '/') == 17;
    assert line[..17] == b + " ";
    assert !IsTrimmed(b[0]) && !IsTrimmed(b[15]);
    TrimTrailingSpace(b);
  }

  /** Only candidate lines count: a line passed over adds nothing. */
  lemma {:induction false} FieldsSnocPassedOver(cs: seq<ScannedLine>)
    ensures Fields(cs + [PassedOver]) == Fields(cs)
    decreases |cs|
  {
    if cs != [] {
      assert (cs + [PassedOver])[1..] == cs[1..] + [PassedOver];
      FieldsSnocPassedOver(cs[1..]);
    } else {
      assert Fields([PassedOver]) == Fields([PassedOver][1..]);
    }
  }

  /** Lines that are all candidates are all kept, in order. */
  lemma {:induction false} FieldsOfFields(cs: seq<ScannedLine>)
    requires forall k :: 0 <= k < |cs| ==> cs[k].Field?
    ensures Fields(cs) == cs
    decreases |cs|
  {
    if cs != [] {
      FieldsOfFields(cs[1..]);
      assert [cs[0]] + cs[1..] == cs;
    }
  }

  /** A 16-digit pattern, stored as a `short`, shows its own digits again. */
  lemma FormatStored(b: string)
    requires |b| == 16 && IsBinary(b)
    ensures FormatBinary(ToShort(BinValue(b))) == b
  {
    BinValueBound(b);
    Pow2Values();
    BinaryInjective(FormatBinary(ToShort(BinValue(b))), b);
  }

  /**
   * Loading word lines, with the empty piece after the last newline, writes
   * the word of the `k`-th line at address `k`, for as many lines as memory
   * holds; more than 4096 lines fill memory and then fail on address 4096.
   */
  lemma LoadWordLines(out: seq<string>)
    requires forall k :: 0 <= k < |out| ==> IsWordLine(out[k])
    ensures var r := LoadFrom(ScanLines(out + [""]), []);
      && |r.words| <= |out|
      && |r.words| == (if |out| <= MEMORY_SIZE then |out| else MEMORY_SIZE)
      && (r.error.None? <==> |out| <= MEMORY_SIZE)
      && (r.error.Some? ==> r.error.value == StoreFailed(IndexOutOfBounds(MEMORY_SIZE)))
      && forall k :: 0 <= k < |r.words| ==> IsWordLine(out[k]) && r.words[k] == StoredWord(out[k])
  {
    var cs := ScanLines(out + [""]);
    var fs := seq(|out|, k requires 0 <= k < |out| => Field(out[k][..16], Some(StoredWord(out[k]))));
    forall k | 0 <= k < |out|
      ensures cs[k] == fs[k]
    {
      ScanWordLine(out[k]);
    }
    assert cs == fs + [PassedOver];
    FieldsSnocPassedOver(fs);
    FieldsOfFields(fs);
    LoadFromStart(cs);
  }

  /** The rendered text of word lines loads as `LoadWordLines` says: splitting it gives the lines and one empty piece. */
  lemma RenderedLinesLoad(out: seq<string>)
    requires forall k :: 0 <= k < |out| ==> IsWordLine(out[k]) && '\n' !in out[k]
    ensures Load(Render(out)) == LoadFrom(ScanLines(out + [""]), [])
  {
    SplitRender(out);
  }

  /**
   * Loading the compiled text of a successful assembly writes the word of
   * its `k`-th line at address `k`, for as many lines as memory holds, and
   * the memory view shows each word as that line's sixteen digits.  A
   * program of more than 4096 instructions fills memory and then fails on
   * address 4096.
   */
  lemma AssembledTextLoads(source: string)
    requires Assemble(source).Success?
    ensures var out, r := Assemble(source).value, Load(CompiledText(Assemble(source)));
      && |r.words| == (if |out| <= MEMORY_SIZE then |out| else MEMORY_SIZE)
      && (r.error.None? <==> |out| <= MEMORY_SIZE)
      && (r.error.Some? ==> r.error.value == StoreFailed(IndexOutOfBounds(MEMORY_SIZE)))
      && forall k :: 0 <= k < |r.words| ==>
           && IsWordLine(out[k]) && r.words[k] == StoredWord(out[k])
           && FormatBinary(r.words[k]) == out[k][..16]
  {
    var out := Assemble(source).value;
    AssembledLines(source);
    RenderedLinesLoad(out);
    LoadWordLines(out);
    var r := Load(Render(out));
    forall k | 0 <= k < |r.words|
      ensures FormatBinary(r.words[k]) == out[k][..16]
    {
      FormatStored(out[k][..16]);
    }
  }

  /**
   * The `n`-th instruction of a successful assembly ends up in memory at
   * address `n`, as the word its own translation begins with, whenever that
   * address exists.
   */
  lemma LoadedInstruction(source: string, i: nat)
    requires Assemble(source).Success?
    requires var ls := Classify(SplitOn(source, '\n'));
      i < |ls| && ls[i].Instruction? && InstructionCount(ls[..i]) < MEMORY_SIZE
    ensures var ls := Classify(SplitOn(source, '\n'));
      var n, table := InstructionCount(ls[..i]), Pass1(ls).state.table;
      var r, w := Load(CompiledText(Assemble(source))), EncodeInstruction(ls[i].text, table, n);
      && w.Success? && IsWordLine(w.value)
      && n < |r.words| && r.words[n] == StoredWord(w.value)
  {
    var ls := Classify(SplitOn(source, '\n'));
    AssembleLinesResult(ls);
    Pass1SucceedsIffDistinct(ls);
    var out := Assemble(source).value;
    AssembledTextLoads(source);
    var n := InstructionCount(ls[..i]);
    assert out[n] == EncodeAt(EncoderFor(Pass1(ls).state.table), 0, ls, i).value;
  }

  // ----------------------------------------------------- decoding the words

  /** The memory view of the word a word line stores, read off the line's sixteen digits. */
  lemma DecodeStored(b: string, note: string)
    requires |b| == 16 && IsBinary(b)
    ensures var line := WordLine(b, note);
      && |line| >= 16 && line[..16] == b
      && var d, top, byte := Decode(StoredWord(line)), BinValue(b[..4]), BinValue(b[..8]);
         && d.binary == b
         && (top <= 14 ==>
               && d.hex == BinValue(b[4..])
               && d.decimal == (if top == 7 && b[4] == '1' then d.hex - 4096 else d.hex))
         && (top == 15 && (byte == 0xFC || byte == 0xFE) ==> d.decimal == d.hex == BinValue(b[8..]))
         && (top == 15 && byte != 0xFC && byte != 0xFE ==> d.decimal == 0 && d.hex == 0)
  {
    var line := WordLine(b, note);
    assert line[..16] == b;
    FormatStored(b);
    DecodeFromBits(StoredWord(line));
    BitFields(b);
  }

  /**
   * LOCO x, loaded and shown: the hexadecimal column is x mod 4096, and the
   * decimal column gives x back whenever x fits in 12 signed bits.
   */
  lemma LocoDecodes(op: Option<string>, table: map<string, int>, at: int)
    requires ParseOperand(op).Some?
    ensures var r, x := Encode("LOCO", op, table, at), ParseOperand(op).value;
      && r.Success? && |r.value| >= 16
      && var d := Decode(StoredWord(r.value));
         && d.binary == r.value[..16]
         && d.hex == x % 4096
         && (-2048 <= x < 2048 ==> d.decimal == x)
  {
    var x := ParseOperand(op).value;
    EncodeLoco(op, table, at);
    LocoWordDecodes(x, SymbolNote("LOCO", op.value, x));
  }

  /** The word of LOCO x: opcode 0111 and the low 12 bits of x. */
  lemma LocoWordDecodes(x: int, note: string)
    ensures x % 4096 < Pow2(12)
    ensures var line := WordLine("0111" + Bits(x % 4096, 12), note);
      && |line| >= 16
      && var d := Decode(StoredWord(line));
         && d.binary == line[..16]
         && d.hex == x % 4096
         && (-2048 <= x < 2048 ==> d.decimal == x)
  {
    Pow2Values();
    LocoWordFields(x % 4096, note);
    if -2048 <= x < 2048 {
      Signed12(x);
    }
  }

  /** The word 0111 followed by `u` in 12 bits shows `u` in hexadecimal and `u` read as signed 12 bits in decimal. */
  lemma LocoWordFields(u: nat, note: string)
    requires u < 4096
    ensures u < Pow2(12)
    ensures var line := WordLine("0111" + Bits(u, 12), note);
      && |line| >= 16
      && var d := Decode(StoredWord(line));
         && d.binary == line[..16]
         && d.hex == u
         && d.decimal == if u >= 2048 then u - 4096 else u
  {
    Pow2Values();
    var field := Bits(u, 12);
    var b := "0111" + field;
    ConcatBinary("0111", field);
    DecodeStored(b, note);
    BitFields(b);
    assert b[..4] == "0111" && b[4..] == field;
    BinValue4("0111");
  }

  /** A number in -2048..2047 is its low 12 bits read as a signed 12-bit number. */
  lemma Signed12(x: int)
    requires -2048 <= x < 2048
    ensures (if x % 4096 >= 2048 then x % 4096 - 4096 else x % 4096) == x
  {
    if x < 0 {
      assert x % 4096 == x + 4096;
    }
  }

  /** An address instruction, loaded and shown: both value columns give the symbol's address. */
  lemma AddressDecodes(m: string, op: Option<string>, table: map<string, int>, at: int)
    requires m in AddressMnemonics && op.Some? && op.value in table && 0 <= table[op.value] <= 4095
    ensures var r, a := Encode(m, op, table, at), table[op.value];
      && r.Success? && |r.value| >= 16
      && var d := Decode(StoredWord(r.value));
         d.binary == r.value[..16] && d.hex == a && d.decimal == a
  {
    var a := table[op.value];
    AddressEncoding(m, op, table, at);
    AddressOpcode(m);
    AddressWordDecodes(Opcodes[m], a, SymbolNote(m, op.value, a));
  }

  /** The successful translation of an address instruction. */
  lemma AddressEncoding(m: string, op: Option<string>, table: map<string, int>, at: int)
    requires m in AddressMnemonics && op.Some? && op.value in table && 0 <= table[op.value] <= 4095
    ensures Encode(m, op, table, at) ==
      Success(WordLine(Opcodes[m] + Bits(table[op.value], 12), SymbolNote(m, op.value, table[op.value])))
  {
    EncodeAddress(m, op, table, at);
  }

  /** The opcode of an address instruction: four binary digits, neither 0111 nor 1111. */
  lemma AddressOpcode(m: string)
    requires m in AddressMnemonics
    ensures |Opcodes[m]| == 4 && IsBinary(Opcodes[m]) && BinValue(Opcodes[m]) <= 14 && BinValue(Opcodes[m]) != 7
  {
    OpcodeLength(m);
    ShortOpcodeValue(m);
  }

  /** The word of an address instruction: a 4-bit opcode other than 0111 and 1111, and a 12-bit address. */
  lemma AddressWordDecodes(opcode: string, a: nat, note: string)
    requires |opcode| == 4 && IsBinary(opcode) && BinValue(opcode) <= 14 && BinValue(opcode) != 7
    requires a <= 4095
    ensures a < Pow2(12)
    ensures var line := WordLine(opcode + Bits(a, 12), note);
      && |line| >= 16
      && var d := Decode(StoredWord(line));
         d.binary == line[..16] && d.hex == a && d.decimal == a
  {
    Pow2Values();
    var field := Bits(a, 12);
    var b := opcode + field;
    ConcatBinary(opcode, field);
    DecodeStored(b, note);
    assert b[..4] == opcode && b[4..] == field;
  }

  /** INSP y or DESP y, loaded and shown: both value columns give y. */
  lemma ByteDecodes(m: string, op: Option<string>, table: map<string, int>, at: int)
    requires (m == "INSP" || m == "DESP") && ParseOperand(op).Some? && 0 <= ParseOperand(op).value <= 255
    ensures var r, y := Encode(m, op, table, at), ParseOperand(op).value;
      && r.Success? && |r.value| >= 16
      && var d := Decode(StoredWord(r.value));
         d.binary == r.value[..16] && d.hex == y && d.decimal == y
  {
    var y := ParseOperand(op).value;
    ByteEncoding(m, op, table, at);
    ByteWordDecodes(Opcodes[m], y, m + " " + IntToString(y));
  }

  /** The successful translation of INSP or DESP, with what its opcode is. */
  lemma ByteEncoding(m: string, op: Option<string>, table: map<string, int>, at: int)
    requires (m == "INSP" || m == "DESP") && ParseOperand(op).Some? && 0 <= ParseOperand(op).value <= 255
    ensures |Opcodes[m]| == 8 && IsBinary(Opcodes[m]) && (BinValue(Opcodes[m]) == 0xFC || BinValue(Opcodes[m]) == 0xFE)
    ensures var y := ParseOperand(op).value;
      Encode(m, op, table, at) == Success(WordLine(Opcodes[m] + Bits(y, 8), m + " " + IntToString(y)))
  {
    EncodeByteOperand(m, op, table, at);
    OpcodeLength(m);
    ByteOpcodeValue();
  }

  /** The word of INSP or DESP: an 8-bit extended opcode 0xFC or 0xFE, and an 8-bit operand. */
  lemma ByteWordDecodes(opcode: string, y: nat, note: string)
    requires |opcode| == 8 && IsBinary(opcode) && (BinValue(opcode) == 0xFC || BinValue(opcode) == 0xFE)
    requires y <= 255
    ensures y < Pow2(8)
    ensures var line := WordLine(opcode + Bits(y, 8), note);
      && |line| >= 16
      && var d := Decode(StoredWord(line));
         d.binary == line[..16] && d.hex == y && d.decimal == y
  {
    Pow2Values();
    var field := Bits(y, 8);
    var b := opcode + field;
    ConcatBinary(opcode, field);
    DecodeStored(b, note);
    assert b[..8] == opcode && b[8..] == field;
    assert b[..8][..4] == b[..4];
    ExtendedOpcodeNibble(opcode);
  }

  /** An extended opcode 0xFC or 0xFE has leading nibble 1111. */
  lemma ExtendedOpcodeNibble(opcode: string)
    requires |opcode| == 8 && (BinValue(opcode) == 0xFC || BinValue(opcode) == 0xFE)
    ensures BinValue(opcode[..4]) == 15
  {
    BinValue8(opcode);
    BinValueBound(opcode[4..]);
    Pow2Values();
  }

  /** A stack instruction, loaded and shown: both value columns are 0. */
  lemma FixedDecodes(m: string, op: Option<string>, table: map<string, int>, at: int)
    requires m in FixedMnemonics
    ensures var r := Encode(m, op, table, at);
      && r.Success? && |r.value| >= 16
      && var d := Decode(StoredWord(r.value));
         d.binary == r.value[..16] && d.hex == 0 && d.decimal == 0
  {
    EncodeFixed(m, op, table, at);
    OpcodeLength(m);
    FixedOpcodeValue(m);
    var b := Opcodes[m];
    DecodeStored(b, m);
    BitFields(b);
  }

  // -------------------------------------------------- a failed assembly

  /** The names an error carries hold no newline. */
  predicate ErrorOneLine(e: AsmError) {
    match e
    case DuplicateLabel(l) => '\n' !in l
    case UnknownMnemonic(m, _) => '\n' !in m
    case MissingOperand(m, _) => '\n' !in m
    case UndefinedSymbol(s, _) => '\n' !in s
    case ByteOutOfRange(_) => true
    case AddressOutOfRange(s, _) => '\n' !in s
    case NumberFormat(input) => input.Some? ==> '\n' !in input.value
  }

  /** An error of one instruction names its mnemonic or its operand as written, or neither. */
  lemma EncodeErrorNames(m: string, op: Option<string>, table: map<string, int>, at: int)
    ensures var r := Encode(m, op, table, at);
      r.Failure? ==>
        || r.error == UnknownMnemonic(m, at) || r.error == MissingOperand(m, at)
        || r.error == ByteOutOfRange(at) || r.error == NumberFormat(op)
        || (op.Some? && (r.error == UndefinedSymbol(op.value, at) || r.error == AddressOutOfRange(op.value, at)))
  {
  }

  /** An encoder whose errors, on one-line instructions, name only one-line pieces. */
  ghost predicate ErrsOnOneLine(encode: Encoder) {
    forall text, n :: '\n' !in text && encode(text, n).Failure? ==> ErrorOneLine(encode(text, n).error)
  }

  /** The encoder of any symbol table errs on one line. */
  lemma EncoderErrsOnOneLine(table: map<string, int>)
    ensures ErrsOnOneLine(EncoderFor(table))
  {
    forall text, n | '\n' !in text
      ensures var r := EncoderFor(table)(text, n); r.Failure? ==> ErrorOneLine(r.error)
    {
      MnemonicOneLine(text);
      OperandOneLine(text);
      EncodeErrorNames(Mnemonic(text), Operand(text), table, n);
    }
  }

  /** A label pass 1 finds twice is a piece of a line. */
  lemma DuplicateOneLine(ls: seq<SourceLine>)
    requires forall i :: 0 <= i < |ls| ==> OneLine(ls[i])
    requires Pass1(ls).Pass1Failed?
    ensures '\n' !in Pass1(ls).duplicate
  {
    Pass1SucceedsIffDistinct(ls);
    var i, j :| 0 <= i < j < |ls| && LabelOf(ls[i]) == LabelOf(ls[j]) == Some(Pass1(ls).duplicate);
    assert OneLine(ls[j]);
  }

  /** Every error of a failed assembly names only pieces of single source lines. */
  lemma AssemblyErrorOneLine(source: string)
    requires Assemble(source).Failure?
    ensures ErrorOneLine(Assemble(source).error)
  {
    var lines := SplitOn(source, '\n');
    ClassifyOneLine(lines);
    var ls := Classify(lines);
    AssembleLinesResult(ls);
    if !DistinctLabels(ls) {
      DuplicateOneLine(ls);
    } else {
      var encode := EncoderFor(Pass1(ls).state.table);
      EncoderErrsOnOneLine(Pass1(ls).state.table);
      var j :| && 0 <= j < |ls| && ls[j].Instruction?
               && EncodeAt(encode, 0, ls, j) == Failure(Assemble(source).error);
      assert OneLine(ls[j]);
    }
  }

  /** The shape of a message the loader cannot read a word from: one line, starting with 'E', 'C' or 'F'. */
  predicate UnreadableLine(msg: string) {
    && '\n' !in msg && msg != []
    && (msg[0] == 'E' || msg[0] == 'C' || msg[0] == 'F')
  }

  /** Every assembly error message is such a line. */
  lemma MessageShape(e: AsmError)
    requires ErrorOneLine(e)
    ensures UnreadableLine(Message(e))
  {
    if e.DuplicateLabel? || e.NumberFormat? {
      UnnumberedMessageShape(e);
    } else {
      IntToStringOneLine(e.line);
      if e.UnknownMnemonic? {
        MnemonicMessageShape(e);
      } else if e.MissingOperand? {
        OperandMessageShape(e);
      } else if e.UndefinedSymbol? {
        SymbolMessageShape(e);
      } else if e.ByteOutOfRange? {
        ByteMessageShape(e);
      } else {
        AddressMessageShape(e);
      }
    }
  }

  lemma UnnumberedMessageShape(e: AsmError)
    requires ErrorOneLine(e) && (e.DuplicateLabel? || e.NumberFormat?)
    ensures UnreadableLine(Message(e))
  {
  }

  lemma MnemonicMessageShape(e: AsmError)
    requires ErrorOneLine(e) && e.UnknownMnemonic? && '\n' !in AtLine(e.line)
    ensures UnreadableLine(Message(e))
  {
  }

  lemma OperandMessageShape(e: AsmError)
    requires ErrorOneLine(e) && e.MissingOperand? && '\n' !in AtLine(e.line)
    ensures UnreadableLine(Message(e))
  {
    var head, tail := "Erro: Mnemônico '", "' requer um operando";
    assert '\n' !in head && '\n' !in tail && head[0] == 'E';
    assert Message(e) == head + e.mnemonic + tail + AtLine(e.line);
    JoinedLine(head, e.mnemonic, tail, AtLine(e.line));
  }

  /** Four pieces without a newline, joined, make one line starting where the first does. */
  lemma JoinedLine(a: string, b: string, c: string, d: string)
    requires a != [] && '\n' !in a && '\n' !in b && '\n' !in c && '\n' !in d
    ensures '\n' !in a + b + c + d && (a + b + c + d)[0] == a[0]
  {
  }

  lemma SymbolMessageShape(e: AsmError)
    requires ErrorOneLine(e) && e.UndefinedSymbol? && '\n' !in AtLine(e.line)
    ensures UnreadableLine(Message(e))
  {
  }

  lemma ByteMessageShape(e: AsmError)
    requires e.ByteOutOfRange? && '\n' !in AtLine(e.line)
    ensures UnreadableLine(Message(e))
  {
  }

  lemma AddressMessageShape(e: AsmError)
    requires ErrorOneLine(e) && e.AddressOutOfRange? && '\n' !in AtLine(e.line)
    ensures UnreadableLine(Message(e))
  {
  }

  /**
   * A line that starts with neither a binary digit, a sign, '/' nor white
   * space holds no word: it is passed over, or its field does not parse.
   */
  lemma ScanUnreadable(line: string)
    requires line != [] && !IsTrimmed(line[0])
    requires line[0] != '/' && line[0] != '0' && line[0] != '1' && line[0] != '-' && line[0] != '+'
    ensures HoldsNoWord(Scan(line))
  {
    if IsCandidate(line) {
      var k := IndexOf(line, '/');
      assert k > 0;
      TrimKeepsHead(line[..k]);
      var field := WordField(line);
      assert field[0] == line[0];
      assert !IsBinary(field);
    }
  }

  /** Lines that hold no word load nothing; the load ends cleanly or at a field that does not parse. */
  lemma {:induction false} NoWordsLoad(cs: seq<ScannedLine>)
    requires forall k :: 0 <= k < |cs| ==> HoldsNoWord(cs[k])
    ensures var r := LoadFrom(cs, []);
      r.words == [] && (r.error.None? || r.error.value.BadWord?)
    decreases |cs|
  {
    if cs != [] && cs[0].PassedOver? {
      assert forall k :: 0 <= k < |cs[1..]| ==> cs[1..][k] == cs[k + 1];
      NoWordsLoad(cs[1..]);
    }
  }

  /** The text of a report with the message `msg`. */
  function Report(msg: string): string {
    ReportHead + "\n" + msg + "\n\n" + ReportTail
  }

  /** A report whose message is one line splits into its head, the message, an empty line and its tail. */
  lemma ReportLines(msg: string)
    requires '\n' !in msg
    ensures SplitOn(Report(msg), '\n') == [ReportHead, msg, "", ReportTail]
  {
    var parts := [ReportHead, msg, "", ReportTail];
    ReportJoin(msg);
    assert '\n' !in ReportHead && '\n' !in ReportTail;
    SplitJoin(parts, '\n');
  }

  /** A report is its four lines joined by newlines. */
  lemma ReportJoin(msg: string)
    ensures Join([ReportHead, msg, "", ReportTail], '\n') == Report(msg)
  {
    var parts := [ReportHead, msg, "", ReportTail];
    assert parts[1..] == [msg, "", ReportTail] && parts[1..][1..] == ["", ReportTail];
    assert parts[1..][1..][1..] == [ReportTail];
    var sep := '\n';
    assert Join(parts[1..][1..], sep) == "" + [sep] + ReportTail;
    assert Join(parts[1..], sep) == msg + [sep] + ("" + [sep] + ReportTail);
    assert Join(parts, sep) == ReportHead + [sep] + (msg + [sep] + ("" + [sep] + ReportTail));
  }

  /**
   * A report whose message is an unreadable line loads no word: loading it
   * leaves memory cleared, and ends cleanly or at the message line.
   */
  lemma ReportLoadsNothing(msg: string)
    requires UnreadableLine(msg)
    ensures var r := Load(Report(msg));
      r.words == [] && (r.error.None? || r.error.value.BadWord?)
  {
    ReportLines(msg);
    ReportFrameScans();
    ScanUnreadable(msg);
    NoWordLines(ReportHead, msg, "", ReportTail);
  }

  /** A scanned line that holds no word. */
  predicate HoldsNoWord(c: ScannedLine) {
    c.PassedOver? || c.value.None?
  }

  /** Four lines none of which holds a word load nothing. */
  lemma NoWordLines(a: string, b: string, c: string, d: string)
    requires HoldsNoWord(Scan(a)) && HoldsNoWord(Scan(b)) && HoldsNoWord(Scan(c)) && HoldsNoWord(Scan(d))
    ensures var r := LoadFrom(ScanLines([a, b, c, d]), []);
      r.words == [] && (r.error.None? || r.error.value.BadWord?)
  {
    var cs := ScanLines([a, b, c, d]);
    assert forall k :: 0 <= k < |cs| ==> HoldsNoWord(cs[k]);
    NoWordsLoad(cs);
  }

  /** The head of a report is passed over, and its tail holds no word. */
  lemma ReportFrameScans()
    ensures Scan(ReportHead).PassedOver?
    ensures HoldsNoWord(Scan(ReportTail))
  {
    assert StartsWith(ReportHead, "ERRO");
    ScanUnreadable(ReportTail);
  }

  /** The report of a failed assembly is a report of its message, which the loader cannot read a word from. */
  lemma ErrorReport(e: AsmError)
    requires ErrorOneLine(e)
    ensures CompiledText(Failure(e)) == Report(Message(e)) && UnreadableLine(Message(e))
  {
    MessageShape(e);
  }

  /**
   * Loading the text of a failed assembly writes no word, so memory stays
   * cleared; the load ends cleanly or at the message line.
   */
  lemma AssemblyErrorLoadsNothing(source: string)
    requires Assemble(source).Failure?
    ensures var r := Load(CompiledText(Assemble(source)));
      r.words == [] && (r.error.None? || r.error.value.BadWord?)
  {
    AssemblyErrorOneLine(source);
    ErrorReport(Assemble(source).error);
    ReportLoadsNothing(Message(Assemble(source).error));
  }
}
