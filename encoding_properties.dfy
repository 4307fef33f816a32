/**
 * What one instruction assembles to: the opcode table's shape, and for each
 * group of mnemonics the machine word or the error `EncodeInstruction`
 * produces.
 */
module EncodingProperties {
  import opened Wrappers
  import opened JavaText
  import opened JavaNumbers
  import opened Assembler

  /** The mnemonics that take no operand, with their full 16-bit patterns. */
  const FixedMnemonics: set<string> := {"PSHI", "POPI", "PUSH", "POP", "RETN", "SWAP"}

  /** The mnemonics whose operand is a symbol of the table. */
  const AddressMnemonics: set<string> := {
    "LODD", "STOD", "ADDD", "SUBD", "JPOS", "JZER", "JUMP",
    "LODL", "STOL", "ADDL", "SUBL", "JNEG", "JNZE", "CALL"
  }

  /** The opcode table holds exactly these 23 mnemonics. */
  lemma OpcodeKeys()
    ensures Opcodes.Keys == FixedMnemonics + AddressMnemonics + {"LOCO", "INSP", "DESP"}
  {
  }

  /** Every opcode is binary; its length, 16, 8 or 4 digits, tells the group of its mnemonic. */
  lemma OpcodeLength(m: string)
    requires m in Opcodes
    ensures IsBinary(Opcodes[m])
    ensures |Opcodes[m]| == 16 <==> m in FixedMnemonics
    ensures |Opcodes[m]| == 8 <==> m == "INSP" || m == "DESP"
    ensures |Opcodes[m]| == 4 <==> m in AddressMnemonics || m == "LOCO"
  {
  }

  /** The 4-bit opcodes are 0000-1110; 0111 belongs to LOCO alone. */
  lemma ShortOpcodeValue(m: string)
    requires m in AddressMnemonics || m == "LOCO"
    ensures BinValue(Opcodes[m]) <= 14
    ensures BinValue(Opcodes[m]) == 7 <==> m == "LOCO"
  {
    BinValue4(Opcodes[m]);
  }

  /** INSP and DESP are the extended opcodes 0xFC and 0xFE. */
  lemma ByteOpcodeValue()
    ensures BinValue(Opcodes["INSP"]) == 0xFC && BinValue(Opcodes["DESP"]) == 0xFE
  {
    ByteValue(Opcodes["INSP"]);
    ByteValue(Opcodes["DESP"]);
  }

  /** The value of eight digits, digit by digit. */
  lemma ByteValue(s: string)
    requires |s| == 8
    ensures BinValue(s) == 16 * (8 * BitOf(s[0]) + 4 * BitOf(s[1]) + 2 * BitOf(s[2]) + BitOf(s[3]))
                               + 8 * BitOf(s[4]) + 4 * BitOf(s[5]) + 2 * BitOf(s[6]) + BitOf(s[7])
  {
    BinValue8(s);
    BinValue4(s[..4]);
    BinValue4(s[4..]);
  }

  /** The stack instructions have leading nibble 1111, a high byte other than 0xFC and 0xFE, and a zero low byte. */
  lemma FixedOpcodeValue(m: string)
    requires m in FixedMnemonics
    ensures BinValue(Opcodes[m]) / 4096 == 15 && BinValue(Opcodes[m]) % 256 == 0
    ensures BinValue(Opcodes[m]) / 256 != 0xFC && BinValue(Opcodes[m]) / 256 != 0xFE
  {
    var op := Opcodes[m];
    assert |op| == 16 && op[..4] == "1111" && op[8..] == "00000000" && (op[4] == '0' || op[5] == '0');
    StackWordValue(op);
  }

  /** A word `1111 xxxx 0000 0000` whose second nibble is not 1100 or 1110. */
  lemma StackWordValue(op: string)
    requires |op| == 16 && op[..4] == "1111" && op[8..] == "00000000" && (op[4] == '0' || op[5] == '0')
    ensures BinValue(op) / 4096 == 15 && BinValue(op) % 256 == 0
    ensures BinValue(op) / 256 != 0xFC && BinValue(op) / 256 != 0xFE
  {
    var hi := op[..8];
    Pow2Values();
    BinValueConcat(hi, op[8..]);
    assert op == hi + op[8..];
    BinValue8(hi);
    assert hi[..4] == op[..4];
    BinValue4(op[..4]);
    BinValue4(hi[4..]);
    BinValue4(op[8..][..4]);
    BinValue4(op[8..][4..]);
    BinValue8(op[8..]);
    var v := BinValue(hi[4..]);
    assert BinValue(op) == 256 * (16 * 15 + v);
    ModOfSum(BinValue(op), 16 * 15 + v, 256, 0);
    ModOfSum(BinValue(op), 15, 4096, 256 * v);
  }

  /**
   * The LOCO operand field is the low 12 bits of the operand in two's
   * complement, for every `int` operand: both branches of the source agree
   * with this.
   */
  lemma {:induction false} LocoFieldLow12(x: Int32)
    ensures LocoField(x) == Bits(x % 4096, 12)
  {
    var u: nat := if x < 0 then x + 0x1_0000_0000 else x;
    assert ToBinaryString(x) == MinBinary(u);
    Unsigned32Low12(x);
    if |MinBinary(u)| > 12 {
      LowDigits12(u);
    } else {
      ShortBinaryNonNegative(x);
      PadDigits12(u);
    }
  }

  /** More than 12 digits: the last 12 are the value modulo 4096. */
  lemma {:induction false} LowDigits12(u: nat)
    requires |MinBinary(u)| > 12
    ensures MinBinary(u)[|MinBinary(u)| - 12..] == Bits(u % 4096, 12)
  {
    Pow2Values();
    SuffixBits(MinBinary(u), 12);
  }

  /** At most 12 digits: the value is below 4096 and padding gives its 12-digit rendering. */
  lemma {:induction false} PadDigits12(u: nat)
    requires |MinBinary(u)| <= 12
    ensures u < 4096 && u % 4096 == u && LeftPad(MinBinary(u), 12) == Bits(u, 12)
  {
    Pow2Values();
    MinBinaryLength(u, 12);
    ModOfSum(u, 0, 4096, u);
    PadMinBinary(u, 12);
  }

  /** A rendering of at most 12 digits comes from a non-negative `int`. */
  lemma {:induction false} ShortBinaryNonNegative(x: Int32)
    ensures |ToBinaryString(x)| <= 12 ==> x >= 0
  {
    if x < 0 {
      NegativeBinaryStringLength(x);
    }
  }

  /** Reading an `int` as unsigned keeps its low 12 bits. */
  lemma {:induction false} Unsigned32Low12(x: Int32)
    ensures (if x < 0 then x + 0x1_0000_0000 else x) % 4096 == x % 4096
  {
    if x < 0 {
      ModOfSum(x + 0x1_0000_0000, x / 4096 + 0x10_0000, 4096, x % 4096);
    }
  }

  /**
   * Two instruction texts that differ only in the case of ASCII letters have
   * the same mnemonic, and both have an operand or neither: white space is
   * never a letter, so both split at the same place.
   */
  lemma MnemonicIgnoresCase(t1: string, t2: string)
    requires |t1| == |t2| && forall i :: 0 <= i < |t1| ==> UpperChar(t1[i]) == UpperChar(t2[i])
    ensures Mnemonic(t1) == Mnemonic(t2)
    ensures Operand(t1).None? <==> Operand(t2).None?
  {
    forall i | 0 <= i < |t1|
      ensures IsRegexSpace(t1[i]) <==> IsRegexSpace(t2[i])
    {
      SpaceIgnoresCase(t1[i], t2[i]);
    }
    var k := FirstIndex(t1, IsRegexSpace);
    FirstIndexAgrees(t1, t2, IsRegexSpace);
    FirstWordAt(t1);
    FirstWordAt(t2);
    UpperIgnoresCase(t1[..k], t2[..k]);
  }

  /** A white-space character is only ever case-equal to itself. */
  lemma SpaceIgnoresCase(c: char, d: char)
    requires UpperChar(c) == UpperChar(d)
    ensures IsRegexSpace(c) <==> IsRegexSpace(d)
  {
    assert IsRegexSpace(c) ==> c == d;
    assert IsRegexSpace(d) ==> c == d;
  }

  /** Strings that agree on where `p` holds have the same first index where it holds. */
  lemma FirstIndexAgrees(s: string, t: string, p: char -> bool)
    requires |s| == |t| && forall i :: 0 <= i < |s| ==> (p(s[i]) <==> p(t[i]))
    ensures FirstIndex(s, p) == FirstIndex(t, p)
  {
  }

  /** The first word of a text ends at its first white space, and the operand is there exactly when that white space is. */
  lemma FirstWordAt(t: string)
    ensures var k := FirstIndex(t, IsRegexSpace);
      && SplitFirstWord(t).0 == t[..k] && (SplitFirstWord(t).1.None? <==> k == |t|)
  {
  }

  /** Case-equal strings upper-case alike. */
  lemma UpperIgnoresCase(s: string, t: string)
    requires |s| == |t| && forall i :: 0 <= i < |s| ==> UpperChar(s[i]) == UpperChar(t[i])
    ensures ToUpper(s) == ToUpper(t)
  {
  }

  /**
   * `line.split("\\s+", 2)` on the text of an instruction, which is never
   * empty and already trimmed: the mnemonic is the upper-cased text before
   * the first white space, or the whole text; the operand is `null` exactly
   * when the text has no white space, and otherwise it is never empty.
   */
  lemma InstructionParts(text: string)
    requires text != [] && Trim(text) == text
    ensures var w := SplitFirstWord(text).0;
      && w != [] && text[..|w|] == w && Mnemonic(text) == ToUpper(w)
      && (Operand(text).None? <==> forall i :: 0 <= i < |text| ==> !IsRegexSpace(text[i]))
      && (Operand(text).Some? ==> Operand(text).value != [])
  {
    InstructionWord(text);
    InstructionOperand(text);
  }

  /** The first word of a trimmed text is a non-empty prefix of it, and the mnemonic is that word upper-cased. */
  lemma InstructionWord(text: string)
    requires text != [] && !IsTrimmed(text[0])
    ensures var w := SplitFirstWord(text).0;
      w != [] && text[..|w|] == w && Mnemonic(text) == ToUpper(w)
  {
    assert !IsRegexSpace(text[0]);
  }

  /** The operand of a trimmed text is missing exactly when it has no white space, and is otherwise not empty. */
  lemma InstructionOperand(text: string)
    requires text != [] && !IsTrimmed(text[|text| - 1])
    ensures Operand(text).None? <==> forall i :: 0 <= i < |text| ==> !IsRegexSpace(text[i])
    ensures Operand(text).Some? ==> Operand(text).value != []
  {
    FirstWordAt(text);
    var k := FirstIndex(text, IsRegexSpace);
    if k < |text| {
      RestKeepsLast(text, k);
    }
  }

  /** What follows the first white space of a text, spaces dropped and trimmed, is not empty when the text ends untrimmed. */
  lemma RestKeepsLast(text: string, k: nat)
    requires k < |text| && !IsTrimmed(text[|text| - 1])
    ensures Trim(DropWhile(text[k..], IsRegexSpace)) != []
  {
    var tail := text[k..];
    var r := DropWhile(tail, IsRegexSpace);
    assert tail[|tail| - 1] == text[|text| - 1];
    assert r != [] && r[|r| - 1] == text[|text| - 1];
    TrimEmpty(r);
  }

  /** An unknown mnemonic is reported, and only an unknown mnemonic gives that error. */
  lemma EncodeUnknown(m: string, op: Option<string>, table: map<string, int>, at: int)
    ensures m !in Opcodes <==> Encode(m, op, table, at) == Failure(UnknownMnemonic(m, at))
  {
  }

  /**
   * A stack instruction (PSHI, POPI, PUSH, POP, RETN, SWAP) emits its fixed
   * pattern whatever operand follows it and whatever the symbol table holds.
   */
  lemma EncodeFixed(m: string, op: Option<string>, table: map<string, int>, at: int)
    requires m in FixedMnemonics
    ensures var r := Encode(m, op, table, at);
      && r == Success(WordLine(Opcodes[m], m))
      && forall op2, table2, at2 :: Encode(m, op2, table2, at2) == r
  {
    OpcodeLength(m);
  }

  /**
   * INSP and DESP take a decimal operand `y`: an unreadable or missing
   * operand is a number format error, one outside 0..255 is out of range, and
   * otherwise the word is the 8-bit opcode followed by `y` in 8 bits.
   */
  lemma EncodeByteOperand(m: string, op: Option<string>, table: map<string, int>, at: int)
    requires m == "INSP" || m == "DESP"
    ensures var r, y := Encode(m, op, table, at), ParseOperand(op);
      && (y.None? ==> r == Failure(NumberFormat(op)))
      && (y.Some? && (y.value < 0 || y.value > 255) ==> r == Failure(ByteOutOfRange(at)))
      && (y.Some? && 0 <= y.value <= 255 ==>
            r == Success(WordLine(Opcodes[m] + Bits(y.value, 8), m + " " + IntToString(y.value))))
  {
    OpcodeLength(m);
    var y := ParseOperand(op);
    if y.Some? && 0 <= y.value <= 255 {
      Pow2Values();
      PadMinBinary(y.value, 8);
    }
  }

  /**
   * LOCO takes a decimal operand `x`: an unreadable or missing operand is a
   * number format error, and every `int` is accepted, the word holding the
   * low 12 bits of `x` after the opcode 0111.
   */
  lemma EncodeLoco(op: Option<string>, table: map<string, int>, at: int)
    ensures var r, x := Encode("LOCO", op, table, at), ParseOperand(op);
      && (x.None? ==> r == Failure(NumberFormat(op)))
      && (x.Some? ==>
            r == Success(WordLine("0111" + Bits(x.value % 4096, 12), SymbolNote("LOCO", op.value, x.value))))
  {
    var x := ParseOperand(op);
    if x.Some? {
      LocoFieldLow12(x.value);
    }
  }

  /**
   * The other 4-bit opcodes take a symbol: a missing operand, a symbol not in
   * the table and an address outside 0..4095 are errors, checked in that
   * order; otherwise the word is the opcode followed by the symbol's address
   * in 12 bits.
   */
  lemma EncodeAddress(m: string, op: Option<string>, table: map<string, int>, at: int)
    requires m in AddressMnemonics
    ensures var r := Encode(m, op, table, at);
      && (op.None? ==> r == Failure(MissingOperand(m, at)))
      && (op.Some? && op.value !in table ==> r == Failure(UndefinedSymbol(op.value, at)))
      && (op.Some? && op.value in table && !(0 <= table[op.value] <= 4095) ==>
            r == Failure(AddressOutOfRange(op.value, at)))
      && (op.Some? && op.value in table && 0 <= table[op.value] <= 4095 ==>
            r == Success(WordLine(Opcodes[m] + Bits(table[op.value], 12), SymbolNote(m, op.value, table[op.value]))))
  {
    OpcodeLength(m);
    assert m != "LOCO";
    if op.Some? && op.value in table && 0 <= table[op.value] <= 4095 {
      Pow2Values();
      PadMinBinary(table[op.value], 12);
    }
  }

  /** An output line: sixteen binary digits, then " / " and a note. */
  predicate IsWordLine(line: string) {
    |line| >= 19 && IsBinary(line[..16]) && line[16..19] == " / "
  }

  /** A line built from a 16-digit word is a word line; it has a newline only if its note has. */
  lemma WordLineShape(word: string, note: string)
    requires |word| == 16 && IsBinary(word)
    ensures IsWordLine(WordLine(word, note))
    ensures '\n' !in note ==> '\n' !in WordLine(word, note)
  {
    var line := WordLine(word, note);
    assert line[..16] == word;
    assert line[16..19] == " / ";
    assert '\n' !in word by {
      assert forall i :: 0 <= i < |word| ==> word[i] != '\n';
    }
  }

  /** An operand note has a newline only if its mnemonic or its operand has. */
  lemma SymbolNoteOneLine(m: string, operand: string, x: int)
    requires '\n' !in m && '\n' !in operand
    ensures '\n' !in SymbolNote(m, operand, x)
  {
    IntToStringOneLine(x);
  }

  /** A successful translation is a word line, on one line when the mnemonic and the operand are. */
  predicate LineShape(r: Result<string, AsmError>, m: string, op: Option<string>) {
    r.Success? ==> IsWordLine(r.value) && ('\n' !in m && (op.Some? ==> '\n' !in op.value) ==> '\n' !in r.value)
  }

  /** Every line the encoder emits is a word line, and it stays on one line when its mnemonic and operand do. */
  lemma EncodedLine(m: string, op: Option<string>, table: map<string, int>, at: int)
    ensures var r := Encode(m, op, table, at);
      r.Success? ==> IsWordLine(r.value) && ('\n' !in m && (op.Some? ==> '\n' !in op.value) ==> '\n' !in r.value)
  {
    OpcodeKeys();
    if m in FixedMnemonics {
      FixedLine(m, op, table, at);
    } else if m == "INSP" || m == "DESP" {
      ByteLine(m, op, table, at);
    } else if m == "LOCO" {
      LocoLine(op, table, at);
    } else if m in AddressMnemonics {
      AddressLine(m, op, table, at);
    }
  }

  lemma FixedLine(m: string, op: Option<string>, table: map<string, int>, at: int)
    requires m in FixedMnemonics
    ensures LineShape(Encode(m, op, table, at), m, op)
  {
    EncodeFixed(m, op, table, at);
    OpcodeLength(m);
    WordLineShape(Opcodes[m], m);
  }

  lemma ByteLine(m: string, op: Option<string>, table: map<string, int>, at: int)
    requires m == "INSP" || m == "DESP"
    ensures LineShape(Encode(m, op, table, at), m, op)
  {
    EncodeByteOperand(m, op, table, at);
    var y := ParseOperand(op);
    if y.Some? && 0 <= y.value <= 255 {
      OpcodeLength(m);
      Pow2Values();
      ConcatBinary(Opcodes[m], Bits(y.value, 8));
      IntToStringOneLine(y.value);
      WordLineShape(Opcodes[m] + Bits(y.value, 8), m + " " + IntToString(y.value));
    }
  }

  lemma LocoLine(op: Option<string>, table: map<string, int>, at: int)
    ensures LineShape(Encode("LOCO", op, table, at), "LOCO", op)
  {
    EncodeLoco(op, table, at);
    var x := ParseOperand(op);
    if x.Some? {
      LocoWordShape(op.value, x.value);
    }
  }

  /** The LOCO line of an operand `text` that reads as `x`. */
  lemma LocoWordShape(text: string, x: int)
    ensures LineShape(Success(WordLine("0111" + Bits(x % 4096, 12), SymbolNote("LOCO", text, x))), "LOCO", Some(text))
  {
    Pow2Values();
    ConcatBinary("0111", Bits(x % 4096, 12));
    if '\n' !in text {
      SymbolNoteOneLine("LOCO", text, x);
    }
    WordLineShape("0111" + Bits(x % 4096, 12), SymbolNote("LOCO", text, x));
  }

  lemma AddressLine(m: string, op: Option<string>, table: map<string, int>, at: int)
    requires m in AddressMnemonics
    ensures LineShape(Encode(m, op, table, at), m, op)
  {
    EncodeAddress(m, op, table, at);
    if op.Some? && op.value in table && 0 <= table[op.value] <= 4095 {
      var x := table[op.value];
      OpcodeLength(m);
      Pow2Values();
      ConcatBinary(Opcodes[m], Bits(x, 12));
      if '\n' !in m && '\n' !in op.value {
        SymbolNoteOneLine(m, op.value, x);
      }
      WordLineShape(Opcodes[m] + Bits(x, 12), SymbolNote(m, op.value, x));
    }
  }

  /** What an instruction line assembles to is a word line on one line. */
  lemma EncodedInstructionLine(text: string, table: map<string, int>, at: int)
    requires '\n' !in text
    ensures var r := EncodeInstruction(text, table, at);
      r.Success? ==> IsWordLine(r.value) && '\n' !in r.value
  {
    MnemonicOneLine(text);
    OperandOneLine(text);
    EncodedLine(Mnemonic(text), Operand(text), table, at);
  }

  /** The mnemonic never holds a newline: it is a word of the instruction. */
  lemma MnemonicOneLine(text: string)
    ensures '\n' !in Mnemonic(text)
  {
  }

  /** The operand is a piece of the instruction, so it has a newline only if the instruction has. */
  lemma OperandOneLine(text: string)
    requires '\n' !in text
    ensures Operand(text).Some? ==> '\n' !in Operand(text).value
  {
    var sp := SplitFirstWord(text);
    if sp.1.Some? {
      var tail := text[|sp.0|..];
      SliceExcludes(text, '\n', |sp.0|, |text|);
      var rest := sp.1.value;
      SliceExcludes(tail, '\n', |tail| - |rest|, |tail|);
      var a := |rest| - |DropWhile(rest, IsTrimmed)|;
      var op := Trim(rest);
      SliceExcludes(rest, '\n', a, a + |op|);
    }
  }

  /** A decimal rendering has no newline. */
  lemma IntToStringOneLine(x: int)
    ensures '\n' !in IntToString(x)
  {
    var digits := NatToString(if x < 0 then -x else x);
    assert forall i :: 0 <= i < |digits| ==> digits[i] != '\n';
  }
}
