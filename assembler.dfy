/**
 * The two-pass assembler of `SourceCode.assemble`, as functions on the lines
 * of the source text.
 *
 * Pass 1 walks every line and builds the symbol table: an instruction label
 * gets the address of its instruction (instructions are numbered from 0), a
 * label with nothing after its colon is a variable and gets the next free
 * address counting down from 4095.  A label seen twice stops the assembly.
 *
 * Pass 2 walks the lines again and turns each instruction into one output
 * line: sixteen binary digits, " / " and a readable annotation.  The first
 * error stops the assembly and replaces the whole output by an error report.
 */
module Assembler {
  import opened Wrappers
  import opened JavaText
  import opened JavaNumbers

  // ------------------------------------------------------------ opcode table

  /** The opcode table the `SourceCode` constructor fills: mnemonic to opcode bits. */
  const Opcodes: map<string, string> := map[
    "LODD" := "0000", "STOD" := "0001", "ADDD" := "0010", "SUBD" := "0011",
    "JPOS" := "0100", "JZER" := "0101", "JUMP" := "0110", "LOCO" := "0111",
    "LODL" := "1000", "STOL" := "1001", "ADDL" := "1010", "SUBL" := "1011",
    "JNEG" := "1100", "JNZE" := "1101", "CALL" := "1110",
    "PSHI" := "1111000000000000", "POPI" := "1111001000000000",
    "PUSH" := "1111010000000000", "POP" := "1111011000000000",
    "RETN" := "1111100000000000", "SWAP" := "1111101000000000",
    "INSP" := "11111100", "DESP" := "11111110"
  ]

  /** The highest address; variables are given addresses from here downwards. */
  const LastAddress: int := 4095

  // ------------------------------------------------------------------ errors

  /** Each `RuntimeException` or `NumberFormatException` the assembler can raise. */
  datatype AsmError =
    | DuplicateLabel(name: string)
    | UnknownMnemonic(mnemonic: string, line: int)
    | MissingOperand(mnemonic: string, line: int)
    | UndefinedSymbol(symbol: string, line: int)
    | ByteOutOfRange(line: int)
    | AddressOutOfRange(symbol: string, line: int)
    | NumberFormat(input: Option<string>)

  /** The exception message (`getMessage`); `line` is the number of instructions assembled before the failing one. */
  function Message(e: AsmError): string {
    match e
    case DuplicateLabel(l) => "Erro: Label duplicado '" + l + "'"
    case UnknownMnemonic(m, n) => "Erro: Mnemônico desconhecido '" + m + "'" + AtLine(n)
    case MissingOperand(m, n) => "Erro: Mnemônico '" + m + "' requer um operando" + AtLine(n)
    case UndefinedSymbol(s, n) => "Erro: Símbolo '" + s + "' não definido" + AtLine(n)
    case ByteOutOfRange(n) => "Erro: Operando 'y' fora do range (0-255)" + AtLine(n)
    case AddressOutOfRange(s, n) => "Erro: Operando 'x' (símbolo '" + s + "') fora do range (0-4095)" + AtLine(n)
    case NumberFormat(None) => "Cannot parse null string: null"
    case NumberFormat(Some(s)) => "For input string: \"" + s + "\""
  }

  /** The tail of a message that names the instruction number where it arose. */
  function AtLine(n: int): string {
    " na linha " + IntToString(n)
  }

  // ------------------------------------------------------- line classification

  /** How both passes see one source line once it is trimmed. */
  datatype SourceLine =
    | Skipped                                          // blank, or a comment starting with '/'
    | VariableDecl(variable: string)                   // `label:` with nothing after the colon
    | Instruction(tag: Option<string>, text: string)   // an instruction, with or without a label

  /**
   * The classification shared by the two passes: a line with a colon is
   * split at its first colon into a label and the rest; a label with an
   * empty rest declares a variable.
   */
  function ParseLine(raw: string): (r: SourceLine)
    ensures r.Instruction? ==> r.text != [] && r.text == Trim(r.text)
  {
    var line := Trim(raw);
    if line == [] || line[0] == '/' then Skipped
    else if ':' in line then
      var k := IndexOf(line, ':');
      var name, rest := Trim(line[..k]), Trim(line[k + 1..]);
      TrimIdempotent(line[k + 1..]);
      if rest == [] then VariableDecl(name) else Instruction(Some(name), rest)
    else
      TrimIdempotent(raw);
      Instruction(None, line)
  }

  /** Trimming twice is trimming once. */
  lemma TrimIdempotent(s: string)
    ensures Trim(Trim(s)) == Trim(s)
  {
    var t := Trim(s);
    if t != [] {
      assert DropWhile(t, IsTrimmed) == t;
      assert DropWhileEnd(t, IsTrimmed) == t;
    }
  }

  /** Every line of the source, classified. */
  function Classify(lines: seq<string>): (ls: seq<SourceLine>)
    ensures |ls| == |lines| && forall i :: 0 <= i < |lines| ==> ls[i] == ParseLine(lines[i])
  {
    seq(|lines|, i requires 0 <= i < |lines| => ParseLine(lines[i]))
  }

  /** The label a line declares, if any. */
  function LabelOf(l: SourceLine): Option<string> {
    match l
    case VariableDecl(v) => Some(v)
    case Instruction(t, _) => t
    case Skipped => None
  }

  /** How many of the lines hold an instruction (each occupies one address). */
  function InstructionCount(ls: seq<SourceLine>): (n: nat)
    ensures n <= |ls|
  {
    if ls == [] then 0
    else (if ls[0].Instruction? then 1 else 0) + InstructionCount(ls[1..])
  }

  /** How many of the lines declare a variable. */
  function VariableCount(ls: seq<SourceLine>): (n: nat)
    ensures n <= |ls|
  {
    if ls == [] then 0
    else (if ls[0].VariableDecl? then 1 else 0) + VariableCount(ls[1..])
  }

  /**
   * What the two counts count: no instruction exactly when the instruction
   * count is 0, only instructions exactly when it is the number of lines,
   * and likewise for the variable declarations.
   */
  lemma {:induction false} CountsOfLines(ls: seq<SourceLine>)
    ensures InstructionCount(ls) == 0 <==> forall i :: 0 <= i < |ls| ==> !ls[i].Instruction?
    ensures InstructionCount(ls) == |ls| <==> forall i :: 0 <= i < |ls| ==> ls[i].Instruction?
    ensures VariableCount(ls) == 0 <==> forall i :: 0 <= i < |ls| ==> !ls[i].VariableDecl?
    ensures VariableCount(ls) == |ls| <==> forall i :: 0 <= i < |ls| ==> ls[i].VariableDecl?
    decreases |ls|
  {
    if ls != [] {
      CountsOfLines(ls[1..]);
      assert forall i :: 0 < i < |ls| ==> ls[1..][i - 1] == ls[i];
    }
  }

  // ------------------------------------------------------------------ pass 1

  /** The state pass 1 carries: the symbol table, the next instruction address and the next variable address. */
  datatype SymbolState = SymbolState(table: map<string, int>, current: int, variable: int)

  /** The outcome of pass 1: the final state, or the first duplicated label with the state reached before it. */
  datatype Pass1Result = Pass1Done(state: SymbolState) | Pass1Failed(duplicate: string, state: SymbolState)

  /** The state before the first line. */
  const InitialSymbols: SymbolState := SymbolState(map[], 0, LastAddress)

  /** What pass 1 does with one line. */
  function Pass1Step(st: SymbolState, l: SourceLine): Pass1Result {
    match l
    case Skipped => Pass1Done(st)
    case VariableDecl(l) =>
      if l in st.table then Pass1Failed(l, st)
      else Pass1Done(SymbolState(st.table[l := st.variable], st.current, st.variable - 1))
    case Instruction(None, _) => Pass1Done(st.(current := st.current + 1))
    case Instruction(Some(l), _) =>
      if l in st.table then Pass1Failed(l, st)
      else Pass1Done(SymbolState(st.table[l := st.current], st.current + 1, st.variable))
  }

  /** Pass 1 over `lines` from the state `st`. */
  function Pass1From(st: SymbolState, ls: seq<SourceLine>): Pass1Result
    decreases |ls|
  {
    if ls == [] then Pass1Done(st)
    else
      match Pass1Step(st, ls[0])
      case Pass1Failed(l, s) => Pass1Failed(l, s)
      case Pass1Done(s) => Pass1From(s, ls[1..])
  }

  /** Pass 1 over the whole source. */
  function Pass1(ls: seq<SourceLine>): Pass1Result {
    Pass1From(InitialSymbols, ls)
  }

  // ------------------------------------------------------- instruction encoding

  /** The mnemonic of an instruction: its first word in upper case. */
  function Mnemonic(text: string): string {
    ToUpper(SplitFirstWord(text).0)
  }

  /** The operand of an instruction: the trimmed rest after the first word, `null` when there is none. */
  function Operand(text: string): Option<string> {
    var rest := SplitFirstWord(text).1;
    if rest.Some? then Some(Trim(rest.value)) else None
  }

  /** `Integer.parseInt(operand)`, which also fails on a `null` operand. */
  function ParseOperand(operand: Option<string>): Option<Int32> {
    if operand.None? then None else ParseInt(operand.value)
  }

  /**
   * The 12 operand bits LOCO emits for `x`: the last 12 digits of
   * `Integer.toBinaryString(x)` when it is longer, else that string padded
   * with zeros.  (The source has a third branch for a negative `x` with at
   * most 12 digits; it cannot be taken, because a negative `int` always
   * renders with 32 digits, see `NegativeBinaryStringLength`.)
   */
  function LocoField(x: Int32): string {
    var bits := ToBinaryString(x);
    if |bits| > 12 then bits[|bits| - 12..] else LeftPad(bits, 12)
  }

  /** The output line for one instruction, or the error it raises; `at` is its instruction number. */
  function EncodeInstruction(text: string, table: map<string, int>, at: int): Result<string, AsmError> {
    Encode(Mnemonic(text), Operand(text), table, at)
  }

  /** The translation of one instruction from its mnemonic and its operand (`null` as `None`). */
  function Encode(mnemonic: string, operand: Option<string>, table: map<string, int>, at: int): Result<string, AsmError> {
    if mnemonic !in Opcodes then Failure(UnknownMnemonic(mnemonic, at))
    else EncodeOpcode(Opcodes[mnemonic], mnemonic, operand, table, at)
  }

  /** The translation of a known mnemonic with opcode bits `opcode`, by the length of those bits. */
  function EncodeOpcode(opcode: string, mnemonic: string, operand: Option<string>, table: map<string, int>, at: int): Result<string, AsmError> {
    if |opcode| == 16 then Success(WordLine(opcode, mnemonic))
    else if |opcode| == 8 then
      match ParseOperand(operand)
      case None => Failure(NumberFormat(operand))
      case Some(y) =>
        if y < 0 || y > 255 then Failure(ByteOutOfRange(at))
        else Success(WordLine(opcode + LeftPad(ToBinaryString(y), 8), mnemonic + " " + IntToString(y)))
    else if mnemonic == "LOCO" then
      match ParseOperand(operand)
      case None => Failure(NumberFormat(operand))
      case Some(x) => Success(WordLine(opcode + LocoField(x), SymbolNote(mnemonic, operand.value, x)))
    else if operand.None? then Failure(MissingOperand(mnemonic, at))
    else if operand.value !in table then Failure(UndefinedSymbol(operand.value, at))
    else
      var x := table[operand.value];
      if x < 0 || x > 4095 then Failure(AddressOutOfRange(operand.value, at))
      else Success(WordLine(opcode + LeftPad(ToBinaryString(x), 12), SymbolNote(mnemonic, operand.value, x)))
  }

  /** One output line: the machine word, " / ", and a note for the reader. */
  function WordLine(word: string, note: string): string {
    word + " / " + note
  }

  /** The note of an instruction with an operand: the mnemonic, the operand as written and its value in parentheses. */
  function SymbolNote(mnemonic: string, operand: string, x: int): string {
    mnemonic + " " + operand + " (" + IntToString(x) + ")"
  }

  // ------------------------------------------------------------------ pass 2

  /** `pre` in front of a successful output; an error is kept as it is. */
  function Prepend(pre: seq<string>, r: Result<seq<string>, AsmError>): Result<seq<string>, AsmError> {
    match r
    case Success(out) => Success(pre + out)
    case Failure(e) => Failure(e)
  }

  /** How pass 2 translates one instruction: its text and its number to an output line or an error. */
  type Encoder = (string, int) -> Result<string, AsmError>

  /** `EncodeInstruction` against a fixed symbol table. */
  function EncoderFor(table: map<string, int>): Encoder {
    (text: string, at: int) => EncodeInstruction(text, table, at)
  }

  /** Pass 2 over `ls`, translating instructions with `encode`; `at` is the number of the next instruction. */
  function Pass2From(encode: Encoder, at: int, ls: seq<SourceLine>): Result<seq<string>, AsmError>
    decreases |ls|
  {
    if ls == [] then Success([])
    else
      match ls[0]
      case Instruction(_, text) =>
        (match encode(text, at)
         case Failure(e) => Failure(e)
         case Success(w) => Prepend([w], Pass2From(encode, at + 1, ls[1..])))
      case _ => Pass2From(encode, at, ls[1..])
  }

  /** Both passes over the classified source: the output lines, or the error that ends the assembly. */
  function AssembleLines(ls: seq<SourceLine>): Result<seq<string>, AsmError> {
    match Pass1(ls)
    case Pass1Failed(l, _) => Failure(DuplicateLabel(l))
    case Pass1Done(st) => Pass2From(EncoderFor(st.table), 0, ls)
  }

  /** The assembly of a source text: its lines, classified, through both passes. */
  function Assemble(source: string): Result<seq<string>, AsmError> {
    AssembleLines(Classify(SplitOn(source, '\n')))
  }

  /** The `StringBuilder` text: every output line followed by a newline. */
  function Render(out: seq<string>): string {
    if out == [] then "" else Render(out[..|out| - 1]) + out[|out| - 1] + "\n"
  }

  /** The first line of the report of a failed assembly. */
  const ReportHead: string := "ERRO NA MONTAGEM:"

  /** The last line of the report of a failed assembly. */
  const ReportTail: string := "(Verifique seu código e tente novamente)"

  /** The text `assemble` leaves in `compiledCode`: the lines, or the report of the error. */
  function CompiledText(r: Result<seq<string>, AsmError>): string {
    match r
    case Success(out) => Render(out)
    case Failure(e) => ReportHead + "\n" + Message(e) + "\n\n" + ReportTail
  }
}
