# MIC-1 assembler, loader and main memory in Dafny

This project models the model layer of a MIC-1 simulator written in Java.
That layer has two cooperating classes.

- `SourceCode` holds the assembly text, the compiled text and a symbol table.
  - Its method `assemble` is a two-pass assembler. It turns every instruction into a line of sixteen binary digits, then " / " and a note.
  - On the first error it replaces the whole output with a report that starts `ERRO NA MONTAGEM:`.
  - `writeToMemory` is the loader. It clears the linked main memory, then writes the word of every 16-digit line at consecutive addresses from 0.
- `MainMemory` holds 4096 `int` words and one display row per address.
  - The row shows the word's 16-bit pattern, and its operand in decimal and in hexadecimal.
  - Which bits form the operand depends on the opcode group. Only LOCO's 12-bit operand is shown signed.

The model keeps the source's form.

- `SourceCode` and `MainMemory` are Dafny classes with `modifies` clauses.
- The memory words are an `array<Int32>`. The display rows are a `seq` field that the methods reassign.
- The loops of `assemble` are methods: pass 1 is `CollectSymbols` and pass 2 is `Translate`.
- The loop of `writeToMemory` is the method `LoadLines`, and `clearMemory` and `initializeMemory` are methods too.
- Each method is proved against a specification function:
  - `Pass1From` and `Pass2From` for the two passes;
  - `LoadFrom` for the loader, with `Image` the memory it leaves;
  - `RowsShow` and `NewEntry` for the rows.
- The pure parts are functions: the per-instruction encoding, `formatBinary` and the decoding in `MemoryEntry.updateValue`.
- Java's library behaviour is written out as functions in `JavaText` and `JavaNumbers`:
  - `trim`, `split("\n")`, `split("\\s+", 2)` and `toUpperCase`;
  - `Integer.parseInt`, `Long.parseLong(s, 2)` and `Integer.toBinaryString`;
  - the `(short)` cast, `%04d` and `%04X`.

The modules are:
- `Wrappers`, `JavaText`, `JavaNumbers`: option and result types, and the Java library behaviour listed above.
- `WordDecoder`: `formatBinary`, the decoder, and the memory rows.
- `MainMemoryModel`: the class `MainMemory`.
- `Assembler`: the opcode table, line classification, pass 1, the per-instruction encoding, pass 2 and the error messages.
- `EncodingProperties`: what each group of mnemonics assembles to.
- `AssemblerProperties`: the two passes.
- `Loader`: the loop of `writeToMemory` as functions, proved against an independent definition by candidate fields.
- `RoundTrip`: assemble, render, split, load and decode, end to end.
- `SourceCodeModel`: the class `SourceCode`.

The main results:
- A successful assembly, rendered and loaded, puts the word of its `k`-th output line at address `k`. The memory view then shows exactly those sixteen digits. This holds up to 4096 output lines; a longer assembly fills memory and the load fails at address 4096.
- After a load without exception, writing to memory again loads the same words, because the note the first load appends is passed over.
- The decoder gives back the operand of every instruction kind, with LOCO's taken modulo 4096.
- A failed assembly loads no word at all.

## Model

| member | source | states |
|---|---|---|
| SourceCodeModel.SourceCode.constructor | src/main/java/mic1/model/SourceCode.java:20-35 | a new `SourceCode` has an empty source, the initial prompt as compiled text, no linked memory and an empty symbol table |
| SourceCodeModel.SourceCode.LinkMainMemory | src/main/java/mic1/model/SourceCode.java:80-82 | the memory becomes the linked one and nothing else changes |
| SourceCodeModel.SourceCode.Assemble | src/main/java/mic1/model/SourceCode.java:93-202 | the compiled text becomes the rendered output lines of the two passes, or the `ERRO NA MONTAGEM` report of the first error; the symbol table is what pass 1 built before it finished or stopped |
| SourceCodeModel.SourceCode.CollectSymbols | src/main/java/mic1/model/SourceCode.java:94-130 | the loop of pass 1 leaves the table pass 1's specification computes and returns the first duplicated label, if any |
| SourceCodeModel.Translate | src/main/java/mic1/model/SourceCode.java:133-197 | the loop of pass 2 returns the rendered lines of pass 2's specification, or its first error |
| SourceCodeModel.SourceCode.WriteToMemory | src/main/java/mic1/model/SourceCode.java:208-244 | without memory only a warning is put in front of the text; otherwise memory holds the loaded words from address 0 and zero elsewhere, and the text reports the load or its exception |
| SourceCodeModel.LoadLines | src/main/java/mic1/model/SourceCode.java:215-234 | the loop clears memory and leaves it as the load's image: the `k`-th loaded word at address `k` and 0 at every later address; it returns the load's exception |
| RoundTrip.ScanWordLine | src/main/java/mic1/model/SourceCode.java:222-230 | the loader reads a line that starts with sixteen binary digits, a space and '/' as exactly those digits, cut to a `short` |
| RoundTrip.ScanUnreadable | src/main/java/mic1/model/SourceCode.java:222-229 | a line starting with anything but white space, '/', a binary digit or a sign yields no word |
| Loader.WideFieldPassedOver | src/main/java/mic1/model/SourceCode.java:226-228 | the length test counts UTF-16 code units, so a 16-character field holding a character outside the Basic Multilingual Plane is passed over |
| Loader.LoadWords | src/main/java/mic1/model/SourceCode.java:215-242 | `Load`: the `k`-th word written is the value of the `k`-th 16-character field; the load takes every field unless one does not parse or memory is full, and then the error names that field |
| Loader.LoadFromFields | src/main/java/mic1/model/SourceCode.java:221-234 | `LoadFrom`: the loop over lines agrees with the independent definition by candidate fields, from any number of words already written |
| Loader.ImageAppend | src/main/java/mic1/model/SourceCode.java:231-232 | writing the next word changes only its own address in the memory image |
| Loader.ReloadAfterReport | src/main/java/mic1/model/SourceCode.java:236-242 | after a load without exception, the text `LoadReport` leaves loads to the same words and again raises nothing |
| JavaNumbers.ToShort | src/main/java/mic1/model/SourceCode.java:230 | the cast keeps the low 16 bits, and a 16-bit value of 32768 or more becomes that value minus 65536 |
| JavaNumbers.ParseLongOfBinary | src/main/java/mic1/model/SourceCode.java:229 | `ParseLongBinary`: a field of 1 to 16 binary digits parses to the number it denotes |
| Assembler.ParseLine | src/main/java/mic1/model/SourceCode.java:103-127 | the classification's instruction text is never empty and is already trimmed |
| Assembler.CountsOfLines | src/main/java/mic1/model/SourceCode.java:117-129 | `InstructionCount` and `VariableCount`: the number of lines that take an address is 0 exactly when no line is an instruction and the number of lines exactly when all are; likewise for variable declarations |
| AssemblerProperties.Pass1ViewAgrees | src/main/java/mic1/model/SourceCode.java:102-129 | pass 1's own reading of a line (trim, skip blank and '/' lines, `split(":", 2)`) skips exactly the lines `ParseLine` skips, finds the same label, sees a variable exactly where the text after the colon is empty, and counts an address exactly where `ParseLine` gives an instruction of the same text |
| AssemblerProperties.Pass2ViewAgrees | src/main/java/mic1/model/SourceCode.java:134-142 | pass 2's own reading of a line translates exactly the instructions `ParseLine` gives, with the same text, and continues on every other line |
| EncodingProperties.InstructionParts | src/main/java/mic1/model/SourceCode.java:144-146 | an instruction's mnemonic is its first word in upper case; the operand is missing exactly when the text has no white space, and is never empty |
| AssemblerProperties.Pass1Success | src/main/java/mic1/model/SourceCode.java:102-130 | `Pass1From`: a successful pass 1 counts instructions and variables, keeps earlier entries, adds exactly the declared labels and gives each the address its position describes |
| AssemblerProperties.Pass1FailedAt | src/main/java/mic1/model/SourceCode.java:113-115 | a failed pass 1 stops at the first line whose label was declared before; the lines before it are free of clashes |
| AssemblerProperties.Pass1SucceedsIffDistinct | src/main/java/mic1/model/SourceCode.java:108-122 | pass 1 succeeds exactly when no label, whether a variable or an instruction label, is declared twice; a failure names a label declared on two lines |
| AssemblerProperties.SymbolTable | src/main/java/mic1/model/SourceCode.java:97-129 | the table holds exactly the declared labels; the `n`-th variable gets 4095 - n and an instruction label gets the number of instructions before it |
| AssemblerProperties.Pass2Success | src/main/java/mic1/model/SourceCode.java:133-197 | `Pass2From`: a successful pass 2 emits one line per instruction, in order; the instruction on line `i` gives output line `InstructionCount(ls[..i])` |
| AssemblerProperties.Pass2Failure | src/main/java/mic1/model/SourceCode.java:133-196 | a failed pass 2 stopped at the first instruction that does not assemble, and every instruction before it assembled |
| AssemblerProperties.Pass2SucceedsIffAllEncode | src/main/java/mic1/model/SourceCode.java:133-197 | pass 2 succeeds exactly when every instruction assembles |
| AssemblerProperties.AssembleLinesResult | src/main/java/mic1/model/SourceCode.java:93-202 | `AssembleLines` and `Assemble`: a duplicated label is the error; otherwise the assembly fails on the first instruction that does not assemble against pass 1's table, or holds one line per instruction with label addresses matching output positions |
| AssemblerProperties.SplitRender | src/main/java/mic1/model/SourceCode.java:152-197 | splitting the built text at newlines gives the output lines back, then one empty piece |
| EncodingProperties.OpcodeKeys | src/main/java/mic1/model/SourceCode.java:40-64 | the opcode table holds exactly the 23 mnemonics |
| EncodingProperties.OpcodeLength | src/main/java/mic1/model/SourceCode.java:40-64 | every opcode is binary, and its length (16, 8 or 4) tells its mnemonic's group |
| EncodingProperties.ShortOpcodeValue | src/main/java/mic1/model/SourceCode.java:41-55 | the 4-bit opcodes are 0000 to 1110, and 0111 is LOCO's alone |
| EncodingProperties.ByteOpcodeValue | src/main/java/mic1/model/SourceCode.java:62-63 | INSP and DESP are the extended opcodes 0xFC and 0xFE |
| EncodingProperties.FixedOpcodeValue | src/main/java/mic1/model/SourceCode.java:56-61 | the stack patterns have leading nibble 1111, a zero low byte, and a high byte other than 0xFC and 0xFE |
| EncodingProperties.MnemonicIgnoresCase | src/main/java/mic1/model/SourceCode.java:144-146 | `ToUpper`: two instructions that differ only in the ASCII case of any of their letters get the same mnemonic, and both have an operand or neither has |
| EncodingProperties.EncodeUnknown | src/main/java/mic1/model/SourceCode.java:148-194 | `Encode`, `EncodeInstruction`: a mnemonic outside the table is an error naming it, and only such a mnemonic gives that error |
| EncodingProperties.EncodeFixed | src/main/java/mic1/model/SourceCode.java:151-152 | `EncodeOpcode`: a stack mnemonic emits its fixed pattern and its name, whatever the operand and symbol table |
| EncodingProperties.EncodeByteOperand | src/main/java/mic1/model/SourceCode.java:154-160 | INSP/DESP: an unparsable or missing operand is a number-format error; one outside 0..255 is out of range; otherwise the 8-bit opcode is followed by the operand in 8 binary digits |
| EncodingProperties.LocoFieldLow12 | src/main/java/mic1/model/SourceCode.java:166-175 | `LocoField`: all three branches of LOCO's bit selection give `x mod 4096` in 12 binary digits, for every `int` |
| EncodingProperties.EncodeLoco | src/main/java/mic1/model/SourceCode.java:166-175 | LOCO: an unparsable or missing operand is a number-format error; every `int` is accepted, and the word holds 0111 and the low 12 bits |
| EncodingProperties.EncodeAddress | src/main/java/mic1/model/SourceCode.java:176-190 | the other 4-bit opcodes report a missing operand, an undefined symbol and an address outside 0..4095, in that order; otherwise the word is the opcode and the address in 12 bits |
| EncodingProperties.EncodedLine | src/main/java/mic1/model/SourceCode.java:151-191 | every successful line starts with 16 binary digits and " / ", and has no newline when its mnemonic and operand have none |
| RoundTrip.AssembledLines | src/main/java/mic1/model/SourceCode.java:134-197 | every line of a successful assembly is a word line without a newline |
| RoundTrip.LoadWordLines | src/main/java/mic1/model/SourceCode.java:219-234 | word lines load in order with one word each; more than 4096 of them fill memory and fail at address 4096 |
| RoundTrip.AssembledTextLoads | src/main/java/mic1/model/SourceCode.java:197-234 | loading a successful assembly puts its `k`-th line's word at address `k`, and the memory view shows exactly that line's 16 digits |
| RoundTrip.LoadedInstruction | src/main/java/mic1/model/SourceCode.java:121-231 | the `n`-th instruction of the source, with `n` the address its label gets, is stored at address `n` as the word its own translation starts with |
| RoundTrip.LocoDecodes | src/main/java/mic1/model/MainMemory.java:65-90 | LOCO x, loaded and shown, has hex column `x mod 4096` and gives x back in the decimal column whenever -2048 <= x < 2048 |
| RoundTrip.AddressDecodes | src/main/java/mic1/model/MainMemory.java:73-90 | an address instruction, loaded and shown, gives its symbol's address in both value columns |
| RoundTrip.ByteDecodes | src/main/java/mic1/model/MainMemory.java:93-99 | INSP y or DESP y, loaded and shown, gives y in both value columns |
| RoundTrip.FixedDecodes | src/main/java/mic1/model/MainMemory.java:100-104 | a stack instruction, loaded and shown, gives 0 in both value columns |
| RoundTrip.MessageShape | src/main/java/mic1/model/SourceCode.java:114-193 | `Message`: the message of an error that names only pieces of single lines is one non-empty line starting with 'E', 'C' or 'F' |
| RoundTrip.AssemblyErrorOneLine | src/main/java/mic1/model/SourceCode.java:113-193 | every error of a failed assembly names only pieces of single source lines |
| RoundTrip.ReportLines | src/main/java/mic1/model/SourceCode.java:200 | a report of a one-line message splits into `ERRO NA MONTAGEM:`, the message, an empty line and the closing hint, so it has no encoded line |
| RoundTrip.ErrorReport | src/main/java/mic1/model/SourceCode.java:197-200 | `CompiledText`: a failed assembly's text is the report of its message, a single line starting with 'E', 'C' or 'F' |
| RoundTrip.AssemblyErrorLoadsNothing | src/main/java/mic1/model/SourceCode.java:199-234 | loading a failed assembly's text writes no word, so memory stays cleared |
| MainMemoryModel.MainMemory.constructor | src/main/java/mic1/model/MainMemory.java:140-144 | a new memory is valid, with 4096 words, all 0 |
| MainMemoryModel.MainMemory.InitializeMemory | src/main/java/mic1/model/MainMemory.java:150-157 | every word becomes 0 and row `i` shows address `i` and word 0 |
| MainMemoryModel.MainMemory.Write | src/main/java/mic1/model/MainMemory.java:169-177 | an address outside 0..4095 fails and changes nothing; otherwise only that word and its row change |
| MainMemoryModel.MainMemory.Read | src/main/java/mic1/model/MainMemory.java:186-191 | the stored word, or the out-of-bounds failure |
| MainMemoryModel.ReadAfterWrite | src/main/java/mic1/model/MainMemory.java:169-191 | on the words `Write` and `Read` are specified by, reading the address just written gives the word written, any other address reads as before, and a bad address fails both times |
| MainMemoryModel.MainMemory.ClearMemory | src/main/java/mic1/model/MainMemory.java:197-203 | every word becomes 0 and every row is refreshed |
| MainMemoryModel.RefreshRows | src/main/java/mic1/model/MainMemory.java:199-201 | the loop of `clearMemory` keeps the number of rows and leaves row `k` as `updateValue` of the old row `k` |
| MainMemoryModel.RefreshedRows | src/main/java/mic1/model/MainMemory.java:199-201 | refreshing every row of a consistent table with one word gives the table of a memory holding that word everywhere |
| WordDecoder.FormatBinary | src/main/java/mic1/model/MainMemory.java:236-240 | exactly 16 binary digits, denoting the value modulo 65536 |
| WordDecoder.Decode | src/main/java/mic1/model/MainMemory.java:58-104 | the binary column is the 16-digit pattern, the hex operand is below 4096 and the decimal operand lies in -2048..4095 |
| WordDecoder.DecodeFromBits | src/main/java/mic1/model/MainMemory.java:65-104 | `Decode`: the decoded columns read off the displayed pattern by opcode group: 12-bit operand (signed only under 0111), 8-bit operand under 0xFC/0xFE, otherwise 0 |
| WordDecoder.BitFields | src/main/java/mic1/model/MainMemory.java:66-67 | the opcode nibble, the top byte and the operand fields of a 16-digit pattern are the divisions and remainders of its value by 4096 and 256 |
| WordDecoder.DecodeDependsOnLow16 | src/main/java/mic1/model/MainMemory.java:65 | two stored `int`s with the same low 16 bits decode alike |
| WordDecoder.EntryColumns | src/main/java/mic1/model/MainMemory.java:48-119 | `NewEntry` and `Update`: a row's columns read back as its four-digit address, the word's 16 digits, the decimal operand and four upper-case hex digits of the hex operand |
| WordDecoder.UpdateValueOfEntry | src/main/java/mic1/model/MainMemory.java:58-119 | `UpdateValue`: refreshing a row with a new word gives the row a fresh entry for that address and word would have |
| JavaNumbers.Hex4 | src/main/java/mic1/model/MainMemory.java:108 | four upper-case hexadecimal digits denoting the number |
| JavaNumbers.Dec4 | src/main/java/mic1/model/MainMemory.java:117 | four decimal digits denoting the number |
| JavaText.Trim | src/main/java/mic1/model/SourceCode.java:103 | the result is what is left between a run of leading and a run of trailing characters up to U+0020, and it neither starts nor ends with one |
| JavaText.SplitFirstWord | src/main/java/mic1/model/SourceCode.java:144 | the first word has no white space and ends at the first white space character; the rest is missing exactly when the line has none, and otherwise starts after the whole run of white space |
| JavaText.SplitLimit2 | src/main/java/mic1/model/SourceCode.java:109 | without the separator the text is one part; otherwise the first part holds no separator and the parts joined by it give the text back |
| JavaText.SplitJoin | src/main/java/mic1/model/SourceCode.java:96 | splitting joined pieces that hold no separator gives the pieces back |
| JavaText.SplitOnConcat | src/main/java/mic1/model/SourceCode.java:215 | splitting two texts joined by the separator gives the pieces of both |
| JavaText.Utf16Length | src/main/java/mic1/model/SourceCode.java:228 | between one and two code units per character, and exactly one per character when every character is in the Basic Multilingual Plane |
| JavaNumbers.ParseIntOfIntToString | src/main/java/mic1/model/MainMemory.java:107 | `ParseInt`: the decimal column parses back to the number it shows |
| JavaNumbers.NegativeBinaryStringLength | src/main/java/mic1/model/SourceCode.java:171-172 | `ToBinaryString`: a negative `int` always renders with 32 binary digits, so LOCO's branch for a short negative rendering is never taken |
| JavaNumbers.PadMinBinary | src/main/java/mic1/model/SourceCode.java:159 | `ToBinaryString`: zero-padding the shortest binary rendering to `w` digits gives the `w`-digit rendering |

## Left out

- JavaFX: the `StringProperty` and `ObservableList` mechanics are plain fields here. Nothing is modelled of data binding, change listeners or `notifyUpdate`, which only re-sets row 0 to itself.
- Logging: the `System.out` and `System.err` lines have no effect on the model's state.
- Characters: `toUpperCase`, `Integer.parseInt` and `Long.parseLong` are modelled for ASCII letters and digits only. Java also accepts non-ASCII digits and maps non-ASCII letters.
- String lengths: Java's `length()` counts UTF-16 code units. The loader's 16-unit test is modelled that way. Elsewhere `length()` is taken only of opcodes and binary renderings, which are ASCII, so units and characters agree.
- Counters: `currentAddress` and `variableAddress` are unbounded integers, and their Java `int` overflow is not modelled. It would need more than two billion lines.
- Address collisions: the source does not check whether instruction addresses, which count up from 0, meet variable addresses, which count down from 4095. The model has no such check either.
- Line splitting: `split("\n")` drops trailing empty pieces, and the model's split keeps them. Both loops skip empty lines, so the results agree.
- Loader.LoadErrorMessage: the text of a `NumberFormatException` comes from the Java library and is approximated as `For input string: "…" under radix 2`.
- SourceCodeModel.SourceCode.SetAssemblyCode: it stands for the user's edit through the bound property, which is UI code.
- Loading an error report: the model keeps one source behaviour as written. A report whose message has a '/' where the text before it happens to be 16 characters long ends the load with a number-format exception instead of being passed over. One example is an undefined symbol `a/b`. `RoundTrip.AssemblyErrorLoadsNothing` therefore allows that exception.
- Assembler.Message: the wording of the Portuguese messages is the source's. The common tail " na linha " + number is built by the helper `AtLine`. The two `NumberFormatException` texts, `For input string: "…"` and `Cannot parse null string: null`, come from the Java library and are approximated.
