/**
 * What the two passes of the assembler guarantee, stated against reference
 * definitions on whole line sequences: the symbol table pass 1 builds, the
 * condition under which it succeeds, and the output and first error of
 * pass 2.
 */
module AssemblerProperties {
  import opened Wrappers
  import opened JavaText
  import opened JavaNumbers
  import opened Assembler

  // ------------------------------------------------------ reference definitions

  /** Every label the lines declare. */
  function Labels(ls: seq<SourceLine>): set<string> {
    set i | 0 <= i < |ls| && LabelOf(ls[i]).Some? :: LabelOf(ls[i]).value
  }

  /** No line declares a label twice. */
  predicate DistinctLabels(ls: seq<SourceLine>) {
    forall i, j :: 0 <= i < j < |ls| && LabelOf(ls[i]).Some? ==> LabelOf(ls[j]) != LabelOf(ls[i])
  }

  /** No line declares a label already in `keys`. */
  predicate FreshLabels(keys: set<string>, ls: seq<SourceLine>) {
    forall i :: 0 <= i < |ls| && LabelOf(ls[i]).Some? ==> LabelOf(ls[i]).value !in keys
  }

  /**
   * The address pass 1 gives the label of line `i`, starting from `st`: a
   * variable gets the variable address lowered once for every variable
   * before it, an instruction label the number of instructions before it.
   */
  function AddressOf(st: SymbolState, ls: seq<SourceLine>, i: nat): int
    requires i < |ls|
  {
    if ls[i].VariableDecl? then st.variable - VariableCount(ls[..i])
    else st.current + InstructionCount(ls[..i])
  }

  // ---------------------------------------------------- each pass's own view

  /** What the loop of pass 1 takes from a line it does not skip: the label before a colon, if any, and the instruction text. */
  datatype Pass1Line = Pass1Line(tag: Option<string>, instruction: string)

  /**
   * The first loop of `assemble` on one line, read straight off its
   * statements: a trimmed line that is empty or starts with "/" is skipped;
   * a line with a colon is split once at it, into a trimmed label and a
   * trimmed instruction; any other line is all instruction.
   */
  function Pass1View(raw: string): Option<Pass1Line> {
    var line := Trim(raw);
    if line == [] || StartsWith(line, "/") then None
    else if ':' in line then
      var parts := SplitLimit2(line, ':');
      Some(Pass1Line(Some(Trim(parts[0])), Trim(parts[1])))
    else Some(Pass1Line(None, line))
  }

  /**
   * The second loop of `assemble` on one line: the instruction text it
   * translates, or `None` where it continues with the next line.
   */
  function Pass2View(raw: string): Option<string> {
    var line := Trim(raw);
    if line == [] || StartsWith(line, "/") then None
    else
      var text := if ':' in line then Trim(SplitLimit2(line, ':')[1]) else line;
      if text == [] then None else Some(text)
  }

  /**
   * Pass 1 sees a line as its classification does: skipped exactly when the
   * loop skips it; otherwise with the same label, a variable exactly when a
   * label has no instruction after it, and an instruction (which takes an
   * address) exactly when the instruction text is non-empty.
   */
  lemma Pass1ViewAgrees(raw: string)
    ensures Pass1View(raw).None? <==> ParseLine(raw).Skipped?
    ensures Pass1View(raw).Some? ==>
      var p, l := Pass1View(raw).value, ParseLine(raw);
      && LabelOf(l) == p.tag
      && (l.VariableDecl? <==> p.tag.Some? && p.instruction == [])
      && (l.Instruction? <==> p.instruction != [])
      && (l.Instruction? ==> l.text == p.instruction)
  {
    var line := Trim(raw);
    assert line != [] ==> (StartsWith(line, "/") <==> line[0] == '/');
  }

  /** Pass 2 translates exactly the text of the lines classified as instructions, and skips every other line. */
  lemma Pass2ViewAgrees(raw: string)
    ensures Pass2View(raw) == if ParseLine(raw).Instruction? then Some(ParseLine(raw).text) else None
  {
    var line := Trim(raw);
    assert line != [] ==> (StartsWith(line, "/") <==> line[0] == '/');
  }

  // ------------------------------------------------------- sequence helpers

  /** A prefix of a non-empty sequence is its head followed by a prefix of its tail. */
  lemma PrefixOfTail(ls: seq<SourceLine>, i: nat)
    requires 0 < i <= |ls|
    ensures ls[..i] == [ls[0]] + ls[1..][..i - 1]
    ensures InstructionCount(ls[..i]) == (if ls[0].Instruction? then 1 else 0) + InstructionCount(ls[1..][..i - 1])
    ensures VariableCount(ls[..i]) == (if ls[0].VariableDecl? then 1 else 0) + VariableCount(ls[1..][..i - 1])
  {
    assert ls[..i][1..] == ls[1..][..i - 1];
  }

  /** The labels of a sequence are those of its head and of its tail. */
  lemma LabelsOfTail(ls: seq<SourceLine>)
    requires ls != []
    ensures Labels(ls) == (if LabelOf(ls[0]).Some? then {LabelOf(ls[0]).value} else {}) + Labels(ls[1..])
  {
    var head := if LabelOf(ls[0]).Some? then {LabelOf(ls[0]).value} else {};
    forall l | l in Labels(ls)
      ensures l in head + Labels(ls[1..])
    {
      var i :| 0 <= i < |ls| && LabelOf(ls[i]).Some? && LabelOf(ls[i]).value == l;
      if i > 0 {
        assert ls[1..][i - 1] == ls[i];
      }
    }
    forall l | l in Labels(ls[1..])
      ensures l in Labels(ls)
    {
      var i :| 0 <= i < |ls[1..]| && LabelOf(ls[1..][i]).Some? && LabelOf(ls[1..][i]).value == l;
      assert ls[i + 1] == ls[1..][i];
    }
  }

  // ------------------------------------------------------------------ pass 1

  /**
   * A successful pass 1 from `st` counts the instructions and the variables,
   * keeps every entry it started with, adds exactly the labels of the lines,
   * and gives each label the address `AddressOf` describes.
   */
  lemma {:induction false} Pass1Success(st: SymbolState, ls: seq<SourceLine>)
    requires Pass1From(st, ls).Pass1Done?
    ensures var s := Pass1From(st, ls).state;
      && s.current == st.current + InstructionCount(ls)
      && s.variable == st.variable - VariableCount(ls)
      && s.table.Keys == st.table.Keys + Labels(ls)
      && (forall k :: k in st.table ==> s.table[k] == st.table[k])
      && (forall i :: 0 <= i < |ls| && LabelOf(ls[i]).Some? ==> s.table[LabelOf(ls[i]).value] == AddressOf(st, ls, i))
    decreases |ls|
  {
    if ls != [] {
      var s1 := Pass1Step(st, ls[0]).state;
      var rest := ls[1..];
      Pass1Success(s1, rest);
      LabelsOfTail(ls);
      var s := Pass1From(st, ls).state;
      assert s == Pass1From(s1, rest).state;
      forall i | 0 <= i < |ls| && LabelOf(ls[i]).Some?
        ensures s.table[LabelOf(ls[i]).value] == AddressOf(st, ls, i)
      {
        if i == 0 {
          assert ls[..0] == [];
        } else {
          AddressOfTail(st, ls, i);
        }
      }
    }
  }

  /** The address line `i > 0` gets from `st` is the one line `i - 1` of the tail gets after the first step. */
  lemma AddressOfTail(st: SymbolState, ls: seq<SourceLine>, i: nat)
    requires 0 < i < |ls| && Pass1Step(st, ls[0]).Pass1Done?
    ensures ls[1..][i - 1] == ls[i]
    ensures AddressOf(st, ls, i) == AddressOf(Pass1Step(st, ls[0]).state, ls[1..], i - 1)
  {
    PrefixOfTail(ls, i);
  }

  /** A successful pass 1 from `st` met only labels new to `st` and never the same label twice. */
  lemma {:induction false} Pass1DoneLabels(st: SymbolState, ls: seq<SourceLine>)
    requires Pass1From(st, ls).Pass1Done?
    ensures FreshLabels(st.table.Keys, ls) && DistinctLabels(ls)
    decreases |ls|
  {
    if ls != [] {
      var s1 := Pass1Step(st, ls[0]).state;
      var rest := ls[1..];
      Pass1DoneLabels(s1, rest);
      forall i | 0 <= i < |ls| && LabelOf(ls[i]).Some?
        ensures LabelOf(ls[i]).value !in st.table.Keys
      {
        if i > 0 {
          assert rest[i - 1] == ls[i];
        }
      }
      forall i, j | 0 <= i < j < |ls| && LabelOf(ls[i]).Some?
        ensures LabelOf(ls[j]) != LabelOf(ls[i])
      {
        assert rest[j - 1] == ls[j];
        if i > 0 {
          assert rest[i - 1] == ls[i];
        }
      }
    }
  }

  /**
   * A failed pass 1 from `st` stops at line `j`, the first line whose label
   * was already in the table or on an earlier line; the lines before it are
   * free of any clash.
   */
  lemma {:induction false} Pass1FailedAt(st: SymbolState, ls: seq<SourceLine>)
    requires Pass1From(st, ls).Pass1Failed?
    ensures var dup := Pass1From(st, ls).duplicate;
      exists j :: && 0 <= j < |ls| && LabelOf(ls[j]) == Some(dup)
                  && (dup in st.table || dup in Labels(ls[..j]))
                  && FreshLabels(st.table.Keys, ls[..j]) && DistinctLabels(ls[..j])
    decreases |ls|
  {
    var dup := Pass1From(st, ls).duplicate;
    if Pass1Step(st, ls[0]).Pass1Failed? {
      assert LabelOf(ls[0]) == Some(dup) && dup in st.table;
      assert ls[..0] == [];
    } else {
      var s1 := Pass1Step(st, ls[0]).state;
      var rest := ls[1..];
      Pass1FailedAt(s1, rest);
      var j' :| && 0 <= j' < |rest| && LabelOf(rest[j']) == Some(dup)
                && (dup in s1.table || dup in Labels(rest[..j']))
                && FreshLabels(s1.table.Keys, rest[..j']) && DistinctLabels(rest[..j']);
      var j := j' + 1;
      var pre := ls[..j];
      PrefixOfTail(ls, j);
      assert pre[1..] == rest[..j'];
      LabelsOfTail(pre);
      assert ls[j] == rest[j'];
      forall i | 0 <= i < |pre| && LabelOf(pre[i]).Some?
        ensures LabelOf(pre[i]).value !in st.table.Keys
      {
        if i > 0 {
          assert pre[i] == rest[..j'][i - 1];
        }
      }
      forall a, b | 0 <= a < b < |pre| && LabelOf(pre[a]).Some?
        ensures LabelOf(pre[b]) != LabelOf(pre[a])
      {
        assert pre[b] == rest[..j'][b - 1];
        if a > 0 {
          assert pre[a] == rest[..j'][a - 1];
        }
      }
    }
  }

  /** Pass 1 succeeds exactly when no label is declared twice; a failure names a label declared twice. */
  lemma Pass1SucceedsIffDistinct(ls: seq<SourceLine>)
    ensures Pass1(ls).Pass1Done? <==> DistinctLabels(ls)
    ensures Pass1(ls).Pass1Failed? ==>
      exists i, j :: 0 <= i < j < |ls| && LabelOf(ls[i]) == LabelOf(ls[j]) == Some(Pass1(ls).duplicate)
  {
    if Pass1(ls).Pass1Done? {
      Pass1DoneLabels(InitialSymbols, ls);
    } else {
      Pass1FailedAt(InitialSymbols, ls);
      var dup := Pass1(ls).duplicate;
      var j :| && 0 <= j < |ls| && LabelOf(ls[j]) == Some(dup)
               && (dup in InitialSymbols.table || dup in Labels(ls[..j]));
      var i :| 0 <= i < |ls[..j]| && LabelOf(ls[..j][i]).Some? && LabelOf(ls[..j][i]).value == dup;
      assert ls[..j][i] == ls[i];
      assert !DistinctLabels(ls);
    }
  }

  /**
   * The symbol table of a successful pass 1 holds exactly the declared
   * labels; the `n`-th variable (from 0) is at 4095 - n and an instruction
   * label is at the number of instructions before it.
   */
  lemma SymbolTable(ls: seq<SourceLine>)
    requires Pass1(ls).Pass1Done?
    ensures var table := Pass1(ls).state.table;
      && table.Keys == Labels(ls)
      && (forall i :: 0 <= i < |ls| && ls[i].VariableDecl? ==>
            table[LabelOf(ls[i]).value] == LastAddress - VariableCount(ls[..i]))
      && (forall i :: 0 <= i < |ls| && ls[i].Instruction? && LabelOf(ls[i]).Some? ==>
            table[LabelOf(ls[i]).value] == InstructionCount(ls[..i]))
  {
    Pass1Success(InitialSymbols, ls);
  }

  // ------------------------------------------------------------------ pass 2

  /**
   * What the instruction on line `i` assembles to when the lines are
   * numbered from `at`: its number is `at` plus the instructions before it.
   */
  function EncodeAt(encode: Encoder, at: int, ls: seq<SourceLine>, i: nat): Result<string, AsmError>
    requires i < |ls| && ls[i].Instruction?
  {
    encode(ls[i].text, at + InstructionCount(ls[..i]))
  }

  /** Every instruction among the first `n` lines assembles without error. */
  predicate EncodesBefore(encode: Encoder, at: int, ls: seq<SourceLine>, n: nat)
    requires n <= |ls|
  {
    forall i :: 0 <= i < n && ls[i].Instruction? ==> EncodeAt(encode, at, ls, i).Success?
  }

  /** A tail line is encoded as the line it is, its number shifted by the head's instruction. */
  lemma EncodeAtTail(encode: Encoder, at: int, ls: seq<SourceLine>, i: nat)
    requires 0 < i < |ls| && ls[i].Instruction?
    ensures ls[1..][i - 1] == ls[i]
    ensures InstructionCount(ls[..i]) == (if ls[0].Instruction? then 1 else 0) + InstructionCount(ls[1..][..i - 1])
    ensures EncodeAt(encode, at, ls, i) == EncodeAt(encode, if ls[0].Instruction? then at + 1 else at, ls[1..], i - 1)
  {
    PrefixOfTail(ls, i);
  }

  /**
   * A successful pass 2 assembled every instruction and emitted one line per
   * instruction, in order: the line of the instruction on line `i` is output
   * number `InstructionCount(ls[..i])`.
   */
  lemma {:induction false} Pass2Success(encode: Encoder, at: int, ls: seq<SourceLine>)
    requires Pass2From(encode, at, ls).Success?
    ensures var out := Pass2From(encode, at, ls).value;
      && EncodesBefore(encode, at, ls, |ls|)
      && |out| == InstructionCount(ls)
      && (forall i :: 0 <= i < |ls| && ls[i].Instruction? ==>
            InstructionCount(ls[..i]) < |out| && out[InstructionCount(ls[..i])] == EncodeAt(encode, at, ls, i).value)
    decreases |ls|
  {
    if ls != [] {
      var rest := ls[1..];
      var at' := if ls[0].Instruction? then at + 1 else at;
      Pass2Success(encode, at', rest);
      var out, out' := Pass2From(encode, at, ls).value, Pass2From(encode, at', rest).value;
      assert ls[..0] == [];
      if ls[0].Instruction? {
        assert out == [encode(ls[0].text, at).value] + out';
      }
      forall i | 0 < i < |ls| && ls[i].Instruction?
        ensures && EncodeAt(encode, at, ls, i).Success?
                && InstructionCount(ls[..i]) < |out| && out[InstructionCount(ls[..i])] == EncodeAt(encode, at, ls, i).value
      {
        EncodeAtTail(encode, at, ls, i);
      }
    }
  }

  /**
   * A failed pass 2 stopped at the first instruction that does not assemble:
   * the error is that instruction's, and every instruction before it
   * assembled.
   */
  lemma {:induction false} Pass2Failure(encode: Encoder, at: int, ls: seq<SourceLine>)
    requires Pass2From(encode, at, ls).Failure?
    ensures exists j :: && 0 <= j < |ls| && ls[j].Instruction?
                        && EncodeAt(encode, at, ls, j) == Failure(Pass2From(encode, at, ls).error)
                        && EncodesBefore(encode, at, ls, j)
    decreases |ls|
  {
    var e := Pass2From(encode, at, ls).error;
    assert ls[..0] == [];
    if ls[0].Instruction? && encode(ls[0].text, at).Failure? {
      assert EncodeAt(encode, at, ls, 0) == Failure(e);
    } else {
      var rest := ls[1..];
      var at' := if ls[0].Instruction? then at + 1 else at;
      assert Pass2From(encode, at', rest).Failure? && Pass2From(encode, at', rest).error == e;
      Pass2Failure(encode, at', rest);
      var j' :| && 0 <= j' < |rest| && rest[j'].Instruction?
                && EncodeAt(encode, at', rest, j') == Failure(e)
                && EncodesBefore(encode, at', rest, j');
      var j := j' + 1;
      EncodeAtTail(encode, at, ls, j);
      EncodesBeforeTail(encode, at, ls, j);
    }
  }

  /** The head line assembles and the first `j - 1` tail lines do: then so do the first `j` lines. */
  lemma EncodesBeforeTail(encode: Encoder, at: int, ls: seq<SourceLine>, j: nat)
    requires 0 < j <= |ls|
    requires ls[0].Instruction? ==> encode(ls[0].text, at).Success?
    requires EncodesBefore(encode, if ls[0].Instruction? then at + 1 else at, ls[1..], j - 1)
    ensures EncodesBefore(encode, at, ls, j)
  {
    assert ls[..0] == [];
    forall i | 0 < i < j && ls[i].Instruction?
      ensures EncodeAt(encode, at, ls, i).Success?
    {
      EncodeAtTail(encode, at, ls, i);
    }
  }

  /** Pass 2 succeeds exactly when every instruction assembles. */
  lemma Pass2SucceedsIffAllEncode(encode: Encoder, at: int, ls: seq<SourceLine>)
    ensures Pass2From(encode, at, ls).Success? <==> EncodesBefore(encode, at, ls, |ls|)
  {
    if Pass2From(encode, at, ls).Success? {
      Pass2Success(encode, at, ls);
    } else {
      Pass2Failure(encode, at, ls);
    }
  }

  /**
   * Both passes: the assembly fails on a label declared twice, or else on
   * the first instruction that does not assemble against the symbol table of
   * pass 1; when it succeeds it holds one line per instruction, in order.
   */
  lemma AssembleLinesResult(ls: seq<SourceLine>)
    ensures !DistinctLabels(ls) ==> Pass1(ls).Pass1Failed? && AssembleLines(ls) == Failure(DuplicateLabel(Pass1(ls).duplicate))
    ensures DistinctLabels(ls) ==>
      var encode := EncoderFor(Pass1(ls).state.table);
      && (AssembleLines(ls).Success? <==> EncodesBefore(encode, 0, ls, |ls|))
      && (AssembleLines(ls).Success? ==>
            && |AssembleLines(ls).value| == InstructionCount(ls)
            && forall i :: 0 <= i < |ls| && ls[i].Instruction? ==>
                 && InstructionCount(ls[..i]) < |AssembleLines(ls).value|
                 && AssembleLines(ls).value[InstructionCount(ls[..i])] == EncodeAt(encode, 0, ls, i).value)
      && (AssembleLines(ls).Failure? ==>
            exists j :: && 0 <= j < |ls| && ls[j].Instruction?
                        && EncodeAt(encode, 0, ls, j) == Failure(AssembleLines(ls).error)
                        && EncodesBefore(encode, 0, ls, j))
  {
    Pass1SucceedsIffDistinct(ls);
    if DistinctLabels(ls) {
      var encode := EncoderFor(Pass1(ls).state.table);
      Pass2SucceedsIffAllEncode(encode, 0, ls);
      if AssembleLines(ls).Success? {
        Pass2Success(encode, 0, ls);
      } else {
        Pass2Failure(encode, 0, ls);
      }
    }
  }

  // ------------------------------------------------------------- the text

  /** The rendered text is the lines joined by newlines, with a newline after the last. */
  lemma {:induction false} RenderJoin(out: seq<string>)
    ensures Render(out) == Join(out + [""], '\n')
    decreases |out|
  {
    if out != [] {
      RenderJoinNonEmpty(out);
      JoinSnoc(out, "", '\n');
    }
  }

  lemma {:induction false} RenderJoinNonEmpty(out: seq<string>)
    requires out != []
    ensures Render(out) == Join(out, '\n') + "\n"
    decreases |out|
  {
    var init := out[..|out| - 1];
    if init != [] {
      RenderJoinNonEmpty(init);
      JoinSnoc(init, out[|out| - 1], '\n');
      assert init + [out[|out| - 1]] == out;
    }
  }

  /** Splitting the rendered text at newlines gives the lines back, then one empty piece. */
  lemma SplitRender(out: seq<string>)
    requires forall k :: 0 <= k < |out| ==> '\n' !in out[k]
    ensures SplitOn(Render(out), '\n') == out + [""]
  {
    RenderJoin(out);
    var parts := out + [""];
    forall k | 0 <= k < |parts|
      ensures '\n' !in parts[k]
    {
      if k < |out| {
        assert parts[k] == out[k];
      }
    }
    SplitJoin(parts, '\n');
  }
}
