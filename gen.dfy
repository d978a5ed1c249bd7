/** gen.c as functions: the type sizes, the checks check_func makes on a function
    item, the stack frame gen_func reserves, the text it writes, and what
    codegen_gen writes for a whole token stream. */
module Gen {
  import opened StrView
  import opened Errors
  import opened LexSpec
  import opened Parse

  // tysize and check_func.

  /** tysize: an i32 takes 4 bytes; asking for the size of void is fatal. */
  function TySize(t: TyTag): (r: Result<nat>)
    ensures r.Ok? <==> t == I32
    ensures r.Ok? ==> r.value == 4
    ensures r.Fail? ==> r.err == VoidHasNoSize
  {
    match t
    case I32 => Ok(4)
    case Void => Fail(VoidHasNoSize)
  }

  /** Some declaration of ds other than the i-th has a name str_eq to its name
      (an inner j-loop of check_func). */
  predicate DupAt(ds: seq<Decl>, i: nat)
    requires i < |ds|
  {
    exists j :: 0 <= j < |ds| && i != j && Eq(ds[i].name, ds[j].name)
  }

  /** Some stack variable has the name of the i-th parameter (the svi-loop). */
  predicate CollidesAt(args: seq<Decl>, svs: seq<Decl>, i: nat)
    requires i < |args|
  {
    exists k :: 0 <= k < |svs| && Eq(svs[k].name, args[i].name)
  }

  /** The parameter loop of check_func from index i on: for each parameter, first
      the duplicate test against every other parameter, then the collision test
      against every stack variable. */
  function CheckArgsFrom(args: seq<Decl>, svs: seq<Decl>, i: nat): (r: Outcome)
    requires i <= |args|
    ensures r == Pass <==> forall k :: i <= k < |args| ==> !DupAt(args, k) && !CollidesAt(args, svs, k)
    ensures r.Abort? ==> r.err == DuplicateArg || r.err == ArgStackvarCollision
    decreases |args| - i
  {
    if i == |args| then Pass
    else if DupAt(args, i) then Abort(DuplicateArg)
    else if CollidesAt(args, svs, i) then Abort(ArgStackvarCollision)
    else CheckArgsFrom(args, svs, i + 1)
  }

  /** The stack-variable loop of check_func from index i on. */
  function CheckStackvarsFrom(svs: seq<Decl>, i: nat): (r: Outcome)
    requires i <= |svs|
    ensures r == Pass <==> forall k :: i <= k < |svs| ==> !DupAt(svs, k)
    ensures r.Abort? ==> r.err == DuplicateStackvar
    decreases |svs| - i
  {
    if i == |svs| then Pass
    else if DupAt(svs, i) then Abort(DuplicateStackvar)
    else CheckStackvarsFrom(svs, i + 1)
  }

  /** check_func: the return type, then the parameters, then the stack variables;
      the first failing test is fatal. */
  function CheckFunc(f: FuncItem): (r: Outcome)
    ensures f.returnType != I32 ==> r == Abort(UnsupportedReturnType)
  {
    if f.returnType != I32 then Abort(UnsupportedReturnType)
    else
      match CheckArgsFrom(f.args, f.stackvars, 0)
      case Abort(e) => Abort(e)
      case Pass => CheckStackvarsFrom(f.stackvars, 0)
  }

  /** No two declarations of ds have the same name bytes. */
  predicate DistinctNames(ds: seq<Decl>)
  {
    forall i, j :: 0 <= i < j < |ds| ==> Bytes(ds[i].name) != Bytes(ds[j].name)
  }

  /** No parameter has the name bytes of a stack variable. */
  predicate Disjoint(args: seq<Decl>, svs: seq<Decl>)
  {
    forall i, k :: 0 <= i < |args| && 0 <= k < |svs| ==> Bytes(args[i].name) != Bytes(svs[k].name)
  }

  /** The duplicate loops find nothing exactly when the names are distinct. */
  lemma NoDupIffDistinct(ds: seq<Decl>)
    ensures (forall k :: 0 <= k < |ds| ==> !DupAt(ds, k)) <==> DistinctNames(ds)
  {
    forall i, j | 0 <= i < |ds| && 0 <= j < |ds| {
      EqIffSameBytes(ds[i].name, ds[j].name);
    }
    if !DistinctNames(ds) {
      var i, j :| 0 <= i < j < |ds| && Bytes(ds[i].name) == Bytes(ds[j].name);
      assert DupAt(ds, i);
    }
    if exists k :: 0 <= k < |ds| && DupAt(ds, k) {
      var k :| 0 <= k < |ds| && DupAt(ds, k);
      var j :| 0 <= j < |ds| && k != j && Eq(ds[k].name, ds[j].name);
      assert Bytes(ds[k].name) == Bytes(ds[j].name);
      assert !DistinctNames(ds) by {
        if k < j {
          assert Bytes(ds[k].name) == Bytes(ds[j].name);
        } else {
          assert Bytes(ds[j].name) == Bytes(ds[k].name);
        }
      }
    }
  }

  /** The collision loops find nothing exactly when no name is shared. */
  lemma NoCollisionIffDisjoint(args: seq<Decl>, svs: seq<Decl>)
    ensures (forall i :: 0 <= i < |args| ==> !CollidesAt(args, svs, i)) <==> Disjoint(args, svs)
  {
    forall i, k | 0 <= i < |args| && 0 <= k < |svs| {
      EqIffSameBytes(svs[k].name, args[i].name);
    }
    if !Disjoint(args, svs) {
      var i, k :| 0 <= i < |args| && 0 <= k < |svs| && Bytes(args[i].name) == Bytes(svs[k].name);
      assert CollidesAt(args, svs, i);
    }
  }

  /** check_func passes exactly when the return type is i32, the parameter names
      are pairwise distinct, the stack-variable names are pairwise distinct, and no
      parameter shares its name with a stack variable. */
  lemma CheckFuncPassIff(f: FuncItem)
    ensures CheckFunc(f) == Pass <==>
      f.returnType == I32 && DistinctNames(f.args) && DistinctNames(f.stackvars)
      && Disjoint(f.args, f.stackvars)
  {
    NoDupIffDistinct(f.args);
    NoDupIffDistinct(f.stackvars);
    NoCollisionIffDisjoint(f.args, f.stackvars);
  }

  /** Which test fails first: the return type, then a parameter (a duplicate or a
      collision), and only then a duplicate stack variable. */
  lemma CheckFuncFirstError(f: FuncItem)
    ensures f.returnType == I32 && !(DistinctNames(f.args) && Disjoint(f.args, f.stackvars)) ==>
      CheckFunc(f) == Abort(DuplicateArg) || CheckFunc(f) == Abort(ArgStackvarCollision)
    ensures f.returnType == I32 && DistinctNames(f.args) && Disjoint(f.args, f.stackvars) && !DistinctNames(f.stackvars) ==>
      CheckFunc(f) == Abort(DuplicateStackvar)
  {
    NoDupIffDistinct(f.args);
    NoDupIffDistinct(f.stackvars);
    NoCollisionIffDisjoint(f.args, f.stackvars);
  }

  // The stack frame.

  /** The sum of tysize over the stack variables; a void one is fatal. */
  function StackSum(svs: seq<Decl>): (r: Result<nat>)
    ensures r.Ok? <==> forall i :: 0 <= i < |svs| ==> svs[i].ty == I32
    ensures r.Ok? ==> r.value == 4 * |svs|
    ensures r.Fail? ==> r.err == VoidHasNoSize
  {
    if svs == [] then Ok(0)
    else
      var init :- StackSum(svs[..|svs| - 1]);
      var last :- TySize(svs[|svs| - 1].ty);
      Ok(init + last)
  }

  /** The alignment loop of gen_func: the size is raised one by one until it is a
      multiple of 16. */
  function AlignUp16(n: nat): (m: nat)
    ensures m % 16 == 0 && n <= m < n + 16
  {
    n + (16 - n % 16) % 16
  }

  /** The aligned size is the least multiple of 16 that is not below n, and is 0
      only for 0. */
  lemma AlignUp16Least(n: nat, m: nat)
    requires m % 16 == 0 && n <= m
    ensures AlignUp16(n) <= m
    ensures AlignUp16(n) == 0 <==> n == 0
  {
  }

  /** The frame gen_func reserves for the stack variables. */
  function FrameSize(svs: seq<Decl>): (r: Result<nat>)
    ensures r.Ok? <==> StackSum(svs).Ok?
  {
    var sum :- StackSum(svs);
    Ok(AlignUp16(sum))
  }

  /** The frame is the smallest multiple of 16 holding the stack variables: at
      least their total size, less than 16 more, and 0 exactly without any. */
  lemma FrameSizeBounds(svs: seq<Decl>)
    requires FrameSize(svs).Ok?
    ensures var size := FrameSize(svs).value; var sum := 4 * |svs|;
      size % 16 == 0 && sum <= size < sum + 16
      && (forall m: nat :: m % 16 == 0 && sum <= m ==> size <= m)
      && (size == 0 <==> svs == [])
  {
    var sum := 4 * |svs|;
    AlignUp16Least(sum, AlignUp16(sum));
    forall m: nat | m % 16 == 0 && sum <= m
      ensures AlignUp16(sum) <= m
    {
      AlignUp16Least(sum, m);
    }
  }

  // Hexadecimal, as printf's PRIx64 writes it.

  predicate IsHexDigit(c: char)
  {
    '0' <= c <= '9' || 'a' <= c <= 'f'
  }

  function HexDigit(d: nat): (c: char)
    requires d < 16
    ensures IsHexDigit(c)
  {
    if d < 10 then ('0' as int + d) as char else ('a' as int + d - 10) as char
  }

  /** The value of a lowercase hexadecimal digit. */
  function DigitValue(c: char): (d: nat)
    requires IsHexDigit(c)
    ensures d < 16
  {
    if c <= '9' then c as int - '0' as int else c as int - 'a' as int + 10
  }

  /** n in lowercase hexadecimal, without leading zeros. */
  function Hex(n: nat): (s: string)
    ensures s != []
    ensures forall i :: 0 <= i < |s| ==> IsHexDigit(s[i])
    ensures n > 0 ==> s[0] != '0'
    decreases n
  {
    if n < 16 then [HexDigit(n)] else Hex(n / 16) + [HexDigit(n % 16)]
  }

  /** The value of a string of lowercase hexadecimal digits. */
  function HexValue(s: string): (v: nat)
    requires forall i :: 0 <= i < |s| ==> IsHexDigit(s[i])
    ensures |s| == 1 ==> v == DigitValue(s[0])
  {
    if s == [] then 0 else HexValue(s[..|s| - 1]) * 16 + DigitValue(s[|s| - 1])
  }

  /** Reading the digits back gives the number. */
  lemma {:induction false} HexRoundTrip(n: nat)
    ensures HexValue(Hex(n)) == n
    decreases n
  {
    if n >= 16 {
      var s := Hex(n);
      HexRoundTrip(n / 16);
      assert s[..|s| - 1] == Hex(n / 16);
      assert DigitValue(s[|s| - 1]) == n % 16;
    }
  }

  // The text.

  /** The first fprintf of gen_func: the symbol directive and the label. */
  function Header(name: Str): (t: string)
    ensures |t| == 2 * name.len + 10
  {
    ".globl " + Bytes(name) + "\n" + Bytes(name) + ":\n"
  }

  /** The stack-pointer adjustment, before the frame size. */
  const Adjust: string := "\taddi sp, sp, -0x"

  /** What gen_func writes for a function with this name and frame size. */
  function FuncText(name: Str, size: nat): (t: string)
    ensures size == 0 ==> t == Header(name)
  {
    Header(name) + (if size != 0 then Adjust + Hex(size) + "\n" else "")
  }

  /** The text is the header, then, exactly when the frame is not empty, a line
      subtracting the frame size (in lowercase hexadecimal) from sp. */
  lemma FuncTextParts(name: Str, size: nat)
    ensures var t := FuncText(name, size); var h := |Header(name)|;
      t[..h] == Header(name)
      && (size == 0 <==> |t| == h)
      && (size != 0 ==>
            |t| > h + |Adjust| && t[h..h + |Adjust|] == Adjust && t[|t| - 1] == '\n'
            && (forall i :: h + |Adjust| <= i < |t| - 1 ==> IsHexDigit(t[i]))
            && HexValue(t[h + |Adjust|..|t| - 1]) == size)
  {
    var t := FuncText(name, size);
    var h := |Header(name)|;
    if size != 0 {
      var line := Adjust + Hex(size) + "\n";
      assert t == Header(name) + line;
      assert t[h..] == line;
      assert t[h + |Adjust|..|t| - 1] == Hex(size);
      HexRoundTrip(size);
    }
  }

  /** gen_func: check_func, then the frame size, and only then any output; so a
      function that fails either writes nothing. */
  function GenFuncText(f: FuncItem): (r: Result<string>)
    ensures CheckFunc(f).Abort? ==> r == Fail(CheckFunc(f).err)
    ensures CheckFunc(f) == Pass ==> (r.Ok? <==> FrameSize(f.stackvars).Ok?)
    ensures CheckFunc(f) == Pass && FrameSize(f.stackvars).Fail? ==> r == Fail(VoidHasNoSize)
  {
    match CheckFunc(f)
    case Abort(e) => Fail(e)
    case Pass =>
      var size :- FrameSize(f.stackvars);
      Ok(FuncText(f.name, size))
  }

  /** gen_func writes text exactly for a function with an i32 return type,
      distinct names and i32 stack variables, and the text is the header and the
      adjustment by the frame size. */
  lemma GenFuncTextIff(f: FuncItem)
    ensures GenFuncText(f).Ok? <==>
      f.returnType == I32 && DistinctNames(f.args) && DistinctNames(f.stackvars)
      && Disjoint(f.args, f.stackvars) && forall i :: 0 <= i < |f.stackvars| ==> f.stackvars[i].ty == I32
    ensures GenFuncText(f).Ok? ==>
      GenFuncText(f).value == FuncText(f.name, AlignUp16(4 * |f.stackvars|))
  {
    CheckFuncPassIff(f);
  }

  /** Parameter types are never looked at: only parameter names matter. */
  lemma ParamTypesIgnored(f: FuncItem, args: seq<Decl>)
    requires |args| == |f.args|
    requires forall i :: 0 <= i < |args| ==> args[i].name == f.args[i].name
    ensures GenFuncText(f.(args := args)) == GenFuncText(f)
  {
    var g := f.(args := args);
    assert forall i :: 0 <= i < |args| ==> DupAt(args, i) == DupAt(f.args, i);
    assert forall i :: 0 <= i < |args| ==> CollidesAt(args, f.stackvars, i) == CollidesAt(f.args, f.stackvars, i);
    assert CheckArgsFrom(args, f.stackvars, 0) == Pass <==> CheckArgsFrom(f.args, f.stackvars, 0) == Pass;
    ArgsCheckSameOutcome(f.args, args, f.stackvars, 0);
  }

  /** The parameter loop gives the same answer for parameters with the same names. */
  lemma {:induction false} ArgsCheckSameOutcome(a: seq<Decl>, b: seq<Decl>, svs: seq<Decl>, i: nat)
    requires |a| == |b| && i <= |a|
    requires forall k :: 0 <= k < |a| ==> a[k].name == b[k].name
    ensures CheckArgsFrom(a, svs, i) == CheckArgsFrom(b, svs, i)
    decreases |a| - i
  {
    if i < |a| {
      assert DupAt(a, i) == DupAt(b, i);
      assert CollidesAt(a, svs, i) == CollidesAt(b, svs, i);
      ArgsCheckSameOutcome(a, b, svs, i + 1);
    }
  }

  /** Two i32 stack variables make a 16-byte frame, written as -0x10. */
  lemma TwoStackvarsText(name: Str, a: Str, b: Str)
    requires Bytes(a) != Bytes(b)
    ensures GenFuncText(FuncItem(name, I32, [], [Decl(a, I32), Decl(b, I32)]))
      == Ok(Header(name) + "\taddi sp, sp, -0x10\n")
  {
    var f := FuncItem(name, I32, [], [Decl(a, I32), Decl(b, I32)]);
    CheckFuncPassIff(f);
    assert CheckFunc(f) == Pass;
    assert StackSum(f.stackvars) == Ok(8);
    assert FrameSize(f.stackvars) == Ok(16);
    assert Hex(16) == "10" by {
      assert Hex(16) == Hex(1) + [HexDigit(0)];
    }
    assert Adjust + "10" + "\n" == "\taddi sp, sp, -0x10\n";
    assert FuncText(name, 16) == Header(name) + (Adjust + "10" + "\n");
  }

  // codegen_gen.

  /** What codegen_gen has written, and how it ended. */
  datatype Emitted = Emitted(text: string, result: Outcome)

  /** codegen_gen with parser_next answering 0 after an item: gen_item on every
      item until the end of the input or the first fatal error; the text of the
      items before that error has been written. */
  function Generate(s: Stream): (e: Emitted)
    ensures s.toks == [] ==> e.text == []
    decreases |s.toks|
  {
    match ParserNextIntended(s)
    case Fail(err) => Emitted([], Abort(err))
    case Ok(pulled) =>
      if pulled.status != 0 then Emitted([], Pass)
      else
        match GenFuncText(pulled.item.value.func)
        case Fail(err) => Emitted([], Abort(err))
        case Ok(text) =>
          var more := Generate(pulled.rest);
          Emitted(text + more.text, more.result)
  }

  /** codegen_gen as written: parser_next never answers 0, so the loop body is
      never reached and nothing is written. */
  function GenerateAsWritten(s: Stream): (e: Emitted)
    ensures e.text == []
    ensures e.result.Abort? <==> ParserNext(s).Fail?
  {
    match ParserNext(s)
    case Fail(err) => Emitted([], Abort(err))
    case Ok(pulled) =>
      if pulled.status != 0 then Emitted([], Pass)
      else assert false; Emitted([], Pass)
  }

  /** A function item at the front of the stream is written (if gen_func accepts
      it) before whatever follows. */
  lemma GenerateItem(f: FuncItem, more: seq<Token>, end: End)
    ensures var e := Generate(Stream(FuncTokens(f) + more, end));
      var rest := Generate(Stream(more, end));
      match GenFuncText(f)
      case Ok(text) => e == Emitted(text + rest.text, rest.result)
      case Fail(err) => e == Emitted([], Abort(err))
  {
    ParserNextAfterItem(f, more, end);
  }

  /** One pull of codegen_gen: the item's text, then what follows it. */
  lemma GenerateStep(s: Stream, f: FuncItem, rest: Stream, text: string)
    requires ParserNextIntended(s) == Ok(Pulled(0, Some(Func(f)), rest))
    requires GenFuncText(f) == Ok(text)
    ensures Generate(s) == Emitted(text + Generate(rest).text, Generate(rest).result)
  {
  }

  /** The pulls that end codegen_gen: a fatal error, the end of the input, or an
      item gen_func refuses; nothing more is written. */
  lemma GenerateStop(s: Stream, r: Result<Pulled>)
    requires r == ParserNextIntended(s)
    ensures r.Fail? ==> Generate(s) == Emitted([], Abort(r.err))
    ensures r.Ok? && r.value.status != 0 ==> Generate(s) == Emitted([], Pass)
    ensures r.Ok? && r.value.status == 0 && GenFuncText(r.value.item.value.func).Fail? ==>
      Generate(s) == Emitted([], Abort(GenFuncText(r.value.item.value.func).err))
  {
  }

  /** The end of the input ends codegen_gen with nothing more written. */
  lemma GenerateAtEof()
    ensures Generate(Stream([], AtEof)) == Emitted([], Pass)
  {
    ParserNextCases(Stream([], AtEof));
  }

  /** The tokens of a sequence of function items, one after the other. */
  function ProgramTokens(fs: seq<FuncItem>): (ts: seq<Token>)
    ensures fs == [] <==> ts == []
  {
    if fs == [] then [] else FuncTokens(fs[0]) + ProgramTokens(fs[1..])
  }

  /** The text gen_func writes for each of the items, one after the other. */
  function ProgramText(fs: seq<FuncItem>): (t: string)
    requires forall i :: 0 <= i < |fs| ==> GenFuncText(fs[i]).Ok?
    ensures fs == [] ==> t == []
  {
    if fs == [] then [] else GenFuncText(fs[0]).value + ProgramText(fs[1..])
  }

  /** A program of acceptable functions is written out function by function. */
  lemma {:induction false} GenerateProgram(fs: seq<FuncItem>)
    requires forall i :: 0 <= i < |fs| ==> GenFuncText(fs[i]).Ok?
    ensures Generate(Stream(ProgramTokens(fs), AtEof)) == Emitted(ProgramText(fs), Pass)
    decreases |fs|
  {
    if fs == [] {
      GenerateAtEof();
    } else {
      GenerateItem(fs[0], ProgramTokens(fs[1..]), AtEof);
      GenerateProgram(fs[1..]);
    }
  }

  /** As written, even a program whose functions gen_func would accept makes
      codegen_gen write nothing, while parser_next answering 0 would write them. */
  lemma AsWrittenWritesNothing(f: FuncItem)
    requires GenFuncText(f).Ok?
    ensures GenerateAsWritten(Stream(FuncTokens(f), AtEof)) == Emitted([], Pass)
    ensures Generate(Stream(FuncTokens(f), AtEof)) == Emitted(GenFuncText(f).value, Pass)
    ensures GenFuncText(f).value != []
  {
    ParserNextAfterItem(f, [], AtEof);
    assert FuncTokens(f) + [] == FuncTokens(f);
    GenerateItem(f, [], AtEof);
    GenerateAtEof();
    assert GenFuncText(f).value[..6] == ".globl";
  }
}
