/** gen.c's struct codegen: the parser it pulls items from and the text it has
    written to its output file. Each method is proved against the Gen function of
    the same meaning. */
module CodeGen {
  import opened StrView
  import opened Errors
  import opened LexSpec
  import opened Parse
  import opened Gen
  import Parser

  lemma AppendAssoc(a: string, b: string, c: string)
    ensures (a + b) + c == a + (b + c)
  {
  }

  /** The frame loops of gen_func: the sum of tysize over the stack variables,
      then one by one up to a multiple of 16. */
  method StackSize(svs: seq<Decl>) returns (r: Result<nat>)
    ensures r == FrameSize(svs)
  {
    var stacksize: nat := 0;
    var i := 0;
    while i < |svs|
      invariant 0 <= i <= |svs|
      invariant StackSum(svs[..i]) == Ok(stacksize)
    {
      assert svs[..i + 1][..i] == svs[..i];
      var size := TySize(svs[i].ty);
      if size.Fail? {
        assert svs[..i + 1][i] == svs[i];
        assert StackSum(svs[..i + 1]).Fail?;
        return Fail(size.err);
      }
      stacksize := stacksize + size.value;
      i := i + 1;
    }
    assert svs[..i] == svs;
    ghost var sum := stacksize;
    while stacksize % 16 != 0
      invariant sum <= stacksize <= AlignUp16(sum)
      decreases AlignUp16(sum) - stacksize
    {
      stacksize := stacksize + 1;
    }
    AlignUp16Least(sum, stacksize);
    return Ok(stacksize);
  }

  class CodeGen {
    const p: Parser.Parser
    /** Everything written to the output file so far. */
    var out: string

    ghost predicate Valid()
      reads this, p, p.l
    {
      p.Valid()
    }

    /** codegen_init: a parser on the input and an output with nothing written. */
    constructor Init(input: seq<Byte>)
      ensures Valid() && fresh(p) && fresh(p.l)
      ensures p.Tokens() == Lex(input) && out == []
    {
      p := new Parser.Parser.Init(input);
      out := [];
    }

    /** gen_func: check_func, the frame size, then the two writes. A fatal error
        writes nothing. */
    method GenFunc(f: FuncItem) returns (r: Outcome)
      modifies this
      ensures match GenFuncText(f)
        case Ok(text) => r == Pass && out == old(out) + text
        case Fail(e) => r == Abort(e) && out == old(out)
    {
      var check := CheckFunc(f);
      if check.Abort? {
        return check;
      }
      var frame := StackSize(f.stackvars);
      if frame.Fail? {
        return Abort(frame.err);
      }
      var stacksize := frame.value;
      var header := ".globl " + Bytes(f.name) + "\n" + Bytes(f.name) + ":\n";
      out := out + header;
      if stacksize != 0 {
        var adjust := "\taddi sp, sp, -0x" + Hex(stacksize) + "\n";
        out := out + adjust;
        AppendAssoc(old(out), header, adjust);
      }
      r := Pass;
    }

    /** gen_item: a function item goes to gen_func. */
    method GenItem(it: Item) returns (r: Outcome)
      modifies this
      ensures match GenFuncText(it.func)
        case Ok(text) => r == Pass && out == old(out) + text
        case Fail(e) => r == Abort(e) && out == old(out)
    {
      match it
      case Func(f) =>
        r := GenFunc(f);
    }

    /** codegen_gen as written: the first parser_next already answers 1 (or is
        fatal), so the loop ends before gen_item and nothing is written. */
    method GenAsWritten() returns (r: Outcome)
      requires Valid()
      modifies this, p.l
      ensures Valid()
      ensures out == old(out) && r == GenerateAsWritten(old(p.Tokens())).result
    {
      var st, it := p.Next();
      if st.Fail? {
        return Abort(st.err);
      }
      if st.value == 0 {
        assert false;
      }
      r := Pass;
    }

    /** codegen_gen with parser_next answering 0 after an item: gen_item on each
        item until the end of the input; the first fatal error stops it. */
    method Gen() returns (r: Outcome)
      requires Valid()
      modifies this, p.l
      ensures Valid()
      ensures out == old(out) + Generate(old(p.Tokens())).text
      ensures r == Generate(old(p.Tokens())).result
    {
      ghost var s0 := p.Tokens();
      ghost var cur := s0;
      ghost var written: string := [];
      while true
        invariant Valid() && p.Tokens() == cur
        invariant out == old(out) + written
        invariant Generate(s0) == Emitted(written + Generate(cur).text, Generate(cur).result)
        decreases |cur.toks|
      {
        var st, it := p.NextIntended();
        GenerateStop(cur, ParserNextIntended(cur));
        if st.Fail? {
          return Abort(st.err);
        }
        if st.value != 0 {
          return Pass;
        }
        ghost var before := out;
        r := GenItem(it.value);
        if r.Abort? {
          return r;
        }
        ghost var text := GenFuncText(it.value.func).value;
        assert out == before + text;
        GenerateStep(cur, it.value.func, p.Tokens(), text);
        AppendAssoc(old(out), written, text);
        AppendAssoc(written, text, Generate(p.Tokens()).text);
        written := written + text;
        cur := p.Tokens();
      }
    }
  }
}
