/** parse.c's routines as methods of struct parser, which owns the lexer. Each one
    is proved against the Parse function of the same name on the tokens the lexer
    has still to hand out: it returns what that function returns and leaves the
    lexer at the stream that function leaves. */
module Parser {
  import opened StrView
  import opened Errors
  import opened LexSpec
  import opened DynArray
  import opened Parse
  import Lexer

  /** struct parser: just the lexer. */
  class Parser {
    const l: Lexer.Lexer

    ghost predicate Valid()
      reads this, l
    {
      l.Valid()
    }

    /** The tokens the parser has still to read. */
    function Tokens(): Stream
      reads this, l
      requires Valid()
    {
      l.Tokens()
    }

    /** parser_init: lexer_init on the input. */
    constructor Init(input: seq<Byte>)
      ensures Valid() && fresh(l)
      ensures Tokens() == Lex(input)
    {
      l := new Lexer.Lexer.Init(input);
    }

    /** expect: the next token, which must be of kind k. */
    method Expect(k: Kind) returns (r: Result<Token>)
      requires Valid()
      modifies l
      ensures Valid()
      ensures r == ValueOf(Parse.Expect(old(Tokens()), k))
      ensures r.Ok? ==> HasKind(r.value, k)
      ensures r.Ok? ==> Tokens() == Parse.Expect(old(Tokens()), k).value.rest
    {
      var t := l.LexerNext();
      match t
      case Absent => r := Fail(UnexpectedEof);
      case Fatal(e) => r := Fail(e);
      case Got(tok) =>
        if !HasKind(tok, k) {
          r := Fail(UnexpectedToken);
        } else {
          r := Ok(tok);
        }
    }

    /** peekis: whether the token lexer_peek caches is of kind k (not at the end). */
    method Peekis(k: Kind) returns (r: Result<bool>)
      requires Valid()
      modifies l
      ensures Valid()
      ensures r == Parse.Peekis(old(Tokens()), k)
      ensures r.Ok? ==> Tokens() == old(Tokens())
    {
      var t := l.LexerPeek();
      match t
      case Absent => r := Ok(false);
      case Fatal(e) => r := Fail(e);
      case Got(tok) => r := Ok(HasKind(tok, k));
    }

    /** consume1: lexer_next, its token and its answer dropped. */
    method Consume1() returns (r: Outcome)
      requires Valid()
      modifies l
      ensures Valid()
      ensures match Parse.Consume1(old(Tokens()))
        case Ok(s) => r == Pass && Tokens() == s
        case Fail(e) => r == Abort(e)
    {
      var t := l.LexerNext();
      if t.Fatal? {
        r := Abort(t.err);
      } else {
        r := Pass;
      }
    }

    /** parse_decl: a type, then a name. */
    method ParseDecl() returns (r: Result<Decl>)
      requires Valid()
      modifies l
      ensures Valid()
      ensures r == ValueOf(Parse.ParseDecl(old(Tokens())))
      ensures r.Ok? ==> Tokens() == Parse.ParseDecl(old(Tokens())).value.rest
    {
      ghost var s0 := Tokens();
      var ty := Expect(TyKind);
      if ty.Fail? {
        return Fail(ty.err);
      }
      ghost var s1 := Tokens();
      assert Parse.Expect(s0, TyKind) == Ok(Parsed(ty.value, s1));
      var name := Expect(IdentKind);
      if name.Fail? {
        assert Parse.ParseDecl(s0) == Fail(name.err);
        return Fail(name.err);
      }
      assert Parse.Expect(s1, IdentKind) == Ok(Parsed(name.value, Tokens()));
      r := Ok(Decl(name.value.name, ty.value.tag));
    }
  
    /** One round of the parameter loop of parse_func: a decl appended to args,
        then whether a ',' is peeked, in which case consume1 drops it. The answer
        is whether the loop goes on; the round keeps the loop's final result. */
    method ArgRound(args: Da<Decl>) returns (r: Result<bool>)
      requires Valid() && args.Valid()
      modifies l, args, args.ptr
      ensures Valid() && args.Valid() && (args.ptr == old(args.ptr) || fresh(args.ptr))
      ensures r.Fail? ==> Params(old(Tokens()), old(args.Elements())) == Fail(r.err)
      ensures r == Ok(true) ==> (Params(old(Tokens()), old(args.Elements()))
                                 == Params(Tokens(), args.Elements()))
      ensures r == Ok(false) ==> (Params(old(Tokens()), old(args.Elements()))
                                  == Ok(Parsed(args.Elements(), Tokens())))
      ensures r.Ok? ==> |Tokens().toks| < |old(Tokens()).toks|
    {
      ghost var s0 := Tokens();
      ghost var acc := args.Elements();
      var d := ParseDecl();
      if d.Fail? {
        return Fail(d.err);
      }
      ghost var s1 := Tokens();
      assert Parse.ParseDecl(s0) == Ok(Parsed(d.value, s1));
      args.Append(d.value);
      assert args.Elements() == acc + [d.value];
      var comma := Peekis(CommaKind);
      if comma.Fail? {
        return Fail(comma.err);
      }
      if comma.value {
        var c := Consume1();
        assert Tokens() == Drop(s1);
      }
      r := Ok(comma.value);
    }

    /** The parameter part of parse_func: unless ')' is peeked at once, rounds of
        the parameter loop append to args until no ',' follows; then the ')'. */
    method ParseArgs(args: Da<Decl>) returns (r: Outcome)
      requires Valid() && args.Valid() && args.ptr == null && args.len == 0
      modifies l, args
      ensures Valid() && args.Valid() && (args.ptr == null || fresh(args.ptr))
      ensures r.Pass? <==> ParseParams(old(Tokens())).Ok?
      ensures r.Abort? ==> r.err == ParseParams(old(Tokens())).err
      ensures r.Pass? ==> (args.Elements() == ParseParams(old(Tokens())).value.value
                           && Tokens() == ParseParams(old(Tokens())).value.rest)
    {
      ghost var s0 := Tokens();
      var empty := Peekis(RParenKind);
      if empty.Fail? {
        return Abort(empty.err);
      }
      if !empty.value {
        ghost var target := Params(s0, []);
        while true
          invariant Valid() && args.Valid() && (args.ptr == null || fresh(args.ptr))
          invariant target == Params(Tokens(), args.Elements())
          decreases |Tokens().toks|
        {
          var more := ArgRound(args);
          if more.Fail? {
            return Abort(more.err);
          }
          if !more.value {
            break;
          }
        }
        assert Params(s0, []) == Ok(Parsed(args.Elements(), Tokens()));
      }
      var rparen := Expect(RParenKind);
      if rparen.Fail? {
        return Abort(rparen.err);
      }
      r := Pass;
    }

    /** One round of the stack-variable loop of parse_func, once no '{' is peeked:
        a decl appended to stackvars, then its ';'. The round keeps the loop's
        final result. */
    method StackvarRound(stackvars: Da<Decl>) returns (r: Outcome)
      requires Valid() && stackvars.Valid() && Parse.Peekis(Tokens(), LBraceKind) == Ok(false)
      modifies l, stackvars, stackvars.ptr
      ensures Valid() && stackvars.Valid() && (stackvars.ptr == old(stackvars.ptr) || fresh(stackvars.ptr))
      ensures r.Abort? ==> Stackvars(old(Tokens()), old(stackvars.Elements())) == Fail(r.err)
      ensures r.Pass? ==> (Stackvars(old(Tokens()), old(stackvars.Elements()))
                           == Stackvars(Tokens(), stackvars.Elements()))
      ensures r.Pass? ==> |Tokens().toks| < |old(Tokens()).toks|
    {
      ghost var s0 := Tokens();
      ghost var acc := stackvars.Elements();
      var d := ParseDecl();
      if d.Fail? {
        return Abort(d.err);
      }
      ghost var s1 := Tokens();
      assert Parse.ParseDecl(s0) == Ok(Parsed(d.value, s1));
      stackvars.Append(d.value);
      assert stackvars.Elements() == acc + [d.value];
      var semi := Expect(SemicolonKind);
      if semi.Fail? {
        return Abort(semi.err);
      }
      r := Pass;
    }

    /** The stack-variable part of parse_func: until '{' is peeked, rounds of the
        stack-variable loop; then "{" and "}". */
    method ParseStackvars(stackvars: Da<Decl>) returns (r: Outcome)
      requires Valid() && stackvars.Valid() && stackvars.ptr == null && stackvars.len == 0
      modifies l, stackvars
      ensures Valid() && stackvars.Valid() && (stackvars.ptr == null || fresh(stackvars.ptr))
      ensures r.Pass? <==> ParseBody(old(Tokens())).Ok?
      ensures r.Abort? ==> r.err == ParseBody(old(Tokens())).err
      ensures r.Pass? ==> (stackvars.Elements() == ParseBody(old(Tokens())).value.value
                           && Tokens() == ParseBody(old(Tokens())).value.rest)
    {
      ghost var s0 := Tokens();
      ghost var target := Stackvars(s0, []);
      while true
        invariant Valid() && stackvars.Valid() && (stackvars.ptr == null || fresh(stackvars.ptr))
        invariant target == Stackvars(Tokens(), stackvars.Elements())
        decreases |Tokens().toks|
      {
        var brace := Peekis(LBraceKind);
        if brace.Fail? {
          return Abort(brace.err);
        }
        if brace.value {
          break;
        }
        var round := StackvarRound(stackvars);
        if round.Abort? {
          return Abort(round.err);
        }
      }
      assert target == Ok(Parsed(stackvars.Elements(), Tokens()));
      var lbrace := Expect(LBraceKind);
      if lbrace.Fail? {
        return Abort(lbrace.err);
      }
      var rbrace := Expect(RBraceKind);
      if rbrace.Fail? {
        return Abort(rbrace.err);
      }
      r := Pass;
    }

    /** The head of parse_func: "fn", the return type, the name and "(". */
    method ParseHead() returns (r: Result<Signature>)
      requires Valid()
      modifies l
      ensures Valid()
      ensures r == ValueOf(ParseSignature(old(Tokens())))
      ensures r.Ok? ==> Tokens() == ParseSignature(old(Tokens())).value.rest
    {
      ghost var s0 := Tokens();
      var fn := Expect(FnKind);
      if fn.Fail? {
        return Fail(fn.err);
      }
      var ret := Expect(TyKind);
      if ret.Fail? {
        return Fail(ret.err);
      }
      var name := Expect(IdentKind);
      if name.Fail? {
        return Fail(name.err);
      }
      var lparen := Expect(LParenKind);
      if lparen.Fail? {
        return Fail(lparen.err);
      }
      assert name.value.Ident? && ret.value.Ty?;
      r := Ok(Signature(name.value.name, ret.value.tag));
      assert ParseSignature(s0) == Ok(Parsed(r.value, Tokens()));
    }

    /** parse_func: da_init on both lists, the head, the parameters, the stack
        variables and the body. The item is returned with its two lists as the
        sequences of their elements. */
    method ParseFunc() returns (r: Result<FuncItem>)
      requires Valid()
      modifies l
      ensures Valid()
      ensures r == ValueOf(Parse.ParseFunc(old(Tokens())))
      ensures r.Ok? ==> Tokens() == Parse.ParseFunc(old(Tokens())).value.rest
    {
      ghost var s0 := Tokens();
      var args := new Da<Decl>.Init();
      var stackvars := new Da<Decl>.Init();
      var sig := ParseHead();
      if sig.Fail? {
        assert Parse.ParseFunc(s0) == Fail(sig.err);
        return Fail(sig.err);
      }
      ghost var s1 := Tokens();
      assert ParseSignature(s0) == Ok(Parsed(sig.value, s1));
      var a := ParseArgs(args);
      if a.Abort? {
        assert Parse.ParseFunc(s0) == Fail(a.err);
        return Fail(a.err);
      }
      ghost var s2 := Tokens();
      assert ParseParams(s1) == Ok(Parsed(args.Elements(), s2));
      var b := ParseStackvars(stackvars);
      if b.Abort? {
        assert Parse.ParseFunc(s0) == Fail(b.err);
        return Fail(b.err);
      }
      assert ParseBody(s2) == Ok(Parsed(stackvars.Elements(), Tokens()));
      r := Ok(FuncItem(sig.value.name, sig.value.returnType, args.Elements(), stackvars.Elements()));
      assert Parse.ParseFunc(s0) == Ok(Parsed(r.value, Tokens()));
    }

    /** parser_next as written: 1 at the end of the input; after "fn" a function
        item is parsed into *out and the answer is 1 again; any other token is
        fatal. */
    method Next() returns (r: Result<int>, out: Option<Item>)
      requires Valid()
      modifies l
      ensures Valid()
      ensures Pack(r, out, Tokens()) == ParserNext(old(Tokens()))
    {
      ghost var s0 := Tokens();
      var peek := l.LexerPeek();
      match peek
      case Absent =>
        assert ParserNext(s0) == Ok(Pulled(1, None, s0));
        return Ok(1), None;
      case Fatal(e) =>
        assert ParserNext(s0) == Fail(e);
        return Fail(e), None;
      case Got(t) =>
        assert Tokens() == s0 && s0.toks[0] == t;
        if t != Fn {
          assert ParserNext(s0) == Fail(NotStartOfItem);
          return Fail(NotStartOfItem), None;
        }
        var f := ParseFunc();
        if f.Fail? {
          assert ParserNext(s0) == Fail(f.err);
          return Fail(f.err), None;
        }
        assert ParserNext(s0) == Ok(Pulled(1, Some(Func(f.value)), Tokens()));
        return Ok(1), Some(Func(f.value));
    }

    /** parser_next as codegen_gen reads it: 0 after an item, 1 at the end. */
    method NextIntended() returns (r: Result<int>, out: Option<Item>)
      requires Valid()
      modifies l
      ensures Valid()
      ensures Pack(r, out, Tokens()) == ParserNextIntended(old(Tokens()))
    {
      ghost var s0 := Tokens();
      var peek := l.LexerPeek();
      match peek
      case Absent =>
        assert ParserNextIntended(s0) == Ok(Pulled(1, None, s0));
        return Ok(1), None;
      case Fatal(e) =>
        assert ParserNextIntended(s0) == Fail(e);
        return Fail(e), None;
      case Got(t) =>
        assert Tokens() == s0 && s0.toks[0] == t;
        if t != Fn {
          assert ParserNextIntended(s0) == Fail(NotStartOfItem);
          return Fail(NotStartOfItem), None;
        }
        var f := ParseFunc();
        if f.Fail? {
          assert ParserNextIntended(s0) == Fail(f.err);
          return Fail(f.err), None;
        }
        assert ParserNextIntended(s0) == Ok(Pulled(0, Some(Func(f.value)), Tokens()));
        return Ok(0), Some(Func(f.value));
    }
  }
}
