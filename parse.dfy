/** parse.c as functions of the token stream the lexer hands out: what each parsing
    routine consumes and builds, and the token sequences it accepts. */
module Parse {
  import opened StrView
  import opened Errors
  import opened LexSpec

  /** struct decl: a name and its type. */
  datatype Decl = Decl(name: Str, ty: TyTag)

  /** struct func_item: name, return type, parameters and stack variables (the two
      growable arrays as the sequences of their elements). */
  datatype FuncItem = FuncItem(name: Str, returnType: TyTag, args: seq<Decl>, stackvars: seq<Decl>)

  /** struct item: ITEM_FUNC is the only kind. */
  datatype Item = Func(func: FuncItem)

  /** A parsed value and the token stream after it. */
  datatype Parsed<T> = Parsed(value: T, rest: Stream)

  /** What parser_next reports: its return value, the item it wrote to *out (if it
      wrote one), and the token stream after it. */
  datatype Pulled = Pulled(status: int, item: Option<Item>, rest: Stream)

  /** The value a parse produced, without the stream after it. */
  function ValueOf<T>(r: Result<Parsed<T>>): (v: Result<T>)
    ensures v.Ok? <==> r.Ok?
    ensures v.Ok? ==> v.value == r.value.value
    ensures v.Fail? ==> v.err == r.err
  {
    match r
    case Ok(p) => Ok(p.value)
    case Fail(e) => Fail(e)
  }

  /** parser_next's return value, *out and the stream after it, put together. */
  function Pack(r: Result<int>, out: Option<Item>, rest: Stream): (p: Result<Pulled>)
    ensures p.Ok? <==> r.Ok?
    ensures p.Fail? ==> p.err == r.err
    ensures p.Ok? ==> p.value == Pulled(r.value, out, rest)
  {
    match r
    case Ok(status) => Ok(Pulled(status, out, rest))
    case Fail(e) => Fail(e)
  }

  /** The stream after its first token is handed out. */
  function Drop(s: Stream): (r: Stream)
    requires s.toks != []
    ensures |r.toks| < |s.toks| && r.end == s.end
  {
    Stream(s.toks[1..], s.end)
  }

  /** expect: lexer_next must produce a token of kind k. The end of the input and a
      token of any other kind are fatal, and so is a lexer error on the way. */
  function Expect(s: Stream, k: Kind): (r: Result<Parsed<Token>>)
    ensures r.Ok? <==> s.toks != [] && HasKind(s.toks[0], k)
    ensures r.Ok? ==> r.value == Parsed(s.toks[0], Drop(s))
    ensures s.toks == [] ==> r == Fail(if s.end.LexFatal? then s.end.err else UnexpectedEof)
    ensures s.toks != [] && !HasKind(s.toks[0], k) ==> r == Fail(UnexpectedToken)
  {
    if s.toks == [] then
      match s.end
      case AtEof => Fail(UnexpectedEof)
      case LexFatal(e) => Fail(e)
    else if !HasKind(s.toks[0], k) then Fail(UnexpectedToken)
    else Ok(Parsed(s.toks[0], Drop(s)))
  }

  /** peekis: lexer_peek, and whether the token is of kind k; false at the end of
      the input. Nothing is consumed. */
  function Peekis(s: Stream, k: Kind): (r: Result<bool>)
    ensures r.Fail? <==> s.toks == [] && s.end.LexFatal?
    ensures r.Fail? ==> r.err == s.end.err
    ensures r.Ok? ==> (r.value <==> s.toks != [] && HasKind(s.toks[0], k))
  {
    if s.toks != [] then Ok(HasKind(s.toks[0], k))
    else
      match s.end
      case AtEof => Ok(false)
      case LexFatal(e) => Fail(e)
  }

  /** consume1: lexer_next with its token and its answer ignored; only a lexer error
      stops it. */
  function Consume1(s: Stream): (r: Result<Stream>)
    ensures r.Fail? <==> s.toks == [] && s.end.LexFatal?
    ensures r.Ok? && s.toks != [] ==> r.value == Drop(s)
    ensures r.Ok? && s.toks == [] ==> r.value == s
  {
    if s.toks != [] then Ok(Drop(s))
    else
      match s.end
      case AtEof => Ok(s)
      case LexFatal(e) => Fail(e)
  }

  /** parse_decl: a TY token, then an IDENT token; what it reads is the
      declaration's tokens. */
  function ParseDecl(s: Stream): (r: Result<Parsed<Decl>>)
    ensures r.Ok? ==> |r.value.rest.toks| + 2 == |s.toks| && r.value.rest.end == s.end
  {
    match Expect(s, TyKind)
    case Fail(e) => Fail(e)
    case Ok(ty) =>
      match Expect(ty.rest, IdentKind)
      case Fail(e) => Fail(e)
      case Ok(name) => Ok(Parsed(Decl(name.value.name, ty.value.tag), name.rest))
  }

  /** The parameter loop of parse_func: a decl, appended to acc; when a ',' is
      peeked, consume1 drops it and the loop goes on, anything else ends it. */
  function Params(s: Stream, acc: seq<Decl>): (r: Result<Parsed<seq<Decl>>>)
    ensures r.Ok? ==> |r.value.rest.toks| < |s.toks| && r.value.rest.end == s.end
    decreases |s.toks|
  {
    match ParseDecl(s)
    case Fail(e) => Fail(e)
    case Ok(d) =>
      match Peekis(d.rest, CommaKind)
      case Fail(e) => Fail(e)
      case Ok(comma) =>
        if comma then Params(Drop(d.rest), acc + [d.value])
        else Ok(Parsed(acc + [d.value], d.rest))
  }

  /** The stack-variable loop of parse_func: until a '{' is peeked, a decl followed
      by ';', appended to acc. */
  function Stackvars(s: Stream, acc: seq<Decl>): (r: Result<Parsed<seq<Decl>>>)
    ensures r.Ok? ==> |r.value.rest.toks| <= |s.toks| && r.value.rest.end == s.end
    decreases |s.toks|
  {
    match Peekis(s, LBraceKind)
    case Fail(e) => Fail(e)
    case Ok(brace) =>
      if brace then Ok(Parsed(acc, s))
      else
        match ParseDecl(s)
        case Fail(e) => Fail(e)
        case Ok(d) =>
          match Expect(d.rest, SemicolonKind)
          case Fail(e) => Fail(e)
          case Ok(semi) => Stackvars(semi.rest, acc + [d.value])
  }

  /** The head of a function item: its name and return type. */
  datatype Signature = Signature(name: Str, returnType: TyTag)

  /** The first half of parse_func: "fn", the return type, the name, "(". */
  function ParseSignature(s: Stream): (r: Result<Parsed<Signature>>)
    ensures r.Ok? ==> |r.value.rest.toks| + 4 == |s.toks| && r.value.rest.end == s.end
  {
    var fn :- Expect(s, FnKind);
    var ret :- Expect(fn.rest, TyKind);
    var name :- Expect(ret.rest, IdentKind);
    var lparen :- Expect(name.rest, LParenKind);
    Ok(Parsed(Signature(name.value.name, ret.value.tag), lparen.rest))
  }

  /** The parameters of parse_func: none when ')' is peeked at once, otherwise the
      parameter loop; then the ')'. */
  function ParseParams(s: Stream): (r: Result<Parsed<seq<Decl>>>)
    ensures r.Ok? ==> |r.value.rest.toks| < |s.toks| && r.value.rest.end == s.end
  {
    var empty :- Peekis(s, RParenKind);
    var args :- if empty then Ok(Parsed([], s)) else Params(s, []);
    var rparen :- Expect(args.rest, RParenKind);
    Ok(Parsed(args.value, rparen.rest))
  }

  /** The end of parse_func: the stack variables, then a body that must be "{"
      followed at once by "}" (statements are not parsed). */
  function ParseBody(s: Stream): (r: Result<Parsed<seq<Decl>>>)
    ensures r.Ok? ==> |r.value.rest.toks| < |s.toks| && r.value.rest.end == s.end
  {
    match Stackvars(s, [])
    case Fail(e) => Fail(e)
    case Ok(svs) =>
      var lbrace :- Expect(svs.rest, LBraceKind);
      var rbrace :- Expect(lbrace.rest, RBraceKind);
      Ok(Parsed(svs.value, rbrace.rest))
  }

  /** parse_func: the signature, the parameters, the body. */
  function ParseFunc(s: Stream): (r: Result<Parsed<FuncItem>>)
    ensures r.Ok? ==> |r.value.rest.toks| < |s.toks| && r.value.rest.end == s.end
  {
    var sig :- ParseSignature(s);
    var args :- ParseParams(sig.rest);
    var body :- ParseBody(args.rest);
    Ok(Parsed(FuncItem(sig.value.name, sig.value.returnType, args.value, body.value), body.rest))
  }

  /** parser_next as written: 1 at the end of the input; a function item after
      "fn" (written to *out), but then 1 again; any other token is fatal. */
  function ParserNext(s: Stream): (r: Result<Pulled>)
    ensures r.Ok? ==> r.value.status == 1
    ensures r.Ok? && r.value.item.None? ==> s.toks == [] && r.value.rest == s
    ensures r.Ok? && r.value.item.Some? ==> |r.value.rest.toks| < |s.toks|
  {
    if s.toks == [] then
      match s.end
      case AtEof => Ok(Pulled(1, None, s))
      case LexFatal(e) => Fail(e)
    else if s.toks[0] != Fn then Fail(NotStartOfItem)
    else
      var f :- ParseFunc(s);
      Ok(Pulled(1, Some(Func(f.value)), f.rest))
  }

  /** parser_next as its caller codegen_gen reads it: 0 after an item, 1 at the end. */
  function ParserNextIntended(s: Stream): (r: Result<Pulled>)
    ensures r.Ok? ==> (r.value.status == 0 <==> r.value.item.Some?)
    ensures r.Ok? && r.value.item.None? ==> s.toks == [] && r.value.rest == s && r.value.status == 1
    ensures r.Ok? && r.value.item.Some? ==> |r.value.rest.toks| < |s.toks|
  {
    if s.toks == [] then
      match s.end
      case AtEof => Ok(Pulled(1, None, s))
      case LexFatal(e) => Fail(e)
    else if s.toks[0] != Fn then Fail(NotStartOfItem)
    else
      var f :- ParseFunc(s);
      Ok(Pulled(0, Some(Func(f.value)), f.rest))
  }

  // The token sequences the parser accepts.

  /** The tokens of one declaration. */
  function DeclTokens(d: Decl): (ts: seq<Token>)
    ensures |ts| == 2 && ts[0] == Ty(d.ty) && ts[1] == Ident(d.name)
  {
    [Ty(d.ty), Ident(d.name)]
  }

  /** A parameter list: declarations separated by ','. */
  function ParamTokens(ds: seq<Decl>): (ts: seq<Token>)
    ensures ds == [] <==> ts == []
    ensures ds != [] ==> ts[0] == Ty(ds[0].ty)
  {
    if ds == [] then []
    else if |ds| == 1 then DeclTokens(ds[0])
    else DeclTokens(ds[0]) + [Comma] + ParamTokens(ds[1..])
  }

  /** Stack variables: each declaration followed by ';'. */
  function StackvarTokens(ds: seq<Decl>): (ts: seq<Token>)
    ensures ds == [] <==> ts == []
    ensures ds != [] ==> ts[0] == Ty(ds[0].ty)
  {
    if ds == [] then [] else DeclTokens(ds[0]) + [Semicolon] + StackvarTokens(ds[1..])
  }

  /** The tokens of a signature. */
  function SignatureTokens(g: Signature): (ts: seq<Token>)
    ensures |ts| == 4 && ts[0] == Fn
  {
    [Fn, Ty(g.returnType), Ident(g.name), LParen]
  }

  /** A function item as source tokens. */
  function FuncTokens(f: FuncItem): (ts: seq<Token>)
    ensures ts != [] && ts[0] == Fn
  {
    SignatureTokens(Signature(f.name, f.returnType))
      + (ParamTokens(f.args) + ([RParen] + (StackvarTokens(f.stackvars) + [LBrace, RBrace])))
  }

  // Small facts about sequences and tokens the proofs below use.

  /** A prefix acc + [x] of v splits v after acc. */
  lemma SplitAfter<T>(v: seq<T>, acc: seq<T>, x: T)
    requires |v| > |acc| && v[..|acc| + 1] == acc + [x]
    ensures v[..|acc|] == acc && v[|acc|..] == [x] + v[|acc| + 1..]
  {
    assert v[..|acc|] == v[..|acc| + 1][..|acc|];
    assert v[|acc|] == v[..|acc| + 1][|acc|];
  }

  /** Concatenation regrouped. */
  lemma Assoc<T>(a: seq<T>, b: seq<T>, c: seq<T>, d: seq<T>)
    ensures a + (b + (c + d)) == (a + (b + c)) + d
  {
  }

  /** Two single elements in front. */
  lemma Pair<T>(x: T, y: T, r: seq<T>)
    ensures [x] + ([y] + r) == [x, y] + r
  {
  }

  /** A nested concatenation followed by r. */
  lemma AppendNested<T>(a: seq<T>, b: seq<T>, c: seq<T>, d: seq<T>, e: seq<T>, r: seq<T>)
    ensures (a + (b + (c + (d + e)))) + r == a + (b + (c + (d + (e + r))))
  {
  }

  /** Splitting off the first element of ds. */
  lemma ConsSplit<T>(acc: seq<T>, ds: seq<T>)
    requires ds != []
    ensures acc + [ds[0]] + ds[1..] == acc + ds
  {
    assert [ds[0]] + ds[1..] == ds;
  }

  /** A stack-variable list split after its first declaration. */
  lemma StackvarTokensUncons(ds: seq<Decl>)
    requires ds != []
    ensures StackvarTokens(ds) == DeclTokens(ds[0]) + ([Semicolon] + StackvarTokens(ds[1..]))
  {
  }

  /** A parameter list of two or more split after its first declaration. */
  lemma ParamTokensUncons(ds: seq<Decl>)
    requires |ds| > 1
    ensures ParamTokens(ds) == DeclTokens(ds[0]) + ([Comma] + ParamTokens(ds[1..]))
  {
  }

  /** One more stack variable in front. */
  lemma StackvarTokensCons(d: Decl, ds: seq<Decl>)
    ensures StackvarTokens([d] + ds) == DeclTokens(d) + ([Semicolon] + StackvarTokens(ds))
  {
    assert ([d] + ds)[1..] == ds;
  }

  /** One more parameter in front of a non-empty list. */
  lemma ParamTokensCons(d: Decl, ds: seq<Decl>)
    requires ds != []
    ensures ParamTokens([d] + ds) == DeclTokens(d) + ([Comma] + ParamTokens(ds))
  {
    assert ([d] + ds)[1..] == ds;
  }

  // Whatever parses is a rendering: each routine reads exactly the tokens of what
  // it returns.

  /** What parse_decl reads is the declaration's tokens. */
  lemma ParseDeclTokens(s: Stream)
    requires ParseDecl(s).Ok?
    ensures var p := ParseDecl(s).value;
      s.toks == DeclTokens(p.value) + p.rest.toks
  {
    var ty := Expect(s, TyKind).value;
    var name := Expect(ty.rest, IdentKind).value;
    assert s.toks == [ty.value] + ty.rest.toks;
    assert ty.rest.toks == [name.value] + name.rest.toks;
  }

  /** What the first half of parse_func reads is the signature's tokens. */
  lemma ParseSignatureTokens(s: Stream)
    requires ParseSignature(s).Ok?
    ensures var p := ParseSignature(s).value;
      s.toks == SignatureTokens(p.value) + p.rest.toks
  {
    var fn := Expect(s, FnKind).value;
    var ret := Expect(fn.rest, TyKind).value;
    var name := Expect(ret.rest, IdentKind).value;
    var lparen := Expect(name.rest, LParenKind).value;
    assert s.toks == [fn.value] + ([ret.value] + ([name.value] + ([lparen.value] + lparen.rest.toks)));
  }

  /** One round of the parameter loop that sees a ','. */
  lemma ParamsStep(s: Stream, acc: seq<Decl>)
    requires ParseDecl(s).Ok?
    requires Peekis(ParseDecl(s).value.rest, CommaKind) == Ok(true)
    ensures var d := ParseDecl(s).value;
      d.rest.toks != [] && Params(s, acc) == Params(Drop(d.rest), acc + [d.value])
      && s.toks == DeclTokens(d.value) + ([Comma] + Drop(d.rest).toks)
  {
    var d := ParseDecl(s).value;
    assert d.rest.toks != [] && d.rest.toks[0] == Comma;
    var r := Params(Drop(d.rest), acc + [d.value]);
    assert Params(s, acc) == r;
    assert d.rest.toks == [Comma] + Drop(d.rest).toks;
  }

  /** What the parameter loop reads is the parameters it appends, and the token
      after them (if any) is not a ','. */
  lemma {:induction false} ParamsComplete(s: Stream, acc: seq<Decl>)
    requires Params(s, acc).Ok?
    ensures var p := Params(s, acc).value;
      |p.value| > |acc| && p.value[..|acc|] == acc
      && s.toks == ParamTokens(p.value[|acc|..]) + p.rest.toks
      && (p.rest.toks == [] || p.rest.toks[0] != Comma)
    decreases |s.toks|
  {
    var p := Params(s, acc).value;
    var d := ParseDecl(s).value;
    if Peekis(d.rest, CommaKind).value {
      ParamsStep(s, acc);
      var next := Drop(d.rest);
      ParamsComplete(next, acc + [d.value]);
      var w := p.value[|acc| + 1..];
      SplitAfter(p.value, acc, d.value);
      ParamTokensCons(d.value, w);
      Assoc(DeclTokens(d.value), [Comma], ParamTokens(w), p.rest.toks);
    } else {
      assert p == Parsed(acc + [d.value], d.rest);
      assert p.value[|acc|..] == [d.value];
      ParseDeclTokens(s);
    }
  }

  /** One round of the stack-variable loop that does not see a '{'. */
  lemma StackvarsStep(s: Stream, acc: seq<Decl>)
    requires Stackvars(s, acc).Ok? && Peekis(s, LBraceKind) == Ok(false)
    ensures ParseDecl(s).Ok?
    ensures var d := ParseDecl(s).value;
      Expect(d.rest, SemicolonKind).Ok? &&
      var semi := Expect(d.rest, SemicolonKind).value;
      Stackvars(s, acc) == Stackvars(semi.rest, acc + [d.value])
      && s.toks == DeclTokens(d.value) + ([Semicolon] + semi.rest.toks)
  {
    var d := ParseDecl(s).value;
  }

  /** What the stack-variable loop reads is the stack variables it appends, and a
      '{' follows them. */
  lemma {:induction false} StackvarsComplete(s: Stream, acc: seq<Decl>)
    requires Stackvars(s, acc).Ok?
    ensures var p := Stackvars(s, acc).value;
      |p.value| >= |acc| && p.value[..|acc|] == acc
      && s.toks == StackvarTokens(p.value[|acc|..]) + p.rest.toks
      && p.rest.toks != [] && p.rest.toks[0] == LBrace
    decreases |s.toks|
  {
    var p := Stackvars(s, acc).value;
    if Peekis(s, LBraceKind).value {
      assert p == Parsed(acc, s);
      assert p.value[|acc|..] == [];
      assert s.toks == [] + s.toks;
    } else {
      StackvarsStep(s, acc);
      var d := ParseDecl(s).value;
      var semi := Expect(d.rest, SemicolonKind).value;
      StackvarsComplete(semi.rest, acc + [d.value]);
      var w := p.value[|acc| + 1..];
      SplitAfter(p.value, acc, d.value);
      StackvarTokensCons(d.value, w);
      Assoc(DeclTokens(d.value), [Semicolon], StackvarTokens(w), p.rest.toks);
    }
  }

  /** What the parameter part of parse_func reads is its parameters and ')'. */
  lemma ParseParamsComplete(s: Stream)
    requires ParseParams(s).Ok?
    ensures var p := ParseParams(s).value;
      s.toks == ParamTokens(p.value) + ([RParen] + p.rest.toks)
  {
    var p := ParseParams(s).value;
    var args := if Peekis(s, RParenKind).value then Parsed([], s) else Params(s, []).value;
    if Peekis(s, RParenKind).value {
      assert s.toks == ParamTokens(args.value) + args.rest.toks;
    } else {
      ParamsComplete(s, []);
      assert args.value[0..] == args.value;
    }
    var rparen := Expect(args.rest, RParenKind).value;
    assert p == Parsed(args.value, rparen.rest);
    assert args.rest.toks == [RParen] + p.rest.toks;
  }

  /** What the body part of parse_func reads is its stack variables and "{}". */
  lemma ParseBodyComplete(s: Stream)
    requires ParseBody(s).Ok?
    ensures var p := ParseBody(s).value;
      s.toks == StackvarTokens(p.value) + ([LBrace, RBrace] + p.rest.toks)
  {
    var svs := Stackvars(s, []).value;
    StackvarsComplete(s, []);
    assert svs.value[0..] == svs.value;
    var lbrace := Expect(svs.rest, LBraceKind).value;
    var rbrace := Expect(lbrace.rest, RBraceKind).value;
    assert svs.rest.toks == [LBrace] + ([RBrace] + rbrace.rest.toks);
    Pair(LBrace, RBrace, rbrace.rest.toks);
  }

  /** What parse_func reads is exactly the tokens of the item it returns. */
  lemma ParseFuncComplete(s: Stream)
    requires ParseFunc(s).Ok?
    ensures var p := ParseFunc(s).value;
      s.toks == FuncTokens(p.value) + p.rest.toks
  {
    var sig := ParseSignature(s).value;
    var args := ParseParams(sig.rest).value;
    var body := ParseBody(args.rest).value;
    ParseSignatureTokens(s);
    ParseParamsComplete(sig.rest);
    ParseBodyComplete(args.rest);
    assert ParseFunc(s).value == Parsed(FuncItem(sig.value.name, sig.value.returnType, args.value, body.value), body.rest);
    AppendNested(SignatureTokens(sig.value), ParamTokens(args.value), [RParen], StackvarTokens(body.value),
      [LBrace, RBrace], body.rest.toks);
  }

  /** The parameter list is empty exactly when ')' follows '(' at once. */
  lemma ParamsEmptyIff(s: Stream)
    requires ParseFunc(s).Ok?
    ensures |s.toks| > 4
    ensures ParseFunc(s).value.value.args == [] <==> s.toks[4] == RParen
  {
    var sig := ParseSignature(s).value;
    ParseParamsComplete(sig.rest);
    var args := ParseParams(sig.rest).value;
    assert s.toks[4..] == sig.rest.toks;
    if args.value != [] {
      assert sig.rest.toks[0] == Ty(args.value[0].ty);
    }
  }

  // Round trips: parsing a rendering gives back what was rendered.

  /** expect takes a token of the kind it expects and leaves what follows. */
  lemma ExpectMatching(t: Token, k: Kind, more: seq<Token>, end: End)
    requires HasKind(t, k)
    ensures Expect(Stream([t] + more, end), k) == Ok(Parsed(t, Stream(more, end)))
  {
    assert ([t] + more)[1..] == more;
  }

  /** expect reads back a token of the kind it expects. */
  lemma ExpectRoundTrip(t: Token, more: seq<Token>, end: End)
    ensures Expect(Stream([t] + more, end), KindOf(t)) == Ok(Parsed(t, Stream(more, end)))
  {
    HasKindIff(t, KindOf(t));
    assert ([t] + more)[1..] == more;
  }

  /** parse_decl reads back any declaration, whatever follows. */
  lemma ParseDeclRoundTrip(d: Decl, more: seq<Token>, end: End)
    ensures ParseDecl(Stream(DeclTokens(d) + more, end)) == Ok(Parsed(d, Stream(more, end)))
  {
    var s := Stream(DeclTokens(d) + more, end);
    assert s.toks[0] == Ty(d.ty) && s.toks[1] == Ident(d.name);
    assert s.toks[1..][1..] == more;
  }

  /** The parameter loop reads back its last parameter. */
  lemma ParamsLast(d: Decl, acc: seq<Decl>, more: seq<Token>, end: End)
    requires more == [] ==> end == AtEof
    requires more != [] ==> more[0] != Comma
    ensures Params(Stream(DeclTokens(d) + more, end), acc) == Ok(Parsed(acc + [d], Stream(more, end)))
  {
    ParseDeclRoundTrip(d, more, end);
  }

  /** The parameter loop reads back a parameter followed by ',' and goes on. */
  lemma ParamsComma(d: Decl, acc: seq<Decl>, t: seq<Token>, end: End)
    ensures Params(Stream(DeclTokens(d) + ([Comma] + t), end), acc) == Params(Stream(t, end), acc + [d])
  {
    var s := Stream(DeclTokens(d) + ([Comma] + t), end);
    ParseDeclRoundTrip(d, [Comma] + t, end);
    assert Peekis(Stream([Comma] + t, end), CommaKind) == Ok(true);
    ParamsStep(s, acc);
    assert Drop(Stream([Comma] + t, end)) == Stream(t, end);
  }

  /** The parameter loop reads back a parameter list up to the token after it,
      provided that token is not ','. */
  lemma {:induction false} ParamsRoundTrip(ds: seq<Decl>, acc: seq<Decl>, more: seq<Token>, end: End)
    requires ds != []
    requires more == [] ==> end == AtEof
    requires more != [] ==> more[0] != Comma
    ensures Params(Stream(ParamTokens(ds) + more, end), acc) == Ok(Parsed(acc + ds, Stream(more, end)))
    decreases |ds|
  {
    if |ds| == 1 {
      assert ds == [ds[0]];
      ParamsLast(ds[0], acc, more, end);
    } else {
      var t := ParamTokens(ds[1..]) + more;
      calc {
        Params(Stream(ParamTokens(ds) + more, end), acc);
        { ParamTokensUncons(ds); Assoc(DeclTokens(ds[0]), [Comma], ParamTokens(ds[1..]), more); }
        Params(Stream(DeclTokens(ds[0]) + ([Comma] + t), end), acc);
        { ParamsComma(ds[0], acc, t, end); }
        Params(Stream(t, end), acc + [ds[0]]);
        { ParamsRoundTrip(ds[1..], acc + [ds[0]], more, end); }
        Ok(Parsed(acc + [ds[0]] + ds[1..], Stream(more, end)));
        { ConsSplit(acc, ds); }
        Ok(Parsed(acc + ds, Stream(more, end)));
      }
    }
  }

  /** The stack-variable loop stops at a '{'. */
  lemma StackvarsAtBrace(acc: seq<Decl>, more: seq<Token>, end: End)
    ensures Stackvars(Stream([LBrace] + more, end), acc) == Ok(Parsed(acc, Stream([LBrace] + more, end)))
  {
  }

  /** The stack-variable loop reads back a stack variable and its ';' and goes on. */
  lemma StackvarsDecl(d: Decl, acc: seq<Decl>, t: seq<Token>, end: End)
    ensures Stackvars(Stream(DeclTokens(d) + ([Semicolon] + t), end), acc) == Stackvars(Stream(t, end), acc + [d])
  {
    ParseDeclRoundTrip(d, [Semicolon] + t, end);
    ExpectMatching(Semicolon, SemicolonKind, t, end);
  }

  /** The stack-variable loop reads back stack variables up to a following '{'. */
  lemma {:induction false} StackvarsRoundTrip(ds: seq<Decl>, acc: seq<Decl>, more: seq<Token>, end: End)
    ensures Stackvars(Stream(StackvarTokens(ds) + ([LBrace] + more), end), acc)
      == Ok(Parsed(acc + ds, Stream([LBrace] + more, end)))
    decreases |ds|
  {
    if ds == [] {
      assert acc + ds == acc;
      assert StackvarTokens(ds) + ([LBrace] + more) == [LBrace] + more;
      StackvarsAtBrace(acc, more, end);
    } else {
      var t := StackvarTokens(ds[1..]) + ([LBrace] + more);
      calc {
        Stackvars(Stream(StackvarTokens(ds) + ([LBrace] + more), end), acc);
        { StackvarTokensUncons(ds); Assoc(DeclTokens(ds[0]), [Semicolon], StackvarTokens(ds[1..]), [LBrace] + more); }
        Stackvars(Stream(DeclTokens(ds[0]) + ([Semicolon] + t), end), acc);
        { StackvarsDecl(ds[0], acc, t, end); }
        Stackvars(Stream(t, end), acc + [ds[0]]);
        { StackvarsRoundTrip(ds[1..], acc + [ds[0]], more, end); }
        Ok(Parsed(acc + [ds[0]] + ds[1..], Stream([LBrace] + more, end)));
        { ConsSplit(acc, ds); }
        Ok(Parsed(acc + ds, Stream([LBrace] + more, end)));
      }
    }
  }

  /** The parameter part of parse_func reads back any parameter list and its ')'. */
  lemma ParseParamsRoundTrip(ds: seq<Decl>, more: seq<Token>, end: End)
    ensures ParseParams(Stream(ParamTokens(ds) + ([RParen] + more), end)) == Ok(Parsed(ds, Stream(more, end)))
  {
    var tail := [RParen] + more;
    if ds == [] {
      assert ParamTokens(ds) + tail == tail;
    } else {
      ParamsRoundTrip(ds, [], tail, end);
      assert [] + ds == ds;
    }
    ExpectMatching(RParen, RParenKind, more, end);
  }

  /** Once the stack variables are read, the body part of parse_func reads "{}". */
  lemma ParseBodyAfter(s: Stream, ds: seq<Decl>, more: seq<Token>)
    requires Stackvars(s, []) == Ok(Parsed(ds, Stream([LBrace, RBrace] + more, s.end)))
    ensures ParseBody(s) == Ok(Parsed(ds, Stream(more, s.end)))
  {
    Pair(LBrace, RBrace, more);
    ExpectMatching(LBrace, LBraceKind, [RBrace] + more, s.end);
    ExpectMatching(RBrace, RBraceKind, more, s.end);
  }

  /** The body part of parse_func reads back any stack variables and "{}". */
  lemma ParseBodyRoundTrip(ds: seq<Decl>, more: seq<Token>, end: End)
    ensures ParseBody(Stream(StackvarTokens(ds) + ([LBrace, RBrace] + more), end)) == Ok(Parsed(ds, Stream(more, end)))
  {
    Pair(LBrace, RBrace, more);
    StackvarsRoundTrip(ds, [], [RBrace] + more, end);
    assert [] + ds == ds;
    ParseBodyAfter(Stream(StackvarTokens(ds) + ([LBrace, RBrace] + more), end), ds, more);
  }

  /** The first half of parse_func reads back any signature. */
  lemma ParseSignatureRoundTrip(g: Signature, more: seq<Token>, end: End)
    ensures ParseSignature(Stream(SignatureTokens(g) + more, end)) == Ok(Parsed(g, Stream(more, end)))
  {
    var s := Stream(SignatureTokens(g) + more, end);
    assert s.toks[1..][1..][1..][1..] == more;
  }

  /** parse_func reads back any function item from its tokens, whatever follows. */
  lemma ParseFuncRoundTrip(f: FuncItem, more: seq<Token>, end: End)
    ensures ParseFunc(Stream(FuncTokens(f) + more, end)) == Ok(Parsed(f, Stream(more, end)))
  {
    var sig := Signature(f.name, f.returnType);
    var afterParams := StackvarTokens(f.stackvars) + ([LBrace, RBrace] + more);
    var afterSig := ParamTokens(f.args) + ([RParen] + afterParams);
    AppendNested(SignatureTokens(sig), ParamTokens(f.args), [RParen], StackvarTokens(f.stackvars),
      [LBrace, RBrace], more);
    ParseSignatureRoundTrip(sig, afterSig, end);
    ParseParamsRoundTrip(f.args, afterParams, end);
    ParseBodyRoundTrip(f.stackvars, more, end);
  }

  /** Stack variables running into the end of the input are a fatal "got EOF" from
      expect, not an endless loop. */
  lemma {:induction false} StackvarsEofIsFatal(ds: seq<Decl>, acc: seq<Decl>)
    ensures Stackvars(Stream(StackvarTokens(ds), AtEof), acc) == Fail(UnexpectedEof)
    decreases |ds|
  {
    if ds != [] {
      StackvarTokensUncons(ds);
      StackvarsDecl(ds[0], acc, StackvarTokens(ds[1..]), AtEof);
      StackvarsEofIsFatal(ds[1..], acc + [ds[0]]);
    }
  }

  /** parser_next reports the end of the input, and rejects any item that does
      not start with "fn". */
  lemma ParserNextCases(s: Stream)
    ensures s == Stream([], AtEof) ==> ParserNext(s) == Ok(Pulled(1, None, s))
    ensures s.toks != [] && s.toks[0] != Fn ==> ParserNext(s) == Fail(NotStartOfItem)
    ensures s.toks == [] && s.end.LexFatal? ==> ParserNext(s) == Fail(s.end.err)
  {
  }

  /** As written, parser_next answers 1 after a function item too, so a caller that
      pulls items while the answer is 0 stops before the first one. */
  lemma ParserNextAfterItem(f: FuncItem, more: seq<Token>, end: End)
    ensures ParserNext(Stream(FuncTokens(f) + more, end)) == Ok(Pulled(1, Some(Func(f)), Stream(more, end)))
    ensures ParserNextIntended(Stream(FuncTokens(f) + more, end)) == Ok(Pulled(0, Some(Func(f)), Stream(more, end)))
  {
    ParseFuncRoundTrip(f, more, end);
  }
}
