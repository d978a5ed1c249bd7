/** The pure half of lex.c: character classes, the keyword table, and the
    specification of every scanning routine as a function of the characters still
    to be read (the "pending" characters: the pushed-back slot followed by the
    unread rest of the input). */
module LexSpec {
  import opened StrView
  import opened Errors

  /** fgetc's end-of-input value. */
  const EOF: int := -1
  /** '\n' */
  const NL: int := 10
  /** sizeof(wordbufbuf) in lexer_next: the longest word is one less. */
  const WordBufSize: nat := 100

  const TwoTo63: int := 0x8000_0000_0000_0000
  const TwoTo64: int := 0x1_0000_0000_0000_0000
  const Int64Max: int := TwoTo63 - 1

  /** A byte of the input, as fgetc returns it when it is not EOF. */
  type Byte = b: int | 0 <= b < 256

  /** struct ty's tag. */
  datatype TyTag = Void | I32

  /** The tokens lex.c produces. */
  datatype Token =
    | Fn
    | Ty(tag: TyTag)
    | Ident(name: Str)
    | Return
    | IntLit(value: int)
    | LBrace | RBrace | LParen | RParen
    | Comma | Plus | Semicolon | Equals

  /** enum token_type: a token's kind, without its payload. */
  datatype Kind =
    | FnKind | TyKind | IdentKind | ReturnKind | IntLitKind
    | LBraceKind | RBraceKind | LParenKind | RParenKind
    | CommaKind | PlusKind | SemicolonKind | EqualsKind

  function KindOf(t: Token): Kind
  {
    match t
    case Fn => FnKind
    case Ty(_) => TyKind
    case Ident(_) => IdentKind
    case Return => ReturnKind
    case IntLit(_) => IntLitKind
    case LBrace => LBraceKind
    case RBrace => RBraceKind
    case LParen => LParenKind
    case RParen => RParenKind
    case Comma => CommaKind
    case Plus => PlusKind
    case Semicolon => SemicolonKind
    case Equals => EqualsKind
  }

  /** A token's type compared with a token_type: a test of the token's constructor. */
  predicate HasKind(t: Token, k: Kind)
  {
    match k
    case FnKind => t.Fn?
    case TyKind => t.Ty?
    case IdentKind => t.Ident?
    case ReturnKind => t.Return?
    case IntLitKind => t.IntLit?
    case LBraceKind => t.LBrace?
    case RBraceKind => t.RBrace?
    case LParenKind => t.LParen?
    case RParenKind => t.RParen?
    case CommaKind => t.Comma?
    case PlusKind => t.Plus?
    case SemicolonKind => t.Semicolon?
    case EqualsKind => t.Equals?
  }

  /** Every token has exactly one kind. */
  lemma HasKindIff(t: Token, k: Kind)
    ensures HasKind(t, k) <==> KindOf(t) == k
  {
  }

  // ASCII character classes (isalpha, isdigit, isspace in the "C" locale).

  predicate IsAlpha(c: int)
  {
    'A' as int <= c <= 'Z' as int || 'a' as int <= c <= 'z' as int
  }

  predicate IsDigit(c: int)
  {
    '0' as int <= c <= '9' as int
  }

  predicate IsSpace(c: int)
  {
    c == ' ' as int || 9 <= c <= 13
  }

  /** isidentheadchar */
  predicate IsIdentHead(c: int)
  {
    c == '_' as int || IsAlpha(c)
  }

  /** isidenttailchar */
  predicate IsIdentTail(c: int)
  {
    IsIdentHead(c) || IsDigit(c)
  }

  /** The word classes: every head character may continue a word, digits continue
      but never start one, and neither EOF, NUL nor whitespace belongs to a word. */
  lemma IdentClasses(c: int)
    ensures IsIdentHead(c) ==> IsIdentTail(c)
    ensures IsIdentTail(c) <==> IsIdentHead(c) || IsDigit(c)
    ensures IsDigit(c) ==> !IsIdentHead(c)
    ensures IsIdentTail(c) ==> 0 < c < 256 && !IsSpace(c)
  {
  }

  // The pending characters.

  /** What lgetc returns: the first pending character, or EOF when none is left. */
  function Head(p: seq<Byte>): int
  {
    if p == [] then EOF else p[0]
  }

  /** What is pending after lgetc. */
  function Tail(p: seq<Byte>): seq<Byte>
  {
    if p == [] then [] else p[1..]
  }

  /** What is pending after lungetc(ch). The slot uses 0 for "empty", so pushing
      back a NUL byte loses it; pushing back EOF adds nothing to read. */
  function PushBack(ch: int, p: seq<Byte>): seq<Byte>
  {
    if 0 < ch < 256 then [ch] + p else p
  }

  /** Reading a character and pushing it back leaves the pending characters as they
      were, unless that character was a NUL byte, which is lost. */
  lemma ReadThenPushBack(p: seq<Byte>)
    ensures Head(p) != 0 ==> PushBack(Head(p), Tail(p)) == p
    ensures Head(p) == 0 ==> PushBack(Head(p), Tail(p)) == p[1..]
  {
  }

  /** The result of a scanner that may find its token, leave the input for the next
      scanner, or stop the compiler. */
  datatype Scan<T> = Found(value: T, rest: seq<Byte>) | NotFound(rest: seq<Byte>) | Failed(err: Error)

  /** lskipspace: read while the character is whitespace, then push back the first
      one that is not. */
  function SkipSpace(p: seq<Byte>): (q: seq<Byte>)
    ensures |q| <= |p|
    decreases |p|
  {
    var c := Head(p);
    if IsSpace(c) then SkipSpace(Tail(p)) else PushBack(c, Tail(p))
  }

  /** lskipspace leaves a suffix of the input; if that suffix starts with
      whitespace, a NUL byte was read just before it. */
  lemma {:induction false} SkipSpaceSuffix(p: seq<Byte>)
    ensures var q := SkipSpace(p);
      q == p[|p| - |q|..] && (q != [] && IsSpace(q[0]) ==> |q| < |p| && p[|p| - |q| - 1] == 0)
    decreases |p|
  {
    if IsSpace(Head(p)) {
      SkipSpaceSuffix(Tail(p));
      var q := SkipSpace(p);
      assert p[1..][|p| - 1 - |q|..] == p[|p| - |q|..];
    }
  }

  /** One character of lskipspace's loop. */
  lemma SkipSpaceStep(p: seq<Byte>)
    ensures IsSpace(Head(p)) ==> SkipSpace(p) == SkipSpace(Tail(p)) && |Tail(p)| < |p|
    ensures !IsSpace(Head(p)) ==> SkipSpace(p) == PushBack(Head(p), Tail(p))
  {
  }

  /** lskipspace removes exactly the leading whitespace (and a NUL byte that ends it). */
  lemma {:induction false} SkipSpaceSkips(p: seq<Byte>, k: nat)
    requires k <= |p|
    requires forall i :: 0 <= i < k ==> IsSpace(p[i])
    requires k == |p| || !IsSpace(p[k])
    ensures SkipSpace(p) == if k < |p| && p[k] == 0 then p[k + 1..] else p[k..]
    decreases k
  {
    if k > 0 {
      assert Tail(p) == p[1..];
      SkipSpaceSkips(p[1..], k - 1);
      assert p[1..][k - 1..] == p[k..];
    }
  }

  /** Leading whitespace does not change what lskipspace leaves. */
  lemma {:induction false} SkipSpacePrefix(s: seq<Byte>, p: seq<Byte>)
    requires forall i :: 0 <= i < |s| ==> IsSpace(s[i])
    ensures SkipSpace(s + p) == SkipSpace(p)
    decreases |s|
  {
    if s != [] {
      var t := s + p;
      assert t[0] == s[0] && t[1..] == s[1..] + p;
      assert IsSpace(Head(t));
      assert SkipSpace(t) == SkipSpace(Tail(t));
      SkipSpacePrefix(s[1..], p);
    } else {
      assert s + p == p;
    }
  }

  /** The loop of lskipcomment after "//": read through the first newline or EOF. */
  function SkipLine(p: seq<Byte>): (q: seq<Byte>)
    ensures |q| <= |p|
    ensures p != [] ==> |q| < |p|
    decreases |p|
  {
    var c := Head(p);
    if c == EOF || c == NL then Tail(p) else SkipLine(Tail(p))
  }

  /** The comment loop leaves a suffix of the input: it read no newline before the
      last character it read, and that one was the newline (unless it hit EOF). */
  lemma {:induction false} SkipLineSuffix(p: seq<Byte>)
    ensures var q := SkipLine(p);
      q == p[|p| - |q|..]
      && (forall i :: 0 <= i < |p| - |q| - 1 ==> p[i] != NL)
      && (q != [] ==> p[|p| - |q| - 1] == NL)
    decreases |p|
  {
    var c := Head(p);
    if c != EOF && c != NL {
      SkipLineSuffix(Tail(p));
      var q := SkipLine(p);
      assert q != [] ==> p[|p| - |q| - 1] == p[1..][|p| - 1 - |q| - 1];
      assert forall i :: 1 <= i < |p| - |q| - 1 ==> p[i] == p[1..][i - 1];
    }
  }

  /** lskipcomment's three outcomes: a comment was skipped, there was no comment and
      the characters read are back, or EOF was hit (nothing pushed back). */
  datatype Skip = Comment(rest: seq<Byte>) | NoComment(rest: seq<Byte>) | AtEnd

  /** lskipcomment: read two characters; "//" starts a comment, anything else is
      pushed back, but reaching EOF on either read leaves nothing pushed back. */
  function SkipComment(p: seq<Byte>): (r: Skip)
    ensures r.AtEnd? <==> |p| < 2
    ensures r.Comment? <==> |p| >= 2 && p[0] == '/' as int && p[1] == '/' as int
    ensures r.Comment? ==> |r.rest| <= |p| - 2 && r.rest == SkipLine(p[2..])
    ensures r.NoComment? ==> |r.rest| <= |p|
    ensures r.NoComment? && p[0] != 0 && p[1] != 0 ==> r.rest == p
  {
    var c1 := Head(p);
    var c2 := Head(Tail(p));
    if c1 == EOF || c2 == EOF then AtEnd
    else if c1 != '/' as int || c2 != '/' as int then
      NoComment(PushBack(c1, PushBack(c2, Tail(Tail(p)))))
    else
      Comment(SkipLine(Tail(Tail(p))))
  }

  /** The comment loop stops right after the first newline. */
  lemma {:induction false} SkipLineThrough(line: seq<Byte>, p: seq<Byte>)
    requires forall i :: 0 <= i < |line| ==> line[i] != NL
    ensures SkipLine(line + [NL as Byte] + p) == p
    decreases |line|
  {
    if line != [] {
      assert Tail(line + [NL as Byte] + p) == line[1..] + [NL as Byte] + p;
      SkipLineThrough(line[1..], p);
    }
  }

  /** A line comment through its newline is skipped as a whole. */
  lemma LineComment(line: seq<Byte>, p: seq<Byte>)
    requires forall i :: 0 <= i < |line| ==> line[i] != NL
    ensures SkipComment(['/' as Byte, '/' as Byte] + line + [NL as Byte] + p) == Comment(p)
  {
    var s := ['/' as Byte, '/' as Byte] + line + [NL as Byte] + p;
    assert s[2..] == line + [NL as Byte] + p;
    SkipLineThrough(line, p);
  }

  /** The number of leading word characters. */
  function WordRun(p: seq<Byte>): (n: nat)
    ensures n <= |p|
    ensures forall i :: 0 <= i < n ==> IsIdentTail(p[i])
    ensures n == |p| || !IsIdentTail(p[n])
  {
    if p != [] && IsIdentTail(p[0]) then 1 + WordRun(p[1..]) else 0
  }

  /** lgetword's copy loop: acc holds the characters stored so far; when the buffer
      is full the word is too long. */
  function WordLoop(p: seq<Byte>, acc: seq<Byte>, size: nat): (r: Scan<seq<Byte>>)
    requires |acc| <= size
    ensures r.Found? || r == Failed(WordTooLong)
    ensures r.Found? ==> |acc| <= |r.value| < size && |r.rest| + |r.value| <= |p| + |acc|
    decreases size - |acc|
  {
    if |acc| == size then Failed(WordTooLong)
    else if p == [] || !IsIdentTail(p[0]) then Found(acc, PushBack(Head(p), Tail(p)))
    else WordLoop(p[1..], acc + [p[0]], size)
  }

  /** The copy loop takes the whole run of word characters, if the buffer has room
      for it, and pushes back the character after it. */
  predicate WordLoopTakesRun(p: seq<Byte>, acc: seq<Byte>, size: nat)
    requires |acc| <= size
  {
    var n := WordRun(p);
    WordLoop(p, acc, size)
      == if |acc| + n < size then Found(acc + p[..n], PushBack(Head(p[n..]), Tail(p[n..])))
         else Failed(WordTooLong)
  }

  lemma {:induction false} WordLoopRun(p: seq<Byte>, acc: seq<Byte>, size: nat)
    requires |acc| <= size
    ensures WordLoopTakesRun(p, acc, size)
    decreases size - |acc|
  {
    if |acc| == size {
    } else if p == [] || !IsIdentTail(p[0]) {
      assert WordRun(p) == 0 && p[0..] == p && acc + p[..0] == acc;
    } else {
      WordLoopRun(p[1..], acc + [p[0]], size);
      WordLoopRunCons(p, acc, size);
    }
  }

  /** The inductive step of WordLoopRun: one more word character in front. */
  lemma WordLoopRunCons(p: seq<Byte>, acc: seq<Byte>, size: nat)
    requires |acc| < size && p != [] && IsIdentTail(p[0])
    requires WordLoopTakesRun(p[1..], acc + [p[0]], size)
    ensures WordLoopTakesRun(p, acc, size)
  {
    var n := WordRun(p[1..]);
    assert WordLoop(p, acc, size) == WordLoop(p[1..], acc + [p[0]], size);
    assert WordRun(p) == n + 1;
    assert p[..n + 1] == [p[0]] + p[1..][..n];
    assert acc + p[..n + 1] == (acc + [p[0]]) + p[1..][..n];
    assert p[n + 1..] == p[1..][n..];
  }

  /** lgetword with a buffer of `size` characters: no word unless the next character
      can start one (it is peeked, not consumed); otherwise the longest run of word
      characters, which must leave room in the buffer, with the character after it
      pushed back. */
  function GetWord(p: seq<Byte>, size: nat): (r: Scan<seq<Byte>>)
    ensures r.NotFound? <==> !IsIdentHead(Head(p))
    ensures r.NotFound? ==> r.rest == PushBack(Head(p), Tail(p))
    ensures r.Found? ==> |r.value| < size && |r.rest| < |p|
  {
    var c := Head(p);
    if !IsIdentHead(c) then NotFound(PushBack(c, Tail(p)))
    else
      assert PushBack(c, Tail(p)) == p;
      IdentClasses(c);
      WordLoopStep(p, [], size);
      WordLoop(PushBack(c, Tail(p)), [], size)
  }

  /** A word is the whole run of word characters, if the buffer has room for it,
      and the character after it is pushed back. */
  lemma GetWordRun(p: seq<Byte>, size: nat)
    requires IsIdentHead(Head(p))
    ensures var n := WordRun(p);
      0 < n && GetWord(p, size) == if n < size then Found(p[..n], PushBack(Head(p[n..]), Tail(p[n..])))
                                   else Failed(WordTooLong)
  {
    assert PushBack(Head(p), Tail(p)) == p;
    assert WordRun(p) == 1 + WordRun(p[1..]);
    assert [] + p[..WordRun(p)] == p[..WordRun(p)];
    WordLoopRun(p, [], size);
    assert WordLoopTakesRun(p, [], size);
  }

  /** One character of lgetword's copy loop. */
  lemma WordLoopStep(p: seq<Byte>, acc: seq<Byte>, size: nat)
    requires |acc| <= size
    ensures |acc| == size ==> WordLoop(p, acc, size) == Failed(WordTooLong)
    ensures |acc| < size && !IsIdentTail(Head(p)) ==>
      WordLoop(p, acc, size) == Found(acc, PushBack(Head(p), Tail(p)))
    ensures |acc| < size && IsIdentTail(Head(p)) ==>
      WordLoop(p, acc, size) == WordLoop(Tail(p), acc + [Head(p) as Byte], size)
  {
  }

  /** lgetword once a word has started: the copy loop from an empty buffer. */
  lemma GetWordStarted(p: seq<Byte>, size: nat)
    requires IsIdentHead(Head(p))
    ensures GetWord(p, size) == WordLoop(p, [], size)
  {
    assert PushBack(Head(p), Tail(p)) == p;
  }

  /** A word as the characters lgetword stores in the buffer. */
  function Chars(w: seq<Byte>): seq<char>
  {
    seq(|w|, i requires 0 <= i < |w| => w[i] as char)
  }

  /** word2tok: the four keywords, compared with str_eq against STR literals;
      every other word is an identifier holding a str_dup copy of the word. */
  function WordToToken(word: Str): (t: Token)
    ensures t.Fn? || t.Ty? || t.Return? || t.Ident?
  {
    if Eq(word, Lit("fn")) then Fn
    else if Eq(word, Lit("void")) then Ty(Void)
    else if Eq(word, Lit("i32")) then Ty(I32)
    else if Eq(word, Lit("return")) then Return
    else Ident(Dup(word))
  }

  /** word2tok recognises exactly the four keywords by their bytes; any other word
      becomes an identifier with the same bytes. */
  lemma WordToTokenMeaning(word: Str)
    ensures var t := WordToToken(word);
      (t == Fn <==> Bytes(word) == "fn")
      && (t == Ty(Void) <==> Bytes(word) == "void")
      && (t == Ty(I32) <==> Bytes(word) == "i32")
      && (t == Return <==> Bytes(word) == "return")
      && (t.Ident? <==> Bytes(word) !in {"fn", "void", "i32", "return"})
      && (t.Ident? ==> t.name == Dup(word) && Bytes(t.name) == Bytes(word))
  {
    EqIffSameBytes(word, Lit("fn"));
    EqIffSameBytes(word, Lit("void"));
    EqIffSameBytes(word, Lit("i32"));
    EqIffSameBytes(word, Lit("return"));
  }

  /** word2tok looks only at the word's len bytes, not at what lies behind them. */
  lemma WordToTokenBytes(a: Str, b: Str)
    requires Bytes(a) == Bytes(b)
    ensures WordToToken(a) == WordToToken(b)
  {
    WordToTokenMeaning(a);
    WordToTokenMeaning(b);
    var ta, tb := WordToToken(a), WordToToken(b);
    if ta.Ident? {
      assert Dup(a) == View(Bytes(a), a.len);
      assert Dup(b) == View(Bytes(b), b.len);
    }
  }

  /** The switch of lgetsymb. */
  function PunctToken(c: int): (t: Option<Token>)
    ensures t.Some? <==> c in {'{' as int, '}' as int, '(' as int, ')' as int,
                               ',' as int, '+' as int, ';' as int, '=' as int}
    ensures t.Some? ==> KindOf(t.value) in {LBraceKind, RBraceKind, LParenKind, RParenKind,
                                            CommaKind, PlusKind, SemicolonKind, EqualsKind}
  {
    if c == '{' as int then Some(LBrace)
    else if c == '}' as int then Some(RBrace)
    else if c == '(' as int then Some(LParen)
    else if c == ')' as int then Some(RParen)
    else if c == ',' as int then Some(Comma)
    else if c == '+' as int then Some(Plus)
    else if c == ';' as int then Some(Semicolon)
    else if c == '=' as int then Some(Equals)
    else None
  }

  /** The table of lgetsymb: each of the eight characters gets the token named
      after it. */
  lemma PunctTable()
    ensures PunctToken('{' as int) == Some(LBrace) && PunctToken('}' as int) == Some(RBrace)
    ensures PunctToken('(' as int) == Some(LParen) && PunctToken(')' as int) == Some(RParen)
    ensures PunctToken(',' as int) == Some(Comma) && PunctToken('+' as int) == Some(Plus)
    ensures PunctToken(';' as int) == Some(Semicolon) && PunctToken('=' as int) == Some(Equals)
  {
  }

  /** Each punctuation character has a token of its own. */
  lemma PunctInjective(c: int, d: int)
    requires PunctToken(c).Some? && PunctToken(c) == PunctToken(d)
    ensures c == d
  {
  }

  /** lgetsymb: a punctuation character is consumed as its token; any other
      character is pushed back. */
  function GetSymb(p: seq<Byte>): (r: Scan<Token>)
    ensures !r.Failed?
    ensures r.Found? <==> PunctToken(Head(p)).Some?
    ensures r.Found? ==> r.value == PunctToken(p[0]).value && r.rest == p[1..]
    ensures r.NotFound? ==> r.rest == PushBack(Head(p), Tail(p))
  {
    var c := Head(p);
    match PunctToken(c)
    case Some(t) => Found(t, Tail(p))
    case None => NotFound(PushBack(c, Tail(p)))
  }

  /** Two's-complement int64 wrap-around of a mathematical integer. */
  function Wrap64(x: int): (w: int)
    ensures -TwoTo63 <= w <= Int64Max
  {
    (x + TwoTo63) % TwoTo64 - TwoTo63
  }

  /** The wrapped value is congruent to x modulo 2^64, and is x itself when x fits. */
  lemma Wrap64Meaning(x: int)
    ensures (Wrap64(x) - x) % TwoTo64 == 0
    ensures -TwoTo63 <= x <= Int64Max ==> Wrap64(x) == x
  {
  }

  /** The number of leading decimal digits. */
  function DigitRun(p: seq<Byte>): (n: nat)
    ensures n <= |p|
    ensures forall i :: 0 <= i < n ==> IsDigit(p[i])
    ensures n == |p| || !IsDigit(p[n])
  {
    if p != [] && IsDigit(p[0]) then 1 + DigitRun(p[1..]) else 0
  }

  /** The digit loop of lgetintlit: lit = lit * 10 + digit in int64 arithmetic,
      fatal as soon as the new value is smaller than the previous one. */
  function DigitLoop(p: seq<Byte>, lit: int): (r: Scan<int>)
    requires -TwoTo63 <= lit <= Int64Max
    ensures !r.NotFound?
    ensures r.Failed? ==> r.err == LiteralOverflow
    ensures r.Found? ==> lit <= r.value <= Int64Max
    ensures r.Found? ==> |r.rest| <= |p| && (IsDigit(Head(p)) ==> |r.rest| < |p|)
    decreases |p|
  {
    var c := Head(p);
    if !IsDigit(c) then Found(lit, PushBack(c, Tail(p)))
    else
      var next := Wrap64(Wrap64(lit * 10) + (c - '0' as int));
      if next < lit then Failed(LiteralOverflow)
      else DigitLoop(Tail(p), next)
  }

  /** One character of lgetintlit's digit loop. */
  lemma DigitLoopStep(p: seq<Byte>, lit: int)
    requires -TwoTo63 <= lit <= Int64Max
    ensures !IsDigit(Head(p)) ==> DigitLoop(p, lit) == Found(lit, PushBack(Head(p), Tail(p)))
    ensures IsDigit(Head(p)) ==>
      var next := Wrap64(Wrap64(lit * 10) + (Head(p) - '0' as int));
      DigitLoop(p, lit) == (if next < lit then Failed(LiteralOverflow) else DigitLoop(Tail(p), next))
      && |Tail(p)| < |p|
  {
  }

  /** The digit loop stops at the first character that is not a digit and leaves it
      unread. */
  lemma {:induction false} DigitLoopRest(p: seq<Byte>, lit: int)
    requires -TwoTo63 <= lit <= Int64Max
    ensures var r := DigitLoop(p, lit); var n := DigitRun(p);
      r.Found? ==> r.rest == PushBack(Head(p[n..]), Tail(p[n..]))
    decreases |p|
  {
    var c := Head(p);
    if IsDigit(c) {
      var next := Wrap64(Wrap64(lit * 10) + (c - '0' as int));
      if next >= lit {
        DigitLoopRest(Tail(p), next);
        assert p[DigitRun(p)..] == p[1..][DigitRun(p[1..])..];
      }
    } else {
      assert p[0..] == p;
    }
  }

  /** lgetintlit: a '-' or a digit starts a literal ('-' is consumed, a digit is
      only peeked); its digits are accumulated, and the value negated after a '-'. */
  function GetIntLit(p: seq<Byte>): (r: Scan<Token>)
    ensures r.NotFound? <==> !IsDigit(Head(p)) && Head(p) != '-' as int
    ensures r.NotFound? ==> r.rest == PushBack(Head(p), Tail(p))
    ensures r.Failed? ==> r.err == LiteralOverflow
    ensures r.Found? ==> r.value.IntLit? && |r.rest| < |p|
    ensures r.Found? && Head(p) != '-' as int ==> 0 <= r.value.value
    ensures r.Found? && Head(p) == '-' as int ==> r.value.value <= 0
  {
    var peek := Head(p);
    if !IsDigit(peek) && peek != '-' as int then NotFound(PushBack(peek, Tail(p)))
    else
      var negative := peek == '-' as int;
      var digits := if negative then Tail(p) else p;
      match DigitLoop(digits, 0)
      case Found(lit, rest) =>
        assert |rest| < |p| by {
          var n := DigitRun(digits);
          assert negative || n > 0;
        }
        // 0 <= lit <= Int64Max, so the int64 negation `lit *= -1` is exact
        Found(IntLit(if negative then -lit else lit), rest)
      case Failed(e) => Failed(e)
  }

  /** lgetintlit once a literal has started: the digit loop's outcome, negated
      after a '-'. */
  lemma GetIntLitStarted(p: seq<Byte>)
    requires IsDigit(Head(p)) || Head(p) == '-' as int
    ensures var digits := if Head(p) == '-' as int then Tail(p) else p;
      match DigitLoop(digits, 0)
      case Found(lit, rest) =>
        GetIntLit(p) == Found(IntLit(if Head(p) == '-' as int then -lit else lit), rest)
      case Failed(e) => GetIntLit(p) == Failed(e)
      case NotFound(_) => false
  {
  }

  /** The decimal value of digits read after an accumulated value acc. */
  function Accum(ds: seq<Byte>, acc: int): (r: int)
    ensures AllDigits(ds) && 0 <= acc ==> acc <= r
    decreases |ds|
  {
    if ds == [] then acc else Accum(ds[1..], acc * 10 + (ds[0] - '0' as int))
  }

  predicate AllDigits(ds: seq<Byte>)
  {
    forall i :: 0 <= i < |ds| ==> IsDigit(ds[i])
  }

  /** While the true decimal value fits in int64, the digit loop computes it exactly
      and no overflow is reported. */
  lemma {:induction false} DigitLoopExact(ds: seq<Byte>, rest: seq<Byte>, acc: int)
    requires AllDigits(ds) && 0 <= acc && Accum(ds, acc) <= Int64Max
    ensures DigitLoop(ds + rest, acc) == DigitLoop(rest, Accum(ds, acc))
    decreases |ds|
  {
    if ds != [] {
      var next := acc * 10 + (ds[0] - '0' as int);
      assert AllDigits(ds[1..]);
      assert Accum(ds, acc) == Accum(ds[1..], next);
      NoWrap(acc, ds[0]);
      var t := ds + rest;
      assert Head(t) == ds[0] && Tail(t) == ds[1..] + rest;
      assert DigitLoop(t, acc) == DigitLoop(ds[1..] + rest, next);
      DigitLoopExact(ds[1..], rest, next);
    } else {
      assert ds + rest == rest;
    }
  }

  /** One digit step below the int64 limit is plain arithmetic. */
  lemma NoWrap(acc: int, c: int)
    requires 0 <= acc && IsDigit(c) && acc * 10 + (c - '0' as int) <= Int64Max
    ensures Wrap64(Wrap64(acc * 10) + (c - '0' as int)) == acc * 10 + (c - '0' as int)
  {
    assert Wrap64(acc * 10) == acc * 10;
  }

  /** A leading '-' is consumed and the digit loop runs on what follows it; its
      result is negated. A lone '-' therefore reads as 0. */
  lemma MinusLiteral(q: seq<Byte>)
    ensures var r := DigitLoop(q, 0);
      GetIntLit(['-' as Byte] + q) == if r.Found? then Found(IntLit(-r.value), r.rest) else Failed(LiteralOverflow)
  {
    var p := ['-' as Byte] + q;
    assert Head(p) == '-' as int && Tail(p) == q;
  }

  /** A literal whose value fits in int64 is read exactly, and the character after
      it is left unread. */
  lemma UnsignedLiteralExact(ds: seq<Byte>, rest: seq<Byte>)
    requires ds != [] && AllDigits(ds) && Accum(ds, 0) <= Int64Max
    requires !IsDigit(Head(rest))
    ensures GetIntLit(ds + rest) == Found(IntLit(Accum(ds, 0)), PushBack(Head(rest), Tail(rest)))
  {
    var v := Accum(ds, 0);
    DigitLoopExact(ds, rest, 0);
    assert DigitLoop(rest, v) == Found(v, PushBack(Head(rest), Tail(rest)));
    assert Head(ds + rest) == ds[0];
  }

  /** The same after a '-', with the value negated. */
  lemma NegativeLiteralExact(ds: seq<Byte>, rest: seq<Byte>)
    requires AllDigits(ds) && Accum(ds, 0) <= Int64Max
    requires !IsDigit(Head(rest))
    ensures GetIntLit(['-' as Byte] + (ds + rest)) == Found(IntLit(-Accum(ds, 0)), PushBack(Head(rest), Tail(rest)))
  {
    var v := Accum(ds, 0);
    DigitLoopExact(ds, rest, 0);
    assert DigitLoop(rest, v) == Found(v, PushBack(Head(rest), Tail(rest)));
    MinusLiteral(ds + rest);
  }

  /** "99999999999999999999" is rejected: the running value wraps negative at the
      nineteenth digit. */
  lemma TwentyNinesOverflow()
    ensures GetIntLit(seq(20, _ => '9' as Byte)) == Failed(LiteralOverflow)
  {
    var nines := seq(20, _ => '9' as Byte);
    var ds := nines[..18];
    assert nines == ds + nines[18..];
    assert Accum(ds, 0) == 999_999_999_999_999_999 by {
      assert ds == seq(18, _ => '9' as Byte);
      AccumNines(18, 0);
      Pow10Values();
    }
    DigitLoopExact(ds, nines[18..], 0);
    var tail := nines[18..];
    assert Head(tail) == '9' as int;
    assert Wrap64(Wrap64(999_999_999_999_999_999 * 10) + 9) < 999_999_999_999_999_999;
  }

  /** n nines after acc accumulate to acc * 10^n + 10^n - 1. */
  lemma {:induction false} AccumNines(n: nat, acc: int)
    ensures Accum(seq(n, _ => '9' as Byte), acc) == (acc + 1) * Pow10(n) - 1
    decreases n
  {
    var ds := seq(n, _ => '9' as Byte);
    if n > 0 {
      assert ds[1..] == seq(n - 1, _ => '9' as Byte);
      AccumNines(n - 1, acc * 10 + 9);
      assert (acc * 10 + 9 + 1) * Pow10(n - 1) == (acc + 1) * Pow10(n);
    }
  }

  function Pow10(n: nat): (r: nat)
    ensures r > 0
  {
    if n == 0 then 1 else 10 * Pow10(n - 1)
  }

  /** "25000000000000000000" (2.5 * 10^19, above the int64 range) is accepted: the
      wrapped running value grows at the last digit, so the check does not fire, and
      the literal reads as 25 * 10^18 - 2^64. */
  lemma WrappedLiteralAccepted()
    ensures var lit := ['2' as Byte, '5' as Byte] + seq(18, _ => '0' as Byte);
      GetIntLit(lit) == Found(IntLit(6_553_255_926_290_448_384), [])
  {
    var zeros := seq(18, _ => '0' as Byte);
    var lit := ['2' as Byte, '5' as Byte] + zeros;
    var ds := lit[..19];
    assert lit == ds + [lit[19]];
    assert ds == ['2' as Byte, '5' as Byte] + seq(17, _ => '0' as Byte);
    TwentyFiveZeros();
    DigitLoopExact(ds, [lit[19]], 0);
    LastDigitWraps();
    assert DigitLoop([], 6_553_255_926_290_448_384) == Found(6_553_255_926_290_448_384, []);
  }

  /** "25" and seventeen zeros accumulate to 2.5 * 10^18, which still fits. */
  lemma TwentyFiveZeros()
    ensures Accum(['2' as Byte, '5' as Byte] + seq(17, _ => '0' as Byte), 0) == 2_500_000_000_000_000_000
  {
    var ds := ['2' as Byte, '5' as Byte] + seq(17, _ => '0' as Byte);
    AccumZeros(17, 25);
    assert ds[2..] == seq(17, _ => '0' as Byte);
    assert Accum(ds, 0) == Accum(ds[2..], 25);
    Pow10Values();
  }

  /** One more '0' after 2.5 * 10^18 wraps around to a larger value. */
  lemma LastDigitWraps()
    ensures DigitLoop(['0' as Byte], 2_500_000_000_000_000_000)
      == DigitLoop([], 6_553_255_926_290_448_384)
  {
    assert Wrap64(Wrap64(2_500_000_000_000_000_000 * 10) + 0) == 6_553_255_926_290_448_384;
  }

  /** n zeros after acc accumulate to acc * 10^n. */
  lemma {:induction false} AccumZeros(n: nat, acc: int)
    ensures Accum(seq(n, _ => '0' as Byte), acc) == acc * Pow10(n)
    decreases n
  {
    var ds := seq(n, _ => '0' as Byte);
    if n > 0 {
      assert ds[1..] == seq(n - 1, _ => '0' as Byte);
      AccumZeros(n - 1, acc * 10);
    }
  }

  lemma Pow10Values()
    ensures Pow10(17) == 100_000_000_000_000_000
    ensures Pow10(18) == 1_000_000_000_000_000_000
  {
    assert Pow10(3) == 1_000;
    assert Pow10(6) == 1_000_000;
    assert Pow10(9) == 1_000_000_000;
    assert Pow10(12) == 1_000_000_000_000;
    assert Pow10(15) == 1_000_000_000_000_000;
  }

  /** One step of lexer_next. */
  datatype Step = Emit(tok: Token, rest: seq<Byte>) | Done | Stop(err: Error)

  /** The scanners of lexer_next after whitespace and comments: a word, then
      punctuation, then an integer literal; anything else is a lex error. */
  function Scanners(q: seq<Byte>): (r: Step)
    ensures r.Emit? ==> |r.rest| < |q|
    ensures r != Done
  {
    match GetWord(q, WordBufSize)
    case Failed(e) => Stop(e)
    case Found(w, rest) => Emit(WordToToken(View(Chars(w), |w|)), rest)
    case NotFound(q1) =>
      match GetSymb(q1)
      case Found(t, rest) => Emit(t, rest)
      case Failed(e) => Stop(e)
      case NotFound(q2) =>
        match GetIntLit(q2)
        case Found(t, rest) => Emit(t, rest)
        case Failed(e) => Stop(e)
        case NotFound(_) => Stop(LexError)
  }

  /** lexer_next without a peeked token: skip whitespace and any number of
      comments, report the end when lskipcomment met EOF, then run the scanners. */
  function Next(p: seq<Byte>): (r: Step)
    ensures r.Emit? ==> |r.rest| < |p|
    decreases |p|
  {
    match SkipComment(SkipSpace(p))
    case Comment(rest) => Next(rest)
    case AtEnd => Done
    case NoComment(q) => Scanners(q)
  }

  /** How a token stream ends: at EOF, or with a fatal lexer error. */
  datatype End = AtEof | LexFatal(err: Error)

  /** The tokens the lexer hands out, in order, and how the stream ends. */
  datatype Stream = Stream(toks: seq<Token>, end: End)

  /** Repeated lexer_next from the pending characters p. */
  function Lex(p: seq<Byte>): (s: Stream)
    ensures |s.toks| <= |p|
    decreases |p|
  {
    match Next(p)
    case Emit(t, rest) =>
      var s := Lex(rest);
      Stream([t] + s.toks, s.end)
    case Done => Stream([], AtEof)
    case Stop(e) => Stream([], LexFatal(e))
  }

  /** A comment skipped by lexer_next is as if it were not there. */
  lemma LexPastComment(p: seq<Byte>, rest: seq<Byte>)
    requires SkipComment(SkipSpace(p)) == Comment(rest)
    ensures Lex(p) == Lex(rest)
  {
    assert Next(p) == Next(rest);
  }

  /** Lex is the sequence of lexer_next steps. */
  lemma LexStep(p: seq<Byte>)
    ensures Next(p).Emit? ==> Lex(p) == Stream([Next(p).tok] + Lex(Next(p).rest).toks, Lex(Next(p).rest).end)
    ensures Next(p).Done? ==> Lex(p) == Stream([], AtEof)
    ensures Next(p).Stop? ==> Lex(p) == Stream([], LexFatal(Next(p).err))
  {
  }

  /** Whitespace before the pending characters changes nothing. */
  lemma LeadingSpaceIgnored(s: seq<Byte>, p: seq<Byte>)
    requires forall i :: 0 <= i < |s| ==> IsSpace(s[i])
    ensures Lex(s + p) == Lex(p)
  {
    SkipSpacePrefix(s, p);
  }

  /** A "//" comment through its newline changes nothing. */
  lemma LineCommentIgnored(line: seq<Byte>, p: seq<Byte>)
    requires forall i :: 0 <= i < |line| ==> line[i] != NL
    ensures Lex(['/' as Byte, '/' as Byte] + line + [NL as Byte] + p) == Lex(p)
  {
    var s := ['/' as Byte, '/' as Byte] + line + [NL as Byte] + p;
    assert SkipSpace(s) == s;
    LineComment(line, p);
    LexPastComment(s, p);
  }

  /** A lone character before EOF is lost: lskipcomment reads it and then EOF, and
      returns without pushing it back. */
  lemma LoneLastByteDropped(c: Byte)
    ensures Lex([c]) == Stream([], AtEof)
  {
    assert SkipComment(SkipSpace([c])) == AtEnd;
    assert Next([c]) == Done;
  }

  /** Once whitespace and comments are behind, lexer_next is the scanners. */
  lemma NextScans(p: seq<Byte>, q: seq<Byte>)
    requires SkipComment(SkipSpace(p)) == NoComment(q)
    ensures Next(p) == Scanners(q)
  {
  }

  /** A punctuation character is not a word, so lgetsymb reads it. */
  lemma ScansPunct(c: Byte, p: seq<Byte>)
    requires PunctToken(c).Some?
    ensures Scanners([c] + p) == Emit(PunctToken(c).value, p)
  {
    var s := [c] + p;
    assert Head(s) == c && Tail(s) == p;
    assert GetWord(s, WordBufSize) == NotFound(s);
    assert GetSymb(s) == Found(PunctToken(c).value, p);
  }

  /** A character that can start an identifier is read by lgetword: the whole run
      of word characters becomes word2tok's token when it fits the buffer, and the
      character after it is pushed back; a longer run is fatal. */
  lemma ScansWord(q: seq<Byte>)
    requires IsIdentHead(Head(q))
    ensures var n := WordRun(q);
      Scanners(q) == if n < WordBufSize then Emit(WordToToken(View(Chars(q[..n]), n)), PushBack(Head(q[n..]), Tail(q[n..])))
                     else Stop(WordTooLong)
  {
    GetWordRun(q, WordBufSize);
  }

  /** A digit or '-' is no word and no punctuation: lgetword and lgetsymb push it
      back, and lgetintlit's answer is the step's answer. */
  lemma ScansLiteral(q: seq<Byte>)
    requires IsDigit(Head(q)) || Head(q) == '-' as int
    ensures match GetIntLit(q)
      case Found(t, rest) => Scanners(q) == Emit(t, rest)
      case Failed(e) => Scanners(q) == Stop(e)
      case NotFound(_) => false
  {
    IdentClasses(Head(q));
    assert PushBack(Head(q), Tail(q)) == q;
    assert GetWord(q, WordBufSize) == NotFound(q);
    assert GetSymb(q) == NotFound(q);
  }

  /** A character that starts no word, no punctuation and no literal is a lex
      error. */
  lemma ScansOther(q: seq<Byte>)
    requires Head(q) != 0 && !IsIdentHead(Head(q)) && PunctToken(Head(q)).None?
    requires !IsDigit(Head(q)) && Head(q) != '-' as int
    ensures Scanners(q) == Stop(LexError)
  {
    assert PushBack(Head(q), Tail(q)) == q;
    assert GetWord(q, WordBufSize) == NotFound(q);
    assert GetSymb(q) == NotFound(q);
  }

  /** A punctuation character that is not the last one is read as its token. */
  lemma PunctStep(c: Byte, p: seq<Byte>)
    requires PunctToken(c).Some? && p != [] && p[0] != 0
    ensures Next([c] + p) == Emit(PunctToken(c).value, p)
  {
    var s := [c] + p;
    assert Head(s) == c && Tail(s) == p;
    assert SkipSpace(s) == s;
    assert SkipComment(s) == NoComment(s);
    NextScans(s, s);
    ScansPunct(c, p);
  }

  /** "{}" at the very end of the input yields only "{"; a newline after it saves the "}". */
  lemma FinalBraceLost()
    ensures Lex(['{' as Byte, '}' as Byte]) == Stream([LBrace], AtEof)
    ensures Lex(['{' as Byte, '}' as Byte, NL as Byte]) == Stream([LBrace, RBrace], AtEof)
  {
    var a: seq<Byte> := ['{' as Byte, '}' as Byte];
    PunctStep('{' as Byte, a[1..]);
    assert [a[0]] + a[1..] == a;
    LoneLastByteDropped('}' as Byte);
    assert Lex(a) == Stream([LBrace] + Lex(a[1..]).toks, Lex(a[1..]).end);

    var b: seq<Byte> := ['{' as Byte, '}' as Byte, NL as Byte];
    PunctStep('{' as Byte, b[1..]);
    assert [b[0]] + b[1..] == b;
    PunctStep('}' as Byte, b[2..]);
    assert [b[1]] + b[2..] == b[1..];
    LoneLastByteDropped(NL as Byte);
    assert Lex(b[1..]) == Stream([RBrace] + Lex(b[2..]).toks, Lex(b[2..]).end);
    assert Lex(b) == Stream([LBrace] + Lex(b[1..]).toks, Lex(b[1..]).end);
  }
}
