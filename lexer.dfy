/** lex.c's stateful half: struct lexer with its pushback slot, position and peek
    cache, and the routines that read characters from it. Every method is proved
    against the Lex specification of the characters it has still to read. */
module Lexer {
  import opened StrView
  import opened Errors
  import opened LexSpec

  /** What a scanning routine reports: a value (return 0 and the out parameter),
      nothing (return 1), or a fatal errx. */
  datatype Lexed<T> = Got(value: T) | Absent | Fatal(err: Error)

  /** lexer_next on a token stream: the first token is handed out and removed;
      at the end of the input the answer is "end" (1) and nothing changes; a lexer
      error is fatal. */
  ghost predicate Advances(s: Stream, r: Lexed<Token>, now: Stream)
  {
    if s.toks != [] then r == Got(s.toks[0]) && now == Stream(s.toks[1..], s.end)
    else match s.end
      case AtEof => r == Absent && now == s
      case LexFatal(e) => r == Fatal(e)
  }

  /** lexer_peek on a token stream: like lexer_next, but the token stays. */
  ghost predicate Peeks(s: Stream, r: Lexed<Token>, now: Stream)
  {
    if s.toks != [] then r == Got(s.toks[0]) && now == s
    else match s.end
      case AtEof => r == Absent && now == s
      case LexFatal(e) => r == Fatal(e)
  }

  /** One lexer_next step without a peeked token, on the pending characters: the
      token and what is left to read, the end of the input (nothing left), or a
      fatal error. */
  ghost predicate Stepped(step: Step, r: Lexed<Token>, now: seq<Byte>)
  {
    match step
    case Emit(t, rest) => r == Got(t) && now == rest
    case Done => r == Absent && now == []
    case Stop(e) => r == Fatal(e)
  }

  /** A step of Next is a step of the token stream Lex. */
  lemma StepAdvances(p: seq<Byte>, r: Lexed<Token>, now: seq<Byte>)
    requires Stepped(Next(p), r, now)
    ensures Advances(Lex(p), r, Lex(now))
  {
    LexStep(p);
    if Next(p).Done? {
      assert SkipComment(SkipSpace([])) == AtEnd;
      assert Next([]) == Done;
    }
  }

  /** lexer_peek followed by lexer_next yields the peeked token and removes it. */
  lemma PeekThenNext(s: Stream, r1: Lexed<Token>, mid: Stream, r2: Lexed<Token>, now: Stream)
    requires Peeks(s, r1, mid) && Advances(mid, r2, now)
    ensures !r1.Fatal? ==> r2 == r1
    ensures r1.Got? ==> now == Stream(s.toks[1..], s.end)
  {
  }

  /** Repeated lexer_peek calls answer the same and consume nothing. */
  lemma PeekTwice(s: Stream, r1: Lexed<Token>, mid: Stream, r2: Lexed<Token>, now: Stream)
    requires Peeks(s, r1, mid) && Peeks(mid, r2, now)
    ensures !r1.Fatal? ==> r2 == r1 && now == s
  {
  }

  /** struct lexer. The FILE is its unread contents `rest` and its end-of-file
      indicator `eof`; `ungot` is the one-character pushback slot (0 when empty),
      `peeked` the token cache (None for INVALID_TOKEN). */
  class Lexer {
    var rest: seq<Byte>
    var eof: bool
    var ungot: int
    var peeked: Option<Token>
    var line: int
    var col: int

    /** The slot holds a character, EOF or nothing; EOF sits in the slot only after
        the input was exhausted, and at the end nothing else is pending. */
    ghost predicate Valid()
      reads this
    {
      -1 <= ungot < 256
      && (ungot == EOF ==> eof)
      && (eof ==> ungot <= 0 && rest == [])
    }

    /** The characters lgetc will return, in order, before EOF. */
    function Pending(): seq<Byte>
      reads this
      requires Valid()
    {
      if ungot > 0 then [ungot as Byte] + rest else rest
    }

    /** The tokens lexer_next will hand out, in order: the peeked one first. */
    function Tokens(): Stream
      reads this
      requires Valid()
    {
      var s := Lex(Pending());
      if peeked.Some? then Stream([peeked.value] + s.toks, s.end) else s
    }

    /** lexer_init: position 1:1, nothing pushed back, nothing peeked. */
    constructor Init(input: seq<Byte>)
      ensures Valid() && rest == input && !eof && ungot == 0 && peeked == None
      ensures line == 1 && col == 1
      ensures Pending() == input && Tokens() == Lex(input)
    {
      rest := input;
      eof := false;
      ungot := 0;
      peeked := None;
      line := 1;
      col := 1;
    }

    /** fgetc on the input FILE: the next byte, or EOF (setting the indicator). */
    method Fgetc() returns (c: int)
      modifies this
      ensures c == Head(old(rest)) && rest == Tail(old(rest))
      ensures eof == (old(eof) || old(rest) == [])
      ensures ungot == old(ungot) && peeked == old(peeked) && line == old(line) && col == old(col)
    {
      if rest == [] {
        eof := true;
        return EOF;
      }
      c := rest[0];
      rest := rest[1..];
    }

    /** ungetc on the input FILE: EOF is refused; a byte is put back and clears the
        end-of-file indicator. */
    method Ungetc(c: int)
      requires -1 <= c < 256
      modifies this
      ensures c == EOF ==> rest == old(rest) && eof == old(eof)
      ensures c != EOF ==> rest == [c as Byte] + old(rest) && !eof
      ensures ungot == old(ungot) && peeked == old(peeked) && line == old(line) && col == old(col)
    {
      if c == EOF {
        return;
      }
      rest := [c as Byte] + rest;
      eof := false;
    }

    /** lgetc: the pushed-back character first (emptying the slot), else the FILE;
        '\n' moves to column 1 of the next line, any other character one column on,
        EOF nowhere. */
    method Lgetc() returns (c: int)
      requires Valid()
      modifies this
      ensures Valid() && peeked == old(peeked)
      ensures c == Head(old(Pending())) && Pending() == Tail(old(Pending()))
      ensures ungot == 0 && eof == (c == EOF)
      ensures c == NL ==> line == old(line) + 1 && col == 1
      ensures c != NL && c != EOF ==> line == old(line) && col == old(col) + 1
      ensures c == EOF ==> line == old(line) && col == old(col)
    {
      if ungot != 0 {
        c := ungot;
        ungot := 0;
      } else {
        c := Fgetc();
      }
      if c == NL {
        line := line + 1;
        col := 1;
      } else if c != EOF {
        col := col + 1;
      }
    }

    /** lungetc: an older pushed-back character goes back into the FILE, ch takes
        the slot. '\n' moves to the previous line and the column sentinel 123456,
        any other character one column back. Callers push back the character they
        have just read, so ch is EOF exactly when the input is exhausted. */
    method Lungetc(ch: int)
      requires Valid() && -1 <= ch < 256
      requires eof <==> ch == EOF
      modifies this
      ensures Valid() && peeked == old(peeked) && eof == old(eof)
      ensures Pending() == PushBack(ch, old(Pending()))
      ensures ch == NL ==> line == old(line) - 1 && col == 123456
      ensures ch != NL && ch != EOF ==> line == old(line) && col == old(col) - 1
      ensures ch == EOF ==> line == old(line) && col == old(col)
    {
      if ungot != 0 {
        Ungetc(ungot);
      }
      ungot := ch;
      if ch == NL {
        line := line - 1;
        col := 123456;
      } else if ch != EOF {
        col := col - 1;
      }
    }

    /** lpeekc: read a character and push it back. What will be read is unchanged
        (but for a NUL byte, which the slot cannot hold), and so is the line; the
        column is too, except after a '\n'. */
    method Lpeekc() returns (c: int)
      requires Valid()
      modifies this
      ensures Valid() && peeked == old(peeked) && eof == (c == EOF)
      ensures c == Head(old(Pending()))
      ensures Pending() == PushBack(c, Tail(old(Pending())))
      ensures c != 0 ==> Pending() == old(Pending())
      ensures line == old(line)
      ensures c != NL ==> col == old(col)
      ensures c == NL ==> col == 123456
    {
      c := Lgetc();
      Lungetc(c);
    }

    /** lskipspace */
    method Lskipspace()
      requires Valid()
      modifies this
      ensures Valid() && peeked == old(peeked)
      ensures Pending() == SkipSpace(old(Pending()))
    {
      ghost var p := Pending();
      var ch := Lgetc();
      SkipSpaceStep(p);
      while IsSpace(ch)
        invariant Valid() && peeked == old(peeked) && eof == (ch == EOF) && -1 <= ch < 256
        invariant SkipSpace(p) == if IsSpace(ch) then SkipSpace(Pending()) else PushBack(ch, Pending())
        decreases |Pending()| + (if IsSpace(ch) then 1 else 0)
      {
        ghost var q := Pending();
        ch := Lgetc();
        SkipSpaceStep(q);
      }
      Lungetc(ch);
    }

    /** lgetword, with the word buffer buf (its len is buf.Length): the word's length
        and its characters in buf[..length], or no word, or the fatal "word too long". */
    method Lgetword(buf: array<char>) returns (r: Lexed<nat>)
      requires Valid()
      modifies this, buf
      ensures Valid() && peeked == old(peeked)
      ensures match GetWord(old(Pending()), buf.Length)
        case NotFound(rest) => r == Absent && Pending() == rest
        case Found(w, rest) => r == Got(|w|) && Pending() == rest && buf[..|w|] == Chars(w)
        case Failed(e) => r == Fatal(e)
    {
      ghost var p := old(Pending());
      var c := Lpeekc();
      if !IsIdentHead(c) {
        return Absent;
      }
      IdentClasses(c);
      assert Pending() == p;
      GetWordStarted(p, buf.Length);
      r := Lcopyword(buf);
    }

    /** The copy loop of lgetword: word characters into buf while it has room; the
        first other character is pushed back and ends the word; a full buffer is
        the fatal "word too long". */
    method Lcopyword(buf: array<char>) returns (r: Lexed<nat>)
      requires Valid()
      modifies this, buf
      ensures Valid() && peeked == old(peeked)
      ensures match WordLoop(old(Pending()), [], buf.Length)
        case Found(w, rest) => r == Got(|w|) && Pending() == rest && buf[..|w|] == Chars(w)
        case NotFound(_) => false
        case Failed(e) => r == Fatal(e)
    {
      ghost var p := Pending();
      ghost var acc: seq<Byte> := [];
      var idx := 0;
      while idx < buf.Length
        invariant 0 <= idx <= buf.Length && |acc| == idx
        invariant Valid() && peeked == old(peeked)
        invariant WordLoop(Pending(), acc, buf.Length) == WordLoop(p, [], buf.Length)
        invariant forall i :: 0 <= i < idx ==> buf[i] as int == acc[i]
      {
        WordLoopStep(Pending(), acc, buf.Length);
        var ch := Lgetc();
        if !IsIdentTail(ch) {
          Lungetc(ch);
          assert buf[..idx] == Chars(acc);
          return Got(idx);
        }
        IdentClasses(ch);
        buf[idx] := ch as char;
        acc := acc + [ch as Byte];
        idx := idx + 1;
      }
      WordLoopStep(Pending(), acc, buf.Length);
      return Fatal(WordTooLong);
    }

    /** lgetsymb */
    method Lgetsymb() returns (r: Lexed<Token>)
      requires Valid()
      modifies this
      ensures Valid() && peeked == old(peeked)
      ensures match GetSymb(old(Pending()))
        case Found(t, rest) => r == Got(t) && Pending() == rest
        case NotFound(rest) => r == Absent && Pending() == rest
        case Failed(e) => r == Fatal(e)
    {
      var ch := Lgetc();
      match PunctToken(ch)
      case Some(t) =>
        r := Got(t);
      case None =>
        Lungetc(ch);
        r := Absent;
    }

    /** The digit loop of lgetintlit, with lit and prev as int64 values starting
        at 0: digits are read while lpeekc sees one, and a value smaller than the
        previous one is the fatal literal overflow. */
    method Ldigits() returns (r: Lexed<int>)
      requires Valid()
      modifies this
      ensures Valid() && peeked == old(peeked)
      ensures match DigitLoop(old(Pending()), 0)
        case Found(lit, rest) => r == Got(lit) && Pending() == rest
        case NotFound(_) => false
        case Failed(e) => r == Fatal(e)
    {
      ghost var digits := Pending();
      var lit := 0;
      var prev := 0;
      while true
        invariant Valid() && peeked == old(peeked)
        invariant 0 <= lit <= Int64Max && prev == lit
        invariant DigitLoop(Pending(), lit) == DigitLoop(digits, 0)
        decreases |Pending()|
      {
        ghost var q := Pending();
        DigitLoopStep(q, lit);
        var c := Lpeekc();
        if !IsDigit(c) {
          break;
        }
        var dig := Lgetc();
        lit := Wrap64(lit * 10);
        lit := Wrap64(lit + (dig - '0' as int));
        if lit < prev {
          return Fatal(LiteralOverflow);
        }
        prev := lit;
      }
      assert DigitLoop(digits, 0) == Found(lit, Pending());
      return Got(lit);
    }

    /** lgetintlit: the sign, the digit loop, the negation. */
    method Lgetintlit() returns (r: Lexed<Token>)
      requires Valid()
      modifies this
      ensures Valid() && peeked == old(peeked)
      ensures match GetIntLit(old(Pending()))
        case Found(t, rest) => r == Got(t) && Pending() == rest
        case NotFound(rest) => r == Absent && Pending() == rest
        case Failed(e) => r == Fatal(e)
    {
      ghost var p := old(Pending());
      var peek := Lpeekc();
      if !IsDigit(peek) && peek != '-' as int {
        assert GetIntLit(p) == NotFound(Pending());
        return Absent;
      }
      assert Pending() == p;
      GetIntLitStarted(p);
      var negative := false;
      if peek == '-' as int {
        var _ := Lgetc();
        negative := true;
      }
      ghost var digits := Pending();
      assert digits == if negative then Tail(p) else p;
      var d := Ldigits();
      if d.Fatal? {
        return Fatal(d.err);
      }
      var lit := d.value;
      assert DigitLoop(digits, 0) == Found(lit, Pending());
      if negative {
        lit := -lit;
      }
      assert GetIntLit(p) == Found(IntLit(lit), Pending());
      return Got(IntLit(lit));
    }

    /** lskipcomment: 0 after a skipped comment; 1 otherwise, with the end-of-file
        indicator set exactly when EOF was met. */
    method Lskipcomment() returns (r: int)
      requires Valid()
      modifies this
      ensures Valid() && peeked == old(peeked)
      ensures match SkipComment(old(Pending()))
        case Comment(rest) => r == 0 && Pending() == rest
        case NoComment(rest) => r == 1 && Pending() == rest && !eof
        case AtEnd => r == 1 && Pending() == [] && eof
    {
      var c1 := Lgetc();
      var c2 := Lgetc();
      if c1 == EOF || c2 == EOF {
        return 1;
      }
      if c1 != '/' as int || c2 != '/' as int {
        Lungetc(c2);
        Lungetc(c1);
        return 1;
      }
      ghost var p := Pending();
      c1 := Lgetc();
      while c1 != EOF && c1 != NL
        invariant Valid() && peeked == old(peeked) && eof == (c1 == EOF)
        invariant SkipLine(p) == if c1 == EOF || c1 == NL then Pending() else SkipLine(Pending())
        decreases |Pending()| + (if c1 != EOF && c1 != NL then 1 else 0)
      {
        c1 := Lgetc();
      }
      return 0;
    }

    /** lexer_next */
    method LexerNext() returns (r: Lexed<Token>)
      requires Valid()
      modifies this
      ensures Valid()
      ensures Advances(old(Tokens()), r, Tokens())
      ensures !r.Fatal? ==> peeked == None
      decreases |Pending()|
    {
      if peeked.Some? {
        r := Got(peeked.value);
        peeked := None;
        assert ([r.value] + Lex(Pending()).toks)[1..] == Lex(Pending()).toks;
        return;
      }
      ghost var p := Pending();
      Lskipspace();
      var skipped := Lskipcomment();
      if skipped == 0 {
        LexPastComment(p, Pending());
        r := LexerNext();
        return;
      }
      if eof {
        assert Stepped(Next(p), Absent, Pending());
        StepAdvances(p, Absent, Pending());
        return Absent;
      }
      ghost var q := Pending();
      NextScans(p, q);
      r := Lscan();
      StepAdvances(p, r, Pending());
    }

    /** The scanners at the end of lexer_next, once whitespace and comments are
        skipped and the input is not at EOF: lgetword into the 100-character word
        buffer and word2tok, else lgetsymb, else lgetintlit, else the fatal lex
        error. */
    method Lscan() returns (r: Lexed<Token>)
      requires Valid()
      modifies this
      ensures Valid() && peeked == old(peeked)
      ensures Stepped(Scanners(old(Pending())), r, Pending())
    {
      ghost var q := Pending();
      var buf := new char[WordBufSize];
      var w := Lgetword(buf);
      ghost var gw := GetWord(q, WordBufSize);
      if w.Fatal? {
        assert Scanners(q) == Stop(gw.err);
        r := Fatal(w.err);
      } else if w.Got? {
        ghost var word := gw.value;
        assert Scanners(q) == Emit(WordToToken(View(Chars(word), |word|)), gw.rest);
        var s: Str := View(buf[..], w.value);
        assert Bytes(s) == buf[..w.value];
        WordToTokenBytes(s, View(Chars(word), |word|));
        r := Got(WordToToken(s));
      } else {
        ghost var q1 := Pending();
        assert gw == NotFound(q1);
        r := Lgetsymb();
        if r.Absent? {
          ghost var q2 := Pending();
          assert GetSymb(q1) == NotFound(q2);
          r := Lgetintlit();
          if r.Absent? {
            r := Fatal(LexError);
          }
          assert Stepped(match GetIntLit(q2)
            case Found(t, rest) => Emit(t, rest)
            case Failed(e) => Stop(e)
            case NotFound(_) => Stop(LexError), r, Pending());
        }
      }
    }

    /** lexer_peek: lexer_next into the cache unless it is full; the cached token. */
    method LexerPeek() returns (r: Lexed<Token>)
      requires Valid()
      modifies this
      ensures Valid()
      ensures Peeks(old(Tokens()), r, Tokens())
      ensures r.Got? ==> peeked == Some(r.value)
    {
      if peeked.None? {
        var n := LexerNext();
        if !n.Got? {
          return n;
        }
        peeked := Some(n.value);
      }
      return Got(peeked.value);
    }
  }
}
