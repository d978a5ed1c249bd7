# slc compiler core in Dafny

This project models the three stages of the slc compiler, together with the two
small utilities they depend on. Every operation is given a contract, and the
properties of the language are proved as lemmas.

- **Lexer** (`lex.c`): turns the characters of the input into tokens.
- **Parser** (`parse.c`): turns the tokens into function items.
- **Code generator** (`gen.c`): checks each function and writes its assembly
  prologue.
- **Utilities**: the string view (`str.h`) and the growable array (`da.h`).

`lex.c`, `parse.c` and `gen.c` each become a pair: a pure specification module
and an imperative module proved against it. `str.h` is a single pure module.
`da.h` is a single module whose class `Da` states its new state directly in its
method contracts.

| file | module | what it holds |
|---|---|---|
| `errors.dfy` | `Errors` | One error value per fatal `errx` call, plus `Result`, `Outcome` and `Option`. |
| `str.dfy` | `StrView` | `str_t` as a view: a buffer plus a length. `str_eq` and `str_dup`. |
| `da.dfy` | `DynArray` | The growable array as a class `Da` with `ptr`, `len` and `cap`. `da_init`, `da_grow` and `da_append` are its constructor and methods. |
| `lex.dfy` | `LexSpec` | Every scanning routine of `lex.c` as a function of the *pending* characters: the push-back slot, then the unread input. `Lex` is the full token stream, including how it ends (end of file or a fatal lexer error). |
| `lexer.dfy` | `Lexer` | `struct lexer` as a class. Its fields are the unread input, the feof flag, the push-back slot, the peek cache, and line and column. `lgetc`, `lungetc`, `lpeekc`, `lgetword`, `lskipspace`, `lgetsymb`, `lgetintlit`, `lskipcomment`, `lexer_next` and `lexer_peek` are methods. Each method is proved against `LexSpec` on the pending characters. `lexer_next` and `lexer_peek` are proved against the token stream `Lex`. |
| `parse.dfy` | `Parse` | Each parsing routine as a function of the token stream. A renderer turns a function item back into tokens. The round-trip lemmas prove that parsing the rendering gives back the item. |
| `parser.dfy` | `Parser` | `struct parser` as a class owning the lexer. Its methods fill growable arrays in loops. Each one returns what the `Parse` function of the same name returns, and leaves the lexer at the stream that function leaves. |
| `gen.dfy` | `Gen` | `tysize`, the checks of `check_func`, the frame size, the text `gen_func` writes, and what `codegen_gen` writes for a whole stream. |
| `codegen.dfy` | `CodeGen` | `struct codegen` as a class. It holds the parser and the text written so far. `gen_func`, `gen_item` and `codegen_gen` are methods. |

Quirks of the C code that the model keeps, each shown by a lemma:
- `lungetc(0)` cannot be told apart from an empty push-back slot, so a NUL
  character that is pushed back is lost.
- `lskipcomment` reads two characters. When the second read is EOF, it pushes
  nothing back. So the last character of an input is dropped, and `{}` at the
  very end of a file lexes as `{` alone.
- The overflow test compares each new value of the literal with the previous
  one, after 64-bit wrap-around. `25000000000000000000` wraps to
  `6553255926290448384` and is accepted. Twenty nines are rejected.
- A lone `-` is accepted as the integer literal 0.
- `da_grow` never stores the capacity it asked `realloc` for. `cap` therefore
  stays 0, and every `da_append` reallocates to `max(4, len + 1)` slots. This is
  not the capacity doubling that a description of the array would suggest. The
  model follows the code.
- `parser_next` returns 1 after a function item as well. So `codegen_gen` never
  reaches `gen_item`; see Findings.

## Model

| member | source | states |
|---|---|---|
| StrView.Lit | str.h:8 | A literal view has the literal's length and exactly its characters. |
| StrView.Eq | str.h:26-36 | str_eq is true iff the lengths agree and every byte below the length agrees. |
| StrView.EqFrom | str.h:30-33 | The comparison loop from index i answers true iff every byte from i on agrees. |
| StrView.Dup | str.h:16-24 | The copy has the same length and the same bytes, in a buffer of exactly that length. |
| StrView.EqIffSameBytes | str.h:26-36 | str_eq holds iff the two views denote the same byte string. |
| StrView.EqReflexiveSymmetric | str.h:26-36 | str_eq is reflexive and symmetric. |
| StrView.DupEq | str.h:16-36 | A duplicate is str_eq to its original, in both argument orders. |
| DynArray.GrowTarget | da.h:18-22 | The size asked of realloc is at least mincap and at least double cap (4 from 0), and is one of those two numbers. |
| DynArray.Realloc | da.h:23 | realloc yields a fresh buffer of n slots that keeps the old elements that fit. |
| DynArray.Da.Init | da.h:6-11 | da_init: null buffer, length and capacity 0, no elements. |
| DynArray.Da.Grow | da.h:13-24 | Elements, len and cap are unchanged. The buffer is kept when cap covers mincap; otherwise it is a fresh buffer of GrowTarget slots. Room for mincap elements afterwards. |
| DynArray.Da.Append | da.h:26-31 | The elements become the old ones followed by the item, and len grows by one. cap is unchanged. The buffer is reallocated exactly when cap was short. |
| DynArray.GrowFromZero | da.h:13-31 | With cap stuck at 0, every append reallocates to max(4, len + 1) slots. |
| DynArray.AppendAll | da.h:6-31 | da_init followed by appends holds exactly the appended items, in order, and cap stays 0. |
| LexSpec.HasKindIff | parse.c:22 | A token has kind k iff its token type is k. |
| LexSpec.IdentClasses | lex.c:50-56 | Every identifier head character is a tail character. Tail characters are exactly the heads and the digits. No digit is a head. Tail characters are bytes 1..255 and never white space. |
| LexSpec.ReadThenPushBack | lex.c:72-76 | lpeekc leaves the pending characters unchanged, except that a NUL byte is lost. |
| LexSpec.SkipSpace | lex.c:117-124 | Skipping white space never lengthens the input. |
| LexSpec.SkipSpaceSuffix | lex.c:117-124 | What is left is a suffix of the input. It starts with white space only right after a dropped NUL. |
| LexSpec.SkipSpaceStep | lex.c:120-123 | One round: a space is skipped; the first non-space is pushed back. |
| LexSpec.SkipSpaceSkips | lex.c:117-124 | After k spaces, lskipspace leaves p[k..]. If a NUL ended the run, it leaves p[k+1..]. |
| LexSpec.SkipSpacePrefix | lex.c:117-124 | A prefix made only of white space makes no difference. |
| LexSpec.SkipLine | lex.c:207-208 | The comment loop consumes at least one character of a non-empty input. |
| LexSpec.SkipLineSuffix | lex.c:207-208 | What is left is a suffix. No newline occurs before its end, and when input remains, a newline is the character just consumed. |
| LexSpec.SkipComment | lex.c:192-211 | EOF iff fewer than two characters. A comment iff they are "//", and then the rest of the line is skipped. Otherwise the characters are pushed back (unchanged when neither is NUL). |
| LexSpec.SkipLineThrough | lex.c:207-208 | The comment loop stops right after the first newline. |
| LexSpec.LineComment | lex.c:192-211 | "//", a line, and a newline are skipped as a comment. |
| LexSpec.WordRun | lex.c:85-95 | Reference definition of the longest prefix of identifier tail characters. |
| LexSpec.WordLoop | lex.c:85-97 | The copy loop yields a word shorter than the buffer, or fails with "word too long". |
| LexSpec.WordLoopRun | lex.c:85-97 | The copy loop takes exactly the longest run of tail characters when it is shorter than the buffer, and fails otherwise. |
| LexSpec.WordLoopStep | lex.c:85-97 | One round of the copy loop: full buffer, a non-tail character pushed back, or one byte copied. |
| LexSpec.GetWord | lex.c:78-98 | No word iff the next character is not an identifier head, and then nothing is consumed. A word is shorter than the buffer and consumes input. |
| LexSpec.GetWordRun | lex.c:78-98 | After an identifier head, lgetword returns the maximal run and pushes back the character after it. It fails with "word too long" when the run does not fit in the buffer. |
| LexSpec.GetWordStarted | lex.c:82-85 | After a head character, lgetword is the copy loop from an empty word. |
| LexSpec.WordToToken | lex.c:100-115 | A word becomes a keyword, type or identifier token. |
| LexSpec.WordToTokenMeaning | lex.c:100-115 | fn, void, i32 and return give their tokens, each iff the word is exactly that text. Any other word is an identifier holding a duplicate of its bytes. |
| LexSpec.WordToTokenBytes | lex.c:100-115 | word2tok depends only on the bytes of the word. |
| LexSpec.PunctToken | lex.c:128-152 | A token exists iff the character is one of the eight punctuation characters, and it is a punctuation token. |
| LexSpec.PunctTable | lex.c:128-152 | The table itself: '{' '}' '(' ')' ',' '+' ';' '=' give LBRACE, RBRACE, LPAREN, RPAREN, COMMA, PLUS, SEMICOLON and EQUALS. |
| LexSpec.PunctInjective | lex.c:128-152 | Different punctuation characters give different tokens. |
| LexSpec.GetSymb | lex.c:126-157 | lgetsymb never fails. It succeeds iff the next character is punctuation, consuming exactly that character; otherwise the character is pushed back. |
| LexSpec.Wrap64 | lex.c:176-177 | int64 arithmetic stays in the signed 64-bit range. |
| LexSpec.Wrap64Meaning | lex.c:176-177 | The wrapped value is congruent modulo 2^64 to the exact one, and equal to it when the exact one fits. |
| LexSpec.DigitRun | lex.c:173 | Reference definition of the longest prefix of decimal digits. |
| LexSpec.DigitLoop | lex.c:173-182 | The digit loop fails only with "literal overflow". On success the value never decreases, and a leading digit is consumed. |
| LexSpec.DigitLoopStep | lex.c:173-182 | One round: a non-digit is pushed back. Otherwise lit*10 + digit is computed with wrap-around, and a smaller result is an overflow. |
| LexSpec.DigitLoopRest | lex.c:173-182 | The digit loop stops right after the longest run of digits. |
| LexSpec.GetIntLit | lex.c:159-190 | No literal iff the next character is neither a digit nor '-', and then nothing is consumed. Failure is overflow. An unsigned literal is non-negative and a '-' literal is non-positive. |
| LexSpec.GetIntLitStarted | lex.c:165-189 | The literal is the digit loop's value, negated after '-'. |
| LexSpec.DigitLoopExact | lex.c:173-182 | Without overflow, the loop computes the decimal value of the digits. |
| LexSpec.NoWrap | lex.c:176-177 | A step whose exact value fits in int64 is not wrapped. |
| LexSpec.MinusLiteral | lex.c:162-189 | '-' followed by the digit loop gives the negated value. A lone '-' is the literal 0. |
| LexSpec.UnsignedLiteralExact | lex.c:159-190 | Digits whose value fits in int64 lex as that literal. |
| LexSpec.NegativeLiteralExact | lex.c:159-190 | '-' and such digits lex as the negated literal. |
| LexSpec.TwentyNinesOverflow | lex.c:179-180 | Twenty nines fail with "literal overflow". |
| LexSpec.WrappedLiteralAccepted | lex.c:176-181 | 25 followed by 18 zeros wraps to 6553255926290448384 and is accepted. |
| LexSpec.Scanners | lex.c:233-245 | The scanner step never reports the end of input, and an emitted token consumes input. |
| LexSpec.Next | lex.c:220-245 | One lexer_next: an emitted token consumes input. |
| LexSpec.Lex | lex.c:213-246 | The token stream is never longer than the input. |
| LexSpec.LexPastComment | lex.c:227-228 | A skipped comment leaves the token stream as if the comment were absent. |
| LexSpec.LexStep | lex.c:213-246 | The stream is the token of one lexer_next followed by the stream after it, or it ends at EOF or with the fatal error. |
| LexSpec.LeadingSpaceIgnored | lex.c:226 | White space in front of the input changes no token. |
| LexSpec.LineCommentIgnored | lex.c:226-228 | A "//" line in front of the input changes no token. |
| LexSpec.LoneLastByteDropped | lex.c:195-199 | A single character followed by EOF yields no token. |
| LexSpec.NextScans | lex.c:226-245 | Past white space and comments, lexer_next is the scanners. |
| LexSpec.ScansPunct | lex.c:233-239 | A punctuation character is not a word; lgetsymb turns it into its token. |
| LexSpec.PunctStep | lex.c:226-239 | A punctuation character that is not the last one is read as its token. |
| LexSpec.ScansWord | lex.c:232-235 | lgetword is tried first: after an identifier head, the longest run of word characters becomes word2tok's token when shorter than 100 bytes, with the next character pushed back; a longer run is fatal. |
| LexSpec.ScansLiteral | lex.c:232-243 | A digit or '-' is neither word nor punctuation, so the step gives exactly lgetintlit's token or its overflow error. |
| LexSpec.ScansOther | lex.c:232-245 | A character that starts no word, punctuation or literal is a lex error. |
| LexSpec.FinalBraceLost | lex.c:195-199 | "{}" at the end of the input lexes as "{" alone; with a final newline, it gives both braces. |
| Lexer.StepAdvances | lex.c:213-246 | One lexer_next step on the characters is one step of the token stream. |
| Lexer.PeekThenNext | lex.c:220-224 | After lexer_peek, lexer_next hands out the same token and removes it. |
| Lexer.PeekTwice | lex.c:248-254 | Two peeks give the same answer and change nothing. |
| Lexer.Lexer.Init | lex.c:5-11 | lexer_init: all input pending, nothing pushed back, no peeked token, line 1, column 1. The token stream is Lex of the input. |
| Lexer.Lexer.Fgetc | lex.c:31 | fgetc: the first unread byte or EOF. The feof flag is set when the input was empty. |
| Lexer.Lexer.Ungetc | lex.c:60 | ungetc: the byte goes back in front of the unread input and clears the feof flag. |
| Lexer.Lexer.Lgetc | lex.c:24-41 | Returns the first pending character and removes it. A newline advances the line and resets the column; another character advances the column; EOF changes neither. |
| Lexer.Lexer.Lungetc | lex.c:58-70 | The pending characters become PushBack(ch, old). A newline moves back a line with column 123456; another character moves the column back. |
| Lexer.Lexer.Lpeekc | lex.c:72-76 | Returns the next character. The pending characters are unchanged unless it was NUL. |
| Lexer.Lexer.Lskipspace | lex.c:117-124 | The pending characters become SkipSpace of the old ones. |
| Lexer.Lexer.Lgetword | lex.c:78-98 | Returns GetWord's answer, with the word's bytes in the buffer and GetWord's remaining input pending. |
| Lexer.Lexer.Lcopyword | lex.c:85-97 | The copy loop writes WordLoop's word into the buffer, leaves its remaining input pending, or fails with "word too long". |
| Lexer.Lexer.Lgetsymb | lex.c:126-157 | Returns GetSymb's answer and leaves its remaining input pending. |
| Lexer.Lexer.Ldigits | lex.c:173-182 | The digit loop returns DigitLoop's value and remaining input, or the overflow. |
| Lexer.Lexer.Lgetintlit | lex.c:159-190 | Returns GetIntLit's answer and leaves its remaining input pending. |
| Lexer.Lexer.Lskipcomment | lex.c:192-211 | Returns 0 after a comment and 1 otherwise. Leaves SkipComment's remaining input pending; at EOF nothing is pending and feof is set. |
| Lexer.Lexer.LexerNext | lex.c:213-246 | Hands out the first token of the stream and removes it; at the end reports 1 and changes nothing; a lexer error is fatal. |
| Lexer.Lexer.Lscan | lex.c:233-245 | The scanners step of lexer_next, as Scanners computes it. |
| Lexer.Lexer.LexerPeek | lex.c:248-254 | Reports the first token without removing it, and caches it. |
| Parse.Expect | parse.c:13-29 | Succeeds iff a token of the wanted kind comes next, and then consumes exactly it. At EOF the error is "unexpected EOF" (or the lexer's error); any other kind is "unexpected token". |
| Parse.Peekis | parse.c:31-36 | Fails only on a lexer error. Otherwise true iff the next token has the kind; false at EOF. |
| Parse.Consume1 | parse.c:38-41 | Drops the next token; at EOF nothing happens; fails only on a lexer error. |
| Parse.ParseDecl | parse.c:43-50 | A declaration consumes exactly two tokens. |
| Parse.ParseDeclTokens | parse.c:43-50 | A declaration consumed exactly its rendering: a type token, then an identifier. |
| Parse.ParseDeclRoundTrip | parse.c:43-50 | Parsing the rendering of a declaration gives it back. |
| Parse.Params | parse.c:67-74 | The parameter loop consumes input and keeps the stream's end. |
| Parse.ParamsStep | parse.c:67-74 | After a declaration and a comma, the loop continues with that declaration appended. |
| Parse.ParamsComplete | parse.c:67-74 | The loop extends what it was given by at least one declaration. It consumed exactly their rendering, separated by commas, and stops before a non-comma. |
| Parse.ParamsLast | parse.c:67-74 | A declaration without a following comma ends the list. |
| Parse.ParamsComma | parse.c:67-74 | A declaration and a comma continue the list. |
| Parse.ParamsRoundTrip | parse.c:67-74 | Parsing rendered parameters gives them back. |
| Parse.Stackvars | parse.c:78-81 | The stack-variable loop never lengthens the stream and keeps its end. |
| Parse.StackvarsStep | parse.c:78-81 | Before a non-brace, a declaration and a semicolon are parsed and appended. |
| Parse.StackvarsComplete | parse.c:78-81 | The loop extends what it was given. It consumed exactly the rendering of the new declarations, each with its semicolon, and stops at '{'. |
| Parse.StackvarsAtBrace | parse.c:78 | At '{' the loop stops without consuming. |
| Parse.StackvarsDecl | parse.c:78-81 | A declaration and a semicolon continue the loop. |
| Parse.StackvarsRoundTrip | parse.c:78-81 | Parsing rendered stack variables before '{' gives them back. |
| Parse.StackvarsEofIsFatal | parse.c:78-81 | Stack variables that run into EOF end in "unexpected EOF": peekis answers false at EOF, so the loop reads on. |
| Parse.ParseSignature | parse.c:57-65 | fn, the return type, the name and "(" consume exactly four tokens. |
| Parse.ParseSignatureTokens | parse.c:57-65 | The signature consumed exactly its rendering. |
| Parse.ParseSignatureRoundTrip | parse.c:57-65 | Parsing a rendered signature gives it back. |
| Parse.ParseParams | parse.c:65-76 | The parameter list with its ')' consumes input. |
| Parse.ParseParamsComplete | parse.c:65-76 | The list consumed exactly the rendering of its parameters, then ')'. |
| Parse.ParseParamsRoundTrip | parse.c:65-76 | Parsing rendered parameters and ')' gives them back. |
| Parse.ParamsEmptyIff | parse.c:65-66 | A parsed function has no parameters iff ')' directly follows '('. |
| Parse.ParseBody | parse.c:78-86 | The stack variables and "{ }" consume input. |
| Parse.ParseBodyComplete | parse.c:78-86 | The body consumed exactly its stack variables' rendering, then "{", then "}". |
| Parse.ParseBodyAfter | parse.c:78-86 | The body is the stack-variable loop followed by both braces. |
| Parse.ParseBodyRoundTrip | parse.c:78-86 | Parsing a rendered body gives back its stack variables. |
| Parse.ParseFunc | parse.c:52-87 | A function consumes input and keeps the stream's end. |
| Parse.ParseFuncComplete | parse.c:52-87 | A parsed function consumed exactly its own rendering. |
| Parse.ParseFuncRoundTrip | parse.c:52-87 | Parsing the rendering of any function item gives it back, with the rest of the stream untouched. |
| Parse.ExpectMatching | parse.c:13-29 | A token of the wanted kind is returned and consumed. |
| Parse.ExpectRoundTrip | parse.c:13-29 | Expecting a token's own kind returns it. |
| Parse.DeclTokens | parse.c:46-47 | A declaration renders as exactly two tokens: its type token and then an identifier holding its name. |
| Parse.ParamTokens | parse.c:67-74 | Parameters render to nothing iff there are none, and start with the first type. |
| Parse.StackvarTokens | parse.c:78-81 | Stack variables render to nothing iff there are none, and start with the first type. |
| Parse.SignatureTokens | parse.c:57-65 | A signature renders as four tokens starting with fn. |
| Parse.FuncTokens | parse.c:52-87 | A function renders as tokens starting with fn. |
| Parse.ParserNext | parse.c:89-106 | As written: every answer is 1. End of input gives no item and leaves the stream unchanged. An item consumes input. |
| Parse.ParserNextIntended | parse.c:89-106 | Corrected: the answer is 0 iff an item was parsed. At end of input the answer is 1, with no item and the stream unchanged. |
| Parse.ParserNextCases | parse.c:92-101 | End of input answers 1. A token other than fn is "not start of item". A lexer error is fatal. |
| Parse.ParserNextAfterItem | parse.c:95-105 | After a rendered function item, the as-written parser_next answers 1 with the item, and the corrected one answers 0. |
| Parser.Parser.Init | parse.c:5-7 | parser_init: the parser's token stream is Lex of the input. |
| Parser.Parser.Expect | parse.c:13-29 | Returns Expect's answer, a token of the wanted kind, and leaves its rest. |
| Parser.Parser.Peekis | parse.c:31-36 | Returns Peekis's answer and consumes nothing. |
| Parser.Parser.Consume1 | parse.c:38-41 | Leaves Consume1's stream or fails with its error. |
| Parser.Parser.ParseDecl | parse.c:43-50 | Returns ParseDecl's declaration and leaves its rest. |
| Parser.Parser.ArgRound | parse.c:68-73 | One round of the parameter loop keeps the loop's final answer on the remaining stream and the array, or ends the loop with it. |
| Parser.Parser.ParseArgs | parse.c:65-76 | The array holds exactly ParseParams's parameters and the stream is its rest, or ParseParams's error is returned. |
| Parser.Parser.StackvarRound | parse.c:79-80 | One round of the stack-variable loop preserves the loop's final answer and consumes input. |
| Parser.Parser.ParseStackvars | parse.c:78-86 | The array holds exactly ParseBody's stack variables and the stream is its rest, or ParseBody's error is returned. |
| Parser.Parser.ParseHead | parse.c:57-65 | Returns ParseSignature's answer and leaves its rest. |
| Parser.Parser.ParseFunc | parse.c:52-87 | Returns ParseFunc's function item and leaves its rest. |
| Parser.Parser.Next | parse.c:89-106 | The answer, item and remaining stream are those of ParserNext (as written). |
| Parser.Parser.NextIntended | parse.c:89-106 | The answer, item and remaining stream are those of ParserNextIntended (corrected). |
| Gen.TySize | gen.c:15-22 | i32 is 4 bytes; the size of void is fatal. |
| Gen.CheckArgsFrom | gen.c:28-38 | The parameter loop passes iff no parameter from i on shares its name with another parameter or with a stack variable; its errors are only those two. |
| Gen.CheckStackvarsFrom | gen.c:40-45 | The stack-variable loop passes iff no stack variable from i on shares its name with another. |
| Gen.CheckFunc | gen.c:24-46 | A return type other than i32 is rejected first. |
| Gen.NoDupIffDistinct | gen.c:28-33 | The duplicate loops find nothing iff the names are pairwise distinct as byte strings. |
| Gen.NoCollisionIffDisjoint | gen.c:34-37 | The collision loop finds nothing iff no parameter name is a stack-variable name. |
| Gen.CheckFuncPassIff | gen.c:24-46 | check_func passes iff the return type is i32, parameter names are pairwise distinct, stack-variable names are pairwise distinct, and no name is both. |
| Gen.CheckFuncFirstError | gen.c:24-46 | Parameter errors are reported before stack-variable duplicates. |
| Gen.StackSum | gen.c:51-53 | The sum exists iff every stack variable is i32, and is then 4 per variable; a void one is fatal. |
| Gen.AlignUp16 | gen.c:54-56 | The aligned size is a multiple of 16, not below the sum and less than 16 above it. |
| Gen.AlignUp16Least | gen.c:55-56 | It is the least such multiple, and 0 only for 0. |
| Gen.FrameSize | gen.c:51-56 | The frame exists iff the sum does. |
| Gen.FrameSizeBounds | gen.c:51-56 | The frame is the smallest multiple of 16 holding 4 bytes per stack variable, and is 0 iff there are none. |
| Gen.Hex | gen.c:66 | PRIx64 digits: non-empty, lowercase hexadecimal, no leading zero. |
| Gen.HexValue | gen.c:66 | Reference value of a hexadecimal digit string. |
| Gen.HexRoundTrip | gen.c:66 | Reading the printed digits back gives the number. |
| Gen.Header | gen.c:58-63 | ".globl N\nN:\n" has length 2·len(N) + 10. |
| Gen.FuncText | gen.c:58-66 | With an empty frame the text is the header alone. |
| Gen.FuncTextParts | gen.c:58-66 | The text is the header, then, iff the frame is non-zero, a line "\taddi sp, sp, -0x" whose lowercase hex digits read back as the frame size. |
| Gen.GenFuncText | gen.c:48-67 | check_func's error comes first, then void's; either means nothing is written. |
| Gen.GenFuncTextIff | gen.c:48-67 | Text is written iff the function passes the checks and its stack variables are i32. The text is the header and the aligned frame. |
| Gen.ParamTypesIgnored | gen.c:49-53 | Changing parameter types, keeping the names, changes nothing written. |
| Gen.TwoStackvarsText | gen.c:51-66 | Two i32 stack variables give a 16-byte frame, written "-0x10". |
| Gen.Generate | gen.c:77-83 | Corrected codegen_gen: without tokens, nothing is written. |
| Gen.GenerateAsWritten | gen.c:77-83 | codegen_gen as written writes nothing, and fails exactly when the first parser_next does. |
| Gen.GenerateItem | gen.c:77-83 | A function item in front is written (when gen_func accepts it) before what follows. A refused one stops everything with its error. |
| Gen.GenerateAtEof | gen.c:77-83 | The end of input ends generation with nothing more written. |
| Gen.GenerateProgram | gen.c:77-83 | A program of acceptable functions is written out function by function, in order. |
| Gen.AsWrittenWritesNothing | gen.c:80-82 | As written, a single acceptable function produces no output, while the corrected loop writes its text. |
| CodeGen.StackSize | gen.c:51-56 | The two frame loops compute FrameSize, or fail on a void stack variable. |
| CodeGen.CodeGen.Init | gen.c:5-8 | codegen_init: the parser is on the input and nothing has been written. |
| CodeGen.CodeGen.GenFunc | gen.c:48-67 | The output gains exactly GenFuncText's text, or is unchanged and the error returned. |
| CodeGen.CodeGen.GenItem | gen.c:69-75 | A function item is passed to gen_func. |
| CodeGen.CodeGen.GenAsWritten | gen.c:77-83 | codegen_gen as written: the output is unchanged. |
| CodeGen.CodeGen.Gen | gen.c:77-83 | Corrected codegen_gen: the output gains exactly Generate's text, and the outcome is Generate's. |

## Left out

- main.c (argument handling, opening the files) is not part of this model.
  The input is a byte sequence and the output file is the string `out`.
- `lexer_dispose`, `parser_dispose`, `codegen_dispose`, `fclose` and
  `token_dispose`: closing files and freeing memory have no counterpart over
  values. malloc failure and leaks are not modelled.
- `errx` is an error value returned to the caller. Its message text, and the
  line and column printed in it, are not modelled.
- `toktype2str` (lex.c:43-48) is used only to build error messages, so it is left out.
- `%.*s` stops at a NUL byte. Names are identifier characters, never NUL, so the
  text uses all bytes of the name.
- Statements: the body loop of `parse_func` is commented out in the source, so
  there is nothing to model.
- The 64-bit `stacksize` of `gen_func` is a `nat`. It is 4 bytes per stack
  variable plus under 16, and never comes near 2^64.
- `str_dup`'s fresh storage is a fresh sequence. Aliasing of `ptr` is not modelled.
- stdio's `ungetc` is modelled as putting the byte in front of the unread input,
  at any depth. `lungetc` needs at most one byte of it.
- Lexer.Lexer.LexerNext: the column after multi-character operations is not
  stated, and neither is the lexer state after a fatal error (which ends the
  process). The line and column are stated for `Lgetc`, `Lungetc` and `Lpeekc`.
- Lexer.PeekThenNext: says nothing of the fatal case, which ends the process.
- Parser.Parser.ArgRound, Parser.Parser.StackvarRound, Parser.Parser.ParseHead,
  Lexer.Lexer.Lcopyword, Lexer.Lexer.Ldigits, Lexer.Lexer.Lscan and
  CodeGen.StackSize are parts of one C function that were split into their own
  methods. Each carries its own contract.
- The parsed item is returned as a value instead of being written through the
  caller's `struct item *`.

## Findings

| source | as written | input that shows it | evidently intended | confidence | as-written member | corrected member |
|---|---|---|---|---|---|---|
| parse.c:105 | parser_next returns 1 after a parsed function item, the same as at the end of input, so codegen_gen's loop (gen.c:80) stops before gen_item and writes nothing | the input `fn i32 main() {}` followed by a newline | return 0 after an item, so that every function is checked and written | high; not executed | Gen.AsWrittenWritesNothing | Gen.GenerateProgram |

The as-written behaviour is `Parse.ParserNext`, `Parser.Parser.Next`,
`Gen.GenerateAsWritten` and `CodeGen.CodeGen.GenAsWritten`. The corrected one is
`Parse.ParserNextIntended`, `Parser.Parser.NextIntended`, `Gen.Generate` and
`CodeGen.CodeGen.Gen`.
