# Keymap lexer of go-kbd, modelled in Dafny

go-kbd reads Linux console keymap files (the `loadkeys` format). Its lexer,
`lexer/lexer.go`, is a single-pass scanner that pulls bytes from a buffered
reader. A `Lexer` holds three things:

- a mode: `StateNormal`, `StateValue` or `StateInclude`;
- a byte buffer that it appends to and shortens in place;
- the reader. The lexer reads a byte, pushes one back and peeks one ahead.

Each call of `Get` turns the next run of input bytes into a `Leaf`. A leaf is
a `Kind` and the bytes of the token (`lexer/leaf.go`). A call can also return
the end marker (nil, nil) or an error.

`Get` applies its rules in a fixed order:

1. line continuation;
2. `U+XXXX`;
3. greedy hex numerals;
4. Value-mode identifiers ended by a blank;
5. the keyword table, with its one-byte lookahead and mode switches;
6. `alt-is-meta`;
7. the single-byte switch: blank runs, comments, punctuation, quoted strings,
   decimal runs and `\` character literals.

The project has these modules:

- `Bytes` (bytes.dfy): octets, `isOcta`, `isHex`, and predicates in place of
  the four anchored regular expressions.
- `Leaves` (leaf.dfy): the kind enumeration with its ordinals, the leaf
  record, `MarshalText` and the three-field record behind `MarshalJSON`.
- `Scanner` (scanner.dfy): the lexer as a state machine on values.
  - `Scan` is the whole state: the input, the reader's cursor, the buffer and
    the mode.
  - Each loop of the source is a recursive function, and each panic is an
    error result.
  - `NextToken` is `Get`.
- `Lexer` (lexer.dfy): the class `Lexer`, with the source's fields and
  methods.
  - The methods update `pos`, `buf` and `state` in place, with the same loops.
  - Each method is proved to return, and to leave, exactly what the matching
    `Scanner` function prescribes, for example
    `Step(out, Snapshot()) == NextToken(old(Snapshot()))` for `Get`.
  - `ReadRun` and `ReadOctal` hold the loops of `consumeFunc` and of the
    octal branch of `Get`.
  - The bodies of the loops of `getString` and `Get` are their own methods,
    `DecodeTurn` and `Turn`, called from a loop in `GetString` and `Get`.
- `LiteralLaws`, `KeywordLaws`, `TokenLaws`, `WordLaws`, `EndLaws`,
  `TextLaws`: what the lexer promises, proved about `Scanner` and so, through
  the method contracts, about the class. `WordLaws` follows a code point
  `U+XXXX`, a keyword and `alt-is-meta` from the first byte of a token to the
  value `Get` returns. `TextLaws` states which leaves hold exactly the input
  they were read from.

Input and output: `NewLexer` takes an `io.Reader`. Here the constructor takes
the whole input as a byte sequence, and the reader's position is `pos`.
`Peek(1)` is `input[pos]` when a byte is left. A failed `Peek` at the end of
input, which panics in the source, is the error `UnexpectedEnd`.

### Where the code differs from its description

The model follows the code in each of these points.

- Line continuation at the start of a token. A backslash and a newline with
  an empty buffer are not dropped. The character-literal rule fires first,
  at a buffer of one byte, and returns `Char("\n")`
  (`TokenLaws.ContinuationAtTokenStart`). Inside a token the pair is dropped
  (`TokenLaws.ContinuationInvisible`).
- Lookahead at the end of input. A hex numeral, `alt`, `string`, `shift` or
  `0` as the last bytes of the input reach `Peek(1)` at the end, and it
  panics. So each is an error, not a token.
- Words with no rule. In Normal mode a word that is no keyword has no rule,
  so the buffer grows until the end of input. There `Get` reports a syntax
  error (`EndLaws.EndWithBuffer`). A code point with fewer than four hex
  digits is such a word (`WordLaws.UnicodeCutShort`).
- Value-mode identifiers. An identifier in Value mode is returned only when a
  blank or a newline follows it. At the end of input it is a syntax error
  (`TokenLaws.ValueLiteral`).
- `include` has one spelling. Matching is not case-insensitive: `KeyCode` is
  a keyword, `kEYCODE` is not.
- `alt_is_meta` and `alt-is-meta` starting with `alt`, `Alt` or `ALT` never
  reach the alt-is-meta pattern. The `alt` case returns first, because the
  byte after it (`-` or `_`) is not `g` (`TokenLaws.AltShadowsAltIsMeta`,
  `WordLaws.AltIsMetaShadowed`). Only spellings such as `aLt_is_meta` become
  `AltIsMeta` (`WordLaws.AltIsMetaToken`).
- The Value-mode guard of `control` (lexer/lexer.go:237-239) cannot fire.
  Value mode has already continued or returned before the keyword switch.
  The model keeps the guard as written in `Scanner.CaseRule`.
- Escapes in a quoted string. Only `\n` decodes to a newline. Every other
  `\c` is `c`, octal escapes included.
- The string length limit. The limit of 512 decoded bytes is checked after
  the whole string is read.
- Character literals. A character literal is one byte that is not an octal
  digit, or one to three octal digits followed by the byte that is pushed
  back. The input must not end before that byte.
- Token text can be empty. `getString` drops both quotes after the loop
  (lexer/lexer.go:136), so `""` is a String leaf with no bytes
  (`TextLaws.EmptyString`; `LiteralLaws.StringStepDecodes` with an empty
  body).
- The leaves do not give back the input. Three things break the round trip:
  - a quoted string is decoded and loses its quotes (lexer/lexer.go:121-136);
  - a character literal `\c` loses its backslash (lexer/lexer.go:300-305);
  - in Normal mode a word that is no keyword never becomes a leaf, and the
    call ends in the syntax error of lexer/lexer.go:321.

  Every other leaf is exactly the input it was read from, when the input has
  no line continuation (`TextLaws.TokenText`).

## Model

| member | source | states |
|---|---|---|
| Bytes.IsOcta | lexer/lexer.go:26-28 | the octal-digit test, as a predicate; the bytes it accepts are stated by ByteClasses |
| Bytes.IsHex | lexer/lexer.go:30-32 | the hex-digit test, as a predicate; the bytes it accepts are stated by ByteClasses |
| Bytes.MatchesAltIsMeta | lexer/lexer.go:21 | the anchored alt-is-meta pattern: eleven bytes, each in its class |
| Bytes.MatchesHex | lexer/lexer.go:22 | the anchored hex pattern: `0`, `x` or `X`, then one or more hex digits |
| Bytes.MatchesUnicode | lexer/lexer.go:23 | the anchored code-point pattern: `U+` and exactly four hex digits |
| Bytes.MatchesLiteral | lexer/lexer.go:24 | the anchored identifier pattern: a letter, then letters, `_` and digits |
| Bytes.ByteClasses | lexer/lexer.go:26-32 | isOcta accepts exactly the bytes 0..7; isHex accepts exactly 0..9, a..f, A..F |
| Bytes.HexExtends | lexer/lexer.go:22 | a buffer that matches `^0[xX][0-9a-fA-F]+$` still matches after a byte is appended iff that byte is a hex digit |
| Bytes.PatternsDisjoint | lexer/lexer.go:21-24 | no buffer matches two of the Unicode, hex and identifier patterns; alt-is-meta is neither hex nor Unicode |
| Leaves.Ordinal | lexer/leaf.go:13-52 | every kind has an ordinal below 38, and the kind is recovered from it |
| Leaves.OrdinalsConsecutive | lexer/leaf.go:13-52 | each of 0..37 is the ordinal of exactly one kind: the ordinals are consecutive from Unknown = 0 and the set is closed |
| Leaves.OrdinalInjective | lexer/leaf.go:13-52 | different kinds have different ordinals |
| Leaves.MarshalText | lexer/leaf.go:69-71 | the text is the leaf's data, byte for byte, and the error is always nil |
| Leaves.DebugView | lexer/leaf.go:73-82 | the record's Type is "Leaf" for every kind, and its Kind and Data are the leaf's |
| Leaves.DebugViewFaithful | lexer/leaf.go:55-59 | the record determines the leaf and equals it field for field; the text rendering equals the record's Data |
| Scanner.ReadStep | lexer/lexer.go:51-58 | a read with a byte left advances the cursor by one and appends exactly that byte; input and mode are kept |
| Scanner.UnreadStep | lexer/lexer.go:60-67 | a push-back steps the cursor back one and drops exactly the last buffered byte; input and mode are kept |
| Scanner.ReadThenUnread | lexer/lexer.go:51-67 | a push-back right after a read restores the state; a peek sees the byte a read would append |
| Scanner.PeekAt | lexer/lexer.go:167-170 | Peek(1) yields a byte iff one is left, and it is the byte a read would append |
| Scanner.ConsumeStep | lexer/lexer.go:69-76 | the leaf has the given kind and the whole buffer as data; the buffer is then empty and cursor, input and mode are kept |
| Scanner.RunEnd | lexer/lexer.go:83-95 | the run of bytes satisfying f ends at the first byte that fails f, or at the end of input |
| Scanner.RunEndUnique | lexer/lexer.go:83-95 | the run end is unique: any position from which every byte up to it passes f, and which is the end of input or a byte failing f, is RunEnd |
| Scanner.ConsumeRunStep | lexer/lexer.go:78-97 | consumeFunc keeps the input and the mode and never moves the cursor back; where its run ends is stated by RunEnd, and its tokens by `TokenLaws.SpaceRun`, `TokenLaws.CommentRun` and `TokenLaws.DecimalRun` |
| Scanner.StringStep | lexer/lexer.go:111-114 | getString keeps the input and the mode and never moves the cursor back |
| Scanner.Unescaped | lexer/lexer.go:126-130 | only `\n` decodes to a newline, and every other escaped byte stands for itself |
| Scanner.StringLoop | lexer/lexer.go:115-135 | the decoding loop keeps the input and the mode and only moves the cursor forward |
| Scanner.StringClose | lexer/lexer.go:136-141 | the quotes are dropped; a body of 512 bytes or more is the too-long error on the body, any shorter one a String leaf of it with the buffer emptied; cursor, input and mode are kept |
| Scanner.CharStep | lexer/lexer.go:300-306 | the `\` branch keeps the input and the mode and never moves the cursor back |
| Scanner.OctalLoop | lexer/lexer.go:308-318 | the octal loop moves the cursor back by at most the one byte it pushes back |
| Scanner.Guarded | lexer/lexer.go:193-199 | a guarded case fails iff Peek finds the end of input, and returns its keyword iff the next byte does not postpone it |
| Scanner.CaseRule | lexer/lexer.go:188-260 | a case yields only its own keyword, fails only by a peek at the end of input, and every unguarded case (control outside Value mode included) returns its keyword |
| Scanner.SwitchFrom | lexer/lexer.go:188-260 | the switch yields a keyword only from its remaining cases and only for one of that keyword's spellings |
| Scanner.SwitchCases | lexer/lexer.go:188-260 | the switch has 22 keyword cases, and the kinds with a case are exactly those with spellings (`Spellings`, the spellings each case lists, and `SwitchOrder`, the cases in the switch's order); only alt, string and shift have postponing bytes (`Postponers`, lexer/lexer.go:197, 208 and 220) |
| Scanner.SwitchMember | lexer/lexer.go:188-260 | for one kind: it has a case in the switch exactly when `Spellings` lists a spelling for it |
| Scanner.KeywordRule | lexer/lexer.go:188-260 | the whole switch yields only one of its 22 keywords, for one of its spellings |
| Scanner.KeywordMode | lexer/lexer.go:189-259 | the mode after a keyword is Value iff it is string or to, or Value was kept; it is Include iff it is include, or Include was kept |
| Scanner.Advance | lexer/lexer.go:156-319 | an iteration that goes on reading keeps the cursor, input and mode; one that returns leaves the cursor at most one byte back |
| Scanner.Accumulate | lexer/lexer.go:156-267 | the rules for a buffer of two bytes or more keep that frame |
| Scanner.Single | lexer/lexer.go:269-319 | the single-byte switch keeps that frame |
| Scanner.NextToken | lexer/lexer.go:144-322 | Get keeps the input and never moves the cursor back |
| Scanner.NextTokenContinues | lexer/lexer.go:145-160 | an iteration that goes on reading continues as the call from its new state |
| Scanner.NextTokenReturns | lexer/lexer.go:145-154 | an iteration that returns decides the call |
| Lexer.Lexer.constructor | lexer/lexer.go:34-38 | a new lexer is at the start of its input, in Normal mode, with an empty buffer |
| Lexer.Lexer.SetState | lexer/lexer.go:46-49 | only the mode changes, to the given one |
| Lexer.Lexer.Read | lexer/lexer.go:51-58 | succeeds iff a byte is left; then it appends exactly the next input byte and advances the cursor by one; otherwise nothing changes |
| Lexer.Lexer.Unread | lexer/lexer.go:60-67 | succeeds iff the cursor is not at the start; then it removes exactly the last buffered byte and steps the cursor back one; otherwise nothing changes |
| Lexer.Lexer.Consume | lexer/lexer.go:69-76 | the leaf has the given kind and the whole buffer as data; the buffer is then empty, and the cursor and mode are unchanged |
| Lexer.Lexer.ReadRun | lexer/lexer.go:83-95 | the cursor ends at the end of the run of bytes satisfying f, and that run is appended to the buffer |
| Lexer.Lexer.ConsumeFunc | lexer/lexer.go:78-97 | fails with "nothing consumed" when the last buffered byte fails f; otherwise returns the buffer extended by the run, as ConsumeRunStep prescribes |
| Lexer.Lexer.ConsumeWhile | lexer/lexer.go:99-103 | consumeFunc with the test "occurs in bs" |
| Lexer.Lexer.ConsumeUntil | lexer/lexer.go:105-109 | consumeFunc with the test "does not occur in bs" |
| Lexer.Lexer.GetString | lexer/lexer.go:111-142 | result and new state are those of StringStep; what that decodes is `LiteralLaws.StringStepDecodes` |
| Lexer.Lexer.DecodeTurn | lexer/lexer.go:116-134 | one turn of the decoding loop: fails at the end of input, ends at the closing quote, or reads on, in each case as StringLoop does |
| Lexer.Lexer.ReadCharLiteral | lexer/lexer.go:300-318 | result and new state are those of CharStep; what that reads is `LiteralLaws.CharStepReads` |
| Lexer.Lexer.ReadOctal | lexer/lexer.go:308-318 | result and new state are those of OctalLoop from counter 0 |
| Lexer.Lexer.MatchBuffer | lexer/lexer.go:156-267 | returns exactly when Accumulate returns, with its result and state; otherwise leaves the state Accumulate continues with |
| Lexer.Lexer.MatchByte | lexer/lexer.go:269-319 | the same for Single |
| Lexer.Lexer.Turn | lexer/lexer.go:145-320 | one iteration of Get's loop: at the end of input nothing changes; otherwise it returns Get's result or moves forward without changing what Get returns |
| Lexer.Lexer.Get | lexer/lexer.go:144-322 | the result and the new state are those NextToken prescribes |
| Lexer.Lexer.Peek | lexer/lexer.go:167-170 | Peek(1) yields a byte iff one is left, and it is the next input byte; nothing changes |
| LiteralLaws.EscapeByte | lexer/lexer.go:121-131 | newline, quote and backslash are written as two-byte escapes that decode back to them; every other byte is written as itself |
| LiteralLaws.StringStepDecodes | lexer/lexer.go:111-142 | on a quote, a body and a closing quote, getString returns the decoded bytes without the quotes, and fails when they hold 512 bytes or more; the body may hold any byte other than a quote or backslash and any escape `\c` |
| LiteralLaws.StringStepUnterminated | lexer/lexer.go:115-124 | getString fails at the end of input iff no body followed by a closing quote starts after the opening quote |
| LiteralLaws.StringStepEscaped | lexer/lexer.go:111-142 | a string written by EscapeByte is read back: getString returns exactly the bytes that were escaped |
| LiteralLaws.StringLoopCloses | lexer/lexer.go:132-136 | a quote ends the loop, which then drops the quotes and checks the limit |
| LiteralLaws.StringLoopDecodes | lexer/lexer.go:115-136 | the loop reads any body and its closing quote, appending exactly the decoded bytes |
| LiteralLaws.StringLoopFound | lexer/lexer.go:115-124 | a loop that does not fail at the end of input has read a body and a closing quote |
| LiteralLaws.CharStepReads | lexer/lexer.go:300-318 | the `\` branch fails iff the input ends within at most three octal digits; otherwise it returns as Char the literal's bytes without the backslash: one non-octal byte or one to three octal digits, leaving the cursor right after them |
| LiteralLaws.OctalLoopReads | lexer/lexer.go:308-318 | the octal loop from any counter keeps that promise |
| KeywordLaws.SpellingsAreCaseVariants | lexer/lexer.go:188-260 | every spelling of a keyword is its lower-case first spelling with some letters in upper case |
| KeywordLaws.SpellingsDisjoint | lexer/lexer.go:188-260 | no byte string spells two different keywords |
| KeywordLaws.KindOfWordInverts | lexer/lexer.go:188-260 | the lower-case spellings of the 22 keywords are 22 different words |
| KeywordLaws.KeywordRuleMatchesTable | lexer/lexer.go:188-260 | a spelling of keyword k makes the switch act as the case of k does |
| KeywordLaws.KeywordRuleMiss | lexer/lexer.go:188-260 | a byte string that spells no keyword leaves the switch without a keyword |
| KeywordLaws.KeywordRuleSound | lexer/lexer.go:188-260 | the switch yields a keyword only for one of its own spellings, and fails only when the lookahead finds the end of input |
| KeywordLaws.GuardedKeywords | lexer/lexer.go:192-223 | alt, string and shift are returned iff a next byte exists and is not g/G, s/S and r/R/l/L; at the end of input they fail |
| KeywordLaws.HeadPairs | lexer/lexer.go:188-260 | when one keyword's first spelling is shorter than another's and shares its first two bytes, it is alt before altgr, string before strings, or shift before shiftl or shiftr |
| KeywordLaws.PostponersContinue | lexer/lexer.go:192-223 | every byte that postpones alt, string or shift carries one of its spellings on into a spelling of a longer keyword (altgr, strings, shiftl, shiftr), so no postponement is spurious |
| KeywordLaws.PrefixPostponed | lexer/lexer.go:192-223 | a proper prefix of a keyword spelling that is itself a spelling is alt, string or shift, and the keyword's next byte postpones it |
| KeywordLaws.PrefixUndecided | lexer/lexer.go:188-260 | the switch decides nothing on a proper prefix of a keyword spelling, two bytes or longer, when the spelling's next byte follows |
| KeywordLaws.MixedCaseInTable | lexer/lexer.go:228-229 | `KeyCode` is the Keycode keyword |
| KeywordLaws.MixedCaseOutsideTable | lexer/lexer.go:228-229 | `kEYCODE` is no keyword |
| KeywordLaws.IncludeLowerCaseOnly | lexer/lexer.go:189-191 | `Include` is no keyword |
| TokenLaws.PunctuationTokens | lexer/lexer.go:274-285 | `-`, `+`, `,`, newline and `=` are one-byte tokens in every mode; newline sets Normal mode, `=` sets Value mode |
| TokenLaws.SpaceRun | lexer/lexer.go:270-271 | a blank starts one Space token holding the whole run of blanks |
| TokenLaws.CommentRun | lexer/lexer.go:272-273 | `#` or `!` starts a Comment token running up to, and not including, the next newline |
| TokenLaws.DecimalRun | lexer/lexer.go:289-299 | a decimal digit, unless it is a 0 before x or X, starts a Number token holding the whole run of decimal digits |
| TokenLaws.ZeroAtEnd | lexer/lexer.go:290-294 | a 0 as the last input byte is an error: the lookahead fails |
| TokenLaws.QuotedString | lexer/lexer.go:286-288 | a quoted string at the start of a token, with any body, is one String token of its decoded bytes, or the too-long error, and leaves Normal mode |
| TokenLaws.UnterminatedString | lexer/lexer.go:286-288 | a quote at the start of a token fails at the end of input iff no closing quote ends a body after it |
| TokenLaws.CharLiteral | lexer/lexer.go:300-318 | a backslash at the start of a token returns what CharStepReads states |
| TokenLaws.ContinuationAtTokenStart | lexer/lexer.go:300-318 | a backslash and a newline at the start of a token are the Char token "\n" |
| TokenLaws.AccumulateContinuation | lexer/lexer.go:157-160 | a buffer ending in a backslash and a newline drops both and reads on |
| TokenLaws.ContinuationInvisible | lexer/lexer.go:157-160 | inside a token a backslash and a newline change nothing: the call goes on as if they were not in the input |
| TokenLaws.AccumulateKeyword | lexer/lexer.go:188-260 | outside Value mode a buffer that spells keyword k is decided by the case of k, which sets the mode k selects |
| TokenLaws.AltShadowsAltIsMeta | lexer/lexer.go:192-200 | `alt`, `Alt` or `ALT` followed by `-` or `_` is the Alt keyword |
| TokenLaws.AccumulateValueEnd | lexer/lexer.go:177-184 | in Value mode a blank after a word is pushed back; an identifier becomes a Literal, anything else the unexpected-spacing error |
| TokenLaws.AccumulateValueWord | lexer/lexer.go:177-186 | in Value mode identifier bytes keep reading |
| TokenLaws.ValueLiteral | lexer/lexer.go:177-186 | in Value mode an identifier followed by a blank or newline is one Literal token; at the end of input it is a syntax error |
| TokenLaws.AccumulateHex | lexer/lexer.go:166-175 | a hex numeral in the buffer grows on a hex digit, ends as a Number before any other byte, and fails at the end of input |
| TokenLaws.HexNumeral | lexer/lexer.go:166-175 | a maximal hex numeral at the start of a token is one Number token, in every mode, and the byte after it stays unread; at the end of input it is an error |
| WordLaws.AccumulateUnicode | lexer/lexer.go:162-164 | a buffer matching the code-point pattern is a Unicode leaf of the whole buffer, in every mode |
| WordLaws.UnicodeLiteral | lexer/lexer.go:162-164 | `U+` and four hex digits at the start of a token are one Unicode token of those six bytes, in every mode and whatever follows |
| WordLaws.UnicodeCutInValue | lexer/lexer.go:177-184 | in Value mode a code point with fewer than four hex digits followed by a blank or newline is the unexpected-spacing error on what was read |
| WordLaws.UnicodeCutShort | lexer/lexer.go:156-321 | outside Value mode a code point cut short by another byte is no token: the call reads to the end of input and fails with a syntax error on a buffer that starts with it |
| WordLaws.KeywordToken | lexer/lexer.go:188-260 | outside Value mode a keyword spelling at the start of a token is one token of that keyword, with the mode the keyword selects; alt, string and shift at the end of input fail |
| WordLaws.AccumulateAltIsMeta | lexer/lexer.go:262-264 | outside Value mode a buffer matching the alt-is-meta pattern is an AltIsMeta leaf of the whole buffer |
| WordLaws.AltIsMetaToken | lexer/lexer.go:262-264 | outside Value mode, alt-is-meta at the start of a token whose first three bytes are not a spelling of alt is one AltIsMeta token of eleven bytes |
| WordLaws.AltIsMetaShadowed | lexer/lexer.go:192-200 | when its first three bytes spell alt, alt-is-meta at the start of a token is the Alt token of those three bytes |
| EndLaws.InsideToken | lexer/lexer.go:144-322 | once a token has begun (and not with a backslash), Get never returns the end marker |
| EndLaws.EndMarker | lexer/lexer.go:146-152 | between tokens, Get returns the end marker iff the input is exhausted |
| EndLaws.StringLoopNeverEnds | lexer/lexer.go:115-142 | getString's loop returns a token or an error, never the end marker |
| EndLaws.OctalLoopNeverEnds | lexer/lexer.go:308-318 | the octal loop returns a token or an error, never the end marker |
| EndLaws.EndWithBuffer | lexer/lexer.go:146-149 | at the end of input with bytes in the buffer, Get fails with a syntax error naming the mode and the buffer |
| TextLaws.TokenText | lexer/lexer.go:144-321 | between tokens, on an input without line continuations, a leaf other than a String or a Char holds exactly the input from the cursor to the cursor the call leaves |
| TextLaws.NextTokenText | lexer/lexer.go:144-321 | the same for a call whose buffer already holds the input from some earlier byte up to the cursor: the leaf is the input from that byte on |
| TextLaws.AccumulateText | lexer/lexer.go:155-266 | the rules for a buffer of several bytes keep the state when they go on, and a leaf they return is the buffer, or in Value mode the buffer without the blank pushed back |
| TextLaws.AccumulateValueText | lexer/lexer.go:177-186 | in Value mode the identifier leaf is the input up to the byte before the blank |
| TextLaws.AccumulateWordText | lexer/lexer.go:155-266 | outside Value mode every leaf of these rules is the whole buffer |
| TextLaws.SingleText | lexer/lexer.go:269-319 | the single-byte switch keeps the state when it goes on, and a leaf it returns, other than a String or a Char, is the byte and the run read after it |
| TextLaws.SingleRunText | lexer/lexer.go:269-298 | a blank, comment or decimal leaf is the run of input that starts at its first byte |
| TextLaws.SingleQuotedText | lexer/lexer.go:286-318 | after a quote or a backslash the only leaves are String and Char |
| TextLaws.ConsumeRunText | lexer/lexer.go:78-109 | consumeFunc's leaf is the buffered byte followed by the run it reads |
| TextLaws.StringLoopKind | lexer/lexer.go:115-142 | getString's loop returns no leaf other than a String |
| TextLaws.OctalLoopKind | lexer/lexer.go:308-318 | the octal loop returns no leaf other than a Char |
| TextLaws.EmptyString | lexer/lexer.go:136 | `""` is a String leaf with no bytes, and the cursor moves past both quotes |

## Left out

- The reader is a byte sequence with a cursor. The buffering of `bufio` is
  not modelled, and neither is its rule that `UnreadByte` must follow a read.
  Every call site in the lexer pushes back right after a successful read.
- Stream errors other than the end of input cannot occur, because the input
  is a sequence.
- Panics become results: `NothingConsumed`, `ExpectedQuote`, `UnexpectedEnd`,
  `StringTooLong` and `UnexpectedSpacing`. The call stops there, and its
  state is returned with the error.
- The error message of `Get` at line 321 is `Syntax(mode, buffer)`, not its
  formatted text (`fmt.Errorf`).
- The four regular expressions are hand-written predicates. The regexp
  engine is left out, and so is UTF-8: the lexer works on bytes.
- `Kind.String()` is generated code that is not part of this model. The
  debug record holds the kind itself where the source puts its name, and
  `encoding/json` is left out.
- `parser/y.go` and `kbd.go` are not part of this model. They are a stub
  grammar and the command-line driver (files, flags, printing).
- The Include mode is set but never read by the lexer. The kinds Escaped,
  Quote and Strval are never produced. Both are carried along unchanged.
- Peek: `Lexer.Lexer.Peek` is a function of the state, because `Peek(1)` changes
  nothing the lexer can observe.
- Scanner.NextToken: its own contract states only the frame. What it
  returns from the start of a token is stated by the token lemmas of
  `TokenLaws` (blanks, comments, punctuation, quoted strings, decimal and
  hex numerals, character literals, Value-mode identifiers), of `WordLaws`
  (code points, keywords, alt-is-meta) and by `EndLaws`.
- Scanner.Accumulate, Scanner.Single: their own contracts state only the
  frame. Their rules are stated one by one by the `Accumulate…` and
  `Single…` lemmas of `TokenLaws` and `WordLaws`.
- Scanner.StringStep, Scanner.StringLoop: their own contracts state only the
  frame. Decoding is stated by `LiteralLaws.StringStepDecodes` and the
  failure at the end of input by `LiteralLaws.StringStepUnterminated`.
- Scanner.CharStep, Scanner.OctalLoop: their own contracts state only the
  frame. Reading is stated by `LiteralLaws.CharStepReads`.
- TextLaws.TokenText: holds only on an input without line continuations.
  A backslash and a newline inside a token are dropped from the leaf, so
  there the leaf is shorter than the input it was read from. It is stated one
  call at a time, not for the concatenation of a whole run of calls.
- A Normal-mode word that is no keyword, such as `foo`, is not followed
  byte by byte to the end of input. The keyword switch's side is stated by
  `KeywordLaws.KeywordRuleMiss`, the end by `EndLaws.EndWithBuffer`, and the
  whole path only for a code point cut short (`WordLaws.UnicodeCutShort`).
