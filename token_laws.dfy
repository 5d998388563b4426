/**
 * Laws of Get as a whole (NextToken): what a call returns from the start of
 * a token, for every kind of token the single-byte switch begins, and how
 * the end of input and the line continuation behave.
 */
module TokenLaws {
  import opened Wrappers
  import opened Bytes
  import opened Leaves
  import opened Scanner
  import opened LiteralLaws
  import opened KeywordLaws

  /** The state after the first read of a token. */
  function First(s: Scan): (t: Scan)
    requires s.Valid() && s.pos < |s.input|
    ensures t.Valid() && t.pos > 0 && |t.buf| == 1 && t.buf[0] == s.input[s.pos]
    ensures s.buf == [] ==> t == Scan(s.input, s.pos + 1, s.buf + [s.input[s.pos]], s.mode)
  {
    Scan(s.input, s.pos + 1, [s.input[s.pos]], s.mode)
  }

  /** The kind of a one-byte token. */
  function PunctuationKind(c: byte): Option<Kind> {
    if c == '-' then Some(Dash)
    else if c == '+' then Some(Plus)
    else if c == ',' then Some(Comma)
    else if c == '\n' then Some(NewLine)
    else if c == '=' then Some(Equals)
    else None
  }

  /** The mode after a one-byte token: a newline starts a new line in Normal
      mode, an equals sign starts a value. */
  function PunctuationMode(c: byte, mode: Mode): Mode {
    if c == '\n' then StateNormal else if c == '=' then StateValue else mode
  }

  /** `-`, `+`, `,`, newline and `=` are tokens of one byte, in every mode. */
  lemma PunctuationTokens(s: Scan)
    requires s.Valid() && s.buf == [] && s.pos < |s.input|
    requires PunctuationKind(s.input[s.pos]).Some?
    ensures var c := s.input[s.pos];
      NextToken(s) == Step(Token(Leaf(PunctuationKind(c).value, [c])),
                           Scan(s.input, s.pos + 1, [], PunctuationMode(c, s.mode)))
  {
    var c := s.input[s.pos];
    var r := Step(Token(Leaf(PunctuationKind(c).value, [c])), Scan(s.input, s.pos + 1, [], PunctuationMode(c, s.mode)));
    SinglePunctuation(s, r);
    NextTokenReturns(s, First(s), r);
  }

  lemma SinglePunctuation(s: Scan, r: Step)
    requires s.Valid() && s.pos < |s.input|
    requires PunctuationKind(s.input[s.pos]).Some?
    requires var c := s.input[s.pos];
      r == Step(Token(Leaf(PunctuationKind(c).value, [c])), Scan(s.input, s.pos + 1, [], PunctuationMode(c, s.mode)))
    ensures Single(First(s)) == Return(r)
  {
  }

  /** A run of blanks (space, tab, carriage return) is one Space token, as
      long as the run. */
  lemma SpaceRun(s: Scan)
    requires s.Valid() && s.buf == [] && s.pos < |s.input| && s.input[s.pos] in " \t\r"
    ensures var j := RunEnd(x => x in " \t\r", s.input, s.pos + 1);
      NextToken(s) == Step(Token(Leaf(Space, s.input[s.pos..j])), s.(pos := j))
  {
    var j := RunEnd(x => x in " \t\r", s.input, s.pos + 1);
    SingleSpace(s, j);
    NextTokenReturns(s, First(s), Step(Token(Leaf(Space, s.input[s.pos..j])), s.(pos := j)));
  }

  /** `#` or `!` starts a Comment token that runs up to, and not including,
      the next newline or the end of input. */
  lemma CommentRun(s: Scan)
    requires s.Valid() && s.buf == [] && s.pos < |s.input| && s.input[s.pos] in "#!"
    ensures var j := RunEnd(x => x !in "\n", s.input, s.pos + 1);
      NextToken(s) == Step(Token(Leaf(Comment, s.input[s.pos..j])), s.(pos := j))
  {
    var j := RunEnd(x => x !in "\n", s.input, s.pos + 1);
    SingleComment(s, j);
    NextTokenReturns(s, First(s), Step(Token(Leaf(Comment, s.input[s.pos..j])), s.(pos := j)));
  }

  /** A decimal digit other than a 0 that starts a hex numeral begins a
      Number token holding the whole run of decimal digits. */
  lemma DecimalRun(s: Scan)
    requires s.Valid() && s.buf == [] && s.pos < |s.input| && IsDigit(s.input[s.pos])
    requires s.input[s.pos] != '0' || (s.pos + 1 < |s.input| && s.input[s.pos + 1] !in "xX")
    ensures var j := RunEnd(x => x in "0123456789", s.input, s.pos + 1);
      NextToken(s) == Step(Token(Leaf(Number, s.input[s.pos..j])), s.(pos := j))
  {
    var j := RunEnd(x => x in "0123456789", s.input, s.pos + 1);
    SingleDecimal(s, j);
    NextTokenReturns(s, First(s), Step(Token(Leaf(Number, s.input[s.pos..j])), s.(pos := j)));
  }

  /** A 0 as the last byte of the input is an error: the lookahead for x
      finds nothing. */
  lemma ZeroAtEnd(s: Scan)
    requires s.Valid() && s.buf == [] && s.pos + 1 == |s.input| && s.input[s.pos] == '0'
    ensures NextToken(s) == Step(Failed(UnexpectedEnd), Scan(s.input, s.pos + 1, ['0'], s.mode))
  {
    NextTokenReturns(s, First(s), Step(Failed(UnexpectedEnd), First(s)));
  }

  /** getString from the opening quote, in Normal mode. */
  lemma SingleQuoted(s: Scan, d: seq<byte>, q: nat)
    requires s.Valid() && s.buf == [] && s.pos < |s.input| && s.input[s.pos] == '"'
    requires Terminated(s.input, s.pos + 1, d, q)
    ensures Single(First(s)) == Return(
      if |d| >= MaxString then Step(Failed(StringTooLong(d)), Scan(s.input, q + 1, d, StateNormal))
      else Step(Token(Leaf(String, d)), Scan(s.input, q + 1, [], StateNormal)))
  {
    StringStepDecodes(First(s).(mode := StateNormal), d, q);
  }

  /** A quoted string at the start of a token is one String token holding
      the decoded bytes, and it leaves the lexer in Normal mode; a decoded
      value of MaxString bytes or more is an error. */
  lemma QuotedString(s: Scan, d: seq<byte>, q: nat)
    requires s.Valid() && s.buf == [] && s.pos < |s.input| && s.input[s.pos] == '"'
    requires Terminated(s.input, s.pos + 1, d, q)
    ensures NextToken(s) ==
      if |d| >= MaxString then Step(Failed(StringTooLong(d)), Scan(s.input, q + 1, d, StateNormal))
      else Step(Token(Leaf(String, d)), Scan(s.input, q + 1, [], StateNormal))
  {
    SingleQuoted(s, d, q);
    NextTokenReturns(s, First(s), Single(First(s)).r);
  }

  /** An opening quote at the start of a token fails on the end of input
      exactly when the string is unterminated. */
  lemma UnterminatedString(s: Scan)
    requires s.Valid() && s.buf == [] && s.pos < |s.input| && s.input[s.pos] == '"'
    ensures NextToken(s).out == Failed(UnexpectedEnd) <==> Unterminated(s.input, s.pos + 1)
  {
    var t := First(s).(mode := StateNormal);
    StringStepUnterminated(t);
    SingleQuote(s);
    NextTokenReturns(s, First(s), StringStep(t));
  }

  lemma SingleQuote(s: Scan)
    requires s.Valid() && s.pos < |s.input| && s.input[s.pos] == '"'
    ensures Single(First(s)) == Return(StringStep(First(s).(mode := StateNormal)))
  {
  }

  /** A backslash at the start of a token begins a character literal, read
      as CharStepReads states from the byte after the backslash. */
  lemma CharLiteral(s: Scan)
    requires s.Valid() && s.buf == [] && s.pos < |s.input| && s.input[s.pos] == '\\'
    ensures CharResult(s.input, s.pos + 1, First(s), NextToken(s))
  {
    var t := First(s);
    assert t.input == s.input && t.pos == s.pos + 1;
    CharStepReads(t);
    CharFirst(s, CharStep(t));
  }

  /** The first iteration on a backslash is the whole call. */
  lemma CharFirst(s: Scan, r: Step)
    requires s.Valid() && s.buf == [] && s.pos < |s.input| && s.input[s.pos] == '\\'
    requires r == CharStep(First(s))
    ensures NextToken(s) == r
  {
    SingleBackslash(s);
    NextTokenReturns(s, First(s), r);
  }

  lemma SingleBackslash(s: Scan)
    requires s.Valid() && s.pos < |s.input| && s.input[s.pos] == '\\'
    ensures Single(First(s)) == Return(CharStep(First(s)))
  {
  }

  /** A line continuation at the start of a token is not a continuation: it
      is the character literal newline. */
  lemma ContinuationAtTokenStart(s: Scan)
    requires s.Valid() && s.buf == [] && s.pos + 1 < |s.input|
    requires s.input[s.pos] == '\\' && s.input[s.pos + 1] == '\n'
    ensures NextToken(s) == Step(Token(Leaf(Char, "\n")), s.(pos := s.pos + 2))
  {
    var t := First(s);
    CharStepReads(t);
    var r := CharStep(t);
    assert CharLiteralAt(s.input, s.pos + 1, r.next.pos);
    assert s.input[s.pos + 1..s.pos + 2] == "\n";
    SingleBackslash(s);
    NextTokenReturns(s, First(s), r);
  }

  lemma SingleSpace(s: Scan, j: nat)
    requires s.Valid() && s.pos < |s.input| && s.input[s.pos] in " \t\r"
    requires j == RunEnd(x => x in " \t\r", s.input, s.pos + 1)
    ensures Single(First(s)) == Return(Step(Token(Leaf(Space, s.input[s.pos..j])), s.(pos := j, buf := [])))
  {
    assert [s.input[s.pos]] + s.input[s.pos + 1..j] == s.input[s.pos..j];
  }

  lemma SingleComment(s: Scan, j: nat)
    requires s.Valid() && s.pos < |s.input| && s.input[s.pos] in "#!"
    requires j == RunEnd(x => x !in "\n", s.input, s.pos + 1)
    ensures Single(First(s)) == Return(Step(Token(Leaf(Comment, s.input[s.pos..j])), s.(pos := j, buf := [])))
  {
    assert [s.input[s.pos]] + s.input[s.pos + 1..j] == s.input[s.pos..j];
  }

  lemma SingleDecimal(s: Scan, j: nat)
    requires s.Valid() && s.pos < |s.input| && IsDigit(s.input[s.pos])
    requires s.input[s.pos] != '0' || (s.pos + 1 < |s.input| && s.input[s.pos + 1] !in "xX")
    requires j == RunEnd(x => x in "0123456789", s.input, s.pos + 1)
    ensures Single(First(s)) == Return(Step(Token(Leaf(Number, s.input[s.pos..j])), s.(pos := j, buf := [])))
  {
    var t := Scan(s.input, s.pos + 1, [s.input[s.pos]], s.mode);
    var r := Step(Token(Leaf(Number, s.input[s.pos..j])), s.(pos := j, buf := []));
    assert ConsumeRunStep(t, x => x in "0123456789", Number) == r by {
      assert [s.input[s.pos]] + s.input[s.pos + 1..j] == s.input[s.pos..j];
    }
    SingleDigit(t, r);
    assert First(s) == t;
  }

  /** The digit case of the single-byte switch, once its run is known. */
  lemma SingleDigit(t: Scan, r: Step)
    requires t.Valid() && t.pos > 0 && |t.buf| == 1 && IsDigit(t.buf[0])
    requires t.buf[0] != '0' || (t.pos < |t.input| && t.input[t.pos] !in "xX")
    requires ConsumeRunStep(t, x => x in "0123456789", Number) == r
    ensures Single(t) == Return(r)
  {
    if t.buf[0] == '0' {
      assert PeekAt(t) == Some(t.input[t.pos]);
    }
  }

  /** A byte string holding a byte that is not a letter spells no keyword. */
  lemma NotSpelled(b: seq<byte>, i: nat)
    requires i < |b| && !IsLetter(b[i])
    ensures forall k :: b !in Spellings(k)
  {
    forall k | b in Spellings(k)
      ensures false
    {
      var x :| 0 <= x < |Spellings(k)| && Spellings(k)[x] == b;
      SpellingsAreCaseVariants(k, x);
    }
  }

  /** ... so the keyword switch breaks out on it. */
  lemma NoKeywordAt(b: seq<byte>, i: nat, mode: Mode, next: Option<byte>)
    requires i < |b| && !IsLetter(b[i])
    ensures KeywordRule(b, mode, next) == NoKeyword
  {
    NotSpelled(b, i);
    KeywordRuleMiss(b, mode, next);
  }

  /** A buffer of two or more bytes ending in a backslash keeps reading. */
  lemma AccumulateBackslash(t: Scan)
    requires t.Valid() && t.pos > 0 && |t.buf| > 1 && t.buf[|t.buf| - 1] == '\\'
    ensures Accumulate(t) == Continue(t)
  {
    var b := t.buf;
    assert !IsHex(b[|b| - 1]);
    assert !MatchesUnicode(b) && !MatchesHex(b) && !MatchesAltIsMeta(b);
    if t.mode != StateValue {
      NoKeywordAt(b, |b| - 1, t.mode, PeekAt(t));
    }
  }

  /** A buffer of two or more bytes ending in a line continuation drops it. */
  lemma AccumulateContinuation(t: Scan)
    requires t.Valid() && t.pos > 0 && |t.buf| > 2
    requires t.buf[|t.buf| - 2] == '\\' && t.buf[|t.buf| - 1] == '\n'
    ensures Accumulate(t) == Continue(t.(buf := t.buf[..|t.buf| - 2]))
  {
  }

  /** Inside a token, a backslash followed by a newline is invisible: the
      call goes on as if the two bytes were not there. */
  lemma ContinuationInvisible(s: Scan)
    requires s.Valid() && s.buf != [] && s.pos + 1 < |s.input|
    requires s.input[s.pos] == '\\' && s.input[s.pos + 1] == '\n'
    ensures NextToken(s) == NextToken(s.(pos := s.pos + 2))
  {
    var t1 := Scan(s.input, s.pos + 1, s.buf + ['\\'], s.mode);
    AccumulateBackslash(t1);
    NextTokenContinues(s, t1, t1);
    var t2 := Scan(s.input, s.pos + 2, s.buf + ['\\', '\n'], s.mode);
    assert t2 == Scan(t1.input, t1.pos + 1, t1.buf + [t1.input[t1.pos]], t1.mode);
    AccumulateContinuation(t2);
    assert t2.buf[..|t2.buf| - 2] == s.buf;
    NextTokenContinues(t1, t2, s.(pos := s.pos + 2));
  }

  /** Every keyword spelling has two to nine bytes. */
  lemma SpellingLength(k: Kind, b: seq<byte>)
    requires b in Spellings(k)
    ensures 2 <= |b| <= 9
  {
    var x :| 0 <= x < |Spellings(k)| && Spellings(k)[x] == b;
    SpellingsAreCaseVariants(k, x);
    TableHeadLengths(k);
  }

  lemma TableHeadLengths(k: Kind)
    requires Spellings(k) != []
    ensures 2 <= |Spellings(k)[0]| <= 9
  {
  }

  /** What the keyword switch does with the buffer, given how it ends. */
  function SwitchAction(t: Scan, rule: Rule): Action {
    match rule
    case Keyword(k) => Return(ConsumeStep(t.(mode := KeywordMode(k, t.mode)), k))
    case PeekFailed => Return(Step(Failed(UnexpectedEnd), t))
    case NoKeyword => Continue(t)
  }

  /** A word of letters, shorter than alt-is-meta, outside Value mode reaches
      the keyword switch: no earlier rule applies to it. */
  lemma AccumulateWord(t: Scan)
    requires t.Valid() && t.pos > 0 && t.mode != StateValue
    requires 2 <= |t.buf| <= 9 && IsLetter(t.buf[0]) && IsLetter(t.buf[1]) && IsLetter(t.buf[|t.buf| - 1])
    ensures Accumulate(t) == SwitchAction(t, KeywordRule(t.buf, t.mode, PeekAt(t)))
  {
  }

  /** A buffer that spells keyword k, outside Value mode, is decided by the
      keyword switch as the case of k does. */
  lemma AccumulateKeyword(t: Scan, k: Kind)
    requires t.Valid() && t.pos > 0 && t.mode != StateValue && t.buf in Spellings(k)
    ensures |t.buf| > 1 && Accumulate(t) == SwitchAction(t, CaseRule(k, t.mode, PeekAt(t)))
  {
    var b := t.buf;
    SpellingLength(k, b);
    var x :| 0 <= x < |Spellings(k)| && Spellings(k)[x] == b;
    SpellingsAreCaseVariants(k, x);
    assert IsLetter(b[0]) && IsLetter(b[1]) && IsLetter(b[|b| - 1]);
    AccumulateWord(t);
    KeywordRuleMatchesTable(b, t.mode, PeekAt(t), k);
  }

  /** alt-is-meta spelled with a leading alt, Alt or ALT never reaches its
      pattern: the alt keyword returns first, whenever the next byte is not
      g or G, and a `-` or `_` follows. */
  lemma AltShadowsAltIsMeta(t: Scan)
    requires t.Valid() && t.pos < |t.input| && t.pos > 0 && t.mode != StateValue
    requires t.buf in Spellings(Alt) && t.input[t.pos] in "-_"
    ensures Accumulate(t) == Return(ConsumeStep(t, Alt))
  {
    AccumulateKeyword(t, Alt);
  }

  /** A letter starts no single-byte rule: the lexer goes on reading. */
  lemma SingleLetter(t: Scan)
    requires t.Valid() && t.pos > 0 && |t.buf| == 1 && IsLetter(t.buf[0])
    ensures Single(t) == Continue(t)
  {
  }

  /** In Value mode a buffer of identifier bytes keeps reading. */
  lemma AccumulateValueWord(t: Scan)
    requires t.Valid() && t.pos > 0 && |t.buf| > 1 && t.mode == StateValue
    requires MatchesLiteral(t.buf)
    ensures Accumulate(t) == Continue(t)
  {
    var b := t.buf;
    assert IsLetter(b[0]);
    var c := b[|b| - 1];
    assert IsLetter(c) || c == '_' || IsDigit(c);
    assert !MatchesUnicode(b) by {
      if |b| == 6 {
        assert IsLetter(b[1]) || b[1] == '_' || IsDigit(b[1]);
      }
    }
  }

  /** In Value mode a blank or a newline ends the word in the buffer and
      goes back to the input: an identifier becomes a Literal token, any
      other word is an unexpected-spacing error (unless the newline follows
      a backslash, which is a line continuation). */
  lemma AccumulateValueEnd(t: Scan, b: seq<byte>, w: byte)
    requires t.Valid() && t.pos > 0 && t.mode == StateValue
    requires |b| >= 1 && w in " \t\r\n" && t.buf == b + [w]
    requires !(w == '\n' && b[|b| - 1] == '\\')
    ensures Accumulate(t) == Return(
      if MatchesLiteral(b) then Step(Token(Leaf(Literal, b)), t.(pos := t.pos - 1, buf := []))
      else Step(Failed(UnexpectedSpacing(b)), t.(pos := t.pos - 1, buf := b)))
  {
    assert t.buf[|t.buf| - 2] == b[|b| - 1] && t.buf[|t.buf| - 1] == w;
    assert t.buf[..|t.buf| - 1] == b;
    assert !IsHex(w);
  }

  /** The Value-mode identifier loop: the buffer holds the first bytes of
      the identifier b that starts at `start`. At the end of input the
      buffer is a syntax error; a following blank or newline ends it as a
      Literal token. */
  lemma {:induction false} ValueWordLoop(s: Scan, start: nat, b: seq<byte>)
    requires s.Valid() && s.mode == StateValue && MatchesLiteral(b)
    requires start + |b| <= |s.input| && s.input[start..start + |b|] == b
    requires start + |b| == |s.input| || s.input[start + |b|] in " \t\r\n"
    requires 1 <= |s.buf| <= |b| && s.buf == b[..|s.buf|] && s.pos == start + |s.buf|
    ensures NextToken(s) ==
      if start + |b| == |s.input| then Step(Failed(Syntax(StateValue, b)), s.(pos := |s.input|, buf := b))
      else Step(Token(Leaf(Literal, b)), s.(pos := start + |b|, buf := []))
    decreases |b| - |s.buf|
  {
    var i := |s.buf|;
    if i < |b| {
      assert s.input[s.pos] == b[i];
      var t := Scan(s.input, s.pos + 1, s.buf + [s.input[s.pos]], s.mode);
      assert t.buf == b[..i + 1];
      assert MatchesLiteral(t.buf);
      AccumulateValueWord(t);
      NextTokenContinues(s, t, t);
      ValueWordLoop(t, start, b);
    } else {
      assert s.buf == b;
      if s.pos < |s.input| {
        var t := Scan(s.input, s.pos + 1, s.buf + [s.input[s.pos]], s.mode);
        AccumulateValueEnd(t, b, s.input[s.pos]);
        assert ReadStep(s) == t;
      }
    }
  }

  /** In Value mode an identifier is a Literal token only when a blank or a
      newline follows it; at the end of input it is a syntax error. */
  lemma ValueLiteral(s: Scan, b: seq<byte>)
    requires s.Valid() && s.mode == StateValue && s.buf == [] && MatchesLiteral(b)
    requires s.pos + |b| <= |s.input| && s.input[s.pos..s.pos + |b|] == b
    requires s.pos + |b| == |s.input| || s.input[s.pos + |b|] in " \t\r\n"
    ensures NextToken(s) ==
      if s.pos + |b| == |s.input| then Step(Failed(Syntax(StateValue, b)), s.(pos := |s.input|, buf := b))
      else Step(Token(Leaf(Literal, b)), s.(pos := s.pos + |b|, buf := []))
  {
    assert s.input[s.pos] == b[0];
    var t := First(s);
    SingleLetter(t);
    assert t == Scan(s.input, s.pos + 1, s.buf + [s.input[s.pos]], s.mode);
    NextTokenContinues(s, t, t);
    assert t.buf == b[..1];
    ValueWordLoop(t, s.pos, b);
  }

  /** A 0 followed by x or X keeps reading. */
  lemma SingleZeroX(t: Scan)
    requires t.Valid() && t.pos < |t.input| && t.pos > 0 && t.buf == ['0'] && t.input[t.pos] in "xX"
    ensures Single(t) == Continue(t)
  {
    assert PeekAt(t) == Some(t.input[t.pos]);
  }

  /** `0x` alone is no token yet: in every mode the lexer keeps reading. */
  lemma AccumulateHexPrefix(t: Scan)
    requires t.Valid() && t.pos > 0 && |t.buf| == 2 && t.buf[0] == '0' && t.buf[1] in "xX"
    ensures Accumulate(t) == Continue(t)
  {
    assert !MatchesUnicode(t.buf) && !MatchesHex(t.buf) && !MatchesAltIsMeta(t.buf);
    if t.mode != StateValue {
      NoKeywordAt(t.buf, 0, t.mode, PeekAt(t));
    }
  }

  /** A hex numeral in the buffer: the next byte decides whether it grows,
      ends as a Number token, or, at the end of input, is an error. */
  lemma AccumulateHex(t: Scan)
    requires t.Valid() && t.pos > 0 && MatchesHex(t.buf)
    ensures Accumulate(t) ==
      if t.pos == |t.input| then Return(Step(Failed(UnexpectedEnd), t))
      else if IsHex(t.input[t.pos]) then Continue(t)
      else Return(ConsumeStep(t, Number))
  {
    assert IsHex(t.buf[|t.buf| - 1]);
    assert !MatchesUnicode(t.buf);
  }

  /** Positions of b inside input, from the k-th byte on. */
  lemma SliceAt(input: seq<byte>, start: nat, b: seq<byte>, k: nat)
    requires start + |b| <= |input| && input[start..start + |b|] == b && k < |b|
    ensures input[start + k] == b[k] && b[..k] + [b[k]] == b[..k + 1]
  {
    assert input[start + k] == input[start..start + |b|][k];
  }

  /** A hex digit after a hex numeral in the buffer: keep reading. */
  lemma AdvanceHexMore(t: Scan)
    requires t.Valid() && t.pos > 0 && MatchesHex(t.buf)
    requires t.pos < |t.input| && IsHex(t.input[t.pos])
    ensures Advance(t) == Continue(t)
  {
    AccumulateHex(t);
  }

  /** Anything else after a hex numeral in the buffer ends it: a Number
      token, or at the end of input the failed lookahead. */
  lemma AdvanceHexEnd(t: Scan, r: Step)
    requires t.Valid() && t.pos > 0 && MatchesHex(t.buf)
    requires t.pos == |t.input| || !IsHex(t.input[t.pos])
    requires r == if t.pos == |t.input| then Step(Failed(UnexpectedEnd), t)
      else Step(Token(Leaf(Number, t.buf)), t.(buf := []))
    ensures Advance(t) == Return(r)
  {
    AccumulateHex(t);
  }

  /** The hex loop: the buffer holds the first k bytes of the numeral b
      that starts at `start`, at least `0x`. */
  lemma {:induction false} HexLoop(s: Scan, start: nat, b: seq<byte>, k: nat)
    requires s.Valid() && |b| >= 3 && MatchesHex(b)
    requires start + |b| <= |s.input| && s.input[start..start + |b|] == b
    requires start + |b| == |s.input| || !IsHex(s.input[start + |b|])
    requires 2 <= k < |b| && s.buf == b[..k] && s.pos == start + k
    ensures NextToken(s) ==
      if start + |b| == |s.input| then Step(Failed(UnexpectedEnd), s.(pos := |s.input|, buf := b))
      else Step(Token(Leaf(Number, b)), s.(pos := start + |b|, buf := []))
    decreases |b| - k
  {
    SliceAt(s.input, start, b, k);
    var t := Scan(s.input, s.pos + 1, b[..k + 1], s.mode);
    assert MatchesHex(t.buf) by {
      assert forall i | 2 <= i < |t.buf| :: t.buf[i] == b[i];
    }
    if k + 1 < |b| {
      SliceAt(s.input, start, b, k + 1);
      assert IsHex(b[k + 1]);
      AdvanceHexMore(t);
      NextTokenContinues(s, t, t);
      HexLoop(t, start, b, k + 1);
    } else {
      assert b[..k + 1] == b;
      var r := if start + |b| == |s.input| then Step(Failed(UnexpectedEnd), s.(pos := |s.input|, buf := b))
        else Step(Token(Leaf(Number, b)), s.(pos := start + |b|, buf := []));
      AdvanceHexEnd(t, r);
      NextTokenReturns(s, t, r);
    }
  }

  /** The first two iterations on `0x` or `0X` keep reading. */
  lemma HexPrefixRead(s: Scan, t: Scan)
    requires s.Valid() && s.buf == [] && s.pos + 1 < |s.input|
    requires s.input[s.pos] == '0' && s.input[s.pos + 1] in "xX"
    requires t == Scan(s.input, s.pos + 2, ['0', s.input[s.pos + 1]], s.mode)
    ensures NextToken(s) == NextToken(t)
  {
    var t1 := First(s);
    SingleZeroX(t1);
    assert t1 == Scan(s.input, s.pos + 1, s.buf + [s.input[s.pos]], s.mode);
    NextTokenContinues(s, t1, t1);
    assert t == Scan(t1.input, t1.pos + 1, t1.buf + [t1.input[t1.pos]], t1.mode);
    AccumulateHexPrefix(t);
    NextTokenContinues(t1, t, t);
  }

  /** A hex numeral `0x` or `0X` and hex digits, at the start of a token, is
      one Number token in every mode, once a byte that is not a hex digit
      follows it; at the end of input, the lookahead fails. */
  lemma HexNumeral(s: Scan, b: seq<byte>)
    requires s.Valid() && s.buf == [] && MatchesHex(b)
    requires s.pos + |b| <= |s.input| && s.input[s.pos..s.pos + |b|] == b
    requires s.pos + |b| == |s.input| || !IsHex(s.input[s.pos + |b|])
    ensures NextToken(s) ==
      if s.pos + |b| == |s.input| then Step(Failed(UnexpectedEnd), s.(pos := |s.input|, buf := b))
      else Step(Token(Leaf(Number, b)), s.(pos := s.pos + |b|, buf := []))
  {
    SliceAt(s.input, s.pos, b, 0);
    SliceAt(s.input, s.pos, b, 1);
    var t := Scan(s.input, s.pos + 2, b[..2], s.mode);
    assert b[..2] == ['0', s.input[s.pos + 1]];
    HexLoop(t, s.pos, b, 2);
    HexPrefixRead(s, t);
  }
}
