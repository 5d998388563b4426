/**
 * Laws of Get for the tokens built from several bytes of a word: a Unicode
 * code point U+XXXX, the alt-is-meta keyword, and every keyword of the
 * switch, each read from the start of a token to the call's return.
 */
module WordLaws {
  import opened Wrappers
  import opened Bytes
  import opened Leaves
  import opened Scanner
  import opened KeywordLaws
  import opened TokenLaws

  // ---------------------------------------------------------------------
  // Unicode: U+ and four hex digits
  // ---------------------------------------------------------------------

  /** `U+` and at most three hex digits: the bytes of a code point read so
      far, before the buffer can match the pattern. */
  predicate UnicodeHead(p: seq<byte>) {
    2 <= |p| <= 5 && p[0] == 'U' && p[1] == '+' &&
    forall i | 2 <= i < |p| :: IsHex(p[i])
  }

  /** A code point read so far matches no rule, in every mode: the lexer goes
      on reading. */
  lemma AccumulateUnicodeHead(t: Scan)
    requires t.Valid() && t.pos > 0 && UnicodeHead(t.buf)
    ensures Accumulate(t) == Continue(t)
  {
    var b := t.buf;
    assert b[|b| - 1] == '+' || IsHex(b[|b| - 1]);
    assert !MatchesUnicode(b) && !MatchesHex(b) && !MatchesAltIsMeta(b);
    if t.mode != StateValue {
      NoKeywordAt(b, 1, t.mode, PeekAt(t));
    }
  }

  /** A buffer matching the Unicode pattern is a Unicode token, in every
      mode, whatever follows it. */
  lemma AccumulateUnicode(t: Scan)
    requires t.Valid() && t.pos > 0 && MatchesUnicode(t.buf)
    ensures Accumulate(t) == Return(ConsumeStep(t, Unicode))
  {
    assert IsHex(t.buf[5]);
  }

  /** Reading a code point's first bytes p, from the buffer's first byte on,
      only moves them into the buffer. */
  lemma {:induction false} UnicodeHeadLoop(s: Scan, start: nat, p: seq<byte>)
    requires s.Valid() && UnicodeHead(p)
    requires start + |p| <= |s.input| && s.input[start..start + |p|] == p
    requires 1 <= |s.buf| <= |p| && s.buf == p[..|s.buf|] && s.pos == start + |s.buf|
    ensures NextToken(s) == NextToken(s.(pos := start + |p|, buf := p))
    decreases |p| - |s.buf|
  {
    var i := |s.buf|;
    if i < |p| {
      var t := Scan(s.input, s.pos + 1, p[..i + 1], s.mode);
      assert NextToken(s) == NextToken(t) by {
        SliceAt(s.input, start, p, i);
        assert UnicodeHead(t.buf) by {
          assert forall j | 2 <= j < |t.buf| :: t.buf[j] == p[j];
        }
        AccumulateUnicodeHead(t);
        NextTokenContinues(s, t, t);
      }
      UnicodeHeadLoop(t, start, p);
    } else {
      assert s.buf == p;
    }
  }

  /** A letter at the start of a token only moves into the buffer. */
  lemma LetterStart(s: Scan)
    requires s.Valid() && s.buf == [] && s.pos < |s.input| && IsLetter(s.input[s.pos])
    ensures NextToken(s) == NextToken(First(s))
  {
    SingleLetter(First(s));
    NextTokenContinues(s, First(s), First(s));
  }

  /** From the start of a token, the first bytes p of a code point are read
      into the buffer. */
  lemma UnicodeHeadRead(s: Scan, p: seq<byte>)
    requires s.Valid() && s.buf == [] && UnicodeHead(p)
    requires s.pos + |p| <= |s.input| && s.input[s.pos..s.pos + |p|] == p
    ensures NextToken(s) == NextToken(s.(pos := s.pos + |p|, buf := p))
  {
    var t := Scan(s.input, s.pos + 1, p[..1], s.mode);
    assert NextToken(s) == NextToken(t) by {
      SliceAt(s.input, s.pos, p, 0);
      assert t == First(s);
      LetterStart(s);
    }
    UnicodeHeadLoop(t, s.pos, p);
  }

  /** `U+` and four hex digits at the start of a token is one Unicode token of
      six bytes, in every mode and whatever byte follows. */
  lemma UnicodeLiteral(s: Scan, b: seq<byte>)
    requires s.Valid() && s.buf == [] && MatchesUnicode(b)
    requires s.pos + 6 <= |s.input| && s.input[s.pos..s.pos + 6] == b
    ensures NextToken(s) == Step(Token(Leaf(Unicode, b)), s.(pos := s.pos + 6))
  {
    var p := b[..5];
    assert UnicodeHead(p);
    assert s.input[s.pos..s.pos + 5] == p;
    var u := s.(pos := s.pos + 5, buf := p);
    SliceAt(s.input, s.pos, b, 5);
    var t := Scan(s.input, u.pos + 1, u.buf + [s.input[u.pos]], s.mode);
    assert t.buf == b;
    calc {
      NextToken(s);
    == { UnicodeHeadRead(s, p); }
      NextToken(u);
    == { AccumulateUnicode(t); NextTokenReturns(u, t, ConsumeStep(t, Unicode)); }
      ConsumeStep(t, Unicode);
    }
  }

  /** In Value mode, a code point with fewer than four hex digits followed by
      a blank or a newline is an unexpected-spacing error on what was read. */
  lemma UnicodeCutInValue(s: Scan, p: seq<byte>)
    requires s.Valid() && s.buf == [] && s.mode == StateValue && UnicodeHead(p)
    requires s.pos + |p| < |s.input| && s.input[s.pos..s.pos + |p|] == p
    requires s.input[s.pos + |p|] in " \t\r\n"
    ensures NextToken(s) == Step(Failed(UnexpectedSpacing(p)), s.(pos := s.pos + |p|, buf := p))
  {
    UnicodeHeadRead(s, p);
    var u := s.(pos := s.pos + |p|, buf := p);
    var w := s.input[u.pos];
    var t := Scan(s.input, u.pos + 1, p + [w], s.mode);
    assert p[|p| - 1] == '+' || IsHex(p[|p| - 1]);
    assert !MatchesLiteral(p);
    AccumulateValueEnd(t, p, w);
    NextTokenReturns(u, t, Step(Failed(UnexpectedSpacing(p)), s.(pos := s.pos + |p|, buf := p)));
  }

  /** `U+`, at most three hex digits, then a byte that is neither a hex digit
      nor a backslash: a code point cut short. */
  predicate CutUnicode(q: seq<byte>) {
    3 <= |q| <= 6 && q[0] == 'U' && q[1] == '+' &&
    (forall i | 2 <= i < |q| - 1 :: IsHex(q[i])) &&
    !IsHex(q[|q| - 1]) && q[|q| - 1] != '\\'
  }

  /** No byte of a cut code point after its first is a backslash, so a line
      continuation at the end of a buffer that starts with one lies after it. */
  lemma CutUnicodeContinuation(b: seq<byte>, q: seq<byte>)
    requires CutUnicode(q) && q <= b && b[|b| - 1] == '\n' && b[|b| - 2] == '\\'
    ensures q <= b[..|b| - 2]
  {
  }

  /** Outside Value mode, a buffer that starts with a cut code point matches
      no rule again: the lexer goes on reading, and a line continuation can
      only drop bytes after the cut. */
  lemma AccumulateCutUnicode(t: Scan, q: seq<byte>)
    requires t.Valid() && t.pos > 0 && t.mode != StateValue && CutUnicode(q) && q <= t.buf
    ensures Accumulate(t).Continue? && q <= Accumulate(t).s.buf
  {
    var b, n := t.buf, |t.buf|;
    if b[n - 1] == '\n' && b[n - 2] == '\\' {
      CutUnicodeContinuation(b, q);
      AccumulateContinuation(t);
    } else {
      AccumulateCutPlain(t, q);
    }
  }

  /** ... and without a line continuation, the buffer stays as it is. */
  lemma AccumulateCutPlain(t: Scan, q: seq<byte>)
    requires t.Valid() && t.pos > 0 && t.mode != StateValue && CutUnicode(q) && q <= t.buf
    requires !(t.buf[|t.buf| - 1] == '\n' && t.buf[|t.buf| - 2] == '\\')
    ensures Accumulate(t) == Continue(t)
  {
    var b := t.buf;
    assert !MatchesUnicode(b) by {
      assert b[|q| - 1] == q[|q| - 1];
    }
    assert !MatchesHex(b) && !MatchesAltIsMeta(b) by {
      assert b[0] == 'U' && b[1] == '+';
    }
    NoKeywordAt(b, 1, t.mode, PeekAt(t));
  }

  /** Once a cut code point heads the buffer outside Value mode, the call reads
      the rest of the input and fails with a syntax error on a buffer that
      still starts with it. */
  lemma {:induction false} CutUnicodeStuck(s: Scan, q: seq<byte>)
    requires s.Valid() && s.mode != StateValue && CutUnicode(q) && q <= s.buf
    ensures var r := NextToken(s);
      r.out == Failed(Syntax(s.mode, r.next.buf)) && r.next.pos == |s.input| && q <= r.next.buf
    decreases |s.input| - s.pos
  {
    if s.pos < |s.input| {
      var t := Scan(s.input, s.pos + 1, s.buf + [s.input[s.pos]], s.mode);
      assert q <= t.buf;
      AccumulateCutUnicode(t, q);
      var u := Accumulate(t).s;
      NextTokenContinues(s, t, u);
      CutUnicodeStuck(u, q);
    }
  }

  /** Outside Value mode, a code point cut short at the start of a token is no
      Unicode token: it swallows the rest of the input and ends in a syntax
      error. */
  lemma UnicodeCutShort(s: Scan, q: seq<byte>)
    requires s.Valid() && s.buf == [] && s.mode != StateValue && CutUnicode(q)
    requires s.pos + |q| <= |s.input| && s.input[s.pos..s.pos + |q|] == q
    ensures var r := NextToken(s);
      r.out == Failed(Syntax(s.mode, r.next.buf)) && r.next.pos == |s.input| && q <= r.next.buf
  {
    var p := q[..|q| - 1];
    assert UnicodeHead(p);
    assert s.input[s.pos..s.pos + |p|] == p;
    var u := s.(pos := s.pos + |p|, buf := p);
    SliceAt(s.input, s.pos, q, |q| - 1);
    var t := Scan(s.input, u.pos + 1, u.buf + [s.input[u.pos]], s.mode);
    assert t.buf == q;
    AccumulateCutUnicode(t, q);
    var v := Accumulate(t).s;
    calc {
      NextToken(s);
    == { UnicodeHeadRead(s, p); }
      NextToken(u);
    == { NextTokenContinues(u, t, v); }
      NextToken(v);
    }
    CutUnicodeStuck(v, q);
  }

  // ---------------------------------------------------------------------
  // Keywords
  // ---------------------------------------------------------------------

  /** A keyword spelling is a word of two to nine letters. */
  lemma SpelledLetters(k: Kind, b: seq<byte>)
    requires b in Spellings(k)
    ensures 2 <= |b| <= 9 && forall i | 0 <= i < |b| :: IsLetter(b[i])
  {
    var x :| 0 <= x < |Spellings(k)| && Spellings(k)[x] == b;
    SpellingsAreCaseVariants(k, x);
    SpellingLength(k, b);
  }

  /** A proper prefix of a keyword, two bytes or longer, with the rest of the
      keyword still to come: the switch decides nothing and the lexer goes on
      reading. */
  lemma KeywordPrefixStep(t: Scan, b: seq<byte>, k: Kind)
    requires t.Valid() && t.pos > 0 && t.mode != StateValue && b in Spellings(k)
    requires 2 <= |t.buf| < |b| && t.buf == b[..|t.buf|]
    requires t.pos < |t.input| && t.input[t.pos] == b[|t.buf|]
    ensures Accumulate(t) == Continue(t)
  {
    SpelledLetters(k, b);
    assert IsLetter(t.buf[0]) && IsLetter(t.buf[1]) && IsLetter(t.buf[|t.buf| - 1]);
    AccumulateWord(t);
    PrefixUndecided(b, k, |t.buf|, t.mode);
  }

  /** A whole keyword spelling in the buffer, outside Value mode: the keyword
      is returned, unless a guarded keyword meets the end of input. The byte
      after a guarded keyword is known not to postpone it. */
  lemma KeywordEndStep(t: Scan, k: Kind)
    requires t.Valid() && t.pos > 0 && t.mode != StateValue && t.buf in Spellings(k)
    requires Postponers(k) != [] && t.pos < |t.input| ==> t.input[t.pos] !in Postponers(k)
    ensures Accumulate(t) == Return(
      if Postponers(k) != [] && t.pos == |t.input| then Step(Failed(UnexpectedEnd), t)
      else ConsumeStep(t.(mode := KeywordMode(k, t.mode)), k))
  {
    AccumulateKeyword(t, k);
  }

  /** The keyword loop: the buffer holds the first bytes of the spelling b of
      k that starts at `start`. */
  lemma {:induction false} KeywordLoop(s: Scan, start: nat, b: seq<byte>, k: Kind)
    requires s.Valid() && s.mode != StateValue && b in Spellings(k)
    requires start + |b| <= |s.input| && s.input[start..start + |b|] == b
    requires Postponers(k) != [] && start + |b| < |s.input| ==> s.input[start + |b|] !in Postponers(k)
    requires 1 <= |s.buf| < |b| && s.buf == b[..|s.buf|] && s.pos == start + |s.buf|
    ensures NextToken(s) ==
      if Postponers(k) != [] && start + |b| == |s.input| then Step(Failed(UnexpectedEnd), Scan(s.input, start + |b|, b, s.mode))
      else Step(Token(Leaf(k, b)), Scan(s.input, start + |b|, [], KeywordMode(k, s.mode)))
    decreases |b| - |s.buf|, 1
  {
    if |s.buf| + 1 < |b| {
      KeywordLoopMore(s, start, b, k);
    } else {
      var i := |s.buf|;
      SliceAt(s.input, start, b, i);
      var t := Scan(s.input, s.pos + 1, b[..i + 1], s.mode);
      assert t.buf == s.buf + [s.input[s.pos]];
      KeywordLoopLast(s, t, start, b, k);
    }
  }

  /** The keyword loop while more than one byte of the spelling is left. */
  lemma {:induction false} KeywordLoopMore(s: Scan, start: nat, b: seq<byte>, k: Kind)
    requires s.Valid() && s.mode != StateValue && b in Spellings(k)
    requires start + |b| <= |s.input| && s.input[start..start + |b|] == b
    requires Postponers(k) != [] && start + |b| < |s.input| ==> s.input[start + |b|] !in Postponers(k)
    requires 1 <= |s.buf| && |s.buf| + 1 < |b| && s.buf == b[..|s.buf|] && s.pos == start + |s.buf|
    ensures NextToken(s) ==
      if Postponers(k) != [] && start + |b| == |s.input| then Step(Failed(UnexpectedEnd), Scan(s.input, start + |b|, b, s.mode))
      else Step(Token(Leaf(k, b)), Scan(s.input, start + |b|, [], KeywordMode(k, s.mode)))
    decreases |b| - |s.buf|, 0
  {
    var i := |s.buf|;
    SliceAt(s.input, start, b, i);
    var t := Scan(s.input, s.pos + 1, b[..i + 1], s.mode);
    assert NextToken(s) == NextToken(t) by {
      assert t.buf == s.buf + [s.input[s.pos]];
      SliceAt(s.input, start, b, i + 1);
      assert 2 <= |t.buf| < |b|;
      assert t.buf == b[..|t.buf|];
      assert t.pos < |t.input|;
      assert t.input[t.pos] == b[|t.buf|];
      KeywordLoopStep(s, t, b, k);
    }
    KeywordLoop(t, start, b, k);
  }

  /** A turn of the keyword loop before the spelling's last byte reads on. */
  lemma KeywordLoopStep(s: Scan, t: Scan, b: seq<byte>, k: Kind)
    requires s.Valid() && s.pos < |s.input| && s.mode != StateValue && b in Spellings(k)
    requires t == Scan(s.input, s.pos + 1, s.buf + [s.input[s.pos]], s.mode)
    requires 2 <= |t.buf|
    requires |t.buf| < |b|
    requires t.buf == b[..|t.buf|]
    requires t.pos < |t.input|
    requires t.input[t.pos] == b[|t.buf|]
    ensures NextToken(s) == NextToken(t)
  {
    KeywordPrefixStep(t, b, k);
    NextTokenContinues(s, t, t);
  }

  /** The keyword loop's last turn reads the spelling's last byte. */
  lemma KeywordLoopLast(s: Scan, t: Scan, start: nat, b: seq<byte>, k: Kind)
    requires s.Valid() && s.mode != StateValue && b in Spellings(k)
    requires 2 <= |b|
    requires start + |b| <= |s.input|
    requires s.pos == start + |b| - 1
    requires Postponers(k) != [] && start + |b| < |s.input| ==> s.input[start + |b|] !in Postponers(k)
    requires t == Scan(s.input, s.pos + 1, s.buf + [s.input[s.pos]], s.mode)
    requires t.buf == b
    ensures NextToken(s) ==
      if Postponers(k) != [] && start + |b| == |s.input| then Step(Failed(UnexpectedEnd), Scan(s.input, start + |b|, b, s.mode))
      else Step(Token(Leaf(k, b)), Scan(s.input, start + |b|, [], KeywordMode(k, s.mode)))
  {
    KeywordEndStep(t, k);
    NextTokenReturns(s, t, Advance(t).r);
  }

  /** Outside Value mode, a keyword spelling at the start of a token is one
      token of that keyword. No proper prefix of it is decided on the way, and
      for alt, string and shift the byte after the spelling must not announce
      a longer keyword (it then fails at the end of input). include, string
      and to change the mode. */
  lemma KeywordToken(s: Scan, k: Kind, b: seq<byte>)
    requires s.Valid() && s.buf == [] && s.mode != StateValue && b in Spellings(k)
    requires s.pos + |b| <= |s.input| && s.input[s.pos..s.pos + |b|] == b
    requires Postponers(k) != [] && s.pos + |b| < |s.input| ==> s.input[s.pos + |b|] !in Postponers(k)
    ensures NextToken(s) ==
      if Postponers(k) != [] && s.pos + |b| == |s.input| then Step(Failed(UnexpectedEnd), s.(pos := s.pos + |b|, buf := b))
      else Step(Token(Leaf(k, b)), s.(pos := s.pos + |b|, mode := KeywordMode(k, s.mode)))
  {
    assert 2 <= |b| by {
      SpelledLetters(k, b);
    }
    var t := Scan(s.input, s.pos + 1, b[..1], s.mode);
    assert NextToken(s) == NextToken(t) by {
      SpelledLetters(k, b);
      SliceAt(s.input, s.pos, b, 0);
      assert First(s) == t;
      LetterStart(s);
    }
    KeywordAfterFirst(s, k, b);
  }

  /** The keyword loop from the first byte of the spelling on. */
  lemma KeywordAfterFirst(s: Scan, k: Kind, b: seq<byte>)
    requires s.Valid() && s.mode != StateValue && b in Spellings(k)
    requires 2 <= |b| && s.pos + |b| <= |s.input| && s.input[s.pos..s.pos + |b|] == b
    requires Postponers(k) != [] && s.pos + |b| < |s.input| ==> s.input[s.pos + |b|] !in Postponers(k)
    ensures NextToken(Scan(s.input, s.pos + 1, b[..1], s.mode)) ==
      if Postponers(k) != [] && s.pos + |b| == |s.input| then Step(Failed(UnexpectedEnd), Scan(s.input, s.pos + |b|, b, s.mode))
      else Step(Token(Leaf(k, b)), Scan(s.input, s.pos + |b|, [], KeywordMode(k, s.mode)))
  {
    KeywordLoop(Scan(s.input, s.pos + 1, b[..1], s.mode), s.pos, b, k);
  }

  // ---------------------------------------------------------------------
  // alt-is-meta
  // ---------------------------------------------------------------------

  /** The first two or three bytes of alt-is-meta spell no keyword, when the
      first three are not a spelling of alt. */
  lemma AltPrefixUnspelled(p: seq<byte>)
    requires 2 <= |p| <= 3 && p[0] in "aA" && p[1] in "lL"
    requires |p| == 3 ==> p[2] in "tT" && p !in Spellings(Alt)
    ensures forall k :: p !in Spellings(k)
  {
    forall k | p in Spellings(k)
      ensures false
    {
      SpelledLower(k, p);
      KindOfWordInverts(k);
    }
  }

  /** Outside Value mode, the first two to ten bytes of alt-is-meta match no
      rule, when its first three are not a spelling of alt. */
  lemma AccumulateAltIsMetaHead(t: Scan, b: seq<byte>)
    requires t.Valid() && t.pos > 0 && t.mode != StateValue
    requires MatchesAltIsMeta(b) && b[..3] !in Spellings(Alt)
    requires 2 <= |t.buf| <= 10 && t.buf == b[..|t.buf|]
    ensures Accumulate(t) == Continue(t)
  {
    var c, n := t.buf, |t.buf|;
    assert c[0] == b[0] && c[n - 1] == b[n - 1];
    assert b[n - 1] != '\n';
    if n >= 4 {
      assert c[3] == b[3];
      NoKeywordAt(c, 3, t.mode, PeekAt(t));
    } else {
      AltIsMetaShortHead(c, b, t.mode, PeekAt(t));
    }
  }

  /** ... where the first two or three bytes reach the keyword switch and
      break out of it. */
  lemma AltIsMetaShortHead(c: seq<byte>, b: seq<byte>, mode: Mode, next: Option<byte>)
    requires MatchesAltIsMeta(b) && b[..3] !in Spellings(Alt)
    requires 2 <= |c| <= 3 && c == b[..|c|]
    ensures KeywordRule(c, mode, next) == NoKeyword
  {
    assert c[0] == b[0] && c[1] == b[1] && (|c| == 3 ==> c == b[..3] && c[2] == b[2]);
    AltPrefixUnspelled(c);
    KeywordRuleMiss(c, mode, next);
  }

  /** Outside Value mode, a buffer matching alt-is-meta is an AltIsMeta
      token, whatever follows it. */
  lemma AccumulateAltIsMeta(t: Scan)
    requires t.Valid() && t.pos > 0 && t.mode != StateValue && MatchesAltIsMeta(t.buf)
    ensures Accumulate(t) == Return(ConsumeStep(t, AltIsMeta))
  {
    NoKeywordAt(t.buf, 3, t.mode, PeekAt(t));
  }

  /** The alt-is-meta loop: the buffer holds the first bytes of b, which
      starts at `start`. */
  lemma {:induction false} AltIsMetaLoop(s: Scan, start: nat, b: seq<byte>)
    requires s.Valid() && s.mode != StateValue && MatchesAltIsMeta(b) && b[..3] !in Spellings(Alt)
    requires start + 11 <= |s.input| && s.input[start..start + 11] == b
    requires 1 <= |s.buf| <= 10 && s.buf == b[..|s.buf|] && s.pos == start + |s.buf|
    ensures NextToken(s) == Step(Token(Leaf(AltIsMeta, b)), Scan(s.input, start + 11, [], s.mode))
    decreases 11 - |s.buf|
  {
    var i := |s.buf|;
    SliceAt(s.input, start, b, i);
    var t := Scan(s.input, s.pos + 1, b[..i + 1], s.mode);
    if i + 1 < 11 {
      AccumulateAltIsMetaHead(t, b);
      NextTokenContinues(s, t, t);
      AltIsMetaLoop(t, start, b);
    } else {
      assert t.buf == b;
      AccumulateAltIsMeta(t);
      NextTokenReturns(s, t, ConsumeStep(t, AltIsMeta));
    }
  }

  /** Outside Value mode, alt-is-meta at the start of a token is one AltIsMeta
      token whatever follows it, when its first three bytes are not alt, Alt
      or ALT. */
  lemma AltIsMetaToken(s: Scan, b: seq<byte>)
    requires s.Valid() && s.buf == [] && s.mode != StateValue
    requires MatchesAltIsMeta(b) && b[..3] !in Spellings(Alt)
    requires s.pos + 11 <= |s.input| && s.input[s.pos..s.pos + 11] == b
    ensures NextToken(s) == Step(Token(Leaf(AltIsMeta, b)), s.(pos := s.pos + 11))
  {
    assert IsLetter(s.input[s.pos]) by {
      SliceAt(s.input, s.pos, b, 0);
    }
    LetterStart(s);
    AltIsMetaAfterFirst(s, b);
  }

  /** The alt-is-meta loop from its first byte on. */
  lemma AltIsMetaAfterFirst(s: Scan, b: seq<byte>)
    requires s.Valid() && s.buf == [] && s.mode != StateValue
    requires MatchesAltIsMeta(b) && b[..3] !in Spellings(Alt)
    requires s.pos + 11 <= |s.input| && s.input[s.pos..s.pos + 11] == b
    ensures NextToken(First(s)) == Step(Token(Leaf(AltIsMeta, b)), s.(pos := s.pos + 11))
  {
    var t := Scan(s.input, s.pos + 1, b[..1], s.mode);
    assert First(s) == t by {
      SliceAt(s.input, s.pos, b, 0);
    }
    AltIsMetaLoop(t, s.pos, b);
  }

  /** When its first three bytes are alt, Alt or ALT, alt-is-meta is never
      read: the alt keyword is returned on them. */
  lemma AltIsMetaShadowed(s: Scan, b: seq<byte>)
    requires s.Valid() && s.buf == [] && s.mode != StateValue
    requires MatchesAltIsMeta(b) && b[..3] in Spellings(Alt)
    requires s.pos + 11 <= |s.input| && s.input[s.pos..s.pos + 11] == b
    ensures NextToken(s) == Step(Token(Leaf(Alt, b[..3])), s.(pos := s.pos + 3))
  {
    var a := b[..3];
    assert s.input[s.pos..s.pos + 3] == a;
    assert s.input[s.pos + 3] !in Postponers(Alt) by {
      SliceAt(s.input, s.pos, b, 3);
      assert b[3] in "-_";
    }
    KeywordToken(s, Alt, a);
    assert KeywordMode(Alt, s.mode) == s.mode;
  }
}
