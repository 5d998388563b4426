/**
 * The text of a token is the stretch of input it was read from: between
 * tokens, on an input without line continuations, every leaf other than a
 * quoted string or a character literal holds exactly the bytes from the
 * cursor up to the cursor the call leaves. Quoted strings are decoded and lose
 * their quotes, and character literals lose their backslash; those two kinds
 * are what makes the concatenation of token texts differ from the input.
 */
module TextLaws {
  import opened Wrappers
  import opened Bytes
  import opened Leaves
  import opened Scanner
  import LiteralLaws
  import TokenLaws

  /** No backslash in the input is followed by a newline. */
  predicate NoContinuation(input: seq<byte>) {
    forall i | 0 <= i < |input| - 1 :: !(input[i] == '\\' && input[i + 1] == '\n')
  }

  /** A leaf whose text is not its input: decoded strings and character literals. */
  predicate Rewritten(k: Kind) {
    k == String || k == Char
  }

  /** A result that is a leaf read verbatim holds the input from `start` up to
      the cursor it leaves. */
  predicate TextFrom(r: Step, input: seq<byte>, start: nat) {
    r.out.Token? && !Rewritten(r.out.leaf.kind) ==>
      start <= r.next.pos <= |input| && r.out.leaf.data == input[start..r.next.pos]
  }

  /** getString returns no leaf but a String. */
  lemma {:induction false} StringLoopKind(s: Scan)
    requires s.Valid() && |s.buf| > 0
    ensures StringLoop(s).out.Token? ==> StringLoop(s).out.leaf.kind == String
    decreases |s.input| - s.pos
  {
    if s.pos < |s.input| {
      var t := ReadStep(s);
      var c := t.buf[|t.buf| - 1];
      if c == '\\' {
        if t.pos < |t.input| {
          var u := ReadStep(t);
          var n := |u.buf|;
          StringLoopKind(u.(buf := u.buf[n - 2 := Unescaped(u.buf[n - 1])][..n - 1]));
        }
      } else if c != '"' {
        StringLoopKind(t);
      }
    }
  }

  /** The octal loop returns no leaf but a Char. */
  lemma {:induction false} OctalLoopKind(s: Scan, i: nat)
    requires s.Valid() && s.pos > 0 && i <= 3 && |s.buf| == i + 1
    ensures OctalLoop(s, i).out.Token? ==> OctalLoop(s, i).out.leaf.kind == Char
    decreases 3 - i
  {
    if IsOcta(s.buf[i]) && i < 3 && s.pos < |s.input| {
      OctalLoopKind(ReadStep(s), i + 1);
    }
  }

  /** Two adjacent stretches of input make one. */
  lemma SliceJoin(input: seq<byte>, i: nat, m: nat, j: nat)
    requires i <= m <= j <= |input|
    ensures input[i..m] + input[m..j] == input[i..j]
  {
  }

  /** Dropping the last byte of a stretch of input ends it one byte earlier. */
  lemma SliceDropLast(input: seq<byte>, i: nat, j: nat)
    requires i < j <= |input|
    ensures input[i..j][..j - i - 1] == input[i..j - 1]
  {
  }

  /** consumeFunc on a buffer that is the input's byte before the cursor: the
      leaf is that byte and the run read after it. */
  lemma ConsumeRunText(t: Scan, f: byte -> bool, kind: Kind)
    requires t.Valid() && t.pos > 0 && t.buf == t.input[t.pos - 1..t.pos]
    ensures TextFrom(ConsumeRunStep(t, f, kind), t.input, t.pos - 1)
  {
    if f(t.buf[0]) {
      SliceJoin(t.input, t.pos - 1, t.pos, RunEnd(f, t.input, t.pos));
    }
  }

  /** The multi-byte rules on a buffer that is the input from `start`, with no
      line continuation at its end: they go on with the state unchanged, or
      return a leaf of the buffer, or of the buffer without the blank they
      push back. */
  lemma AccumulateText(t: Scan, start: nat)
    requires t.Valid() && t.pos > 0 && |t.buf| > 1
    requires start <= t.pos && t.buf == t.input[start..t.pos]
    requires !(t.buf[|t.buf| - 1] == '\n' && t.buf[|t.buf| - 2] == '\\')
    ensures Accumulate(t).Continue? ==> Accumulate(t).s == t
    ensures Accumulate(t).Return? ==> TextFrom(Accumulate(t).r, t.input, start)
  {
    if t.mode == StateValue {
      AccumulateValueText(t, start);
    } else {
      AccumulateWordText(t, start);
    }
  }

  /** In Value mode a literal leaf is the buffer without the blank pushed back. */
  lemma AccumulateValueText(t: Scan, start: nat)
    requires t.Valid() && t.pos > 0 && |t.buf| > 1 && t.mode == StateValue
    requires start <= t.pos && t.buf == t.input[start..t.pos]
    requires !(t.buf[|t.buf| - 1] == '\n' && t.buf[|t.buf| - 2] == '\\')
    ensures Accumulate(t).Continue? ==> Accumulate(t).s == t
    ensures Accumulate(t).Return? ==> TextFrom(Accumulate(t).r, t.input, start)
  {
    if !MatchesUnicode(t.buf) && !MatchesHex(t.buf) {
      SliceDropLast(t.input, start, t.pos);
    }
  }

  /** Outside Value mode every leaf of the rules is the whole buffer. */
  lemma AccumulateWordText(t: Scan, start: nat)
    requires t.Valid() && t.pos > 0 && |t.buf| > 1 && t.mode != StateValue
    requires start <= t.pos && t.buf == t.input[start..t.pos]
    requires !(t.buf[|t.buf| - 1] == '\n' && t.buf[|t.buf| - 2] == '\\')
    ensures Accumulate(t).Continue? ==> Accumulate(t).s == t
    ensures Accumulate(t).Return? ==> TextFrom(Accumulate(t).r, t.input, start)
  {
  }

  /** The single-byte switch on a buffer that is the input's byte before the
      cursor: it goes on with the state unchanged, or returns a leaf of that
      byte and the run read after it, or a String or Char leaf. */
  lemma SingleText(t: Scan)
    requires t.Valid() && t.pos > 0 && |t.buf| == 1 && t.buf == t.input[t.pos - 1..t.pos]
    ensures Single(t).Continue? ==> Single(t).s == t
    ensures Single(t).Return? ==> TextFrom(Single(t).r, t.input, t.pos - 1)
  {
    var c := t.buf[0];
    if c in " \t\r#!" || IsDigit(c) {
      SingleRunText(t);
    } else if c == '"' || c == '\\' {
      SingleQuotedText(t);
    }
  }

  /** Blanks, comments and decimals: a leaf of the run from the byte. */
  lemma SingleRunText(t: Scan)
    requires t.Valid() && t.pos > 0 && |t.buf| == 1 && t.buf == t.input[t.pos - 1..t.pos]
    requires t.buf[0] in " \t\r#!" || IsDigit(t.buf[0])
    ensures Single(t).Continue? ==> Single(t).s == t
    ensures Single(t).Return? ==> TextFrom(Single(t).r, t.input, t.pos - 1)
  {
    var c := t.buf[0];
    if c in " \t\r" {
      ConsumeRunText(t, x => x in " \t\r", Space);
    } else if c in "#!" {
      ConsumeRunText(t, x => x !in "\n", Comment);
    } else {
      ConsumeRunText(t, x => x in "0123456789", Number);
    }
  }

  /** A quote or a backslash: the leaf, if any, is a String or a Char. */
  lemma SingleQuotedText(t: Scan)
    requires t.Valid() && t.pos > 0 && |t.buf| == 1
    requires t.buf[0] == '"' || t.buf[0] == '\\'
    ensures Single(t).Return? && Single(t).r.out.Token? ==> Rewritten(Single(t).r.out.leaf.kind)
  {
    if t.buf[0] == '"' {
      StringLoopKind(t.(mode := StateNormal));
    } else if t.pos < |t.input| {
      var u := ReadStep(t);
      OctalLoopKind(u.(buf := [u.buf[1]]), 0);
    }
  }

  /** Get from a state whose buffer is the input from `start`, on an input
      without line continuations. */
  lemma {:induction false} NextTokenText(s: Scan, start: nat)
    requires s.Valid() && NoContinuation(s.input)
    requires start <= s.pos && s.buf == s.input[start..s.pos]
    ensures TextFrom(NextToken(s), s.input, start)
    decreases |s.input| - s.pos
  {
    if s.pos < |s.input| {
      var t := ReadStep(s);
      assert t.buf == s.input[start..t.pos] by {
        SliceJoin(s.input, start, s.pos, t.pos);
      }
      if |t.buf| > 1 {
        assert !(t.buf[|t.buf| - 1] == '\n' && t.buf[|t.buf| - 2] == '\\') by {
          assert t.buf[|t.buf| - 2] == s.input[t.pos - 2] && t.buf[|t.buf| - 1] == s.input[t.pos - 1];
        }
        AccumulateText(t, start);
      } else {
        SingleText(t);
      }
      match Advance(t)
      case Continue(u) =>
        NextTokenContinues(s, t, u);
        NextTokenText(u, start);
      case Return(r) =>
        NextTokenReturns(s, t, r);
    }
  }

  /** Between tokens, on an input without line continuations, a leaf other
      than a quoted string or a character literal is exactly the input the
      call read: concatenating such leaves gives back the input they came
      from. */
  lemma TokenText(s: Scan)
    requires s.Valid() && s.buf == [] && NoContinuation(s.input)
    ensures var r := NextToken(s);
      r.out.Token? && !Rewritten(r.out.leaf.kind) ==>
        s.pos <= r.next.pos && r.out.leaf.data == s.input[s.pos..r.next.pos]
  {
    NextTokenText(s, s.pos);
  }

  /** A quoted string is not its input: `""` is a String leaf with no bytes. */
  lemma EmptyString(s: Scan)
    requires s.Valid() && s.buf == [] && s.pos + 2 <= |s.input|
    requires s.input[s.pos] == '"' && s.input[s.pos + 1] == '"'
    ensures NextToken(s) == Step(Token(Leaf(String, [])), Scan(s.input, s.pos + 2, [], StateNormal))
  {
    assert LiteralLaws.Terminated(s.input, s.pos + 1, [], s.pos + 1);
    TokenLaws.QuotedString(s, [], s.pos + 1);
  }
}
