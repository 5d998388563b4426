/**
 * Laws of the end marker: Get returns it exactly when it is called at the
 * end of the input between two tokens. Once a token has begun, the buffer
 * never empties again before the call returns, and no rule returns the
 * marker, so the end of input inside a token is always an error.
 */
module EndLaws {
  import opened Wrappers
  import opened Bytes
  import opened Leaves
  import opened Scanner

  /** The decoding loop of getString ends with a token or an error. */
  lemma {:induction false} StringLoopNeverEnds(s: Scan)
    requires s.Valid() && |s.buf| > 0
    ensures StringLoop(s).out != EndOfInput
    decreases |s.input| - s.pos
  {
    if s.pos < |s.input| {
      var t := ReadStep(s);
      var c := t.buf[|t.buf| - 1];
      if c == '\\' {
        if t.pos < |t.input| {
          var u := ReadStep(t);
          var n := |u.buf|;
          StringLoopNeverEnds(u.(buf := u.buf[n - 2 := Unescaped(u.buf[n - 1])][..n - 1]));
        }
      } else if c != '"' {
        StringLoopNeverEnds(t);
      }
    }
  }

  /** The octal-digit loop ends with a token or an error. */
  lemma {:induction false} OctalLoopNeverEnds(s: Scan, i: nat)
    requires s.Valid() && s.pos > 0 && i <= 3 && |s.buf| == i + 1
    ensures OctalLoop(s, i).out != EndOfInput
    decreases 3 - i
  {
    if IsOcta(s.buf[i]) && i < 3 && s.pos < |s.input| {
      OctalLoopNeverEnds(ReadStep(s), i + 1);
    }
  }

  /** The switch on one byte never returns the end marker, and it goes on
      reading only with the buffer it was given, which then does not hold a
      backslash. */
  lemma SingleNeverEnds(t: Scan)
    requires t.Valid() && t.pos > 0 && |t.buf| == 1
    ensures Single(t).Return? ==> Single(t).r.out != EndOfInput
    ensures Single(t).Continue? ==> Single(t).s == t && t.buf[0] != '\\'
  {
    var c := t.buf[0];
    if c == '"' {
      StringLoopNeverEnds(t.(mode := StateNormal));
    } else if c == '\\' && t.pos < |t.input| {
      var u := ReadStep(t);
      OctalLoopNeverEnds(u.(buf := [u.buf[1]]), 0);
    }
  }

  /** The rules for a longer buffer never return the end marker, and when
      they go on reading the buffer keeps its first byte. */
  lemma AccumulateNeverEnds(t: Scan)
    requires t.Valid() && t.pos > 0 && |t.buf| > 1 && t.buf[0] != '\\'
    ensures Accumulate(t).Return? ==> Accumulate(t).r.out != EndOfInput
    ensures Accumulate(t).Continue? ==> |Accumulate(t).s.buf| > 0 && Accumulate(t).s.buf[0] == t.buf[0]
  {
  }

  /** Inside a token (a non-empty buffer that does not start with a
      backslash) Get never returns the end marker. */
  lemma {:induction false} InsideToken(s: Scan)
    requires s.Valid() && |s.buf| > 0 && s.buf[0] != '\\'
    ensures NextToken(s).out != EndOfInput
    decreases |s.input| - s.pos
  {
    if s.pos < |s.input| {
      var t := Scan(s.input, s.pos + 1, s.buf + [s.input[s.pos]], s.mode);
      AccumulateNeverEnds(t);
      var a := Advance(t);
      if a.Return? {
        NextTokenReturns(s, t, a.r);
      } else {
        InsideToken(a.s);
        NextTokenContinues(s, t, a.s);
      }
    }
  }

  /** Between tokens, Get returns the end marker exactly at the end of the
      input. */
  lemma EndMarker(s: Scan)
    requires s.Valid() && s.buf == []
    ensures NextToken(s).out == EndOfInput <==> s.pos == |s.input|
  {
    if s.pos < |s.input| {
      var t := Scan(s.input, s.pos + 1, s.buf + [s.input[s.pos]], s.mode);
      assert |t.buf| == 1;
      SingleNeverEnds(t);
      var a := Advance(t);
      if a.Return? {
        NextTokenReturns(s, t, a.r);
      } else {
        InsideToken(t);
        NextTokenContinues(s, t, t);
      }
    }
  }

  /** At the end of input with bytes left in the buffer, Get fails with a
      syntax error naming the mode and those bytes, and leaves the state as
      it was. */
  lemma EndWithBuffer(s: Scan)
    requires s.Valid() && s.pos == |s.input| && s.buf != []
    ensures NextToken(s) == Step(Failed(Syntax(s.mode, s.buf)), s)
  {
  }
}
