/**
 * Laws of the two literal readers: getString decodes exactly what an
 * escaping encoder writes, and the `\` branch of Get reads either one
 * non-octal byte or a maximal run of at most three octal digits.
 */
module LiteralLaws {
  import opened Wrappers
  import opened Bytes
  import opened Leaves
  import opened Scanner

  /** One byte as a quoted string writes it: newline, quote and backslash as
      escapes, every other byte as itself. */
  function EscapeByte(c: byte): (e: seq<byte>)
    ensures 1 <= |e| <= 2
    ensures |e| == 2 <==> c in "\n\"\\"
    ensures |e| == 2 ==> e[0] == '\\' && Unescaped(e[1]) == c
    ensures |e| == 1 ==> e[0] == c
  {
    if c == '\n' then "\\n"
    else if c == '"' || c == '\\' then ['\\', c]
    else [c]
  }

  /** The body of a quoted string whose decoded value is d. */
  function Escape(d: seq<byte>): (e: seq<byte>)
    ensures |d| <= |e| <= 2 * |d|
  {
    if d == [] then [] else EscapeByte(d[0]) + Escape(d[1..])
  }

  /** One turn of the decoding loop on an escape `\x`: one decoded byte. */
  lemma StringLoopEscape(s: Scan)
    requires s.Valid() && |s.buf| > 0
    requires s.pos + 1 < |s.input| && s.input[s.pos] == '\\'
    ensures StringLoop(s) ==
      StringLoop(s.(pos := s.pos + 2, buf := s.buf + [Unescaped(s.input[s.pos + 1])]))
  {
    var t := ReadStep(s);
    var u := ReadStep(t);
    var n := |u.buf|;
    assert u.buf[n - 2 := Unescaped(u.buf[n - 1])][..n - 1] == s.buf + [Unescaped(s.input[s.pos + 1])];
  }

  /** One turn of the decoding loop on any other byte but the quote. */
  lemma StringLoopPlain(s: Scan)
    requires s.Valid() && |s.buf| > 0
    requires s.pos < |s.input| && s.input[s.pos] != '\\' && s.input[s.pos] != '"'
    ensures StringLoop(s) == StringLoop(s.(pos := s.pos + 1, buf := s.buf + [s.input[s.pos]]))
  {
  }

  /** input[p..q] is a string body that decodes to d: each decoded byte
      is either a byte other than backslash and quote, standing for itself,
      or an escape `\c` standing for Unescaped(c). */
  predicate BodyAt(input: seq<byte>, p: nat, d: seq<byte>, q: nat)
    decreases |d|
  {
    if d == [] then q == p
    else
      p < |input| &&
      if input[p] == '\\' then
        p + 1 < |input| && Unescaped(input[p + 1]) == d[0] && BodyAt(input, p + 2, d[1..], q)
      else
        input[p] != '"' && input[p] == d[0] && BodyAt(input, p + 1, d[1..], q)
  }

  /** A body decoding to d starts at p and its closing quote is input[q]. */
  predicate Terminated(input: seq<byte>, p: nat, d: seq<byte>, q: nat) {
    q < |input| && input[q] == '"' && BodyAt(input, p, d, q)
  }

  /** No closing quote follows p: the string that starts there is
      unterminated. */
  ghost predicate Unterminated(input: seq<byte>, p: nat) {
    forall d, q :: !Terminated(input, p, d, q)
  }

  /** The escaped form of d followed by rest is a body decoding to d. */
  lemma {:induction false} EscapedBody(input: seq<byte>, p: nat, d: seq<byte>, rest: seq<byte>)
    requires p <= |input| && input[p..] == Escape(d) + rest
    ensures BodyAt(input, p, d, p + |Escape(d)|)
    decreases |d|
  {
    if d != [] {
      var e0 := EscapeByte(d[0]);
      assert input[p..] == e0 + (Escape(d[1..]) + rest);
      assert input[p] == e0[0];
      assert |e0| == 2 ==> input[p + 1] == e0[1];
      assert input[p + |e0|..] == Escape(d[1..]) + rest by {
        assert input[p + |e0|..] == input[p..][|e0|..];
      }
      EscapedBody(input, p + |e0|, d[1..], rest);
    }
  }

  /** The closing quote ends the decoding loop. */
  lemma StringLoopCloses(s: Scan)
    requires s.Valid() && |s.buf| > 0
    requires s.pos < |s.input| && s.input[s.pos] == '"'
    ensures StringLoop(s) == StringClose(Scan(s.input, s.pos + 1, s.buf + ['"'], s.mode))
  {
    assert ReadStep(s) == Scan(s.input, s.pos + 1, s.buf + ['"'], s.mode);
  }

  /** The decoding loop reads a body and its closing quote, and appends
      exactly the decoded bytes to the buffer: it ends as StringClose does
      on the state x. */
  lemma {:induction false} StringLoopDecodes(s: Scan, d: seq<byte>, q: nat, x: Scan)
    requires s.Valid() && |s.buf| > 0
    requires Terminated(s.input, s.pos, d, q)
    requires x == Scan(s.input, q + 1, s.buf + d + ['"'], s.mode)
    ensures |x.buf| >= 2 && StringLoop(s) == StringClose(x)
    decreases |d|
  {
    if d == [] {
      assert s.buf + d + ['"'] == s.buf + ['"'];
      StringLoopCloses(s);
    } else {
      var w;
      if s.input[s.pos] == '\\' {
        StringLoopEscape(s);
        w := s.(pos := s.pos + 2, buf := s.buf + [d[0]]);
      } else {
        StringLoopPlain(s);
        w := s.(pos := s.pos + 1, buf := s.buf + [d[0]]);
      }
      assert w.buf + d[1..] + ['"'] == s.buf + d + ['"'];
      StringLoopDecodes(w, d[1..], q, x);
    }
  }

  /** A decoding loop that does not fail on the end of input has read a
      terminated body. */
  lemma {:induction false} StringLoopFound(s: Scan)
    requires s.Valid() && |s.buf| > 0
    requires StringLoop(s).out != Failed(UnexpectedEnd)
    ensures exists d, q :: Terminated(s.input, s.pos, d, q)
    decreases |s.input| - s.pos
  {
    if s.pos < |s.input| {
      var c := s.input[s.pos];
      if c == '"' {
        assert Terminated(s.input, s.pos, [], s.pos);
      } else if c == '\\' {
        if s.pos + 1 < |s.input| {
          var e := Unescaped(s.input[s.pos + 1]);
          StringLoopEscape(s);
          var w := s.(pos := s.pos + 2, buf := s.buf + [e]);
          StringLoopFound(w);
          var d, q :| Terminated(w.input, w.pos, d, q);
          assert ([e] + d)[1..] == d;
          assert Terminated(s.input, s.pos, [e] + d, q);
        }
      } else {
        StringLoopPlain(s);
        var w := s.(pos := s.pos + 1, buf := s.buf + [c]);
        StringLoopFound(w);
        var d, q :| Terminated(w.input, w.pos, d, q);
        assert ([c] + d)[1..] == d;
        assert Terminated(s.input, s.pos, [c] + d, q);
      }
    }
  }

  /** getString on an opening quote and a terminated body: the leaf holds
      the decoded bytes without the quotes, the cursor is after the closing
      quote, and a value of MaxString bytes or more is refused. */
  lemma StringStepDecodes(s: Scan, d: seq<byte>, q: nat)
    requires s.Valid() && s.buf == ['"']
    requires Terminated(s.input, s.pos, d, q)
    ensures StringStep(s) ==
      if |d| >= MaxString then Step(Failed(StringTooLong(d)), s.(pos := q + 1, buf := d))
      else Step(Token(Leaf(String, d)), s.(pos := q + 1, buf := []))
  {
    StringLoopDecodes(s, d, q, Scan(s.input, q + 1, s.buf + d + ['"'], s.mode));
    assert (['"'] + d + ['"'])[1..|d| + 1] == d;
  }

  /** getString fails on the end of input exactly when no closing quote
      follows: the string is unterminated. */
  lemma StringStepUnterminated(s: Scan)
    requires s.Valid() && s.buf == ['"']
    ensures StringStep(s).out == Failed(UnexpectedEnd) <==> Unterminated(s.input, s.pos)
  {
    if StringStep(s).out == Failed(UnexpectedEnd) {
      forall d, q | Terminated(s.input, s.pos, d, q)
        ensures false
      {
        StringStepDecodes(s, d, q);
      }
    } else {
      StringLoopFound(s);
    }
  }

  /** Round trip: getString decodes what Escape encodes. */
  lemma StringStepEscaped(s: Scan, d: seq<byte>, rest: seq<byte>)
    requires s.Valid() && s.buf == ['"']
    requires s.input[s.pos..] == Escape(d) + ['"'] + rest
    ensures Terminated(s.input, s.pos, d, s.pos + |Escape(d)|)
    ensures var p := s.pos + |Escape(d)| + 1;
      StringStep(s) ==
        if |d| >= MaxString then Step(Failed(StringTooLong(d)), s.(pos := p, buf := d))
        else Step(Token(Leaf(String, d)), s.(pos := p, buf := []))
  {
    EscapedBody(s.input, s.pos, d, ['"'] + rest);
    assert s.input[s.pos + |Escape(d)|] == (Escape(d) + ['"'] + rest)[|Escape(d)|];
    StringStepDecodes(s, d, s.pos + |Escape(d)|);
  }

  /** The bytes input[p..q] form a character literal as the `\` branch of
      Get reads it: one byte that is not an octal digit, or one to three
      octal digits followed by a byte, which is not an octal digit unless
      three were read. */
  predicate CharLiteralAt(input: seq<byte>, p: nat, q: nat) {
    p < q <= |input| &&
    if !IsOcta(input[p]) then q == p + 1
    else
      q - p <= 3 && q < |input| &&
      (forall i | p <= i < q :: IsOcta(input[i])) &&
      (q - p == 3 || !IsOcta(input[q]))
  }

  /** Reading after an octal digit fails exactly when the input ends inside
      a run of at most three octal digits. */
  predicate CharLiteralCutShort(input: seq<byte>, p: nat)
    requires p <= |input|
  {
    |input| - p <= 3 && forall i | p <= i < |input| :: IsOcta(input[i])
  }

  /** What the `\` branch of Get promises about a result r that started at p. */
  predicate CharResult(input: seq<byte>, p: nat, s: Scan, r: Step)
    requires p <= |input|
  {
    (r.out.Failed? <==> CharLiteralCutShort(input, p)) &&
    (r.out.Failed? ==> r.out.error == UnexpectedEnd) &&
    (r.out.Token? ==>
       CharLiteralAt(input, p, r.next.pos) &&
       r.out.leaf == Leaf(Char, input[p..r.next.pos]) &&
       r.next == s.(pos := r.next.pos, buf := []))
  }

  /** The octal-digit loop with counter i, started at p: the buffer holds
      input[p..pos], whose first i bytes are octal digits. */
  lemma {:induction false} OctalLoopReads(t: Scan, i: nat, p: nat)
    requires t.Valid() && t.pos > 0 && i <= 3 && |t.buf| == i + 1
    requires p + i + 1 == t.pos && t.buf == t.input[p..t.pos]
    requires forall j | p <= j < p + i :: IsOcta(t.input[j])
    ensures CharResult(t.input, p, t, OctalLoop(t, i))
    decreases 3 - i
  {
    var input := t.input;
    assert t.buf[i] == input[p + i];
    if IsOcta(t.buf[i]) && i < 3 {
      if t.pos < |input| {
        var u := ReadStep(t);
        assert u.buf == input[p..u.pos];
        OctalLoopReads(u, i + 1, p);
        assert u.(pos := OctalLoop(u, i + 1).next.pos, buf := []) == t.(pos := OctalLoop(u, i + 1).next.pos, buf := []);
      }
    } else if i != 0 {
      assert t.buf[..i] == input[p..p + i];
      assert input[p] == t.buf[0];
      assert !CharLiteralCutShort(input, p) by {
        if i < 3 {
          assert !IsOcta(input[p + i]);
        }
      }
    } else {
      assert !CharLiteralCutShort(input, p) by {
        assert !IsOcta(input[p]);
      }
    }
  }

  /** The `\` branch of Get: it fails only when the input ends too early,
      and otherwise returns the literal's bytes as a Char leaf, leaving the
      cursor right after them. */
  lemma CharStepReads(s: Scan)
    requires s.Valid() && |s.buf| == 1
    ensures CharResult(s.input, s.pos, s, CharStep(s))
  {
    if s.pos < |s.input| {
      var t := ReadStep(s);
      var t0 := t.(buf := [t.buf[1]]);
      assert t0.buf == s.input[s.pos..t0.pos];
      OctalLoopReads(t0, 0, s.pos);
    }
  }
}
