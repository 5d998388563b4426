/**
 * The keymap lexer as the source writes it: an object whose fields (the
 * reader's cursor, the byte buffer and the mode) its methods update in place.
 * The reader over the input is the constant `input` together with `pos`, the
 * index of the next byte it would return. Every method is proved to leave the
 * state, and to return the result, that the matching function of module
 * Scanner prescribes.
 */
module Lexer {
  import opened Wrappers
  import opened Bytes
  import opened Leaves
  import opened Scanner

  class Lexer {
    const input: seq<byte>
    var pos: nat
    var buf: seq<byte>
    var state: Mode

    /** The reader's cursor never passes the end of the input. */
    ghost predicate Valid()
      reads this
    {
      pos <= |input|
    }

    /** The lexer's state as a value. */
    function Snapshot(): Scan
      reads this
    {
      Scan(input, pos, buf, state)
    }

    /** NewLexer: a lexer at the start of its input, in Normal mode, with an
        empty buffer. */
    constructor (input: seq<byte>)
      ensures Valid()
      ensures Snapshot() == Scan(input, 0, [], StateNormal)
    {
      this.input := input;
      pos := 0;
      buf := [];
      state := StateNormal;
    }

    /** setState */
    method SetState(s: Mode)
      modifies this
      ensures Snapshot() == old(Snapshot()).(mode := s)
    {
      state := s;
    }

    /** read: append the next input byte to the buffer; false at end of input. */
    method Read() returns (ok: bool)
      requires Valid()
      modifies this
      ensures Valid()
      ensures ok <==> old(pos) < |input|
      ensures ok ==> Snapshot() == ReadStep(old(Snapshot()))
      ensures !ok ==> buf == old(buf) && pos == old(pos)
      ensures state == old(state)
    {
      if pos == |input| {
        return false;
      }
      buf := buf + [input[pos]];
      pos := pos + 1;
      ok := true;
    }

    /** unread: step the reader back one byte and drop the buffer's last
        byte; false, with nothing changed, when the reader is at the start. */
    method Unread() returns (ok: bool)
      requires Valid() && |buf| > 0
      modifies this
      ensures Valid()
      ensures ok <==> old(pos) > 0
      ensures ok ==> Snapshot() == UnreadStep(old(Snapshot()))
      ensures !ok ==> buf == old(buf) && pos == old(pos)
      ensures state == old(state)
    {
      if pos == 0 {
        return false;
      }
      pos := pos - 1;
      buf := buf[..|buf| - 1];
      ok := true;
    }

    /** input.Peek(1): the next byte without consuming it. */
    function Peek(): (r: Option<byte>)
      reads this
      requires Valid()
      ensures r.Some? <==> pos < |input|
      ensures r.Some? ==> r.value == input[pos]
    {
      PeekAt(Snapshot())
    }

    /** consume: the buffer becomes the leaf's data and is emptied. */
    method Consume(kind: Kind) returns (leaf: Leaf)
      modifies this
      ensures leaf == Leaf(kind, old(buf))
      ensures buf == [] && pos == old(pos) && state == old(state)
    {
      leaf := Leaf(kind, buf);
      buf := [];
    }

    /** consumeFunc: extend the buffer by the run of bytes satisfying f. */
    method ConsumeFunc(f: byte -> bool, kind: Kind) returns (out: Outcome)
      requires Valid() && |buf| > 0
      modifies this
      ensures Valid() && Step(out, Snapshot()) == ConsumeRunStep(old(Snapshot()), f, kind)
    {
      if !f(buf[|buf| - 1]) {
        return Failed(NothingConsumed);
      }
      ReadRun(f);
      var leaf := Consume(kind);
      out := Token(leaf);
    }

    /** The loop of consumeFunc: read while the bytes satisfy f, and push
        back the first one that does not. */
    method ReadRun(f: byte -> bool)
      requires Valid()
      modifies this
      ensures Valid() && state == old(state)
      ensures pos == RunEnd(f, input, old(pos)) && buf == old(buf) + input[old(pos)..pos]
    {
      ghost var start, prefix := pos, buf;
      while true
        invariant Valid() && start <= pos && state == old(state)
        invariant buf == prefix + input[start..pos]
        invariant forall i | start <= i < pos :: f(input[i])
        decreases |input| - pos
      {
        var ok := Read();
        if !ok {
          break;
        }
        if !f(buf[|buf| - 1]) {
          ok := Unread();
          break;
        }
      }
      RunEndUnique(f, input, start, pos);
    }

    /** consumeWhile: the run of bytes that occur in bs. */
    method ConsumeWhile(bs: seq<byte>, kind: Kind) returns (out: Outcome)
      requires Valid() && |buf| > 0
      modifies this
      ensures Valid() && Step(out, Snapshot()) == ConsumeRunStep(old(Snapshot()), x => x in bs, kind)
    {
      out := ConsumeFunc(x => x in bs, kind);
    }

    /** consumeUntil: the run of bytes that do not occur in bs. */
    method ConsumeUntil(bs: seq<byte>, kind: Kind) returns (out: Outcome)
      requires Valid() && |buf| > 0
      modifies this
      ensures Valid() && Step(out, Snapshot()) == ConsumeRunStep(old(Snapshot()), x => x !in bs, kind)
    {
      out := ConsumeFunc(x => x !in bs, kind);
    }

    /** getString: decode a quoted string whose opening quote is buffered. */
    method GetString() returns (out: Outcome)
      requires Valid() && |buf| > 0
      modifies this
      ensures Valid() && Step(out, Snapshot()) == StringStep(old(Snapshot()))
    {
      if buf[0] != '"' {
        return Failed(ExpectedQuote);
      }
      while true
        invariant Valid() && |buf| > 0 && state == old(state)
        invariant StringLoop(Snapshot()) == StringStep(old(Snapshot()))
        decreases |input| - pos
      {
        var closed, failed := DecodeTurn();
        if failed {
          return Failed(UnexpectedEnd);
        }
        if closed {
          break;
        }
      }
      buf := buf[1..|buf| - 1];
      if |buf| >= MaxString {
        return Failed(StringTooLong(buf));
      }
      var leaf := Consume(String);
      out := Token(leaf);
    }

    /** One turn of the loop of getString: read a byte, and after a
        backslash the byte it escapes, which replaces it decoded. */
    method DecodeTurn() returns (closed: bool, failed: bool)
      requires Valid() && |buf| > 0
      modifies this
      ensures Valid() && |buf| > 0 && state == old(state)
      ensures failed ==> StringLoop(old(Snapshot())) == Step(Failed(UnexpectedEnd), Snapshot())
      ensures !failed && closed ==> |buf| >= 2 && StringLoop(old(Snapshot())) == StringClose(Snapshot())
      ensures !failed && !closed ==> pos > old(pos) && StringLoop(old(Snapshot())) == StringLoop(Snapshot())
    {
      ghost var s := Snapshot();
      closed, failed := false, false;
      var ok := Read();
      if !ok {
        return false, true;
      }
      ghost var t := Snapshot();
      assert t == ReadStep(s);
      var c := buf[|buf| - 1];
      if c == '\\' {
        ok := Read();
        if !ok {
          assert StringLoop(s) == Step(Failed(UnexpectedEnd), t);
          return false, true;
        }
        ghost var u := Snapshot();
        assert u == ReadStep(t);
        ghost var n := |u.buf|;
        if buf[|buf| - 1] == 'n' {
          buf := buf[|buf| - 2 := '\n'];
        } else {
          buf := buf[|buf| - 2 := buf[|buf| - 1]];
        }
        buf := buf[..|buf| - 1];
        assert Snapshot() == u.(buf := u.buf[n - 2 := Unescaped(u.buf[n - 1])][..n - 1]);
        assert StringLoop(s) == StringLoop(Snapshot());
      } else if c == '"' {
        assert StringLoop(s) == StringClose(t);
        closed := true;
      } else {
        assert StringLoop(s) == StringLoop(t);
      }
    }

    /** The `\` branch of Get: a character given by one byte or by up to
        three octal digits, without the backslash. */
    method ReadCharLiteral() returns (out: Outcome)
      requires Valid() && |buf| == 1
      modifies this
      ensures Valid() && Step(out, Snapshot()) == CharStep(old(Snapshot()))
    {
      var ok := Read();
      if !ok {
        return Failed(UnexpectedEnd);
      }
      ghost var t := Snapshot();
      buf := buf[0 := buf[1]];
      buf := buf[..1];
      assert Snapshot() == t.(buf := [t.buf[1]]);
      out := ReadOctal();
    }

    /** The octal-digit loop of the `\` branch, the byte after the backslash
        buffered: read while the newest byte is an octal digit and fewer
        than three were taken, then push back the byte that stopped it. */
    method ReadOctal() returns (out: Outcome)
      requires Valid() && pos > 0 && |buf| == 1
      modifies this
      ensures Valid() && Step(out, Snapshot()) == OctalLoop(old(Snapshot()), 0)
    {
      var i := 0;
      while IsOcta(buf[i]) && i < 3
        invariant Valid() && pos > 0 && i <= 3 && |buf| == i + 1
        invariant OctalLoop(Snapshot(), i) == OctalLoop(old(Snapshot()), 0)
        decreases 3 - i
      {
        ghost var s := Snapshot();
        var ok := Read();
        if !ok {
          assert OctalLoop(s, i) == Step(Failed(UnexpectedEnd), s);
          return Failed(UnexpectedEnd);
        }
        assert OctalLoop(s, i) == OctalLoop(ReadStep(s), i + 1);
        i := i + 1;
      }
      ghost var s := Snapshot();
      if i != 0 {
        var ok := Unread();
        assert OctalLoop(s, i) == ConsumeStep(Snapshot(), Char);
      } else {
        assert OctalLoop(s, i) == ConsumeStep(s, Char);
      }
      var leaf := Consume(Char);
      out := Token(leaf);
    }

    /** The rules of Get for a buffer of two bytes or more, applied after
        its read: None where Get's loop continues. */
    method MatchBuffer() returns (result: Option<Outcome>)
      requires Valid() && pos > 0 && |buf| > 1
      modifies this
      ensures Valid()
      ensures var a := Accumulate(old(Snapshot()));
        result.Some? == a.Return? &&
        (result.Some? ==> Step(result.value, Snapshot()) == a.r) && (result.None? ==> Snapshot() == a.s)
    {
      var n := |buf|;
      if buf[n - 1] == '\n' && buf[n - 2] == '\\' {
        buf := buf[..n - 2];
        return None;
      }
      if MatchesUnicode(buf) {
        var leaf := Consume(Unicode);
        return Some(Token(leaf));
      }
      if MatchesHex(buf) {
        var more := Peek();
        if more.None? {
          return Some(Failed(UnexpectedEnd));
        }
        if IsHex(more.value) {
          return None;
        }
        var leaf := Consume(Number);
        return Some(Token(leaf));
      }
      if state == StateValue {
        if buf[n - 1] in " \t\r\n" {
          var ok := Unread();
          if MatchesLiteral(buf) {
            var leaf := Consume(Literal);
            return Some(Token(leaf));
          }
          return Some(Failed(UnexpectedSpacing(buf)));
        }
        return None;
      }
      match KeywordRule(buf, state, Peek())
      case Keyword(k) =>
        SetState(KeywordMode(k, state));
        var leaf := Consume(k);
        return Some(Token(leaf));
      case PeekFailed =>
        return Some(Failed(UnexpectedEnd));
      case NoKeyword =>
        if MatchesAltIsMeta(buf) {
          var leaf := Consume(AltIsMeta);
          return Some(Token(leaf));
        }
        return None;
    }

    /** The switch of Get on a single buffered byte: None where Get's
        loop continues. */
    method MatchByte() returns (result: Option<Outcome>)
      requires Valid() && pos > 0 && |buf| == 1
      modifies this
      ensures Valid()
      ensures var a := Single(old(Snapshot()));
        result.Some? == a.Return? &&
        (result.Some? ==> Step(result.value, Snapshot()) == a.r) && (result.None? ==> Snapshot() == a.s)
    {
      var c := buf[0];
      var out: Outcome;
      if c in " \t\r" {
        out := ConsumeWhile(" \t\r", Space);
      } else if c in "#!" {
        out := ConsumeUntil("\n", Comment);
      } else if c == '-' {
        var leaf := Consume(Dash);
        out := Token(leaf);
      } else if c == '+' {
        var leaf := Consume(Plus);
        out := Token(leaf);
      } else if c == ',' {
        var leaf := Consume(Comma);
        out := Token(leaf);
      } else if c == '\n' {
        SetState(StateNormal);
        var leaf := Consume(NewLine);
        out := Token(leaf);
      } else if c == '=' {
        SetState(StateValue);
        var leaf := Consume(Equals);
        out := Token(leaf);
      } else if c == '"' {
        SetState(StateNormal);
        out := GetString();
      } else if IsDigit(c) {
        if c == '0' {
          var more := Peek();
          if more.None? {
            return Some(Failed(UnexpectedEnd));
          }
          if more.value in "xX" {
            return None;
          }
        }
        out := ConsumeWhile("0123456789", Number);
      } else if c == '\\' {
        out := ReadCharLiteral();
      } else {
        return None;
      }
      result := Some(out);
    }

    /** Get: the next leaf, the end marker or an error. */
    method Get() returns (out: Outcome)
      requires Valid()
      modifies this
      ensures Valid() && Step(out, Snapshot()) == NextToken(old(Snapshot()))
    {
      while true
        invariant Valid()
        invariant NextToken(Snapshot()) == NextToken(old(Snapshot()))
        decreases |input| - pos
      {
        var ok, result := Turn();
        if !ok {
          if |buf| != 0 {
            break;
          }
          return EndOfInput;
        }
        if result.Some? {
          return result.value;
        }
      }
      out := Failed(Syntax(state, buf));
    }

    /** One iteration of the loop of Get: read a byte, then apply the rules
        for the buffer; ok is false at the end of input. */
    method Turn() returns (ok: bool, result: Option<Outcome>)
      requires Valid()
      modifies this
      ensures Valid()
      ensures !ok ==> pos == |input| && Snapshot() == old(Snapshot())
      ensures ok && result.Some? ==> Step(result.value, Snapshot()) == NextToken(old(Snapshot()))
      ensures ok && result.None? ==> pos > old(pos) && NextToken(Snapshot()) == NextToken(old(Snapshot()))
    {
      ghost var s := Snapshot();
      ok := Read();
      if !ok {
        return false, None;
      }
      ghost var t := Snapshot();
      assert t == Scan(s.input, s.pos + 1, s.buf + [s.input[s.pos]], s.mode);
      if |buf| > 1 {
        result := MatchBuffer();
      } else {
        result := MatchByte();
      }
      if result.Some? {
        NextTokenReturns(s, t, Step(result.value, Snapshot()));
      } else {
        NextTokenContinues(s, t, Snapshot());
      }
    }
  }}
