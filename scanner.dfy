/**
 * The keymap lexer as a pure state machine. A Scan value is the lexer's whole
 * state: the input bytes with the reader's cursor, the buffer of the token
 * being built and the mode. Every loop of the lexer is a function here, each
 * step of it one recursive call, and Leaf-producing calls return a Step: what
 * the call returns and the state it leaves. The class in module Lexer runs the
 * same algorithm in place and is proved to agree with these functions.
 */
module Scanner {
  import opened Wrappers
  import opened Bytes
  import opened Leaves

  /** The lexer's mode (StateNormal, StateValue, StateInclude). */
  datatype Mode = StateNormal | StateValue | StateInclude

  /** Decoded quoted strings must be shorter than this. */
  const MaxString: nat := 512

  /** Every way a call can fail. The source returns the last one as an error
      and panics in the others; here each is a result. */
  datatype LexError =
    | NothingConsumed                      // consumeFunc: the buffer does not end in the class
    | ExpectedQuote                        // getString: the buffer does not start with '"'
    | UnexpectedEnd                        // a read or a one-byte Peek found the end of input
    | StringTooLong(text: seq<byte>)       // decoded string of MaxString bytes or more
    | UnexpectedSpacing(text: seq<byte>)   // Value mode: whitespace after a non-identifier
    | Syntax(mode: Mode, text: seq<byte>)  // end of input with bytes left in the buffer

  /** What one call of Get returns: a leaf, the end marker (nil, nil), or an error. */
  datatype Outcome = Token(leaf: Leaf) | EndOfInput | Failed(error: LexError)

  /** The lexer state. The reader is the input with a cursor `pos`: the next
      byte to read is input[pos]. */
  datatype Scan = Scan(input: seq<byte>, pos: nat, buf: seq<byte>, mode: Mode) {
    predicate Valid() { pos <= |input| }
  }

  /** A result together with the state the call leaves behind. */
  datatype Step = Step(out: Outcome, next: Scan)

  /** read, when a byte is left: the next byte moves from the input to the buffer. */
  function ReadStep(s: Scan): (r: Scan)
    requires s.pos < |s.input|
    ensures r.Valid() && r.input == s.input && r.mode == s.mode
    ensures r.pos == s.pos + 1 && r.buf == s.buf + [s.input[s.pos]]
  {
    s.(pos := s.pos + 1, buf := s.buf + [s.input[s.pos]])
  }

  /** unread: the last byte goes back to the input. */
  function UnreadStep(s: Scan): (r: Scan)
    requires s.pos > 0 && |s.buf| > 0
    ensures r.input == s.input && r.mode == s.mode && r.pos + 1 == s.pos && r.buf + [s.buf[|s.buf| - 1]] == s.buf
  {
    s.(pos := s.pos - 1, buf := s.buf[..|s.buf| - 1])
  }

  /** input.Peek(1): the next byte, if there is one, without consuming it. */
  function PeekAt(s: Scan): (r: Option<byte>)
    requires s.Valid()
    ensures r.Some? <==> s.pos < |s.input|
    ensures r.Some? ==> ReadStep(s).buf == s.buf + [r.value]
  {
    if s.pos < |s.input| then Some(s.input[s.pos]) else None
  }

  /** unread undoes read, and Peek shows the byte the next read appends. */
  lemma ReadThenUnread(s: Scan)
    requires s.Valid() && s.pos < |s.input|
    ensures UnreadStep(ReadStep(s)) == s
    ensures PeekAt(s) == Some(ReadStep(s).buf[|s.buf|])
  {
  }

  /** consume: the buffer becomes a leaf of the given kind and is emptied. */
  function ConsumeStep(s: Scan, kind: Kind): (r: Step)
    ensures r.out == Token(Leaf(kind, s.buf))
    ensures r.next.input == s.input && r.next.pos == s.pos && r.next.mode == s.mode && r.next.buf == []
  {
    Step(Token(Leaf(kind, s.buf)), s.(buf := []))
  }

  /** Where the run of bytes satisfying f that starts at `from` ends. */
  function RunEnd(f: byte -> bool, input: seq<byte>, from: nat): (j: nat)
    requires from <= |input|
    ensures from <= j <= |input|
    ensures forall i | from <= i < j :: f(input[i])
    ensures j < |input| ==> !f(input[j])
    decreases |input| - from
  {
    if from == |input| || !f(input[from]) then from else RunEnd(f, input, from + 1)
  }

  /** The run's end is the only index that bounds a run of f-bytes from
      `from` and is followed by the end of input or a byte outside f. */
  lemma {:induction false} RunEndUnique(f: byte -> bool, input: seq<byte>, from: nat, j: nat)
    requires from <= j <= |input|
    requires forall i | from <= i < j :: f(input[i])
    requires j < |input| ==> !f(input[j])
    ensures RunEnd(f, input, from) == j
    decreases j - from
  {
    if from < j {
      RunEndUnique(f, input, from + 1, j);
    }
  }

  /** consumeFunc: the last buffered byte must satisfy f; then the whole run
      of input bytes satisfying f joins the buffer, which becomes the leaf. */
  function ConsumeRunStep(s: Scan, f: byte -> bool, kind: Kind): (r: Step)
    requires s.Valid() && |s.buf| > 0
    ensures r.next.Valid() && r.next.input == s.input && r.next.mode == s.mode && r.next.pos >= s.pos
  {
    if !f(s.buf[|s.buf| - 1]) then Step(Failed(NothingConsumed), s)
    else
      var j := RunEnd(f, s.input, s.pos);
      ConsumeStep(s.(pos := j, buf := s.buf + s.input[s.pos..j]), kind)
  }

  /** getString: checks the opening quote, then decodes. */
  function StringStep(s: Scan): (r: Step)
    requires s.Valid() && |s.buf| > 0
    ensures r.next.Valid() && r.next.input == s.input && r.next.mode == s.mode && r.next.pos >= s.pos
  {
    if s.buf[0] != '"' then Step(Failed(ExpectedQuote), s) else StringLoop(s)
  }

  /** The decode value of an escape `\d`: `\n` is a newline, every other
      byte stands for itself. */
  function Unescaped(d: byte): (r: byte)
    ensures r == '\n' <==> d == 'n' || d == '\n'
    ensures d != 'n' ==> r == d
  {
    if d == 'n' then '\n' else d
  }

  /** The loop of getString: read a byte; after a backslash read one more and
      overwrite the backslash with the escape's value; stop at a quote. */
  function StringLoop(s: Scan): (r: Step)
    requires s.Valid() && |s.buf| > 0
    ensures r.next.Valid() && r.next.input == s.input && r.next.mode == s.mode && r.next.pos >= s.pos
    decreases |s.input| - s.pos
  {
    if s.pos == |s.input| then Step(Failed(UnexpectedEnd), s)
    else
      var t := ReadStep(s);
      var c := t.buf[|t.buf| - 1];
      if c == '\\' then
        if t.pos == |t.input| then Step(Failed(UnexpectedEnd), t)
        else
          var u := ReadStep(t);
          var n := |u.buf|;
          StringLoop(u.(buf := u.buf[n - 2 := Unescaped(u.buf[n - 1])][..n - 1]))
      else if c == '"' then StringClose(t)
      else StringLoop(t)
  }

  /** After the closing quote: drop both quotes, enforce the length limit. */
  function StringClose(t: Scan): (r: Step)
    requires |t.buf| >= 2
    ensures r.next.input == t.input && r.next.pos == t.pos && r.next.mode == t.mode
    ensures r.out == if |t.buf| - 2 >= MaxString then Failed(StringTooLong(t.buf[1..|t.buf| - 1]))
      else Token(Leaf(String, t.buf[1..|t.buf| - 1]))
    ensures r.next.buf == if r.out.Token? then [] else t.buf[1..|t.buf| - 1]
  {
    var v := t.(buf := t.buf[1..|t.buf| - 1]);
    if |v.buf| >= MaxString then Step(Failed(StringTooLong(v.buf)), v)
    else ConsumeStep(v, String)
  }

  /** The `\` branch of Get: read the byte after the backslash, which replaces
      it, then the octal-digit loop. */
  function CharStep(s: Scan): (r: Step)
    requires s.Valid() && |s.buf| == 1
    ensures r.next.Valid() && r.next.input == s.input && r.next.mode == s.mode && r.next.pos >= s.pos
  {
    if s.pos == |s.input| then Step(Failed(UnexpectedEnd), s)
    else
      var t := ReadStep(s);
      OctalLoop(t.(buf := [t.buf[1]]), 0)
  }

  /** The octal-digit loop with counter i = |buf| - 1: while the newest byte
      is an octal digit and fewer than three were taken, read one more; then
      push the byte that stopped the loop back, if the loop read any. */
  function OctalLoop(s: Scan, i: nat): (r: Step)
    requires s.Valid() && s.pos > 0 && i <= 3 && |s.buf| == i + 1
    ensures r.next.Valid() && r.next.input == s.input && r.next.mode == s.mode && r.next.pos >= s.pos - 1
    decreases 3 - i
  {
    if IsOcta(s.buf[i]) && i < 3 then
      if s.pos == |s.input| then Step(Failed(UnexpectedEnd), s)
      else OctalLoop(ReadStep(s), i + 1)
    else if i != 0 then ConsumeStep(UnreadStep(s), Char)
    else ConsumeStep(s, Char)
  }

  /** The spellings each keyword case of Get accepts, exactly as listed. */
  function Spellings(k: Kind): seq<seq<byte>> {
    match k
    case Include => ["include"]
    case Alt => ["alt", "Alt", "ALT"]
    case AltGr => ["altgr", "Altgr", "AltGr", "ALTGR"]
    case String => ["string", "String", "STRING"]
    case Strings => ["strings", "Strings", "STRINGS"]
    case Shift => ["shift", "Shift", "SHIFT"]
    case ShiftL => ["shiftl", "ShiftL", "SHIFTL"]
    case ShiftR => ["shiftr", "ShiftR", "SHIFTR"]
    case Keycode => ["keycode", "Keycode", "KeyCode", "KEYCODE"]
    case Charset => ["charset", "Charset", "CharSet", "CHARSET"]
    case Keymaps => ["keymaps", "Keymaps", "KeyMaps", "KEYMAPS"]
    case Plain => ["plain", "Plain", "PLAIN"]
    case Control => ["control", "Control", "CONTROL"]
    case CtrlL => ["ctrll", "CtrlL", "CTRLL"]
    case CtrlR => ["ctrlr", "CtrlR", "CTRLR"]
    case CapsShift => ["capsshift", "Capsshift", "CapsShift", "CAPSSHIFT"]
    case Compose => ["compose", "Compose", "COMPOSE"]
    case Usual => ["usual", "Usual", "USUAL"]
    case For => ["for", "For", "FOR"]
    case As => ["as", "As", "AS"]
    case On => ["on", "On", "ON"]
    case To => ["to", "To", "TO"]
    case _ => []
  }

  /** The bytes whose presence right after a keyword postpone it, because a
      longer keyword may follow (alt/altgr, string/strings, shift/shiftl/shiftr). */
  function Postponers(k: Kind): seq<byte> {
    match k
    case Alt => "gG"
    case String => "sS"
    case Shift => "rRlL"
    case _ => ""
  }

  /** How the keyword switch of Get ends. */
  datatype Rule =
    | Keyword(kind: Kind)   // a case returned a leaf of this kind
    | NoKeyword             // no case matched, or a case broke out of the switch
    | PeekFailed            // a case's Peek found the end of input

  /** A keyword case that must look at the next byte first. */
  function Guarded(k: Kind, next: Option<byte>): (r: Rule)
    ensures r == PeekFailed <==> next == None
    ensures r == Keyword(k) <==> next.Some? && next.value !in Postponers(k)
    ensures r.Keyword? ==> r.kind == k
  {
    match next
    case None => PeekFailed
    case Some(c) => if c in Postponers(k) then NoKeyword else Keyword(k)
  }

  /** The keyword cases of the switch in Get, in the source's order. */
  const SwitchOrder: seq<Kind> := [Include, Alt, AltGr, String, Strings, Shift, ShiftL, ShiftR,
    Keycode, Charset, Keymaps, Plain, Control, CtrlL, CtrlR, CapsShift, Compose, Usual, For, As, On, To]

  /** The switch lists 22 cases, exactly the kinds with spellings; only alt,
      string and shift have postponers. */
  lemma SwitchCases()
    ensures |SwitchOrder| == 22
    ensures forall k :: k in SwitchOrder <==> Spellings(k) != []
    ensures forall k :: Postponers(k) != [] <==> k == Alt || k == String || k == Shift
  {
    forall k: Kind
      ensures k in SwitchOrder <==> Spellings(k) != []
    {
      SwitchMember(k);
    }
  }

  /** Keyword k has a case in the switch exactly when it has spellings. */
  lemma SwitchMember(k: Kind)
    ensures k in SwitchOrder <==> Spellings(k) != []
  {
    if Spellings(k) != [] {
      SwitchListed(k);
    } else {
      SwitchUnlisted(k);
    }
  }

  /** A kind with spellings has a case. */
  lemma SwitchListed(k: Kind)
    requires Spellings(k) != []
    ensures k in SwitchOrder
  {
    match k
    case Include => assert SwitchOrder[0] == k;
    case Alt => assert SwitchOrder[1] == k;
    case AltGr => assert SwitchOrder[2] == k;
    case String => assert SwitchOrder[3] == k;
    case Strings => assert SwitchOrder[4] == k;
    case Shift => assert SwitchOrder[5] == k;
    case ShiftL => assert SwitchOrder[6] == k;
    case ShiftR => assert SwitchOrder[7] == k;
    case Keycode => assert SwitchOrder[8] == k;
    case Charset => assert SwitchOrder[9] == k;
    case Keymaps => assert SwitchOrder[10] == k;
    case Plain => assert SwitchOrder[11] == k;
    case Control => assert SwitchOrder[12] == k;
    case CtrlL => assert SwitchOrder[13] == k;
    case CtrlR => assert SwitchOrder[14] == k;
    case CapsShift => assert SwitchOrder[15] == k;
    case Compose => assert SwitchOrder[16] == k;
    case Usual => assert SwitchOrder[17] == k;
    case For => assert SwitchOrder[18] == k;
    case As => assert SwitchOrder[19] == k;
    case On => assert SwitchOrder[20] == k;
    case To => assert SwitchOrder[21] == k;
  }

  /** A kind without spellings has none. */
  lemma SwitchUnlisted(k: Kind)
    requires Spellings(k) == []
    ensures k !in SwitchOrder
  {
  }

  /** What the case for keyword k does once one of its spellings matched:
      control breaks out in Value mode, alt, string and shift look at the
      next byte first, every other case returns its leaf. */
  function CaseRule(k: Kind, mode: Mode, next: Option<byte>): (r: Rule)
    ensures r.Keyword? ==> r.kind == k
    ensures r == PeekFailed ==> next == None && Postponers(k) != []
    ensures Postponers(k) == [] && !(k == Control && mode == StateValue) ==> r == Keyword(k)
  {
    if k == Control && mode == StateValue then NoKeyword
    else if Postponers(k) != [] then Guarded(k, next)
    else Keyword(k)
  }

  /** The switch from the given case on: the first case listing b decides. */
  function SwitchFrom(cases: seq<Kind>, b: seq<byte>, mode: Mode, next: Option<byte>): (r: Rule)
    ensures r.Keyword? ==> r.kind in cases && b in Spellings(r.kind)
    decreases |cases|
  {
    if cases == [] then NoKeyword
    else if b in Spellings(cases[0]) then CaseRule(cases[0], mode, next)
    else SwitchFrom(cases[1..], b, mode, next)
  }

  /** The keyword switch of Get. `next` is what Peek(1) would return; only
      the guarded cases look at it. */
  function KeywordRule(b: seq<byte>, mode: Mode, next: Option<byte>): (r: Rule)
    ensures r.Keyword? ==> r.kind in SwitchOrder && b in Spellings(r.kind)
  {
    SwitchFrom(SwitchOrder, b, mode, next)
  }

  /** The mode a keyword leaves: include selects Include, string and to
      select Value, every other keyword keeps the mode. */
  function KeywordMode(k: Kind, mode: Mode): (m: Mode)
    ensures m == StateValue <==> k == String || k == To || (k != Include && mode == StateValue)
    ensures m == StateInclude <==> k == Include || (k != String && k != To && mode == StateInclude)
  {
    if k == Include then StateInclude
    else if k == String || k == To then StateValue
    else mode
  }

  /** What an iteration of Get's loop decides: go on reading, or return. */
  datatype Action = Continue(s: Scan) | Return(r: Step)

  /** One iteration of Get's loop, after its read has appended a byte to the
      buffer: the rules in the source's order, first those for a buffer of
      several bytes, then the single-byte switch. */
  function Advance(t: Scan): (a: Action)
    requires t.Valid() && t.pos > 0 && |t.buf| > 0
    ensures a.Continue? ==> a.s.Valid() && a.s.input == t.input && a.s.pos == t.pos && a.s.mode == t.mode
    ensures a.Return? ==> a.r.next.Valid() && a.r.next.input == t.input && a.r.next.pos >= t.pos - 1
  {
    if |t.buf| > 1 then Accumulate(t) else Single(t)
  }

  /** The rules for a buffer of two bytes or more: line continuation, the
      unicode and hex patterns, Value-mode literals, then the keywords and
      alt-is-meta. */
  function Accumulate(t: Scan): (a: Action)
    requires t.Valid() && t.pos > 0 && |t.buf| > 1
    ensures a.Continue? ==> a.s.Valid() && a.s.input == t.input && a.s.pos == t.pos && a.s.mode == t.mode
    ensures a.Return? ==> a.r.next.Valid() && a.r.next.input == t.input && a.r.next.pos >= t.pos - 1
  {
    var b, n := t.buf, |t.buf|;
    if b[n - 1] == '\n' && b[n - 2] == '\\' then Continue(t.(buf := b[..n - 2]))
    else if MatchesUnicode(b) then Return(ConsumeStep(t, Unicode))
    else if MatchesHex(b) then
      match PeekAt(t)
      case None => Return(Step(Failed(UnexpectedEnd), t))
      case Some(c) => if IsHex(c) then Continue(t) else Return(ConsumeStep(t, Number))
    else if t.mode == StateValue then
      if b[n - 1] in " \t\r\n" then
        var u := UnreadStep(t);
        if MatchesLiteral(u.buf) then Return(ConsumeStep(u, Literal))
        else Return(Step(Failed(UnexpectedSpacing(u.buf)), u))
      else Continue(t)
    else
      match KeywordRule(b, t.mode, PeekAt(t))
      case Keyword(k) => Return(ConsumeStep(t.(mode := KeywordMode(k, t.mode)), k))
      case PeekFailed => Return(Step(Failed(UnexpectedEnd), t))
      case NoKeyword =>
        if MatchesAltIsMeta(b) then Return(ConsumeStep(t, AltIsMeta)) else Continue(t)
  }

  /** The switch on a single buffered byte. */
  function Single(t: Scan): (a: Action)
    requires t.Valid() && t.pos > 0 && |t.buf| == 1
    ensures a.Continue? ==> a.s.Valid() && a.s.input == t.input && a.s.pos == t.pos && a.s.mode == t.mode
    ensures a.Return? ==> a.r.next.Valid() && a.r.next.input == t.input && a.r.next.pos >= t.pos - 1
  {
    var c := t.buf[0];
    if c in " \t\r" then Return(ConsumeRunStep(t, x => x in " \t\r", Space))
    else if c in "#!" then Return(ConsumeRunStep(t, x => x !in "\n", Comment))
    else if c == '-' then Return(ConsumeStep(t, Dash))
    else if c == '+' then Return(ConsumeStep(t, Plus))
    else if c == ',' then Return(ConsumeStep(t, Comma))
    else if c == '\n' then Return(ConsumeStep(t.(mode := StateNormal), NewLine))
    else if c == '=' then Return(ConsumeStep(t.(mode := StateValue), Equals))
    else if c == '"' then Return(StringStep(t.(mode := StateNormal)))
    else if IsDigit(c) then
      if c == '0' then
        match PeekAt(t)
        case None => Return(Step(Failed(UnexpectedEnd), t))
        case Some(d) =>
          if d in "xX" then Continue(t)
          else Return(ConsumeRunStep(t, x => x in "0123456789", Number))
      else Return(ConsumeRunStep(t, x => x in "0123456789", Number))
    else if c == '\\' then Return(CharStep(t))
    else Continue(t)
  }

  /** Get: read a byte and apply the rules, until one returns or the input
      ends. At the end an empty buffer means end of input, a non-empty one a
      syntax error naming the mode and the buffer. */
  function NextToken(s: Scan): (r: Step)
    requires s.Valid()
    ensures r.next.Valid() && r.next.input == s.input && r.next.pos >= s.pos
    decreases |s.input| - s.pos
  {
    if s.pos == |s.input| then
      if s.buf == [] then Step(EndOfInput, s) else Step(Failed(Syntax(s.mode, s.buf)), s)
    else
      match Advance(ReadStep(s))
      case Continue(u) => NextToken(u)
      case Return(r) => r
  }

  /** A call whose first iteration goes on reading continues as the call
      from the state that iteration leaves. */
  lemma NextTokenContinues(s: Scan, t: Scan, u: Scan)
    requires s.Valid() && s.pos < |s.input|
    requires t == Scan(s.input, s.pos + 1, s.buf + [s.input[s.pos]], s.mode)
    requires Advance(t) == Continue(u)
    ensures NextToken(s) == NextToken(u)
  {
    assert ReadStep(s) == t;
  }

  /** A call whose first iteration returns r returns r. */
  lemma NextTokenReturns(s: Scan, t: Scan, r: Step)
    requires s.Valid() && s.pos < |s.input|
    requires t == Scan(s.input, s.pos + 1, s.buf + [s.input[s.pos]], s.mode)
    requires Advance(t) == Return(r)
    ensures NextToken(s) == r
  {
    assert ReadStep(s) == t;
  }
}
