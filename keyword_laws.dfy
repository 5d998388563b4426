/**
 * Laws of the keyword switch of Get: the table of spellings is a set of case
 * variants of one lower-case word per keyword, the spellings of different
 * keywords never coincide, and the switch returns a keyword exactly when the
 * buffer is one of its spellings and the one-byte lookahead allows it.
 */
module KeywordLaws {
  import opened Wrappers
  import opened Bytes
  import opened Leaves
  import opened Scanner

  /** ASCII lower case of one byte. */
  function LowerByte(c: byte): byte {
    if 'A' <= c <= 'Z' then (c as int + 32) as char else c
  }

  /** ASCII lower case of a byte string. */
  function Lower(b: seq<byte>): (r: seq<byte>)
    ensures |r| == |b|
    ensures forall j | 0 <= j < |b| :: r[j] == LowerByte(b[j])
  {
    if b == [] then [] else [LowerByte(b[0])] + Lower(b[1..])
  }

  /** From index i on, s consists of letters whose lower case is w. */
  predicate VariantFrom(s: seq<byte>, w: seq<byte>, i: nat)
    requires i <= |s| == |w|
    decreases |s| - i
  {
    i == |s| || (IsLetter(s[i]) && LowerByte(s[i]) == w[i] && VariantFrom(s, w, i + 1))
  }

  /** s is w with some of its letters in upper case. */
  predicate CaseVariant(s: seq<byte>, w: seq<byte>) {
    |s| == |w| && VariantFrom(s, w, 0)
  }

  /** What CaseVariant means, byte by byte. */
  lemma {:induction false} CaseVariantBytes(s: seq<byte>, w: seq<byte>, i: nat)
    requires i <= |s| == |w| && VariantFrom(s, w, i)
    ensures forall j | i <= j < |s| :: IsLetter(s[j]) && LowerByte(s[j]) == w[j]
    decreases |s| - i
  {
    if i < |s| {
      CaseVariantBytes(s, w, i + 1);
    }
  }

  /** From index i on, every entry of the list is a case variant of w. */
  predicate AllVariantsFrom(list: seq<seq<byte>>, w: seq<byte>, i: nat)
    requires i <= |list|
    decreases |list| - i
  {
    i == |list| || (CaseVariant(list[i], w) && AllVariantsFrom(list, w, i + 1))
  }

  lemma {:induction false} AllVariantsAt(list: seq<seq<byte>>, w: seq<byte>, i: nat, j: nat)
    requires i <= j < |list| && AllVariantsFrom(list, w, i)
    ensures CaseVariant(list[j], w)
    decreases j - i
  {
    if i < j {
      AllVariantsAt(list, w, i + 1, j);
    }
  }

  lemma TablePart0(k: Kind)
    requires k.Include? || k.Alt? || k.AltGr? || k.String?
    ensures AllVariantsFrom(Spellings(k), Spellings(k)[0], 0)
  {
    match k
    case Include =>
    case Alt =>
      assert AllVariantsFrom(Spellings(k), Spellings(k)[0], 2);
      assert AllVariantsFrom(Spellings(k), Spellings(k)[0], 1);
    case AltGr =>
      assert AllVariantsFrom(Spellings(k), Spellings(k)[0], 3);
      assert AllVariantsFrom(Spellings(k), Spellings(k)[0], 2);
      assert AllVariantsFrom(Spellings(k), Spellings(k)[0], 1);
    case String =>
      assert AllVariantsFrom(Spellings(k), Spellings(k)[0], 2);
      assert AllVariantsFrom(Spellings(k), Spellings(k)[0], 1);
  }

  lemma TablePart1(k: Kind)
    requires k.Strings? || k.Shift? || k.ShiftL? || k.ShiftR?
    ensures AllVariantsFrom(Spellings(k), Spellings(k)[0], 0)
  {
    match k
    case Strings =>
      assert AllVariantsFrom(Spellings(k), Spellings(k)[0], 2);
      assert AllVariantsFrom(Spellings(k), Spellings(k)[0], 1);
    case Shift =>
      assert AllVariantsFrom(Spellings(k), Spellings(k)[0], 2);
      assert AllVariantsFrom(Spellings(k), Spellings(k)[0], 1);
    case ShiftL =>
      assert AllVariantsFrom(Spellings(k), Spellings(k)[0], 2);
      assert AllVariantsFrom(Spellings(k), Spellings(k)[0], 1);
    case ShiftR =>
      assert AllVariantsFrom(Spellings(k), Spellings(k)[0], 2);
      assert AllVariantsFrom(Spellings(k), Spellings(k)[0], 1);
  }

  lemma TablePart2(k: Kind)
    requires k.Keycode? || k.Charset? || k.Keymaps? || k.Plain?
    ensures AllVariantsFrom(Spellings(k), Spellings(k)[0], 0)
  {
    match k
    case Keycode =>
      assert AllVariantsFrom(Spellings(k), Spellings(k)[0], 3);
      assert AllVariantsFrom(Spellings(k), Spellings(k)[0], 2);
      assert AllVariantsFrom(Spellings(k), Spellings(k)[0], 1);
    case Charset =>
      assert AllVariantsFrom(Spellings(k), Spellings(k)[0], 3);
      assert AllVariantsFrom(Spellings(k), Spellings(k)[0], 2);
      assert AllVariantsFrom(Spellings(k), Spellings(k)[0], 1);
    case Keymaps =>
      assert AllVariantsFrom(Spellings(k), Spellings(k)[0], 3);
      assert AllVariantsFrom(Spellings(k), Spellings(k)[0], 2);
      assert AllVariantsFrom(Spellings(k), Spellings(k)[0], 1);
    case Plain =>
      assert AllVariantsFrom(Spellings(k), Spellings(k)[0], 2);
      assert AllVariantsFrom(Spellings(k), Spellings(k)[0], 1);
  }

  lemma TablePart3(k: Kind)
    requires k.Control? || k.CtrlL? || k.CtrlR? || k.CapsShift?
    ensures AllVariantsFrom(Spellings(k), Spellings(k)[0], 0)
  {
    match k
    case Control =>
      assert AllVariantsFrom(Spellings(k), Spellings(k)[0], 2);
      assert AllVariantsFrom(Spellings(k), Spellings(k)[0], 1);
    case CtrlL =>
      assert AllVariantsFrom(Spellings(k), Spellings(k)[0], 2);
      assert AllVariantsFrom(Spellings(k), Spellings(k)[0], 1);
    case CtrlR =>
      assert AllVariantsFrom(Spellings(k), Spellings(k)[0], 2);
      assert AllVariantsFrom(Spellings(k), Spellings(k)[0], 1);
    case CapsShift =>
      assert AllVariantsFrom(Spellings(k), Spellings(k)[0], 3);
      assert AllVariantsFrom(Spellings(k), Spellings(k)[0], 2);
      assert AllVariantsFrom(Spellings(k), Spellings(k)[0], 1);
  }

  lemma TablePart4(k: Kind)
    requires k.Compose? || k.Usual? || k.For? || k.As?
    ensures AllVariantsFrom(Spellings(k), Spellings(k)[0], 0)
  {
    match k
    case Compose =>
      assert AllVariantsFrom(Spellings(k), Spellings(k)[0], 2);
      assert AllVariantsFrom(Spellings(k), Spellings(k)[0], 1);
    case Usual =>
      assert AllVariantsFrom(Spellings(k), Spellings(k)[0], 2);
      assert AllVariantsFrom(Spellings(k), Spellings(k)[0], 1);
    case For =>
      assert AllVariantsFrom(Spellings(k), Spellings(k)[0], 2);
      assert AllVariantsFrom(Spellings(k), Spellings(k)[0], 1);
    case As =>
      assert AllVariantsFrom(Spellings(k), Spellings(k)[0], 2);
      assert AllVariantsFrom(Spellings(k), Spellings(k)[0], 1);
  }

  lemma TablePart5(k: Kind)
    requires k.On? || k.To?
    ensures AllVariantsFrom(Spellings(k), Spellings(k)[0], 0)
  {
    match k
    case On =>
      assert AllVariantsFrom(Spellings(k), Spellings(k)[0], 2);
      assert AllVariantsFrom(Spellings(k), Spellings(k)[0], 1);
    case To =>
      assert AllVariantsFrom(Spellings(k), Spellings(k)[0], 2);
      assert AllVariantsFrom(Spellings(k), Spellings(k)[0], 1);
  }

  /** The whole table, checked kind by kind. */
  lemma TableIsCaseVariants(k: Kind)
    ensures Spellings(k) != [] ==> AllVariantsFrom(Spellings(k), Spellings(k)[0], 0)
  {
    if k.Include? || k.Alt? || k.AltGr? || k.String? {
      TablePart0(k);
    }     else if k.Strings? || k.Shift? || k.ShiftL? || k.ShiftR? {
      TablePart1(k);
    }     else if k.Keycode? || k.Charset? || k.Keymaps? || k.Plain? {
      TablePart2(k);
    }     else if k.Control? || k.CtrlL? || k.CtrlR? || k.CapsShift? {
      TablePart3(k);
    }     else if k.Compose? || k.Usual? || k.For? || k.As? {
      TablePart4(k);
    }     else if k.On? || k.To? {
      TablePart5(k);
    }
  }

  /** Every spelling of a keyword is its first, lower-case spelling with
      some letters in upper case: the table accepts case variants only. */
  lemma SpellingsAreCaseVariants(k: Kind, i: nat)
    requires i < |Spellings(k)|
    ensures |Spellings(k)[i]| == |Spellings(k)[0]|
    ensures forall j | 0 <= j < |Spellings(k)[i]| ::
      IsLetter(Spellings(k)[i][j]) && LowerByte(Spellings(k)[i][j]) == Spellings(k)[0][j]
    ensures forall j | 0 <= j < |Spellings(k)[0]| :: 'a' <= Spellings(k)[0][j] <= 'z'
  {
    TableIsCaseVariants(k);
    AllVariantsAt(Spellings(k), Spellings(k)[0], 0, i);
    CaseVariantBytes(Spellings(k)[i], Spellings(k)[0], 0);
  }

  /** The keyword a lower-case word names, if any. */
  function KindOfWord(w: seq<byte>): Option<Kind> {
    if w == "include" then Some(Include)
    else if w == "alt" then Some(Alt)
    else if w == "altgr" then Some(AltGr)
    else if w == "string" then Some(String)
    else if w == "strings" then Some(Strings)
    else if w == "shift" then Some(Shift)
    else if w == "shiftl" then Some(ShiftL)
    else if w == "shiftr" then Some(ShiftR)
    else if w == "keycode" then Some(Keycode)
    else if w == "charset" then Some(Charset)
    else if w == "keymaps" then Some(Keymaps)
    else if w == "plain" then Some(Plain)
    else if w == "control" then Some(Control)
    else if w == "ctrll" then Some(CtrlL)
    else if w == "ctrlr" then Some(CtrlR)
    else if w == "capsshift" then Some(CapsShift)
    else if w == "compose" then Some(Compose)
    else if w == "usual" then Some(Usual)
    else if w == "for" then Some(For)
    else if w == "as" then Some(As)
    else if w == "on" then Some(On)
    else if w == "to" then Some(To)
    else None
  }

  /** The first spellings of different keywords are different words. */
  lemma KindOfWordInverts(k: Kind)
    requires Spellings(k) != []
    ensures KindOfWord(Spellings(k)[0]) == Some(k)
  {
    if k.Include? || k.Alt? || k.AltGr? || k.String? || k.Strings? || k.Shift? || k.ShiftL? || k.ShiftR? {
      InvertsFirst(k);
    } else if k.Keycode? || k.Charset? || k.Keymaps? || k.Plain? || k.Control? || k.CtrlL? || k.CtrlR? {
      InvertsMiddle(k);
    } else {
      InvertsLast(k);
    }
  }

  lemma InvertsFirst(k: Kind)
    requires k.Include? || k.Alt? || k.AltGr? || k.String? || k.Strings? || k.Shift? || k.ShiftL? || k.ShiftR?
    ensures KindOfWord(Spellings(k)[0]) == Some(k)
  {
  }

  lemma InvertsMiddle(k: Kind)
    requires k.Keycode? || k.Charset? || k.Keymaps? || k.Plain? || k.Control? || k.CtrlL? || k.CtrlR?
    ensures KindOfWord(Spellings(k)[0]) == Some(k)
  {
  }

  lemma InvertsLast(k: Kind)
    requires k.CapsShift? || k.Compose? || k.Usual? || k.For? || k.As? || k.On? || k.To?
    ensures KindOfWord(Spellings(k)[0]) == Some(k)
  {
  }

  /** No byte string is a spelling of two different keywords, so the order of
      the cases in the switch does not decide which keyword is returned. */
  lemma SpellingsDisjoint(j: Kind, k: Kind, b: seq<byte>)
    requires b in Spellings(j) && b in Spellings(k)
    ensures j == k
  {
    SpelledLower(j, b);
    SpelledLower(k, b);
    KindOfWordInverts(j);
    KindOfWordInverts(k);
  }

  /** A spelling of k lowers to the first spelling of k. */
  lemma SpelledLower(k: Kind, b: seq<byte>)
    requires b in Spellings(k)
    ensures Lower(b) == Spellings(k)[0]
  {
    var x :| 0 <= x < |Spellings(k)| && Spellings(k)[x] == b;
    SpellingsAreCaseVariants(k, x);
  }

  /** The switch finds the case of the only keyword that b spells. */
  lemma {:induction false} SwitchFinds(cases: seq<Kind>, b: seq<byte>, mode: Mode, next: Option<byte>, k: Kind)
    requires k in cases && b in Spellings(k)
    requires forall j :: b in Spellings(j) ==> j == k
    ensures SwitchFrom(cases, b, mode, next) == CaseRule(k, mode, next)
    decreases |cases|
  {
    if cases[0] != k {
      assert b !in Spellings(cases[0]);
      assert k in cases[1..];
      SwitchFinds(cases[1..], b, mode, next, k);
    }
  }

  /** Only the keyword kinds have spellings, and each has a case. */
  lemma SpelledKeyword(b: seq<byte>, k: Kind)
    requires b in Spellings(k)
    ensures k in SwitchOrder
  {
  }

  /** The switch agrees with the table: a spelling of k decides as the case
      of k does, whatever the order of the cases. */
  lemma KeywordRuleMatchesTable(b: seq<byte>, mode: Mode, next: Option<byte>, k: Kind)
    requires b in Spellings(k)
    ensures KeywordRule(b, mode, next) == CaseRule(k, mode, next)
  {
    OnlyKind(b, k);
    SpelledKeyword(b, k);
    SwitchFinds(SwitchOrder, b, mode, next, k);
  }

  /** A spelling of k spells no other keyword. */
  lemma OnlyKind(b: seq<byte>, k: Kind)
    requires b in Spellings(k)
    ensures forall j :: b in Spellings(j) ==> j == k
  {
    forall j | b in Spellings(j)
      ensures j == k
    {
      SpellingsDisjoint(j, k, b);
    }
  }

  /** A byte string that lowers to the first spelling of k can spell no
      keyword but k. */
  lemma OnlyCandidate(b: seq<byte>, k: Kind)
    requires Spellings(k) != [] && |b| == |Spellings(k)[0]|
    requires forall i | 0 <= i < |b| :: LowerByte(b[i]) == Spellings(k)[0][i]
    ensures forall j :: b in Spellings(j) ==> j == k
  {
    assert Lower(b) == Spellings(k)[0];
    forall j | b in Spellings(j)
      ensures j == k
    {
      SpelledLower(j, b);
      KindOfWordInverts(j);
      KindOfWordInverts(k);
    }
  }

  /** The switch from any case on leaves a byte string that spells no
      keyword alone. */
  lemma {:induction false} SwitchMiss(cases: seq<Kind>, b: seq<byte>, mode: Mode, next: Option<byte>)
    requires forall k :: b !in Spellings(k)
    ensures SwitchFrom(cases, b, mode, next) == NoKeyword
    decreases |cases|
  {
    if cases != [] {
      SwitchMiss(cases[1..], b, mode, next);
    }
  }

  /** A byte string that spells no keyword never yields one. */
  lemma KeywordRuleMiss(b: seq<byte>, mode: Mode, next: Option<byte>)
    requires forall k :: b !in Spellings(k)
    ensures KeywordRule(b, mode, next) == NoKeyword
  {
    SwitchMiss(SwitchOrder, b, mode, next);
  }

  /** The switch from any case on yields a keyword only for one of its
      spellings, and fails only on a failed lookahead. */
  lemma {:induction false} SwitchSound(cases: seq<Kind>, b: seq<byte>, mode: Mode, next: Option<byte>)
    ensures var r := SwitchFrom(cases, b, mode, next);
      (r.Keyword? ==> b in Spellings(r.kind)) && (r == PeekFailed ==> next == None)
    decreases |cases|
  {
    if cases != [] && b !in Spellings(cases[0]) {
      SwitchSound(cases[1..], b, mode, next);
    }
  }

  /** Only a keyword's own spellings yield it, and only a failed lookahead
      makes the switch fail. */
  lemma KeywordRuleSound(b: seq<byte>, mode: Mode, next: Option<byte>)
    ensures KeywordRule(b, mode, next).Keyword? ==> b in Spellings(KeywordRule(b, mode, next).kind)
    ensures KeywordRule(b, mode, next) == PeekFailed ==> next == None
  {
    SwitchSound(SwitchOrder, b, mode, next);
  }

  /** The lookahead of the guarded cases: alt, string and shift give way to
      a longer keyword when its next letter follows, fail at the end of
      input, and are returned otherwise. */
  lemma GuardedKeywords(mode: Mode, next: Option<byte>)
    ensures CaseRule(Alt, mode, next) == Keyword(Alt) <==> next.Some? && next.value !in "gG"
    ensures CaseRule(String, mode, next) == Keyword(String) <==> next.Some? && next.value !in "sS"
    ensures CaseRule(Shift, mode, next) == Keyword(Shift) <==> next.Some? && next.value !in "rRlL"
    ensures CaseRule(Alt, mode, next) == PeekFailed <==> next == None
    ensures CaseRule(String, mode, next) == PeekFailed <==> next == None
    ensures CaseRule(Shift, mode, next) == PeekFailed <==> next == None
  {
  }

  /** The keyword a proper prefix of a keyword's lower-case spelling
      names: alt inside altgr, string inside strings, shift inside shiftl
      and shiftr, and no other. */
  function PrefixKeyword(k: Kind, n: nat): Option<Kind> {
    if k == AltGr && n == 3 then Some(Alt)
    else if k == Strings && n == 6 then Some(String)
    else if (k == ShiftL || k == ShiftR) && n == 5 then Some(Shift)
    else None
  }

  /** Two first spellings that agree in their first two bytes, the shorter
      before the longer, are one of the pairs PrefixKeyword names. */
  lemma HeadPairs(j: Kind, k: Kind)
    requires Spellings(j) != [] && Spellings(k) != []
    requires |Spellings(j)[0]| < |Spellings(k)[0]|
    requires Spellings(j)[0][0] == Spellings(k)[0][0] && Spellings(j)[0][1] == Spellings(k)[0][1]
    ensures PrefixKeyword(k, |Spellings(j)[0]|) == Some(j)
  {
    if k.Include? || k.Alt? || k.AltGr? || k.String? || k.Strings? || k.Keycode? || k.Charset? || k.Keymaps? || k.Plain? || k.Control? || k.CtrlL? {
      HeadPairsFirst(j, k);
    } else {
      HeadPairsLast(j, k);
    }
  }

  lemma HeadPairsFirst(j: Kind, k: Kind)
    requires k.Include? || k.Alt? || k.AltGr? || k.String? || k.Strings? || k.Keycode? || k.Charset? || k.Keymaps? || k.Plain? || k.Control? || k.CtrlL?
    requires Spellings(j) != [] && Spellings(k) != []
    requires |Spellings(j)[0]| < |Spellings(k)[0]|
    requires Spellings(j)[0][0] == Spellings(k)[0][0] && Spellings(j)[0][1] == Spellings(k)[0][1]
    ensures PrefixKeyword(k, |Spellings(j)[0]|) == Some(j)
  {
  }

  lemma HeadPairsLast(j: Kind, k: Kind)
    requires !(k.Include? || k.Alt? || k.AltGr? || k.String? || k.Strings? || k.Keycode? || k.Charset? || k.Keymaps? || k.Plain? || k.Control? || k.CtrlL?)
    requires Spellings(j) != [] && Spellings(k) != []
    requires |Spellings(j)[0]| < |Spellings(k)[0]|
    requires Spellings(j)[0][0] == Spellings(k)[0][0] && Spellings(j)[0][1] == Spellings(k)[0][1]
    ensures PrefixKeyword(k, |Spellings(j)[0]|) == Some(j)
  {
  }

  /** The byte of a longer keyword after its guarded prefix, in upper or in
      lower case, postpones the prefix's keyword. */
  lemma PrefixFollower(k: Kind, n: nat, c: byte)
    requires PrefixKeyword(k, n).Some?
    requires n < |Spellings(k)[0]| && LowerByte(c) == Spellings(k)[0][n]
    ensures c in Postponers(PrefixKeyword(k, n).value)
  {
  }

  /** w goes on from b with the byte c. */
  predicate Continues(b: seq<byte>, c: byte, w: seq<byte>) {
    |b| < |w| && w[..|b| + 1] == b + [c]
  }

  /** One spelling of k that c carries on into a spelling of j. */
  lemma ContinuedBy(k: Kind, c: byte, b: seq<byte>, j: Kind, w: seq<byte>)
    requires b in Spellings(k) && w in Spellings(j) && j != k && Continues(b, c, w)
    ensures exists b, j, w | b in Spellings(k) && w in Spellings(j) :: j != k && Continues(b, c, w)
  {
  }

  /** Every byte that postpones keyword k carries one of k's spellings on
      into a spelling of a longer keyword: no postponement is spurious. */
  lemma PostponersContinue(k: Kind, c: byte)
    requires c in Postponers(k)
    ensures exists b, j, w | b in Spellings(k) && w in Spellings(j) :: j != k && Continues(b, c, w)
  {
    if k == Alt {
      AltContinued(c);
    } else if k == String {
      StringContinued(c);
    } else {
      ShiftContinued(c);
    }
  }

  /** alt goes on into altgr. */
  lemma AltContinued(c: byte)
    requires c in Postponers(Alt)
    ensures exists b, j, w | b in Spellings(Alt) && w in Spellings(j) :: j != Alt && Continues(b, c, w)
  {
    var a, g := Spellings(Alt), Spellings(AltGr);
    if c == 'g' { ContinuedBy(Alt, c, a[0], AltGr, g[0]); }
    else { ContinuedBy(Alt, c, a[1], AltGr, g[2]); }
  }

  /** string goes on into strings. */
  lemma StringContinued(c: byte)
    requires c in Postponers(String)
    ensures exists b, j, w | b in Spellings(String) && w in Spellings(j) :: j != String && Continues(b, c, w)
  {
    var a, g := Spellings(String), Spellings(Strings);
    if c == 's' { ContinuedBy(String, c, a[0], Strings, g[0]); }
    else { ContinuedBy(String, c, a[2], Strings, g[2]); }
  }

  /** shift goes on into shiftl and shiftr. */
  lemma ShiftContinued(c: byte)
    requires c in Postponers(Shift)
    ensures exists b, j, w | b in Spellings(Shift) && w in Spellings(j) :: j != Shift && Continues(b, c, w)
  {
    var a, l, r := Spellings(Shift), Spellings(ShiftL), Spellings(ShiftR);
    if c == 'r' { ContinuedBy(Shift, c, a[0], ShiftR, r[0]); }
    else if c == 'R' { ContinuedBy(Shift, c, a[2], ShiftR, r[2]); }
    else if c == 'l' { ContinuedBy(Shift, c, a[0], ShiftL, l[0]); }
    else { ContinuedBy(Shift, c, a[2], ShiftL, l[2]); }
  }

  /** A proper prefix of a keyword's spelling that spells a keyword itself
      spells a guarded one, and the byte after it postpones that one. */
  lemma PrefixPostponed(b: seq<byte>, k: Kind, i: nat, j: Kind)
    requires b in Spellings(k) && 2 <= i < |b| && b[..i] in Spellings(j)
    ensures j != Control && Postponers(j) != [] && b[i] in Postponers(j)
  {
    SpelledLower(k, b);
    var w := Spellings(k)[0];
    var p := b[..i];
    SpelledLower(j, p);
    var v := Spellings(j)[0];
    assert |v| == i;
    assert v[0] == Lower(p)[0] == LowerByte(b[0]) == w[0];
    assert v[1] == Lower(p)[1] == LowerByte(b[1]) == w[1];
    HeadPairs(j, k);
    assert w[i] == Lower(b)[i] == LowerByte(b[i]);
    PrefixFollower(k, i, b[i]);
  }

  /** While a keyword is read, the switch decides nothing on a proper
      prefix of it: either the prefix spells no keyword, or it spells a
      guarded one whose longer form the next byte announces. */
  lemma PrefixUndecided(b: seq<byte>, k: Kind, i: nat, mode: Mode)
    requires b in Spellings(k) && 2 <= i < |b|
    ensures KeywordRule(b[..i], mode, Some(b[i])) == NoKeyword
  {
    var p := b[..i];
    if j :| p in Spellings(j) {
      PrefixPostponed(b, k, i, j);
      KeywordRuleMatchesTable(p, mode, Some(b[i]), j);
    } else {
      KeywordRuleMiss(p, mode, Some(b[i]));
    }
  }

  /** Matching is not case-insensitive: a spelling in the table is a
      keyword, a mixed spelling outside it is not, and include has a single
      spelling. */
  lemma MixedCaseInTable(mode: Mode, next: Option<byte>)
    ensures KeywordRule("KeyCode", mode, next) == Keyword(Keycode)
  {
    KeywordRuleMatchesTable("KeyCode", mode, next, Keycode);
  }

  lemma MixedCaseOutsideTable(mode: Mode, next: Option<byte>)
    ensures KeywordRule("kEYCODE", mode, next) == NoKeyword
  {
    OnlyCandidate("kEYCODE", Keycode);
    KeywordRuleMiss("kEYCODE", mode, next);
  }

  lemma IncludeLowerCaseOnly(mode: Mode, next: Option<byte>)
    ensures KeywordRule("Include", mode, next) == NoKeyword
  {
    OnlyCandidate("Include", Include);
    KeywordRuleMiss("Include", mode, next);
  }
}
