/**
 * The token model of the keymap lexer: the closed enumeration of leaf kinds,
 * the Leaf record the lexer emits, and its two renderings (the text
 * marshaller and the three-field debug record).
 */
module Leaves {
  import opened Wrappers
  import opened Bytes

  /** Leaf kinds, declared in the order the source gives them ordinals. */
  datatype Kind =
    | Unknown | Space | NewLine | Comment | Equals | Dash | Comma | Plus
    | Char | Number | Unicode | Literal | Escaped | Quote | Strval | AltIsMeta
    | Strings | String | Charset | Keymaps | Keycode | Plain | CapsShift
    | Compose | Control | CtrlL | CtrlR | AltGr | Alt | ShiftL | ShiftR
    | Shift | Usual | For | As | On | To | Include

  /** Number of kinds: the ordinals are 0 .. KindCount - 1. */
  const KindCount: nat := 38

  /** The integer value the source gives each kind (iota from Unknown = 0). */
  function Ordinal(k: Kind): (n: nat)
    ensures n < KindCount
    ensures FromOrdinal(n) == k
  {
    match k
    case Unknown => 0    case Space => 1      case NewLine => 2    case Comment => 3
    case Equals => 4     case Dash => 5       case Comma => 6      case Plus => 7
    case Char => 8       case Number => 9     case Unicode => 10   case Literal => 11
    case Escaped => 12   case Quote => 13     case Strval => 14    case AltIsMeta => 15
    case Strings => 16   case String => 17    case Charset => 18   case Keymaps => 19
    case Keycode => 20   case Plain => 21     case CapsShift => 22 case Compose => 23
    case Control => 24   case CtrlL => 25     case CtrlR => 26     case AltGr => 27
    case Alt => 28       case ShiftL => 29    case ShiftR => 30    case Shift => 31
    case Usual => 32     case For => 33       case As => 34        case On => 35
    case To => 36        case Include => 37
  }

  /** The kind with a given ordinal: the enumeration read backwards. */
  function FromOrdinal(n: nat): Kind
    requires n < KindCount
  {
    match n
    case 0 => Unknown  case 1 => Space  case 2 => NewLine  case 3 => Comment
    case 4 => Equals  case 5 => Dash  case 6 => Comma  case 7 => Plus
    case 8 => Char  case 9 => Number  case 10 => Unicode  case 11 => Literal
    case 12 => Escaped  case 13 => Quote  case 14 => Strval  case 15 => AltIsMeta
    case 16 => Strings  case 17 => String  case 18 => Charset  case 19 => Keymaps
    case 20 => Keycode  case 21 => Plain  case 22 => CapsShift  case 23 => Compose
    case 24 => Control  case 25 => CtrlL  case 26 => CtrlR  case 27 => AltGr
    case 28 => Alt  case 29 => ShiftL  case 30 => ShiftR  case 31 => Shift
    case 32 => Usual  case 33 => For  case 34 => As  case 35 => On
    case 36 => To  case _ => Include
  }

  /** The ordinals are distinct and consecutive: every value below KindCount
      is the ordinal of exactly one kind, so the enumeration is closed. */
  lemma OrdinalsConsecutive(n: nat)
    requires n < KindCount
    ensures Ordinal(FromOrdinal(n)) == n
    ensures forall k: Kind :: Ordinal(k) == n ==> k == FromOrdinal(n)
  {
    if n < 13 {
      OrdinalsLow(n);
    } else if n < 26 {
      OrdinalsMiddle(n);
    } else {
      OrdinalsHigh(n);
    }
  }

  lemma OrdinalsLow(n: nat)
    requires n < 13
    ensures Ordinal(FromOrdinal(n)) == n
  {
  }

  lemma OrdinalsMiddle(n: nat)
    requires 13 <= n < 26
    ensures Ordinal(FromOrdinal(n)) == n
  {
  }

  lemma OrdinalsHigh(n: nat)
    requires 26 <= n < KindCount
    ensures Ordinal(FromOrdinal(n)) == n
  {
  }

  /** Distinct kinds have distinct ordinals. */
  lemma OrdinalInjective(j: Kind, k: Kind)
    ensures Ordinal(j) == Ordinal(k) ==> j == k
  {
    assert FromOrdinal(Ordinal(j)) == j && FromOrdinal(Ordinal(k)) == k;
  }

  /** A piece of the input: its kind and its (decoded) bytes. */
  datatype Leaf = Leaf(kind: Kind, data: seq<byte>)

  /** MarshalText's two results: the text, and an error that is always nil. */
  datatype Marshalled = Marshalled(text: seq<byte>, err: Option<string>)

  /** MarshalText: the leaf's bytes, unchanged, and no error. */
  function MarshalText(l: Leaf): (r: Marshalled)
    ensures r.err == None
    ensures r.text == l.data
  {
    Marshalled(l.data, None)
  }

  /** The record MarshalJSON hands to the JSON encoder: a fixed
      discriminator, the kind and the leaf's bytes as a string. The kind's
      name comes from the generated String method, which is not modelled. */
  datatype DebugRecord = DebugRecord(Type: string, Kind: Kind, Data: seq<byte>)

  /** MarshalJSON's record for a leaf. */
  function DebugView(l: Leaf): (r: DebugRecord)
    ensures r.Type == "Leaf"
    ensures r.Kind == l.kind && r.Data == l.data
  {
    DebugRecord("Leaf", l.kind, l.data)
  }

  /** Both renderings keep all of a leaf: from the debug record the leaf is
      recovered, and the text rendering is the last field of the record. */
  lemma DebugViewFaithful(l: Leaf, m: Leaf)
    ensures Leaf(DebugView(l).Kind, DebugView(l).Data) == l
    ensures MarshalText(l).text == DebugView(l).Data
    ensures DebugView(l) == DebugView(m) ==> l == m
  {
  }
}
