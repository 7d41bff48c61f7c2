/** The runtime message of internal/runtime/msg.go: a tagged union of the empty message,
    integers, strings, booleans, lists and maps. Every variant answers every accessor; the
    ones a variant does not override return the empty message's defaults. */
module RuntimeMsg {
  newtype uint8 = x: int | 0 <= x < 256
  newtype int64 = x: int | -0x8000_0000_0000_0000 <= x < 0x8000_0000_0000_0000

  type MsgType = uint8

  const UnknownMsgType: MsgType := 0
  const BoolMsgType: MsgType := 1
  const IntMsgType: MsgType := 2
  const FloatMsgType: MsgType := 3
  const StrMsgType: MsgType := 4
  const ListMsgType: MsgType := 5
  const MapMsgType: MsgType := 6

  datatype Msg =
    | EmptyMsg
    | IntMsg(intV: int64)
    | StrMsg(strV: string)
    | BoolMsg(boolV: bool)
    | ListMsg(listV: seq<Msg>)
    | MapMsg(mapV: map<string, Msg>)
  {
    function Type(): MsgType
    {
      match this
      case EmptyMsg => UnknownMsgType
      case IntMsg(_) => IntMsgType
      case StrMsg(_) => StrMsgType
      case BoolMsg(_) => BoolMsgType
      case ListMsg(_) => ListMsgType
      case MapMsg(_) => MapMsgType
    }

    function Bool(): bool { if BoolMsg? then boolV else false }

    function Int(): int64 { if IntMsg? then intV else 0 }

    function Str(): string { if StrMsg? then strV else "" }

    /** A nil slice reads as the empty sequence. */
    function List(): seq<Msg> { if ListMsg? then listV else [] }

    /** A nil map reads as the empty map. */
    function Map(): map<string, Msg> { if MapMsg? then mapV else map[] }

    /** String. Lists and maps go through the JSON encoder `json`, a collaborator; a map's
        encoding then gets a space after every `:` and every `,`. */
    function String(json: Msg -> string): string
    {
      match this
      case EmptyMsg => "<empty>"
      case IntMsg(v) => Itoa(v as int)
      case StrMsg(v) => v
      case BoolMsg(v) => if v then "true" else "false"
      case ListMsg(_) => json(this)
      case MapMsg(_) => SpaceAfter(SpaceAfter(json(this), ':'), ',')
    }
  }

  function NewIntMsg(n: int64): Msg { IntMsg(n) }
  function NewStrMsg(s: string): Msg { StrMsg(s) }
  function NewBoolMsg(b: bool): Msg { BoolMsg(b) }
  function NewListMsg(v: seq<Msg>): Msg { ListMsg(v) }
  function NewMapMsg(m: map<string, Msg>): Msg { MapMsg(m) }

  /** Every variant's tag, and the tag tells the variants apart. */
  lemma TypeTags(m: Msg, n: Msg)
    ensures m.EmptyMsg? <==> m.Type() == 0
    ensures m.BoolMsg? <==> m.Type() == 1
    ensures m.IntMsg? <==> m.Type() == 2
    ensures m.StrMsg? <==> m.Type() == 4
    ensures m.ListMsg? <==> m.Type() == 5
    ensures m.MapMsg? <==> m.Type() == 6
    ensures m.Type() != FloatMsgType
    ensures m.Type() == n.Type() <==>
              ((m.EmptyMsg? && n.EmptyMsg?) || (m.IntMsg? && n.IntMsg?) || (m.StrMsg? && n.StrMsg?) ||
               (m.BoolMsg? && n.BoolMsg?) || (m.ListMsg? && n.ListMsg?) || (m.MapMsg? && n.MapMsg?))
  {
  }

  /** Each constructor's accessor gives its argument back, and its tag is its own. */
  lemma ConstructorRoundTrips(n: int64, s: string, b: bool, v: seq<Msg>, m: map<string, Msg>)
    ensures NewIntMsg(n).Int() == n && NewIntMsg(n).Type() == IntMsgType
    ensures NewStrMsg(s).Str() == s && NewStrMsg(s).Type() == StrMsgType
    ensures NewBoolMsg(b).Bool() == b && NewBoolMsg(b).Type() == BoolMsgType
    ensures NewListMsg(v).List() == v && NewListMsg(v).Type() == ListMsgType
    ensures NewMapMsg(m).Map() == m && NewMapMsg(m).Type() == MapMsgType
  {
  }

  /** The accessors a variant does not override return the defaults. */
  lemma AccessorDefaults(m: Msg)
    ensures !m.BoolMsg? ==> m.Bool() == false
    ensures !m.IntMsg? ==> m.Int() == 0
    ensures !m.StrMsg? ==> m.Str() == ""
    ensures !m.ListMsg? ==> m.List() == []
    ensures !m.MapMsg? ==> m.Map() == map[]
  {
  }

  /** Two messages with the same tag and the same accessor answers are the same message. */
  lemma AccessorsDetermineMsg(m: Msg, n: Msg)
    requires m.Type() == n.Type() && m.Bool() == n.Bool() && m.Int() == n.Int() && m.Str() == n.Str()
    requires m.List() == n.List() && m.Map() == n.Map()
    ensures m == n
  {
  }

  /** The scalar renderings: a string prints as itself, the empty message as `<empty>`, a
      boolean as `true` or `false`, an integer in decimal (read back by Atoi). */
  lemma StringOfScalars(m: Msg, json: Msg -> string)
    ensures m.EmptyMsg? ==> m.String(json) == "<empty>"
    ensures m.StrMsg? ==> m.String(json) == m.Str()
    ensures m.BoolMsg? ==> (m.String(json) == "true" <==> m.Bool()) && (m.String(json) == "false" <==> !m.Bool())
    ensures m.IntMsg? ==> IsDecimal(m.String(json)) && Atoi(m.String(json)) == m.Int() as int
  {
    if m.IntMsg? {
      ItoaRoundTrip(m.intV as int);
    }
  }

  // ---------------------------------------------------------------------------
  // Decimal rendering

  function DigitChar(d: int): char
    requires 0 <= d < 10
  {
    "0123456789"[d]
  }

  predicate IsDigit(c: char) { '0' <= c <= '9' }

  function DigitValue(c: char): int
    requires IsDigit(c)
  {
    c as int - '0' as int
  }

  /** The decimal digits of `n`, most significant first, without leading zeros. */
  function Digits(n: nat): string
  {
    if n < 10 then [DigitChar(n)] else Digits(n / 10) + [DigitChar(n % 10)]
  }

  /** strconv.Itoa: a minus sign for negative numbers, then the digits. */
  function Itoa(n: int): string
  {
    if n < 0 then "-" + Digits(-n) else Digits(n)
  }

  predicate AllDigits(s: string)
  {
    forall i :: 0 <= i < |s| ==> IsDigit(s[i])
  }

  /** What Itoa may produce: an optional minus, then at least one digit. */
  predicate IsDecimal(s: string)
  {
    if |s| > 0 && s[0] == '-' then |s| > 1 && AllDigits(s[1..]) else |s| > 0 && AllDigits(s)
  }

  function ParseDigits(s: string): nat
    requires AllDigits(s)
  {
    if s == [] then 0 else 10 * ParseDigits(s[..|s| - 1]) + DigitValue(s[|s| - 1])
  }

  /** The inverse of Itoa, for the round trip. */
  function Atoi(s: string): int
    requires IsDecimal(s)
  {
    if |s| > 0 && s[0] == '-' then -(ParseDigits(s[1..]) as int) else ParseDigits(s)
  }

  lemma {:induction false} DigitsRoundTrip(n: nat)
    ensures |Digits(n)| > 0 && AllDigits(Digits(n)) && Digits(n)[0] != '-'
    ensures ParseDigits(Digits(n)) == n
    decreases n
  {
    if n >= 10 {
      DigitsRoundTrip(n / 10);
      var s := Digits(n);
      assert s[..|s| - 1] == Digits(n / 10);
      assert s[0] == Digits(n / 10)[0];
    }
  }

  /** A minus sign before digits makes a decimal numeral that reads as their negation. */
  lemma NegatedDigits(d: string)
    requires |d| > 0 && AllDigits(d)
    ensures IsDecimal("-" + d) && Atoi("-" + d) == -(ParseDigits(d) as int)
  {
    var s := "-" + d;
    assert s[0] == '-' && s[1..] == d;
  }

  lemma ItoaRoundTrip(n: int)
    ensures IsDecimal(Itoa(n)) && Atoi(Itoa(n)) == n
  {
    if n < 0 {
      DigitsRoundTrip(-n);
      NegatedDigits(Digits(-n));
    } else {
      DigitsRoundTrip(n);
    }
  }

  // ---------------------------------------------------------------------------
  // strings.ReplaceAll(s, ":", ": ") and its ", " twin

  /** Every `c` of `s` followed by an added space. */
  function SpaceAfter(s: string, c: char): string
  {
    if s == [] then [] else (if s[0] == c then [c, ' '] else [s[0]]) + SpaceAfter(s[1..], c)
  }

  /** Drops the space after each `c`; the inverse of SpaceAfter. */
  function DropSpaceAfter(s: string, c: char): string
  {
    if s == [] then []
    else if s[0] == c && |s| > 1 && s[1] == ' ' then [c] + DropSpaceAfter(s[2..], c)
    else [s[0]] + DropSpaceAfter(s[1..], c)
  }

  function Count(s: string, c: char): nat
  {
    if s == [] then 0 else (if s[0] == c then 1 else 0) + Count(s[1..], c)
  }

  /** The replacement loses nothing (the spaces can be taken out again) and adds exactly one
      character per `c`. */
  lemma {:induction false} SpaceAfterRoundTrip(s: string, c: char)
    requires c != ' '
    ensures DropSpaceAfter(SpaceAfter(s, c), c) == s
    ensures |SpaceAfter(s, c)| == |s| + Count(s, c)
  {
    if s != [] {
      SpaceAfterRoundTrip(s[1..], c);
      var t := SpaceAfter(s, c);
      if s[0] == c {
        assert t[2..] == SpaceAfter(s[1..], c);
      } else {
        assert t[1..] == SpaceAfter(s[1..], c);
      }
    }
  }

  /** A map's rendering is its JSON encoding with the separators spaced: taking the spaces
      out again gives the encoding back. */
  lemma MapStringSpacesSeparators(m: map<string, Msg>, json: Msg -> string)
    ensures DropSpaceAfter(DropSpaceAfter(NewMapMsg(m).String(json), ','), ':') == json(MapMsg(m))
  {
    SpaceAfterRoundTrip(json(MapMsg(m)), ':');
    SpaceAfterRoundTrip(SpaceAfter(json(MapMsg(m)), ':'), ',');
  }
}
