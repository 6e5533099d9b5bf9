/**
 * Diagnostics of the terminal's input parser: the escaping of raw input bytes
 * for logs, and the one-line textual description of a parsed command.
 */
module TermInput {
  import opened Base

  // ---------------------------------------------------------------------------
  // Raw input formatting
  // ---------------------------------------------------------------------------

  const Backslash: byte := 92
  const LetterX: byte := 120

  /** Control bytes: everything below 32 and DEL (127). */
  predicate IsControl(b: byte)
  {
    b < 32 || b == 127
  }

  /** The upper-case hexadecimal digit for `n`, as an ASCII byte. */
  function HexDigit(n: int): (r: byte)
    requires 0 <= n < 16
    ensures !IsControl(r)
    ensures (48 <= r <= 57) || (65 <= r <= 70)
  {
    if n < 10 then 48 + n else 55 + n
  }

  predicate IsHexDigit(b: byte)
  {
    (48 <= b <= 57) || (65 <= b <= 70)
  }

  /** The value of an upper-case hexadecimal digit: the inverse of HexDigit. */
  function HexValue(b: byte): (r: int)
    requires IsHexDigit(b)
    ensures 0 <= r < 16 && HexDigit(r) == b
  {
    if b <= 57 then b - 48 else b - 55
  }

  /** What one input byte becomes in the formatted text. */
  function Piece(b: byte): seq<byte>
  {
    if IsControl(b) then [Backslash, LetterX, HexDigit(b / 16), HexDigit(b % 16)] else [b]
  }

  /** The formatted text of `s`, built left to right as the loop does. */
  function Formatted(s: seq<byte>): seq<byte>
  {
    if s == [] then [] else Formatted(s[..|s| - 1]) + Piece(s[|s| - 1])
  }

  /** The number of bytes of `s` that are escaped. */
  function EscapedCount(s: seq<byte>): nat
  {
    if s == [] then 0 else EscapedCount(s[..|s| - 1]) + (if IsControl(s[|s| - 1]) then 1 else 0)
  }

  /** Renders raw terminal input for a log line: control bytes become `\xHH`. */
  method FormatRawInput(input: seq<byte>) returns (formatted: seq<byte>)
    ensures formatted == Formatted(input)
  {
    formatted := [];
    var i := 0;
    while i < |input|
      invariant 0 <= i <= |input|
      invariant formatted == Formatted(input[..i])
    {
      var b := input[i];
      if b < 32 || b == 127 {
        formatted := formatted + [Backslash, LetterX, HexDigit(b / 16), HexDigit(b % 16)];
      } else {
        formatted := formatted + [b];
      }
      assert input[..i + 1][..i] == input[..i];
      i := i + 1;
    }
    assert input[..i] == input;
  }

  lemma {:induction false} FormattedConcat(a: seq<byte>, b: seq<byte>)
    ensures Formatted(a + b) == Formatted(a) + Formatted(b)
    decreases |b|
  {
    if b == [] {
      assert a + b == a;
    } else {
      var b' := b[..|b| - 1];
      assert (a + b)[..|a + b| - 1] == a + b';
      assert (a + b)[|a + b| - 1] == b[|b| - 1];
      FormattedConcat(a, b');
    }
  }

  lemma {:induction false} FormattedLength(s: seq<byte>)
    ensures |Formatted(s)| == |s| + 3 * EscapedCount(s)
  {
    if s != [] {
      FormattedLength(s[..|s| - 1]);
    }
  }

  lemma {:induction false} FormattedHasNoControl(s: seq<byte>)
    ensures forall i :: 0 <= i < |Formatted(s)| ==> !IsControl(Formatted(s)[i])
  {
    if s != [] {
      FormattedHasNoControl(s[..|s| - 1]);
    }
  }

  /** Reads back a formatted text: every `\xHH` becomes the byte it names. */
  function Unformatted(t: seq<byte>): seq<byte>
  {
    if t == [] then []
    else if |t| >= 4 && t[0] == Backslash && t[1] == LetterX && IsHexDigit(t[2]) && IsHexDigit(t[3])
    then [HexValue(t[2]) * 16 + HexValue(t[3])] + Unformatted(t[4..])
    else [t[0]] + Unformatted(t[1..])
  }

  /** Reading back one escaped byte in front of any text. */
  lemma UnformattedPiece(b: byte, t: seq<byte>)
    requires b != Backslash
    ensures Unformatted(Piece(b) + t) == [b] + Unformatted(t)
  {
    var u := Piece(b) + t;
    if IsControl(b) {
      assert u[4..] == t;
      assert HexValue(HexDigit(b / 16)) == b / 16;
      assert HexValue(HexDigit(b % 16)) == b % 16;
    } else {
      assert u[0] == b && u[1..] == t;
    }
  }

  /** Without backslashes in the input, the escaping loses nothing. */
  lemma {:induction false} UnformattedFormatted(s: seq<byte>)
    requires Backslash !in s
    ensures Unformatted(Formatted(s)) == s
  {
    if s != [] {
      var b, rest := s[0], s[1..];
      assert s == [b] + rest;
      FormattedConcat([b], rest);
      assert Formatted([b]) == Piece(b) by {
        assert [b][..0] == [];
      }
      UnformattedFormatted(rest);
      UnformattedPiece(b, Formatted(rest));
    }
  }

  // ---------------------------------------------------------------------------
  // Command descriptions
  // ---------------------------------------------------------------------------

  /** The top and bottom rows of a scrolling region. */
  datatype Range = Range(top: int, bottom: int)

  /**
   * The payload of a parsed command. Names of enumerators (positioning modes,
   * erase kinds, modes, ...) are kept as the strings the enum reflection gives.
   */
  datatype Payload =
    | NoPayload
    | Signed(signedValue: int)
    | Unsigned(unsignedValue: nat)
    | UTF8Text(characters: string)
    | Title(title: string, kind: string)
    | CursorMovement(positioning: string, x: Option<int>, y: Option<int>)
    | DisplayErasure(whatToErase: string)
    | LineErasure(whatToErase: string)
    | ModeChange(mode: string, status: bool)
    | DeviceReport(mode: string)
    | ScrollingRegion(range: Option<Range>)
    | TabClear(mode: string)
    | CharacterAttributes(mode: string)
    | CharacterSetDesignation(target: nat, characterSet: string)
    | TitleManipulation(titleTarget: string, operation: string)

  /** A parsed command: the name of its type and its payload. */
  datatype Command = Command(typeName: string, payload: Payload)

  function DigitChar(d: int): (c: char)
    requires 0 <= d < 10
    ensures '0' <= c <= '9'
  {
    (48 + d) as char
  }

  /** True when every character of `s` is a decimal digit. */
  predicate AllDigits(s: string)
  {
    forall i :: 0 <= i < |s| ==> '0' <= s[i] <= '9'
  }

  /** Decimal text of a natural number, as `std::to_string`. */
  function NatToString(n: nat): (r: string)
    ensures |r| > 0 && AllDigits(r)
  {
    if n < 10 then [DigitChar(n)] else NatToString(n / 10) + [DigitChar(n % 10)]
  }

  /** Decimal text of an integer, with a leading '-' when negative. */
  function IntToString(i: int): (r: string)
    ensures |r| > 0 && (AllDigits(r) || (r[0] == '-' && AllDigits(r[1..])))
  {
    if i < 0 then "-" + NatToString(-i) else NatToString(i)
  }

  /** Value of a string of decimal digits. */
  function ParseNat(s: string): nat
    requires AllDigits(s)
  {
    if s == [] then 0 else 10 * ParseNat(s[..|s| - 1]) + (s[|s| - 1] as int - 48)
  }

  lemma {:induction false} ParseNatToString(n: nat)
    ensures ParseNat(NatToString(n)) == n
  {
    if n >= 10 {
      var s := NatToString(n);
      assert s[..|s| - 1] == NatToString(n / 10);
      ParseNatToString(n / 10);
    }
  }

  /** Value of the text IntToString produces: a '-' then digits, or digits. */
  function ParseInt(s: string): int
    requires |s| > 0 && (AllDigits(s) || (s[0] == '-' && AllDigits(s[1..])))
  {
    if s[0] == '-' then 0 - ParseNat(s[1..]) else ParseNat(s)
  }

  lemma ParseIntToString(i: int)
    ensures ParseInt(IntToString(i)) == i
  {
    if i < 0 {
      assert IntToString(i)[1..] == NatToString(-i);
      ParseNatToString(-i);
    } else {
      ParseNatToString(i);
    }
  }

  lemma IntToStringInjective(i: int, j: int)
    requires IntToString(i) == IntToString(j)
    ensures i == j
  {
    ParseIntToString(i);
    ParseIntToString(j);
  }

  /** An optional coordinate: its decimal value, or "none" when absent. */
  function OptionalIntToString(v: Option<int>): string
  {
    match v
    case Some(i) => IntToString(i)
    case None => "none"
  }

  /** "none" never collides with a number, and numbers never collide with each other. */
  lemma OptionalIntToStringInjective(u: Option<int>, v: Option<int>)
    requires OptionalIntToString(u) == OptionalIntToString(v)
    ensures u == v
  {
    OptionalIntFirstChar(u);
    OptionalIntFirstChar(v);
    if u.Some? && v.Some? {
      IntToStringInjective(u.value, v.value);
    }
  }

  lemma OptionalIntFirstChar(u: Option<int>)
    ensures |OptionalIntToString(u)| > 0
    ensures OptionalIntToString(u)[0] == 'n' <==> u.None?
  {
  }

  /** The text of a payload, as the visitor in the parser's diagnostics renders it. */
  function PayloadToString(p: Payload): (r: string)
    ensures r == "" <==> p.NoPayload? || (p.Title? && p.title == "")
  {
    match p
    case NoPayload => ""
    case Signed(v) => IntToString(v)
    case Unsigned(v) => NatToString(v)
    case UTF8Text(characters) => "'" + characters + "'"
    case Title(title, _) => title
    case CursorMovement(positioning, x, y) =>
      "positioning=" + positioning + ", x=" + OptionalIntToString(x) + ", y=" + OptionalIntToString(y)
    case DisplayErasure(what) => "what_to_erase=" + what
    case LineErasure(what) => "what_to_erase=" + what
    case ModeChange(mode, status) => "mode=" + mode + ", status=" + (if status then "on" else "off")
    case DeviceReport(mode) => "mode=" + mode
    case ScrollingRegion(range) =>
      "range=" + (match range
                  case Some(r) => IntToString(r.top) + "," + IntToString(r.bottom)
                  case None => "none")
    case TabClear(mode) => "mode=" + mode
    case CharacterAttributes(mode) => "mode=" + mode
    case CharacterSetDesignation(target, characterSet) => "target=" + NatToString(target) + ", set=" + characterSet
    case TitleManipulation(target, operation) => "target=" + target + ", operation=" + operation
  }

  /** One-line description of a command: its type name, then its payload if any. */
  function VerboseDescription(c: Command): (r: string)
    ensures StartsWith(r, c.typeName)
  {
    var payload := PayloadToString(c.payload);
    if payload == "" then c.typeName else c.typeName + ", " + payload
  }

  /** A command whose payload renders to nothing is described by its type name alone. */
  lemma DescriptionOfBareCommand(c: Command)
    ensures VerboseDescription(c) == c.typeName
        <==> c.payload.NoPayload? || (c.payload.Title? && c.payload.title == "")
  {
  }

  /** Distinct scrolling regions are rendered as distinct texts. */
  lemma {:induction false} ScrollingRegionRenderingInjective(a: Option<Range>, b: Option<Range>)
    requires PayloadToString(ScrollingRegion(a)) == PayloadToString(ScrollingRegion(b))
    ensures a == b
  {
    var sa, sb := PayloadToString(ScrollingRegion(a)), PayloadToString(ScrollingRegion(b));
    RangeTextFirstChar(a);
    RangeTextFirstChar(b);
    if a.Some? && b.Some? {
      assert sa[6..] == sb[6..];
      var ta, tb := IntToString(a.value.top), IntToString(b.value.top);
      var ba, bb := IntToString(a.value.bottom), IntToString(b.value.bottom);
      assert sa[6..] == ta + "," + ba;
      assert sb[6..] == tb + "," + bb;
      CommaSplit(ta, ba, tb, bb);
      IntToStringInjective(a.value.top, b.value.top);
      IntToStringInjective(a.value.bottom, b.value.bottom);
    }
  }

  lemma RangeTextFirstChar(r: Option<Range>)
    ensures |PayloadToString(ScrollingRegion(r))| > 6
    ensures PayloadToString(ScrollingRegion(r))[6] == 'n' <==> r.None?
  {
    if r.Some? {
      var t := IntToString(r.value.top);
      assert PayloadToString(ScrollingRegion(r))[6] == t[0];
    }
  }

  /** Position of the first comma of `s`, or `|s|` when there is none. */
  function CommaIndex(s: string): (k: nat)
    ensures k <= |s|
  {
    if s == [] || s[0] == ',' then 0 else 1 + CommaIndex(s[1..])
  }

  lemma {:induction false} CommaIndexOfJoin(a: string, b: string)
    requires ',' !in a
    ensures CommaIndex(a + "," + b) == |a|
  {
    if a != [] {
      assert (a + "," + b)[1..] == a[1..] + "," + b;
      CommaIndexOfJoin(a[1..], b);
    }
  }

  /** Two texts joined by a comma split back uniquely when neither holds a comma. */
  lemma {:induction false} CommaSplit(a: string, b: string, c: string, d: string)
    requires ',' !in a && ',' !in c
    requires a + "," + b == c + "," + d
    ensures a == c && b == d
  {
    var s := a + "," + b;
    CommaIndexOfJoin(a, b);
    CommaIndexOfJoin(c, d);
    assert a == s[..|a|] == c;
    assert b == s[|a| + 1..] == d;
  }
}
