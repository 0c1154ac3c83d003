/** What the units of a string stand for (ParseString, ParseHex4 and AppendUtf8 in
    src/Hooks/HookTable.cpp), against a decoder that knows UTF-8 by its byte ranges only. */
module JsonStrings {
  import opened Arithmetic
  import opened Wrappers
  import opened JsonSyntax

  // ---------------------------------------------------------------- UTF-8

  predicate Continues(c: Byte) {
    0x80 <= c <= 0xBF
  }

  /** `t` is the shortest encoding of the code point `code`, as RFC 3629 has it. */
  predicate Encodes(t: Bytes, code: nat) {
    || (|t| == 1 && t[0] <= 0x7F && code == t[0])
    || (|t| == 2 && 0xC0 <= t[0] <= 0xDF && Continues(t[1])
        && code == (t[0] as int - 0xC0) * 64 + (t[1] as int - 0x80) && 0x80 <= code)
    || (|t| == 3 && 0xE0 <= t[0] <= 0xEF && Continues(t[1]) && Continues(t[2])
        && code == (t[0] as int - 0xE0) * 4096 + (t[1] as int - 0x80) * 64 + (t[2] as int - 0x80) && 0x800 <= code)
  }

  lemma TwoBytes(code: nat, t: Bytes)
    requires 0x80 <= code < 0x800
    ensures Encodes(t, code) <==> t == Utf8(code)
  {
    assert code == 64 * (code / 64) + code % 64;
    if Encodes(t, code) {
      UniqueQuotient(code, 64, t[0] as int - 0xC0, t[1] as int - 0x80);
    }
  }

  lemma ThreeBytes(code: nat, t: Bytes)
    requires 0x800 <= code < 0x1_0000
    ensures Encodes(t, code) <==> t == Utf8(code)
  {
    var high := code / 64;
    assert code == 64 * high + code % 64 && high == 64 * (high / 64) + high % 64;
    UniqueQuotient(code, 4096, high / 64, 64 * (high % 64) + code % 64);
    if Encodes(t, code) {
      UniqueQuotient(code, 64, 64 * (t[0] as int - 0xE0) + (t[1] as int - 0x80), t[2] as int - 0x80);
      UniqueQuotient(high, 64, t[0] as int - 0xE0, t[1] as int - 0x80);
    }
  }

  /** The bytes appended for a code point are its shortest encoding, and no other bytes are. */
  lemma Utf8IsTheShortestEncoding(code: nat, t: Bytes)
    requires code < 0x1_0000
    ensures Encodes(t, code) <==> t == Utf8(code)
    ensures |Utf8(code)| == if code < 0x80 then 1 else if code < 0x800 then 2 else 3
  {
    if code >= 0x800 {
      ThreeBytes(code, t);
    } else if code >= 0x80 {
      TwoBytes(code, t);
    }
  }

  /** The first code point of a text and the number of bytes it takes. */
  function NextCode(t: Bytes): Option<(nat, nat)> {
    if |t| >= 1 && t[0] <= 0x7F then Some((t[0], 1))
    else if |t| >= 2 && 0xC0 <= t[0] <= 0xDF && Continues(t[1]) then
      Some(((t[0] as int - 0xC0) * 64 + (t[1] as int - 0x80), 2))
    else if |t| >= 3 && 0xE0 <= t[0] <= 0xEF && Continues(t[1]) && Continues(t[2]) then
      Some(((t[0] as int - 0xE0) * 4096 + (t[1] as int - 0x80) * 64 + (t[2] as int - 0x80), 3))
    else None
  }

  function Codes(t: Bytes): Option<seq<nat>> {
    if t == [] then Some([])
    else
      match NextCode(t)
      case None => None
      case Some((code, n)) =>
        if n == 0 || n > |t| then None
        else
          match Codes(t[n..])
          case None => None
          case Some(codes) => Some([code] + codes)
  }

  lemma NextCodeOfUtf8(code: nat, t: Bytes)
    requires code < 0x1_0000
    ensures NextCode(Utf8(code) + t) == Some((code, |Utf8(code)|))
    ensures (Utf8(code) + t)[|Utf8(code)|..] == t
  {
    Utf8IsTheShortestEncoding(code, Utf8(code));
  }

  // ---------------------------------------------------------------- hexadecimal

  function HexDigit(v: nat, capital: bool): (c: Byte)
    requires v < 16
    ensures IsHex(c) && HexValue(c) == v
  {
    if v < 10 then '0' as nat + v else (if capital then 'A' as nat else 'a' as nat) + (v - 10)
  }

  /** A code point in four digits, each letter in either case. */
  function FourDigits(code: nat, capitals: (bool, bool, bool, bool)): Bytes
    requires code < 0x1_0000
  {
    [HexDigit(code / 4096, capitals.0), HexDigit(code / 256 % 16, capitals.1),
     HexDigit(code / 16 % 16, capitals.2), HexDigit(code % 16, capitals.3)]
  }

  lemma HexDigitIsWritten(c: Byte)
    requires IsHex(c)
    ensures c == HexDigit(HexValue(c), c < 0x61)
  {
  }

  lemma SplitCode(code: nat)
    requires code < 0x1_0000
    ensures code / 4096 < 16
    ensures code == 4096 * (code / 4096) + 256 * (code / 256 % 16) + 16 * (code / 16 % 16) + code % 16
  {
  }

  lemma JoinCode(a: nat, b: nat, c: nat, d: nat)
    requires a < 16 && b < 16 && c < 16 && d < 16
    ensures var code := 4096 * a + 256 * b + 16 * c + d;
            code / 4096 == a && code / 256 % 16 == b && code / 16 % 16 == c && code % 16 == d
  {
    var code := 4096 * a + 256 * b + 16 * c + d;
    UniqueQuotient(code, 4096, a, 256 * b + 16 * c + d);
    UniqueQuotient(code, 256, 16 * a + b, 16 * c + d);
    UniqueQuotient(code, 16, 256 * a + 16 * b + c, d);
    UniqueQuotient(16 * a + b, 16, a, b);
    UniqueQuotient(256 * a + 16 * b + c, 16, 16 * a + b, c);
  }

  lemma WrittenIsRead(code: nat, capitals: (bool, bool, bool, bool))
    requires code < 0x1_0000
    ensures GoodItem(Hex(FourDigits(code, capitals))) && CodePoint(FourDigits(code, capitals)) == code
  {
    SplitCode(code);
  }

  lemma ReadIsWritten(h: Bytes)
    requires GoodItem(Hex(h))
    ensures h == FourDigits(CodePoint(h), (h[0] < 0x61, h[1] < 0x61, h[2] < 0x61, h[3] < 0x61))
  {
    JoinCode(HexValue(h[0]), HexValue(h[1]), HexValue(h[2]), HexValue(h[3]));
    HexDigitIsWritten(h[0]);
    HexDigitIsWritten(h[1]);
    HexDigitIsWritten(h[2]);
    HexDigitIsWritten(h[3]);
  }

  /** Four hex digits are read as the number they write: in either case of each letter, and
      whatever is read is written so. */
  lemma HexIsReadAsWritten(code: nat, h: Bytes)
    requires code < 0x1_0000
    ensures GoodItem(Hex(h)) && CodePoint(h) == code
       <==> exists capitals :: h == FourDigits(code, capitals)
  {
    forall capitals
      ensures GoodItem(Hex(FourDigits(code, capitals))) && CodePoint(FourDigits(code, capitals)) == code
    {
      WrittenIsRead(code, capitals);
    }
    if GoodItem(Hex(h)) && CodePoint(h) == code {
      ReadIsWritten(h);
    }
  }

  // ---------------------------------------------------------------- one-letter escapes

  /** The control characters that have a letter. */
  const BACKSPACE: Byte := 8
  const FORM_FEED: Byte := 12

  function Letters(): map<char, char> {
    map['"' := '"', '\\' := '\\', '/' := '/', 'n' := '\n', 'r' := '\r', 't' := '\t',
        'b' := BACKSPACE as char, 'f' := FORM_FEED as char]
  }

  /** Exactly these letters may be escaped, and this is what they stand for. */
  lemma EscapesStandForTheirCharacters(letter: Byte)
    ensures IsEscape(letter) <==> letter as char in Letters()
    ensures IsEscape(letter) ==> Unescaped(letter) == Letters()[letter as char] as nat
  {
  }

  // ---------------------------------------------------------------- whole strings

  /** The code point a unit is written for. */
  function CodeOf(item: Item): nat
    requires GoodItem(item)
  {
    match item
    case Plain(c) => c
    case Escape(letter) => Unescaped(letter)
    case Hex(digits) => CodePoint(digits)
  }

  function CodesOf(items: seq<Item>): seq<nat>
    requires GoodItems(items)
  {
    if items == [] then [] else [CodeOf(items[0])] + CodesOf(items[1..])
  }

  predicate PlainIsAscii(items: seq<Item>) {
    forall i :: 0 <= i < |items| && items[i].Plain? ==> items[i].c < 0x80
  }

  lemma ItemIsUtf8(item: Item)
    requires GoodItem(item) && (item.Plain? ==> item.c < 0x80)
    ensures CodeOf(item) < 0x1_0000 && ItemBytes(item) == Utf8(CodeOf(item))
  {
  }

  /** A string whose bytes beyond ASCII are all written as escapes is the UTF-8 text of the code
      points it is written with, one for each unit. */
  lemma {:induction false} StringsAreUtf8(items: seq<Item>)
    requires GoodItems(items) && PlainIsAscii(items)
    ensures Codes(ItemsBytes(items)) == Some(CodesOf(items))
  {
    if items == [] {
    } else {
      ItemIsUtf8(items[0]);
      NextCodeOfUtf8(CodeOf(items[0]), ItemsBytes(items[1..]));
      StringsAreUtf8(items[1..]);
    }
  }
}
