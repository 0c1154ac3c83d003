/** The JSON dialect of committed hook tables (JsonReader in src/Hooks/HookTable.cpp) on byte
    strings: what the reader computes as a function of the remaining text, and the written
    forms of a document with all their freedom. JsonRoundTrip relates the two. */
module JsonSyntax {
  import opened Wrappers

  type Bytes = seq<Byte>

  const MAX_DEPTH: nat := 64
  const MAX_NUMBER: nat := 0xFFFF_FFFF_FFFF_FFFF

  const QUOTE: Byte := 0x22
  const BACKSLASH: Byte := 0x5C
  const COMMA: Byte := 0x2C
  const COLON: Byte := 0x3A
  const LETTER_U: Byte := 0x75

  // ---------------------------------------------------------------- values

  datatype Json =
    | Null
    | Bool(boolean: bool)
    | Number(number: nat)
    | Text(text: Bytes)
    | Array(elements: seq<Json>)
    | Object(members: seq<Member>)

  datatype Member = Member(key: Bytes, value: Json)

  // ---------------------------------------------------------------- written forms

  /** One unit of a string: a byte as it is, a one-letter escape, or \u and four hex digits. */
  datatype Item = Plain(c: Byte) | Escape(letter: Byte) | Hex(digits: Bytes)

  datatype Kind = Brackets | Braces

  /** A document as written: white space, spelling of strings and numbers, everything. */
  datatype Doc = Doc(space: Bytes, core: Core)

  datatype Core =
    | WNull
    | WBool(boolean: bool)
    | WNumber(digits: Bytes)
    | WText(items: seq<Item>)
    | WEmpty(kind: Kind, inside: Bytes)
    | WBox(kind: Kind, entries: Entries)

  datatype Entries = Last(entry: Entry) | More(entry: Entry, others: Entries)

  datatype Entry = Entry(key: Key, value: Doc, after: Bytes)

  /** An object member's key with the white space around it; array elements have none. */
  datatype Key = NoKey | Key(space: Bytes, items: seq<Item>, after: Bytes)

  // ---------------------------------------------------------------- bytes

  predicate IsSpace(c: Byte) {
    c == 0x20 || c == 0x09 || c == 0x0A || c == 0x0D
  }

  predicate IsDigit(c: Byte) {
    0x30 <= c <= 0x39
  }

  predicate IsHex(c: Byte) {
    IsDigit(c) || 0x61 <= c <= 0x66 || 0x41 <= c <= 0x46
  }

  function HexValue(c: Byte): (v: nat)
    requires IsHex(c)
    ensures v < 16
  {
    if IsDigit(c) then c - 0x30 else if 0x61 <= c then c - 0x61 + 10 else c - 0x41 + 10
  }

  /** A byte after which a run of digits would not be an integer of this dialect. */
  predicate SpoilsNumber(c: Byte) {
    IsDigit(c) || c == 0x2E || c == 0x65 || c == 0x45
  }

  function Opening(kind: Kind): Byte {
    if kind == Brackets then 0x5B else 0x7B
  }

  function Closing(kind: Kind): Byte {
    if kind == Brackets then 0x5D else 0x7D
  }

  function TrueWord(): Bytes { [0x74, 0x72, 0x75, 0x65] }
  function FalseWord(): Bytes { [0x66, 0x61, 0x6C, 0x73, 0x65] }
  function NullWord(): Bytes { [0x6E, 0x75, 0x6C, 0x6C] }

  /** What a one-letter escape stands for: itself, or a control character. */
  function Unescaped(letter: Byte): Byte {
    match letter
    case 0x62 => 0x08
    case 0x66 => 0x0C
    case 0x6E => 0x0A
    case 0x72 => 0x0D
    case 0x74 => 0x09
    case c => c
  }

  predicate IsEscape(letter: Byte) {
    letter in [QUOTE, BACKSLASH, 0x2F, 0x62, 0x66, 0x6E, 0x72, 0x74]
  }

  predicate AllDigits(s: Bytes) {
    forall i :: 0 <= i < |s| ==> IsDigit(s[i])
  }

  // ---------------------------------------------------------------- meaning

  function Decimal(digits: Bytes): nat
    requires AllDigits(digits)
  {
    if digits == [] then 0
    else
      assert IsDigit(digits[|digits| - 1]);
      10 * Decimal(digits[..|digits| - 1]) + (digits[|digits| - 1] - 0x30)
  }

  function CodePoint(h: Bytes): (code: nat)
    requires |h| == 4 && forall i :: 0 <= i < 4 ==> IsHex(h[i])
    ensures code < 0x1_0000
  {
    4096 * HexValue(h[0]) + 256 * HexValue(h[1]) + 16 * HexValue(h[2]) + HexValue(h[3])
  }

  /** One code point below 2^16 as one, two or three bytes; surrogates are not paired up. */
  function Utf8(code: nat): Bytes
    requires code < 0x1_0000
  {
    if code < 0x80 then [code]
    else if code < 0x800 then [0xC0 + code / 64, 0x80 + code % 64]
    else [0xE0 + code / 4096, 0x80 + code / 64 % 64, 0x80 + code % 64]
  }

  function ItemBytes(item: Item): Bytes
    requires GoodItem(item)
  {
    match item
    case Plain(c) => [c]
    case Escape(letter) => [Unescaped(letter)]
    case Hex(digits) => Utf8(CodePoint(digits))
  }

  function ItemsBytes(items: seq<Item>): Bytes
    requires GoodItems(items)
  {
    if items == [] then [] else ItemBytes(items[0]) + ItemsBytes(items[1..])
  }

  /** The value a written form stands for. */
  function Meaning(core: Core, depth: nat): Json
    requires GoodCore(core, depth)
    decreases core
  {
    match core
    case WNull => Null
    case WBool(b) => Bool(b)
    case WNumber(digits) => Number(Decimal(digits))
    case WText(items) => Text(ItemsBytes(items))
    case WEmpty(kind, _) => if kind == Brackets then Array([]) else Object([])
    case WBox(kind, entries) =>
      match kind
      case Brackets => Array(Elements(entries, depth))
      case Braces => Object(Members(entries, depth))
  }

  function Elements(entries: Entries, depth: nat): seq<Json>
    requires GoodEntries(Brackets, entries, depth)
    decreases entries
  {
    var element := Meaning(entries.entry.value.core, depth + 1);
    if entries.Last? then [element] else [element] + Elements(entries.others, depth)
  }

  function Members(entries: Entries, depth: nat): seq<Member>
    requires GoodEntries(Braces, entries, depth)
    decreases entries
  {
    var member := Member(ItemsBytes(entries.entry.key.items), Meaning(entries.entry.value.core, depth + 1));
    if entries.Last? then [member] else [member] + Members(entries.others, depth)
  }

  // ---------------------------------------------------------------- which forms are allowed

  predicate Blank(s: Bytes) {
    forall i :: 0 <= i < |s| ==> IsSpace(s[i])
  }

  predicate GoodItem(item: Item) {
    match item
    case Plain(c) => c >= 0x20 && c != QUOTE && c != BACKSLASH
    case Escape(letter) => IsEscape(letter)
    case Hex(h) => |h| == 4 && forall i :: 0 <= i < 4 ==> IsHex(h[i])
  }

  predicate GoodItems(items: seq<Item>) {
    forall i :: 0 <= i < |items| ==> GoodItem(items[i])
  }

  /** A number is written with any number of digits, leading zeros included, as long as its
      value fits 64 bits. */
  predicate GoodNumber(digits: Bytes) {
    && digits != []
    && AllDigits(digits)
    && Decimal(digits) <= MAX_NUMBER
  }

  predicate GoodCore(core: Core, depth: nat)
    decreases core
  {
    && depth <= MAX_DEPTH
    && match core
       case WNull => true
       case WBool(_) => true
       case WNumber(digits) => GoodNumber(digits)
       case WText(items) => GoodItems(items)
       case WEmpty(_, inside) => Blank(inside)
       case WBox(kind, entries) => GoodEntries(kind, entries, depth)
  }

  predicate GoodKey(kind: Kind, key: Key) {
    match key
    case NoKey => kind == Brackets
    case Key(space, items, after) => kind == Braces && Blank(space) && GoodItems(items) && Blank(after)
  }

  predicate GoodEntries(kind: Kind, entries: Entries, depth: nat)
    decreases entries
  {
    && GoodKey(kind, entries.entry.key)
    && Blank(entries.entry.value.space)
    && GoodCore(entries.entry.value.core, depth + 1)
    && Blank(entries.entry.after)
    && (entries.More? ==> GoodEntries(kind, entries.others, depth))
  }

  predicate GoodDoc(doc: Doc, depth: nat) {
    Blank(doc.space) && GoodCore(doc.core, depth)
  }

  // ---------------------------------------------------------------- printing a form

  function PrintItem(item: Item): Bytes {
    match item
    case Plain(c) => [c]
    case Escape(letter) => [BACKSLASH, letter]
    case Hex(digits) => [BACKSLASH, LETTER_U] + digits
  }

  function PrintItems(items: seq<Item>): Bytes {
    if items == [] then [] else PrintItem(items[0]) + PrintItems(items[1..])
  }

  function PrintText(items: seq<Item>): Bytes {
    [QUOTE] + PrintItems(items) + [QUOTE]
  }

  function PrintKey(key: Key): Bytes {
    match key
    case NoKey => []
    case Key(space, items, after) => space + PrintText(items) + after + [COLON]
  }

  function PrintDoc(doc: Doc): Bytes
    decreases doc, 1
  {
    doc.space + PrintCore(doc.core)
  }

  function PrintCore(core: Core): Bytes
    decreases core
  {
    match core
    case WNull => NullWord()
    case WBool(b) => if b then TrueWord() else FalseWord()
    case WNumber(digits) => digits
    case WText(items) => PrintText(items)
    case WEmpty(kind, inside) => [Opening(kind)] + inside + [Closing(kind)]
    case WBox(kind, entries) => [Opening(kind)] + PrintEntries(kind, entries)
  }

  function PrintEntries(kind: Kind, entries: Entries): Bytes
    decreases entries
  {
    PrintKey(entries.entry.key) + PrintDoc(entries.entry.value) + entries.entry.after
    + if entries.Last? then [Closing(kind)] else [COMMA] + PrintEntries(kind, entries.others)
  }

  // ---------------------------------------------------------------- parsing

  datatype Parsed<T> = Failed | Parsed(value: T, rest: Bytes)

  /** Length of the longest prefix of white space. */
  function Spaces(t: Bytes): (n: nat)
    ensures n <= |t| && Blank(t[..n]) && (n < |t| ==> !IsSpace(t[n]))
  {
    if t != [] && IsSpace(t[0]) then 1 + Spaces(t[1..]) else 0
  }

  function Digits(t: Bytes): (n: nat)
    ensures n <= |t| && AllDigits(t[..n]) && (n < |t| ==> !IsDigit(t[n]))
  {
    if t != [] && IsDigit(t[0]) then 1 + Digits(t[1..]) else 0
  }

  predicate StartsWith(t: Bytes, word: Bytes) {
    |word| <= |t| && t[..|word|] == word
  }

  /** The units of a string up to and including its closing quote. */
  function ParseItems(t: Bytes): (r: Parsed<seq<Item>>)
    ensures r.Parsed? ==> |r.rest| < |t| && GoodItems(r.value)
    decreases |t|
  {
    if t == [] || t[0] < 0x20 then Failed
    else if t[0] == QUOTE then Parsed([], t[1..])
    else if t[0] != BACKSLASH then Cons(Plain(t[0]), ParseItems(t[1..]))
    else if |t| >= 2 && IsEscape(t[1]) then Cons(Escape(t[1]), ParseItems(t[2..]))
    else if |t| >= 6 && t[1] == LETTER_U && GoodItem(Hex(t[2..6])) then Cons(Hex(t[2..6]), ParseItems(t[6..]))
    else Failed
  }

  function Cons(item: Item, r: Parsed<seq<Item>>): Parsed<seq<Item>> {
    if r.Failed? then Failed else Parsed([item] + r.value, r.rest)
  }

  function ParseText(t: Bytes): (r: Parsed<seq<Item>>)
    ensures r.Parsed? ==> |r.rest| < |t| && GoodItems(r.value)
  {
    if t != [] && t[0] == QUOTE then ParseItems(t[1..]) else Failed
  }

  function ParseNumber(t: Bytes): (r: Parsed<Core>)
    ensures r.Parsed? ==> |r.rest| < |t| && r.value.WNumber? && GoodNumber(r.value.digits)
  {
    var n := Digits(t);
    if n == 0 || Decimal(t[..n]) > MAX_NUMBER || (n < |t| && SpoilsNumber(t[n])) then Failed
    else Parsed(WNumber(t[..n]), t[n..])
  }

  function ParseWord(t: Bytes, word: Bytes, core: Core): (r: Parsed<Core>)
    requires 0 < |word|
    ensures r.Parsed? ==> |r.rest| < |t| && r.value == core
  {
    if StartsWith(t, word) then Parsed(core, t[|word|..]) else Failed
  }

  function ParseDoc(t: Bytes, depth: nat): (r: Parsed<Doc>)
    ensures r.Parsed? ==> |r.rest| < |t| && GoodDoc(r.value, depth)
    decreases |t|, 2
  {
    var n := Spaces(t);
    if depth > MAX_DEPTH || n == |t| then Failed
    else
      var core := ParseCore(t[n..], depth);
      if core.Failed? then Failed else Parsed(Doc(t[..n], core.value), core.rest)
  }

  function ParseCore(t: Bytes, depth: nat): (r: Parsed<Core>)
    requires t != [] && depth <= MAX_DEPTH
    ensures r.Parsed? ==> |r.rest| < |t| && GoodCore(r.value, depth)
    decreases |t|, 1
  {
    if t[0] == Opening(Braces) then ParseBox(Braces, t, depth)
    else if t[0] == Opening(Brackets) then ParseBox(Brackets, t, depth)
    else if t[0] == QUOTE then
      var text := ParseText(t);
      if text.Failed? then Failed else Parsed(WText(text.value), text.rest)
    else if t[0] == 0x74 then ParseWord(t, TrueWord(), WBool(true))
    else if t[0] == 0x66 then ParseWord(t, FalseWord(), WBool(false))
    else if t[0] == 0x6E then ParseWord(t, NullWord(), WNull)
    else ParseNumber(t)
  }

  function ParseBox(kind: Kind, t: Bytes, depth: nat): (r: Parsed<Core>)
    requires t != [] && depth <= MAX_DEPTH
    ensures r.Parsed? ==> |r.rest| < |t| && GoodCore(r.value, depth)
    decreases |t|, 0
  {
    var u := t[1..];
    var n := Spaces(u);
    if n < |u| && u[n] == Closing(kind) then Parsed(WEmpty(kind, u[..n]), u[n + 1..])
    else
      var entries := ParseEntries(kind, u, depth);
      if entries.Failed? then Failed else Parsed(WBox(kind, entries.value), entries.rest)
  }

  function ParseKey(kind: Kind, t: Bytes): (r: Parsed<Key>)
    ensures r.Parsed? ==> |r.rest| <= |t| && GoodKey(kind, r.value)
  {
    if kind == Brackets then Parsed(NoKey, t)
    else
      var n := Spaces(t);
      var text := ParseText(t[n..]);
      if text.Failed? then Failed
      else
        var m := Spaces(text.rest);
        if m < |text.rest| && text.rest[m] == COLON
        then Parsed(Key(t[..n], text.value, text.rest[..m]), text.rest[m + 1..])
        else Failed
  }

  /** The entries of a container up to and including its closing bracket. */
  function ParseEntries(kind: Kind, t: Bytes, depth: nat): (r: Parsed<Entries>)
    ensures r.Parsed? ==> |r.rest| < |t| && GoodEntries(kind, r.value, depth)
    decreases |t|, 3
  {
    var key := ParseKey(kind, t);
    if key.Failed? then Failed
    else
      var doc := ParseDoc(key.rest, depth + 1);
      if doc.Failed? then Failed
      else
        var n := Spaces(doc.rest);
        var entry := Entry(key.value, doc.value, doc.rest[..n]);
        if n == |doc.rest| then Failed
        else if doc.rest[n] == COMMA then
          var others := ParseEntries(kind, doc.rest[n + 1..], depth);
          if others.Failed? then Failed else Parsed(More(entry, others.value), others.rest)
        else if doc.rest[n] == Closing(kind) then Parsed(Last(entry), doc.rest[n + 1..])
        else Failed
  }

  /** A whole text: one document and white space. */
  function Parse(t: Bytes): (r: Parsed<Doc>)
    ensures r.Parsed? ==> GoodDoc(r.value, 0)
  {
    var doc := ParseDoc(t, 0);
    if doc.Parsed? && Spaces(doc.rest) == |doc.rest| then doc else Failed
  }
}
