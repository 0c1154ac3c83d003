/** The table generator's printer (write_json in tools/gen-hooktable.py: two-space indents,
    text kept as bytes) and the round trip: what it prints, the reader reads back. */
module JsonPrinter {
  import opened Wrappers
  import opened JsonSyntax
  import opened JsonRoundTrip
  import opened JsonStrings

  // ---------------------------------------------------------------- numbers

  function DecimalDigits(n: nat): (digits: Bytes)
    ensures AllDigits(digits) && digits != []
  {
    if n < 10 then [0x30 + n] else DecimalDigits(n / 10) + [0x30 + n % 10]
  }

  lemma {:induction false} DecimalDigitsMean(n: nat)
    ensures Decimal(DecimalDigits(n)) == n
  {
    var digits := DecimalDigits(n);
    if n < 10 {
      assert digits[..|digits| - 1] == [];
    } else {
      DecimalDigitsMean(n / 10);
      assert digits[..|digits| - 1] == DecimalDigits(n / 10);
    }
  }

  // ---------------------------------------------------------------- strings

  /** Quotes, backslashes and control characters are escaped, everything else is kept. */
  function Spelled(c: Byte): (item: Item)
    ensures GoodItem(item)
  {
    if c == QUOTE || c == BACKSLASH then Escape(c)
    else if c >= 0x20 then Plain(c)
    else if c == 0x08 then Escape(0x62)
    else if c == 0x0C then Escape(0x66)
    else if c == 0x0A then Escape(0x6E)
    else if c == 0x0D then Escape(0x72)
    else if c == 0x09 then Escape(0x74)
    else Hex([0x30, 0x30, 0x30 + c / 16, HexDigit(c % 16, false)])
  }

  lemma SpelledMeans(c: Byte)
    ensures ItemBytes(Spelled(c)) == [c]
  {
  }

  function SpelledAll(s: Bytes): (items: seq<Item>)
    ensures GoodItems(items)
  {
    if s == [] then [] else [Spelled(s[0])] + SpelledAll(s[1..])
  }

  lemma ItemsBytesStep(item: Item, items: seq<Item>)
    requires GoodItem(item) && GoodItems(items)
    ensures ItemsBytes([item] + items) == ItemBytes(item) + ItemsBytes(items)
  {
    assert ([item] + items)[1..] == items;
  }

  lemma {:induction false} SpelledAllMeans(s: Bytes)
    ensures ItemsBytes(SpelledAll(s)) == s
  {
    if s == [] {
    } else {
      SpelledMeans(s[0]);
      SpelledAllMeans(s[1..]);
      ItemsBytesStep(Spelled(s[0]), SpelledAll(s[1..]));
      assert s == [s[0]] + s[1..];
    }
  }

  // ---------------------------------------------------------------- layout

  /** A new line, indented by two spaces for each level. */
  function NewLine(level: nat): (s: Bytes)
    ensures Blank(s)
  {
    [0x0A] + Indent(level)
  }

  function Indent(level: nat): (s: Bytes)
    ensures Blank(s)
  {
    if level == 0 then [] else Indent(level - 1) + [0x20, 0x20]
  }

  function Layout(v: Json, level: nat): Core
    decreases v
  {
    match v
    case Null => WNull
    case Bool(b) => WBool(b)
    case Number(n) => WNumber(DecimalDigits(n))
    case Text(s) => WText(SpelledAll(s))
    case Array(elements) =>
      if elements == [] then WEmpty(Brackets, []) else WBox(Brackets, LayoutElements(elements, level))
    case Object(members) =>
      if members == [] then WEmpty(Braces, []) else WBox(Braces, LayoutMembers(members, level))
  }

  function AfterEntry(last: bool, level: nat): (s: Bytes)
    ensures Blank(s)
  {
    if last then NewLine(level) else []
  }

  function LayoutElements(elements: seq<Json>, level: nat): Entries
    requires elements != []
    decreases elements
  {
    var value := Doc(NewLine(level + 1), Layout(elements[0], level + 1));
    var entry := Entry(NoKey, value, AfterEntry(|elements| == 1, level));
    if |elements| == 1 then Last(entry) else More(entry, LayoutElements(elements[1..], level))
  }

  function LayoutMembers(members: seq<Member>, level: nat): Entries
    requires members != []
    decreases members
  {
    var value := Doc([0x20], Layout(members[0].value, level + 1));
    var key := Key(NewLine(level + 1), SpelledAll(members[0].key), []);
    var entry := Entry(key, value, AfterEntry(|members| == 1, level));
    if |members| == 1 then Last(entry) else More(entry, LayoutMembers(members[1..], level))
  }

  // ---------------------------------------------------------------- the round trip

  /** Values of the dialect: numbers of 64 bits, and no nesting beyond the reader's bound. */
  predicate Fits(v: Json, depth: nat)
    decreases v
  {
    && depth <= MAX_DEPTH
    && match v
       case Null => true
       case Bool(_) => true
       case Number(n) => n <= MAX_NUMBER
       case Text(_) => true
       case Array(elements) => AllFit(elements, depth + 1)
       case Object(members) => MembersFit(members, depth + 1)
  }

  predicate AllFit(values: seq<Json>, depth: nat)
    decreases values
  {
    values != [] ==> Fits(values[0], depth) && AllFit(values[1..], depth)
  }

  predicate MembersFit(members: seq<Member>, depth: nat)
    decreases members
  {
    members != [] ==> Fits(members[0].value, depth) && MembersFit(members[1..], depth)
  }

  /** The printed form of a value stands for that value, and is allowed exactly when the value
      is one of the dialect. */
  lemma {:induction false} LayoutMeans(v: Json, level: nat, depth: nat)
    ensures GoodCore(Layout(v, level), depth) <==> Fits(v, depth)
    ensures Fits(v, depth) ==> Meaning(Layout(v, level), depth) == v
    decreases v
  {
    match v
    case Null =>
    case Bool(_) =>
    case Number(n) =>
      DecimalDigitsMean(n);
    case Text(s) =>
      SpelledAllMeans(s);
    case Array(elements) =>
      if elements != [] {
        LayoutElementsMean(elements, level, depth);
      }
    case Object(members) =>
      if members != [] {
        LayoutMembersMean(members, level, depth);
      }
  }

  lemma {:induction false} LayoutElementsMean(elements: seq<Json>, level: nat, depth: nat)
    requires elements != []
    ensures GoodEntries(Brackets, LayoutElements(elements, level), depth) <==> AllFit(elements, depth + 1)
    ensures AllFit(elements, depth + 1) ==> Elements(LayoutElements(elements, level), depth) == elements
    decreases elements
  {
    LayoutMeans(elements[0], level + 1, depth + 1);
    assert elements == [elements[0]] + elements[1..];
    if |elements| == 1 {
    } else {
      LayoutElementsMean(elements[1..], level, depth);
    }
  }

  lemma {:induction false} LayoutMembersMean(members: seq<Member>, level: nat, depth: nat)
    requires members != []
    ensures GoodEntries(Braces, LayoutMembers(members, level), depth) <==> MembersFit(members, depth + 1)
    ensures MembersFit(members, depth + 1) ==> Members(LayoutMembers(members, level), depth) == members
    decreases members
  {
    LayoutMeans(members[0].value, level + 1, depth + 1);
    SpelledAllMeans(members[0].key);
    assert members == [members[0]] + members[1..];
    if |members| == 1 {
    } else {
      LayoutMembersMean(members[1..], level, depth);
    }
  }

  /** An allowed form only ever stands for a value of the dialect. */
  lemma {:induction false} MeaningFits(core: Core, depth: nat)
    requires GoodCore(core, depth)
    ensures Fits(Meaning(core, depth), depth)
    decreases core
  {
    if core.WBox? {
      match core.kind
      case Brackets => ElementsFit(core.entries, depth);
      case Braces => MembersOfFit(core.entries, depth);
    }
  }

  lemma {:induction false} ElementsFit(entries: Entries, depth: nat)
    requires GoodEntries(Brackets, entries, depth)
    ensures AllFit(Elements(entries, depth), depth + 1)
    decreases entries
  {
    var elements := Elements(entries, depth);
    MeaningFits(entries.entry.value.core, depth + 1);
    if entries.Last? {
    } else {
      ElementsFit(entries.others, depth);
      assert elements[1..] == Elements(entries.others, depth);
    }
  }

  lemma {:induction false} MembersOfFit(entries: Entries, depth: nat)
    requires GoodEntries(Braces, entries, depth)
    ensures MembersFit(Members(entries, depth), depth + 1)
    decreases entries
  {
    var members := Members(entries, depth);
    MeaningFits(entries.entry.value.core, depth + 1);
    if entries.Last? {
    } else {
      MembersOfFit(entries.others, depth);
      assert members[1..] == Members(entries.others, depth);
    }
  }

  /** The file of a value, as written: the value and a final new line. */
  function WriteJson(v: Json): Bytes {
    PrintDoc(Doc([], Layout(v, 0))) + NewLine(0)
  }

  /** What the reader makes of a text. */
  function Read(t: Bytes): Parsed<Json> {
    var doc := Parse(t);
    if doc.Failed? then Failed else Parsed(Meaning(doc.value.core, 0), [])
  }

  /** Printing a value and reading the file gives the value back, exactly for the values of
      the dialect. */
  lemma ReadInvertsWrite(v: Json)
    ensures Fits(v, 0) <==> Read(WriteJson(v)) == Parsed(v, [])
  {
    LayoutMeans(v, 0, 0);
    if Fits(v, 0) {
      AcceptsExactlyTheWrittenForms(WriteJson(v), Doc([], Layout(v, 0)));
    }
    var doc := Parse(WriteJson(v));
    if doc.Parsed? {
      MeaningFits(doc.value.core, 0);
    }
  }

  /** A run of digits is accepted exactly when its decimal value fits 64 bits, whatever its
      leading zeros, and is that number. */
  lemma NumberAcceptedIffItFits(digits: Bytes)
    requires AllDigits(digits) && digits != []
    ensures Read(digits) == if Decimal(digits) <= MAX_NUMBER then Parsed(Number(Decimal(digits)), []) else Failed
  {
    DigitsOf(digits, []);
    assert digits + [] == digits && digits[..|digits|] == digits;
    assert IsDigit(digits[0]) && Spaces(digits) == 0 && digits[0..] == digits;
    assert ParseCore(digits, 0) == ParseNumber(digits);
    assert digits[|digits|..] == [];
  }

  /** Nor does the spelling matter: any form of the value, with any white space between its
      parts, any escapes and any leading zeros, reads back as the value. */
  lemma ReadIgnoresTheSpelling(doc: Doc, space: Bytes)
    requires GoodDoc(doc, 0) && Blank(space)
    ensures Read(PrintDoc(doc) + space) == Parsed(Meaning(doc.core, 0), [])
  {
    AcceptsExactlyTheWrittenForms(PrintDoc(doc) + space, doc);
  }

  /** And nothing else is read: an accepted text is a written form of the value it yields. */
  lemma ReadOnlyWrittenForms(t: Bytes)
    requires Read(t).Parsed?
    ensures exists doc, space :: GoodDoc(doc, 0) && Blank(space) && t == PrintDoc(doc) + space
                                 && Read(t).value == Meaning(doc.core, 0)
  {
    AcceptsExactlyTheWrittenForms(t, Parse(t).value);
  }
}
