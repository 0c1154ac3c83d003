/** The reader of JsonSyntax accepts exactly the written forms: whatever it accepts is a form
    it has read completely, and every form, followed by anything that does not prolong it, is
    read back as itself. So parsing inverts printing for every spelling of every value. */
module JsonRoundTrip {
  import opened Wrappers
  import opened JsonSyntax

  lemma Regroup(a: Bytes, b: Bytes, c: Bytes, d: Bytes, e: Bytes)
    ensures a + b + c + d + e == a + (b + (c + (d + e)))
  {
  }

  lemma Assoc(a: Bytes, b: Bytes, c: Bytes)
    ensures (a + b) + c == a + (b + c)
  {
  }

  lemma SplitAt(t: Bytes, n: nat)
    requires n <= |t|
    ensures t == t[..n] + t[n..]
  {
  }

  lemma SplitAround(t: Bytes, n: nat)
    requires n < |t|
    ensures t == t[..n] + ([t[n]] + t[n + 1..])
  {
  }

  lemma AfterPrefix(a: Bytes, t: Bytes)
    ensures (a + t)[..|a|] == a && (a + t)[|a|..] == t
  {
  }

  lemma EmptyApart(kind: Kind, inside: Bytes, rest: Bytes)
    ensures PrintCore(WEmpty(kind, inside)) + rest == [Opening(kind)] + (inside + ([Closing(kind)] + rest))
  {
  }

  lemma BoxApart(kind: Kind, entries: Entries, rest: Bytes)
    ensures PrintCore(WBox(kind, entries)) + rest == [Opening(kind)] + (PrintEntries(kind, entries) + rest)
  {
    Assoc([Opening(kind)], PrintEntries(kind, entries), rest);
  }

  lemma KeyApart(space: Bytes, items: seq<Item>, after: Bytes, rest: Bytes)
    ensures PrintKey(Key(space, items, after)) + rest == space + (PrintText(items) + (after + ([COLON] + rest)))
  {
    Regroup(space, PrintText(items), after, [COLON], rest);
  }

  /** What is printed after the value of the first entry. */
  function Separator(kind: Kind, entries: Entries): Bytes {
    if entries.Last? then [Closing(kind)] else [COMMA] + PrintEntries(kind, entries.others)
  }

  /** The printed entries taken apart: key, value, white space, separator. */
  lemma EntriesApart(kind: Kind, entries: Entries, rest: Bytes)
    ensures PrintEntries(kind, entries) + rest
         == PrintKey(entries.entry.key)
            + (PrintDoc(entries.entry.value) + (entries.entry.after + (Separator(kind, entries) + rest)))
  {
    var entry := entries.entry;
    Regroup(PrintKey(entry.key), PrintDoc(entry.value), entry.after, Separator(kind, entries), rest);
  }

  // ---------------------------------------------------------------- what is accepted was written

  lemma {:induction false} ItemsWereWritten(t: Bytes)
    ensures var r := ParseItems(t); r.Parsed? ==> PrintItems(r.value) + [QUOTE] + r.rest == t
    decreases |t|
  {
    var r := ParseItems(t);
    if r.Parsed? && t[0] != QUOTE {
      var n := if t[0] != BACKSLASH then 1 else if IsEscape(t[1]) then 2 else 6;
      ItemsWereWritten(t[n..]);
      var inner := ParseItems(t[n..]);
      assert r.value[1..] == inner.value && PrintItem(r.value[0]) == t[..n];
      SplitAt(t, n);
      Assoc(t[..n], PrintItems(inner.value), [QUOTE]);
      Assoc(t[..n], PrintItems(inner.value) + [QUOTE], r.rest);
    }
  }

  lemma TextWasWritten(t: Bytes)
    ensures var r := ParseText(t); r.Parsed? ==> PrintText(r.value) + r.rest == t
  {
    if t != [] && t[0] == QUOTE {
      ItemsWereWritten(t[1..]);
      assert t == [QUOTE] + t[1..];
    }
  }

  lemma KeyWasWritten(kind: Kind, t: Bytes)
    ensures var r := ParseKey(kind, t); r.Parsed? ==> PrintKey(r.value) + r.rest == t
  {
    var r := ParseKey(kind, t);
    if r.Parsed? && kind == Braces {
      var n := Spaces(t);
      TextWasWritten(t[n..]);
      var text := ParseText(t[n..]);
      var m := Spaces(text.rest);
      SplitAround(text.rest, m);
      SplitAt(t, n);
      KeyApart(t[..n], text.value, text.rest[..m], text.rest[m + 1..]);
    }
  }

  lemma {:induction false} DocWasWritten(t: Bytes, depth: nat)
    ensures var r := ParseDoc(t, depth); r.Parsed? ==> PrintDoc(r.value) + r.rest == t
    decreases |t|, 2
  {
    var n := Spaces(t);
    if depth <= MAX_DEPTH && n < |t| {
      CoreWasWritten(t[n..], depth);
      SplitAt(t, n);
    }
  }

  lemma {:induction false} CoreWasWritten(t: Bytes, depth: nat)
    requires t != [] && depth <= MAX_DEPTH
    ensures var r := ParseCore(t, depth); r.Parsed? ==> PrintCore(r.value) + r.rest == t
    decreases |t|, 1
  {
    if t[0] == Opening(Braces) {
      BoxWasWritten(Braces, t, depth);
    } else if t[0] == Opening(Brackets) {
      BoxWasWritten(Brackets, t, depth);
    } else if t[0] == QUOTE {
      TextWasWritten(t);
    }
  }

  lemma {:induction false} BoxWasWritten(kind: Kind, t: Bytes, depth: nat)
    requires t != [] && depth <= MAX_DEPTH && t[0] == Opening(kind)
    ensures var r := ParseBox(kind, t, depth); r.Parsed? ==> PrintCore(r.value) + r.rest == t
    decreases |t|, 0
  {
    var u := t[1..];
    var n := Spaces(u);
    assert t == [Opening(kind)] + u;
    if n < |u| && u[n] == Closing(kind) {
      SplitAround(u, n);
      EmptyApart(kind, u[..n], u[n + 1..]);
    } else {
      EntriesWereWritten(kind, u, depth);
      var entries := ParseEntries(kind, u, depth);
      if entries.Parsed? {
        BoxApart(kind, entries.value, entries.rest);
      }
    }
  }

  lemma {:induction false} EntriesWereWritten(kind: Kind, t: Bytes, depth: nat)
    ensures var r := ParseEntries(kind, t, depth); r.Parsed? ==> PrintEntries(kind, r.value) + r.rest == t
    decreases |t|, 3
  {
    var r := ParseEntries(kind, t, depth);
    if r.Parsed? {
      KeyWasWritten(kind, t);
      var key := ParseKey(kind, t);
      DocWasWritten(key.rest, depth + 1);
      var doc := ParseDoc(key.rest, depth + 1);
      var n := Spaces(doc.rest);
      var u := doc.rest[n + 1..];
      SplitAround(doc.rest, n);
      EntriesApart(kind, r.value, r.rest);
      if doc.rest[n] == COMMA {
        EntriesWereWritten(kind, u, depth);
        Assoc([COMMA], PrintEntries(kind, r.value.others), r.rest);
      }
    }
  }

  // ---------------------------------------------------------------- what is written is accepted

  lemma {:induction false} SpacesOf(s: Bytes, t: Bytes)
    requires Blank(s) && (t != [] ==> !IsSpace(t[0]))
    ensures Spaces(s + t) == |s| && (s + t)[..|s|] == s && (s + t)[|s|..] == t
  {
    if s == [] {
    } else {
      assert (s + t)[1..] == s[1..] + t;
      SpacesOf(s[1..], t);
    }
  }

  lemma {:induction false} DigitsOf(s: Bytes, t: Bytes)
    requires AllDigits(s) && (t != [] ==> !IsDigit(t[0]))
    ensures Digits(s + t) == |s| && (s + t)[..|s|] == s && (s + t)[|s|..] == t
  {
    if s == [] {
    } else {
      assert (s + t)[1..] == s[1..] + t;
      DigitsOf(s[1..], t);
    }
  }

  lemma {:induction false} ItemsAreRead(items: seq<Item>, rest: Bytes)
    requires GoodItems(items)
    ensures ParseItems(PrintItems(items) + [QUOTE] + rest) == Parsed(items, rest)
  {
    if items == [] {
      assert PrintItems(items) + [QUOTE] + rest == [QUOTE] + rest;
    } else {
      var tail := PrintItems(items[1..]) + [QUOTE] + rest;
      ItemsAreRead(items[1..], rest);
      assert items == [items[0]] + items[1..];
      Assoc(PrintItem(items[0]), PrintItems(items[1..]), [QUOTE]);
      Assoc(PrintItem(items[0]), PrintItems(items[1..]) + [QUOTE], rest);
      ItemIsRead(items[0], tail, PrintItem(items[0]) + tail);
    }
  }

  /** The first unit of a string decides by itself how it is read. */
  lemma ItemIsRead(item: Item, tail: Bytes, t: Bytes)
    requires GoodItem(item) && t == PrintItem(item) + tail
    ensures ParseItems(t) == Cons(item, ParseItems(tail))
  {
    match item
    case Plain(c) =>
      assert t[0] == c && t[1..] == tail;
    case Escape(letter) =>
      assert t[0] == BACKSLASH && t[1] == letter && t[2..] == tail;
    case Hex(digits) =>
      assert t[0] == BACKSLASH && t[1] == LETTER_U && t[2..6] == digits && t[6..] == tail;
  }

  lemma TextIsRead(items: seq<Item>, rest: Bytes)
    requires GoodItems(items)
    ensures ParseText(PrintText(items) + rest) == Parsed(items, rest)
  {
    ItemsAreRead(items, rest);
    assert (PrintText(items) + rest)[1..] == PrintItems(items) + [QUOTE] + rest;
  }

  lemma KeyIsRead(kind: Kind, key: Key, rest: Bytes)
    requires GoodKey(kind, key)
    ensures ParseKey(kind, PrintKey(key) + rest) == Parsed(key, rest)
  {
    match key
    case NoKey =>
      assert PrintKey(key) + rest == rest;
    case Key(space, items, after) =>
      var colon: Bytes := [COLON] + rest;
      KeyApart(space, items, after, rest);
      SpacesOf(space, PrintText(items) + (after + colon));
      TextIsRead(items, after + colon);
      SpacesOf(after, colon);
      PastSeparator(after, COLON, rest);
  }

  /** What may follow a value without being taken for a part of it. */
  predicate Follows(rest: Bytes) {
    rest != [] ==> !SpoilsNumber(rest[0])
  }

  lemma NumberIsRead(digits: Bytes, rest: Bytes)
    requires GoodNumber(digits) && Follows(rest)
    ensures ParseNumber(digits + rest) == Parsed(WNumber(digits), rest)
  {
    DigitsOf(digits, rest);
  }

  lemma WordIsRead(word: Bytes, rest: Bytes, core: Core)
    requires 0 < |word|
    ensures ParseWord(word + rest, word, core) == Parsed(core, rest)
  {
    assert (word + rest)[..|word|] == word && (word + rest)[|word|..] == rest;
  }

  lemma {:induction false} DocIsRead(doc: Doc, depth: nat, rest: Bytes)
    requires GoodDoc(doc, depth) && Follows(rest)
    ensures ParseDoc(PrintDoc(doc) + rest, depth) == Parsed(doc, rest)
    decreases doc, 1
  {
    var tail := PrintCore(doc.core) + rest;
    CoreIsRead(doc.core, depth, rest);
    CoreStartsVisibly(doc.core, depth, rest);
    assert PrintDoc(doc) + rest == doc.space + tail;
    SpacesOf(doc.space, tail);
  }

  lemma CoreStartsVisibly(core: Core, depth: nat, rest: Bytes)
    requires GoodCore(core, depth)
    ensures PrintCore(core) + rest != [] && !IsSpace((PrintCore(core) + rest)[0])
    ensures (PrintCore(core) + rest)[0] != Closing(Brackets)
  {
    assert core.WNumber? ==> IsDigit(core.digits[0]);
  }

  lemma {:induction false} CoreIsRead(core: Core, depth: nat, rest: Bytes)
    requires GoodCore(core, depth) && Follows(rest)
    ensures PrintCore(core) + rest != []
    ensures ParseCore(PrintCore(core) + rest, depth) == Parsed(core, rest)
    decreases core, 0
  {
    var t := PrintCore(core) + rest;
    match core
    case WNull => WordIsRead(NullWord(), rest, WNull);
    case WBool(b) => WordIsRead(if b then TrueWord() else FalseWord(), rest, core);
    case WNumber(digits) =>
      assert IsDigit(digits[0]) && t[0] == digits[0];
      NumberIsRead(digits, rest);
    case WText(items) => TextIsRead(items, rest);
    case WEmpty(kind, inside) =>
      EmptyIsRead(kind, inside, depth, rest);
    case WBox(kind, entries) =>
      EntriesAreRead(kind, entries, depth, rest);
      BoxIsRead(kind, entries, depth, rest);
  }

  lemma EmptyIsRead(kind: Kind, inside: Bytes, depth: nat, rest: Bytes)
    requires Blank(inside) && depth <= MAX_DEPTH
    ensures var t := PrintCore(WEmpty(kind, inside)) + rest;
            t != [] && t[0] == Opening(kind) && ParseBox(kind, t, depth) == Parsed(WEmpty(kind, inside), rest)
  {
    var closing := [Closing(kind)] + rest;
    EmptyApart(kind, inside, rest);
    AfterPrefix([Opening(kind)], inside + closing);
    SpacesOf(inside, closing);
    PastSeparator(inside, Closing(kind), rest);
  }

  lemma BoxIsRead(kind: Kind, entries: Entries, depth: nat, rest: Bytes)
    requires GoodEntries(kind, entries, depth) && depth <= MAX_DEPTH
    requires ParseEntries(kind, PrintEntries(kind, entries) + rest, depth) == Parsed(entries, rest)
    ensures var t := PrintCore(WBox(kind, entries)) + rest;
            t != [] && t[0] == Opening(kind) && ParseBox(kind, t, depth) == Parsed(WBox(kind, entries), rest)
  {
    BoxApart(kind, entries, rest);
    AfterPrefix([Opening(kind)], PrintEntries(kind, entries) + rest);
    EntriesStartVisibly(kind, entries, depth, rest);
  }

  lemma FirstVisible(space: Bytes, tail: Bytes)
    requires Blank(space) && tail != [] && !IsSpace(tail[0])
    ensures Spaces(space + tail) < |space + tail| && (space + tail)[Spaces(space + tail)] == tail[0]
  {
    SpacesOf(space, tail);
  }

  /** A container with entries is not taken for an empty one. */
  lemma EntriesStartVisibly(kind: Kind, entries: Entries, depth: nat, rest: Bytes)
    requires GoodEntries(kind, entries, depth)
    ensures var t := PrintEntries(kind, entries) + rest;
            Spaces(t) < |t| && t[Spaces(t)] != Closing(kind)
  {
    var entry := entries.entry;
    var after: Bytes := entry.after + (Separator(kind, entries) + rest);
    EntriesApart(kind, entries, rest);
    match entry.key
    case NoKey =>
      DocStartsVisibly(entry.value, depth + 1, after);
      assert [] + (PrintDoc(entry.value) + after) == PrintDoc(entry.value) + after;
    case Key(space, items, colon) =>
      KeyApart(space, items, colon, PrintDoc(entry.value) + after);
      FirstVisible(space, PrintText(items) + (colon + ([COLON] + (PrintDoc(entry.value) + after))));
  }

  lemma DocStartsVisibly(doc: Doc, depth: nat, after: Bytes)
    requires GoodDoc(doc, depth)
    ensures var t := PrintDoc(doc) + after;
            Spaces(t) < |t| && t[Spaces(t)] != Closing(Brackets)
  {
    Assoc(doc.space, PrintCore(doc.core), after);
    CoreStartsVisibly(doc.core, depth, after);
    FirstVisible(doc.space, PrintCore(doc.core) + after);
  }

  lemma PastSeparator(after: Bytes, separator: Byte, rest: Bytes)
    ensures var t := after + ([separator] + rest);
            |after| < |t| && t[|after|] == separator && t[..|after|] == after && t[|after| + 1..] == rest
  {
  }

  /** How one entry and what follows it are read, part by part. */
  lemma EntryStep(kind: Kind, t: Bytes, depth: nat, entry: Entry, afterKey: Bytes, separator: Byte, next: Bytes)
    requires ParseKey(kind, t) == Parsed(entry.key, afterKey)
    requires ParseDoc(afterKey, depth + 1) == Parsed(entry.value, entry.after + ([separator] + next))
    requires Blank(entry.after) && !IsSpace(separator)
    ensures separator == Closing(kind) ==> ParseEntries(kind, t, depth) == Parsed(Last(entry), next)
    ensures separator == COMMA && ParseEntries(kind, next, depth).Parsed? ==>
              var others := ParseEntries(kind, next, depth);
              ParseEntries(kind, t, depth) == Parsed(More(entry, others.value), others.rest)
  {
    var rest: Bytes := entry.after + ([separator] + next);
    SpacesOf(entry.after, [separator] + next);
    PastSeparator(entry.after, separator, next);
    assert Spaces(rest) == |entry.after| && rest[|entry.after|] == separator;
    assert rest[..|entry.after|] == entry.after && rest[|entry.after| + 1..] == next;
  }

  lemma EntryIsRead(kind: Kind, depth: nat, entry: Entry, separator: Byte, next: Bytes)
    requires GoodKey(kind, entry.key) && Blank(entry.after) && !IsSpace(separator)
    requires var rest: Bytes := entry.after + ([separator] + next);
             ParseDoc(PrintDoc(entry.value) + rest, depth + 1) == Parsed(entry.value, rest)
    ensures var t := PrintKey(entry.key) + (PrintDoc(entry.value) + (entry.after + ([separator] + next)));
            && (separator == Closing(kind) ==> ParseEntries(kind, t, depth) == Parsed(Last(entry), next))
            && (separator == COMMA && ParseEntries(kind, next, depth).Parsed? ==>
                  var others := ParseEntries(kind, next, depth);
                  ParseEntries(kind, t, depth) == Parsed(More(entry, others.value), others.rest))
  {
    var afterKey: Bytes := PrintDoc(entry.value) + (entry.after + ([separator] + next));
    KeyIsRead(kind, entry.key, afterKey);
    EntryStep(kind, PrintKey(entry.key) + afterKey, depth, entry, afterKey, separator, next);
  }

  lemma {:induction false} EntriesAreRead(kind: Kind, entries: Entries, depth: nat, rest: Bytes)
    requires GoodEntries(kind, entries, depth)
    ensures ParseEntries(kind, PrintEntries(kind, entries) + rest, depth) == Parsed(entries, rest)
    decreases entries
  {
    var entry := entries.entry;
    var separator: Byte := if entries.Last? then Closing(kind) else COMMA;
    var next: Bytes := if entries.Last? then rest else PrintEntries(kind, entries.others) + rest;
    var afterDoc: Bytes := entry.after + ([separator] + next);
    EntriesApart(kind, entries, rest);
    if entries.More? {
      Assoc([COMMA], PrintEntries(kind, entries.others), rest);
      EntriesAreRead(kind, entries.others, depth, rest);
    }
    SeparatedFollows(entry.after, separator, next);
    DocIsRead(entry.value, depth + 1, afterDoc);
    EntryIsRead(kind, depth, entry, separator, next);
  }

  lemma SeparatedFollows(after: Bytes, separator: Byte, next: Bytes)
    requires Blank(after) && (separator == COMMA || exists kind :: separator == Closing(kind))
    ensures Follows(after + ([separator] + next))
  {
    assert after != [] ==> IsSpace(after[0]);
  }

  // ---------------------------------------------------------------- the whole text

  /** A text is accepted exactly when it is a written form and white space, and the form is
      the one the text was written from: the dialect is unambiguous. */
  lemma AcceptsExactlyTheWrittenForms(t: Bytes, doc: Doc)
    ensures Parse(t).Parsed? && Parse(t).value == doc
       <==> GoodDoc(doc, 0) && exists space :: Blank(space) && t == PrintDoc(doc) + space
  {
    if Parse(t).Parsed? && Parse(t).value == doc {
      DocWasWritten(t, 0);
      var rest := ParseDoc(t, 0).rest;
      assert Blank(rest[..|rest|]) && rest[..|rest|] == rest;
    }
    if GoodDoc(doc, 0) && exists space :: Blank(space) && t == PrintDoc(doc) + space {
      var space :| Blank(space) && t == PrintDoc(doc) + space;
      assert space != [] ==> IsSpace(space[0]);
      DocIsRead(doc, 0, space);
      SpacesOf(space, []);
      assert space + [] == space;
    }
  }
}
