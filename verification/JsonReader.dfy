/** The reader itself (class JsonReader in src/Hooks/HookTable.cpp): a cursor over the text and
    recursive descent, proved to compute the functions of JsonSyntax. */
module JsonReader {
  import opened Wrappers
  import opened JsonSyntax
  import opened JsonPrinter

  // ---------------------------------------------------------------- what each method returns

  function ReadItems(t: Bytes): Parsed<Bytes> {
    var r := ParseItems(t);
    if r.Failed? then Failed else Parsed(ItemsBytes(r.value), r.rest)
  }

  function ReadText(t: Bytes): Parsed<Bytes> {
    if t != [] && t[0] == QUOTE then ReadItems(t[1..]) else Failed
  }

  function ReadDoc(t: Bytes, depth: nat): Parsed<Json> {
    var r := ParseDoc(t, depth);
    if r.Failed? then Failed else Parsed(Meaning(r.value.core, depth), r.rest)
  }

  function ReadElements(t: Bytes, depth: nat): Parsed<seq<Json>> {
    var r := ParseEntries(Brackets, t, depth);
    if r.Failed? then Failed else Parsed(Elements(r.value, depth), r.rest)
  }

  function ReadMembers(t: Bytes, depth: nat): Parsed<seq<Member>> {
    var r := ParseEntries(Braces, t, depth);
    if r.Failed? then Failed else Parsed(Members(r.value, depth), r.rest)
  }

  /** Results with something read before them. */
  function After<T>(before: seq<T>, r: Parsed<seq<T>>): Parsed<seq<T>> {
    if r.Failed? then Failed else Parsed(before + r.value, r.rest)
  }

  lemma AfterAfter<T>(a: seq<T>, b: seq<T>, r: Parsed<seq<T>>)
    ensures After(a, After(b, r)) == After(a + b, r)
  {
    if r.Parsed? {
      assert a + (b + r.value) == (a + b) + r.value;
    }
  }

  lemma AfterNothing<T>(r: Parsed<seq<T>>)
    ensures After([], r) == r
  {
    assert r.Parsed? ==> [] + r.value == r.value;
  }

  function Skipped(t: Bytes): Bytes {
    t[Spaces(t)..]
  }

  lemma SkippedSplits(t: Bytes)
    ensures Skipped(t) == [] <==> Spaces(t) == |t|
    ensures Spaces(t) < |t| ==> Skipped(t)[0] == t[Spaces(t)] && Skipped(t)[1..] == t[Spaces(t) + 1..]
  {
  }

  // ---------------------------------------------------------------- one step of each loop

  function ItemsStep(t: Bytes): Parsed<Bytes> {
    if t == [] || t[0] < 0x20 then Failed
    else if t[0] == QUOTE then Parsed([], t[1..])
    else if t[0] != BACKSLASH then After([t[0]], ReadItems(t[1..]))
    else if |t| >= 2 && IsEscape(t[1]) then After([Unescaped(t[1])], ReadItems(t[2..]))
    else if |t| >= 6 && t[1] == LETTER_U && GoodItem(Hex(t[2..6])) then
      After(Utf8(CodePoint(t[2..6])), ReadItems(t[6..]))
    else Failed
  }

  lemma ItemsOneStep(t: Bytes)
    ensures ReadItems(t) == ItemsStep(t)
  {
    if t != [] && t[0] >= 0x20 && t[0] != QUOTE {
      if t[0] != BACKSLASH {
        ConsMeans(Plain(t[0]), ParseItems(t[1..]));
      } else if |t| >= 2 && IsEscape(t[1]) {
        ConsMeans(Escape(t[1]), ParseItems(t[2..]));
      } else if |t| >= 6 && t[1] == LETTER_U && GoodItem(Hex(t[2..6])) {
        ConsMeans(Hex(t[2..6]), ParseItems(t[6..]));
      }
    }
  }

  lemma ConsMeans(item: Item, r: Parsed<seq<Item>>)
    requires GoodItem(item) && (r.Parsed? ==> GoodItems(r.value))
    ensures r.Parsed? ==> GoodItems(Cons(item, r).value)
                          && ItemsBytes(Cons(item, r).value) == ItemBytes(item) + ItemsBytes(r.value)
  {
    if r.Parsed? {
      ItemsBytesStep(item, r.value);
    }
  }

  function NextElement(d: Parsed<Json>, depth: nat): Parsed<seq<Json>> {
    if d.Failed? || Skipped(d.rest) == [] then Failed
    else
      var w := Skipped(d.rest);
      if w[0] == COMMA then After([d.value], ReadElements(w[1..], depth))
      else if w[0] == Closing(Brackets) then Parsed([d.value], w[1..])
      else Failed
  }

  lemma ElementsOneStep(t: Bytes, depth: nat)
    ensures ReadElements(t, depth) == NextElement(ReadDoc(t, depth + 1), depth)
  {
    var d := ParseDoc(t, depth + 1);
    if d.Parsed? {
      SkippedSplits(d.rest);
    }
  }

  /** The key of the next member and the text after its colon. */
  function ReadKey(t: Bytes): Parsed<Bytes> {
    var s := ReadText(Skipped(t));
    if s.Failed? || Skipped(s.rest) == [] || Skipped(s.rest)[0] != COLON then Failed
    else Parsed(s.value, Skipped(s.rest)[1..])
  }

  function ReadMember(t: Bytes, depth: nat): Parsed<Member> {
    var k := ReadKey(t);
    if k.Failed? then Failed
    else
      var d := ReadDoc(k.rest, depth + 1);
      if d.Failed? then Failed else Parsed(Member(k.value, d.value), d.rest)
  }

  function NextMember(m: Parsed<Member>, depth: nat): Parsed<seq<Member>> {
    if m.Failed? || Skipped(m.rest) == [] then Failed
    else
      var w := Skipped(m.rest);
      if w[0] == COMMA then After([m.value], ReadMembers(w[1..], depth))
      else if w[0] == Closing(Braces) then Parsed([m.value], w[1..])
      else Failed
  }

  lemma KeyOneStep(t: Bytes)
    ensures var k := ParseKey(Braces, t);
            ReadKey(t) == if k.Failed? then Failed else Parsed(ItemsBytes(k.value.items), k.rest)
  {
    var s := ParseText(Skipped(t));
    if s.Parsed? {
      SkippedSplits(s.rest);
    }
  }

  /** The written form behind the next member. */
  function NextEntry(k: Parsed<Key>, d: Parsed<Doc>, depth: nat): Parsed<Entries> {
    if k.Failed? || d.Failed? || Skipped(d.rest) == [] then Failed
    else
      var w := Skipped(d.rest);
      var entry := Entry(k.value, d.value, d.rest[..Spaces(d.rest)]);
      if w[0] == COMMA then
        var others := ParseEntries(Braces, w[1..], depth);
        if others.Failed? then Failed else Parsed(More(entry, others.value), others.rest)
      else if w[0] == Closing(Braces) then Parsed(Last(entry), w[1..])
      else Failed
  }

  lemma EntriesOneStep(t: Bytes, depth: nat)
    ensures var k := ParseKey(Braces, t);
            var d := if k.Failed? then Failed else ParseDoc(k.rest, depth + 1);
            ParseEntries(Braces, t, depth) == NextEntry(k, d, depth)
  {
    var k := ParseKey(Braces, t);
    if k.Parsed? {
      var d := ParseDoc(k.rest, depth + 1);
      if d.Parsed? {
        SkippedSplits(d.rest);
      }
    }
  }

  lemma MembersOneStep(t: Bytes, depth: nat)
    ensures ReadMembers(t, depth) == NextMember(ReadMember(t, depth), depth)
  {
    KeyOneStep(t);
    EntriesOneStep(t, depth);
  }

  // ---------------------------------------------------------------- skipping white space early

  lemma SkippedTwice(t: Bytes)
    ensures Skipped(Skipped(t)) == Skipped(t)
  {
    assert Spaces(Skipped(t)) == 0;
    assert Skipped(t)[0..] == Skipped(t);
  }

  function ReadCore(w: Bytes, depth: nat): Parsed<Json> {
    if depth > MAX_DEPTH || w == [] then Failed
    else
      var core := ParseCore(w, depth);
      if core.Failed? then Failed else Parsed(Meaning(core.value, depth), core.rest)
  }

  lemma DocIsSkippedCore(t: Bytes, depth: nat)
    ensures ReadDoc(t, depth) == ReadCore(Skipped(t), depth)
  {
    SkippedSplits(t);
  }

  lemma DocAfterSkip(t: Bytes, depth: nat)
    ensures ReadDoc(Skipped(t), depth) == ReadDoc(t, depth)
  {
    SkippedTwice(t);
    DocIsSkippedCore(t, depth);
    DocIsSkippedCore(Skipped(t), depth);
  }

  lemma ElementsAfterSkip(t: Bytes, depth: nat)
    ensures ReadElements(Skipped(t), depth) == ReadElements(t, depth)
  {
    DocAfterSkip(t, depth + 1);
    ElementsOneStep(t, depth);
    ElementsOneStep(Skipped(t), depth);
  }

  lemma MemberAfterSkip(t: Bytes, depth: nat)
    ensures ReadMember(Skipped(t), depth) == ReadMember(t, depth)
  {
    SkippedTwice(t);
  }

  lemma MembersAfterSkip(t: Bytes, depth: nat)
    ensures ReadMembers(Skipped(t), depth) == ReadMembers(t, depth)
  {
    MemberAfterSkip(t, depth);
    MembersOneStep(t, depth);
    MembersOneStep(Skipped(t), depth);
  }

  // ---------------------------------------------------------------- one turn of the container loops

  /** One element or member has been read, `before` were read earlier: what the next byte makes
      of the whole container. */
  function Turn<T>(before: seq<T>, rest: Bytes, closing: Byte, further: Bytes -> Parsed<seq<T>>): Parsed<seq<T>> {
    var w := Skipped(rest);
    if w == [] then Failed
    else if w[0] == COMMA then After(before, further(w[1..]))
    else if w[0] == closing then Parsed(before, w[1..])
    else Failed
  }

  lemma ElementsTurn(t: Bytes, depth: nat, before: seq<Json>)
    ensures var d := ReadDoc(t, depth + 1);
            && (d.Failed? ==> ReadElements(t, depth).Failed?)
            && (d.Parsed? ==> After(before, ReadElements(t, depth))
                              == Turn(before + [d.value], d.rest, Closing(Brackets), u => ReadElements(u, depth)))
  {
    ElementsOneStep(t, depth);
    var d := ReadDoc(t, depth + 1);
    if d.Parsed? && Skipped(d.rest) != [] {
      AfterAfter(before, [d.value], ReadElements(Skipped(d.rest)[1..], depth));
    }
  }

  lemma MembersTurn(t: Bytes, depth: nat, before: seq<Member>)
    ensures var m := ReadMember(t, depth);
            && (m.Failed? ==> ReadMembers(t, depth).Failed?)
            && (m.Parsed? ==> After(before, ReadMembers(t, depth))
                              == Turn(before + [m.value], m.rest, Closing(Braces), u => ReadMembers(u, depth)))
  {
    MembersOneStep(t, depth);
    var m := ReadMember(t, depth);
    if m.Parsed? && Skipped(m.rest) != [] {
      AfterAfter(before, [m.value], ReadMembers(Skipped(m.rest)[1..], depth));
    }
  }

  /** What a value starting with an opening bracket comes to. */
  function ArrayStep(u: Bytes, depth: nat): Parsed<Json> {
    var w := Skipped(u);
    if w != [] && w[0] == Closing(Brackets) then Parsed(Array([]), w[1..])
    else
      var e := ReadElements(w, depth);
      if e.Failed? then Failed else Parsed(Array(e.value), e.rest)
  }

  function ObjectStep(u: Bytes, depth: nat): Parsed<Json> {
    var w := Skipped(u);
    if w != [] && w[0] == Closing(Braces) then Parsed(Object([]), w[1..])
    else
      var m := ReadMembers(w, depth);
      if m.Failed? then Failed else Parsed(Object(m.value), m.rest)
  }

  function ValueStep(t: Bytes, depth: nat): Parsed<Json>
    requires t != [] && depth <= MAX_DEPTH
  {
    if t[0] == Opening(Braces) then ObjectStep(t[1..], depth)
    else if t[0] == Opening(Brackets) then ArrayStep(t[1..], depth)
    else if t[0] == QUOTE then
      var s := ReadText(t);
      if s.Failed? then Failed else Parsed(Text(s.value), s.rest)
    else
      var core := ParseCore(t, depth);
      if core.Failed? then Failed else Parsed(Meaning(core.value, depth), core.rest)
  }

  lemma DocOneStep(t: Bytes, depth: nat)
    ensures ReadDoc(t, depth)
         == if depth > MAX_DEPTH || Skipped(t) == [] then Failed else ValueStep(Skipped(t), depth)
  {
    var w := Skipped(t);
    if depth <= MAX_DEPTH && w != [] {
      var core := ParseCore(w, depth);
      if w[0] == Opening(Brackets) {
        ArrayOneStep(w, depth);
        assert core == ParseBox(Brackets, w, depth);
      } else if w[0] == Opening(Braces) {
        ObjectOneStep(w, depth);
        assert core == ParseBox(Braces, w, depth);
      } else if w[0] == QUOTE {
        assert core.Parsed? ==> core.value == WText(ParseText(w).value);
      }
    }
  }

  lemma ArrayOneStep(w: Bytes, depth: nat)
    requires w != [] && depth <= MAX_DEPTH
    ensures var a := ParseBox(Brackets, w, depth);
            ArrayStep(w[1..], depth) == if a.Failed? then Failed else Parsed(Meaning(a.value, depth), a.rest)
  {
    ElementsAfterSkip(w[1..], depth);
    SkippedSplits(w[1..]);
  }

  lemma ObjectOneStep(w: Bytes, depth: nat)
    requires w != [] && depth <= MAX_DEPTH
    ensures var o := ParseBox(Braces, w, depth);
            ObjectStep(w[1..], depth) == if o.Failed? then Failed else Parsed(Meaning(o.value, depth), o.rest)
  {
    MembersAfterSkip(w[1..], depth);
    SkippedSplits(w[1..]);
    var o := ParseBox(Braces, w, depth);
    assert o.Parsed? && o.value.WBox? ==> Meaning(o.value, depth) == Object(Members(o.value.entries, depth));
  }

  // ---------------------------------------------------------------- numbers, step by step

  /** Appending digits never makes a number smaller. */
  lemma {:induction false} DecimalGrows(digits: Bytes, k: nat)
    requires AllDigits(digits) && k <= |digits|
    ensures AllDigits(digits[..k]) && Decimal(digits[..k]) <= Decimal(digits)
    decreases |digits| - k
  {
    if k == |digits| {
      assert digits[..k] == digits;
    } else {
      DecimalGrows(digits, k + 1);
      DecimalOfOneMore(digits, k);
    }
  }

  lemma DecimalOfOneMore(digits: Bytes, k: nat)
    requires AllDigits(digits) && k < |digits|
    ensures AllDigits(digits[..k]) && AllDigits(digits[..k + 1])
    ensures Decimal(digits[..k + 1]) == 10 * Decimal(digits[..k]) + (digits[k] - 0x30)
  {
    assert digits[..k + 1][..k] == digits[..k] && digits[..k + 1][k] == digits[k];
  }

  lemma {:induction false} DigitsSplit(t: Bytes, k: nat)
    requires k <= |t| && AllDigits(t[..k])
    ensures Digits(t) == k + Digits(t[k..])
  {
    if k == 0 {
      assert t[0..] == t;
    } else {
      assert t[..k][0] == t[0] && t[1..][..k - 1] == t[..k][1..];
      DigitsSplit(t[1..], k - 1);
      assert t[1..][k - 1..] == t[k..];
    }
  }

  function NumberStep(t: Bytes): Parsed<Json> {
    var n := ParseNumber(t);
    if n.Failed? then Failed else Parsed(Number(Decimal(n.value.digits)), n.rest)
  }

  /** The overflow check is exact: a number that does not fit with one more digit never will. */
  lemma OneMoreDigit(t: Bytes, k: nat)
    requires k < |t| && AllDigits(t[..k]) && IsDigit(t[k])
    ensures AllDigits(t[..k + 1])
    ensures Decimal(t[..k + 1]) == 10 * Decimal(t[..k]) + (t[k] - 0x30)
    ensures Decimal(t[..k + 1]) > MAX_NUMBER ==> ParseNumber(t).Failed?
  {
    assert t[..k + 1][..k] == t[..k] && t[..k + 1][k] == t[k];
    DecimalOfOneMore(t[..k + 1], k);
    assert t[..k + 1][..k + 1] == t[..k + 1];
    DigitsSplit(t, k + 1);
    var n := Digits(t);
    DecimalGrows(t[..n], k + 1);
    assert t[..n][..k + 1] == t[..k + 1];
  }

  /** At the end of the run of digits, what it comes to. */
  lemma EndOfDigits(t: Bytes, k: nat)
    requires k <= |t| && AllDigits(t[..k]) && (k < |t| ==> !IsDigit(t[k]))
    ensures NumberStep(t)
         == if k == 0 || Decimal(t[..k]) > MAX_NUMBER || (k < |t| && SpoilsNumber(t[k])) then Failed
            else Parsed(Number(Decimal(t[..k])), t[k..])
  {
    DigitsSplit(t, k);
    assert k < |t| ==> t[k..][0] == t[k];
    assert Digits(t) == k;
  }

  // ---------------------------------------------------------------- the cursor

  ghost predicate Agrees<T>(ok: bool, value: T, left: Bytes, r: Parsed<T>) {
    if r.Parsed? then ok && value == r.value && left == r.rest else !ok
  }

  class JsonReader {
    const text: Bytes
    var p: nat

    ghost predicate Valid()
      reads this
    {
      p <= |text|
    }

    ghost function Left(): Bytes
      requires Valid()
      reads this
    {
      text[p..]
    }

    constructor (text: Bytes)
      ensures Valid() && this.text == text && Left() == text
    {
      this.text := text;
      p := 0;
    }

    method SkipWhitespace()
      requires Valid()
      modifies this
      ensures Valid() && Left() == Skipped(old(Left())) && p >= old(p)
    {
      ghost var t := Left();
      while p != |text| && (text[p] == 0x20 || text[p] == 0x09 || text[p] == 0x0A || text[p] == 0x0D)
        invariant Valid() && p >= old(p) && Skipped(Left()) == Skipped(t)
      {
        SkipAt(text, p);
        p := p + 1;
      }
      NothingToSkipAt(text, p);
    }

    method Consume(c: Byte) returns (ok: bool)
      requires Valid()
      modifies this
      ensures Valid() && (ok <==> old(Left()) != [] && old(Left())[0] == c)
      ensures Left() == if ok then old(Left())[1..] else old(Left())
      ensures p == old(p) + if ok then 1 else 0
    {
      if p != |text| && text[p] == c {
        p := p + 1;
        return true;
      }
      return false;
    }

    method ExpectLiteral(word: Bytes) returns (ok: bool)
      requires Valid() && 0 < |word|
      modifies this
      ensures Valid() && (ok <==> StartsWith(old(Left()), word))
      ensures ok ==> Left() == old(Left())[|word|..]
    {
      if |text| - p < |word| || text[p..p + |word|] != word {
        assert |word| <= |Left()| ==> Left()[..|word|] == text[p..p + |word|];
        return false;
      }
      assert Left()[..|word|] == text[p..p + |word|];
      p := p + |word|;
      return true;
    }

    /** Four hex digits as one number. */
    method ParseHex4() returns (ok: bool, code: nat)
      requires Valid()
      modifies this
      ensures Valid() && (ok <==> |old(Left())| >= 4 && GoodItem(Hex(old(Left())[..4])))
      ensures ok ==> code == CodePoint(old(Left())[..4]) && Left() == old(Left())[4..]
    {
      code := 0;
      if |text| - p < 4 {
        return false, code;
      }
      ghost var t := Left();
      var i := 0;
      while i < 4
        invariant i <= 4 && p == old(p) + i && p + (4 - i) <= |text|
        invariant forall k :: 0 <= k < i ==> IsHex(t[k])
        invariant code == CodeOfFirst(t, i)
      {
        var c := text[p];
        assert c == t[i];
        p := p + 1;
        var digit: nat;
        if 0x30 <= c <= 0x39 {
          digit := c - 0x30;
        } else if 0x61 <= c <= 0x66 {
          digit := c - 0x61 + 10;
        } else if 0x41 <= c <= 0x46 {
          digit := c - 0x41 + 10;
        } else {
          assert !IsHex(t[..4][i]);
          return false, code;
        }
        code := 16 * code + digit;
        i := i + 1;
      }
      CodeOfFour(t);
      ok := true;
    }

    /** The switch over the letter of an escape other than \u. */
    method Unescape(letter: Byte) returns (known: bool, c: Byte)
      ensures known <==> IsEscape(letter)
      ensures known ==> c == Unescaped(letter)
    {
      match letter {
        case 0x22 => return true, 0x22;
        case 0x5C => return true, 0x5C;
        case 0x2F => return true, 0x2F;
        case 0x62 => return true, 0x08;
        case 0x66 => return true, 0x0C;
        case 0x6E => return true, 0x0A;
        case 0x72 => return true, 0x0D;
        case 0x74 => return true, 0x09;
        case _ => return false, 0;
      }
    }

    method AppendUtf8(s: Bytes, code: nat) returns (s': Bytes)
      requires code < 0x1_0000
      ensures s' == s + Utf8(code)
    {
      if code < 0x80 {
        s' := s + [code];
      } else if code < 0x800 {
        s' := s + [0xC0 + code / 64];
        s' := s' + [0x80 + code % 64];
      } else {
        s' := s + [0xE0 + code / 4096];
        s' := s' + [0x80 + code / 64 % 64];
        s' := s' + [0x80 + code % 64];
      }
    }

    /** A string without its opening quote is read unit by unit. */
    method ParseString() returns (ok: bool, s: Bytes)
      requires Valid()
      modifies this
      ensures Valid() && Agrees(ok, s, Left(), ReadText(old(Left()))) && (ok ==> p > old(p))
    {
      s := [];
      var quote := Consume(QUOTE);
      if !quote {
        return false, s;
      }
      ghost var t := Left();
      AfterNothing(ReadItems(t));
      while p != |text|
        invariant Valid() && p > old(p)
        invariant ReadItems(t) == After(s, ReadItems(Left()))
        decreases |text| - p
      {
        ghost var u := Left();
        ItemsOneStep(u);
        var c := text[p];
        p := p + 1;
        assert u[0] == c && Left() == u[1..];
        if c == QUOTE {
          assert s + [] == s;
          return true, s;
        }
        if c < 0x20 {
          return false, s;
        }
        if c != BACKSLASH {
          AfterAfter(s, [c], ReadItems(u[1..]));
          s := s + [c];
        } else {
          if p == |text| {
            return false, s;
          }
          var letter := text[p];
          p := p + 1;
          assert u[1] == letter && Left() == u[2..];
          var known, unescaped := Unescape(letter);
          if known {
            AfterAfter(s, [unescaped], ReadItems(u[2..]));
            s := s + [unescaped];
          } else if letter == LETTER_U {
            var hex, code := ParseHex4();
            HexSlices(u);
            if !hex {
              return false, s;
            }
            AfterAfter(s, Utf8(code), ReadItems(u[6..]));
            s := AppendUtf8(s, code);
          } else {
            return false, s;
          }
        }
      }
      assert Left() == [];
      ok := false;
    }

    /** A run of digits, refused as soon as its value would not fit 64 bits. */
    method ParseNumber() returns (ok: bool, v: Json)
      requires Valid()
      modifies this
      ensures Valid() && Agrees(ok, v, Left(), NumberStep(old(Left()))) && (ok ==> p > old(p))
    {
      var value: nat, any := 0, false;
      ghost var t := Left();
      v := Null;
      if p != |text| && text[p] == 0x2D {
        EndOfDigits(t, 0);
        return false, v;  // negative numbers are not valid in a hook table
      }
      while p != |text| && 0x30 <= text[p] <= 0x39
        invariant Valid() && old(p) <= p && (any <==> p > old(p)) && Left() == t[p - old(p)..]
        invariant AllDigits(t[..p - old(p)]) && value == Decimal(t[..p - old(p)]) <= MAX_NUMBER
      {
        ghost var k := p - old(p);
        var digit := text[p] - 0x30;
        assert t[k] == text[p];
        OneMoreDigit(t, k);
        if value > (MAX_NUMBER - digit) / 10 {
          return false, v;
        }
        value := 10 * value + digit;
        p := p + 1;
        any := true;
      }
      EndOfDigits(t, p - old(p));
      if !any {
        return false, v;
      }
      if p != |text| && (text[p] == 0x2E || text[p] == 0x65 || text[p] == 0x45) {
        return false, v;
      }
      return true, Number(value);
    }

    method ParseValue(depth: nat) returns (ok: bool, v: Json)
      requires Valid()
      modifies this
      ensures Valid() && Agrees(ok, v, Left(), ReadDoc(old(Left()), depth)) && (ok ==> p > old(p))
      decreases |text| - p, 2
    {
      DocOneStep(Left(), depth);
      v := Null;
      if depth > MAX_DEPTH {
        return false, v;
      }
      SkipWhitespace();
      if p == |text| {
        return false, v;
      }
      ghost var t := Left();
      match text[p] {
        case 0x7B => ok, v := ParseObject(depth);
        case 0x5B => ok, v := ParseArray(depth);
        case 0x22 =>
          var s;
          ok, s := ParseString();
          v := Text(s);
        case 0x74 =>
          ok := ExpectLiteral([0x74, 0x72, 0x75, 0x65]);
          v := Bool(true);
        case 0x66 =>
          ok := ExpectLiteral([0x66, 0x61, 0x6C, 0x73, 0x65]);
          v := Bool(false);
        case 0x6E =>
          ok := ExpectLiteral([0x6E, 0x75, 0x6C, 0x6C]);
        case _ =>
          ok, v := ParseNumber();
      }
    }

    method ParseArray(depth: nat) returns (ok: bool, v: Json)
      requires Valid() && Left() != [] && Left()[0] == Opening(Brackets)
      modifies this
      ensures Valid() && Agrees(ok, v, Left(), ArrayStep(old(Left())[1..], depth)) && (ok ==> p > old(p))
      decreases |text| - p, 1
    {
      v := Null;
      ok := Consume(0x5B);
      SkipWhitespace();
      ghost var t := Left();
      assert Closing(Brackets) == 0x5D;
      var elements := [];
      var close := Consume(0x5D);
      if close {
        return true, Array([]);
      }
      AfterNothing(ReadElements(t, depth));
      while true
        invariant Valid() && p > old(p)
        invariant ReadElements(t, depth) == After(elements, ReadElements(Left(), depth))
        decreases |text| - p
      {
        ElementsTurn(Left(), depth, elements);
        var value;
        ok, value := ParseValue(depth + 1);
        if !ok {
          return false, v;
        }
        elements := elements + [value];
        SkipWhitespace();
        var comma := Consume(COMMA);
        if comma {
          continue;
        }
        close := Consume(0x5D);
        if close {
          return true, Array(elements);
        }
        return false, v;
      }
    }

    /** The key of an object member with its colon. */
    method ParseKey() returns (ok: bool, key: Bytes)
      requires Valid()
      modifies this
      ensures Valid() && Agrees(ok, key, Left(), ReadKey(old(Left()))) && (ok ==> p > old(p))
    {
      SkipWhitespace();
      ok, key := ParseString();
      if !ok {
        return;
      }
      SkipWhitespace();
      ok := Consume(COLON);
    }

    /** One pass through the body of the loop of ParseObject, up to its value. */
    method ParseMember(depth: nat) returns (ok: bool, m: Member)
      requires Valid()
      modifies this
      ensures Valid() && Agrees(ok, m, Left(), ReadMember(old(Left()), depth)) && (ok ==> p > old(p))
      decreases |text| - p, 3
    {
      m := Member([], Null);
      var key, value;
      ok, key := ParseKey();
      if !ok {
        return;
      }
      ok, value := ParseValue(depth + 1);
      m := Member(key, value);
    }

    method ParseObject(depth: nat) returns (ok: bool, v: Json)
      requires Valid() && Left() != [] && Left()[0] == Opening(Braces)
      modifies this
      ensures Valid() && Agrees(ok, v, Left(), ObjectStep(old(Left())[1..], depth)) && (ok ==> p > old(p))
      decreases |text| - p, 1
    {
      v := Null;
      ok := Consume(0x7B);
      SkipWhitespace();
      ghost var t := Left();
      assert Closing(Braces) == 0x7D;
      var members := [];
      var close := Consume(0x7D);
      if close {
        return true, Object([]);
      }
      AfterNothing(ReadMembers(t, depth));
      while true
        invariant Valid() && p > old(p)
        invariant ReadMembers(t, depth) == After(members, ReadMembers(Left(), depth))
        decreases |text| - p
      {
        MembersTurn(Left(), depth, members);
        var member;
        ok, member := ParseMember(depth);
        if !ok {
          return false, v;
        }
        members := members + [member];
        SkipWhitespace();
        var comma := Consume(COMMA);
        if comma {
          continue;
        }
        close := Consume(0x7D);
        if close {
          return true, Object(members);
        }
        return false, v;
      }
    }

    /** The whole text as one value: what the reader makes of every text. */
    method Parse() returns (ok: bool, v: Json)
      requires Valid() && p == 0
      modifies this
      ensures Valid() && (ok <==> Read(text).Parsed?) && (ok ==> v == Read(text).value)
    {
      assert Left() == text;
      SkipWhitespace();
      DocAfterSkip(text, 0);
      ok, v := ParseValue(0);
      if !ok {
        return;
      }
      ghost var rest := Left();
      SkipWhitespace();
      SkippedSplits(rest);
      if p != |text| {
        return false, v;
      }
    }
  }

  lemma HexSlices(u: Bytes)
    ensures |u| >= 6 ==> u[2..][..4] == u[2..6] && u[2..][4..] == u[6..]
  {
  }

  lemma SkipAt(text: Bytes, p: nat)
    requires p < |text| && IsSpace(text[p])
    ensures Skipped(text[p + 1..]) == Skipped(text[p..])
  {
    var t := text[p..];
    assert t[0] == text[p] && t[1..] == text[p + 1..];
    assert Spaces(t) == 1 + Spaces(t[1..]);
    assert t[1..][Spaces(t[1..])..] == t[Spaces(t)..];
  }

  lemma NothingToSkipAt(text: Bytes, p: nat)
    requires p <= |text| && (p < |text| ==> !IsSpace(text[p]))
    ensures Skipped(text[p..]) == text[p..]
  {
    var t := text[p..];
    assert t != [] ==> t[0] == text[p];
    assert t[0..] == t;
  }

  lemma CodeOfFour(t: Bytes)
    requires |t| >= 4 && forall k :: 0 <= k < 4 ==> IsHex(t[k])
    ensures GoodItem(Hex(t[..4])) && CodeOfFirst(t, 4) == CodePoint(t[..4])
  {
    assert t[..4][0] == t[0] && t[..4][1] == t[1] && t[..4][2] == t[2] && t[..4][3] == t[3];
    assert CodeOfFirst(t, 1) == HexValue(t[0]);
    assert CodeOfFirst(t, 2) == 16 * HexValue(t[0]) + HexValue(t[1]);
    assert CodeOfFirst(t, 3) == 16 * CodeOfFirst(t, 2) + HexValue(t[2]);
    assert CodeOfFirst(t, 4) == 16 * (16 * CodeOfFirst(t, 2) + HexValue(t[2])) + HexValue(t[3]);
  }

  /** What the first `i` hex digits of a text come to. */
  function CodeOfFirst(t: Bytes, i: nat): nat
    requires i <= 4 && i <= |t| && forall k :: 0 <= k < i ==> IsHex(t[k])
  {
    if i == 0 then 0 else 16 * CodeOfFirst(t, i - 1) + HexValue(t[i - 1])
  }
}
