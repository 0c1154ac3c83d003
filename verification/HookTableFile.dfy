/** From the bytes of a committed table to its records and back: ParseHookTable in
    src/Hooks/HookTable.cpp over the reader, against the file the generator writes. */
module HookTableFile {
  import opened Arithmetic
  import opened Wrappers
  import opened JsonSyntax
  import opened JsonPrinter
  import opened HookTable
  import R = JsonReader

  /** What a text is loaded as. */
  function Loaded(text: Bytes): (t: Option<HookTable>)
    ensures t.Some? ==> GoodTable(t.value)
  {
    var root := Read(text);
    if root.Failed? then None else TableOf(root.value)
  }

  method ParseHookTable(text: Bytes) returns (t: Option<HookTable>)
    ensures t == Loaded(text)
  {
    var reader := new R.JsonReader(text);
    var ok, root := reader.Parse();
    if !ok {
      return None;
    }
    if !root.Object? || !OnlyKnownKeys(root.members, TableKeys()) {
      return None;
    }
    var schema := RequireString(root.members, Ascii("schema"));
    if schema != Some(Schema()) {
      return None;
    }
    var identity := ParseIdentity(Find(root.members, Ascii("identity")));
    if identity.None? {
      return None;
    }
    var targets := Find(root.members, Ascii("targets"));
    if targets.None? || !targets.value.Array? {
      return None;
    }
    var records := ParseTargets(targets.value.elements);
    if records.None? || records.value == [] {
      return None;
    }
    return Some(HookTable(identity.value, records.value));
  }

  // ---------------------------------------------------------------- the file round trip

  predicate IsWord(n: nat) {
    n <= MAX_NUMBER
  }

  predicate RecordIsInWords(r: HookTableRecord) {
    && IsWord(r.seId) && IsWord(r.aeId) && IsWord(r.rva) && IsWord(r.prologueLength) && IsWord(r.prologueHash)
    && (r.pdataExtent.Some? ==> IsWord(r.pdataExtent.value))
    && (r.slotLength.Some? ==> IsWord(r.slotLength.value))
    && (r.hasVtable ==> IsWord(r.vtable.id) && IsWord(r.vtable.rva) && IsWord(r.vtable.slot))
  }

  /** Every number of the table is a 64-bit one. */
  predicate InWords(t: HookTable) {
    && IsWord(t.identity.size) && IsWord(t.identity.timeDateStamp) && IsWord(t.identity.sizeOfImage)
    && forall i :: 0 <= i < |t.records| ==> RecordIsInWords(t.records[i])
  }

  predicate ProvenanceFits(p: Provenance) {
    Fits(p.generator, 1) && Fits(p.addressLibrary, 1) && Fits(p.names, 1) && Fits(p.licensing, 1) && Fits(p.hash, 1)
  }

  lemma {:induction false} EachMemberFits(members: seq<Member>, depth: nat)
    requires forall i :: 0 <= i < |members| ==> Fits(members[i].value, depth)
    ensures MembersFit(members, depth)
  {
    if members == [] {
    } else {
      EachMemberFits(members[1..], depth);
    }
  }

  lemma RecordFits(r: HookTableRecord, depth: nat)
    requires RecordIsInWords(r) && depth + 2 <= MAX_DEPTH
    ensures Fits(RecordJson(r), depth)
  {
    if r.hasVtable {
      EachMemberFits(VtableJson(r.vtable).members, depth + 2);
    }
    EachMemberFits(RecordMembers(r), depth + 1);
  }

  lemma {:induction false} RecordsFit(records: seq<HookTableRecord>, depth: nat)
    requires (forall i :: 0 <= i < |records| ==> RecordIsInWords(records[i])) && depth + 2 <= MAX_DEPTH
    ensures AllFit(RecordsJson(records), depth)
  {
    if records == [] {
    } else {
      RecordFits(records[0], depth);
      RecordsFit(records[1..], depth);
      assert RecordsJson(records)[1..] == RecordsJson(records[1..]);
    }
  }

  lemma TableFits(t: HookTable, p: Provenance)
    requires InWords(t) && ProvenanceFits(p)
    ensures Fits(TableJson(t, p), 0)
  {
    EachMemberFits(IdentityMembers(t.identity), 2);
    RecordsFit(t.records, 2);
    EachMemberFits(TableMembers(t, p), 1);
  }

  /** The file the generator writes for a table loads as that very table, exactly when the
      table has a record, no target twice, and only usable records. */
  lemma FileLoadsAsItsTable(t: HookTable, p: Provenance)
    requires InWords(t) && ProvenanceFits(p)
    ensures Loaded(WriteJson(TableJson(t, p))) == Some(t) <==> GoodTable(t)
  {
    TableFits(t, p);
    ReadInvertsWrite(TableJson(t, p));
    TableSurvives(t, p);
  }

  // ---------------------------------------------------------------- numbers given as text

  predicate AllHex(digits: Bytes) {
    forall i :: 0 <= i < |digits| ==> IsHex(digits[i])
  }

  function Hexadecimal(digits: Bytes): nat
    requires AllHex(digits)
  {
    if digits == [] then 0
    else
      assert IsHex(digits[|digits| - 1]);
      16 * Hexadecimal(digits[..|digits| - 1]) + HexValue(digits[|digits| - 1])
  }

  lemma OneMoreDigitWraps(value: nat, base: nat, digit: nat)
    requires base == 10 || base == 16
    ensures U64(U64(value) * base + digit) == U64(base * value + digit)
  {
    var q: nat := value / 0x1_0000_0000_0000_0000;
    SplitWord(value);
    if base == 10 {
      LapsWrapAway(10 * q, 10 * U64(value) + digit);
    } else {
      LapsWrapAway(16 * q, 16 * U64(value) + digit);
    }
  }

  lemma {:induction false} DecimalTextWraps(digits: Bytes)
    requires AllDigits(digits)
    ensures Wrapped(digits, 10) == U64(Decimal(digits))
  {
    if digits == [] {
    } else {
      var n := |digits| - 1;
      assert IsDigit(digits[n]) && HexValue(digits[n]) == digits[n] - 0x30;
      assert Wrapped(digits, 10) == U64(Wrapped(digits[..n], 10) * 10 + (digits[n] - 0x30));
      DecimalTextWraps(digits[..n]);
      OneMoreDigitWraps(Decimal(digits[..n]), 10, digits[n] - 0x30);
    }
  }

  lemma {:induction false} HexTextWraps(digits: Bytes)
    requires AllHex(digits)
    ensures Wrapped(digits, 16) == U64(Hexadecimal(digits))
  {
    if digits == [] {
    } else {
      var n := |digits| - 1;
      assert IsHex(digits[n]);
      HexTextWraps(digits[..n]);
      OneMoreDigitWraps(Hexadecimal(digits[..n]), 16, HexValue(digits[n]));
    }
  }

  lemma WrappingKeepsOnlyWords(n: nat)
    ensures U64(n) == n <==> n <= MAX_NUMBER
  {
  }

  lemma DigitsInBase(digits: Bytes)
    ensures AllInBase(digits, 10) <==> AllDigits(digits)
    ensures AllInBase(digits, 16) <==> AllHex(digits)
  {
    if AllDigits(digits) {
      assert forall i :: 0 <= i < |digits| ==> IsBaseDigit(digits[i], 10);
    } else {
      var i :| 0 <= i < |digits| && !IsDigit(digits[i]);
      assert !IsBaseDigit(digits[i], 10);
    }
    if AllHex(digits) {
      assert forall i :: 0 <= i < |digits| ==> IsBaseDigit(digits[i], 16);
    } else {
      var i :| 0 <= i < |digits| && !IsHex(digits[i]);
      assert !IsBaseDigit(digits[i], 16);
    }
  }

  lemma DecimalText(digits: Bytes)
    requires AllDigits(digits) && digits != []
    ensures NumberText(digits) == Some(Wrapped(digits, 10))
  {
    assert |digits| > 2 ==> IsDigit(digits[1]);
    DigitsInBase(digits);
  }

  /** The text of a number in hexadecimal, with either spelling of the prefix. */
  function HexText(x: Byte, digits: Bytes): Bytes {
    [0x30, x] + digits
  }

  lemma HexTextIsWrapped(x: Byte, digits: Bytes)
    requires AllHex(digits) && digits != [] && (x == 0x78 || x == 0x58)
    ensures NumberText(HexText(x, digits)) == Some(Wrapped(digits, 16))
  {
    assert HexText(x, digits)[2..] == digits;
    DigitsInBase(digits);
  }

  /** Number literals that do not fit 64 bits are refused; the same digits given as text are
      accepted, and stand for the number exactly when it fits. */
  lemma TextNumbersAreRightIffTheyFit(digits: Bytes)
    requires AllDigits(digits) && digits != []
    ensures NumberText(digits).Some?
    ensures NumberText(digits) == Some(Decimal(digits)) <==> Decimal(digits) <= MAX_NUMBER
    ensures Read(digits).Parsed? <==> Decimal(digits) <= MAX_NUMBER
  {
    DecimalText(digits);
    DecimalTextWraps(digits);
    WrappingKeepsOnlyWords(Decimal(digits));
    NumberAcceptedIffItFits(digits);
  }

  /** The same for text in hexadecimal, of which there are no literals. */
  lemma HexNumbersAreRightIffTheyFit(x: Byte, digits: Bytes)
    requires AllHex(digits) && digits != [] && (x == 0x78 || x == 0x58)
    ensures NumberText(HexText(x, digits)).Some?
    ensures NumberText(HexText(x, digits)) == Some(Hexadecimal(digits)) <==> Hexadecimal(digits) <= MAX_NUMBER
  {
    HexTextIsWrapped(x, digits);
    HexTextWraps(digits);
    WrappingKeepsOnlyWords(Hexadecimal(digits));
  }

  /** No other text is taken for a number. */
  lemma OnlyDigitsAreNumbers(text: Bytes)
    ensures NumberText(text).Some? <==>
              || (text != [] && AllDigits(text))
              || exists x: Byte, digits ::
                   (x == 0x78 || x == 0x58) && digits != [] && AllHex(digits) && text == HexText(x, digits)
  {
    if HasHexPrefix(text) {
      var x, digits := text[1], text[2..];
      assert text == HexText(x, digits) && !IsDigit(text[1]);
      DigitsInBase(digits);
      forall x': Byte, digits' | text == HexText(x', digits')
        ensures digits' == digits
      {
        assert HexText(x', digits')[2..] == digits';
      }
    } else {
      DigitsInBase(text);
      forall x: Byte, digits | (x == 0x78 || x == 0x58) && digits != []
        ensures text != HexText(x, digits)
      {
        assert HasHexPrefix(HexText(x, digits));
      }
    }
  }

  /** The text "18446744073709551616". */
  function TwoTo64Text(): Bytes {
    [0x31, 0x38, 0x34, 0x34, 0x36, 0x37, 0x34, 0x34, 0x30, 0x37,
     0x33, 0x37, 0x30, 0x39, 0x35, 0x35, 0x31, 0x36, 0x31, 0x36]
  }

  function Digit(c: Byte): int {
    c as int - 0x30
  }

  lemma FiveMoreDigits(t: Bytes, k: nat)
    requires AllDigits(t) && k + 5 <= |t|
    ensures AllDigits(t[..k]) && AllDigits(t[..k + 5])
    ensures Decimal(t[..k + 5])
         == 100000 * Decimal(t[..k]) + 10000 * Digit(t[k]) + 1000 * Digit(t[k + 1])
            + 100 * Digit(t[k + 2]) + 10 * Digit(t[k + 3]) + Digit(t[k + 4])
  {
    R.DecimalOfOneMore(t, k);
    R.DecimalOfOneMore(t, k + 1);
    R.DecimalOfOneMore(t, k + 2);
    R.DecimalOfOneMore(t, k + 3);
    R.DecimalOfOneMore(t, k + 4);
  }

  lemma FirstHalfMeans()
    ensures AllDigits(TwoTo64Text()[..10]) && Decimal(TwoTo64Text()[..10]) == 1844674407
  {
    var t := TwoTo64Text();
    assert AllDigits(t) && t[..0] == [];
    FiveMoreDigits(t, 0);
    FiveMoreDigits(t, 5);
  }

  lemma TwoTo64TextMeans()
    ensures AllDigits(TwoTo64Text()) && Decimal(TwoTo64Text()) == TWO_64
  {
    var t := TwoTo64Text();
    assert AllDigits(t) && t[..20] == t;
    FirstHalfMeans();
    FiveMoreDigits(t, 10);
    assert Decimal(t[..15]) == 184467440737095;
    FiveMoreDigits(t, 15);
    assert Decimal(t[..20]) == TWO_64;
  }

  /** The first number that does not fit, 18446744073709551616, is refused as a literal and taken
      for zero as text. */
  lemma FirstNumberThatWraps()
    ensures Read(TwoTo64Text()).Failed? && NumberText(TwoTo64Text()) == Some(0)
  {
    TwoTo64TextMeans();
    LapsWrapAway(1, 0);
    TextNumbersAreRightIffTheyFit(TwoTo64Text());
    DecimalText(TwoTo64Text());
    DecimalTextWraps(TwoTo64Text());
  }
}
