/** Verification of hook targets against the committed table (src/Hooks/HookVerifier.cpp):
    FNV-1a over the first bytes of a function, and the verdict on one target. The process is
    seen through a resolver, as there. 64-bit words are naturals below 2^64. */
module HookVerifier {
  import opened Arithmetic
  import opened Wrappers
  import opened HookTable

  const OFFSET_BASIS: Word := 0xCBF2_9CE4_8422_2325

  // ---------------------------------------------------------------- the hash

  /** Exclusive or, bit by bit from the lowest. */
  function Xor(a: nat, b: nat): nat {
    if a == 0 && b == 0 then 0 else 2 * Xor(a / 2, b / 2) + if a % 2 == b % 2 then 0 else 1
  }

  lemma {:induction false} XorStaysBelow(a: nat, b: nat, bits: nat)
    requires a < Pow2(bits) && b < Pow2(bits)
    ensures Xor(a, b) < Pow2(bits)
  {
    if bits == 0 || (a == 0 && b == 0) {
    } else {
      XorStaysBelow(a / 2, b / 2, bits - 1);
    }
  }

  lemma EightMoreBits(n: nat)
    ensures Pow2(n + 8) == 256 * Pow2(n)
  {
    assert Pow2(n + 4) == 16 * Pow2(n) by {
      assert Pow2(n + 2) == 4 * Pow2(n);
    }
    assert Pow2(n + 8) == 16 * Pow2(n + 4) by {
      assert Pow2(n + 6) == 4 * Pow2(n + 4);
    }
  }

  lemma WordsHave64Bits()
    ensures Pow2(64) == TWO_64
  {
    EightMoreBits(0);
    EightMoreBits(8);
    EightMoreBits(16);
    EightMoreBits(24);
    EightMoreBits(32);
    EightMoreBits(40);
    EightMoreBits(48);
    EightMoreBits(56);
  }

  function XorByte(hash: Word, byte: Byte): Word {
    WordsHave64Bits();
    XorStaysBelow(hash, byte, 64);
    Xor(hash, byte)
  }

  /** The product with the FNV prime, in 64 bits. */
  function TimesPrime(x: Word): Word {
    U64(x * 0x100_0000_01B3)
  }

  function Round(hash: Word, byte: Byte): Word {
    TimesPrime(XorByte(hash, byte))
  }

  function HashFrom(hash: Word, data: seq<Byte>): Word
    decreases |data|
  {
    if data == [] then hash else HashFrom(Round(hash, data[0]), data[1..])
  }

  function Hash(data: seq<Byte>): Word {
    HashFrom(OFFSET_BASIS, data)
  }

  lemma {:induction false} HashOfOneMore(hash: Word, data: seq<Byte>, byte: Byte)
    ensures HashFrom(hash, data + [byte]) == Round(HashFrom(hash, data), byte)
    decreases |data|
  {
    if data == [] {
      assert data + [byte] == [byte];
    } else {
      HashOfOneMore(Round(hash, data[0]), data[1..], byte);
      assert (data + [byte])[1..] == data[1..] + [byte];
    }
  }

  method Fnv1a64(data: array<Byte>, size: nat) returns (hash: Word)
    requires size <= data.Length
    ensures hash == Hash(data[..size])
  {
    hash := OFFSET_BASIS;
    var i := 0;
    while i < size
      invariant i <= size && hash == Hash(data[..i])
    {
      HashOfOneMore(OFFSET_BASIS, data[..i], data[i]);
      assert data[..i + 1] == data[..i] + [data[i]];
      hash := XorByte(hash, data[i]);
      hash := TimesPrime(hash);
      i := i + 1;
    }
  }

  // ---------------------------------------------------------------- what the hash detects

  lemma {:induction false} XorUndone(a: nat, b: nat)
    ensures Xor(Xor(a, b), b) == a && Xor(a, b) == Xor(b, a)
  {
    if a == 0 && b == 0 {
    } else {
      XorUndone(a / 2, b / 2);
      assert Xor(a, b) / 2 == Xor(a / 2, b / 2) && (Xor(a, b) % 2 == 0 <==> a % 2 == b % 2);
    }
  }

  /** The prime is invertible modulo 2^64, so only 0 has a product that is a multiple of it. */
  lemma OnlyZeroCancels(d: int, c: int)
    requires d * 0x100_0000_01B3 == c * TWO_64
    requires -d < TWO_64 && d < TWO_64
    ensures d == 0
  {
    assert d == TWO_64 * (c * 0xCE96_5057_AFF6_957B - d * 0xCE_9650_590F);
  }

  lemma TimesPrimeIsInjective(x: Word, y: Word)
    requires TimesPrime(x) == TimesPrime(y)
    ensures x == y
  {
    OnlyZeroCancels(x - y,
      (x * 0x100_0000_01B3) / TWO_64 - (y * 0x100_0000_01B3) / TWO_64);
  }

  /** For a fixed byte a round never merges two states: on the 2^64 states it is a bijection. */
  lemma RoundTellsStatesApart(x: Word, y: Word, byte: Byte)
    ensures Round(x, byte) == Round(y, byte) <==> x == y
  {
    if Round(x, byte) == Round(y, byte) {
      TimesPrimeIsInjective(XorByte(x, byte), XorByte(y, byte));
      XorUndone(x, byte);
      XorUndone(y, byte);
    }
  }

  /** And from a fixed state it never merges two bytes. */
  lemma RoundTellsBytesApart(hash: Word, a: Byte, b: Byte)
    ensures Round(hash, a) == Round(hash, b) <==> a == b
  {
    if Round(hash, a) == Round(hash, b) {
      TimesPrimeIsInjective(XorByte(hash, a), XorByte(hash, b));
      XorUndone(hash, a);
      XorUndone(hash, b);
      XorUndone(a, hash);
      XorUndone(b, hash);
    }
  }

  /** States that differ stay different through any further bytes. */
  lemma {:induction false} DifferenceSurvives(x: Word, y: Word, data: seq<Byte>)
    requires x != y
    ensures HashFrom(x, data) != HashFrom(y, data)
    decreases |data|
  {
    if data == [] {
    } else {
      RoundTellsStatesApart(x, y, data[0]);
      DifferenceSurvives(Round(x, data[0]), Round(y, data[0]), data[1..]);
    }
  }

  /** Changing one byte, at any position of a string of any length, changes the hash. */
  lemma {:induction false} OneByteChangeIsSeen(hash: Word, data: seq<Byte>, i: nat, byte: Byte)
    requires i < |data| && data[i] != byte
    ensures HashFrom(hash, data[i := byte]) != HashFrom(hash, data)
    decreases |data|
  {
    var changed := data[i := byte];
    if i == 0 {
      assert changed[1..] == data[1..];
      RoundTellsBytesApart(hash, byte, data[0]);
      DifferenceSurvives(Round(hash, byte), Round(hash, data[0]), data[1..]);
    } else {
      assert changed[1..] == data[1..][i - 1 := byte];
      OneByteChangeIsSeen(Round(hash, data[0]), data[1..], i - 1, byte);
    }
  }

  // ---------------------------------------------------------------- a published value

  lemma {:induction false} XorWithNothing(a: nat)
    ensures Xor(a, 0) == a
  {
    if a == 0 {
    } else {
      XorWithNothing(a / 2);
    }
  }

  lemma XorStep(half: nat, bit: nat, b: nat)
    requires bit < 2
    ensures Xor(2 * half + bit, b) == 2 * Xor(half, b / 2) + if bit == b % 2 then 0 else 1
  {
  }

  lemma Halve(p: nat, high: nat, a: nat)
    ensures (2 * p) * high + a == 2 * (p * high + a / 2) + a % 2
  {
  }

  /** What is above the lowest bits stays as it is. */
  lemma {:induction false} XorOfLowBits(high: nat, a: nat, b: nat, bits: nat)
    requires a < Pow2(bits) && b < Pow2(bits)
    ensures Xor(Pow2(bits) * high + a, b) == Pow2(bits) * high + Xor(a, b)
  {
    if bits == 0 {
      XorWithNothing(high);
    } else {
      var p := Pow2(bits - 1);
      XorOfLowBits(high, a / 2, b / 2, bits - 1);
      Halve(p, high, a);
      Halve(p, high, Xor(a, b));
      XorStep(p * high + a / 2, a % 2, b);
      XorStep(a / 2, a % 2, b);
    }
  }

  /** A round is an exclusive or with the lowest byte, and then a product. */
  lemma RoundInNumbers(hash: Word, high: nat, low: Byte, byte: Byte, low': Byte)
    requires hash == 256 * high + low && Xor(low, byte) == low'
    ensures Round(hash, byte) == U64((256 * high + low') * 0x100_0000_01B3)
  {
    EightMoreBits(0);
    XorOfLowBits(high, low, byte, 8);
  }

  lemma XorOfTheseBytes(low: Byte, byte: Byte)
    requires low == 0x25 && byte == 0x61
    ensures Xor(low, byte) == 0x44
  {
    assert Xor(0x2, 0x6) == 0x4;
    assert Xor(0x25, 0x61) == 0x44;
  }

  lemma HashOfOneByte(hash: Word, data: seq<Byte>, high: nat, low: Byte, low': Byte)
    requires |data| == 1 && hash == 256 * high + low && Xor(low, data[0]) == low'
    ensures HashFrom(hash, data) == U64((256 * high + low') * 0x100_0000_01B3)
  {
    RoundInNumbers(hash, high, low, data[0], low');
    assert data[1..] == [];
  }

  /** The published values of FNV-1a in 64 bits: of the empty text, and of the letter a. */
  lemma PublishedHashes(text: seq<Byte>)
    ensures text == [] ==> Hash(text) == 0xCBF2_9CE4_8422_2325
    ensures text == Ascii("a") ==> Hash(text) == 0xAF63_DC4C_8601_EC8C
  {
    if text == Ascii("a") {
      XorOfTheseBytes(0x25, text[0]);
      HashOfOneByte(OFFSET_BASIS, text, 0xCB_F29C_E484_2223, 0x25, 0x44);
      ProductOfTheLetter(0xCBF2_9CE4_8422_2344);
    }
  }

  lemma ProductOfTheLetter(x: nat)
    requires x == 0xCBF2_9CE4_8422_2344
    ensures U64(x * 0x100_0000_01B3) == 0xAF63_DC4C_8601_EC8C
  {
  }

  // ---------------------------------------------------------------- targets

  datatype TargetVerdict =
    | Verified | NoRecord | IdUnresolved | AddressLibraryMismatch | VtableMismatch | PrologueMismatch | Unreadable

  datatype TargetCheck = TargetCheck(
    verdict: TargetVerdict, rva: nat, vtableRva: nat, expectedTargetVa: nat, actualTargetVa: nat,
    expectedHash: nat, actualHash: nat)

  /** The process as the verifier sees it. A read yields exactly the bytes asked for. */
  datatype TargetResolver = TargetResolver(
    base: Word, resolveId: nat -> Option<nat>, readBytes: (nat, nat) -> Option<seq<Byte>>)
  {
    ghost predicate Valid() {
      forall rva, size :: readBytes(rva, size).Some? ==> |readBytes(rva, size).value| == size
    }
  }

  /** The number bytes spell, lowest byte first. */
  function LittleEndian(bytes: seq<Byte>): nat {
    if bytes == [] then 0 else bytes[0] + 256 * LittleEndian(bytes[1..])
  }

  /** Different bytes spell different numbers. */
  lemma {:induction false} LittleEndianIsInjective(a: seq<Byte>, b: seq<Byte>)
    requires |a| == |b| && LittleEndian(a) == LittleEndian(b)
    ensures a == b
  {
    if a == [] {
    } else {
      LittleEndianIsInjective(a[1..], b[1..]);
      assert a == [a[0]] + a[1..] && b == [b[0]] + b[1..];
    }
  }

  /** Sums of addresses wrap around. */
  function Plus(a: nat, b: nat): Word {
    U64(a + b)
  }

  function SlotRva(record: HookTableRecord): Word {
    Plus(record.vtable.rva, record.vtable.slot * 8)
  }

  /** What the table claims of a virtual target: the id is where it says, and the slot holds
      the address of the function. */
  ghost predicate VtableAgrees(record: HookTableRecord, r: TargetResolver)
    requires r.Valid()
  {
    && r.resolveId(record.vtable.id) == Some(record.vtable.rva)
    && r.readBytes(SlotRva(record), 8).Some?
    && LittleEndian(r.readBytes(SlotRva(record), 8).value) == Plus(r.base, record.rva)
  }

  ghost predicate VtableIsNext(record: HookTableRecord, r: TargetResolver) {
    r.resolveId(record.aeId) == Some(record.rva) && record.kind.Vtable?
  }

  predicate Elsewhere(found: Option<nat>, claimed: nat) {
    found.Some? && found.value != claimed
  }

  ghost predicate PrologueAgrees(record: HookTableRecord, r: TargetResolver) {
    && 0 < record.prologueLength <= MAX_PROLOGUE
    && r.readBytes(record.rva, record.prologueLength).Some?
    && Hash(r.readBytes(record.rva, record.prologueLength).value) == record.prologueHash
  }

  /** Everything the record says of the running process is true of it. */
  ghost predicate Agrees(record: HookTableRecord, r: TargetResolver)
    requires r.Valid()
  {
    && r.resolveId(record.aeId) == Some(record.rva)
    && (record.kind.Vtable? ==> VtableAgrees(record, r))
    && PrologueAgrees(record, r)
  }

  /** A target is verified exactly when all the record's claims hold, and the verdict names
      the first one that does not. */
  method VerifyHookTarget(record: HookTableRecord, r: TargetResolver) returns (check: TargetCheck)
    requires r.Valid()
    ensures check.verdict.Verified? <==> Agrees(record, r)
    ensures check.verdict.Verified? ==>
              check.rva == record.rva && check.actualHash == check.expectedHash == record.prologueHash
    ensures check.verdict.IdUnresolved? <==>
              || r.resolveId(record.aeId).None?
              || (VtableIsNext(record, r) && r.resolveId(record.vtable.id).None?)
    ensures check.verdict.AddressLibraryMismatch? <==>
              || Elsewhere(r.resolveId(record.aeId), record.rva)
              || (VtableIsNext(record, r) && Elsewhere(r.resolveId(record.vtable.id), record.vtable.rva))
    ensures check.verdict.VtableMismatch? <==>
              && VtableIsNext(record, r)
              && r.resolveId(record.vtable.id) == Some(record.vtable.rva)
              && r.readBytes(SlotRva(record), 8).Some?
              && LittleEndian(r.readBytes(SlotRva(record), 8).value) != Plus(r.base, record.rva)
    ensures check.verdict.PrologueMismatch? <==>
              && r.resolveId(record.aeId) == Some(record.rva)
              && (record.kind.Vtable? ==> VtableAgrees(record, r))
              && 0 < record.prologueLength <= MAX_PROLOGUE
              && r.readBytes(record.rva, record.prologueLength).Some?
              && Hash(r.readBytes(record.rva, record.prologueLength).value) != record.prologueHash
    ensures !check.verdict.NoRecord?
  {
    check := TargetCheck(NoRecord, 0, 0, 0, 0, record.prologueHash, 0);
    var target := r.resolveId(record.aeId);
    if target.None? {
      return check.(verdict := IdUnresolved);
    }
    if target.value != record.rva {
      return check.(verdict := AddressLibraryMismatch, rva := target.value);
    }
    if record.kind.Vtable? {
      var vtable := r.resolveId(record.vtable.id);
      if vtable.None? {
        return check.(verdict := IdUnresolved);
      }
      if vtable.value != record.vtable.rva {
        return check.(verdict := AddressLibraryMismatch, vtableRva := vtable.value);
      }
      var slotBytes := r.readBytes(Plus(vtable.value, record.vtable.slot * 8), 8);
      if slotBytes.None? {
        return check.(verdict := Unreadable, vtableRva := vtable.value);
      }
      check := check.(vtableRva := vtable.value, expectedTargetVa := Plus(r.base, target.value),
                      actualTargetVa := LittleEndian(slotBytes.value));
      if check.actualTargetVa != check.expectedTargetVa {
        return check.(verdict := VtableMismatch);
      }
    }
    check := check.(rva := target.value);
    if record.prologueLength == 0 || record.prologueLength > MAX_PROLOGUE {
      return check.(verdict := Unreadable);
    }
    var bytes := r.readBytes(target.value, record.prologueLength);
    if bytes.None? {
      return check.(verdict := Unreadable);
    }
    var prologue := new Byte[record.prologueLength](i requires 0 <= i < |bytes.value| => bytes.value[i]);
    assert prologue[..record.prologueLength] == bytes.value;
    var hash := Fnv1a64(prologue, record.prologueLength);
    check := check.(actualHash := hash);
    if hash != record.prologueHash {
      return check.(verdict := PrologueMismatch);
    }
    return check.(verdict := Verified);
  }

  /** A process whose prologue differs from a verified one in a single byte, at any position,
      is rejected, whatever else is different about it. */
  lemma RejectsEveryByteChange(record: HookTableRecord, good: TargetResolver, bad: TargetResolver, i: nat, byte: Byte)
    requires good.Valid() && bad.Valid() && Agrees(record, good)
    requires i < record.prologueLength
    requires var prologue := good.readBytes(record.rva, record.prologueLength).value;
             byte != prologue[i] && bad.readBytes(record.rva, record.prologueLength) == Some(prologue[i := byte])
    ensures !Agrees(record, bad)
  {
    OneByteChangeIsSeen(OFFSET_BASIS, good.readBytes(record.rva, record.prologueLength).value, i, byte);
  }

  /** So is one whose vtable slot holds any other eight bytes at the same load address. */
  lemma RejectsEverySlotChange(record: HookTableRecord, good: TargetResolver, bad: TargetResolver)
    requires good.Valid() && bad.Valid() && Agrees(record, good) && record.kind.Vtable? && bad.base == good.base
    requires bad.readBytes(SlotRva(record), 8) != good.readBytes(SlotRva(record), 8)
    ensures !Agrees(record, bad)
  {
    if VtableAgrees(record, bad) {
      LittleEndianIsInjective(good.readBytes(SlotRva(record), 8).value, bad.readBytes(SlotRva(record), 8).value);
    }
  }
}
