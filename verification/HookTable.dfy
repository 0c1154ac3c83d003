/** The committed hook table (ParseRecord, ParseHookTable and HookTable::Find in
    src/Hooks/HookTable.cpp) on the values the reader yields, and the generator's side of it
    (tools/gen-hooktable.py). Error messages are left out: a rejected table is None. */
module HookTable {
  import opened Arithmetic
  import opened Wrappers
  import opened JsonSyntax
  import opened JsonPrinter

  const MAX_PROLOGUE: nat := 64

  // ---------------------------------------------------------------- records

  datatype HookKind = Rva | Vtable

  datatype HookTableVtable = HookTableVtable(id: nat, name: Bytes, rva: nat, slot: nat)

  const NO_VTABLE: HookTableVtable := HookTableVtable(0, [], 0, 0)

  datatype HookTableRecord = HookTableRecord(
    target: Bytes, kind: HookKind, seId: nat, aeId: nat, name: Bytes, rva: nat,
    pdataExtent: Option<nat>, slotLength: Option<nat>, prologueLength: nat, prologueHash: nat,
    hasVtable: bool, vtable: HookTableVtable)

  datatype HookTableIdentity = HookTableIdentity(
    fileName: Bytes, version: Bytes, size: nat, timeDateStamp: nat, sizeOfImage: nat, sha256: Bytes)

  datatype HookTable = HookTable(identity: HookTableIdentity, records: seq<HookTableRecord>)

  /** The text of an ASCII literal. */
  function Ascii(s: string): (t: Bytes)
    ensures |t| == |s|
  {
    seq(|s|, i requires 0 <= i < |s| => (s[i] as nat) % 256)
  }

  // ---------------------------------------------------------------- strict field access

  /** The value of the first member of that name. */
  function Find(members: seq<Member>, key: Bytes): Option<Json> {
    if members == [] then None
    else if members[0].key == key then Some(members[0].value)
    else Find(members[1..], key)
  }

  predicate OnlyKnownKeys(members: seq<Member>, allowed: seq<Bytes>) {
    forall i :: 0 <= i < |members| ==> members[i].key in allowed
  }

  function Check(ok: bool): Option<()> {
    if ok then Some(()) else None
  }

  function RequireObject(v: Option<Json>): Option<seq<Member>> {
    if v.Some? && v.value.Object? then Some(v.value.members) else None
  }

  function RequireString(members: seq<Member>, key: Bytes): Option<Bytes> {
    var v :- Find(members, key);
    if v.Text? then Some(v.text) else None
  }

  function RequireU64(members: seq<Member>, key: Bytes): Option<nat> {
    var v :- Find(members, key);
    match v
    case Number(n) => Some(n)
    case Text(text) => NumberText(text)
    case _ => None
  }

  /** Null is allowed, absence is not. */
  function OptionalU64(members: seq<Member>, key: Bytes): Option<Option<nat>> {
    var v :- Find(members, key);
    if v.Null? then Some(None)
    else
      var n :- RequireU64(members, key);
      Some(Some(n))
  }

  predicate HasHexPrefix(text: Bytes) {
    |text| > 2 && text[0] == 0x30 && (text[1] == 0x78 || text[1] == 0x58)
  }

  /** A number given as text: hexadecimal after 0x, decimal otherwise, and without the overflow
      check that number literals get. */
  function NumberText(text: Bytes): Option<nat> {
    var base := if HasHexPrefix(text) then 16 else 10;
    var digits := if HasHexPrefix(text) then text[2..] else text;
    if digits != [] && AllInBase(digits, base) then Some(Wrapped(digits, base)) else None
  }

  predicate IsBaseDigit(c: Byte, base: nat) {
    IsDigit(c) || (base == 16 && IsHex(c))
  }

  predicate AllInBase(digits: Bytes, base: nat) {
    forall i :: 0 <= i < |digits| ==> IsBaseDigit(digits[i], base)
  }

  function Wrapped(digits: Bytes, base: nat): Word
    requires base == 10 || base == 16
    requires AllInBase(digits, base)
  {
    if digits == [] then 0
    else
      assert IsBaseDigit(digits[|digits| - 1], base);
      U64(Wrapped(digits[..|digits| - 1], base) * base + HexValue(digits[|digits| - 1]))
  }

  // ---------------------------------------------------------------- one record

  function RecordKeys(): seq<Bytes> {
    [Ascii("target"), Ascii("kind"), Ascii("seId"), Ascii("aeId"), Ascii("name"), Ascii("rva"), Ascii("pdataExtent"),
     Ascii("slotLength"), Ascii("prologueLength"), Ascii("prologueHash"), Ascii("vtable")]
  }

  function VtableKeys(): seq<Bytes> {
    [Ascii("id"), Ascii("name"), Ascii("rva"), Ascii("slot")]
  }

  function ParseKind(kind: Bytes): Option<HookKind> {
    if kind == Ascii("rva") then Some(Rva)
    else if kind == Ascii("vtable") then Some(Vtable)
    else None
  }

  /** The vtable block, when there is one: absence and null both mean there is none. */
  function ParseVtable(v: Option<Json>): Option<Option<HookTableVtable>> {
    if v.None? || v.value.Null? then Some(None)
    else
      var m :- RequireObject(v);
      var _ :- Check(OnlyKnownKeys(m, VtableKeys()));
      var id :- RequireU64(m, Ascii("id"));
      var name :- RequireString(m, Ascii("name"));
      var rva :- RequireU64(m, Ascii("rva"));
      var slot :- RequireU64(m, Ascii("slot"));
      Some(Some(HookTableVtable(id, name, rva, slot)))
  }

  /** What the verifier relies on: a prologue of 1 to 64 bytes, and a vtable block exactly on
      virtual targets. */
  predicate Sound(r: HookTableRecord) {
    && (r.kind.Vtable? <==> r.hasVtable)
    && (!r.hasVtable ==> r.vtable == NO_VTABLE)
    && 0 < r.prologueLength <= MAX_PROLOGUE
  }

  /** No record gets through that the verifier could not use. */
  function ParseRecord(v: Json): (r: Option<HookTableRecord>)
    ensures r.Some? ==> Sound(r.value)
  {
    var m :- RequireObject(Some(v));
    var _ :- Check(OnlyKnownKeys(m, RecordKeys()));
    var target :- RequireString(m, Ascii("target"));
    var kindText :- RequireString(m, Ascii("kind"));
    var name :- RequireString(m, Ascii("name"));
    var seId :- RequireU64(m, Ascii("seId"));
    var aeId :- RequireU64(m, Ascii("aeId"));
    var rva :- RequireU64(m, Ascii("rva"));
    var pdataExtent :- OptionalU64(m, Ascii("pdataExtent"));
    var slotLength :- OptionalU64(m, Ascii("slotLength"));
    var prologueLength :- RequireU64(m, Ascii("prologueLength"));
    var prologueHash :- RequireU64(m, Ascii("prologueHash"));
    var kind :- ParseKind(kindText);
    var block :- ParseVtable(Find(m, Ascii("vtable")));
    var _ :- Check(kind.Vtable? <==> block.Some?);
    var _ :- Check(0 < prologueLength <= MAX_PROLOGUE);
    Some(HookTableRecord(target, kind, seId, aeId, name, rva, pdataExtent, slotLength, prologueLength, prologueHash,
           block.Some?, if block.Some? then block.value else NO_VTABLE))
  }

  // ---------------------------------------------------------------- what the generator writes

  function TextMember(key: string, text: Bytes): Member {
    Member(Ascii(key), Text(text))
  }

  function NumberMember(key: string, n: nat): Member {
    Member(Ascii(key), Number(n))
  }

  function OptionalMember(key: string, n: Option<nat>): Member {
    Member(Ascii(key), if n.Some? then Number(n.value) else Null)
  }

  function VtableJson(v: HookTableVtable): Json {
    Object([NumberMember("id", v.id), TextMember("name", v.name), NumberMember("rva", v.rva),
            NumberMember("slot", v.slot)])
  }

  /** The members of a record in the generator's order; the vtable block only where there is one. */
  function RecordMembers(r: HookTableRecord): seq<Member> {
    [TextMember("target", r.target), TextMember("kind", if r.kind.Rva? then Ascii("rva") else Ascii("vtable")),
     NumberMember("seId", r.seId), NumberMember("aeId", r.aeId), TextMember("name", r.name), NumberMember("rva", r.rva),
     OptionalMember("pdataExtent", r.pdataExtent), OptionalMember("slotLength", r.slotLength)]
    + (if r.hasVtable then [Member(Ascii("vtable"), VtableJson(r.vtable))] else [])
    + [NumberMember("prologueLength", r.prologueLength), NumberMember("prologueHash", r.prologueHash)]
  }

  function RecordJson(r: HookTableRecord): Json {
    Object(RecordMembers(r))
  }

  // ---------------------------------------------------------------- records survive

  predicate UniqueKeys(members: seq<Member>) {
    forall i, j :: 0 <= i < j < |members| ==> members[i].key != members[j].key
  }

  lemma {:induction false} FindUnique(members: seq<Member>, i: nat)
    requires UniqueKeys(members) && i < |members|
    ensures Find(members, members[i].key) == Some(members[i].value)
  {
    if i == 0 {
    } else {
      assert members[1..][i - 1] == members[i];
      FindUnique(members[1..], i - 1);
    }
  }

  lemma {:induction false} FindAbsent(members: seq<Member>, key: Bytes)
    requires forall i :: 0 <= i < |members| ==> members[i].key != key
    ensures Find(members, key) == None
  {
    if members == [] {
    } else {
      FindAbsent(members[1..], key);
    }
  }

  /** Keys of the tables are told apart by their length and first letter. */
  function Tag(key: Bytes): nat {
    if key == [] then 0 else 256 * |key| + key[0]
  }

  lemma TagsOfRecordKeys()
    ensures Tag(Ascii("target")) == 256 * 6 + 0x74 && Tag(Ascii("kind")) == 256 * 4 + 0x6B
    ensures Tag(Ascii("seId")) == 256 * 4 + 0x73 && Tag(Ascii("aeId")) == 256 * 4 + 0x61
    ensures Tag(Ascii("name")) == 256 * 4 + 0x6E && Tag(Ascii("rva")) == 256 * 3 + 0x72
    ensures Tag(Ascii("pdataExtent")) == 256 * 11 + 0x70 && Tag(Ascii("slotLength")) == 256 * 10 + 0x73
    ensures Tag(Ascii("prologueLength")) == 256 * 14 + 0x70 && Tag(Ascii("prologueHash")) == 256 * 12 + 0x70
    ensures Tag(Ascii("vtable")) == 256 * 6 + 0x76 && Tag(Ascii("id")) == 256 * 2 + 0x69
    ensures Tag(Ascii("slot")) == 256 * 4 + 0x73
  {
  }

  /** The tags of RecordMembers, in order. */
  function RecordTags(hasVtable: bool): seq<nat> {
    [0x674, 0x46B, 0x473, 0x461, 0x46E, 0x372, 0xB70, 0xA73] + (if hasVtable then [0x676] else []) + [0xE70, 0xC70]
  }

  lemma TagsTellKeysApart(members: seq<Member>, tags: seq<nat>)
    requires |members| == |tags| && forall i :: 0 <= i < |tags| ==> Tag(members[i].key) == tags[i]
    requires forall i, j :: 0 <= i < j < |tags| ==> tags[i] != tags[j]
    ensures UniqueKeys(members)
  {
  }

  lemma RecordKeysAreUnique(r: HookTableRecord)
    ensures UniqueKeys(RecordMembers(r))
  {
    var m, tags := RecordMembers(r), RecordTags(r.hasVtable);
    TagsOfRecordKeys();
    assert forall i :: 0 <= i < |tags| ==> Tag(m[i].key) == tags[i];
    TagsTellKeysApart(m, tags);
  }

  lemma VtableSurvives(v: HookTableVtable)
    ensures ParseVtable(Some(VtableJson(v))) == Some(Some(v))
  {
    var m := VtableJson(v).members;
    TagsOfRecordKeys();
    assert forall i :: 0 <= i < 4 ==> Tag(m[i].key) == [0x269, 0x46E, 0x372, 0x473][i];
    TagsTellKeysApart(m, [0x269, 0x46E, 0x372, 0x473]);
    FindUnique(m, 0);
    FindUnique(m, 1);
    FindUnique(m, 2);
    FindUnique(m, 3);
  }

  /** Every field of a written record is found under its name. */
  lemma FieldsAreFound(r: HookTableRecord)
    ensures var m := RecordMembers(r);
            && RequireString(m, Ascii("target")) == Some(r.target)
            && RequireString(m, Ascii("kind")) == Some(if r.kind.Rva? then Ascii("rva") else Ascii("vtable"))
            && RequireU64(m, Ascii("seId")) == Some(r.seId)
            && RequireU64(m, Ascii("aeId")) == Some(r.aeId)
            && RequireString(m, Ascii("name")) == Some(r.name)
            && RequireU64(m, Ascii("rva")) == Some(r.rva)
            && OptionalU64(m, Ascii("pdataExtent")) == Some(r.pdataExtent)
            && OptionalU64(m, Ascii("slotLength")) == Some(r.slotLength)
  {
    var m := RecordMembers(r);
    RecordKeysAreUnique(r);
    FindUnique(m, 0);
    FindUnique(m, 1);
    FindUnique(m, 2);
    FindUnique(m, 3);
    FindUnique(m, 4);
    FindUnique(m, 5);
    FindUnique(m, 6);
    FindUnique(m, 7);
  }

  lemma VtableIsFound(r: HookTableRecord)
    ensures Find(RecordMembers(r), Ascii("vtable")) == if r.hasVtable then Some(VtableJson(r.vtable)) else None
  {
    var m := RecordMembers(r);
    if r.hasVtable {
      RecordKeysAreUnique(r);
      FindUnique(m, 8);
    } else {
      TagsOfRecordKeys();
      assert forall i :: 0 <= i < |m| ==> Tag(m[i].key) == RecordTags(false)[i];
      FindAbsent(m, Ascii("vtable"));
    }
  }

  lemma LastFieldsAreFound(r: HookTableRecord)
    ensures var m := RecordMembers(r);
            && RequireU64(m, Ascii("prologueLength")) == Some(r.prologueLength)
            && RequireU64(m, Ascii("prologueHash")) == Some(r.prologueHash)
  {
    var m := RecordMembers(r);
    RecordKeysAreUnique(r);
    FindUnique(m, |m| - 2);
    FindUnique(m, |m| - 1);
  }

  /** A record the generator writes is parsed back unchanged, exactly when it is sound. */
  lemma RecordSurvives(r: HookTableRecord)
    ensures ParseRecord(RecordJson(r)) == Some(r) <==> Sound(r)
  {
    FieldsAreFound(r);
    LastFieldsAreFound(r);
    VtableIsFound(r);
    VtableSurvives(r.vtable);
    RecordKeysAreKnown(r);
    KindsDiffer();
  }

  lemma KindsDiffer()
    ensures Ascii("rva") != Ascii("vtable")
  {
    assert |Ascii("rva")| == 3;
  }

  lemma RecordKeysAreKnown(r: HookTableRecord)
    ensures OnlyKnownKeys(RecordMembers(r), RecordKeys())
  {
  }

  // ---------------------------------------------------------------- the whole table

  function Schema(): Bytes {
    Ascii("heapsentinel.hooktable/1")
  }

  function TableKeys(): seq<Bytes> {
    [Ascii("schema"), Ascii("generator"), Ascii("identity"), Ascii("addressLibrary"), Ascii("names"),
     Ascii("licensing"), Ascii("hash"), Ascii("targets")]
  }

  function IdentityKeys(): seq<Bytes> {
    [Ascii("module"), Ascii("version"), Ascii("size"), Ascii("timeDateStamp"), Ascii("sizeOfImage"), Ascii("sha256")]
  }

  function ParseIdentity(v: Option<Json>): Option<HookTableIdentity> {
    var m :- RequireObject(v);
    var _ :- Check(OnlyKnownKeys(m, IdentityKeys()));
    var fileName :- RequireString(m, Ascii("module"));
    var version :- RequireString(m, Ascii("version"));
    var size :- RequireU64(m, Ascii("size"));
    var timeDateStamp :- RequireU64(m, Ascii("timeDateStamp"));
    var sizeOfImage :- RequireU64(m, Ascii("sizeOfImage"));
    var sha256 :- RequireString(m, Ascii("sha256"));
    Some(HookTableIdentity(fileName, version, size, timeDateStamp, sizeOfImage, sha256))
  }

  predicate NamesTarget(records: seq<HookTableRecord>, target: Bytes) {
    exists i :: 0 <= i < |records| && records[i].target == target
  }

  predicate GoodRecords(records: seq<HookTableRecord>) {
    && (forall i :: 0 <= i < |records| ==> Sound(records[i]))
    && (forall i, j :: 0 <= i < j < |records| ==> records[i].target != records[j].target)
  }

  /** Each record in turn, refused when an earlier one names the same target. */
  function ParseRecords(vs: seq<Json>): (r: Option<seq<HookTableRecord>>)
    ensures r.Some? ==> |r.value| == |vs| && GoodRecords(r.value)
  {
    if vs == [] then Some([])
    else
      var earlier :- ParseRecords(vs[..|vs| - 1]);
      AddRecord(earlier, vs[|vs| - 1])
  }

  function AddRecord(earlier: seq<HookTableRecord>, v: Json): (r: Option<seq<HookTableRecord>>)
    ensures r.Some? && GoodRecords(earlier) ==> |r.value| == |earlier| + 1 && GoodRecords(r.value)
  {
    var record :- ParseRecord(v);
    if NamesTarget(earlier, record.target) then None else Some(earlier + [record])
  }

  /** What every accepted table is: at least one record, all of them usable, no target twice. */
  predicate GoodTable(t: HookTable) {
    t.records != [] && GoodRecords(t.records)
  }

  function TableOf(root: Json): (t: Option<HookTable>)
    ensures t.Some? ==> GoodTable(t.value)
  {
    var m :- RequireObject(Some(root));
    var _ :- Check(OnlyKnownKeys(m, TableKeys()));
    var schema :- RequireString(m, Ascii("schema"));
    var _ :- Check(schema == Schema());
    var identity :- ParseIdentity(Find(m, Ascii("identity")));
    var targets :- Find(m, Ascii("targets"));
    var _ :- Check(targets.Array?);
    var records :- ParseRecords(targets.elements);
    var _ :- Check(records != []);
    Some(HookTable(identity, records))
  }

  method SeenBefore(records: seq<HookTableRecord>, target: Bytes) returns (seen: bool)
    ensures seen <==> NamesTarget(records, target)
  {
    var j := 0;
    while j < |records|
      invariant j <= |records|
      invariant forall k :: 0 <= k < j ==> records[k].target != target
    {
      if records[j].target == target {
        return true;
      }
      j := j + 1;
    }
    return false;
  }

  /** The loop over the targets. */
  method ParseTargets(vs: seq<Json>) returns (r: Option<seq<HookTableRecord>>)
    ensures r == ParseRecords(vs)
  {
    var records: seq<HookTableRecord> := [];
    var i := 0;
    while i < |vs|
      invariant i <= |vs| && ParseRecords(vs[..i]) == Some(records)
    {
      RecordsStep(vs, i);
      var record := ParseRecord(vs[i]);
      if record.None? {
        FailedPrefix(vs, i + 1);
        return None;
      }
      var seen := SeenBefore(records, record.value.target);
      if seen {
        FailedPrefix(vs, i + 1);
        return None;
      }
      records := records + [record.value];
      i := i + 1;
    }
    assert vs[..i] == vs;
    return Some(records);
  }

  lemma RecordsStep(vs: seq<Json>, i: nat)
    requires i < |vs|
    ensures ParseRecords(vs[..i]).None? ==> ParseRecords(vs[..i + 1]).None?
    ensures ParseRecords(vs[..i]).Some? ==> ParseRecords(vs[..i + 1]) == AddRecord(ParseRecords(vs[..i]).value, vs[i])
  {
    assert vs[..i + 1][..i] == vs[..i] && vs[..i + 1][i] == vs[i];
  }

  lemma {:induction false} FailedPrefix(vs: seq<Json>, i: nat)
    requires i <= |vs| && ParseRecords(vs[..i]).None?
    ensures ParseRecords(vs).None?
    decreases |vs| - i
  {
    if i == |vs| {
      assert vs[..i] == vs;
    } else {
      RecordsStep(vs, i);
      FailedPrefix(vs, i + 1);
    }
  }

  /** A target is found exactly when a record names it, and then it is the only such record. */
  method FindTarget(t: HookTable, target: Bytes) returns (r: Option<HookTableRecord>)
    requires GoodTable(t)
    ensures r.Some? <==> NamesTarget(t.records, target)
    ensures r.Some? ==> r.value.target == target && r.value in t.records
                        && forall q :: q in t.records && q.target == target ==> q == r.value
  {
    var i := 0;
    while i < |t.records|
      invariant i <= |t.records|
      invariant forall k :: 0 <= k < i ==> t.records[k].target != target
    {
      if t.records[i].target == target {
        return Some(t.records[i]);
      }
      i := i + 1;
    }
    return None;
  }

  // ---------------------------------------------------------------- tables survive

  function IdentityMembers(d: HookTableIdentity): seq<Member> {
    [TextMember("module", d.fileName), TextMember("version", d.version), NumberMember("size", d.size),
     NumberMember("timeDateStamp", d.timeDateStamp), NumberMember("sizeOfImage", d.sizeOfImage),
     TextMember("sha256", d.sha256)]
  }

  /** The parts of a table file the plugin does not look into. */
  datatype Provenance = Provenance(generator: Json, addressLibrary: Json, names: Json, licensing: Json, hash: Json)

  function RecordsJson(records: seq<HookTableRecord>): (vs: seq<Json>)
    ensures |vs| == |records|
  {
    seq(|records|, i requires 0 <= i < |records| => RecordJson(records[i]))
  }

  function TableMembers(t: HookTable, p: Provenance): seq<Member> {
    [TextMember("schema", Schema()), Member(Ascii("generator"), p.generator),
     Member(Ascii("identity"), Object(IdentityMembers(t.identity))), Member(Ascii("addressLibrary"), p.addressLibrary),
     Member(Ascii("names"), p.names), Member(Ascii("licensing"), p.licensing), Member(Ascii("hash"), p.hash),
     Member(Ascii("targets"), Array(RecordsJson(t.records)))]
  }

  function TableJson(t: HookTable, p: Provenance): Json {
    Object(TableMembers(t, p))
  }

  lemma TagsOfTableKeys()
    ensures Tag(Ascii("schema")) == 0x673 && Tag(Ascii("generator")) == 0x967 && Tag(Ascii("identity")) == 0x869
    ensures Tag(Ascii("addressLibrary")) == 0xE61 && Tag(Ascii("names")) == 0x56E && Tag(Ascii("licensing")) == 0x96C
    ensures Tag(Ascii("hash")) == 0x468 && Tag(Ascii("targets")) == 0x774
    ensures Tag(Ascii("module")) == 0x66D && Tag(Ascii("version")) == 0x776 && Tag(Ascii("size")) == 0x473
    ensures Tag(Ascii("timeDateStamp")) == 0xD74 && Tag(Ascii("sizeOfImage")) == 0xB73 && Tag(Ascii("sha256")) == 0x673
  {
  }

  lemma IdentityKeysAreUnique(d: HookTableIdentity)
    ensures UniqueKeys(IdentityMembers(d))
  {
    var m, tags := IdentityMembers(d), [0x66D, 0x776, 0x473, 0xD74, 0xB73, 0x673];
    TagsOfTableKeys();
    assert forall i :: 0 <= i < 6 ==> Tag(m[i].key) == tags[i];
    TagsTellKeysApart(m, tags);
  }

  lemma IdentitySurvives(d: HookTableIdentity)
    ensures ParseIdentity(Some(Object(IdentityMembers(d)))) == Some(d)
  {
    var m := IdentityMembers(d);
    IdentityKeysAreUnique(d);
    FindUnique(m, 0);
    FindUnique(m, 1);
    FindUnique(m, 2);
    FindUnique(m, 3);
    FindUnique(m, 4);
    FindUnique(m, 5);
  }

  lemma GoodRecordsSplit(earlier: seq<HookTableRecord>, r: HookTableRecord)
    ensures GoodRecords(earlier + [r]) <==> GoodRecords(earlier) && Sound(r) && !NamesTarget(earlier, r.target)
  {
    var all := earlier + [r];
    if GoodRecords(all) {
      assert forall i :: 0 <= i < |earlier| ==> all[i] == earlier[i];
      assert all[|earlier|] == r;
    }
  }

  lemma {:induction false} RecordsSurvive(records: seq<HookTableRecord>)
    ensures ParseRecords(RecordsJson(records)) == Some(records) <==> GoodRecords(records)
  {
    if records == [] {
    } else {
      var n := |records| - 1;
      assert RecordsJson(records)[..n] == RecordsJson(records[..n]);
      assert records == records[..n] + [records[n]];
      RecordsSurvive(records[..n]);
      RecordSurvives(records[n]);
      GoodRecordsSplit(records[..n], records[n]);
    }
  }

  lemma TableKeysAreUnique(t: HookTable, p: Provenance)
    ensures UniqueKeys(TableMembers(t, p))
  {
    var m, tags := TableMembers(t, p), [0x673, 0x967, 0x869, 0xE61, 0x56E, 0x96C, 0x468, 0x774];
    TagsOfTableKeys();
    assert forall i :: 0 <= i < 8 ==> Tag(m[i].key) == tags[i];
    TagsTellKeysApart(m, tags);
  }

  /** A table the generator writes is loaded back unchanged, exactly when it is one the plugin
      may accept, whatever the parts it does not look into. */
  lemma TableSurvives(t: HookTable, p: Provenance)
    ensures TableOf(TableJson(t, p)) == Some(t) <==> GoodTable(t)
  {
    var m := TableMembers(t, p);
    TableKeysAreUnique(t, p);
    FindUnique(m, 0);
    FindUnique(m, 2);
    FindUnique(m, 7);
    IdentitySurvives(t.identity);
    RecordsSurvive(t.records);
    assert OnlyKnownKeys(m, TableKeys());
  }
}
