/** Exactly which values and texts a hook table is loaded from (ParseRecord and ParseHookTable in
    src/Hooks/HookTable.cpp), field by field: no other schema, no unknown key, no missing one. */
module HookTableForms {
  import opened Wrappers
  import opened JsonSyntax
  import opened JsonPrinter
  import opened JsonRoundTrip
  import opened HookTable
  import opened HookTableFile

  // ---------------------------------------------------------------- fields

  /** The first member named `key` has the value `v`; without such a member there is none. */
  ghost predicate First(members: seq<Member>, key: Bytes, v: Option<Json>) {
    match v
    case Some(value) =>
      exists i :: 0 <= i < |members| && members[i] == Member(key, value)
                  && forall j :: 0 <= j < i ==> members[j].key != key
    case None => forall i :: 0 <= i < |members| ==> members[i].key != key
  }

  ghost predicate HasText(members: seq<Member>, key: string, text: Bytes) {
    First(members, Ascii(key), Some(Text(text)))
  }

  /** A number literal, or a number spelled in a string. */
  predicate IsNumber(v: Json, n: nat) {
    v == Number(n) || (v.Text? && NumberText(v.text) == Some(n))
  }

  ghost predicate HasNumber(members: seq<Member>, key: string, n: nat) {
    exists v :: First(members, Ascii(key), Some(v)) && IsNumber(v, n)
  }

  ghost predicate HasOptional(members: seq<Member>, key: string, n: Option<nat>) {
    if n.Some? then HasNumber(members, key, n.value) else First(members, Ascii(key), Some(Null))
  }

  ghost predicate Names(allowed: seq<string>, key: Bytes) {
    exists k :: 0 <= k < |allowed| && key == Ascii(allowed[k])
  }

  ghost predicate KeysAmong(members: seq<Member>, allowed: seq<string>) {
    forall i :: 0 <= i < |members| ==> Names(allowed, members[i].key)
  }

  lemma {:induction false} FindIsFirst(members: seq<Member>, key: Bytes)
    ensures First(members, key, Find(members, key))
  {
    if members == [] {
    } else if members[0].key == key {
      assert members[0] == Member(key, members[0].value);
    } else {
      FindIsFirst(members[1..], key);
      if Find(members[1..], key).Some? {
        var i :| 0 <= i < |members| - 1 && members[1..][i] == Member(key, Find(members, key).value)
                 && forall j :: 0 <= j < i ==> members[1..][j].key != key;
        assert forall j :: 0 < j <= i ==> members[j] == members[1..][j - 1];
        assert members[i + 1] == Member(key, Find(members, key).value);
      } else {
        assert forall j :: 0 < j < |members| ==> members[j] == members[1..][j - 1];
      }
    }
  }

  lemma FirstIsFound(members: seq<Member>, key: Bytes, v: Option<Json>)
    ensures First(members, key, v) <==> Find(members, key) == v
  {
    FindIsFirst(members, key);
  }

  lemma TextIff(members: seq<Member>, key: string, text: Bytes)
    ensures HasText(members, key, text) <==> RequireString(members, Ascii(key)) == Some(text)
  {
    FirstIsFound(members, Ascii(key), Some(Text(text)));
  }

  lemma NumberIff(members: seq<Member>, key: string, n: nat)
    ensures HasNumber(members, key, n) <==> RequireU64(members, Ascii(key)) == Some(n)
  {
    forall v
      ensures First(members, Ascii(key), Some(v)) <==> Find(members, Ascii(key)) == Some(v)
    {
      FirstIsFound(members, Ascii(key), Some(v));
    }
  }

  lemma OptionalIff(members: seq<Member>, key: string, n: Option<nat>)
    ensures HasOptional(members, key, n) <==> OptionalU64(members, Ascii(key)) == Some(n)
  {
    FirstIsFound(members, Ascii(key), Some(Null));
    if n.Some? {
      NumberIff(members, key, n.value);
    }
  }

  // ---------------------------------------------------------------- a record

  ghost predicate VtableMeans(v: Json, block: HookTableVtable) {
    && v.Object? && KeysAmong(v.members, ["id", "name", "rva", "slot"])
    && HasNumber(v.members, "id", block.id) && HasText(v.members, "name", block.name)
    && HasNumber(v.members, "rva", block.rva) && HasNumber(v.members, "slot", block.slot)
  }

  ghost predicate HasBlock(members: seq<Member>, r: HookTableRecord) {
    if r.hasVtable then exists v :: First(members, Ascii("vtable"), Some(v)) && VtableMeans(v, r.vtable)
    else First(members, Ascii("vtable"), None) || First(members, Ascii("vtable"), Some(Null))
  }

  ghost predicate HasFields(m: seq<Member>, r: HookTableRecord) {
    && HasText(m, "target", r.target) && HasText(m, "kind", Ascii(if r.kind.Rva? then "rva" else "vtable"))
    && HasText(m, "name", r.name)
    && HasNumber(m, "seId", r.seId) && HasNumber(m, "aeId", r.aeId) && HasNumber(m, "rva", r.rva)
    && HasOptional(m, "pdataExtent", r.pdataExtent) && HasOptional(m, "slotLength", r.slotLength)
    && HasNumber(m, "prologueLength", r.prologueLength) && HasNumber(m, "prologueHash", r.prologueHash)
  }

  function RecordNames(): seq<string> {
    ["target", "kind", "seId", "aeId", "name", "rva", "pdataExtent", "slotLength", "prologueLength", "prologueHash",
     "vtable"]
  }

  /** `v` is an object with these keys and no other, and its first members of each name are the
      fields of `r`, which the verifier can use. */
  ghost predicate RecordMeans(v: Json, r: HookTableRecord) {
    && v.Object?
    && KeysAmong(v.members, RecordNames())
    && HasFields(v.members, r) && HasBlock(v.members, r)
    && (r.kind.Vtable? <==> r.hasVtable) && (!r.hasVtable ==> r.vtable == NO_VTABLE)
    && 0 < r.prologueLength <= 64
  }

  lemma KeysIff(members: seq<Member>, allowed: seq<string>, keys: seq<Bytes>)
    requires |keys| == |allowed| && forall k :: 0 <= k < |keys| ==> keys[k] == Ascii(allowed[k])
    ensures KeysAmong(members, allowed) <==> OnlyKnownKeys(members, keys)
  {
    forall i | 0 <= i < |members|
      ensures members[i].key in keys <==> Names(allowed, members[i].key)
    {
      if members[i].key in keys {
        var k :| 0 <= k < |keys| && keys[k] == members[i].key;
        assert members[i].key == Ascii(allowed[k]);
      }
      if Names(allowed, members[i].key) {
        var k :| 0 <= k < |allowed| && members[i].key == Ascii(allowed[k]);
        assert keys[k] == members[i].key;
      }
    }
  }

  lemma VtableIff(v: Json, block: HookTableVtable)
    ensures VtableMeans(v, block) <==> v != Null && ParseVtable(Some(v)) == Some(Some(block))
  {
    if v.Object? {
      var m := v.members;
      KeysIff(m, ["id", "name", "rva", "slot"], VtableKeys());
      NumberIff(m, "id", block.id);
      TextIff(m, "name", block.name);
      NumberIff(m, "rva", block.rva);
      NumberIff(m, "slot", block.slot);
    }
  }

  lemma BlockIff(m: seq<Member>, r: HookTableRecord)
    ensures HasBlock(m, r)
       <==> ParseVtable(Find(m, Ascii("vtable"))) == Some(if r.hasVtable then Some(r.vtable) else None)
  {
    var key := Ascii("vtable");
    var found := Find(m, key);
    FirstIsFound(m, key, None);
    FirstIsFound(m, key, Some(Null));
    forall v
      ensures First(m, key, Some(v)) <==> found == Some(v)
    {
      FirstIsFound(m, key, Some(v));
    }
    if found.Some? {
      VtableIff(found.value, r.vtable);
    }
  }

  predicate FieldsRead(m: seq<Member>, r: HookTableRecord) {
    && RequireString(m, Ascii("target")) == Some(r.target)
    && RequireString(m, Ascii("kind")) == Some(Ascii(if r.kind.Rva? then "rva" else "vtable"))
    && RequireString(m, Ascii("name")) == Some(r.name)
    && RequireU64(m, Ascii("seId")) == Some(r.seId)
    && RequireU64(m, Ascii("aeId")) == Some(r.aeId)
    && RequireU64(m, Ascii("rva")) == Some(r.rva)
    && OptionalU64(m, Ascii("pdataExtent")) == Some(r.pdataExtent)
    && OptionalU64(m, Ascii("slotLength")) == Some(r.slotLength)
    && RequireU64(m, Ascii("prologueLength")) == Some(r.prologueLength)
    && RequireU64(m, Ascii("prologueHash")) == Some(r.prologueHash)
  }

  lemma FieldsIff(m: seq<Member>, r: HookTableRecord)
    ensures HasFields(m, r) <==> FieldsRead(m, r)
  {
    TextIff(m, "target", r.target);
    TextIff(m, "kind", Ascii(if r.kind.Rva? then "rva" else "vtable"));
    TextIff(m, "name", r.name);
    NumberIff(m, "seId", r.seId);
    NumberIff(m, "aeId", r.aeId);
    NumberIff(m, "rva", r.rva);
    OptionalIff(m, "pdataExtent", r.pdataExtent);
    OptionalIff(m, "slotLength", r.slotLength);
    NumberIff(m, "prologueLength", r.prologueLength);
    NumberIff(m, "prologueHash", r.prologueHash);
  }

  predicate PassesAllChecks(m: seq<Member>, r: HookTableRecord) {
    && OnlyKnownKeys(m, RecordKeys()) && FieldsRead(m, r)
    && ParseVtable(Find(m, Ascii("vtable"))) == Some(if r.hasVtable then Some(r.vtable) else None)
    && Sound(r)
  }

  lemma ParsedPassesAllChecks(m: seq<Member>, r: HookTableRecord)
    requires ParseRecord(Object(m)) == Some(r)
    ensures PassesAllChecks(m, r)
  {
  }

  lemma PassingAllChecksIsParsed(m: seq<Member>, r: HookTableRecord)
    requires PassesAllChecks(m, r)
    ensures ParseRecord(Object(m)) == Some(r)
  {
    KindsDiffer();
  }

  lemma RecordKeysIff(m: seq<Member>)
    ensures OnlyKnownKeys(m, RecordKeys()) <==> KeysAmong(m, RecordNames())
  {
    KeysIff(m, RecordNames(), RecordKeys());
  }

  /** A value is accepted as a record exactly when it means it. */
  lemma RecordAcceptedIff(v: Json, r: HookTableRecord)
    ensures ParseRecord(v) == Some(r) <==> RecordMeans(v, r)
  {
    if v.Object? {
      RecordKeysIff(v.members);
      FieldsIff(v.members, r);
      BlockIff(v.members, r);
      if ParseRecord(v) == Some(r) {
        ParsedPassesAllChecks(v.members, r);
      }
      if PassesAllChecks(v.members, r) {
        PassingAllChecksIsParsed(v.members, r);
      }
    }
  }

  // ---------------------------------------------------------------- the table

  function IdentityNames(): seq<string> {
    ["module", "version", "size", "timeDateStamp", "sizeOfImage", "sha256"]
  }

  ghost predicate IdentityMeans(v: Json, d: HookTableIdentity) {
    && v.Object?
    && KeysAmong(v.members, IdentityNames())
    && HasText(v.members, "module", d.fileName) && HasText(v.members, "version", d.version)
    && HasNumber(v.members, "size", d.size) && HasNumber(v.members, "timeDateStamp", d.timeDateStamp)
    && HasNumber(v.members, "sizeOfImage", d.sizeOfImage) && HasText(v.members, "sha256", d.sha256)
  }

  ghost predicate EachMeans(vs: seq<Json>, records: seq<HookTableRecord>) {
    |vs| == |records| && forall i :: 0 <= i < |vs| ==> RecordMeans(vs[i], records[i])
  }

  ghost predicate Distinct(records: seq<HookTableRecord>) {
    forall i, j :: 0 <= i < j < |records| ==> records[i].target != records[j].target
  }

  ghost predicate RecordsMean(vs: seq<Json>, records: seq<HookTableRecord>) {
    EachMeans(vs, records) && Distinct(records)
  }

  /** What the identity and the targets have to be. */
  ghost predicate PartsMean(m: seq<Member>, t: HookTable) {
    && (exists v :: First(m, Ascii("identity"), Some(v)) && IdentityMeans(v, t.identity))
    && t.records != []
    && exists vs :: First(m, Ascii("targets"), Some(Array(vs))) && RecordsMean(vs, t.records)
  }

  function TableNames(): seq<string> {
    ["schema", "generator", "identity", "addressLibrary", "names", "licensing", "hash", "targets"]
  }

  /** An object with these keys and no other, of this schema, with an identity and at least one
      record, no target twice. */
  ghost predicate TableMeans(root: Json, t: HookTable) {
    && root.Object?
    && KeysAmong(root.members, TableNames())
    && HasText(root.members, "schema", Ascii("heapsentinel.hooktable/1"))
    && PartsMean(root.members, t)
  }

  predicate IdentityRead(m: seq<Member>, d: HookTableIdentity) {
    && RequireString(m, Ascii("module")) == Some(d.fileName) && RequireString(m, Ascii("version")) == Some(d.version)
    && RequireU64(m, Ascii("size")) == Some(d.size) && RequireU64(m, Ascii("timeDateStamp")) == Some(d.timeDateStamp)
    && RequireU64(m, Ascii("sizeOfImage")) == Some(d.sizeOfImage)
    && RequireString(m, Ascii("sha256")) == Some(d.sha256)
  }

  lemma IdentityParsedIff(m: seq<Member>, d: HookTableIdentity)
    ensures ParseIdentity(Some(Object(m))) == Some(d) <==> OnlyKnownKeys(m, IdentityKeys()) && IdentityRead(m, d)
  {
  }

  lemma IdentityKeysIff(m: seq<Member>)
    ensures OnlyKnownKeys(m, IdentityKeys()) <==> KeysAmong(m, IdentityNames())
  {
    KeysIff(m, IdentityNames(), IdentityKeys());
  }

  lemma IdentityIff(v: Json, d: HookTableIdentity)
    ensures IdentityMeans(v, d) <==> ParseIdentity(Some(v)) == Some(d)
  {
    if v.Object? {
      var m := v.members;
      IdentityKeysIff(m);
      IdentityParsedIff(m, d);
      TextIff(m, "module", d.fileName);
      TextIff(m, "version", d.version);
      NumberIff(m, "size", d.size);
      NumberIff(m, "timeDateStamp", d.timeDateStamp);
      NumberIff(m, "sizeOfImage", d.sizeOfImage);
      TextIff(m, "sha256", d.sha256);
    }
  }

  ghost predicate EachParses(vs: seq<Json>, records: seq<HookTableRecord>) {
    |vs| == |records| && forall i :: 0 <= i < |vs| ==> ParseRecord(vs[i]) == Some(records[i])
  }

  lemma EachParsesSplit(vs: seq<Json>, records: seq<HookTableRecord>)
    requires vs != [] && records != []
    ensures var n, k := |vs| - 1, |records| - 1;
            EachParses(vs, records) <==>
              EachParses(vs[..n], records[..k]) && ParseRecord(vs[n]) == Some(records[k])
  {
  }

  /** What appending a parsed record comes to. */
  function Appended(earlier: seq<HookTableRecord>, record: Option<HookTableRecord>): Option<seq<HookTableRecord>> {
    if record.None? || NamesTarget(earlier, record.value.target) then None else Some(earlier + [record.value])
  }

  lemma AppendedIff(
    earlier: seq<HookTableRecord>, record: Option<HookTableRecord>, records: seq<HookTableRecord>)
    requires records != []
    ensures var k := |records| - 1;
            Appended(earlier, record) == Some(records) <==>
              earlier == records[..k] && record == Some(records[k]) && !NamesTarget(earlier, records[k].target)
  {
    assert records == records[..|records| - 1] + [records[|records| - 1]];
  }

  lemma AddIsAppend(earlier: seq<HookTableRecord>, v: Json)
    ensures AddRecord(earlier, v) == Appended(earlier, ParseRecord(v))
  {
  }

  lemma ParseRecordsSplit(vs: seq<Json>, records: seq<HookTableRecord>)
    requires vs != [] && records != []
    ensures var n, k := |vs| - 1, |records| - 1;
            ParseRecords(vs) == Some(records) <==>
              && ParseRecords(vs[..n]) == Some(records[..k]) && ParseRecord(vs[n]) == Some(records[k])
              && !NamesTarget(records[..k], records[k].target)
  {
    var n := |vs| - 1;
    var earlier := ParseRecords(vs[..n]);
    if earlier.Some? {
      assert ParseRecords(vs) == AddRecord(earlier.value, vs[n]);
      AddIsAppend(earlier.value, vs[n]);
      AppendedIff(earlier.value, ParseRecord(vs[n]), records);
    }
  }

  lemma {:induction false} ParsesOneByOne(vs: seq<Json>, records: seq<HookTableRecord>)
    ensures ParseRecords(vs) == Some(records) <==> EachParses(vs, records) && GoodRecords(records)
  {
    if vs == [] || records == [] {
    } else {
      var n, k := |vs| - 1, |records| - 1;
      ParsesOneByOne(vs[..n], records[..k]);
      EachParsesSplit(vs, records);
      ParseRecordsSplit(vs, records);
      assert records == records[..k] + [records[k]];
      GoodRecordsSplit(records[..k], records[k]);
    }
  }

  lemma EachIff(vs: seq<Json>, records: seq<HookTableRecord>)
    ensures EachMeans(vs, records) <==> EachParses(vs, records)
  {
    if |vs| == |records| {
      forall i | 0 <= i < |vs|
        ensures RecordMeans(vs[i], records[i]) <==> ParseRecord(vs[i]) == Some(records[i])
      {
        RecordAcceptedIff(vs[i], records[i]);
      }
    }
  }

  lemma ParsedAreGood(vs: seq<Json>, records: seq<HookTableRecord>)
    requires EachParses(vs, records)
    ensures GoodRecords(records) <==> Distinct(records)
  {
    forall i | 0 <= i < |records|
      ensures Sound(records[i])
    {
      assert ParseRecord(vs[i]) == Some(records[i]);
    }
  }

  lemma RecordsIff(vs: seq<Json>, records: seq<HookTableRecord>)
    ensures RecordsMean(vs, records) <==> ParseRecords(vs) == Some(records)
  {
    ParsesOneByOne(vs, records);
    EachIff(vs, records);
    if EachParses(vs, records) {
      ParsedAreGood(vs, records);
    }
  }

  predicate PartsRead(m: seq<Member>, t: HookTable) {
    var targets := Find(m, Ascii("targets"));
    && ParseIdentity(Find(m, Ascii("identity"))) == Some(t.identity)
    && t.records != []
    && targets.Some? && targets.value.Array? && ParseRecords(targets.value.elements) == Some(t.records)
  }

  lemma PartsIff(m: seq<Member>, t: HookTable)
    ensures PartsMean(m, t) <==> PartsRead(m, t)
  {
    forall v
      ensures First(m, Ascii("identity"), Some(v)) <==> Find(m, Ascii("identity")) == Some(v)
      ensures First(m, Ascii("targets"), Some(v)) <==> Find(m, Ascii("targets")) == Some(v)
    {
      FirstIsFound(m, Ascii("identity"), Some(v));
      FirstIsFound(m, Ascii("targets"), Some(v));
    }
    var identity, targets := Find(m, Ascii("identity")), Find(m, Ascii("targets"));
    if identity.Some? {
      IdentityIff(identity.value, t.identity);
    }
    if targets.Some? && targets.value.Array? {
      RecordsIff(targets.value.elements, t.records);
    }
  }

  lemma TableParsedIff(m: seq<Member>, t: HookTable)
    ensures TableOf(Object(m)) == Some(t) <==>
              OnlyKnownKeys(m, TableKeys()) && RequireString(m, Ascii("schema")) == Some(Schema()) && PartsRead(m, t)
  {
  }

  lemma TableKeysIff(m: seq<Member>)
    ensures OnlyKnownKeys(m, TableKeys()) <==> KeysAmong(m, TableNames())
  {
    KeysIff(m, TableNames(), TableKeys());
  }

  /** A value is accepted as a table exactly when it means it. */
  lemma TableAcceptedIff(root: Json, t: HookTable)
    ensures TableOf(root) == Some(t) <==> TableMeans(root, t)
  {
    if root.Object? {
      TableKeysIff(root.members);
      TextIff(root.members, "schema", Ascii("heapsentinel.hooktable/1"));
      PartsIff(root.members, t);
      TableParsedIff(root.members, t);
    }
  }

  /** A text is loaded as a table exactly when it is, white space aside, a written form of the
      reader's dialect whose value means that table. */
  lemma LoadedIff(text: Bytes, t: HookTable)
    ensures Loaded(text) == Some(t)
       <==> exists doc, space :: GoodDoc(doc, 0) && Blank(space) && text == PrintDoc(doc) + space
                                 && TableMeans(Meaning(doc.core, 0), t)
  {
    forall doc, space | GoodDoc(doc, 0) && Blank(space) && text == PrintDoc(doc) + space
      ensures Read(text) == Parsed(Meaning(doc.core, 0), [])
    {
      AcceptsExactlyTheWrittenForms(text, doc);
    }
    var root := Read(text);
    if root.Parsed? {
      ReadOnlyWrittenForms(text);
      TableAcceptedIff(root.value, t);
    }
  }
}
