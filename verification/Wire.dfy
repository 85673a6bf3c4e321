/**
 The generated response models: how a search response and the records in it become a JSON tree and how
 they are read back, and that a response survives the way over the wire.
 */
module Wire {
  import opened Bytes
  import opened JsonValue
  import opened JsonRender
  import JsonParse
  import JsonRoundTrip
  import Compare

  // ---------------------------------------------------------------- fields and members

  type Text = Option<seq<byte>>

  /** A key and its value, or nothing where the field is left out. */
  datatype Field = Field(key: seq<byte>, value: Option<Json>)

  /** The members an object gets from its fields, in order. */
  function Members(fields: seq<Field>): seq<Member>
    decreases |fields|
  {
    if fields == [] then []
    else if fields[0].value.None? then Members(fields[1..])
    else [Member(fields[0].key, fields[0].value.value)] + Members(fields[1..])
  }

  ghost predicate DistinctKeys(fields: seq<Field>) {
    forall i, j :: 0 <= i < j < |fields| ==> fields[i].key != fields[j].key
  }

  function Lookup(members: seq<Member>, key: seq<byte>): Option<Json> {
    Compare.GetItem(members, key, true)
  }

  lemma {:induction false} NotAmong(fields: seq<Field>, key: seq<byte>)
    requires forall k :: 0 <= k < |fields| ==> fields[k].key != key
    ensures Lookup(Members(fields), key) == None
    decreases |fields|
  {
    if fields != [] {
      NotAmong(fields[1..], key);
      if fields[0].value.Some? {
        assert Members(fields)[1..] == Members(fields[1..]);
      }
    }
  }

  /** With different keys, each field is what the lookup of its key answers. */
  lemma {:induction false} LookupField(fields: seq<Field>, k: nat)
    requires DistinctKeys(fields) && k < |fields| && fields[k].value != Some(Null)
    ensures Lookup(Members(fields), fields[k].key) == fields[k].value
    decreases |fields|
  {
    var rest := fields[1..];
    if fields[0].value.Some? {
      assert Members(fields)[1..] == Members(rest);
    }
    if k == 0 {
      NotAmong(rest, fields[0].key);
    } else {
      LookupField(rest, k - 1);
      assert fields[0].key != fields[k].key;
    }
  }

  lemma {:induction false} MembersSnoc(fields: seq<Field>, f: Field)
    ensures Members(fields + [f]) == Members(fields) + (if f.value.Some? then [Member(f.key, f.value.value)] else [])
    decreases |fields|
  {
    if fields == [] {
      assert fields + [f] == [f] && [f][1..] == [];
    } else {
      assert (fields + [f])[1..] == fields[1..] + [f];
      MembersSnoc(fields[1..], f);
    }
  }

  ghost predicate FieldPrintable(f: Field, nesting: nat) {
    NulFree(f.key) && (f.value.Some? ==> Printable(f.value.value) && Nesting(f.value.value) <= nesting)
  }

  /** Members made of printable values nest no deeper than those. */
  lemma {:induction false} MembersPrintable(fields: seq<Field>, nesting: nat)
    requires forall k :: 0 <= k < |fields| ==> FieldPrintable(fields[k], nesting)
    ensures AllMembersPrintable(Members(fields)) && MembersNesting(Members(fields)) <= nesting
    decreases |fields|
  {
    if fields != [] {
      MembersPrintable(fields[1..], nesting);
      if fields[0].value.Some? {
        assert Members(fields)[1..] == Members(fields[1..]);
      }
    }
  }

  function TextField(key: seq<byte>, s: Text): Field {
    Field(key, if s.Some? then Some(Str(s.value)) else None)
  }

  /** A number field is left out when it is zero. */
  function NumberField(key: seq<byte>, n: int): Field {
    Field(key, if n != 0 then Some(Num(n as real)) else None)
  }

  /** What reading a field yields: None where the member has the wrong type. */
  function ReadText(item: Option<Json>): Option<Text> {
    if item.None? then Some(None)
    else if item.value.Str? then Some(Some(CString(item.value.s)))
    else None
  }

  /** The conversion of a floating-point number to an integer drops the fraction. */
  function Truncate(x: real): int {
    if x < 0.0 then -(-x).Floor else x.Floor
  }

  function ReadNumber(item: Option<Json>): Option<int> {
    if item.None? then Some(0)
    else if item.value.Num? then Some(Truncate(item.value.x))
    else None
  }

  lemma ReadsTextField(s: Text)
    requires s.Some? ==> NulFree(s.value)
    ensures ReadText(TextField([], s).value) == Some(s)
  {
    if s.Some? {
      CStringOfNulFree(s.value);
    }
  }

  lemma ReadsNumberField(n: int)
    ensures ReadNumber(NumberField([], n).value) == Some(n)
  {
  }

  // ---------------------------------------------------------------- the record of an application

  datatype Register = Register(
    appId: Text, arch: Text, base: Text, channel: Text, description: Text, id: Text, kind: Text,
    moduleName: Text, name: Text, repoName: Text, runtime: Text, size: int, uabUrl: Text, version: Text)

  const APP_ID: seq<byte> := [97, 112, 112, 73, 100]
  const ARCH: seq<byte> := [97, 114, 99, 104]
  const BASE: seq<byte> := [98, 97, 115, 101]
  const CHANNEL: seq<byte> := [99, 104, 97, 110, 110, 101, 108]
  const DESCRIPTION: seq<byte> := [100, 101, 115, 99, 114, 105, 112, 116, 105, 111, 110]
  const ID: seq<byte> := [105, 100]
  const KIND: seq<byte> := [107, 105, 110, 100]
  const MODULE: seq<byte> := [109, 111, 100, 117, 108, 101]
  const NAME: seq<byte> := [110, 97, 109, 101]
  const REPO_NAME: seq<byte> := [114, 101, 112, 111, 78, 97, 109, 101]
  const RUNTIME: seq<byte> := [114, 117, 110, 116, 105, 109, 101]
  const SIZE: seq<byte> := [115, 105, 122, 101]
  const UAB_URL: seq<byte> := [117, 97, 98, 85, 114, 108]
  const VERSION: seq<byte> := [118, 101, 114, 115, 105, 111, 110]

  function RegisterFields(r: Register): (f: seq<Field>)
    ensures |f| == 14
  {
    [TextField(APP_ID, r.appId), TextField(ARCH, r.arch), TextField(BASE, r.base), TextField(CHANNEL, r.channel),
     TextField(DESCRIPTION, r.description), TextField(ID, r.id), TextField(KIND, r.kind),
     TextField(MODULE, r.moduleName), TextField(NAME, r.name), TextField(REPO_NAME, r.repoName),
     TextField(RUNTIME, r.runtime), NumberField(SIZE, r.size), TextField(UAB_URL, r.uabUrl),
     TextField(VERSION, r.version)]
  }

  function RegisterJson(r: Register): Json {
    Obj(Members(RegisterFields(r)))
  }

  /** The length and the first byte tell the keys of a record apart. */
  function Fingerprint(key: seq<byte>): nat {
    if key == [] then 0 else 256 * |key| + key[0]
  }

  lemma RegisterKeysDistinct(r: Register)
    ensures DistinctKeys(RegisterFields(r))
  {
    var f := RegisterFields(r);
    var prints := [5 * 256 + 97, 4 * 256 + 97, 4 * 256 + 98, 7 * 256 + 99, 11 * 256 + 100, 2 * 256 + 105, 4 * 256 + 107,
                   6 * 256 + 109, 4 * 256 + 110, 8 * 256 + 114, 7 * 256 + 114, 4 * 256 + 115,
                    6 * 256 + 117, 7 * 256 + 118];
    assert forall k :: 0 <= k < 14 ==> Fingerprint(f[k].key) == prints[k];
    assert forall i, j :: 0 <= i < j < 14 ==> prints[i] != prints[j];
  }

  ghost predicate TextOk(s: Text) { s.Some? ==> NulFree(s.value) }

  ghost predicate RegisterOk(r: Register) {
    && TextOk(r.appId) && TextOk(r.arch) && TextOk(r.base) && TextOk(r.channel) && TextOk(r.description)
    && TextOk(r.id) && TextOk(r.kind) && TextOk(r.moduleName) && TextOk(r.name) && TextOk(r.repoName)
    && TextOk(r.runtime) && TextOk(r.uabUrl) && TextOk(r.version) && -NUMBER_BOUND < r.size < NUMBER_BOUND
  }

  /** Reads a record; any member of the wrong type makes the whole record unreadable. */
  function ParseRegister(members: seq<Member>): Option<Register> {
    var appId := ReadText(Lookup(members, APP_ID));
    var arch := ReadText(Lookup(members, ARCH));
    var base := ReadText(Lookup(members, BASE));
    var channel := ReadText(Lookup(members, CHANNEL));
    var description := ReadText(Lookup(members, DESCRIPTION));
    var id := ReadText(Lookup(members, ID));
    var kind := ReadText(Lookup(members, KIND));
    var moduleName := ReadText(Lookup(members, MODULE));
    var name := ReadText(Lookup(members, NAME));
    var repoName := ReadText(Lookup(members, REPO_NAME));
    var runtime := ReadText(Lookup(members, RUNTIME));
    var size := ReadNumber(Lookup(members, SIZE));
    var uabUrl := ReadText(Lookup(members, UAB_URL));
    var version := ReadText(Lookup(members, VERSION));
    if appId.None? || arch.None? || base.None? || channel.None? || description.None? || id.None? || kind.None?
      || moduleName.None? || name.None? || repoName.None? || runtime.None?
      || size.None? || uabUrl.None? || version.None?
    then None
    else Some(Register(appId.value, arch.value, base.value, channel.value, description.value, id.value, kind.value,
                       moduleName.value, name.value, repoName.value, runtime.value, size.value, uabUrl.value,
                       version.value))
  }

  lemma ReadsTextBack(fields: seq<Field>, k: nat, key: seq<byte>, s: Text)
    requires DistinctKeys(fields) && k < |fields| && fields[k] == TextField(key, s) && TextOk(s)
    ensures ReadText(Lookup(Members(fields), key)) == Some(s)
  {
    LookupField(fields, k);
    ReadsTextField(s);
  }

  lemma RegisterRoundTrip(r: Register)
    requires RegisterOk(r)
    ensures ParseRegister(Members(RegisterFields(r))) == Some(r)
  {
    var f := RegisterFields(r);
    RegisterKeysDistinct(r);
    hide RegisterFields, Members, DistinctKeys, Lookup, ReadText, ReadNumber, TextField, NumberField;
    RegisterFieldAt(r);
    ReadsTextBack(f, 0, APP_ID, r.appId);
    ReadsTextBack(f, 1, ARCH, r.arch);
    ReadsTextBack(f, 2, BASE, r.base);
    ReadsTextBack(f, 3, CHANNEL, r.channel);
    ReadsTextBack(f, 4, DESCRIPTION, r.description);
    ReadsTextBack(f, 5, ID, r.id);
    ReadsTextBack(f, 6, KIND, r.kind);
    ReadsTextBack(f, 7, MODULE, r.moduleName);
    ReadsTextBack(f, 8, NAME, r.name);
    ReadsTextBack(f, 9, REPO_NAME, r.repoName);
    ReadsTextBack(f, 10, RUNTIME, r.runtime);
    ReadsNumberBack(f, 11, SIZE, r.size);
    ReadsTextBack(f, 12, UAB_URL, r.uabUrl);
    ReadsTextBack(f, 13, VERSION, r.version);
  }

  lemma ReadsNumberBack(fields: seq<Field>, k: nat, key: seq<byte>, n: int)
    requires DistinctKeys(fields) && k < |fields| && fields[k] == NumberField(key, n)
    ensures ReadNumber(Lookup(Members(fields), key)) == Some(n)
  {
    LookupField(fields, k);
    ReadsNumberField(n);
  }

  /** The fields of a record by their places. */
  lemma RegisterFieldAt(r: Register)
    ensures var f := RegisterFields(r);
      && f[0] == TextField(APP_ID, r.appId) && f[1] == TextField(ARCH, r.arch) && f[2] == TextField(BASE, r.base)
      && f[3] == TextField(CHANNEL, r.channel) && f[4] == TextField(DESCRIPTION, r.description)
      && f[5] == TextField(ID, r.id) && f[6] == TextField(KIND, r.kind) && f[7] == TextField(MODULE, r.moduleName)
      && f[8] == TextField(NAME, r.name) && f[9] == TextField(REPO_NAME, r.repoName)
      && f[10] == TextField(RUNTIME, r.runtime) && f[11] == NumberField(SIZE, r.size)
      && f[12] == TextField(UAB_URL, r.uabUrl) && f[13] == TextField(VERSION, r.version)
  {
  }

  lemma TextFieldPrintable(key: seq<byte>, s: Text)
    requires NulFree(key) && TextOk(s)
    ensures FieldPrintable(TextField(key, s), 0)
  {
  }

  lemma NumberFieldPrintable(key: seq<byte>, n: int)
    requires NulFree(key) && -NUMBER_BOUND < n < NUMBER_BOUND
    ensures FieldPrintable(NumberField(key, n), 0)
  {
  }

  lemma RegisterPrintable(r: Register)
    requires RegisterOk(r)
    ensures Printable(RegisterJson(r)) && Nesting(RegisterJson(r)) <= 1
  {
    var f := RegisterFields(r);
    forall k | 0 <= k < |f| ensures FieldPrintable(f[k], 0) {
      RegisterFieldAt(r);
      RegisterKeysNulFree();
      hide RegisterFields, FieldPrintable, TextField, NumberField, NulFree;
      assert k in {0, 1, 2, 3, 4, 5, 6, 7, 8, 9, 10, 11, 12, 13};
      if k == 0 { TextFieldPrintable(APP_ID, r.appId); }
      else if k == 1 { TextFieldPrintable(ARCH, r.arch); }
      else if k == 2 { TextFieldPrintable(BASE, r.base); }
      else if k == 3 { TextFieldPrintable(CHANNEL, r.channel); }
      else if k == 4 { TextFieldPrintable(DESCRIPTION, r.description); }
      else if k == 5 { TextFieldPrintable(ID, r.id); }
      else if k == 6 { TextFieldPrintable(KIND, r.kind); }
      else if k == 7 { TextFieldPrintable(MODULE, r.moduleName); }
      else if k == 8 { TextFieldPrintable(NAME, r.name); }
      else if k == 9 { TextFieldPrintable(REPO_NAME, r.repoName); }
      else if k == 10 { TextFieldPrintable(RUNTIME, r.runtime); }
      else if k == 11 { NumberFieldPrintable(SIZE, r.size); }
      else if k == 12 { TextFieldPrintable(UAB_URL, r.uabUrl); }
      else { TextFieldPrintable(VERSION, r.version); }
    }
    MembersPrintable(f, 0);
  }

  lemma RegisterKeysNulFree()
    ensures NulFree(APP_ID) && NulFree(ARCH) && NulFree(BASE) && NulFree(CHANNEL) && NulFree(DESCRIPTION)
    ensures NulFree(ID) && NulFree(KIND) && NulFree(MODULE) && NulFree(NAME) && NulFree(REPO_NAME)
    ensures NulFree(RUNTIME) && NulFree(SIZE) && NulFree(UAB_URL) && NulFree(VERSION)
  {
  }

  // ---------------------------------------------------------------- the response around a list of records

  /** A list may hold a null entry where a record could not be read. */
  datatype Response = Response(code: int, data: Option<seq<Option<Register>>>, msg: Text, traceId: Text)

  const CODE: seq<byte> := [99, 111, 100, 101]
  const DATA: seq<byte> := [100, 97, 116, 97]
  const MSG: seq<byte> := [109, 115, 103]
  const TRACE_ID: seq<byte> := [116, 114, 97, 99, 101, 95, 105, 100]

  ghost predicate NoNullEntry(list: seq<Option<Register>>) {
    forall k :: 0 <= k < |list| ==> list[k].Some?
  }

  function RecordsJson(list: seq<Option<Register>>): (r: seq<Json>)
    requires NoNullEntry(list)
    ensures |r| == |list| && forall k :: 0 <= k < |r| ==> r[k] == RegisterJson(list[k].value)
    decreases |list|
  {
    if list == [] then [] else [RegisterJson(list[0].value)] + RecordsJson(list[1..])
  }

  ghost predicate Convertible(r: Response) {
    r.data.Some? ==> NoNullEntry(r.data.value)
  }

  function ResponseFields(r: Response): (f: seq<Field>)
    requires Convertible(r)
    ensures |f| == 4
  {
    [NumberField(CODE, r.code),
     Field(DATA, if r.data.Some? then Some(Arr(RecordsJson(r.data.value))) else None),
     TextField(MSG, r.msg), TextField(TRACE_ID, r.traceId)]
  }

  function ResponseJson(r: Response): Json
    requires Convertible(r)
  {
    Obj(Members(ResponseFields(r)))
  }

  /** Reads the entries of a list; an entry that is no object makes the whole list unreadable. */
  function ParseRecords(items: seq<Json>): Option<seq<Option<Register>>>
    decreases |items|
  {
    if items == [] then Some([])
    else if !items[0].Obj? then None
    else
      var rest := ParseRecords(items[1..]);
      if rest.None? then None else Some([ParseRegister(items[0].members)] + rest.value)
  }

  function ReadList(item: Option<Json>): Option<Option<seq<Option<Register>>>> {
    if item.None? then Some(None)
    else if !item.value.Arr? then None
    else
      var list := ParseRecords(item.value.items);
      if list.None? then None else Some(list)
  }

  /** A scalar and an empty array have no children, so nothing is found in them. */
  function Children(j: Json): seq<Member> {
    if j.Obj? then j.members else []
  }

  function ParseResponse(j: Json): Option<Response> {
    var code := ReadNumber(Lookup(Children(j), CODE));
    var data := ReadList(Lookup(Children(j), DATA));
    var msg := ReadText(Lookup(Children(j), MSG));
    var traceId := ReadText(Lookup(Children(j), TRACE_ID));
    if code.None? || data.None? || msg.None? || traceId.None? then None
    else Some(Response(code.value, data.value, msg.value, traceId.value))
  }

  ghost predicate ResponseOk(r: Response) {
    && Convertible(r) && -NUMBER_BOUND < r.code < NUMBER_BOUND && TextOk(r.msg) && TextOk(r.traceId)
    && (r.data.Some? ==> forall k :: 0 <= k < |r.data.value| ==> RegisterOk(r.data.value[k].value))
  }

  lemma {:induction false} RecordsRoundTrip(list: seq<Option<Register>>)
    requires NoNullEntry(list) && forall k :: 0 <= k < |list| ==> RegisterOk(list[k].value)
    ensures ParseRecords(RecordsJson(list)) == Some(list)
    decreases |list|
  {
    hide RegisterFields, ParseRegister, RegisterOk;
    if list != [] {
      RegisterRoundTrip(list[0].value);
      RecordsRoundTrip(list[1..]);
      assert RecordsJson(list)[1..] == RecordsJson(list[1..]);
      assert list == [list[0]] + list[1..];
    }
  }

  lemma {:induction false} RecordsPrintable(list: seq<Option<Register>>)
    requires NoNullEntry(list) && forall k :: 0 <= k < |list| ==> RegisterOk(list[k].value)
    ensures AllPrintable(RecordsJson(list)) && ItemsNesting(RecordsJson(list)) <= 1
    decreases |list|
  {
    hide RegisterFields, RegisterOk;
    if list != [] {
      RegisterPrintable(list[0].value);
      RecordsPrintable(list[1..]);
      assert RecordsJson(list)[1..] == RecordsJson(list[1..]);
    }
  }

  lemma ResponseKeysDistinct(r: Response)
    requires Convertible(r)
    ensures DistinctKeys(ResponseFields(r))
    ensures NulFree(CODE) && NulFree(DATA) && NulFree(MSG) && NulFree(TRACE_ID)
  {
    var f := ResponseFields(r);
    assert f[0].key[0] == 99 && |f[0].key| == 4 && f[1].key[0] == 100 && |f[1].key| == 4;
    assert |f[2].key| == 3 && |f[3].key| == 8;
  }

  /** The tree of a response gives the response back. */
  lemma ResponseRoundTrip(r: Response)
    requires ResponseOk(r)
    ensures ParseResponse(ResponseJson(r)) == Some(r)
  {
    var f := ResponseFields(r);
    ResponseKeysDistinct(r);
    ResponseFieldAt(r);
    hide ResponseFields, Members, DistinctKeys, Lookup;
    hide ReadText, ReadNumber, ReadList, TextField, NumberField, RegisterOk;
    ReadsNumberBack(f, 0, CODE, r.code);
    ReadsListBack(f, r.data);
    ReadsTextBack(f, 2, MSG, r.msg);
    ReadsTextBack(f, 3, TRACE_ID, r.traceId);
  }

  lemma ReadsListBack(f: seq<Field>, data: Option<seq<Option<Register>>>)
    requires DistinctKeys(f) && |f| > 1 && (data.Some? ==> NoNullEntry(data.value))
    requires data.Some? ==> forall k :: 0 <= k < |data.value| ==> RegisterOk(data.value[k].value)
    requires f[1] == Field(DATA, if data.Some? then Some(Arr(RecordsJson(data.value))) else None)
    ensures ReadList(Lookup(Members(f), DATA)) == Some(data)
  {
    hide RegisterFields, RegisterOk, Members, Lookup, ParseRegister, RecordsJson, ParseRecords;
    LookupField(f, 1);
    if data.Some? {
      RecordsRoundTrip(data.value);
    }
  }

  lemma ResponseFieldAt(r: Response)
    requires Convertible(r)
    ensures var f := ResponseFields(r);
      && f[0] == NumberField(CODE, r.code) && f[2] == TextField(MSG, r.msg) && f[3] == TextField(TRACE_ID, r.traceId)
      && f[1] == Field(DATA, if r.data.Some? then Some(Arr(RecordsJson(r.data.value))) else None)
  {
  }

  lemma ResponsePrintable(r: Response)
    requires ResponseOk(r)
    ensures Printable(ResponseJson(r)) && Nesting(ResponseJson(r)) <= 3
  {
    var f := ResponseFields(r);
    ResponseKeysDistinct(r);
    NumberFieldPrintable(CODE, r.code);
    TextFieldPrintable(MSG, r.msg);
    TextFieldPrintable(TRACE_ID, r.traceId);
    if r.data.Some? {
      RecordsPrintable(r.data.value);
    }
    MembersPrintable(f, 2);
  }

  /**
   A response that is converted, printed in either layout, parsed and read back is the same response: zero
   and null fields that were left out are restored, and the list keeps its order.
   */
  lemma WireRoundTrip(r: Response, format: bool, requireEnd: bool)
    requires ResponseOk(r)
    ensures var parsed := JsonParse.ParseText(Render(ResponseJson(r), format, 0) + [NUL], requireEnd).0;
      parsed.Some? && ParseResponse(parsed.value) == Some(r)
  {
    hide ResponseFields, Members, JsonParse.ParseText, Render, ParseResponse, RegisterOk;
    ResponsePrintable(r);
    ResponseRoundTrip(r);
    JsonRoundTrip.RoundTrip(ResponseJson(r), format, requireEnd);
  }

  // ---------------------------------------------------------------- the converting and reading functions

  /** The object with one more member, unless the field is left out. */
  function AddMember(members: seq<Member>, f: Field): seq<Member> {
    if f.value.Some? then members + [Member(f.key, f.value.value)] else members
  }

  lemma MembersNext(fields: seq<Field>, k: nat)
    requires k < |fields|
    ensures Members(fields[..k + 1]) == AddMember(Members(fields[..k]), fields[k])
  {
    assert fields[..k + 1] == fields[..k] + [fields[k]];
    MembersSnoc(fields[..k], fields[k]);
    assert Members(fields[..k]) + [] == Members(fields[..k]);
  }

  method AddString(members: seq<Member>, key: seq<byte>, s: Text) returns (r: seq<Member>)
    ensures r == AddMember(members, TextField(key, s))
  {
    r := members;
    if s.Some? {
      r := r + [Member(key, Str(s.value))];
    }
  }

  method AddNumber(members: seq<Member>, key: seq<byte>, n: int) returns (r: seq<Member>)
    ensures r == AddMember(members, NumberField(key, n))
  {
    r := members;
    if n != 0 {
      r := r + [Member(key, Num(n as real))];
    }
  }

  /** Adds the fields of a record to a new object one by one. */
  method ConvertRegister(r: Register) returns (item: Json)
    ensures item == RegisterJson(r)
  {
    ghost var f := RegisterFields(r);
    RegisterFieldAt(r);
    hide RegisterFields, Members, TextField, NumberField, AddMember;
    MembersOfNothing(f);
    var members: seq<Member> := [];
    members := AddString(members, APP_ID, r.appId);
    MembersNext(f, 0);
    members := AddString(members, ARCH, r.arch);
    MembersNext(f, 1);
    members := AddString(members, BASE, r.base);
    MembersNext(f, 2);
    members := AddString(members, CHANNEL, r.channel);
    MembersNext(f, 3);
    members := AddString(members, DESCRIPTION, r.description);
    MembersNext(f, 4);
    members := AddString(members, ID, r.id);
    MembersNext(f, 5);
    members := AddString(members, KIND, r.kind);
    MembersNext(f, 6);
    members := AddString(members, MODULE, r.moduleName);
    MembersNext(f, 7);
    members := AddString(members, NAME, r.name);
    MembersNext(f, 8);
    members := AddString(members, REPO_NAME, r.repoName);
    MembersNext(f, 9);
    members := AddString(members, RUNTIME, r.runtime);
    MembersNext(f, 10);
    members := AddNumber(members, SIZE, r.size);
    MembersNext(f, 11);
    members := AddString(members, UAB_URL, r.uabUrl);
    MembersNext(f, 12);
    members := AddString(members, VERSION, r.version);
    MembersNext(f, 13);
    assert f[..14] == f;
    return Obj(members);
  }

  lemma MembersOfNothing(f: seq<Field>)
    ensures Members(f[..0]) == []
  {
  }

  /** Appends the records of a list to a new array one by one. */
  method ConvertRecords(list: seq<Option<Register>>) returns (items: seq<Json>)
    requires NoNullEntry(list)
    ensures items == RecordsJson(list)
  {
    hide RegisterJson, RecordsJson;
    items := [];
    for k := 0 to |list|
      invariant items == RecordsJson(list)[..k]
    {
      var item := ConvertRegister(list[k].value);
      items := items + [item];
    }
  }

  method ConvertResponse(r: Response) returns (item: Json)
    requires Convertible(r)
    ensures item == ResponseJson(r)
  {
    ghost var f := ResponseFields(r);
    ResponseFieldAt(r);
    hide ResponseFields, Members, TextField, NumberField, RecordsJson;
    var members: seq<Member> := [];
    members := AddNumber(members, CODE, r.code);
    if r.data.Some? {
      var items := ConvertRecords(r.data.value);
      members := members + [Member(DATA, Arr(items))];
    }
    members := AddString(members, MSG, r.msg);
    members := AddString(members, TRACE_ID, r.traceId);
    MembersOfNothing(f);
    MembersNext(f, 0);
    MembersNext(f, 1);
    MembersNext(f, 2);
    MembersNext(f, 3);
    assert f[..4] == f;
    return Obj(members);
  }

  /** The member under a key, which must be a string if it is there. */
  method GetText(members: seq<Member>, key: seq<byte>) returns (text: Option<Text>)
    requires NulFree(key) && Compare.KeysNulFree(members)
    ensures text == ReadText(Lookup(members, key))
  {
    var item := Compare.GetObjectItem(members, key, true);
    if item.Some? {
      if !item.value.Str? {
        return None;
      }
      return Some(Some(CString(item.value.s)));
    }
    return Some(None);
  }

  method GetNumber(members: seq<Member>, key: seq<byte>) returns (n: Option<int>)
    requires NulFree(key) && Compare.KeysNulFree(members)
    ensures n == ReadNumber(Lookup(members, key))
  {
    var item := Compare.GetObjectItem(members, key, true);
    if item.Some? && !item.value.Num? {
      return None;
    }
    return Some(if item.Some? then Truncate(item.value.x) else 0);
  }

  ghost function Onto<T>(done: seq<T>, rest: Option<seq<T>>): Option<seq<T>> {
    if rest.None? then None else Some(done + rest.value)
  }

  lemma OntoStep<T>(done: seq<T>, x: T, rest: Option<seq<T>>)
    ensures Onto(done + [x], rest) == Onto(done, if rest.None? then None else Some([x] + rest.value))
  {
    if rest.Some? {
      assert (done + [x]) + rest.value == done + ([x] + rest.value);
    }
  }

  /** Reads a list of records in order. */
  method ReadRecords(items: seq<Json>) returns (list: Option<seq<Option<Register>>>)
    requires forall k :: 0 <= k < |items| ==> Compare.StringsNulFree(items[k])
    ensures list == ParseRecords(items)
  {
    hide ParseRegister;
    var records: seq<Option<Register>> := [];
    assert items[0..] == items;
    assert ParseRecords(items).Some? ==> [] + ParseRecords(items).value == ParseRecords(items).value;
    for k := 0 to |items|
      invariant ParseRecords(items) == Onto(records, ParseRecords(items[k..]))
    {
      assert items[k..][0] == items[k] && items[k..][1..] == items[k + 1..];
      if !items[k].Obj? {
        return None;
      }
      var r := ReadRegister(items[k].members);
      OntoStep(records, r, ParseRecords(items[k + 1..]));
      records := records + [r];
    }
    assert items[|items|..] == [] && records + [] == records;
    return Some(records);
  }

  method ReadRegister(members: seq<Member>) returns (r: Option<Register>)
    requires Compare.KeysNulFree(members)
    ensures r == ParseRegister(members)
  {
    hide Lookup, ReadText, ReadNumber;
    RegisterKeysNulFree();
    var appId := GetText(members, APP_ID);
    if appId.None? { return None; }
    var arch := GetText(members, ARCH);
    if arch.None? { return None; }
    var base := GetText(members, BASE);
    if base.None? { return None; }
    var channel := GetText(members, CHANNEL);
    if channel.None? { return None; }
    var description := GetText(members, DESCRIPTION);
    if description.None? { return None; }
    var id := GetText(members, ID);
    if id.None? { return None; }
    var kind := GetText(members, KIND);
    if kind.None? { return None; }
    var moduleName := GetText(members, MODULE);
    if moduleName.None? { return None; }
    var name := GetText(members, NAME);
    if name.None? { return None; }
    var repoName := GetText(members, REPO_NAME);
    if repoName.None? { return None; }
    var runtime := GetText(members, RUNTIME);
    if runtime.None? { return None; }
    var size := GetNumber(members, SIZE);
    if size.None? { return None; }
    var uabUrl := GetText(members, UAB_URL);
    if uabUrl.None? { return None; }
    var version := GetText(members, VERSION);
    if version.None? { return None; }
    return Some(Register(appId.value, arch.value, base.value, channel.value, description.value, id.value, kind.value,
                         moduleName.value, name.value, repoName.value, runtime.value, size.value, uabUrl.value,
                         version.value));
  }

  method ReadResponse(j: Json) returns (r: Option<Response>)
    requires Compare.StringsNulFree(j) && (j.Arr? ==> j.items == [])
    ensures r == ParseResponse(j)
  {
    assert NulFree(CODE) && NulFree(DATA) && NulFree(MSG) && NulFree(TRACE_ID);
    var members := Children(j);
    var code := GetNumber(members, CODE);
    if code.None? {
      return None;
    }
    var item := Compare.GetObjectItem(members, DATA, true);
    var data: Option<seq<Option<Register>>> := None;
    if item.Some? {
      if !item.value.Arr? {
        return None;
      }
      LookupNulFree(members, DATA);
      data := ReadRecords(item.value.items);
      if data.None? {
        return None;
      }
    }
    var msg := GetText(members, MSG);
    if msg.None? {
      return None;
    }
    var traceId := GetText(members, TRACE_ID);
    if traceId.None? {
      return None;
    }
    return Some(Response(code.value, data, msg.value, traceId.value));
  }

  lemma LookupNulFree(members: seq<Member>, key: seq<byte>)
    requires forall k :: 0 <= k < |members| ==> Compare.StringsNulFree(members[k].value)
    ensures Lookup(members, key).Some? ==> Compare.StringsNulFree(Lookup(members, key).value)
  {
  }
}
