/**
 The keys of the two response models on the wire, spelled out: which member each field is sent as, and which member of
 any object it is read from.
 */
module WireKeys {
  import opened Bytes
  import opened JsonValue
  import opened JsonString
  import opened JsonRender
  import opened Wire
  import JsonNumber
  import JsonParse
  import JsonRoundTrip

  lemma RegisterKeysSpelled()
    ensures Ascii("appId") == APP_ID && Ascii("arch") == ARCH && Ascii("base") == BASE && Ascii("channel") == CHANNEL
    ensures Ascii("description") == DESCRIPTION && Ascii("id") == ID && Ascii("kind") == KIND
    ensures Ascii("module") == MODULE && Ascii("name") == NAME && Ascii("repoName") == REPO_NAME
    ensures Ascii("runtime") == RUNTIME && Ascii("size") == SIZE && Ascii("uabUrl") == UAB_URL
    ensures Ascii("version") == VERSION
  {
    SpelledToDescription();
    SpelledToRepoName();
    SpelledToVersion();
  }

  lemma SpelledToDescription()
    ensures Ascii("appId") == APP_ID && Ascii("arch") == ARCH && Ascii("base") == BASE && Ascii("channel") == CHANNEL
    ensures Ascii("description") == DESCRIPTION
  {
  }

  lemma SpelledToRepoName()
    ensures Ascii("id") == ID && Ascii("kind") == KIND && Ascii("module") == MODULE && Ascii("name") == NAME
    ensures Ascii("repoName") == REPO_NAME
  {
  }

  lemma SpelledToVersion()
    ensures Ascii("runtime") == RUNTIME && Ascii("size") == SIZE && Ascii("uabUrl") == UAB_URL
    ensures Ascii("version") == VERSION
  {
  }

  lemma ResponseKeysSpelled()
    ensures Ascii("code") == CODE && Ascii("data") == DATA && Ascii("msg") == MSG && Ascii("trace_id") == TRACE_ID
  {
  }

  // ---------------------------------------------------------------- the members of an object

  /** The values of all members with a key, in their order. */
  function ValuesOf(members: seq<Member>, key: seq<byte>): seq<Json>
    decreases |members|
  {
    if members == [] then []
    else (if members[0].key == key then [members[0].value] else []) + ValuesOf(members[1..], key)
  }

  lemma {:induction false} LookupIsFirst(members: seq<Member>, key: seq<byte>)
    ensures var v := ValuesOf(members, key);
      Lookup(members, key) == if v == [] || v[0].Null? then None else Some(v[0])
    decreases |members|
  {
    if members != [] {
      LookupIsFirst(members[1..], key);
    }
  }

  lemma {:induction false} NoneAmong(fields: seq<Field>, key: seq<byte>)
    requires forall k :: 0 <= k < |fields| ==> fields[k].key != key
    ensures ValuesOf(Members(fields), key) == []
    decreases |fields|
  {
    if fields != [] {
      NoneAmong(fields[1..], key);
      if fields[0].value.Some? {
        assert Members(fields)[1..] == Members(fields[1..]);
      }
    }
  }

  /** A field with a key of its own is the one member with that key, or there is none. */
  lemma {:induction false} OneMember(fields: seq<Field>, k: nat)
    requires DistinctKeys(fields) && k < |fields|
    ensures ValuesOf(Members(fields), fields[k].key) ==
      if fields[k].value.Some? then [fields[k].value.value] else []
    decreases |fields|
  {
    var rest := fields[1..];
    if fields[0].value.Some? {
      assert Members(fields)[1..] == Members(rest);
    }
    if k == 0 {
      NoneAmong(rest, fields[0].key);
      assert [fields[0].value] + [] == [fields[0].value];
    } else {
      OneMember(rest, k - 1);
      assert fields[0].key != fields[k].key;
    }
  }

  // ---------------------------------------------------------------- what is sent

  ghost predicate SentText(members: seq<Member>, key: string, s: Text) {
    ValuesOf(members, Ascii(key)) == if s.Some? then [Str(s.value)] else []
  }

  ghost predicate SentNumber(members: seq<Member>, key: string, n: int) {
    ValuesOf(members, Ascii(key)) == if n != 0 then [Num(n as real)] else []
  }

  ghost predicate RegisterSent(members: seq<Member>, r: Register) {
    && SentText(members, "appId", r.appId) && SentText(members, "arch", r.arch)
    && SentText(members, "base", r.base) && SentText(members, "channel", r.channel)
    && SentText(members, "description", r.description) && SentText(members, "id", r.id)
    && SentText(members, "kind", r.kind) && SentText(members, "module", r.moduleName)
    && SentText(members, "name", r.name) && SentText(members, "repoName", r.repoName)
    && SentText(members, "runtime", r.runtime) && SentNumber(members, "size", r.size)
    && SentText(members, "uabUrl", r.uabUrl) && SentText(members, "version", r.version)
  }

  lemma TextSent(fields: seq<Field>, k: nat, key: string, s: Text)
    requires DistinctKeys(fields) && k < |fields| && fields[k] == TextField(Ascii(key), s)
    ensures SentText(Members(fields), key, s)
  {
    hide Members;
    OneMember(fields, k);
  }

  lemma NumberSent(fields: seq<Field>, k: nat, key: string, n: int)
    requires DistinctKeys(fields) && k < |fields| && fields[k] == NumberField(Ascii(key), n)
    ensures SentNumber(Members(fields), key, n)
  {
    hide Members;
    OneMember(fields, k);
  }

  /** Every field of a record is sent as the one member with its key, and not at all if it is null or zero. */
  lemma SendsRegister(r: Register)
    ensures RegisterJson(r).Obj? && RegisterSent(RegisterJson(r).members, r)
  {
    var f := RegisterFields(r);
    RegisterKeysSpelled();
    RegisterKeysDistinct(r);
    RegisterFieldAt(r);
    hide RegisterFields, Members, TextField, NumberField, DistinctKeys, SentText, SentNumber, Ascii;
    TextSent(f, 0, "appId", r.appId);
    TextSent(f, 1, "arch", r.arch);
    TextSent(f, 2, "base", r.base);
    TextSent(f, 3, "channel", r.channel);
    TextSent(f, 4, "description", r.description);
    TextSent(f, 5, "id", r.id);
    TextSent(f, 6, "kind", r.kind);
    TextSent(f, 7, "module", r.moduleName);
    TextSent(f, 8, "name", r.name);
    TextSent(f, 9, "repoName", r.repoName);
    TextSent(f, 10, "runtime", r.runtime);
    NumberSent(f, 11, "size", r.size);
    TextSent(f, 12, "uabUrl", r.uabUrl);
    TextSent(f, 13, "version", r.version);
  }

  ghost predicate SentList(members: seq<Member>, key: string, list: Option<seq<Option<Register>>>) {
    var values := ValuesOf(members, Ascii(key));
    if list.None? then values == []
    else
      && |values| == 1 && values[0].Arr? && |values[0].items| == |list.value|
      && forall k :: 0 <= k < |list.value| ==>
        list.value[k].Some? && values[0].items[k].Obj? && RegisterSent(values[0].items[k].members, list.value[k].value)
  }

  /** The same for the four fields of a response, its list entry by entry. */
  lemma SendsResponse(r: Response)
    requires Convertible(r)
    ensures var members := ResponseJson(r).members;
      && SentNumber(members, "code", r.code) && SentList(members, "data", r.data)
      && SentText(members, "msg", r.msg) && SentText(members, "trace_id", r.traceId)
  {
    var f := ResponseFields(r);
    ResponseKeysSpelled();
    ResponseKeysDistinct(r);
    ResponseFieldAt(r);
    hide ResponseFields, Members, TextField, NumberField, DistinctKeys, SentText, SentNumber, SentList, Ascii;
    hide RegisterJson, RecordsJson;
    NumberSent(f, 0, "code", r.code);
    ListSent(f, "data", r.data);
    TextSent(f, 2, "msg", r.msg);
    TextSent(f, 3, "trace_id", r.traceId);
  }

  lemma ListSent(fields: seq<Field>, key: string, list: Option<seq<Option<Register>>>)
    requires DistinctKeys(fields) && |fields| > 1 && (list.Some? ==> NoNullEntry(list.value))
    requires fields[1] == Field(Ascii(key), if list.Some? then Some(Arr(RecordsJson(list.value))) else None)
    ensures SentList(Members(fields), key, list)
  {
    hide RegisterSent, Members, ValuesOf, DistinctKeys, RegisterJson, RecordsJson, Ascii;
    OneMember(fields, 1);
    if list.Some? {
      forall k | 0 <= k < |list.value|
        ensures RegisterJson(list.value[k].value).Obj?
        ensures RegisterSent(RegisterJson(list.value[k].value).members, list.value[k].value)
      {
        SendsRegister(list.value[k].value);
      }
    }
  }

  // ---------------------------------------------------------------- what is read

  /** A text field is read from the first member with its key; a null member counts for none. */
  ghost predicate ReadsText(members: seq<Member>, key: string, s: Text) {
    var values := ValuesOf(members, Ascii(key));
    if values == [] || values[0].Null? then s.None?
    else values[0].Str? && s == Some(CString(values[0].s))
  }

  /** So is a number field, without its fraction. */
  ghost predicate ReadsNumber(members: seq<Member>, key: string, n: int) {
    var values := ValuesOf(members, Ascii(key));
    if values == [] || values[0].Null? then n == 0
    else
      && values[0].Num?
      && var x := values[0].x;
      (x >= 0.0 ==> n as real <= x < n as real + 1.0) && (x < 0.0 ==> n as real - 1.0 < x <= n as real)
  }

  ghost predicate RegisterRead(members: seq<Member>, r: Register) {
    && ReadsText(members, "appId", r.appId) && ReadsText(members, "arch", r.arch)
    && ReadsText(members, "base", r.base) && ReadsText(members, "channel", r.channel)
    && ReadsText(members, "description", r.description) && ReadsText(members, "id", r.id)
    && ReadsText(members, "kind", r.kind) && ReadsText(members, "module", r.moduleName)
    && ReadsText(members, "name", r.name) && ReadsText(members, "repoName", r.repoName)
    && ReadsText(members, "runtime", r.runtime) && ReadsNumber(members, "size", r.size)
    && ReadsText(members, "uabUrl", r.uabUrl) && ReadsText(members, "version", r.version)
  }

  lemma TextRead(members: seq<Member>, key: string, s: Text)
    ensures ReadText(Lookup(members, Ascii(key))) == Some(s) <==> ReadsText(members, key, s)
  {
    LookupIsFirst(members, Ascii(key));
  }

  lemma NumberRead(members: seq<Member>, key: string, n: int)
    ensures ReadNumber(Lookup(members, Ascii(key))) == Some(n) <==> ReadsNumber(members, key, n)
  {
    LookupIsFirst(members, Ascii(key));
  }

  /** Whatever the members of an object are, it is read as the record of what stands under the keys, or not at all. */
  lemma ReadsRegister(members: seq<Member>, r: Register)
    ensures ParseRegister(members) == Some(r) <==> RegisterRead(members, r)
  {
    RegisterKeysSpelled();
    hide Lookup, ReadText, ReadNumber, ReadsText, ReadsNumber, Ascii;
    TextRead(members, "appId", r.appId);
    TextRead(members, "arch", r.arch);
    TextRead(members, "base", r.base);
    TextRead(members, "channel", r.channel);
    TextRead(members, "description", r.description);
    TextRead(members, "id", r.id);
    TextRead(members, "kind", r.kind);
    TextRead(members, "module", r.moduleName);
    TextRead(members, "name", r.name);
    TextRead(members, "repoName", r.repoName);
    TextRead(members, "runtime", r.runtime);
    NumberRead(members, "size", r.size);
    TextRead(members, "uabUrl", r.uabUrl);
    TextRead(members, "version", r.version);
  }

  /** An entry that no record can be read from stands for null; one that is no object spoils the list. */
  ghost predicate ReadsList(members: seq<Member>, key: string, list: Option<seq<Option<Register>>>) {
    var values := ValuesOf(members, Ascii(key));
    if values == [] || values[0].Null? then list.None?
    else
      && values[0].Arr? && list.Some? && |list.value| == |values[0].items|
      && forall k :: 0 <= k < |list.value| ==>
        && values[0].items[k].Obj?
        && (list.value[k].None? ==> forall r :: !RegisterRead(values[0].items[k].members, r))
        && (list.value[k].Some? ==> RegisterRead(values[0].items[k].members, list.value[k].value))
  }

  lemma EntryRead(members: seq<Member>, entry: Option<Register>)
    ensures entry == ParseRegister(members) <==>
      && (entry.None? ==> forall r :: !RegisterRead(members, r))
      && (entry.Some? ==> RegisterRead(members, entry.value))
  {
    hide ParseRegister, RegisterRead;
    var p := ParseRegister(members);
    if p.Some? {
      ReadsRegister(members, p.value);
    }
    if entry.Some? {
      ReadsRegister(members, entry.value);
    }
    forall r ensures RegisterRead(members, r) <==> p == Some(r) {
      ReadsRegister(members, r);
    }
  }

  lemma {:induction false} RecordsRead(items: seq<Json>, list: seq<Option<Register>>)
    ensures ParseRecords(items) == Some(list) <==>
      && |list| == |items|
      && forall k :: 0 <= k < |list| ==> items[k].Obj? && list[k] == ParseRegister(items[k].members)
    decreases |items|
  {
    hide ParseRegister;
    if items != [] {
      var tail := if list == [] then [] else list[1..];
      RecordsRead(items[1..], tail);
      if list != [] {
        assert list == [list[0]] + tail;
        assert forall k :: 0 <= k < |tail| && k + 1 < |items| ==>
          items[k + 1] == items[1..][k] && list[k + 1] == tail[k];
      }
    }
  }

  lemma ListRead(members: seq<Member>, key: string, list: Option<seq<Option<Register>>>)
    ensures ReadList(Lookup(members, Ascii(key))) == Some(list) <==> ReadsList(members, key, list)
  {
    hide ParseRegister, RegisterRead, ParseRecords, Ascii, ValuesOf;
    LookupIsFirst(members, Ascii(key));
    var values := ValuesOf(members, Ascii(key));
    if values != [] && values[0].Arr? && list.Some? {
      var items := values[0].items;
      RecordsRead(items, list.value);
      if |list.value| == |items| {
        forall k | 0 <= k < |list.value| && items[k].Obj?
          ensures list.value[k] == ParseRegister(items[k].members) <==>
            && (list.value[k].None? ==> forall r :: !RegisterRead(items[k].members, r))
            && (list.value[k].Some? ==> RegisterRead(items[k].members, list.value[k].value))
        {
          EntryRead(items[k].members, list.value[k]);
        }
      }
    }
  }

  /** Whatever a tree is, it is read as the response of what stands under the four keys, or not at all. */
  lemma ReadsResponse(j: Json, r: Response)
    ensures var members := if j.Obj? then j.members else [];
      ParseResponse(j) == Some(r) <==>
        && ReadsNumber(members, "code", r.code) && ReadsList(members, "data", r.data)
        && ReadsText(members, "msg", r.msg) && ReadsText(members, "trace_id", r.traceId)
  {
    ResponseKeysSpelled();
    hide Lookup, ReadText, ReadNumber, ReadList, ReadsText, ReadsNumber, ReadsList, Ascii;
    var members := Children(j);
    NumberRead(members, "code", r.code);
    ListRead(members, "data", r.data);
    TextRead(members, "msg", r.msg);
    TextRead(members, "trace_id", r.traceId);
  }

  // ---------------------------------------------------------------- one text of each model

  lemma {:induction false} PlainStays(s: seq<byte>)
    requires forall k :: 0 <= k < |s| ==> 32 <= s[k] && s[k] != QUOTE && s[k] != BACKSLASH
    ensures Escaped(s) == s
    decreases |s|
  {
    if s != [] {
      PlainStays(s[1..]);
      assert s == [s[0]] + s[1..];
    }
  }

  /** A record that has nothing but a name. */
  lemma RecordExample()
    ensures var text := Ascii("{\"name\":\"demo\"}") + [NUL];
      var parsed := JsonParse.ParseText(text, true).0;
      parsed.Some? && parsed.value.Obj? &&
      ParseRegister(parsed.value.members) == Some(
        Register(None, None, None, None, None, None, None, None, Some(Ascii("demo")), None, None, 0, None, None))
  {
    var demo := [100, 101, 109, 111];
    assert Ascii("{\"name\":\"demo\"}") == [123, 34, 110, 97, 109, 101, 34, 58, 34, 100, 101, 109, 111, 34, 125];
    assert Ascii("demo") == demo;
    hide Ascii;
    RecordExampleRead(demo, [123, 34, 110, 97, 109, 101, 34, 58, 34, 100, 101, 109, 111, 34, 125]);
  }

  lemma RecordExampleRead(demo: seq<byte>, text: seq<byte>)
    requires demo == [100, 101, 109, 111]
    requires text == [123, 34, 110, 97, 109, 101, 34, 58, 34, 100, 101, 109, 111, 34, 125]
    ensures var parsed := JsonParse.ParseText(text + [NUL], true).0;
      parsed.Some? && parsed.value.Obj? &&
      ParseRegister(parsed.value.members) == Some(
        Register(None, None, None, None, None, None, None, None, Some(demo), None, None, 0, None, None))
  {
    var members := [Member(NAME, Str(demo))];
    assert text == [LBRACE] + ([QUOTE] + NAME + [QUOTE]) + [COLON] + ([QUOTE] + demo + [QUOTE]) + [RBRACE];
    hide JsonParse.ParseText, Render, ParseRegister, Escaped, Printable, Nesting;
    ExamplePlain(NAME);
    ExamplePlain(demo);
    OneText(NAME, demo);
    OneTextFits(NAME, demo);
    NameRead(demo);
    hide NulFree, Quoted;
    JsonRoundTrip.RoundTrip(Obj(members), false, true);
  }

  lemma ExamplePlain(s: seq<byte>)
    requires |s| <= 4 && forall k :: 0 <= k < |s| ==> 97 <= s[k] < 128
    ensures NulFree(s) && Quoted(s) == [QUOTE] + s + [QUOTE]
  {
    PlainStays(s);
  }

  lemma OneTextFits(k: seq<byte>, v: seq<byte>)
    requires NulFree(k) && NulFree(v)
    ensures Printable(Obj([Member(k, Str(v))])) && Nesting(Obj([Member(k, Str(v))])) == 1
  {
    var members := [Member(k, Str(v))];
    assert members[1..] == [];
    NestingOfMembers(members);
    NestingOfObject(members);
  }

  lemma OneText(k: seq<byte>, v: seq<byte>)
    ensures Render(Obj([Member(k, Str(v))]), false, 0) == [LBRACE] + Quoted(k) + [COLON] + Quoted(v) + [RBRACE]
  {
    hide Quoted;
    var members := [Member(k, Str(v))];
    assert members[1..] == [];
    assert RenderMembers(members, false, 1) == Quoted(k) + [COLON] + Quoted(v);
  }

  lemma NameRead(name: seq<byte>)
    requires NulFree(name)
    ensures ParseRegister([Member(NAME, Str(name))]) ==
      Some(Register(None, None, None, None, None, None, None, None, Some(name), None, None, 0, None, None))
  {
    var members := [Member(NAME, Str(name))];
    var r := Register(None, None, None, None, None, None, None, None, Some(name), None, None, 0, None, None);
    hide ParseRegister, Ascii;
    RegisterKeysSpelled();
    NameAlone();
    hide ValuesOf;
    forall key ensures ValuesOf(members, key) == if key == NAME then [Str(name)] else [] {
      ValuesOfOne(NAME, Str(name), key);
    }
    CStringOfNulFree(name);
    ReadsRegister(members, r);
  }

  lemma ValuesOfOne(k: seq<byte>, v: Json, key: seq<byte>)
    ensures ValuesOf([Member(k, v)], key) == if key == k then [v] else []
  {
    assert [Member(k, v)][1..] == [];
  }

  lemma NameAlone()
    ensures NAME !in [APP_ID, ARCH, BASE, CHANNEL, DESCRIPTION, ID, KIND, MODULE]
    ensures NAME !in [REPO_NAME, RUNTIME, SIZE, UAB_URL, VERSION]
  {
    assert BASE[0] != NAME[0] && ARCH[0] != NAME[0] && KIND[0] != NAME[0] && SIZE[0] != NAME[0];
  }

  const EXAMPLE: seq<byte> :=
    [123, 34, 99, 111, 100, 101, 34, 58, 50, 48, 48, 44, 34, 109, 115, 103, 34, 58, 34, 111, 107, 34, 125]

  /** A response without a list. */
  lemma ResponseExample()
    ensures var text := Ascii("{\"code\":200,\"msg\":\"ok\"}") + [NUL];
      var parsed := JsonParse.ParseText(text, true).0;
      parsed.Some? && ParseResponse(parsed.value) == Some(Response(200, None, Some(Ascii("ok")), None))
  {
    var ok := [111, 107];
    assert Ascii("{\"code\":200,\"msg\":\"ok\"}")
      == EXAMPLE;
    assert Ascii("ok") == ok;
    hide Ascii;
    ResponseExampleRead(ok, EXAMPLE);
  }

  lemma ResponseExampleRead(ok: seq<byte>, text: seq<byte>)
    requires ok == [111, 107]
    requires text == EXAMPLE
    ensures var parsed := JsonParse.ParseText(text + [NUL], true).0;
      parsed.Some? && ParseResponse(parsed.value) == Some(Response(200, None, Some(ok), None))
  {
    var members := [Member(CODE, Num(200.0)), Member(MSG, Str(ok))];
    ResponsePieces(ok, text);
    hide JsonParse.ParseText, Render, ParseResponse, Escaped, Printable, Nesting;
    ExamplePlain(CODE);
    ExamplePlain(MSG);
    ExamplePlain(ok);
    NumberAndText(CODE, 200, MSG, ok);
    NumberAndTextFits(CODE, 200, MSG, ok);
    assert JsonNumber.IntText(200) == [50, 48, 48];
    CodeRead(ok);
    hide NulFree, Quoted;
    JsonRoundTrip.RoundTrip(Obj(members), false, true);
  }

  lemma ResponsePieces(ok: seq<byte>, text: seq<byte>)
    requires ok == [111, 107]
    requires text == EXAMPLE
    ensures text == [LBRACE] + ([QUOTE] + CODE + [QUOTE]) + [COLON] + [50, 48, 48] + [COMMA]
                   + (([QUOTE] + MSG + [QUOTE]) + [COLON] + ([QUOTE] + ok + [QUOTE])) + [RBRACE]
  {
  }

  lemma NumberAndTextFits(k: seq<byte>, n: int, l: seq<byte>, v: seq<byte>)
    requires NulFree(k) && NulFree(l) && NulFree(v) && -NUMBER_BOUND < n < NUMBER_BOUND
    ensures var j := Obj([Member(k, Num(n as real)), Member(l, Str(v))]); Printable(j) && Nesting(j) == 1
  {
    var members := [Member(k, Num(n as real)), Member(l, Str(v))];
    var last := [Member(l, Str(v))];
    assert members[1..] == last && last[1..] == [];
    assert AllMembersPrintable(last);
    NestingOfMembers(last);
    NestingOfMembers(members);
    NestingOfObject(members);
  }

  lemma NumberAndText(k: seq<byte>, n: int, l: seq<byte>, v: seq<byte>)
    ensures Render(Obj([Member(k, Num(n as real)), Member(l, Str(v))]), false, 0)
      == [LBRACE] + Quoted(k) + [COLON] + JsonNumber.IntText(n) + [COMMA] + (Quoted(l) + [COLON] + Quoted(v)) + [RBRACE]
  {
    hide Quoted, JsonNumber.IntText;
    var members := [Member(k, Num(n as real)), Member(l, Str(v))];
    assert members[1..] == [members[1]] && members[1..][1..] == [];
    assert RenderMembers([members[1]], false, 1) == Quoted(l) + [COLON] + Quoted(v);
    assert RenderMembers(members, false, 1)
        == Quoted(k) + [COLON] + JsonNumber.IntText(n) + [COMMA] + (Quoted(l) + [COLON] + Quoted(v));
  }

  lemma CodeRead(msg: seq<byte>)
    requires NulFree(msg)
    ensures ParseResponse(Obj([Member(CODE, Num(200.0)), Member(MSG, Str(msg))])) ==
      Some(Response(200, None, Some(msg), None))
  {
    var members := [Member(CODE, Num(200.0)), Member(MSG, Str(msg))];
    ResponseKeysSpelled();
    CStringOfNulFree(msg);
    hide ParseResponse, Ascii;
    assert members[1..] == [members[1]] && members[1..][1..] == [];
    assert CODE[0] != MSG[0] && DATA[0] != CODE[0] && TRACE_ID[0] != MSG[0];
    ReadsResponse(Obj(members), Response(200, None, Some(msg), None));
  }
}
