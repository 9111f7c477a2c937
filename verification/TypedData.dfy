/** Type encodings of typed data (typed/typed.go) and how they read back. */
module TypedData {
  import opened Results

  datatype Definition = Definition(name: string, typ: string)

  datatype TypeDef = TypeDef(encoding: int, definitions: seq<Definition>)

  /** One type with its fields, as it stands in an encoding. */
  datatype Entry = Entry(name: string, definitions: seq<Definition>)

  // ---------- the encoder ----------

  function FieldText(d: Definition): string { d.name + ":" + d.typ }

  function FieldsText(defs: seq<Definition>): string {
    if |defs| == 0 then ""
    else if |defs| == 1 then FieldText(defs[0])
    else FieldText(defs[0]) + "," + FieldsText(defs[1..])
  }

  function EntryText(e: Entry): string { e.name + "(" + FieldsText(e.definitions) + ")" }

  function EntriesText(es: seq<Entry>): string {
    if |es| == 0 then "" else EntryText(es[0]) + EntriesText(es[1..])
  }

  /** The types a definition list refers to, apart from felt. */
  function References(defs: seq<Definition>): set<string> {
    set d | d in defs && d.typ != "felt" :: d.typ
  }

  /** The types named by some field, "felt" excepted. */
  lemma ReferencesAre(defs: seq<Definition>, t: string)
    ensures t in References(defs) <==> t != "felt" && exists i :: 0 <= i < |defs| && defs[i].typ == t
  {
    if i :| 0 <= i < |defs| && defs[i].typ == t {
      assert defs[i] in defs;
    }
  }

  /** Every type that is looked up is there. */
  predicate Known(types: map<string, TypeDef>, inType: string) {
    inType in types && forall t :: t in References(types[inType].definitions) ==> t in types
  }

  /** order lists each member of keys once: one way Go may range over a map. */
  ghost predicate Ranges(order: seq<string>, keys: set<string>) {
    (forall t :: t in order <==> t in keys) && (forall i, j :: 0 <= i < j < |order| ==> order[i] != order[j])
  }

  /** A type can be encoded exactly if it and every type its fields name, "felt" excepted, are
      defined. */
  lemma KnownIff(types: map<string, TypeDef>, inType: string)
    ensures Known(types, inType)
       <==> inType in types
            && forall i :: 0 <= i < |types[inType].definitions| ==>
                 types[inType].definitions[i].typ == "felt" || types[inType].definitions[i].typ in types
  {
    if inType in types {
      var defs := types[inType].definitions;
      forall t
        ensures t in References(defs) <==> t != "felt" && exists i :: 0 <= i < |defs| && defs[i].typ == t
      {
        ReferencesAre(defs, t);
      }
    }
  }

  /** So a type with felt fields only can, and its encoding is its own text. */
  lemma FeltsOnly(types: map<string, TypeDef>, inType: string, order: seq<string>)
    requires inType in types && forall d :: d in types[inType].definitions ==> d.typ == "felt"
    requires Ranges(order, References(types[inType].definitions))
    ensures Known(types, inType)
    ensures Encoded(types, inType, order) == EntryText(EntryOf(types, inType))
  {
    var keys := References(types[inType].definitions);
    assert keys == {};
    OrderLength(order, keys);
    assert [EntryOf(types, inType)] + EntriesOf(types, order) == [EntryOf(types, inType)];
    EntriesOne(EntryOf(types, inType));
  }

  function EntryOf(types: map<string, TypeDef>, t: string): Entry
    requires t in types
  {
    Entry(t, types[t].definitions)
  }

  function EntriesOf(types: map<string, TypeDef>, order: seq<string>): (es: seq<Entry>)
    requires forall t :: t in order ==> t in types
    ensures |es| == |order| && forall i :: 0 <= i < |es| ==> es[i] == EntryOf(types, order[i])
  {
    if |order| == 0 then [] else [EntryOf(types, order[0])] + EntriesOf(types, order[1..])
  }

  /** The type itself first, then the referenced types in the map's order. */
  function Encoded(types: map<string, TypeDef>, inType: string, order: seq<string>): string
    requires inType in types && forall t :: t in order ==> t in types
  {
    EntriesText([EntryOf(types, inType)] + EntriesOf(types, order))
  }

  /** Name, fields and closing parenthesis, written to a buffer one piece at a time. */
  method WriteEntry(buf: string, name: string, definitions: seq<Definition>) returns (out: string)
    ensures out == buf + EntryText(Entry(name, definitions))
  {
    out := buf + name + "(";
    ghost var start := out;
    for i := 0 to |definitions|
      invariant out + FieldsText(definitions[i..]) == start + FieldsText(definitions)
    {
      var def := definitions[i];
      ghost var before := out;
      out := out + (def.name + ":" + def.typ);
      assert definitions[i..][1..] == definitions[i + 1..];
      if i != |definitions| - 1 {
        out := out + ",";
        assert before + (FieldText(def) + "," + FieldsText(definitions[i + 1..])) == out + FieldsText(definitions[i + 1..]);
      } else {
        assert definitions[i + 1..] == [];
        assert out + "" == out;
      }
    }
    assert out + FieldsText(definitions[|definitions|..]) == out;
    out := out + ")";
    assert start + FieldsText(definitions) + ")" == buf + (name + "(" + FieldsText(definitions) + ")");
  }

  /** EncodeType; `order` is the order in which Go ranges over the map of referenced types. */
  method EncodeType(types: map<string, TypeDef>, inType: string, order: seq<string>) returns (enc: Result<string>)
    requires Known(types, inType) ==> Ranges(order, References(types[inType].definitions))
    ensures enc.Ok? <==> Known(types, inType)
    ensures Known(types, inType) ==> enc == Ok(Encoded(types, inType, order))
  {
    hide EntriesText, EntryText;
    if inType !in types {
      return Err("can't parse type");
    }
    var typeDefs := types[inType].definitions;
    var customTypes, ok := CustomTypes(types, typeDefs);
    if !ok {
      return Err("can't parse type");
    }
    var buf := WriteEntry("", inType, typeDefs);
    ghost var first, entries := EntryOf(types, inType), EntriesOf(types, order);
    EntriesNone(first, entries);
    for i := 0 to |order|
      invariant buf == EntriesText([first] + entries[..i])
    {
      EntriesNext(first, entries, i);
      buf := WriteEntry(buf, order[i], customTypes[order[i]].definitions);
    }
    assert entries[..|order|] == entries;
    return Ok(buf);
  }

  /** The loop of EncodeType that looks up the referenced types. */
  method CustomTypes(types: map<string, TypeDef>, typeDefs: seq<Definition>) returns (custom: map<string, TypeDef>, ok: bool)
    ensures ok <==> forall t :: t in References(typeDefs) ==> t in types
    ensures ok ==> custom.Keys == References(typeDefs) && forall t :: t in custom ==> custom[t] == types[t]
  {
    custom := map[];
    for i := 0 to |typeDefs|
      invariant custom.Keys == References(typeDefs[..i])
      invariant forall t :: t in custom ==> t in types && custom[t] == types[t]
    {
      var def := typeDefs[i];
      assert typeDefs[..i + 1] == typeDefs[..i] + [def];
      if def.typ != "felt" {
        assert def.typ in References(typeDefs);
        if def.typ !in types {
          return custom, false;
        }
        custom := custom[def.typ := types[def.typ]];
      }
    }
    assert typeDefs[..|typeDefs|] == typeDefs;
    return custom, true;
  }

  lemma EntriesNone(first: Entry, es: seq<Entry>)
    ensures "" + EntryText(first) == EntriesText([first] + es[..0])
  {
    hide EntryText;
    assert [first] + es[..0] == [first];
    EntriesOne(first);
    assert "" + EntryText(first) == EntryText(first);
  }

  lemma EntriesNext(first: Entry, es: seq<Entry>, i: nat)
    requires i < |es|
    ensures EntriesText([first] + es[..i + 1]) == EntriesText([first] + es[..i]) + EntryText(es[i])
  {
    hide EntryText, EntriesText;
    assert [first] + es[..i + 1] == ([first] + es[..i]) + [es[i]];
    EntriesAppend([first] + es[..i], [es[i]]);
    EntriesOne(es[i]);
  }

  lemma EntriesOne(e: Entry)
    ensures EntriesText([e]) == EntryText(e)
  {
    hide EntryText;
    assert EntriesText([e][1..]) == "";
    assert EntryText(e) + "" == EntryText(e);
  }

  lemma {:induction false} EntriesAppend(a: seq<Entry>, b: seq<Entry>)
    ensures EntriesText(a + b) == EntriesText(a) + EntriesText(b)
  {
    hide EntryText;
    if |a| == 0 {
      assert a + b == b;
      assert "" + EntriesText(b) == EntriesText(b);
    } else {
      EntriesAppend(a[1..], b);
      assert (a + b)[1..] == a[1..] + b;
      var x, y, z := EntryText(a[0]), EntriesText(a[1..]), EntriesText(b);
      assert x + (y + z) == (x + y) + z;
    }
  }

  // ---------- reading back ----------

  predicate IsDelimiter(c: char) { c == '(' || c == ')' || c == ',' || c == ':' }

  /** A name without the four delimiters. */
  predicate Clean(s: string) { forall i :: 0 <= i < |s| ==> !IsDelimiter(s[i]) }

  /** How far the text runs to its first delimiter. */
  function TokenLength(s: string): (n: nat)
    ensures n <= |s|
  {
    if |s| == 0 || IsDelimiter(s[0]) then 0 else 1 + TokenLength(s[1..])
  }

  /** Fields up to the closing parenthesis, and what follows it. */
  function ReadFields(s: string): (r: Option<(seq<Definition>, string)>)
    ensures r.Some? ==> |r.value.1| < |s|
    decreases |s|
  {
    var n := TokenLength(s);
    if n == |s| || s[n] != ':' then None
    else
      var rest := s[n + 1..];
      var k := TokenLength(rest);
      var d := Definition(s[..n], rest[..k]);
      if k == |rest| then None
      else if rest[k] == ')' then Some(([d], rest[k + 1..]))
      else if rest[k] != ',' then None
      else
        match ReadFields(rest[k + 1..])
        case None => None
        case Some((ds, after)) => Some(([d] + ds, after))
  }

  function ReadEntry(s: string): (r: Option<(Entry, string)>)
    ensures r.Some? ==> |r.value.1| < |s|
  {
    var n := TokenLength(s);
    if n == |s| || s[n] != '(' then None
    else
      var rest := s[n + 1..];
      if |rest| > 0 && rest[0] == ')' then Some((Entry(s[..n], []), rest[1..]))
      else
        match ReadFields(rest)
        case None => None
        case Some((ds, after)) => Some((Entry(s[..n], ds), after))
  }

  function ReadEntries(s: string): Option<seq<Entry>>
    decreases |s|
  {
    if |s| == 0 then Some([])
    else
      match ReadEntry(s)
      case None => None
      case Some((e, after)) =>
        match ReadEntries(after)
        case None => None
        case Some(es) => Some([e] + es)
  }

  // ---------- round trip ----------

  predicate CleanFields(defs: seq<Definition>) {
    forall d :: d in defs ==> Clean(d.name) && Clean(d.typ)
  }

  predicate CleanEntry(e: Entry) { Clean(e.name) && CleanFields(e.definitions) }

  lemma {:induction false} TokenOf(name: string, c: char, after: string)
    requires Clean(name) && IsDelimiter(c)
    ensures TokenLength(name + [c] + after) == |name|
  {
    var s := name + [c] + after;
    if |name| > 0 {
      assert s[1..] == name[1..] + [c] + after;
      TokenOf(name[1..], c, after);
    }
  }

  /** A field, a delimiter, and what follows. */
  function FieldThen(d: Definition, c: char, after: string): string {
    d.name + ":" + d.typ + [c] + after
  }

  /** The fields, the closing parenthesis, and what follows. */
  function FieldsThen(defs: seq<Definition>, after: string): string {
    FieldsText(defs) + ")" + after
  }

  lemma {:induction false} FieldsRead(defs: seq<Definition>, after: string)
    requires |defs| > 0 && CleanFields(defs)
    ensures ReadFields(FieldsThen(defs, after)) == Some((defs, after))
    decreases |defs|
  {
    var d, rest := defs[0], defs[1..];
    CleanParts(defs);
    hide *;
    if |rest| == 0 {
      LastField(d, after);
      assert defs == [d];
    } else {
      FieldsRead(rest, after);
      MoreFields(d, rest, after);
      assert defs == [d] + rest;
    }
  }

  lemma LastField(d: Definition, after: string)
    requires Clean(d.name) && Clean(d.typ)
    ensures ReadFields(FieldsThen([d], after)) == Some(([d], after))
  {
    assert FieldsThen([d], after) == FieldThen(d, ')', after);
    hide *;
    LastFieldRead(d, after);
  }

  lemma MoreFields(d: Definition, rest: seq<Definition>, after: string)
    requires Clean(d.name) && Clean(d.typ) && |rest| > 0
    requires ReadFields(FieldsThen(rest, after)) == Some((rest, after))
    ensures ReadFields(FieldsThen([d] + rest, after)) == Some(([d] + rest, after))
  {
    TextOfMore(d, rest, after);
    hide *;
    MoreFieldsRead(d, FieldsThen(rest, after));
  }

  lemma TextOfMore(d: Definition, rest: seq<Definition>, after: string)
    requires |rest| > 0
    ensures FieldsThen([d] + rest, after) == FieldThen(d, ',', FieldsThen(rest, after))
  {
    assert ([d] + rest)[1..] == rest;
    assert FieldsText([d] + rest) == d.name + ":" + d.typ + "," + FieldsText(rest);
    hide FieldsText;
    Regroup(d.name + ":" + d.typ, FieldsText(rest), after);
  }

  lemma CleanParts(defs: seq<Definition>)
    requires |defs| > 0 && CleanFields(defs)
    ensures Clean(defs[0].name) && Clean(defs[0].typ) && CleanFields(defs[1..])
  {
    hide Clean;
    assert defs[0] in defs;
  }

  lemma Regroup(a: string, b: string, after: string)
    ensures a + "," + b + ")" + after == a + [','] + (b + ")" + after)
  {}

  lemma LastFieldRead(d: Definition, after: string)
    requires Clean(d.name) && Clean(d.typ)
    ensures ReadFields(FieldThen(d, ')', after)) == Some(([d], after))
  {
    OneField(d, ')', after);
    hide TokenLength, FieldThen, Clean;
  }

  lemma MoreFieldsRead(d: Definition, tail: string)
    requires Clean(d.name) && Clean(d.typ) && ReadFields(tail).Some?
    ensures ReadFields(FieldThen(d, ',', tail))
         == Some(([d] + ReadFields(tail).value.0, ReadFields(tail).value.1))
  {
    OneField(d, ',', tail);
    hide TokenLength, FieldThen, Clean;
  }

  /** The first field of a text and what stands behind its delimiter. */
  lemma OneField(d: Definition, c: char, after: string)
    requires Clean(d.name) && Clean(d.typ) && IsDelimiter(c)
    ensures var s := FieldThen(d, c, after);
            TokenLength(s) == |d.name| && s[..|d.name|] == d.name && s[|d.name|] == ':' &&
            var rest := s[|d.name| + 1..];
            TokenLength(rest) == |d.typ| && rest[..|d.typ|] == d.typ && rest[|d.typ|] == c && rest[|d.typ| + 1..] == after
  {
    var s := d.name + ":" + d.typ + [c] + after;
    assert s == d.name + [':'] + (d.typ + [c] + after);
    TokenOf(d.name, ':', d.typ + [c] + after);
    assert s[|d.name| + 1..] == d.typ + [c] + after;
    TokenOf(d.typ, c, after);
  }

  lemma EntryRead(e: Entry, after: string)
    requires CleanEntry(e)
    ensures ReadEntry(EntryText(e) + after) == Some((e, after))
  {
    var s, fields := EntryText(e) + after, FieldsText(e.definitions);
    assert s == e.name + ['('] + (fields + ")" + after);
    TokenOf(e.name, '(', fields + ")" + after);
    var rest := s[|e.name| + 1..];
    assert s[..|e.name|] == e.name && rest == fields + ")" + after;
    if |e.definitions| == 0 {
      assert rest[1..] == after;
    } else {
      FieldsRead(e.definitions, after);
      FirstNotClosing(e.definitions, after);
    }
  }

  /** A field list never starts with the closing parenthesis. */
  lemma FirstNotClosing(defs: seq<Definition>, after: string)
    requires |defs| > 0 && CleanFields(defs)
    ensures (FieldsText(defs) + ")" + after)[0] != ')'
  {
    var d := defs[0];
    assert FieldsText(defs)[0] == (d.name + ":")[0];
  }

  lemma {:induction false} EntriesRead(es: seq<Entry>)
    requires forall e :: e in es ==> CleanEntry(e)
    ensures ReadEntries(EntriesText(es)) == Some(es)
  {
    if |es| > 0 {
      EntryRead(es[0], EntriesText(es[1..]));
      hide ReadEntry, EntryText, CleanEntry;
      EntriesRead(es[1..]);
      assert es == [es[0]] + es[1..];
    }
  }

  /** The type and those it refers to, which is all that is written, have delimiter-free names. */
  predicate CleanType(types: map<string, TypeDef>, inType: string)
    requires Known(types, inType)
  {
    CleanEntry(EntryOf(types, inType)) &&
    forall t :: t in References(types[inType].definitions) ==> CleanEntry(EntryOf(types, t))
  }

  /** Whatever order the map is ranged in, the encoding reads back as the type with its fields
      in order, followed by exactly the referenced types, each with its fields in order. */
  lemma EncodingReadsBack(types: map<string, TypeDef>, inType: string, order: seq<string>)
    requires Known(types, inType) && CleanType(types, inType) && Ranges(order, References(types[inType].definitions))
    ensures var r := ReadEntries(Encoded(types, inType, order));
            r.Some? && |r.value| == 1 + |order| && r.value[0] == EntryOf(types, inType)
            && forall e: Entry :: e in r.value[1..] <==>
                 e.name in References(types[inType].definitions) && e == EntryOf(types, e.name)
  {
    var es := EntriesOf(types, order);
    var all := [EntryOf(types, inType)] + es;
    EntriesRead(all);
    assert all[1..] == es;
    forall e: Entry | e.name in References(types[inType].definitions) && e == EntryOf(types, e.name)
      ensures e in es
    {
      assert e.name in order;
      var i :| 0 <= i < |order| && order[i] == e.name;
      assert es[i] == e;
    }
  }

  /** Two encodings are equal only if they encode one type with one set of fields and references. */
  lemma EncodingInjective(types: map<string, TypeDef>, t: string, order: seq<string>,
                          types': map<string, TypeDef>, t': string, order': seq<string>)
    requires Known(types, t) && CleanType(types, t) && Ranges(order, References(types[t].definitions))
    requires Known(types', t') && CleanType(types', t') && Ranges(order', References(types'[t'].definitions))
    ensures Encoded(types, t, order) == Encoded(types', t', order')
       <==> t == t' && types[t].definitions == types'[t'].definitions && order == order'
            && forall u :: u in order ==> types[u].definitions == types'[u].definitions
  {
    var es, es' := EntriesOf(types, order), EntriesOf(types', order');
    var all, all' := [EntryOf(types, t)] + es, [EntryOf(types', t')] + es';
    EntriesRead(all);
    EntriesRead(all');
    if Encoded(types, t, order) == Encoded(types', t', order') {
      assert all == all' && all[0] == all'[0] && all[1..] == es && all'[1..] == es';
      forall i | 0 <= i < |order|
        ensures order[i] == order'[i] && types[order[i]].definitions == types'[order[i]].definitions
      {
        assert es[i] == es'[i];
      }
    }
    if t == t' && types[t].definitions == types'[t'].definitions && order == order'
       && forall u :: u in order ==> types[u].definitions == types'[u].definitions {
      assert forall i :: 0 <= i < |order| ==> es[i] == es'[i];
      assert es == es';
    }
  }

  /** Go ranges over a map in no fixed order, and the encoding follows it: the encoding, and so
      the type hash, is one fixed string exactly when at most one type is referenced. */
  lemma DeterministicIff(types: map<string, TypeDef>, inType: string)
    requires Known(types, inType) && CleanType(types, inType)
    ensures (forall order, order' ::
               Ranges(order, References(types[inType].definitions)) && Ranges(order', References(types[inType].definitions))
               ==> Encoded(types, inType, order) == Encoded(types, inType, order'))
       <==> |References(types[inType].definitions)| <= 1
  {
    var keys := References(types[inType].definitions);
    if |keys| <= 1 {
      forall order, order' | Ranges(order, keys) && Ranges(order', keys)
        ensures order == order'
      {
        SingleOrder(order, order', keys);
      }
    } else {
      var order := SomeOrder(keys);
      OrderLength(order, keys);
      var order' := order[1..] + [order[0]];
      assert Ranges(order', keys);
      assert order != order' by { assert order[0] != order[1] == order'[0]; }
      EncodingInjective(types, inType, order, types, inType, order');
    }
  }

  lemma {:induction false} OrderLength(order: seq<string>, keys: set<string>)
    requires Ranges(order, keys)
    ensures |order| == |keys|
    decreases |order|
  {
    if |order| == 0 {
      assert keys == {};
    } else {
      var rest := order[1..];
      assert order == [order[0]] + rest;
      OrderLength(rest, keys - {order[0]});
    }
  }

  lemma SingleOrder(order: seq<string>, order': seq<string>, keys: set<string>)
    requires Ranges(order, keys) && Ranges(order', keys) && |keys| <= 1
    ensures order == order'
  {
    OrderLength(order, keys);
    OrderLength(order', keys);
    if |order| == 1 {
      assert order[0] in order' && order'[0] in order;
    }
  }

  lemma {:induction false} SomeOrder(keys: set<string>) returns (order: seq<string>)
    ensures Ranges(order, keys)
    decreases |keys|
  {
    if keys == {} {
      order := [];
    } else {
      var k :| k in keys;
      var rest := SomeOrder(keys - {k});
      order := [k] + rest;
    }
  }
}
