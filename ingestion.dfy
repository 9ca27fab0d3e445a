/**
 * The routing of a node's dictionary ingestion (knowledge/implementations/node.py):
 * the key synonyms, the handler a key and value reach in add_key_value,
 * add_primitive_value and add_dict_value, the text a dictionary is flattened
 * into, and what build_link_from_dict reads out of a link dictionary.
 */
module Ingestion {
  import opened Wrappers
  import opened Values
  import Synonyms
  import EdgeTypes
  import LinkTypes
  import BlockTypes

  /** NODE_KEYS_SYNONYMS, with its repeated 'node' kept. */
  const NodeKeysSynonyms: Synonyms.Table := [
    ["name", "id"],
    ["titles", "title"],
    ["type"],
    ["blocks"],
    ["items", "node", "node", "nodes", "content", "list", "struct"],
    ["links", "link"]
  ]

  /** IGNORE_KEYS: keys whose values a node drops. */
  const IgnoreKeys: seq<string> := ["snippet", "properties", "url", "author", "year", "org"]

  /** KEYS_PRIMITIVE: keys whose dictionary values are flattened into one text. */
  const KeysPrimitive: seq<string> := ["title", "info"]

  // ---------------------------------------------------------------------------
  // Keys

  /**
   * get_canonic_synonym(key, NODE_KEYS_SYNONYMS, skip_missing=True) or key,
   * with the groups spelled out (CanonicKeyIsTableLookup ties it to the table).
   */
  function CanonicKey(k: string): string {
    if k == "id" then "name"
    else if k == "title" then "titles"
    else if k == "node" || k == "nodes" || k == "content" || k == "list" || k == "struct" then "items"
    else if k == "link" then "links"
    else k
  }

  /** No spelling belongs to two groups of NODE_KEYS_SYNONYMS. */
  lemma NodeKeysDisjoint()
    ensures Synonyms.GroupsDisjoint(NodeKeysSynonyms)
  {
  }

  /** The spelled-out canonicalisation is the synonym lookup: a listed key gets its group's head, any other key is kept. */
  lemma CanonicKeyIsTableLookup(k: string)
    ensures CanonicKey(k) == match Synonyms.CanonicSynonym(k, NodeKeysSynonyms, true) case Ok(Some(h)) => h case _ => k
  {
    if i :| 0 <= i < |NodeKeysSynonyms| && k in NodeKeysSynonyms[i] {
      NodeKeysDisjoint();
      Synonyms.MemberCanonical(k, NodeKeysSynonyms, i, true);
      CanonicKeyOfGroup(k, i);
    } else {
      UnlistedKeyKept(k);
    }
  }

  /** CanonicKey gives each group's head to the group's members. */
  lemma CanonicKeyOfGroup(k: string, i: int)
    requires 0 <= i < |NodeKeysSynonyms| && k in NodeKeysSynonyms[i]
    ensures CanonicKey(k) == NodeKeysSynonyms[i][0]
  {
    if i == 0 {
      assert k in NodeKeysSynonyms[0];
    } else if i == 1 {
      assert k in NodeKeysSynonyms[1];
    } else if i == 2 {
      assert k in NodeKeysSynonyms[2];
    } else if i == 3 {
      assert k in NodeKeysSynonyms[3];
    } else if i == 4 {
      assert k in NodeKeysSynonyms[4];
    } else {
      assert k in NodeKeysSynonyms[5];
    }
  }

  /** CanonicKey keeps a key that no group lists. */
  lemma UnlistedKeyKept(k: string)
    requires forall i :: 0 <= i < |NodeKeysSynonyms| ==> k !in NodeKeysSynonyms[i]
    ensures CanonicKey(k) == k
  {
    assert k !in NodeKeysSynonyms[0] && k !in NodeKeysSynonyms[1] && k !in NodeKeysSynonyms[4] && k !in NodeKeysSynonyms[5];
  }

  /** Canonicalising twice is canonicalising once, so add_dict_value's second pass changes nothing. */
  lemma CanonicKeyIdempotent(k: string)
    ensures CanonicKey(CanonicKey(k)) == CanonicKey(k)
  {
  }

  /** The aliases a document may use for the node's own keys, and some keys no group lists. */
  lemma NodeKeyAliases()
    ensures CanonicKey("id") == "name"
    ensures CanonicKey("title") == "titles"
    ensures CanonicKey("link") == "links"
    ensures forall k :: k in NodeKeysSynonyms[4] ==> CanonicKey(k) == "items"
    ensures CanonicKey("info") == "info" && CanonicKey("text") == "text" && CanonicKey("properties") == "properties"
  {
    forall k | k in NodeKeysSynonyms[4] ensures CanonicKey(k) == "items" {
      CanonicKeyOfGroup(k, 4);
    }
  }

  /** A key that may be any parsed value: strings are canonicalised, anything else is kept. */
  function KeyOf(v: Value): (r: Value)
    ensures r.VStr? <==> v.VStr?
    ensures v.VStr? ==> r.s == CanonicKey(v.s)
    ensures !v.VStr? ==> r == v
  {
    if v.VStr? then VStr(CanonicKey(v.s)) else v
  }

  /** A parsed value passed to get_type or has_type: a string, a falsy value, or some other object. */
  function ArgOf<T>(v: Value): (r: TypeArg<T>)
    ensures r.Str? <==> v.VStr?
    ensures r.Str? ==> r.s == v.s
    ensures r.Absent? <==> !v.VStr? && !Truthy(v)
  {
    if v.VStr? then Str(v.s) else if Truthy(v) then Foreign else Absent
  }

  // ---------------------------------------------------------------------------
  // add_primitive_value

  /** The branch of add_primitive_value a key takes. */
  datatype PrimitiveRoute = NameRoute | TitleRoute | LinkRoute | ItemRoute | UnknownRoute

  /** add_primitive_value's tests, in order: 'name', 'titles', a link type, a block type. */
  function PrimitiveRouteOf(key: string): PrimitiveRoute {
    if key == "name" then NameRoute
    else if key == "titles" then TitleRoute
    else if LinkTypes.HasType(Str(key)) then LinkRoute
    else if BlockTypes.HasType(Str(key)) then ItemRoute
    else UnknownRoute
  }

  /**
   * Where each primitive-valued key ends up: the link route takes exactly the
   * other keys that resolve to a link type, the item route those left that
   * resolve to a block type, and the rest are unknown.
   */
  lemma PrimitiveRouteMeaning(key: string)
    ensures PrimitiveRouteOf(key) == LinkRoute <==> key != "name" && key != "titles" && LinkTypes.GetType(Str(key), false).Ok?
    ensures PrimitiveRouteOf(key) == ItemRoute <==>
              key != "name" && key != "titles" && LinkTypes.GetType(Str(key), false).Err? && BlockTypes.GetType(Str(key), false).Ok?
    ensures PrimitiveRouteOf(key) == UnknownRoute <==>
              key != "name" && key != "titles" && LinkTypes.GetType(Str(key), false).Err? && BlockTypes.GetType(Str(key), false).Err?
  {
    LinkTypes.HasTypeIffGetType(key, false);
    BlockTypes.HasTypeIffGetType(key, false);
  }

  /** None of these spellings names a link type. */
  lemma NotLinkTypeNames(s: string)
    requires s in ["name", "titles", "type", "info", "text", "links"]
    ensures !LinkTypes.HasType(Str(s))
  {
    assert !Synonyms.Listed(s, LinkTypes.LinkTypeSynonyms);
  }

  /** None of these spellings names a block type. */
  lemma NotBlockTypeNames(s: string)
    requires s in ["name", "titles", "type"]
    ensures !BlockTypes.HasType(Str(s))
  {
    assert !Synonyms.Listed(s, BlockTypes.BlockTypeSynonyms);
  }

  /** 'content', canonicalised to 'items', adds a Child link. */
  lemma ContentKeyLinksChild()
    ensures PrimitiveRouteOf(CanonicKey("content")) == LinkRoute
    ensures LinkTypes.GetType(Str(CanonicKey("content")), false) == Ok(Some(EdgeTypes.Child))
  {
    assert CanonicKey("content") == "items";
    assert LinkTypes.GetType(Str("items"), false) == Ok(Some(EdgeTypes.Child)) by {
      LinkTypes.GroupMemberResolves("items", 1, false);
    }
  }

  /** 'link', canonicalised to 'links', adds an item to a Links content block. */
  lemma LinkKeyAddsLinksItem()
    ensures PrimitiveRouteOf(CanonicKey("link")) == ItemRoute
    ensures BlockTypes.GetType(Str(CanonicKey("link")), false) == Ok(Some(BlockTypes.Links))
  {
    assert CanonicKey("link") == "links";
    assert !LinkTypes.HasType(Str("links")) by { NotLinkTypeNames("links"); }
    assert BlockTypes.GetType(Str("links"), false) == Ok(Some(BlockTypes.Links)) by {
      BlockTypes.GroupMemberResolves("links", 4, false);
    }
  }

  /** 'text' adds an Info item. */
  lemma TextKeyAddsInfoItem()
    ensures PrimitiveRouteOf(CanonicKey("text")) == ItemRoute
    ensures BlockTypes.GetType(Str(CanonicKey("text")), false) == Ok(Some(BlockTypes.Info))
  {
    assert CanonicKey("text") == "text";
    assert !LinkTypes.HasType(Str("text")) by { NotLinkTypeNames("text"); }
    assert BlockTypes.GetType(Str("text"), false) == Ok(Some(BlockTypes.Info)) by {
      BlockTypes.GroupMemberResolves("text", 1, false);
    }
  }

  /** 'type' is a node key, yet a primitive value under it is an unknown key. */
  lemma TypeKeyUnknown()
    ensures PrimitiveRouteOf(CanonicKey("type")) == UnknownRoute
  {
    assert CanonicKey("type") == "type";
    assert !LinkTypes.HasType(Str("type")) by { NotLinkTypeNames("type"); }
    assert !BlockTypes.HasType(Str("type")) by { NotBlockTypeNames("type"); }
  }

  // ---------------------------------------------------------------------------
  // add_key_value

  /** Where add_key_value sends a key and its value. */
  datatype KeyValueRoute =
    | Ignored
    | PrimitiveKV(pkey: string, pvalue: Value)
    | ListKV(lkey: string, elements: seq<Value>)
    | DictKV(dkey: Value, entries: Dict)
    | BadValue

  /** The key add_key_value works with: a dictionary's own 'type' replaces it, and it is canonicalised. */
  function EffectiveKey(key: string, value: Value): (r: Value)
    ensures !(value.VDict? && HasKey(value.entries, "type")) ==> r == VStr(CanonicKey(key))
    ensures value.VDict? && HasKey(value.entries, "type") ==> r == KeyOf(Get(value.entries, "type").value)
  {
    if value.VDict? && HasKey(value.entries, "type") then KeyOf(Get(value.entries, "type").value)
    else VStr(CanonicKey(key))
  }

  /** add_key_value: ignored keys, then primitive, list and dictionary values; anything else is a TypeError. */
  function KeyValueRouteOf(key: string, value: Value): (r: KeyValueRoute)
    ensures r.PrimitiveKV? ==> r.pvalue == value && IsPrimitive(value)
    ensures r.ListKV? ==> value == VList(r.elements)
    ensures r.DictKV? ==> value == VDict(r.entries)
  {
    var k := EffectiveKey(key, value);
    if k.VStr? && k.s in IgnoreKeys then Ignored
    else match value
      case VStr(_) => PrimitiveKV(k.s, value)
      case VInt(_) => PrimitiveKV(k.s, value)
      case VBool(_) => PrimitiveKV(k.s, value)
      case VList(xs) => ListKV(k.s, xs)
      case VDict(d) => DictKV(k, d)
      case VNone => BadValue
  }

  /** A value under an ignored key is dropped, unless it is a dictionary that names its own type. */
  lemma IgnoredKeysDropped(key: string, value: Value)
    requires CanonicKey(key) in IgnoreKeys
    requires !(value.VDict? && HasKey(value.entries, "type"))
    ensures KeyValueRouteOf(key, value) == Ignored
  {
  }

  /** A dictionary that names its type is routed by that type alone: the key it sits under does not matter. */
  lemma DictTypeOverridesKey(key: string, other: string, d: Dict)
    requires HasKey(d, "type")
    ensures KeyValueRouteOf(key, VDict(d)) == KeyValueRouteOf(other, VDict(d))
    ensures KeyValueRouteOf(key, VDict(d)) == Ignored || KeyValueRouteOf(key, VDict(d)) == DictKV(KeyOf(Get(d, "type").value), d)
  {
  }

  /** Primitive and list values keep the canonical key; a None value under a kept key is refused. */
  lemma KeyValueRouteShapes(key: string, value: Value)
    requires CanonicKey(key) !in IgnoreKeys
    ensures IsPrimitive(value) ==> KeyValueRouteOf(key, value) == PrimitiveKV(CanonicKey(key), value)
    ensures value.VList? ==> KeyValueRouteOf(key, value) == ListKV(CanonicKey(key), value.elements)
    ensures value.VDict? && !HasKey(value.entries, "type") ==> KeyValueRouteOf(key, value) == DictKV(VStr(CanonicKey(key)), value.entries)
    ensures value.VNone? <==> KeyValueRouteOf(key, value) == BadValue
  {
  }

  /** add_key_value passes the pair to add_primitive_value under 'titles'. */
  predicate IsTitle(key: string, value: Value) {
    KeyValueRouteOf(key, value).PrimitiveKV? && KeyValueRouteOf(key, value).pkey == "titles"
  }

  /** add_key_value drops the pair, or passes it to add_primitive_value under 'titles'. */
  predicate TitleOrIgnored(key: string, value: Value) {
    KeyValueRouteOf(key, value) == Ignored || IsTitle(key, value)
  }

  /** Every pair of the dictionary is a title or is ignored. */
  predicate OnlyTitles(obj: Dict) {
    forall i :: 0 <= i < |obj| ==> TitleOrIgnored(obj[i].0, obj[i].1)
  }

  /** The title a pair adds: the value's text when it is a title, else nothing. */
  function TitleStep(key: string, value: Value): (r: seq<string>)
    ensures |r| <= 1
  {
    if IsTitle(key, value) then [Render(value)] else []
  }

  /** The titles the pairs of a dictionary add, in order: the text of each value add_key_value files under 'titles'. */
  function TitleTexts(obj: Dict): seq<string>
    decreases |obj|
  {
    if obj == [] then []
    else
      var n := |obj| - 1;
      TitleTexts(obj[..n]) + TitleStep(obj[n].0, obj[n].1)
  }

  /** One more pair adds its title, if it is one, at the end. */
  lemma TitleTextsSnoc(obj: Dict, i: int)
    requires 0 <= i < |obj|
    ensures TitleTexts(obj[..i + 1]) == TitleTexts(obj[..i]) + TitleStep(obj[i].0, obj[i].1)
  {
    assert obj[..i + 1][..i] == obj[..i];
  }

  // ---------------------------------------------------------------------------
  // add_dict_value

  /** The branch of add_dict_value a key takes. */
  datatype DictRoute = PrimitiveDict(pkey: string) | LinkDict(lkey: string) | LinkBlockDict | BlockDict | Unsupported

  /** add_dict_value's tests on the canonicalised key, in order. */
  function DictRouteOf(key: Value): DictRoute {
    var k := KeyOf(key);
    if k.VStr? && k.s in KeysPrimitive then PrimitiveDict(k.s)
    else if k.VStr? && LinkTypes.HasType(Str(k.s)) then LinkDict(k.s)
    else if k == VStr("links") then LinkBlockDict
    else if k.VStr? && BlockTypes.HasType(Str(k.s)) then BlockDict
    else Unsupported
  }

  /**
   * 'title' is canonicalised to 'titles' before the KEYS_PRIMITIVE test, so
   * a dictionary under a title key is never flattened and is refused.
   */
  lemma TitleDictUnsupported()
    ensures DictRouteOf(VStr("title")) == Unsupported
    ensures DictRouteOf(VStr("titles")) == Unsupported
  {
    assert KeyOf(VStr("title")) == VStr("titles");
    TitlesKeyUnsupported(VStr("title"));
    assert KeyOf(VStr("titles")) == VStr("titles");
    TitlesKeyUnsupported(VStr("titles"));
  }

  /** A key that canonicalises to 'titles' takes none of add_dict_value's branches. */
  lemma TitlesKeyUnsupported(key: Value)
    requires KeyOf(key) == VStr("titles")
    ensures DictRouteOf(key) == Unsupported
  {
    assert "titles" !in KeysPrimitive;
    NotLinkTypeNames("titles");
    NotBlockTypeNames("titles");
  }

  /** Only 'info' ever reaches the flattening branch. */
  lemma OnlyInfoFlattened(k: Value)
    ensures DictRouteOf(k).PrimitiveDict? <==> k == VStr("info")
    ensures DictRouteOf(k).PrimitiveDict? ==> DictRouteOf(k).pkey == "info"
  {
    if k.VStr? {
      CanonicKeyNotTitle(k.s);
    }
  }

  /** No key canonicalises to 'title', and only 'info' canonicalises to 'info'. */
  lemma CanonicKeyNotTitle(s: string)
    ensures CanonicKey(s) != "title"
    ensures CanonicKey(s) == "info" <==> s == "info"
  {
  }

  /** Flattened 'info' text is filed as an Info item. */
  lemma InfoTextIsInfoItem()
    ensures PrimitiveRouteOf("info") == ItemRoute && BlockTypes.GetType(Str("info"), false) == Ok(Some(BlockTypes.Info))
  {
    assert !LinkTypes.HasType(Str("info")) by { NotLinkTypeNames("info"); }
    assert BlockTypes.GetType(Str("info"), false) == Ok(Some(BlockTypes.Info)) by {
      BlockTypes.GroupMemberResolves("info", 1, false);
    }
  }

  /** 'text' names Info blocks too, yet a dictionary under it is read as a block rather than flattened. */
  lemma TextDictIsBlock()
    ensures DictRouteOf(VStr("text")) == BlockDict
  {
    assert KeyOf(VStr("text")) == VStr("text");
    assert !LinkTypes.HasType(Str("text")) by { NotLinkTypeNames("text"); }
    assert BlockTypes.HasType(Str("text")) by {
      assert "text" in BlockTypes.BlockTypeSynonyms[1];
    }
  }

  /** A dictionary under 'link' or 'links' is a link block. */
  lemma LinksDictIsLinkBlock()
    ensures DictRouteOf(VStr("link")) == LinkBlockDict && DictRouteOf(VStr("links")) == LinkBlockDict
  {
    assert KeyOf(VStr("link")) == VStr("links") && KeyOf(VStr("links")) == VStr("links");
    assert !LinkTypes.HasType(Str("links")) by { NotLinkTypeNames("links"); }
  }

  /** A dictionary under 'content' describes one Child link. */
  lemma ContentDictIsLink()
    ensures DictRouteOf(VStr("content")) == LinkDict("items")
  {
    assert KeyOf(VStr("content")) == VStr("items");
    assert "items" !in KeysPrimitive;
    assert LinkTypes.HasType(Str("items")) by {
      LinkTypes.GroupMemberResolves("items", 1, false);
    }
  }

  /** A key that is not a string names no type, so its dictionary is refused. */
  lemma NonStringKeyUnsupported(key: Value)
    requires !key.VStr?
    ensures DictRouteOf(key) == Unsupported
  {
  }

  // ---------------------------------------------------------------------------
  // Text of values

  /** The decimal digits of a natural number. */
  function Digits(n: nat): (r: string)
    ensures |r| > 0 && forall i :: 0 <= i < |r| ==> '0' <= r[i] <= '9'
  {
    if n < 10 then [DigitChar(n)] else Digits(n / 10) + [DigitChar(n % 10)]
  }

  function DigitChar(d: nat): (c: char)
    requires d < 10
    ensures '0' <= c <= '9' && c as int - '0' as int == d
  {
    ('0' as int + d) as char
  }

  /** The value of a string of decimal digits. */
  function DigitsValue(s: string): nat
    requires forall i :: 0 <= i < |s| ==> '0' <= s[i] <= '9'
  {
    if s == [] then 0 else DigitsValue(s[..|s| - 1]) * 10 + (s[|s| - 1] as int - '0' as int)
  }

  /** str(n) for an int. */
  function Decimal(n: int): (r: string)
    ensures |r| > 0
  {
    if n < 0 then "-" + Digits(-n) else Digits(n)
  }

  /** int(s) on the text of a number. */
  function ParseDecimal(s: string): (r: Option<int>) {
    if s != [] && s[0] == '-' && |s| > 1 && forall i :: 1 <= i < |s| ==> '0' <= s[i] <= '9' then Some(0 - DigitsValue(s[1..]) as int)
    else if s != [] && forall i :: 0 <= i < |s| ==> '0' <= s[i] <= '9' then Some(DigitsValue(s))
    else None
  }

  /** Reading the digits back gives the number. */
  lemma {:induction false} DigitsRoundTrip(n: nat)
    ensures DigitsValue(Digits(n)) == n
  {
    if n >= 10 {
      DigitsRoundTrip(n / 10);
      var s := Digits(n / 10) + [DigitChar(n % 10)];
      assert s[..|s| - 1] == Digits(n / 10);
    }
  }

  /** int(str(n)) == n */
  lemma DecimalRoundTrip(n: int)
    ensures ParseDecimal(Decimal(n)) == Some(n)
  {
    if n < 0 {
      NegativeRoundTrip(n);
    } else {
      DigitsRoundTrip(n);
      assert Decimal(n) == Digits(n);
    }
  }

  /** The round trip through a minus sign and the digits of -n. */
  lemma NegativeRoundTrip(n: int)
    requires n < 0
    ensures ParseDecimal(Decimal(n)) == Some(n)
  {
    var d := Digits(-n);
    DigitsRoundTrip(-n);
    var s := "-" + d;
    assert Decimal(n) == s;
    assert s[1..] == d;
    assert forall i :: 1 <= i < |s| ==> s[i] == d[i - 1];
  }

  /** sep.join(parts) */
  function JoinWith(parts: seq<string>, sep: string): string {
    if parts == [] then [] else if |parts| == 1 then parts[0] else parts[0] + sep + JoinWith(parts[1..], sep)
  }

  /** Joining one more part adds the separator and the part at the end. */
  lemma {:induction false} JoinWithSnoc(parts: seq<string>, p: string, sep: string)
    requires parts != []
    ensures JoinWith(parts + [p], sep) == JoinWith(parts, sep) + sep + p
    decreases |parts|
  {
    if |parts| == 1 {
      assert (parts + [p])[1..] == [p];
    } else {
      assert (parts + [p])[1..] == parts[1..] + [p];
      JoinWithSnoc(parts[1..], p, sep);
    }
  }

  /**
   * repr(v): strings in single quotes (the choice Python makes for text
   * without quote characters; escaping is not modelled), True/False, None,
   * and lists and dictionaries joined with ', '.
   */
  function Repr(v: Value): string
    decreases v
  {
    match v
    case VStr(s) => "'" + s + "'"
    case VInt(n) => Decimal(n)
    case VBool(b) => if b then "True" else "False"
    case VNone => "None"
    case VList(xs) => "[" + JoinWith(seq(|xs|, i requires 0 <= i < |xs| => Repr(xs[i])), ", ") + "]"
    case VDict(d) => "{" + JoinWith(seq(|d|, i requires 0 <= i < |d| => "'" + d[i].0 + "': " + Repr(d[i].1)), ", ") + "}"
  }

  /** str(v): a string is its own text; anything else is its repr. */
  function Render(v: Value): (r: string)
    ensures v.VStr? ==> r == v.s
    ensures v.VInt? ==> r == Decimal(v.n)
  {
    if v.VStr? then v.s else Repr(v)
  }

  /** '{}: {}'.format(k, v) */
  function EntryText(e: (string, Value)): string {
    e.0 + ": " + Render(e.1)
  }

  /** The flattening of add_dict_value: ', '.join('{}: {}'.format(k, v) for k, v in value.items()) */
  function FlattenEntries(d: Dict): (r: string)
    ensures d == [] ==> r == []
  {
    JoinWith(seq(|d|, i requires 0 <= i < |d| => EntryText(d[i])), ", ")
  }

  /** Flattening lists the entries in order: one more entry adds ', ' and its 'key: value' text. */
  lemma FlattenSnoc(d: Dict, e: (string, Value))
    ensures FlattenEntries([e]) == e.0 + ": " + Render(e.1)
    ensures d != [] ==> FlattenEntries(d + [e]) == FlattenEntries(d) + ", " + e.0 + ": " + Render(e.1)
  {
    var parts := seq(|d|, i requires 0 <= i < |d| => EntryText(d[i]));
    var d' := d + [e];
    assert seq(|d'|, i requires 0 <= i < |d'| => EntryText(d'[i])) == parts + [EntryText(e)];
    assert seq(1, i requires 0 <= i < 1 => EntryText([e][i])) == [EntryText(e)];
    if d != [] {
      JoinWithSnoc(parts, EntryText(e), ", ");
    }
  }

  // ---------------------------------------------------------------------------
  // build_link_from_dict

  /** What build_link_from_dict reads out of a link dictionary. */
  datatype LinkPlan = LinkPlan(caption: Value, linkType: Value, target: Value, forwarded: Dict, hasContent: bool)

  /** d.get(k), with None for a missing key. */
  function PyGet(d: Dict, k: string): (r: Value)
    ensures HasKey(d, k) ==> Get(d, k) == Some(r)
    ensures !HasKey(d, k) ==> r == VNone
  {
    if Get(d, k).Some? then Get(d, k).value else VNone
  }

  /** `a or b or ...` over dictionary lookups: the first truthy value, else the last one read (None when missing). */
  function PyOr(vs: seq<Option<Value>>): (r: Value)
    ensures Truthy(r) ==> exists i :: 0 <= i < |vs| && vs[i] == Some(r) && forall j :: 0 <= j < i ==> vs[j].None? || !Truthy(vs[j].value)
    ensures !Truthy(r) ==> forall j :: 0 <= j < |vs| ==> vs[j].None? || !Truthy(vs[j].value)
    ensures !Truthy(r) ==> r == (if vs == [] || vs[|vs| - 1].None? then VNone else vs[|vs| - 1].value)
  {
    if vs == [] then VNone
    else if vs[0].Some? && Truthy(vs[0].value) then vs[0].value
    else if |vs| == 1 then (if vs[0].Some? then vs[0].value else VNone)
    else
      var r := PyOr(vs[1..]);
      assert forall i :: 1 <= i < |vs| ==> vs[i] == vs[1..][i - 1];
      r
  }

  /**
   * build_link_from_dict's reading: the caption is the popped 'caption', else
   * 'title', 'name' or 'id'; the popped 'type' wins over the type passed in;
   * the target is the remaining 'id', else 'name' (popped only when 'id'
   * gives nothing), else 'title'; the target has content when anything else
   * remains. The dictionary passed on to the target is the one without
   * 'caption' and 'type'.
   */
  function PlanOf(obj: Dict, linkType: Value): LinkPlan {
    var forwarded := Without(Without(obj, "caption"), "type");
    var rest := if GetTruthy(forwarded, "id").Some? then Without(forwarded, "id") else Without(Without(forwarded, "id"), "name");
    LinkPlan(
      PyOr([Get(obj, "caption"), Get(obj, "title"), Get(obj, "name"), Get(obj, "id")]),
      PyOr([Get(obj, "type"), Some(linkType)]),
      PyOr([Get(forwarded, "id"), Get(forwarded, "name"), Get(obj, "title")]),
      forwarded,
      rest != [])
  }

  /** The dictionary handed on to the target is the link dictionary without its 'caption' and 'type'. */
  lemma PlanForwardsRest(obj: Dict, linkType: Value)
    ensures !HasKey(PlanOf(obj, linkType).forwarded, "caption") && !HasKey(PlanOf(obj, linkType).forwarded, "type")
    ensures forall e :: e in PlanOf(obj, linkType).forwarded <==> e in obj && e.0 != "caption" && e.0 != "type"
  {
  }

  /** A truthy 'type' in the dictionary overrides the link type passed in, which is used otherwise. */
  lemma PlanTypeWins(obj: Dict, linkType: Value)
    ensures GetTruthy(obj, "type").Some? ==> PlanOf(obj, linkType).linkType == GetTruthy(obj, "type").value
    ensures GetTruthy(obj, "type").None? ==> PlanOf(obj, linkType).linkType == linkType
  {
    var vs := [Get(obj, "type"), Some(linkType)];
    if GetTruthy(obj, "type").None? {
      assert vs[1..] == [Some(linkType)];
      assert PyOr(vs) == PyOr(vs[1..]);
    }
  }

  /** A truthy 'id' names the target and is consumed by the lookup; the target has content when anything else is left. */
  lemma PlanTargetById(obj: Dict, linkType: Value)
    requires GetTruthy(obj, "id").Some?
    ensures PlanOf(obj, linkType).target == GetTruthy(obj, "id").value
    ensures PlanOf(obj, linkType).hasContent <==> Without(Without(Without(obj, "caption"), "type"), "id") != []
  {
    GetWithout(obj, "id", "caption");
    GetWithout(Without(obj, "caption"), "id", "type");
  }

  /** With no truthy 'id', a truthy 'name' names the target, and both keys are consumed. */
  lemma PlanTargetByName(obj: Dict, linkType: Value)
    requires GetTruthy(obj, "id").None? && GetTruthy(obj, "name").Some?
    ensures PlanOf(obj, linkType).target == GetTruthy(obj, "name").value
    ensures PlanOf(obj, linkType).hasContent <==> Without(Without(Without(Without(obj, "caption"), "type"), "id"), "name") != []
  {
    GetWithout(obj, "id", "caption");
    GetWithout(Without(obj, "caption"), "id", "type");
    GetWithout(obj, "name", "caption");
    GetWithout(Without(obj, "caption"), "name", "type");
    var fw := Without(Without(obj, "caption"), "type");
    var vs := [Get(fw, "id"), Get(fw, "name"), Get(obj, "title")];
    assert vs[1..][0] == Some(GetTruthy(obj, "name").value);
    assert PyOr(vs) == PyOr(vs[1..]);
  }

  /** The name get_node looks the target up by: a string, or a dictionary's 'name' (else 'id'), which must be a string. */
  function TargetName(target: Value): (r: Result<string>)
    ensures target.VStr? ==> r == Ok(target.s)
    ensures !target.VStr? && !target.VDict? ==> r == Err(AttributeError)
    ensures r.Err? ==> r.error == AttributeError || r.error == AssertionError
  {
    match target
    case VStr(s) => Ok(s)
    case VDict(d) =>
      var n := if Get(d, "name").Some? then Get(d, "name").value else PyGet(d, "id");
      if n.VStr? then Ok(n.s) else Err(AssertionError)
    case _ => Err(AttributeError)
  }

  /** What build_link_from_dict does with the target once it is looked up. */
  datatype TargetAction = UpdateTarget | LinkOnly | CreateTarget | MissingTarget

  /**
   * An existing target takes in the forwarded dictionary when it has content
   * and update_nodes holds; a missing one is built from it when create_nodes
   * holds, and is a ValueError otherwise.
   */
  function ActionOf(plan: LinkPlan, found: bool, update: bool, create: bool): (r: TargetAction)
    ensures r == MissingTarget <==> !found && !create
    ensures r == UpdateTarget ==> found && plan.hasContent
    ensures r == CreateTarget ==> !found
    ensures found && !(plan.hasContent && update) ==> r == LinkOnly
  {
    if found then (if plan.hasContent && update then UpdateTarget else LinkOnly)
    else if create then CreateTarget
    else MissingTarget
  }

  /** A dictionary of just an 'id' and a caption links to that id and brings no content. */
  lemma IdOnlyHasNoContent(id: string, caption: string)
    requires id != []
    ensures PlanOf([("id", VStr(id)), ("caption", VStr(caption))], VNone).hasContent == false
    ensures PlanOf([("id", VStr(id)), ("caption", VStr(caption))], VNone).target == VStr(id)
  {
    var obj := [("id", VStr(id)), ("caption", VStr(caption))];
    assert Get(obj, "id") == Some(VStr(id));
    PlanTargetById(obj, VNone);
    assert Without(obj, "caption") == [("id", VStr(id))];
  }

  /** 'name' is popped only when 'id' gives nothing: beside an 'id', a 'name' counts as content. */
  lemma NameStaysBesideId(id: string, name: string)
    requires id != []
    ensures PlanOf([("id", VStr(id)), ("name", VStr(name))], VNone).hasContent
  {
    var obj := [("id", VStr(id)), ("name", VStr(name))];
    assert Get(obj, "id") == Some(VStr(id));
    PlanTargetById(obj, VNone);
    assert ("name", VStr(name)) in Without(Without(Without(obj, "caption"), "type"), "id");
  }

  // ---------------------------------------------------------------------------
  // add_link_block_from_dict

  /** The link type name of a link block dictionary: obj.get('type') or obj.get('link_type'). */
  function LinkBlockTypeName(obj: Dict): Value {
    PyOr([Get(obj, "type"), Get(obj, "link_type")])
  }

  /** The items of a link block dictionary: obj.get('items') or obj.get('list') or obj.get('links'). */
  function LinkBlockItems(obj: Dict): Value {
    PyOr([Get(obj, "items"), Get(obj, "list"), Get(obj, "links")])
  }

  /**
   * `for i in v or list()`: a list gives its elements, a string its characters
   * and a dictionary its keys; a falsy value gives nothing, and a truthy number
   * or boolean is not iterable (TypeError).
   */
  function Iterated(v: Value): (r: Result<seq<Value>>)
    ensures !Truthy(v) ==> r == Ok([])
    ensures r.Err? <==> (v.VInt? || v.VBool?) && Truthy(v)
    ensures r.Err? ==> r.error == TypeError
    ensures r.Ok? && !v.VList? ==> forall i :: 0 <= i < |r.value| ==> r.value[i].VStr?
  {
    match v
    case VList(xs) => Ok(xs)
    case VStr(s) => Ok(seq(|s|, i requires 0 <= i < |s| => VStr([s[i]])))
    case VDict(d) => Ok(seq(|d|, i requires 0 <= i < |d| => VStr(d[i].0)))
    case _ => if Truthy(v) then Err(TypeError) else Ok([])
  }

  /** The text of each value, in order; an int or bool becomes its text, where add_title keeps the raw value. */
  function Texts(vs: seq<Value>): (r: seq<string>)
    ensures |r| == |vs| && forall i :: 0 <= i < |vs| ==> r[i] == Render(vs[i])
  {
    seq(|vs|, i requires 0 <= i < |vs| => Render(vs[i]))
  }

  /** Every value is a str, an int or a bool. */
  predicate AllPrimitive(vs: seq<Value>) {
    forall i :: 0 <= i < |vs| ==> IsPrimitive(vs[i])
  }

  /** Every value is a string. */
  predicate AllStrings(vs: seq<Value>) {
    forall i :: 0 <= i < |vs| ==> vs[i].VStr?
  }

  /** Some item of a link block dictionary is itself a dictionary, which build_link_from_dict reads. */
  predicate ItemsNestLinkDict(obj: Dict) {
    var items := Iterated(LinkBlockItems(obj));
    items.Ok? && exists i :: 0 <= i < |items.value| && items.value[i].VDict?
  }

  /**
   * The paths this model does not follow: a dictionary under a link type key,
   * which build_link_from_dict reads, and a link block dictionary with a
   * dictionary among its items.
   */
  predicate NestsLinkDict(key: Value, d: Dict) {
    DictRouteOf(key).LinkDict? || (DictRouteOf(key) == LinkBlockDict && ItemsNestLinkDict(d))
  }

  /** add_key_value on the pair would reach build_link_from_dict, directly or through a list. */
  predicate ValueNestsLinkDict(key: string, value: Value) {
    match KeyValueRouteOf(key, value)
    case DictKV(k, d) => NestsLinkDict(k, d)
    case ListKV(k, xs) => exists i :: 0 <= i < |xs| && xs[i].VDict? && NestsLinkDict(VStr(k), xs[i].entries)
    case _ => false
  }

  /** Some pair of the dictionary nests a link dictionary. */
  predicate EntriesNestLinkDict(obj: Dict) {
    exists i :: 0 <= i < |obj| && ValueNestsLinkDict(obj[i].0, obj[i].1)
  }
}
