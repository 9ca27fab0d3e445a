/**
 * The knowledge graph: blocks of items, links, edges, nodes and the graph that
 * holds them (content/implementations/block.py, content/implementations/link.py,
 * knowledge/implementations/edge.py, knowledge/implementations/node.py and
 * knowledge/implementations/graph.py). The classes refer to one another, so they
 * share one module.
 *
 * Python's `assert` and `raise` become error results: a method that can fail
 * returns an Outcome or a Result, and each contract says what state the failure
 * leaves behind. Block and Link objects compare by identity, nodes by name.
 */
module Knowledge {
  import opened Wrappers
  import opened Values
  import opened Unions
  import opened EdgeTypes
  import opened BlockTypes
  import LinkTypes
  import Synonyms
  import Text
  import opened Ingestion

  // ---------------------------------------------------------------------------
  // Block items

  /** An item of a block: a text line, a link, or any other value. */
  datatype Item = Line(text: string) | LinkItem(link: Link) | Datum(value: Value)

  /** The item a parsed value becomes: strings are lines, anything else is kept as it is. */
  function ItemOf(v: Value): (r: Item)
    ensures r.Line? <==> v.VStr?
    ensures r.Line? ==> r.text == v.s
    ensures r.Datum? ==> r.value == v
  {
    if v.VStr? then Line(v.s) else Datum(v)
  }

  /** The items of a list of parsed values. */
  function ItemsOf(vs: seq<Value>): (r: seq<Item>)
    ensures |r| == |vs| && forall i :: 0 <= i < |vs| ==> r[i] == ItemOf(vs[i])
  {
    if vs == [] then [] else [ItemOf(vs[0])] + ItemsOf(vs[1..])
  }

  /**
   * A block's type: a BlockType member, or the raw value that Block.from_dict
   * stores through set_block_type without converting it.
   */
  datatype BlockTag = Known(t: BlockType) | Raw(v: Value)

  /**
   * append_item's check: Title and Info blocks take strings, Struct and Links
   * blocks take links, every other block takes anything.
   */
  predicate Accepts(tag: BlockTag, item: Item) {
    match tag
    case Known(t) =>
      if t == Title || t == Info then item.Line?
      else if t == Struct || t == Links then item.LinkItem?
      else true
    case Raw(_) => true
  }

  /**
   * add_items: the items after appending xs one by one, and the outcome; the
   * first item the block refuses stops it with AssertionError.
   */
  function Appended(tag: BlockTag, items: seq<Item>, xs: seq<Item>): (r: (seq<Item>, Outcome))
    decreases |xs|
  {
    if xs == [] then (items, Pass)
    else
      var n := |xs| - 1;
      var p := Appended(tag, items, xs[..n]);
      if p.1.Fail? then p
      else if Accepts(tag, xs[n]) then (p.0 + [xs[n]], Pass)
      else (p.0, Fail(AssertionError))
  }

  /**
   * add_items passes exactly when the block accepts every item, and then
   * appends them all; otherwise it stops with AssertionError at the first
   * refused item, having appended the items before it.
   */
  lemma {:induction false} AppendedMeaning(tag: BlockTag, items: seq<Item>, xs: seq<Item>)
    ensures var r := Appended(tag, items, xs);
      && (r.1.Pass? <==> forall i :: 0 <= i < |xs| ==> Accepts(tag, xs[i]))
      && (r.1.Pass? ==> r.0 == items + xs)
      && (r.1.Fail? ==> r.1.error == AssertionError)
      && (r.1.Fail? ==>
            exists k :: 0 <= k < |xs| && !Accepts(tag, xs[k]) && (forall i :: 0 <= i < k ==> Accepts(tag, xs[i])) && r.0 == items + xs[..k])
    decreases |xs|
  {
    if xs != [] {
      var n := |xs| - 1;
      var p := Appended(tag, items, xs[..n]);
      AppendedMeaning(tag, items, xs[..n]);
      assert forall i :: 0 <= i < n ==> xs[..n][i] == xs[i];
      if p.1.Fail? {
        var k :| 0 <= k < n && !Accepts(tag, xs[..n][k]) && (forall i :: 0 <= i < k ==> Accepts(tag, xs[..n][i])) && p.0 == items + xs[..n][..k];
        assert xs[..n][..k] == xs[..k];
      } else if Accepts(tag, xs[n]) {
        assert items + xs[..n] + [xs[n]] == items + xs;
      } else {
        assert xs[..n] == xs[..n];
      }
    }
  }

  /** A Links block accepts every link item, so add_items appends them all. */
  lemma LinkItemsAppended(links: seq<Link>)
    ensures Appended(Known(Links), [], LinkItems(links)) == (LinkItems(links), Pass)
  {
    var xs := LinkItems(links);
    AppendedMeaning(Known(Links), [], xs);
    assert forall i :: 0 <= i < |xs| ==> Accepts(Known(Links), xs[i]);
    assert [] + xs == xs;
  }

  /** add_items over one more item is add_items followed by append_item. */
  lemma AppendedSnoc(tag: BlockTag, items: seq<Item>, xs: seq<Item>, x: Item)
    ensures Appended(tag, items, xs + [x]) ==
      var p := Appended(tag, items, xs);
      if p.1.Fail? then p else if Accepts(tag, x) then (p.0 + [x], Pass) else (p.0, Fail(AssertionError))
  {
    assert (xs + [x])[..|xs|] == xs;
  }

  /**
   * merge_block's item loop: each item of theirs, in order, is appended through
   * append_item unless it is already present; a refused item stops it with
   * AssertionError.
   */
  function MergeInto(tag: BlockTag, mine: seq<Item>, theirs: seq<Item>): (r: (seq<Item>, Outcome))
    ensures |r.0| >= |mine| && r.0[..|mine|] == mine
    ensures r.1.Pass? ==> r.0 == Union(mine, theirs)
    ensures r.1.Fail? ==> r.1.error == AssertionError
    decreases |theirs|
  {
    if theirs == [] then (mine, Pass)
    else
      var n := |theirs| - 1;
      var p := MergeInto(tag, mine, theirs[..n]);
      if p.1.Fail? then p
      else if theirs[n] in p.0 then p
      else if Accepts(tag, theirs[n]) then
        assert (p.0 + [theirs[n]])[..|mine|] == p.0[..|mine|];
        (p.0 + [theirs[n]], Pass)
      else (p.0, Fail(AssertionError))
  }

  /** merge_block's loop over one more item. */
  lemma MergeIntoSnoc(tag: BlockTag, mine: seq<Item>, theirs: seq<Item>, x: Item)
    ensures MergeInto(tag, mine, theirs + [x]) ==
      var p := MergeInto(tag, mine, theirs);
      if p.1.Fail? then p
      else if x in p.0 then p
      else if Accepts(tag, x) then (p.0 + [x], Pass)
      else (p.0, Fail(AssertionError))
  {
    assert (theirs + [x])[..|theirs|] == theirs;
  }

  /** Item k of theirs is neither among mine nor accepted by the block. */
  ghost predicate RefusedAt(tag: BlockTag, mine: seq<Item>, theirs: seq<Item>, k: int) {
    0 <= k < |theirs| && theirs[k] !in mine && !Accepts(tag, theirs[k])
  }

  /** Every item of theirs before k is among mine or accepted by the block. */
  ghost predicate AcceptedBefore(tag: BlockTag, mine: seq<Item>, theirs: seq<Item>, k: int) {
    forall i :: 0 <= i < k && i < |theirs| ==> theirs[i] in mine || Accepts(tag, theirs[i])
  }

  /**
   * The merge fails exactly when some item of theirs is refused and is not
   * already among mine; when it fails, it stopped at the first such item.
   */
  lemma {:induction false} MergeIntoFails(tag: BlockTag, mine: seq<Item>, theirs: seq<Item>)
    ensures MergeInto(tag, mine, theirs).1.Fail? <==> exists k :: RefusedAt(tag, mine, theirs, k)
    ensures MergeInto(tag, mine, theirs).1.Fail? ==>
      exists k :: RefusedAt(tag, mine, theirs, k) && AcceptedBefore(tag, mine, theirs, k) &&
        MergeInto(tag, mine, theirs).0 == Union(mine, theirs[..k])
    decreases |theirs|
  {
    if theirs != [] {
      var n := |theirs| - 1;
      MergeIntoFails(tag, mine, theirs[..n]);
      if MergeInto(tag, mine, theirs[..n]).1.Fail? {
        MergeIntoFailsEarly(tag, mine, theirs);
      } else {
        MergeIntoFailsLast(tag, mine, theirs);
      }
    }
  }

  /** The step of MergeIntoFails when the merge had already failed before the last item. */
  lemma MergeIntoFailsEarly(tag: BlockTag, mine: seq<Item>, theirs: seq<Item>)
    requires theirs != []
    requires
      var xs := theirs[..|theirs| - 1];
      exists k :: RefusedAt(tag, mine, xs, k) && AcceptedBefore(tag, mine, xs, k) &&
        MergeInto(tag, mine, xs).0 == Union(mine, xs[..k])
    requires MergeInto(tag, mine, theirs[..|theirs| - 1]).1.Fail?
    ensures MergeInto(tag, mine, theirs).1.Fail?
    ensures
      exists k :: RefusedAt(tag, mine, theirs, k) && AcceptedBefore(tag, mine, theirs, k) &&
        MergeInto(tag, mine, theirs).0 == Union(mine, theirs[..k])
  {
    var n := |theirs| - 1;
    var xs := theirs[..n];
    var k :| RefusedAt(tag, mine, xs, k) && AcceptedBefore(tag, mine, xs, k) &&
      MergeInto(tag, mine, xs).0 == Union(mine, xs[..k]);
    PrefixOfPrefix(theirs, n, k);
    assert RefusedAt(tag, mine, theirs, k);
    forall i | 0 <= i < k ensures theirs[i] in mine || Accepts(tag, theirs[i]) {
      assert xs[i] == theirs[i];
    }
  }

  /** The step of MergeIntoFails when the merge passed up to the last item. */
  lemma MergeIntoFailsLast(tag: BlockTag, mine: seq<Item>, theirs: seq<Item>)
    requires theirs != []
    requires MergeInto(tag, mine, theirs[..|theirs| - 1]).1.Pass?
    ensures MergeInto(tag, mine, theirs).1.Fail? <==> exists k :: RefusedAt(tag, mine, theirs, k)
    ensures MergeInto(tag, mine, theirs).1.Fail? ==>
      RefusedAt(tag, mine, theirs, |theirs| - 1) && AcceptedBefore(tag, mine, theirs, |theirs| - 1) &&
      MergeInto(tag, mine, theirs).0 == Union(mine, theirs[..|theirs| - 1])
  {
    var n := |theirs| - 1;
    var xs := theirs[..n];
    var last := theirs[n];
    var p := MergeInto(tag, mine, xs);
    assert p.0 == Union(mine, xs);
    RefusedNotMerged(tag, mine, xs);
    forall i | 0 <= i < n ensures theirs[i] in mine || Accepts(tag, theirs[i]) {
      assert xs[i] == theirs[i];
    }
    if last !in p.0 && !Accepts(tag, last) {
      assert MergeInto(tag, mine, theirs) == (p.0, Fail(AssertionError));
      assert last !in mine by { assert p.0[..|mine|] == mine; }
      assert RefusedAt(tag, mine, theirs, n);
    } else {
      assert MergeInto(tag, mine, theirs).1 == Pass;
      assert last in mine || Accepts(tag, last);
      forall k | 0 <= k < |theirs| ensures !RefusedAt(tag, mine, theirs, k) {
      }
    }
  }

  /** A merge that passed appended only accepted items. */
  lemma {:induction false} RefusedNotMerged(tag: BlockTag, mine: seq<Item>, theirs: seq<Item>)
    requires MergeInto(tag, mine, theirs).1.Pass?
    ensures forall i :: 0 <= i < |theirs| ==> theirs[i] in mine || Accepts(tag, theirs[i])
    ensures forall x :: x in Union(mine, theirs) && x !in mine ==> Accepts(tag, x)
    decreases |theirs|
  {
    if theirs != [] {
      var n := |theirs| - 1;
      var xs := theirs[..n];
      assert theirs == xs + [theirs[n]];
      MergeIntoSnoc(tag, mine, xs, theirs[n]);
      RefusedNotMerged(tag, mine, xs);
      UnionSnoc(mine, xs, theirs[n]);
      assert forall i :: 0 <= i < n ==> xs[i] == theirs[i];
    }
  }

  /** When every item of theirs is already present, merging changes nothing and passes. */
  lemma {:induction false} MergeIntoPresent(tag: BlockTag, mine: seq<Item>, theirs: seq<Item>)
    requires forall i :: 0 <= i < |theirs| ==> theirs[i] in mine
    ensures MergeInto(tag, mine, theirs) == (mine, Pass)
    decreases |theirs|
  {
    if theirs != [] {
      var n := |theirs| - 1;
      MergeIntoPresent(tag, mine, theirs[..n]);
      MergeIntoSnoc(tag, mine, theirs[..n], theirs[n]);
      assert theirs[..n] + [theirs[n]] == theirs;
    }
  }

  /** Merging the same block twice gives what merging it once gives. */
  lemma MergeIntoIdempotent(tag: BlockTag, mine: seq<Item>, theirs: seq<Item>)
    requires MergeInto(tag, mine, theirs).1.Pass?
    ensures MergeInto(tag, MergeInto(tag, mine, theirs).0, theirs) == MergeInto(tag, mine, theirs)
  {
    MergeIntoPresent(tag, Union(mine, theirs), theirs);
  }

  /** The items a merge appends are pairwise distinct and none was present before. */
  lemma MergeIntoAppendsFresh(tag: BlockTag, mine: seq<Item>, theirs: seq<Item>)
    ensures var r := MergeInto(tag, mine, theirs).0;
      Distinct(r[|mine|..]) && forall i :: |mine| <= i < |r| ==> r[i] !in mine
  {
    MergeIntoFails(tag, mine, theirs);
    if MergeInto(tag, mine, theirs).1.Fail? {
      var k :| RefusedAt(tag, mine, theirs, k) && AcceptedBefore(tag, mine, theirs, k) &&
        MergeInto(tag, mine, theirs).0 == Union(mine, theirs[..k]);
      UnionAppendsFresh(mine, theirs[..k]);
    } else {
      UnionAppendsFresh(mine, theirs);
    }
  }

  /** The links among the items, in order (get_outgoing_links_iter). */
  function LinksIn(items: seq<Item>): (r: seq<Link>)
    ensures |r| <= |items|
    ensures forall i :: 0 <= i < |r| ==> LinkItem(r[i]) in items
    ensures forall i :: 0 <= i < |items| && items[i].LinkItem? ==> items[i].link in r
    ensures (forall i :: 0 <= i < |items| ==> !items[i].LinkItem?) ==> r == []
  {
    if items == [] then []
    else
      var rest := LinksIn(items[1..]);
      assert forall i :: 1 <= i < |items| ==> items[i] == items[1..][i - 1];
      if items[0].LinkItem? then [items[0].link] + rest else rest
  }

  /** The links of two item lists one after the other, so the links keep the items' order. */
  lemma {:induction false} LinksInAppend(a: seq<Item>, b: seq<Item>)
    ensures LinksIn(a + b) == LinksIn(a) + LinksIn(b)
    decreases |a|
  {
    if a == [] {
      assert a + b == b;
    } else {
      assert (a + b)[1..] == a[1..] + b;
      LinksInAppend(a[1..], b);
    }
  }

  /** The items of a sequence of links. */
  function LinkItems(links: seq<Link>): (r: seq<Item>)
    ensures |r| == |links| && forall i :: 0 <= i < |links| ==> r[i] == LinkItem(links[i])
  {
    if links == [] then [] else [LinkItem(links[0])] + LinkItems(links[1..])
  }

  /** The type of each link, in order. */
  function TypesOf(links: seq<Link>): (r: seq<LinkType>)
    reads links
    ensures |r| == |links| && forall i :: 0 <= i < |links| ==> r[i] == links[i].Type()
  {
    if links == [] then [] else [links[0].Type()] + TypesOf(links[1..])
  }

  /** The distinct elements of types in first-seen order, collected by a scan. */
  method FirstSeen(types: seq<LinkType>) returns (r: seq<LinkType>)
    ensures r == Union([], types)
  {
    r := [];
    var i := 0;
    while i < |types|
      invariant 0 <= i <= |types|
      invariant r == Union([], types[..i])
    {
      UnionLoopStep([], types, i, r);
      if types[i] !in r {
        r := r + [types[i]];
      }
      i := i + 1;
    }
    assert types[..i] == types;
  }

  /** BLOCK_KEYS_SYNONYMS */
  const BlockKeysSynonyms: Synonyms.Table := [
    ["title", "caption"],
    ["type", "block_type"],
    ["items", "node", "node", "nodes", "content", "list", "struct"],
    ["anchor", "bookmark"]
  ]

  /**
   * The block type the constructor settles on: a string by exact value (so
   * "struct" is accepted), a member as it is, a falsy value as Info; anything
   * else fails the constructor's isinstance assertion.
   */
  function InitialType(arg: TypeArg<BlockType>): (r: Result<BlockType>)
    ensures arg.Str? ==> (r.Ok? <==> exists t: BlockType :: BlockValue(t) == arg.s)
    ensures arg.Str? && r.Ok? ==> BlockValue(r.value) == arg.s
    ensures arg.Str? && r.Err? ==> r.error == ValueError
    ensures arg.Member? ==> r == Ok(arg.member)
    ensures arg.Absent? ==> r == Ok(Info)
    ensures arg.Foreign? ==> r == Err(AssertionError)
  {
    match arg
    case Str(s) => BlockFromValue(s)
    case Member(t) => Ok(t)
    case Absent => Ok(Info)
    case Foreign => Err(AssertionError)
  }

  /** The constructor accepts "struct", which the synonym lookup get_type refuses. */
  lemma StructByValueOnly()
    ensures InitialType(Str("struct")) == Ok(Struct)
    ensures BlockTypes.GetType(Str("struct"), false) == Err(ValueError)
  {
    BlockTypes.StructNotResolvable(false);
  }

  /** The LinkType an anchor names, when it is a string in LINK_TYPE_SYNONYMS. */
  function AnchorType(anchor: Value): (r: Option<LinkType>)
    ensures r.Some? <==> anchor.VStr? && Synonyms.Listed(anchor.s, LinkTypes.LinkTypeSynonyms)
    ensures r.Some? ==> LinkTypes.GetType(Str(anchor.s), false) == Ok(Some(r.value))
  {
    if anchor.VStr? && LinkTypes.HasType(Str(anchor.s)) then
      LinkTypes.HasTypeIffGetType(anchor.s, false);
      Some(LinkTypes.GetType(Str(anchor.s), false).value.value)
    else None
  }

  /**
   * get_links_type over an anchor and the types of the block's links: the
   * anchor's type, else the first distinct link type, else Reference.
   */
  function LinksTypeOf(anchor: Value, types: seq<LinkType>): (r: LinkType)
    ensures AnchorType(anchor).Some? ==> r == AnchorType(anchor).value
    ensures AnchorType(anchor).None? && types != [] ==> r == types[0]
    ensures AnchorType(anchor).None? && types == [] ==> r == Reference
  {
    UnionStartsWithFirst(types);
    if AnchorType(anchor).Some? then AnchorType(anchor).value
    else
      var distinct := Union([], types);
      if distinct != [] then distinct[0] else LinkTypes.Default()
  }

  // ---------------------------------------------------------------------------
  // Block.from_dict

  /** The four fields of a block. */
  datatype BlockFields = BlockFields(title: Value, tag: BlockTag, items: seq<Item>, anchor: Value)

  /** Block(): no title, Info, no items, no anchor. */
  const EmptyFields: BlockFields := BlockFields(VNone, Known(Info), [], VNone)

  /**
   * One (key, value) pair of Block.from_dict: the key is canonicalised (an
   * unknown key is a ValueError), a truthy title, type or anchor is stored
   * as it is, and items go through add_items (a list) or append_item.
   */
  function ReadEntry(f: BlockFields, k: string, v: Value): Result<BlockFields> {
    match Synonyms.CanonicSynonym(k, BlockKeysSynonyms, false)
    case Err(e) => Err(e)
    case Ok(h) =>
      var key := if h.Some? then h.value else k;
      if key == "title" then Ok(if Truthy(v) then f.(title := v) else f)
      else if key == "type" then Ok(if Truthy(v) then f.(tag := Raw(v)) else f)
      else if key == "anchor" then Ok(if Truthy(v) then f.(anchor := v) else f)
      else if key == "items" then
        var p := Appended(f.tag, f.items, ItemsOfEntry(v));
        if p.1.Fail? then Err(AssertionError) else Ok(f.(items := p.0))
      else Ok(f)
  }

  /**
   * A pair fails exactly for an unknown key (ValueError) or for items the
   * block refuses (AssertionError); only a truthy 'type' changes the type.
   */
  lemma ReadEntryOutcome(f: BlockFields, k: string, v: Value)
    ensures var r := ReadEntry(f, k, v);
      && (r.Err? <==> (!Synonyms.Listed(k, BlockKeysSynonyms) ||
           (CanonicSynonymOf(k) == "items" && Appended(f.tag, f.items, ItemsOfEntry(v)).1.Fail?)))
      && (r.Err? ==> r.error == (if Synonyms.Listed(k, BlockKeysSynonyms) then AssertionError else ValueError))
      && (r.Ok? ==> r.value.tag == (if CanonicSynonymOf(k) == "type" && Truthy(v) then Raw(v) else f.tag))
  {
  }

  /** The canonical block key of a listed key. */
  function CanonicSynonymOf(k: string): string {
    match Synonyms.CanonicSynonym(k, BlockKeysSynonyms, false)
    case Ok(Some(h)) => h
    case _ => k
  }

  /** The items an 'items' value contributes: each element of a list, or the value itself. */
  function ItemsOfEntry(v: Value): (r: seq<Item>)
    ensures v.VList? ==> r == ItemsOf(v.elements)
    ensures !v.VList? ==> r == [ItemOf(v)]
  {
    if v.VList? then ItemsOf(v.elements) else [ItemOf(v)]
  }

  /** Block.from_dict over the entries in order, stopping at the first error. */
  function ReadBlockDict(obj: Dict): (r: Result<BlockFields>)
    decreases |obj|
  {
    if obj == [] then Ok(EmptyFields)
    else
      var n := |obj| - 1;
      match ReadBlockDict(obj[..n])
      case Err(e) => Err(e)
      case Ok(f) => ReadEntry(f, obj[n].0, obj[n].1)
  }

  /**
   * from_dict stores a 'type' value as it is, never as a BlockType member, so
   * the block it reads is an Info block or one of a raw type, never a Links
   * block (add_dict_value's test for a Links block read this way never holds).
   */
  lemma {:induction false} ReadBlockDictNeverLinks(obj: Dict)
    ensures ReadBlockDict(obj).Ok? ==> ReadBlockDict(obj).value.tag == Known(Info) || ReadBlockDict(obj).value.tag.Raw?
    decreases |obj|
  {
    if obj != [] {
      var n := |obj| - 1;
      ReadBlockDictNeverLinks(obj[..n]);
      if ReadBlockDict(obj[..n]).Ok? {
        ReadEntryOutcome(ReadBlockDict(obj[..n]).value, obj[n].0, obj[n].1);
      }
    }
  }

  /** from_dict over one more pair. */
  lemma ReadBlockDictSnoc(xs: Dict, p: (string, Value))
    ensures ReadBlockDict(xs).Err? ==> ReadBlockDict(xs + [p]) == ReadBlockDict(xs)
    ensures ReadBlockDict(xs).Ok? ==> ReadBlockDict(xs + [p]) == ReadEntry(ReadBlockDict(xs).value, p.0, p.1)
  {
    assert (xs + [p])[..|xs|] == xs;
  }

  /** from_dict on a prefix of one more pair. */
  lemma ReadBlockDictPrefixStep(obj: Dict, i: int)
    requires 0 <= i < |obj|
    ensures ReadBlockDict(obj[..i]).Ok? ==>
      ReadBlockDict(obj[..i + 1]) == ReadEntry(ReadBlockDict(obj[..i]).value, obj[i].0, obj[i].1)
  {
    assert obj[..i + 1][..i] == obj[..i];
  }

  /** A prefix on which from_dict fails decides the whole dictionary. */
  lemma ReadBlockDictErrPrefix(obj: Dict, n: int)
    requires 0 <= n <= |obj| && ReadBlockDict(obj[..n]).Err?
    ensures ReadBlockDict(obj) == ReadBlockDict(obj[..n])
  {
    ReadBlockDictStops(obj[..n], obj[n..]);
    assert obj[..n] + obj[n..] == obj;
  }

  /** from_dict raises ValueError for a key outside BLOCK_KEYS_SYNONYMS, and only for such a key. */
  lemma {:induction false} UnknownBlockKey(obj: Dict)
    ensures (exists i :: 0 <= i < |obj| && !Synonyms.Listed(obj[i].0, BlockKeysSynonyms)) ==> ReadBlockDict(obj).Err?
    ensures ReadBlockDict(obj) == Err(ValueError) ==> exists i :: 0 <= i < |obj| && !Synonyms.Listed(obj[i].0, BlockKeysSynonyms)
    ensures ReadBlockDict(obj).Err? ==> ReadBlockDict(obj).error in {ValueError, AssertionError}
    decreases |obj|
  {
    if obj != [] {
      var n := |obj| - 1;
      UnknownBlockKey(obj[..n]);
      assert obj == obj[..n] + [obj[n]];
      ReadBlockDictSnoc(obj[..n], obj[n]);
      if ReadBlockDict(obj[..n]).Ok? {
        ReadEntryOutcome(ReadBlockDict(obj[..n]).value, obj[n].0, obj[n].1);
      }
      assert forall i :: 0 <= i < n ==> obj[..n][i] == obj[i];
    }
  }

  /** A pair under a title, type or anchor key leaves the items alone. */
  lemma ItemlessEntry(f: BlockFields, k: string, v: Value)
    requires k in {"title", "caption", "type", "block_type", "anchor", "bookmark"}
    ensures ReadEntry(f, k, v).Ok? && ReadEntry(f, k, v).value.items == f.items
  {
    var i := if k in {"title", "caption"} then 0 else if k in {"type", "block_type"} then 1 else 3;
    assert Synonyms.IsFirstGroup(k, BlockKeysSynonyms, i);
    Synonyms.FirstGroupGivesHead(k, BlockKeysSynonyms, i, false);
  }

  /** A dictionary of captions, types and anchors alone gives an item-less block. */
  lemma {:induction false} ItemlessBlockDict(obj: Dict)
    requires forall i :: 0 <= i < |obj| ==> obj[i].0 in {"title", "caption", "type", "block_type", "anchor", "bookmark"}
    ensures ReadBlockDict(obj).Ok? && ReadBlockDict(obj).value.items == []
    decreases |obj|
  {
    if obj != [] {
      var n := |obj| - 1;
      assert obj == obj[..n] + [obj[n]];
      assert forall i :: 0 <= i < n ==> obj[..n][i] == obj[i];
      ItemlessBlockDict(obj[..n]);
      ReadBlockDictSnoc(obj[..n], obj[n]);
      ItemlessEntry(ReadBlockDict(obj[..n]).value, obj[n].0, obj[n].1);
    }
  }

  // ---------------------------------------------------------------------------
  // Block

  /** A titled, typed, ordered list of items with an optional anchor. */
  class Block {
    var title: Value
    const tag: BlockTag
    var items: seq<Item>
    var anchor: Value

    constructor (title: Value, tag: BlockTag, items: seq<Item>, anchor: Value)
      ensures this.title == title && this.tag == tag && this.items == items && this.anchor == anchor
    {
      this.title := title;
      this.tag := tag;
      this.items := items;
      this.anchor := anchor;
    }

    /**
     * Block(title, block_type, items, anchor): the title must be a string or
     * absent, the block type is settled by InitialType, and the items are
     * taken without append_item's check.
     */
    static method Build(title: Value, blockType: TypeArg<BlockType>, items: seq<Item>, anchor: Value) returns (r: Result<Block>)
      ensures !(title.VStr? || title.VNone?) ==> r == Err(AssertionError)
      ensures (title.VStr? || title.VNone?) ==> (r.Ok? <==> InitialType(blockType).Ok?)
      ensures (title.VStr? || title.VNone?) && r.Err? ==> r.error == InitialType(blockType).error
      ensures r.Ok? ==> (fresh(r.value) && r.value.title == title && r.value.tag == Known(InitialType(blockType).value) &&
        r.value.items == items && r.value.anchor == anchor)
    {
      if !(title.VStr? || title.VNone?) {
        return Err(AssertionError);
      }
      match InitialType(blockType)
      case Err(e) => r := Err(e);
      case Ok(t) =>
        var b := new Block(title, Known(t), items, anchor);
        r := Ok(b);
    }

    /** append_item: the item goes at the end when the block's type accepts it. */
    method AppendItem(item: Item) returns (o: Outcome)
      modifies this
      ensures o == (if Accepts(tag, item) then Pass else Fail(AssertionError))
      ensures items == (if o.Pass? then old(items) + [item] else old(items))
      ensures title == old(title) && anchor == old(anchor)
    {
      if Accepts(tag, item) {
        items := items + [item];
        o := Pass;
      } else {
        o := Fail(AssertionError);
      }
    }

    /** add_items: append_item on each item in order, up to the first refusal. */
    method AddItems(xs: seq<Item>) returns (o: Outcome)
      modifies this
      ensures (items, o) == Appended(tag, old(items), xs)
      ensures title == old(title) && anchor == old(anchor)
    {
      var i := 0;
      o := Pass;
      while i < |xs|
        invariant 0 <= i <= |xs|
        invariant o == Pass && (items, Pass) == Appended(tag, old(items), xs[..i])
        invariant title == old(title) && anchor == old(anchor)
      {
        AppendedSnoc(tag, old(items), xs[..i], xs[i]);
        assert xs[..i + 1] == xs[..i] + [xs[i]];
        o := AppendItem(xs[i]);
        if o.Fail? {
          assert xs[..i + 1] + xs[i + 1..] == xs;
          AppendedStops(tag, old(items), xs[..i + 1], xs[i + 1..]);
          return;
        }
        i := i + 1;
      }
      assert xs[..i] == xs;
    }

    /**
     * merge_block: the blocks must have the same type; a truthy title and a
     * truthy anchor of the other block replace this block's, and the other
     * block's items are merged in order, skipping those already present.
     */
    method MergeBlock(other: Block) returns (o: Outcome)
      modifies this
      ensures other.tag != tag ==> o == Fail(AssertionError) && items == old(items) && title == old(title) && anchor == old(anchor)
      ensures other.tag == tag ==> (items, o) == MergeInto(tag, old(items), old(other.items))
      ensures other.tag == tag ==> title == (if Truthy(old(other.title)) then old(other.title) else old(title))
      ensures other.tag == tag ==> anchor == (if Truthy(old(other.anchor)) then old(other.anchor) else old(anchor))
    {
      if other.tag != tag {
        return Fail(AssertionError);
      }
      var theirs := other.items;
      if Truthy(other.title) {
        title := other.title;
      }
      if Truthy(other.anchor) {
        anchor := other.anchor;
      }
      o := MergeItems(theirs);
    }

    /** merge_block's item loop: each item not yet present goes through append_item. */
    method MergeItems(theirs: seq<Item>) returns (o: Outcome)
      modifies this
      ensures (items, o) == MergeInto(tag, old(items), theirs)
      ensures title == old(title) && anchor == old(anchor)
    {
      var i := 0;
      o := Pass;
      while i < |theirs|
        invariant 0 <= i <= |theirs|
        invariant o == Pass && (items, Pass) == MergeInto(tag, old(items), theirs[..i])
        invariant title == old(title) && anchor == old(anchor)
      {
        o := MergeItem(theirs, i, old(items));
        if o.Fail? {
          return;
        }
        i := i + 1;
      }
      assert theirs[..i] == theirs;
    }

    /** Turn i of merge_block's item loop, with the block's items before the merge. */
    method MergeItem(theirs: seq<Item>, i: int, ghost mine: seq<Item>) returns (o: Outcome)
      requires 0 <= i < |theirs| && MergeInto(tag, mine, theirs[..i]) == (items, Pass)
      modifies this
      ensures o.Pass? ==> MergeInto(tag, mine, theirs[..i + 1]) == (items, Pass)
      ensures o.Fail? ==> MergeInto(tag, mine, theirs) == (items, o)
      ensures title == old(title) && anchor == old(anchor)
    {
      MergeIntoStep(tag, mine, theirs, i, items);
      o := Pass;
      if theirs[i] !in items {
        o := AppendItem(theirs[i]);
      }
    }

    /** get_outgoing_links_iter: the links among the items, in order. */
    function OutgoingLinks(): (r: seq<Link>)
      reads this
      ensures forall i :: 0 <= i < |r| ==> LinkItem(r[i]) in items
      ensures forall i :: 0 <= i < |items| && items[i].LinkItem? ==> items[i].link in r
    {
      LinksIn(items)
    }

    /** The links come in the order of the items: those of a prefix, then those of the rest. */
    lemma OutgoingLinksInOrder(a: seq<Item>, b: seq<Item>)
      requires items == a + b
      ensures OutgoingLinks() == LinksIn(a) + LinksIn(b)
    {
      LinksInAppend(a, b);
    }

    /** get_link_types: the distinct types of the block's links, in first-seen order. */
    method DistinctLinkTypes() returns (r: seq<LinkType>)
      ensures r == Union([], TypesOf(OutgoingLinks()))
      ensures Distinct(r)
      ensures forall i :: 0 <= i < |OutgoingLinks()| ==> OutgoingLinks()[i].Type() in r
    {
      var types := TypesOf(OutgoingLinks());
      r := FirstSeen(types);
      UnionDistinct([], types);
    }

    /**
     * get_links_type: the LinkType the anchor names, else the first of the
     * block's distinct link types, else Reference.
     */
    method LinksType() returns (r: LinkType)
      ensures r == LinksTypeOf(anchor, TypesOf(OutgoingLinks()))
    {
      var a := AnchorType(anchor);
      if a.Some? {
        return a.value;
      }
      var types := DistinctLinkTypes();
      if types != [] {
        r := types[0];
      } else {
        r := LinkTypes.Default();
      }
    }

    /**
     * Block.from_dict: a fresh Block() updated by each (key, value) pair in
     * order; the first unknown key (ValueError) or refused item
     * (AssertionError) ends it.
     */
    static method FromDict(obj: Dict) returns (r: Result<Block>)
      ensures r.Ok? <==> ReadBlockDict(obj).Ok?
      ensures r.Err? ==> r.error == ReadBlockDict(obj).error
      ensures r.Ok? ==> (fresh(r.value) &&
        BlockFields(r.value.title, r.value.tag, r.value.items, r.value.anchor) == ReadBlockDict(obj).value)
    {
      var fields := ReadFields(obj);
      match fields
      case Err(e) => r := Err(e);
      case Ok(f) =>
        var b := new Block(f.title, f.tag, f.items, f.anchor);
        r := Ok(b);
    }

    /** from_dict's loop over the pairs, on the fields of the block under construction. */
    static method ReadFields(obj: Dict) returns (r: Result<BlockFields>)
      ensures r == ReadBlockDict(obj)
    {
      var f := EmptyFields;
      var i := 0;
      while i < |obj|
        invariant 0 <= i <= |obj|
        invariant ReadBlockDict(obj[..i]) == Ok(f)
      {
        ReadBlockDictPrefixStep(obj, i);
        var step := ReadPair(f, obj[i].0, obj[i].1);
        if step.Err? {
          ReadBlockDictErrPrefix(obj, i + 1);
          return step;
        }
        f := step.value;
        i := i + 1;
      }
      assert obj[..i] == obj;
      r := Ok(f);
    }

    /** One pair of from_dict, with add_items run as a loop. */
    static method ReadPair(f: BlockFields, k: string, v: Value) returns (r: Result<BlockFields>)
      ensures r == ReadEntry(f, k, v)
    {
      var c := Synonyms.CanonicSynonym(k, BlockKeysSynonyms, false);
      if c.Err? {
        return Err(c.error);
      }
      var key := if c.value.Some? then c.value.value else k;
      if key == "title" {
        r := Ok(if Truthy(v) then f.(title := v) else f);
      } else if key == "type" {
        r := Ok(if Truthy(v) then f.(tag := Raw(v)) else f);
      } else if key == "anchor" {
        r := Ok(if Truthy(v) then f.(anchor := v) else f);
      } else if key == "items" {
        var items, o := AppendAll(f.tag, f.items, ItemsOfEntry(v));
        r := if o.Fail? then Err(AssertionError) else Ok(f.(items := items));
      } else {
        r := Ok(f);
      }
    }

    /** add_items on a block under construction. */
    static method AppendAll(tag: BlockTag, items: seq<Item>, xs: seq<Item>) returns (r: seq<Item>, o: Outcome)
      ensures (r, o) == Appended(tag, items, xs)
    {
      r, o := items, Pass;
      var i := 0;
      while i < |xs|
        invariant 0 <= i <= |xs|
        invariant (r, Pass) == Appended(tag, items, xs[..i])
      {
        AppendedSnoc(tag, items, xs[..i], xs[i]);
        assert xs[..i + 1] == xs[..i] + [xs[i]];
        if !Accepts(tag, xs[i]) {
          assert xs[..i + 1] + xs[i + 1..] == xs;
          AppendedStops(tag, items, xs[..i + 1], xs[i + 1..]);
          return r, Fail(AssertionError);
        }
        r := r + [xs[i]];
        i := i + 1;
      }
      assert xs[..i] == xs;
    }
  }

  /** Once add_items has failed, further items change nothing. */
  lemma {:induction false} AppendedStops(tag: BlockTag, items: seq<Item>, xs: seq<Item>, ys: seq<Item>)
    requires Appended(tag, items, xs).1.Fail?
    ensures Appended(tag, items, xs + ys) == Appended(tag, items, xs)
    decreases |ys|
  {
    if ys == [] {
      assert xs + ys == xs;
    } else {
      var n := |ys| - 1;
      AppendedStops(tag, items, xs, ys[..n]);
      assert xs + ys == (xs + ys[..n]) + [ys[n]];
      AppendedSnoc(tag, items, xs + ys[..n], ys[n]);
    }
  }

  /**
   * One turn of merge_block's loop: from the items merged so far, item i is
   * skipped when present, appended when accepted, and otherwise ends the
   * whole merge with AssertionError.
   */
  lemma MergeIntoStep(tag: BlockTag, mine: seq<Item>, theirs: seq<Item>, i: int, items: seq<Item>)
    requires 0 <= i < |theirs| && MergeInto(tag, mine, theirs[..i]) == (items, Pass)
    ensures theirs[i] in items ==> MergeInto(tag, mine, theirs[..i + 1]) == (items, Pass)
    ensures theirs[i] !in items && Accepts(tag, theirs[i]) ==> MergeInto(tag, mine, theirs[..i + 1]) == (items + [theirs[i]], Pass)
    ensures theirs[i] !in items && !Accepts(tag, theirs[i]) ==> MergeInto(tag, mine, theirs) == (items, Fail(AssertionError))
  {
    MergeIntoSnoc(tag, mine, theirs[..i], theirs[i]);
    assert theirs[..i + 1] == theirs[..i] + [theirs[i]];
    if theirs[i] !in items && !Accepts(tag, theirs[i]) {
      assert theirs[..i + 1] + theirs[i + 1..] == theirs;
      MergeIntoStops(tag, mine, theirs[..i + 1], theirs[i + 1..]);
    }
  }

  /** Once the merge has failed, further items change nothing. */
  lemma {:induction false} MergeIntoStops(tag: BlockTag, mine: seq<Item>, xs: seq<Item>, ys: seq<Item>)
    requires MergeInto(tag, mine, xs).1.Fail?
    ensures MergeInto(tag, mine, xs + ys) == MergeInto(tag, mine, xs)
    decreases |ys|
  {
    if ys == [] {
      assert xs + ys == xs;
    } else {
      var n := |ys| - 1;
      MergeIntoStops(tag, mine, xs, ys[..n]);
      assert xs + ys == (xs + ys[..n]) + [ys[n]];
      MergeIntoSnoc(tag, mine, xs + ys[..n], ys[n]);
    }
  }

  /** Once from_dict has failed, further pairs change nothing. */
  lemma {:induction false} ReadBlockDictStops(xs: Dict, ys: Dict)
    requires ReadBlockDict(xs).Err?
    ensures ReadBlockDict(xs + ys) == ReadBlockDict(xs)
    decreases |ys|
  {
    if ys == [] {
      assert xs + ys == xs;
    } else {
      var n := |ys| - 1;
      ReadBlockDictStops(xs, ys[..n]);
      assert xs + ys == (xs + ys[..n]) + [ys[n]];
      assert (xs + ys)[..|xs + ys| - 1] == xs + ys[..n];
    }
  }

  // ---------------------------------------------------------------------------
  // Graph

  /** An edge's key: the names of its ends and the value of its type. */
  type EdgeKey = (string, string, string)

  /** A node given as an object or by a name or title (the Node | str arguments). */
  datatype NodeArg = ByNode(node: Node) | ByName(name: string)

  /** cs.get_name on a node argument. */
  function ArgName(arg: NodeArg): string
    reads if arg.ByNode? then {arg.node} else {}
  {
    match arg
    case ByNode(n) => n.Name()
    case ByName(s) => s
  }

  /** An edge given by its key or as an object (drop_edge's argument). */
  datatype EdgeRef = ByKey(key: EdgeKey) | ByEdge(edge: Edge)

  /** A dictionary whose keys are listed, once each, by an ordering has as many entries as the ordering. */
  lemma OrderSize<K, V>(m: map<K, V>, order: seq<K>)
    requires Distinct(order) && forall k :: k in m <==> k in order
    ensures |m| == |order|
  {
    assert m.Keys == Elements(order) by {
      forall k | k in Elements(order) ensures k in m.Keys {
        var i :| 0 <= i < |order| && order[i] == k;
      }
    }
    DistinctElements(order);
  }

  /**
   * The graph: nodes by name and edges by key, each dictionary with its
   * insertion order (the source keeps one such graph as a singleton).
   */
  class Graph {
    /** The node names in insertion order. */
    var names: seq<string>
    var nodes: map<string, Node>
    /** The edge keys in insertion order. */
    var keys: seq<EdgeKey>
    var edges: map<EdgeKey, Edge>

    /** Each ordering lists the keys of its dictionary, once each. */
    ghost predicate Valid()
      reads this
    {
      Distinct(names) && (forall k :: k in nodes <==> k in names) &&
      Distinct(keys) && (forall k :: k in edges <==> k in keys)
    }

    constructor ()
      ensures Valid() && names == [] && nodes == map[] && keys == [] && edges == map[]
    {
      names, nodes, keys, edges := [], map[], [], map[];
    }

    /** clear: both dictionaries become empty. */
    method Clear()
      modifies this
      ensures Valid() && names == [] && nodes == map[] && keys == [] && edges == map[]
    {
      names, nodes, keys, edges := [], map[], [], map[];
    }

    /** get_node_count: the size of the node dictionary, one per listed name. */
    function NodeCount(): (r: nat)
      reads this
      requires Valid()
      ensures r == |names|
    {
      OrderSize(nodes, names);
      |nodes|
    }

    /** get_edge_count: the size of the edge dictionary, one per listed key. */
    function EdgeCount(): (r: nat)
      reads this
      requires Valid()
      ensures r == |keys|
    {
      OrderSize(edges, keys);
      |edges|
    }

    /** has_name: the name is a key of the node dictionary. */
    function HasName(name: string): (r: bool)
      reads this
      requires Valid()
      ensures r <==> name in names
    {
      name in nodes
    }

    /** The node stored under key k carries the title. */
    predicate Titled(k: string, title: string)
      reads this, nodes.Values
    {
      k in nodes && title in nodes[k].titles
    }

    /** The first node, in the order ns, that carries the title. */
    function FirstWithTitle(ns: seq<string>, title: string): (r: Option<Node>)
      reads this, nodes.Values
      ensures r.Some? ==> r.value in nodes.Values && title in r.value.titles
    {
      if ns == [] then None
      else if Titled(ns[0], title) then Some(nodes[ns[0]])
      else FirstWithTitle(ns[1..], title)
    }

    /**
     * The node found is stored under the first key of ns whose node carries
     * the title, and no node is found when none carries it.
     */
    lemma {:induction false} FirstWithTitleIsFirst(ns: seq<string>, title: string)
      ensures var r := FirstWithTitle(ns, title);
        r.Some? ==>
          exists i :: 0 <= i < |ns| && Titled(ns[i], title) && nodes[ns[i]] == r.value &&
            forall j :: 0 <= j < i ==> !Titled(ns[j], title)
      ensures FirstWithTitle(ns, title).None? ==> forall i :: 0 <= i < |ns| ==> !Titled(ns[i], title)
    {
      if ns != [] && !Titled(ns[0], title) {
        var r := FirstWithTitle(ns[1..], title);
        FirstWithTitleIsFirst(ns[1..], title);
        assert forall i :: 1 <= i < |ns| ==> ns[i] == ns[1..][i - 1];
        if r.Some? {
          var i :| 0 <= i < |ns[1..]| && Titled(ns[1..][i], title) && nodes[ns[1..][i]] == r.value &&
            forall j :: 0 <= j < i ==> !Titled(ns[1..][j], title);
          forall j | 0 <= j < i + 1 ensures !Titled(ns[j], title) {
            if j > 0 { assert ns[j] == ns[1..][j - 1]; }
          }
          assert Titled(ns[i + 1], title) && nodes[ns[i + 1]] == r.value;
        }
      }
    }

    /** get_node_by_name: the node stored under the name, else the first node carrying it as a title. */
    function Lookup(name: string): (r: Option<Node>)
      reads this, nodes.Values
      ensures name in nodes ==> r == Some(nodes[name])
      ensures name !in nodes ==> r == FirstWithTitle(names, name)
    {
      if name in nodes then Some(nodes[name]) else FirstWithTitle(names, name)
    }

    /**
     * get_node without creation: the lookup by name or title; a node argument
     * must equal (by name) the node found.
     */
    function Found(arg: NodeArg): (r: Result<Option<Node>>)
      reads this, nodes.Values, if arg.ByNode? then {arg.node} else {}
    {
      var n := Lookup(ArgName(arg));
      if n.Some? && arg.ByNode? && n.value.Name() != arg.node.Name() then Err(AssertionError) else Ok(n)
    }

    /** The node get_node settles on for build_link_from_nodes: the one found, else a node argument itself. */
    function Resolve(arg: NodeArg): (r: Option<Node>)
      reads this, nodes.Values, if arg.ByNode? then {arg.node} else {}
      ensures arg.ByNode? ==> r.Some?
      ensures Lookup(ArgName(arg)).Some? ==> r == Lookup(ArgName(arg))
    {
      var n := Lookup(ArgName(arg));
      if n.Some? then n else if arg.ByNode? then Some(arg.node) else None
    }

    /** The node stored under the name, as a frame. */
    function NodeAt(name: string): set<Node>
      reads this
    {
      if name in nodes then {nodes[name]} else {}
    }

    /** The link blocks of the node stored under the name, as a frame. */
    function BlocksAt(name: string): set<Block>
      reads this, nodes.Values
    {
      if name in nodes then nodes[name].linkBlocks.Values else {}
    }

    /** get_node_by_title: a scan of the nodes in insertion order. */
    method GetNodeByTitle(title: string) returns (r: Option<Node>)
      requires Valid()
      ensures r == FirstWithTitle(names, title)
    {
      var i := 0;
      while i < |names|
        invariant 0 <= i <= |names|
        invariant FirstWithTitle(names, title) == FirstWithTitle(names[i..], title)
      {
        assert names[i..][1..] == names[i + 1..];
        if title in nodes[names[i]].titles {
          return Some(nodes[names[i]]);
        }
        i := i + 1;
      }
      r := None;
    }

    /** get_node_by_name */
    method GetNodeByName(name: string) returns (r: Option<Node>)
      requires Valid()
      ensures r == Lookup(name)
    {
      if name in nodes {
        r := Some(nodes[name]);
      } else {
        r := GetNodeByTitle(name);
      }
    }

    /** get_node(obj) without creation; the second title scan of the source finds nothing new. */
    method Find(arg: NodeArg) returns (r: Result<Option<Node>>)
      requires Valid()
      ensures r == Found(arg)
    {
      var n := GetNodeByName(ArgName(arg));
      if n.Some? && arg.ByNode? && n.value.Name() != arg.node.Name() {
        r := Err(AssertionError);
      } else {
        r := Ok(n);
      }
    }

    /**
     * add_node: the node is stored under its name, replacing any node of that
     * name; a new name goes to the end of the order.
     */
    method AddNode(n: Node)
      requires Valid()
      modifies this
      ensures Valid()
      ensures nodes == old(nodes)[n.Name() := n]
      ensures names == if n.Name() in old(nodes) then old(names) else old(names) + [n.Name()]
      ensures keys == old(keys) && edges == old(edges)
      ensures |nodes| == |old(nodes)| + (if n.Name() in old(nodes) then 0 else 1)
    {
      var name := n.Name();
      if name !in nodes {
        names := names + [name];
      }
      nodes := nodes[name := n];
    }

    /**
     * get_node(obj, create_if_not_exists): the node found, or, when none is
     * found and creation is allowed, a node argument added as it is, or for a
     * name a new Node(name=None) stored under its hash name. (That node's own
     * registration either adds it or merges an empty node into an existing
     * one, which changes nothing; add_node then stores it either way.)
     */
    method GetNode(arg: NodeArg, create: bool, hashName: string) returns (r: Result<Option<Node>>)
      requires Valid()
      requires hashName != []
      modifies this
      ensures Valid()
      ensures old(Found(arg)) != Ok(None) || !create ==> r == old(Found(arg)) && unchanged(this)
      ensures old(Found(arg)) == Ok(None) && create && arg.ByNode? ==>
        r == Ok(Some(arg.node)) && nodes == old(nodes)[arg.node.Name() := arg.node] && edges == old(edges)
      ensures old(Found(arg)) == Ok(None) && create && arg.ByName? ==>
        r.Ok? && r.value.Some? && fresh(r.value.value) && r.value.value.Name() == hashName &&
        r.value.value.titles == [] && r.value.value.contentBlocks == [] && r.value.value.linkBlocks == map[] &&
        nodes == old(nodes)[hashName := r.value.value] && edges == old(edges)
      ensures forall k :: k in old(nodes) && (k !in nodes || nodes[k] != old(nodes)[k]) ==> create && old(Found(arg)) == Ok(None)
    {
      r := Find(arg);
      if r != Ok(None) || !create {
        return;
      }
      match arg
      case ByNode(n) =>
        AddNode(n);
        r := Ok(Some(n));
      case ByName(_) =>
        var n := new Node("", [], hashName);
        AddNode(n);
        r := Ok(Some(n));
    }

    /**
     * rename_item: the old name must be present and the new one absent; the
     * node moves to the new name, which goes to the end of the order.
     */
    method RenameItem(oldName: string, newName: string) returns (o: Outcome)
      requires Valid()
      modifies this
      ensures Valid()
      ensures oldName !in old(nodes) || newName in old(nodes) ==> o == Fail(AssertionError) && unchanged(this)
      ensures oldName in old(nodes) && newName !in old(nodes) ==>
        o == Pass && nodes == (old(nodes) - {oldName})[newName := old(nodes)[oldName]] &&
        names == Remove(old(names), oldName) + [newName] && |nodes| == |old(nodes)|
      ensures keys == old(keys) && edges == old(edges)
    {
      if oldName !in nodes || newName in nodes {
        return Fail(AssertionError);
      }
      var item := nodes[oldName];
      RemoveDistinct(names, oldName);
      nodes := (nodes - {oldName})[newName := item];
      names := Remove(names, oldName) + [newName];
      o := Pass;
      assert Distinct(names) by {
        forall i, j | 0 <= i < j < |names| ensures names[i] != names[j] {
          if j == |names| - 1 {
            assert names[i] in old(names) && names[i] != oldName;
          }
        }
      }
    }

    /**
     * The endpoint half of add_edge: a node whose name is not a key must not
     * be registered under a title either (is_registered), and is then added.
     */
    method AddEndpoint(n: Node) returns (o: Outcome)
      requires Valid()
      modifies this
      ensures Valid()
      ensures n.Name() in old(nodes) ==> o == Pass && unchanged(this)
      ensures n.Name() !in old(nodes) && old(FirstWithTitle(names, n.Name())).Some? ==> o == Fail(AssertionError) && unchanged(this)
      ensures n.Name() !in old(nodes) && old(FirstWithTitle(names, n.Name())).None? ==>
        o == Pass && nodes == old(nodes)[n.Name() := n] && names == old(names) + [n.Name()]
      ensures keys == old(keys) && edges == old(edges)
    {
      if n.Name() in nodes {
        return Pass;
      }
      var registered := GetNodeByTitle(n.Name());
      if registered.Some? {
        return Fail(AssertionError);
      }
      AddNode(n);
      o := Pass;
    }

    /**
     * add_edge: an edge already stored under the key is kept, otherwise the
     * edge is stored; then each end of the stored edge whose name is not a
     * node key is added (if_not_exists is ignored, as in the source).
     */
    method AddEdge(e: Edge) returns (o: Outcome)
      requires Valid()
      modifies this
      ensures Valid()
      ensures edges == if e.NameTuple() in old(edges) then old(edges) else old(edges)[e.NameTuple() := e]
      ensures keys == if e.NameTuple() in old(edges) then old(keys) else old(keys) + [e.NameTuple()]
      ensures |edges| <= |old(edges)| + 1
      ensures forall k :: k in old(nodes) ==> k in nodes && nodes[k] == old(nodes)[k]
      ensures forall k :: k in nodes && k !in old(nodes) ==>
        nodes[k] in {edges[e.NameTuple()].a, edges[e.NameTuple()].b} && k == nodes[k].Name()
      ensures o.Pass? ==> edges[e.NameTuple()].a.Name() in nodes && edges[e.NameTuple()].b.Name() in nodes
      ensures o.Fail? ==> o.error == AssertionError
    {
      var key := e.NameTuple();
      if key !in edges {
        edges := edges[key := e];
        keys := keys + [key];
      }
      o := AddEnds(edges[key]);
    }

    /** The endpoint loop of add_edge over the stored edge's two ends. */
    method AddEnds(stored: Edge) returns (o: Outcome)
      requires Valid()
      modifies this
      ensures Valid()
      ensures keys == old(keys) && edges == old(edges)
      ensures forall k :: k in old(nodes) ==> k in nodes && nodes[k] == old(nodes)[k]
      ensures forall k :: k in nodes && k !in old(nodes) ==> nodes[k] in {stored.a, stored.b} && k == nodes[k].Name()
      ensures o.Pass? ==> stored.a.Name() in nodes && stored.b.Name() in nodes
      ensures o.Fail? ==> o.error == AssertionError
    {
      o := AddEndpoint(stored.a);
      if o.Fail? {
        return;
      }
      o := AddEndpoint(stored.b);
    }

    /** get_edge: the edge under (a, b, type value), for a type given as a member or its value string. */
    function GetEdge(aName: string, bName: string, t: TypeArg<EdgeType>): (r: Result<Option<Edge>>)
      reads this
      ensures (t.Absent? || t.Foreign?) <==> r == Err(AssertionError)
      ensures t.Member? ==> r.Ok? && (r.value.Some? <==> (aName, bName, EdgeValue(t.member)) in edges)
      ensures t.Str? ==> r.Ok? && (r.value.Some? <==> (aName, bName, t.s) in edges)
      ensures r.Ok? && r.value.Some? ==> r.value.value in edges.Values
    {
      match t
      case Str(s) =>
        var k := (aName, bName, s);
        Ok(if k in edges then Some(edges[k]) else None)
      case Member(m) =>
        var k := (aName, bName, EdgeValue(m));
        Ok(if k in edges then Some(edges[k]) else None)
      case _ => Err(AssertionError)
    }

    /** The ends of the stored edges. */
    function EndNodes(): set<Node>
      reads this
    {
      (set k | k in edges :: edges[k].a) + (set k | k in edges :: edges[k].b)
    }

    /**
     * get_edges_for_node's test: a node matches an edge with an end of the
     * same name; a string matches any part of the key, the type value included.
     */
    predicate Matches(k: EdgeKey, arg: NodeArg)
      reads this, EndNodes(), if arg.ByNode? then {arg.node} else {}
      requires k in edges
    {
      match arg
      case ByNode(n) => edges[k].a.Name() == n.Name() || edges[k].b.Name() == n.Name()
      case ByName(s) => s == k.0 || s == k.1 || s == k.2
    }

    /** The stored edges, in key order over ks, that match the argument. */
    function EdgesMatching(ks: seq<EdgeKey>, arg: NodeArg): (r: seq<Edge>)
      reads this, EndNodes(), if arg.ByNode? then {arg.node} else {}
      requires forall i :: 0 <= i < |ks| ==> ks[i] in edges
      ensures |r| <= |ks|
      ensures forall i :: 0 <= i < |ks| && Matches(ks[i], arg) ==> edges[ks[i]] in r
      ensures forall j :: 0 <= j < |r| ==> exists k :: k in ks && Matches(k, arg) && r[j] == edges[k]
    {
      if ks == [] then []
      else
        var rest := EdgesMatching(ks[1..], arg);
        assert forall i :: 1 <= i < |ks| ==> ks[i] == ks[1..][i - 1];
        assert forall k :: k in ks[1..] ==> k in ks;
        if Matches(ks[0], arg) then [edges[ks[0]]] + rest else rest
    }

    /** The matching edges of two key lists one after the other, so they keep the keys' order. */
    lemma {:induction false} EdgesMatchingAppend(ks1: seq<EdgeKey>, ks2: seq<EdgeKey>, arg: NodeArg)
      requires forall i :: 0 <= i < |ks1| ==> ks1[i] in edges
      requires forall i :: 0 <= i < |ks2| ==> ks2[i] in edges
      ensures forall i :: 0 <= i < |ks1 + ks2| ==> (ks1 + ks2)[i] in edges
      ensures EdgesMatching(ks1 + ks2, arg) == EdgesMatching(ks1, arg) + EdgesMatching(ks2, arg)
      decreases |ks1|
    {
      var ks := ks1 + ks2;
      assert forall i :: 0 <= i < |ks| ==> ks[i] in edges by {
        forall i | 0 <= i < |ks| ensures ks[i] in edges {
          if i < |ks1| { assert ks[i] == ks1[i]; } else { assert ks[i] == ks2[i - |ks1|]; }
        }
      }
      if ks1 == [] {
        assert ks == ks2;
      } else {
        var head := if Matches(ks1[0], arg) then [edges[ks1[0]]] else [];
        assert ks[0] == ks1[0] && ks[1..] == ks1[1..] + ks2;
        assert forall i :: 0 <= i < |ks1[1..]| ==> ks1[1..][i] in edges by {
          forall i | 0 <= i < |ks1[1..]| ensures ks1[1..][i] in edges { assert ks1[1..][i] == ks1[i + 1]; }
        }
        EdgesMatchingAppend(ks1[1..], ks2, arg);
        EdgesMatchingCons(ks1, arg);
        EdgesMatchingCons(ks, arg);
        ConsAppend(head, EdgesMatching(ks1[1..], arg), EdgesMatching(ks2, arg),
                   EdgesMatching(ks, arg), EdgesMatching(ks1, arg), EdgesMatching(ks[1..], arg));
      }
    }

    /** One step of EdgesMatching: the first key's edge when it matches, then the rest. */
    lemma EdgesMatchingCons(ks: seq<EdgeKey>, arg: NodeArg)
      requires ks != [] && forall i :: 0 <= i < |ks| ==> ks[i] in edges
      ensures forall i :: 0 <= i < |ks[1..]| ==> ks[1..][i] in edges
      ensures EdgesMatching(ks, arg) == (if Matches(ks[0], arg) then [edges[ks[0]]] else []) + EdgesMatching(ks[1..], arg)
    {
      assert forall i :: 0 <= i < |ks[1..]| ==> ks[1..][i] == ks[i + 1];
    }

    /** get_edges_for_node: the matching edges in insertion order. */
    method EdgesForNode(arg: NodeArg) returns (r: seq<Edge>)
      requires Valid()
      ensures r == EdgesMatching(keys, arg)
    {
      var i := |keys|;
      r := [];
      while i > 0
        invariant 0 <= i <= |keys|
        invariant r == EdgesMatching(keys[i..], arg)
      {
        i := i - 1;
        assert keys[i..][1..] == keys[i + 1..];
        if Matches(keys[i], arg) {
          r := [edges[keys[i]]] + r;
        }
      }
    }

    /** drop_edge: the key, given or taken from the edge, must be present and is removed. */
    method DropEdge(ref: EdgeRef) returns (o: Outcome)
      requires Valid()
      modifies this
      ensures Valid()
      ensures var key := old(RefKey(ref));
        && (key !in old(edges) ==> o == Fail(AssertionError) && unchanged(this))
        && (key in old(edges) ==> o == Pass && edges == old(edges) - {key} && keys == Remove(old(keys), key))
      ensures nodes == old(nodes) && names == old(names)
    {
      var key := RefKey(ref);
      if key !in edges {
        return Fail(AssertionError);
      }
      RemoveDistinct(keys, key);
      edges := edges - {key};
      keys := Remove(keys, key);
      o := Pass;
    }
  }

  /** The key drop_edge looks for. */
  function RefKey(ref: EdgeRef): EdgeKey
    reads if ref.ByEdge? then {ref.edge.a, ref.edge.b} else {}
  {
    match ref
    case ByKey(k) => k
    case ByEdge(e) => e.NameTuple()
  }

  // ---------------------------------------------------------------------------
  // Edge

  /** Two nodes and an edge type; edges are never changed after construction. */
  class Edge {
    const a: Node
    const b: Node
    const edgeType: EdgeType

    /** Edge(a, b, type, register=False) */
    constructor (a: Node, b: Node, edgeType: EdgeType)
      ensures this.a == a && this.b == b && this.edgeType == edgeType
    {
      this.a := a;
      this.b := b;
      this.edgeType := edgeType;
    }

    /** Edge(a, b, type, register): registering passes the new edge to add_edge. */
    static method Create(g: Graph, a: Node, b: Node, edgeType: EdgeType, register: bool) returns (e: Edge, o: Outcome)
      requires g.Valid()
      modifies g
      ensures g.Valid() && fresh(e) && e.a == a && e.b == b && e.edgeType == edgeType
      ensures !register ==> o == Pass && unchanged(g)
      ensures register ==> g.edges == if e.NameTuple() in old(g.edges) then old(g.edges) else old(g.edges)[e.NameTuple() := e]
      ensures register && o.Pass? ==> g.edges[e.NameTuple()].a.Name() in g.nodes && g.edges[e.NameTuple()].b.Name() in g.nodes
      ensures o.Fail? ==> o.error == AssertionError
      ensures forall k :: k in old(g.nodes) ==> k in g.nodes && g.nodes[k] == old(g.nodes)[k]
    {
      e := new Edge(a, b, edgeType);
      o := Pass;
      if register {
        o := g.AddEdge(e);
      }
    }

    /** get_name_tuple: the names of both ends and the type's value, which names the type back. */
    function NameTuple(): (r: EdgeKey)
      reads a, b
      ensures r.0 == a.Name() && r.1 == b.Name()
      ensures EdgeTypeFromValue(r.2) == Ok(edgeType)
    {
      EdgeValueRoundTrip(edgeType);
      (a.Name(), b.Name(), EdgeValue(edgeType))
    }

    /** get_other_node: B for a name matching A, else A for a name matching B, else nothing. */
    function OtherNode(name: string): (r: Option<Node>)
      reads a, b
      ensures r.Some? <==> name == a.Name() || name == b.Name()
      ensures name == a.Name() ==> r == Some(b)
      ensures name != a.Name() && name == b.Name() ==> r == Some(a)
    {
      if a.Name() == name then Some(b) else if b.Name() == name then Some(a) else None
    }

    /** get_link_types: the outbound and the inbound link type of the edge's type. */
    function LinkTypePair(): (r: (LinkType, LinkType))
      ensures r.0 != r.1
      ensures LinkTypes.EdgeTypeOf(r.0) == edgeType && LinkTypes.EdgeTypeOf(r.1) == edgeType
      ensures !LinkTypes.Direction(r.0) && LinkTypes.Direction(r.1)
    {
      var r := LinkTypesOf(edgeType);
      LinkTypes.EdgeTypeOfUnique(r.0, edgeType);
      LinkTypes.EdgeTypeOfUnique(r.1, edgeType);
      r
    }

    /** copy: an unregistered edge with the same ends and type. */
    method Copy() returns (e: Edge)
      ensures fresh(e) && e.a == a && e.b == b && e.edgeType == edgeType
    {
      e := new Edge(a, b, edgeType);
    }

    /** is_defined_in_a: A has a link to a node named as B. */
    method IsDefinedInA() returns (r: bool)
      ensures r <==> exists i :: 0 <= i < |a.AllLinks()| && a.AllLinks()[i].TargetNode().Name() == b.Name()
    {
      r := a.HasOutgoingLinkTo(b);
    }

    /** is_defined_in_b: B has a link to a node named as A. */
    method IsDefinedInB() returns (r: bool)
      ensures r <==> exists i :: 0 <= i < |b.AllLinks()| && b.AllLinks()[i].TargetNode().Name() == a.Name()
    {
      r := b.HasOutgoingLinkTo(a);
    }

    /** drop: the edge's own key is removed from the graph, and must be present. */
    method Drop(g: Graph) returns (o: Outcome)
      requires g.Valid()
      modifies g
      ensures g.Valid()
      ensures NameTuple() !in old(g.edges) ==> o == Fail(AssertionError) && unchanged(g)
      ensures NameTuple() in old(g.edges) ==> o == Pass && g.edges == old(g.edges) - {NameTuple()}
      ensures g.nodes == old(g.nodes)
    {
      o := g.DropEdge(ByEdge(this));
    }
  }

  /** When the ends have different names, each end is the other one's other node. */
  lemma OtherNodeSwaps(e: Edge)
    requires e.a.Name() != e.b.Name()
    ensures e.OtherNode(e.a.Name()) == Some(e.b) && e.OtherNode(e.b.Name()) == Some(e.a)
    ensures e.OtherNode(e.OtherNode(e.a.Name()).value.Name()) == Some(e.a)
  {
  }

  // ---------------------------------------------------------------------------
  // Link

  /** The source end of an edge seen from A (isFromB false) or from B. */
  function SourceEnd<T>(a: T, b: T, isFromB: bool): T {
    if isFromB then b else a
  }

  /** The target end: the end that is not the source. */
  function TargetEnd<T>(a: T, b: T, isFromB: bool): T {
    if isFromB then a else b
  }

  /** build_edge's ends: A = to and B = from when the link type's direction is set, else A = from and B = to. */
  function EdgeEnds<T>(from: T, to: T, t: LinkType): (T, T) {
    if LinkTypes.Direction(t) then (to, from) else (from, to)
  }

  /**
   * A link built from (from, to, t) by build_link_from_nodes, with is_from_b
   * set to t's direction, has source from, target to and type t.
   */
  lemma LinkFromNodesOrientation<T>(from: T, to: T, t: LinkType)
    ensures var ends := EdgeEnds(from, to, t);
      && SourceEnd(ends.0, ends.1, LinkTypes.Direction(t)) == from
      && TargetEnd(ends.0, ends.1, LinkTypes.Direction(t)) == to
      && LinkTypeAt(LinkTypes.EdgeTypeOf(t), LinkTypes.Direction(t)) == t
  {
    LinkTypes.DirectionSelectsLinkType(t);
  }

  /**
   * set_type rebuilds the edge from the current source to the current target
   * but keeps is_from_b: the ends stay in place exactly when the new type has
   * the old side's direction, and otherwise they swap and the link reads the
   * new edge's other type.
   */
  lemma RetypedEnds<T>(source: T, target: T, isFromB: bool, t: LinkType)
    ensures var ends := EdgeEnds(source, target, t);
      && SourceEnd(ends.0, ends.1, isFromB) == (if isFromB == LinkTypes.Direction(t) then source else target)
      && TargetEnd(ends.0, ends.1, isFromB) == (if isFromB == LinkTypes.Direction(t) then target else source)
      && (LinkTypeAt(LinkTypes.EdgeTypeOf(t), isFromB) == t <==> isFromB == LinkTypes.Direction(t))
  {
    LinkTypes.DirectionSelectsLinkType(t);
  }

  /**
   * The edge dictionary after set_type: the new edge stored under its key
   * unless an edge is stored there already (add_edge keeps that one), then
   * the old key popped.
   */
  function RetypedEdges(edges: map<EdgeKey, Edge>, oldKey: EdgeKey, newKey: EdgeKey, e: Edge): (r: map<EdgeKey, Edge>)
    ensures oldKey !in r
    ensures newKey != oldKey ==> newKey in r && (newKey !in edges ==> r[newKey] == e)
    ensures forall k :: k in edges && k != oldKey ==> k in r && r[k] == edges[k]
    ensures forall k :: k in r ==> k in edges || k == newKey
  {
    (if newKey in edges then edges else edges[newKey := e]) - {oldKey}
  }

  /** The strings of a list of values, when every element is one. */
  function Strings(vs: seq<Value>): (r: Option<seq<string>>)
    ensures r.Some? <==> forall i :: 0 <= i < |vs| ==> vs[i].VStr?
    ensures r.Some? ==> |r.value| == |vs| && forall i :: 0 <= i < |vs| ==> vs[i] == VStr(r.value[i])
  {
    if vs == [] then Some([])
    else
      var rest := Strings(vs[1..]);
      assert forall i :: 1 <= i < |vs| ==> vs[i] == vs[1..][i - 1];
      if vs[0].VStr? && rest.Some? then Some([vs[0].s] + rest.value) else None
  }

  /** The string values of a list of strings. */
  function StrValues(ws: seq<string>): (r: seq<Value>)
    ensures |r| == |ws| && forall i :: 0 <= i < |ws| ==> r[i] == VStr(ws[i])
  {
    if ws == [] then [] else [VStr(ws[0])] + StrValues(ws[1..])
  }

  /**
   * The Link constructor's caption: a list is joined with single spaces (a
   * non-string element makes the join fail with TypeError), and the result
   * must be a string or None.
   */
  function CaptionOf(v: Value): (r: Result<Option<string>>)
    ensures v.VNone? ==> r == Ok(None)
    ensures v.VStr? ==> r == Ok(Some(v.s))
    ensures v.VList? && Strings(v.elements).Some? ==> r == Ok(Some(Text.Join(Strings(v.elements).value, ' ')))
    ensures v.VList? && Strings(v.elements).None? ==> r == Err(TypeError)
    ensures (v.VInt? || v.VBool? || v.VDict?) ==> r == Err(AssertionError)
  {
    match v
    case VNone => Ok(None)
    case VStr(s) => Ok(Some(s))
    case VList(xs) =>
      (match Strings(xs)
       case Some(ws) => Ok(Some(Text.Join(ws, ' ')))
       case None => Err(TypeError))
    case _ => Err(AssertionError)
  }

  /** A caption given as words without spaces splits back into those words. */
  lemma CaptionWordsRoundTrip(ws: seq<string>)
    requires |ws| > 0 && forall i :: 0 <= i < |ws| ==> ' ' !in ws[i]
    ensures CaptionOf(VList(StrValues(ws))).Ok? && CaptionOf(VList(StrValues(ws))).value.Some?
    ensures Text.SplitOn(CaptionOf(VList(StrValues(ws))).value.value, ' ') == ws
  {
    var vs := StrValues(ws);
    assert Strings(vs).Some?;
    assert Strings(vs).value == ws;
    Text.SplitJoin(ws, ' ');
  }

  /** A view of an edge from one of its ends. */
  class Link {
    var edge: Edge
    const isFromB: bool
    const caption: Option<string>
    const isExternal: bool

    constructor (edge: Edge, isFromB: bool, caption: Option<string>, isExternal: bool)
      ensures this.edge == edge && this.isFromB == isFromB && this.caption == caption && this.isExternal == isExternal
    {
      this.edge := edge;
      this.isFromB := isFromB;
      this.caption := caption;
      this.isExternal := isExternal;
    }

    /** get_source_node: B when the link is seen from B, else A. */
    function SourceNode(): (r: Node)
      reads this
      ensures isFromB ==> r == edge.b
      ensures !isFromB ==> r == edge.a
    {
      SourceEnd(edge.a, edge.b, isFromB)
    }

    /** get_target_node: the other end. */
    function TargetNode(): (r: Node)
      reads this
      ensures isFromB ==> r == edge.a
      ensures !isFromB ==> r == edge.b
    {
      TargetEnd(edge.a, edge.b, isFromB)
    }

    /** get_type: the inbound link type of the edge's pair when seen from B, else the outbound one. */
    function Type(): (r: LinkType)
      reads this
      ensures LinkTypes.EdgeTypeOf(r) == edge.edgeType && LinkTypes.Direction(r) == isFromB
    {
      LinkTypes.PositionRecovered(edge.edgeType, isFromB);
      LinkTypeAt(edge.edgeType, isFromB)
    }

    /** build_edge: an edge of t's edge type, with the ends ordered by t's direction. */
    static method BuildEdge(g: Graph, from: Node, to: Node, t: LinkType, register: bool) returns (e: Edge, o: Outcome)
      requires g.Valid()
      modifies g
      ensures g.Valid() && fresh(e)
      ensures (e.a, e.b) == EdgeEnds(from, to, t) && e.edgeType == LinkTypes.EdgeTypeOf(t)
      ensures !register ==> o == Pass && unchanged(g)
      ensures register ==> g.edges == if e.NameTuple() in old(g.edges) then old(g.edges) else old(g.edges)[e.NameTuple() := e]
      ensures o.Fail? ==> o.error == AssertionError
      ensures forall k :: k in old(g.nodes) ==> k in g.nodes && g.nodes[k] == old(g.nodes)[k]
    {
      var ends := EdgeEnds(from, to, t);
      e, o := Edge.Create(g, ends.0, ends.1, LinkTypes.EdgeTypeOf(t), register);
    }

    /**
     * build_link_from_nodes: the target must be given, the type must resolve,
     * both ends are replaced by the graph's node when one is found and must then
     * be nodes, the edge is registered, and the caption must be usable.
     */
    static method BuildLinkFromNodes(g: Graph, from: NodeArg, to: Option<NodeArg>, linkType: TypeArg<LinkType>,
                                     caption: Value, isExternal: bool) returns (r: Result<Link>)
      requires g.Valid()
      modifies g
      ensures g.Valid()
      ensures (to.None? || to.value == ByName("")) ==> r == Err(AssertionError) && unchanged(g)
      ensures to.Some? && to.value != ByName("") && ResolvedLinkType(linkType).None? ==> r == Err(ValueError) && unchanged(g)
      ensures r.Ok? ==> to.Some? && ResolvedLinkType(linkType).Some?
      ensures r.Ok? ==> r.value.Type() == ResolvedLinkType(linkType).value
      ensures r.Ok? ==> old(g.Resolve(from)) == Some(r.value.SourceNode())
      ensures r.Ok? ==> old(g.Resolve(to.value)) == Some(r.value.TargetNode())
      ensures r.Ok? ==> fresh(r.value) && CaptionOf(caption) == Ok(r.value.caption) && r.value.isExternal == isExternal
      ensures r.Ok? ==> r.value.edge.NameTuple() in g.edges
      ensures r.Err? ==> r.error == AssertionError || r.error == ValueError || r.error == TypeError
      ensures forall k :: k in old(g.nodes) ==> k in g.nodes && g.nodes[k] == old(g.nodes)[k]
    {
      if to.None? || to.value == ByName("") {
        return Err(AssertionError);
      }
      var lt := ResolvedLinkType(linkType);
      if lt.None? {
        return Err(ValueError);
      }
      r := LinkBetween(g, from, to.value, lt.value, caption, isExternal);
    }

    /** build_link_from_nodes once the target is given and the type resolved. */
    static method LinkBetween(g: Graph, from: NodeArg, to: NodeArg, t: LinkType, caption: Value, isExternal: bool) returns (r: Result<Link>)
      requires g.Valid()
      modifies g
      ensures g.Valid()
      ensures r.Ok? ==> r.value.Type() == t
      ensures r.Ok? ==> old(g.Resolve(from)) == Some(r.value.SourceNode()) && old(g.Resolve(to)) == Some(r.value.TargetNode())
      ensures r.Ok? ==> fresh(r.value) && CaptionOf(caption) == Ok(r.value.caption) && r.value.isExternal == isExternal
      ensures r.Ok? ==> r.value.edge.NameTuple() in g.edges
      ensures r.Err? ==> r.error == AssertionError || r.error == TypeError
      ensures forall k :: k in old(g.nodes) ==> k in g.nodes && g.nodes[k] == old(g.nodes)[k]
    {
      var ends := ResolveEnds(g, from, to);
      if ends.Err? {
        return Err(ends.error);
      }
      r := Connect(g, ends.value.0, ends.value.1, t, caption, isExternal);
    }

    /**
     * The ends build_link_from_nodes settles on: the graph's node for each end
     * when one is found, else the argument, which must then be a node.
     */
    static method ResolveEnds(g: Graph, from: NodeArg, to: NodeArg) returns (r: Result<(Node, Node)>)
      requires g.Valid()
      ensures r.Ok? ==> g.Resolve(from) == Some(r.value.0) && g.Resolve(to) == Some(r.value.1)
      ensures g.Found(from).Err? ==> r == Err(g.Found(from).error)
      ensures r.Err? ==> r.error == AssertionError
      ensures r.Ok? && from.ByNode? ==> r.value.0.Name() == from.node.Name()
      ensures r.Ok? && to.ByNode? ==> r.value.1.Name() == to.node.Name()
    {
      var a := SettleEnd(g, from);
      if a.Err? {
        return Err(a.error);
      }
      var b := SettleEnd(g, to);
      if b.Err? {
        return Err(b.error);
      }
      if a.value.ByName? || b.value.ByName? {
        return Err(AssertionError);
      }
      r := Ok((a.value.node, b.value.node));
    }

    /** One end for ResolveEnds: the graph's node when one is found, else the argument. */
    static method SettleEnd(g: Graph, arg: NodeArg) returns (r: Result<NodeArg>)
      requires g.Valid()
      ensures r.Err? <==> g.Found(arg).Err?
      ensures r.Err? ==> r.error == g.Found(arg).error && r.error == AssertionError
      ensures r.Ok? && r.value.ByNode? ==> g.Resolve(arg) == Some(r.value.node)
      ensures r.Ok? && arg.ByNode? ==> r.value.ByNode? && r.value.node.Name() == arg.node.Name()
    {
      var a := g.Find(arg);
      if a.Err? {
        return Err(a.error);
      }
      r := Ok(if a.value.Some? then ByNode(a.value.value) else arg);
    }

    /** The second half of build_link_from_nodes: the registered edge, then the link over it. */
    static method Connect(g: Graph, from: Node, to: Node, t: LinkType, caption: Value, isExternal: bool) returns (r: Result<Link>)
      requires g.Valid()
      modifies g
      ensures g.Valid()
      ensures r.Ok? ==> fresh(r.value) && r.value.SourceNode() == from && r.value.TargetNode() == to && r.value.Type() == t
      ensures r.Ok? ==> CaptionOf(caption) == Ok(r.value.caption) && r.value.isExternal == isExternal
      ensures r.Ok? ==> r.value.edge.NameTuple() in g.edges
      ensures r.Err? ==> r.error == AssertionError || (CaptionOf(caption).Err? && r.error == CaptionOf(caption).error)
      ensures r.Err? ==> r.error == AssertionError || r.error == TypeError
      ensures forall k :: k in old(g.nodes) ==> k in g.nodes && g.nodes[k] == old(g.nodes)[k]
    {
      var e, o := BuildEdge(g, from, to, t, true);
      if o.Fail? {
        return Err(o.error);
      }
      var c := CaptionOf(caption);
      if c.Err? {
        return Err(c.error);
      }
      LinkFromNodesOrientation(from, to, t);
      var link := new Link(e, LinkTypes.Direction(t), c.value, isExternal);
      r := Ok(link);
    }

    /** copy: the same side and caption over an unregistered copy of the edge, not external. */
    method Copy() returns (l: Link)
      ensures fresh(l) && fresh(l.edge)
      ensures l.edge.a == edge.a && l.edge.b == edge.b && l.edge.edgeType == edge.edgeType
      ensures l.isFromB == isFromB && l.caption == caption && !l.isExternal
      ensures l.SourceNode() == SourceNode() && l.TargetNode() == TargetNode() && l.Type() == Type()
    {
      var e := edge.Copy();
      l := new Link(e, isFromB, caption, false);
    }

    /**
     * set_type: an edge of the new type is registered from the current source
     * to the current target, the old edge's key is dropped (and must be
     * present), and is_from_b is kept. A failure after the type resolves
     * leaves the new key registered, as build_edge has already stored it.
     */
    method SetType(g: Graph, linkType: TypeArg<LinkType>) returns (o: Outcome)
      requires g.Valid()
      modifies this, g
      ensures g.Valid()
      ensures LinkTypes.GetType(linkType, false).Err? ==> o == Fail(ValueError) && unchanged(this) && unchanged(g)
      ensures o.Fail? ==> edge == old(edge)
      ensures o.Fail? && LinkTypes.GetType(linkType, false).Ok? ==> o == Fail(AssertionError)
      ensures LinkTypes.GetType(linkType, false).Ok? ==>
              var t := LinkTypes.GetType(linkType, false).value.value;
              old(edge.NameTuple()) !in old(g.edges) && old(RetypedKey(t)) != old(edge.NameTuple()) ==> o.Fail?
      ensures LinkTypes.GetType(linkType, false).Ok? ==>
              var t := LinkTypes.GetType(linkType, false).value.value;
              o.Fail? ==> g.edges.Keys == old(g.edges).Keys + {old(RetypedKey(t))} &&
                          forall k :: k in old(g.edges) ==> g.edges[k] == old(g.edges)[k]
      ensures o.Pass? ==> LinkTypes.GetType(linkType, false).Ok?
      ensures o.Pass? ==>
                var t := LinkTypes.GetType(linkType, false).value.value;
                && fresh(edge) && edge.edgeType == LinkTypes.EdgeTypeOf(t)
                && SourceNode() == (if isFromB == LinkTypes.Direction(t) then old(SourceNode()) else old(TargetNode()))
                && TargetNode() == (if isFromB == LinkTypes.Direction(t) then old(TargetNode()) else old(SourceNode()))
                && (Type() == t <==> isFromB == LinkTypes.Direction(t))
                && edge.NameTuple() == old(RetypedKey(t))
                && g.edges == RetypedEdges(old(g.edges), old(edge.NameTuple()), edge.NameTuple(), edge)
      ensures forall k :: k in old(g.nodes) ==> k in g.nodes && g.nodes[k] == old(g.nodes)[k]
    {
      var lt := LinkTypes.GetType(linkType, false);
      if lt.Err? {
        return Fail(lt.error);
      }
      o := Retype(g, lt.value.value);
    }

    /** set_type once the new type is resolved: build_edge from source to target, then reset_edge. */
    method Retype(g: Graph, t: LinkType) returns (o: Outcome)
      requires g.Valid()
      modifies this, g
      ensures g.Valid()
      ensures o.Fail? ==> o == Fail(AssertionError) && edge == old(edge)
      ensures old(edge.NameTuple()) !in old(g.edges) && old(RetypedKey(t)) != old(edge.NameTuple()) ==> o.Fail?
      ensures o.Fail? ==> g.edges.Keys == old(g.edges).Keys + {old(RetypedKey(t))} &&
                          forall k :: k in old(g.edges) ==> g.edges[k] == old(g.edges)[k]
      ensures o.Pass? ==>
                && fresh(edge) && edge.edgeType == LinkTypes.EdgeTypeOf(t)
                && SourceNode() == (if isFromB == LinkTypes.Direction(t) then old(SourceNode()) else old(TargetNode()))
                && TargetNode() == (if isFromB == LinkTypes.Direction(t) then old(TargetNode()) else old(SourceNode()))
                && (Type() == t <==> isFromB == LinkTypes.Direction(t))
                && edge.NameTuple() == old(RetypedKey(t))
                && g.edges == RetypedEdges(old(g.edges), old(edge.NameTuple()), edge.NameTuple(), edge)
      ensures forall k :: k in old(g.nodes) ==> k in g.nodes && g.nodes[k] == old(g.nodes)[k]
    {
      var e, o1 := BuildEdge(g, SourceNode(), TargetNode(), t, true);
      assert e.NameTuple() == old(RetypedKey(t));
      if o1.Fail? {
        return o1;
      }
      o := ResetEdge(g, e);
      RetypedEnds(old(SourceNode()), old(TargetNode()), isFromB, t);
    }

    /** The key of the edge set_type(t) registers: the current ends ordered by t's direction, under t's edge type. */
    function RetypedKey(t: LinkType): EdgeKey
      reads this, edge.a, edge.b
    {
      var ends := EdgeEnds(SourceNode(), TargetNode(), t);
      (ends.0.Name(), ends.1.Name(), EdgeValue(LinkTypes.EdgeTypeOf(t)))
    }

    /**
     * set_type with the link's own type asks for the key its edge already
     * has: add_edge keeps the stored edge, and the drop then removes that key,
     * so the link's edge ends up unregistered.
     */
    lemma OwnTypeUnregisters(edges: map<EdgeKey, Edge>, e: Edge)
      ensures RetypedKey(Type()) == edge.NameTuple()
      ensures edge.NameTuple() !in RetypedEdges(edges, edge.NameTuple(), RetypedKey(Type()), e)
    {
      LinkTypes.PositionRecovered(edge.edgeType, isFromB);
    }

    /** reset_edge: the current edge is dropped from the graph, then replaced. */
    method ResetEdge(g: Graph, e: Edge) returns (o: Outcome)
      requires g.Valid()
      modifies this, g
      ensures g.Valid()
      ensures o.Fail? <==> old(edge.NameTuple()) !in old(g.edges)
      ensures o.Fail? ==> o == Fail(AssertionError) && edge == old(edge) && unchanged(g)
      ensures o.Pass? ==> edge == e && g.edges == old(g.edges) - {old(edge.NameTuple())}
      ensures g.nodes == old(g.nodes)
    {
      o := edge.Drop(g);
      if o.Pass? {
        edge := e;
      }
    }
  }

  /** A list built as a head before two parts is the head with the first part, then the second. */
  lemma ConsAppend<T>(head: seq<T>, r1: seq<T>, r2: seq<T>, whole: seq<T>, first: seq<T>, tail: seq<T>)
    requires whole == head + tail && tail == r1 + r2 && first == head + r1
    ensures whole == first + r2
  {
  }

  // ---------------------------------------------------------------------------
  // Node

  /** add_content_block's argument: a Block, a BlockType, a dictionary, or anything else (a Link, say). */
  datatype BlockArg = ABlock(block: Block) | AType(t: BlockType) | ADict(d: Dict) | AOther

  /** Every item of xs occurs in ys. */
  predicate Covers(ys: seq<Item>, xs: seq<Item>) {
    forall i :: 0 <= i < |xs| ==> xs[i] in ys
  }

  /** Covering is kept when the covering sequence grows at its end. */
  lemma CoversGrow(ys: seq<Item>, zs: seq<Item>, xs: seq<Item>)
    requires Covers(ys, xs) && ys <= zs
    ensures Covers(zs, xs)
  {
    forall i | 0 <= i < |xs| ensures xs[i] in zs {
      var j :| 0 <= j < |ys| && ys[j] == xs[i];
      assert zs[j] == ys[j];
    }
  }

  /** A merged item list covers both of its inputs. */
  lemma MergedCovers(tag: BlockTag, mine: seq<Item>, theirs: seq<Item>)
    requires MergeInto(tag, mine, theirs).1.Pass?
    ensures Covers(MergeInto(tag, mine, theirs).0, theirs)
    ensures mine <= MergeInto(tag, mine, theirs).0
  {
    var u := MergeInto(tag, mine, theirs).0;
    assert u == Union(mine, theirs);
    assert u[..|mine|] == mine;
  }

  /** The links of a sequence of blocks, block by block. */
  function LinksOfBlocks(bs: seq<Block>): (r: seq<Link>)
    reads bs
    ensures forall i, j :: 0 <= i < |bs| && 0 <= j < |bs[i].items| && bs[i].items[j].LinkItem? ==> bs[i].items[j].link in r
    ensures forall k :: 0 <= k < |r| ==> exists i :: 0 <= i < |bs| && LinkItem(r[k]) in bs[i].items
  {
    if bs == [] then []
    else
      var rest := LinksOfBlocks(bs[1..]);
      assert forall i :: 1 <= i < |bs| ==> bs[i] == bs[1..][i - 1];
      LinksIn(bs[0].items) + rest
  }

  /** The blocks of a link-block dictionary in the order of the link types. */
  function BlocksByType(m: map<LinkType, Block>, ts: seq<LinkType>): (r: seq<Block>)
    ensures forall i :: 0 <= i < |r| ==> r[i] in m.Values
    ensures forall i :: 0 <= i < |ts| && ts[i] in m ==> m[ts[i]] in r
  {
    if ts == [] then []
    else
      var rest := BlocksByType(m, ts[1..]);
      assert forall i :: 1 <= i < |ts| ==> ts[i] == ts[1..][i - 1];
      if ts[0] in m then [m[ts[0]]] + rest else rest
  }

  /** LinkType.get_type(arg) without skip_missing: the member, or nothing when it raises ValueError. */
  function ResolvedLinkType(arg: TypeArg<LinkType>): (r: Option<LinkType>)
    ensures r.Some? <==> LinkTypes.GetType(arg, false).Ok?
    ensures r.Some? ==> LinkTypes.GetType(arg, false) == Ok(Some(r.value))
    ensures arg.Member? ==> r == Some(arg.member)
  {
    match LinkTypes.GetType(arg, false)
    case Ok(Some(t)) => Some(t)
    case _ => None
  }

  /** The link type add_link_block files a block under: the given one, else the block's links type. */
  function LinkBlockType(block: Block, linkType: Option<LinkType>): LinkType
    reads block, block.OutgoingLinks()
  {
    if linkType.Some? then linkType.value else LinksTypeOf(block.anchor, TypesOf(block.OutgoingLinks()))
  }

  /** BlockType.get_type(arg) without skip_missing: the member, or nothing when it raises ValueError. */
  function ResolvedBlockType(arg: TypeArg<BlockType>): (r: Option<BlockType>)
    ensures r.Some? <==> BlockTypes.GetType(arg, false).Ok?
    ensures r.Some? ==> BlockTypes.GetType(arg, false) == Ok(Some(r.value))
    ensures arg.Member? ==> r == Some(arg.member)
  {
    match BlockTypes.GetType(arg, false)
    case Ok(Some(t)) => Some(t)
    case _ => None
  }

  /** A merge only extends the list it merges into. */
  lemma MergeIntoGrows(tag: BlockTag, mine: seq<Item>, theirs: seq<Item>)
    ensures mine <= MergeInto(tag, mine, theirs).0
  {
    var r := MergeInto(tag, mine, theirs).0;
    assert r[..|mine|] == mine;
  }

  /** Covering is kept when the covered sequence shrinks to a prefix. */
  lemma CoversPrefix(ys: seq<Item>, xs: seq<Item>, ws: seq<Item>)
    requires Covers(ys, xs) && ws <= xs
    ensures Covers(ys, ws)
  {
    forall i | 0 <= i < |ws| ensures ws[i] in ys {
      assert ws[i] == xs[i];
    }
  }

  /**
   * A case in which merge_node's link-block loop is sure to pass: every block
   * of theirs is a Links block holding only links, the block here for the
   * same type (if any) is a Links block too, and no block of theirs is one of
   * these blocks.
   */
  ghost predicate Mergeable(mine: map<LinkType, Block>, theirs: map<LinkType, Block>)
    reads theirs.Values
  {
    forall t :: t in theirs ==>
      && theirs[t].tag == Known(Links)
      && (forall i :: 0 <= i < |theirs[t].items| ==> theirs[t].items[i].LinkItem?)
      && (t in mine ==> mine[t].tag == Known(Links))
      && theirs[t] !in mine.Values
  }

  /** A node: a name, titles, content blocks and one link block per link type. */
  class Node {
    var name: string
    var titles: seq<string>
    var contentBlocks: seq<Block>
    var linkBlocks: map<LinkType, Block>
    /** The text of hash(str(self)), which get_name falls back on. */
    const hashName: string

    /** Node(name, titles, register=False) */
    constructor (name: string, titles: seq<string>, hashName: string)
      ensures this.name == name && this.titles == titles && this.hashName == hashName
      ensures contentBlocks == [] && linkBlocks == map[]
    {
      this.name := name;
      this.titles := titles;
      this.hashName := hashName;
      this.contentBlocks := [];
      this.linkBlocks := map[];
    }

    /** get_name: the name when set, else a non-empty first title, else the hash string. */
    function Name(): (r: string)
      reads this`name, this`titles
      ensures name != [] ==> r == name
      ensures name == [] && titles != [] && titles[0] != [] ==> r == titles[0]
      ensures name == [] && (titles == [] || titles[0] == []) ==> r == hashName
      ensures hashName != [] ==> r != []
    {
      if name != [] then name
      else if titles != [] && titles[0] != [] then titles[0]
      else hashName
    }

    /** get_main_title: the first title, else the name; an unnamed node is named by a non-empty main title. */
    function MainTitle(): (r: string)
      reads this`name, this`titles
      ensures titles != [] ==> r == titles[0]
      ensures titles == [] ==> r == Name()
      ensures name == [] && r != [] ==> r == Name()
    {
      if titles != [] then titles[0] else Name()
    }

    /** add_title: the title is appended when it is not there yet. */
    method AddTitle(title: string)
      modifies this`titles
      ensures titles == Union(old(titles), [title])
    {
      UnionOne(titles, title);
      if title !in titles {
        titles := titles + [title];
      }
    }

    /** is_hidden: no content blocks and no link blocks. */
    function IsHidden(): (r: bool)
      reads this
      ensures r <==> |contentBlocks| == 0 && |linkBlocks| == 0
    {
      contentBlocks == [] && linkBlocks == map[]
    }

    /** Some content block holds a link (merge_node passes those to add_content_block, which refuses them). */
    predicate HasContentLinks()
      reads this, contentBlocks
    {
      exists i, j :: 0 <= i < |contentBlocks| && 0 <= j < |contentBlocks[i].items| && contentBlocks[i].items[j].LinkItem?
    }

    /** get_all_links_iter: the links of the content blocks, then those of the link blocks. */
    function AllLinks(): (r: seq<Link>)
      reads this, contentBlocks, linkBlocks.Values
    {
      LinksOfBlocks(contentBlocks) + LinksOfBlocks(BlocksByType(linkBlocks, AllLinkTypes))
    }

    /**
     * set_name: changing the set name of a node registered in the graph needs
     * allow_rename, and then moves the node to the new key; an unset or equal
     * name is simply replaced.
     */
    method SetName(g: Graph, newName: string, allowRename: bool) returns (o: Outcome)
      requires g.Valid()
      modifies this`name, g
      ensures g.Valid()
      ensures o.Pass? ==> name == newName
      ensures o.Fail? ==> name == old(name)
      ensures old(name) == [] || old(name) == newName ==> o == Pass && unchanged(g)
      ensures old(name) != [] && old(name) != newName && old(g.Found(ByNode(this))).Err? ==> o == Fail(AssertionError) && unchanged(g)
      ensures old(name) != [] && old(name) != newName && old(g.Found(ByNode(this))) == Ok(None) ==> o == Pass && unchanged(g)
      ensures old(name) != [] && old(name) != newName && old(g.Found(ByNode(this))).Ok? && old(g.Found(ByNode(this))).value.Some? ==>
                (!allowRename ==> o == Fail(ValueError) && unchanged(g)) &&
                (allowRename && (old(name) !in old(g.nodes) || newName in old(g.nodes)) ==> o == Fail(AssertionError) && unchanged(g)) &&
                (allowRename && old(name) in old(g.nodes) && newName !in old(g.nodes) ==>
                   o == Pass && g.nodes == (old(g.nodes) - {old(name)})[newName := old(g.nodes)[old(name)]])
    {
      if name != [] && name != newName {
        var registered := g.Find(ByNode(this));
        if registered.Err? {
          return Fail(registered.error);
        }
        if registered.value.Some? {
          if !allowRename {
            return Fail(ValueError);
          }
          o := g.RenameItem(Name(), newName);
          if o.Fail? {
            return;
          }
        }
      }
      name := newName;
      o := Pass;
    }

    /**
     * add_link_block_by_type_and_links: the type must resolve and have no link
     * block yet; the new Links block is anchored with the type's value, titled,
     * and given the links.
     */
    method AddLinkBlockByTypeAndLinks(linkType: TypeArg<LinkType>, links: seq<Link>, title: Value) returns (o: Outcome)
      modifies this`linkBlocks
      ensures ResolvedLinkType(linkType).None? ==> o == Fail(ValueError) && linkBlocks == old(linkBlocks)
      ensures ResolvedLinkType(linkType).Some? && ResolvedLinkType(linkType).value in old(linkBlocks) ==>
                o == Fail(AssertionError) && linkBlocks == old(linkBlocks)
      ensures ResolvedLinkType(linkType).Some? && ResolvedLinkType(linkType).value !in old(linkBlocks) ==> (
                var t := ResolvedLinkType(linkType).value;
                o == Pass && t in linkBlocks && linkBlocks == old(linkBlocks)[t := linkBlocks[t]] &&
                fresh(linkBlocks[t]) && linkBlocks[t].tag == Known(Links) && linkBlocks[t].items == LinkItems(links) &&
                linkBlocks[t].anchor == VStr(LinkValue(t)) && linkBlocks[t].title == title)
    {
      var lt := ResolvedLinkType(linkType);
      if lt.None? {
        return Fail(ValueError);
      }
      var t := lt.value;
      if t in linkBlocks {
        return Fail(AssertionError);
      }
      var b := new Block(VNone, Known(Links), [], VNone);
      b.anchor := VStr(LinkValue(t));
      b.title := title;
      o := b.AddItems(LinkItems(links));
      LinkItemsAppended(links);
      linkBlocks := linkBlocks[t := b];
    }

    /** get_link_block_by_type(t, create_if_not_exists=True) on a resolved type: the block, created empty when missing. */
    method EnsureLinkBlock(t: LinkType) returns (b: Block)
      modifies this`linkBlocks
      ensures t in linkBlocks && b == linkBlocks[t]
      ensures t in old(linkBlocks) ==> linkBlocks == old(linkBlocks)
      ensures t !in old(linkBlocks) ==> (linkBlocks == old(linkBlocks)[t := b] && fresh(b) && b.tag == Known(Links) &&
                                         b.items == [] && b.anchor == VStr(LinkValue(t)) && b.title == VNone)
    {
      if t !in linkBlocks {
        var o := AddLinkBlockByTypeAndLinks(Member(t), [], VNone);
      }
      b := linkBlocks[t];
    }

    /**
     * get_link_block_by_type: the type must resolve; with create_if_not_exists
     * a missing block is created empty; a missing block is None with
     * skip_missing and KeyError without.
     */
    method GetLinkBlockByType(linkType: TypeArg<LinkType>, create: bool, skipMissing: bool) returns (r: Result<Option<Block>>)
      modifies this`linkBlocks
      ensures ResolvedLinkType(linkType).None? ==> r == Err(ValueError) && linkBlocks == old(linkBlocks)
      ensures ResolvedLinkType(linkType).Some? && (ResolvedLinkType(linkType).value in old(linkBlocks) || create) ==>
                ResolvedLinkType(linkType).value in linkBlocks && r == Ok(Some(linkBlocks[ResolvedLinkType(linkType).value]))
      ensures ResolvedLinkType(linkType).Some? && ResolvedLinkType(linkType).value in old(linkBlocks) ==> linkBlocks == old(linkBlocks)
      ensures ResolvedLinkType(linkType).Some? && ResolvedLinkType(linkType).value !in old(linkBlocks) && create ==>
                var t := ResolvedLinkType(linkType).value;
                t in linkBlocks && fresh(linkBlocks[t]) && linkBlocks == old(linkBlocks)[t := linkBlocks[t]]
      ensures ResolvedLinkType(linkType).Some? && ResolvedLinkType(linkType).value !in old(linkBlocks) && !create ==>
                r == (if skipMissing then Ok(None) else Err(KeyError)) && linkBlocks == old(linkBlocks)
    {
      var lt := ResolvedLinkType(linkType);
      if lt.None? {
        return Err(ValueError);
      }
      var t := lt.value;
      if create && t !in linkBlocks {
        var b := EnsureLinkBlock(t);
      }
      if t in linkBlocks {
        r := Ok(Some(linkBlocks[t]));
      } else {
        r := if skipMissing then Ok(None) else Err(KeyError);
      }
    }

    /**
     * add_link_block: the block must be a Links block; it is merged into this
     * node's block for the given type, else for the block's own links type.
     */
    method AddLinkBlock(block: Block, linkType: Option<LinkType>) returns (o: Outcome)
      modifies this`linkBlocks, linkBlocks.Values
      ensures KeptOrNew()
      ensures block.tag != Known(Links) ==> o == Fail(AssertionError) && linkBlocks == old(linkBlocks)
      ensures forall b :: b in old(linkBlocks.Values) ==> old(b.items) <= b.items
      ensures block.tag == Known(Links) ==> (
                var t := old(LinkBlockType(block, linkType));
                var mine := if t in old(linkBlocks) then old(linkBlocks[t].items) else [];
                && t in linkBlocks
                && linkBlocks == (if t in old(linkBlocks) then old(linkBlocks) else old(linkBlocks)[t := linkBlocks[t]])
                && (t !in old(linkBlocks) ==> fresh(linkBlocks[t]) && linkBlocks[t].tag == Known(Links))
                && (linkBlocks[t].tag != Known(Links) ==> o == Fail(AssertionError))
                && (linkBlocks[t].tag == Known(Links) ==> (linkBlocks[t].items, o) == MergeInto(Known(Links), mine, old(block.items))))
    {
      if block.tag != Known(Links) {
        return Fail(AssertionError);
      }
      var t: LinkType;
      if linkType.Some? {
        t := linkType.value;
      } else {
        t := block.LinksType();
      }
      assert t == LinkBlockType(block, linkType);
      o := MergeIntoLinkBlock(t, block);
    }

    /** The merge step of add_link_block: the block for t, created when missing, takes in the other block. */
    method MergeIntoLinkBlock(t: LinkType, block: Block) returns (o: Outcome)
      modifies this`linkBlocks, linkBlocks.Values
      ensures t in linkBlocks
      ensures linkBlocks == if t in old(linkBlocks) then old(linkBlocks) else old(linkBlocks)[t := linkBlocks[t]]
      ensures t !in old(linkBlocks) ==> fresh(linkBlocks[t]) && linkBlocks[t].tag == Known(Links)
      ensures forall b :: b in old(linkBlocks.Values) ==> old(b.items) <= b.items
      ensures var mine := if t in old(linkBlocks) then old(linkBlocks[t].items) else [];
        && (linkBlocks[t].tag != block.tag ==> o == Fail(AssertionError))
        && (linkBlocks[t].tag == block.tag ==> (linkBlocks[t].items, o) == MergeInto(block.tag, mine, old(block.items)))
    {
      ghost var mine := if t in linkBlocks then linkBlocks[t].items else [];
      var target := EnsureLinkBlock(t);
      assert target.items == mine;
      o := target.MergeBlock(block);
      MergeIntoGrows(block.tag, mine, old(block.items));
    }

    /**
     * add_outgoing_link: the link goes at the end of the link block for its
     * type, which is created empty when missing; with register the link's edge
     * is passed to add_edge.
     */
    method AddOutgoingLink(g: Graph, link: Link, register: bool) returns (o: Outcome)
      requires g.Valid()
      modifies this`linkBlocks, linkBlocks.Values, g
      ensures g.Valid()
      ensures link.Type() in linkBlocks
      ensures linkBlocks == if link.Type() in old(linkBlocks) then old(linkBlocks) else old(linkBlocks)[link.Type() := linkBlocks[link.Type()]]
      ensures link.Type() !in old(linkBlocks) ==> fresh(linkBlocks[link.Type()]) && linkBlocks[link.Type()].anchor == VStr(LinkValue(link.Type()))
      ensures var mine := if link.Type() in old(linkBlocks) then old(linkBlocks[link.Type()].items) else [];
        && (Accepts(linkBlocks[link.Type()].tag, LinkItem(link)) ==> linkBlocks[link.Type()].items == mine + [LinkItem(link)])
        && (!Accepts(linkBlocks[link.Type()].tag, LinkItem(link)) ==>
              o == Fail(AssertionError) && linkBlocks[link.Type()].items == mine && unchanged(g))
      ensures !register ==> unchanged(g)
      ensures register && Accepts(linkBlocks[link.Type()].tag, LinkItem(link)) ==> g.edges == if link.edge.NameTuple() in old(g.edges) then old(g.edges) else old(g.edges)[link.edge.NameTuple() := link.edge]
      ensures o.Fail? ==> o.error == AssertionError
      ensures !IsHidden()
    {
      var t := link.Type();
      var block := EnsureLinkBlock(t);
      assert linkBlocks != map[] by {
        assert t in linkBlocks;
      }
      o := block.AppendItem(LinkItem(link));
      if register && o.Pass? {
        o := g.AddEdge(link.edge);
      }
    }

    /**
     * add_content_block: a dictionary goes through Block.from_dict and a
     * BlockType becomes an empty block of that type; anything but a block is
     * refused; a block not yet in the list (by identity) is appended.
     */
    method AddContentBlock(arg: BlockArg) returns (o: Outcome)
      modifies this`contentBlocks
      ensures arg.AOther? ==> o == Fail(AssertionError) && contentBlocks == old(contentBlocks)
      ensures arg.ABlock? ==> o == Pass && contentBlocks == Union(old(contentBlocks), [arg.block])
      ensures arg.AType? ==> (o == Pass && |contentBlocks| == |old(contentBlocks)| + 1 &&
                              contentBlocks[..|old(contentBlocks)|] == old(contentBlocks) &&
                              fresh(contentBlocks[|old(contentBlocks)|]) && contentBlocks[|old(contentBlocks)|].tag == Known(arg.t) &&
                              contentBlocks[|old(contentBlocks)|].items == [])
      ensures arg.ADict? && ReadBlockDict(arg.d).Err? ==> o == Fail(ReadBlockDict(arg.d).error) && contentBlocks == old(contentBlocks)
      ensures arg.ADict? && ReadBlockDict(arg.d).Ok? ==> (o == Pass && |contentBlocks| == |old(contentBlocks)| + 1 &&
                              contentBlocks[..|old(contentBlocks)|] == old(contentBlocks) &&
                              fresh(contentBlocks[|old(contentBlocks)|]))
    {
      var block: Block;
      match arg {
        case AOther =>
          return Fail(AssertionError);
        case ABlock(b) =>
          block := b;
        case AType(t) =>
          block := new Block(VNone, Known(t), [], VNone);
        case ADict(d) =>
          var r := Block.FromDict(d);
          if r.Err? {
            return Fail(r.error);
          }
          block := r.value;
      }
      UnionOne(contentBlocks, block);
      if block !in contentBlocks {
        contentBlocks := contentBlocks + [block];
      }
      o := Pass;
    }

    /** The last content block, as a frame. */
    function LastBlock(): set<Block>
      reads this
    {
      if contentBlocks == [] then {} else {contentBlocks[|contentBlocks| - 1]}
    }

    /** The last content block exists and has block type t. */
    predicate LastIs(t: BlockType)
      reads this
    {
      contentBlocks != [] && contentBlocks[|contentBlocks| - 1].tag == Known(t)
    }

    /**
     * add_content_item: the type must resolve; an item for the type of the
     * last content block goes through that block's append_item, and otherwise
     * a new block holding just the item is appended.
     */
    method AddContentItem(item: Item, blockType: TypeArg<BlockType>) returns (o: Outcome)
      modifies this`contentBlocks, LastBlock()
      ensures KeptOrNew()
      ensures ResolvedBlockType(blockType).None? ==> o == Fail(ValueError) && contentBlocks == old(contentBlocks) && unchanged(old(LastBlock()))
      ensures ResolvedBlockType(blockType).Some? && old(LastIs(ResolvedBlockType(blockType).value)) ==> contentBlocks == old(contentBlocks)
      ensures ResolvedBlockType(blockType).Some? && !old(LastIs(ResolvedBlockType(blockType).value)) ==> (
                && o == Pass && |contentBlocks| == |old(contentBlocks)| + 1 && contentBlocks[..|old(contentBlocks)|] == old(contentBlocks)
                && fresh(contentBlocks[|old(contentBlocks)|])
                && contentBlocks[|old(contentBlocks)|].tag == Known(ResolvedBlockType(blockType).value)
                && contentBlocks[|old(contentBlocks)|].items == [item])
      ensures (ResolvedBlockType(blockType).Some? && old(LastIs(ResolvedBlockType(blockType).value))
               && Accepts(Known(ResolvedBlockType(blockType).value), item)) ==> (
                && o == Pass
                && contentBlocks[|contentBlocks| - 1].items == old(contentBlocks[|contentBlocks| - 1].items) + [item])
      ensures (ResolvedBlockType(blockType).Some? && old(LastIs(ResolvedBlockType(blockType).value))
               && !Accepts(Known(ResolvedBlockType(blockType).value), item)) ==> (
                && o == Fail(AssertionError)
                && contentBlocks[|contentBlocks| - 1].items == old(contentBlocks[|contentBlocks| - 1].items))
      ensures o.Pass? ==> !IsHidden() && contentBlocks != [] && contentBlocks[|contentBlocks| - 1].items != []
      ensures o.Pass? ==> contentBlocks[|contentBlocks| - 1].items[|contentBlocks[|contentBlocks| - 1].items| - 1] == item
      ensures o.Pass? ==> ResolvedBlockType(blockType).Some? && LastIs(ResolvedBlockType(blockType).value) && EndsWith(item)
      ensures forall b :: b in contentBlocks ==> b in old(contentBlocks) || fresh(b)
    {
      var bt := ResolvedBlockType(blockType);
      if bt.None? {
        return Fail(ValueError);
      }
      var t := bt.value;
      if contentBlocks != [] && contentBlocks[|contentBlocks| - 1].tag == Known(t) {
        o := contentBlocks[|contentBlocks| - 1].AppendItem(item);
      } else {
        var block := new Block(VNone, Known(t), [item], VNone);
        o := AddContentBlock(ABlock(block));
        assert block !in old(contentBlocks);
      }
    }

    /** has_outgoing_link_to_node: some link of the node has a target of the other node's name. */
    method HasOutgoingLinkTo(other: Node) returns (r: bool)
      ensures r <==> exists i :: 0 <= i < |AllLinks()| && AllLinks()[i].TargetNode().Name() == other.Name()
    {
      var links := AllLinks();
      var i := 0;
      while i < |links|
        invariant 0 <= i <= |links|
        invariant forall j :: 0 <= j < i ==> links[j].TargetNode().Name() != other.Name()
      {
        if links[i].TargetNode().Name() == other.Name() {
          return true;
        }
        i := i + 1;
      }
      r := false;
    }

    /**
     * merge_node's link-block loop, taking the link types in the order ts:
     * the block of theirs for each type is merged into this node's block for
     * that type; the first refusal stops it.
     */
    method MergeLinkBlocks(theirs: map<LinkType, Block>, ts: seq<LinkType>) returns (o: Outcome)
      modifies this`linkBlocks, linkBlocks.Values
      ensures forall t :: t in old(linkBlocks) ==> t in linkBlocks && linkBlocks[t] == old(linkBlocks[t])
      ensures forall t :: t in linkBlocks && t !in old(linkBlocks) ==> t in theirs && fresh(linkBlocks[t])
      ensures forall b :: b in old(linkBlocks.Values) ==> old(b.items) <= b.items
      ensures o.Pass? ==> forall t :: t in theirs && t in ts ==> t in linkBlocks && Covers(linkBlocks[t].items, old(theirs[t].items))
      ensures o.Fail? ==> o.error == AssertionError
      ensures old(Mergeable(linkBlocks, theirs)) ==> o == Pass
    {
      var i := 0;
      o := Pass;
      while i < |ts|
        invariant 0 <= i <= |ts|
        invariant o == Pass
        invariant forall t :: t in old(linkBlocks) ==> t in linkBlocks && linkBlocks[t] == old(linkBlocks[t])
        invariant forall t :: t in linkBlocks && t !in old(linkBlocks) ==> t in theirs && fresh(linkBlocks[t]) && linkBlocks[t].tag == Known(Links)
        invariant forall b :: b in old(linkBlocks.Values) ==> old(b.items) <= b.items
        invariant forall t :: t in theirs ==> old(theirs[t].items) <= theirs[t].items
        invariant forall j :: 0 <= j < i && ts[j] in theirs ==> ts[j] in linkBlocks && Covers(linkBlocks[ts[j]].items, old(theirs[ts[j]].items))
        invariant old(Mergeable(linkBlocks, theirs)) ==>
                    forall t :: t in theirs ==> theirs[t].items == old(theirs[t].items) && theirs[t] !in linkBlocks.Values
      {
        var t := ts[i];
        if t in theirs {
          label Before:
          o := MergeTyped(t, theirs[t]);
          if o.Fail? {
            return;
          }
          CoversPrefix(linkBlocks[t].items, old@Before(theirs[t].items), old(theirs[t].items));
          forall j | 0 <= j < i && ts[j] in theirs
            ensures Covers(linkBlocks[ts[j]].items, old(theirs[ts[j]].items))
          {
            CoversGrow(old@Before(linkBlocks[ts[j]].items), linkBlocks[ts[j]].items, old(theirs[ts[j]].items));
          }
        }
        i := i + 1;
      }
    }

    /** add_link_block(block, link_type=t), as merge_node's loop calls it. */
    method MergeTyped(t: LinkType, block: Block) returns (o: Outcome)
      modifies this`linkBlocks, linkBlocks.Values
      ensures forall k :: k in old(linkBlocks) ==> k in linkBlocks && linkBlocks[k] == old(linkBlocks[k])
      ensures forall k :: k in linkBlocks && k !in old(linkBlocks) ==> k == t && fresh(linkBlocks[k]) && linkBlocks[k].tag == Known(Links)
      ensures forall b :: b in old(linkBlocks.Values) ==> old(b.items) <= b.items
      ensures o.Pass? ==> t in linkBlocks && Covers(linkBlocks[t].items, old(block.items))
      ensures o.Fail? ==> o.error == AssertionError
      ensures (old(block.tag == Known(Links) && (forall i :: 0 <= i < |block.items| ==> block.items[i].LinkItem?) &&
                   (t in linkBlocks ==> linkBlocks[t].tag == Known(Links)))) ==> o == Pass
    {
      ghost var mine := if t in linkBlocks then linkBlocks[t].items else [];
      MergeIntoFails(Known(Links), mine, block.items);
      o := AddLinkBlock(block, Some(t));
      if o.Pass? {
        MergedCovers(Known(Links), mine, old(block.items));
      }
    }

    /**
     * merge_node: the names must agree; the other node's titles are added in
     * order; its content links are handed to add_content_block, which refuses
     * any link, so a node whose content holds a link fails the merge (and its
     * content blocks are never copied); its link blocks are merged into this
     * node's blocks of the same types.
     */
    method MergeNode(other: Node) returns (o: Outcome)
      modifies this`titles, this`linkBlocks, linkBlocks.Values
      ensures old(Name() != other.Name()) ==> o == Fail(AssertionError) && titles == old(titles)
      ensures old(Name() == other.Name()) ==> titles == Union(old(titles), old(other.titles))
      ensures old(Name() != other.Name() || other.HasContentLinks()) ==> (
                && o == Fail(AssertionError) && linkBlocks == old(linkBlocks)
                && forall b :: b in old(linkBlocks.Values) ==> b.items == old(b.items))
      ensures forall t :: t in old(linkBlocks) ==> t in linkBlocks && linkBlocks[t] == old(linkBlocks[t])
      ensures forall t :: t in linkBlocks && t !in old(linkBlocks) ==> t in old(other.linkBlocks) && fresh(linkBlocks[t])
      ensures forall b :: b in old(linkBlocks.Values) ==> old(b.items) <= b.items
      ensures o.Pass? ==> (forall t :: t in old(other.linkBlocks) ==>
                             t in linkBlocks && Covers(linkBlocks[t].items, old(other.linkBlocks[t].items)))
      ensures o.Fail? ==> o.error == AssertionError
      ensures old(Name() == other.Name() && !other.HasContentLinks() && Mergeable(linkBlocks, other.linkBlocks)) ==> o == Pass
    {
      if Name() != other.Name() {
        return Fail(AssertionError);
      }
      var theirs := other.linkBlocks;
      var contentLinks := other.HasContentLinks();
      AddTitles(other.titles);
      if contentLinks {
        return Fail(AssertionError);
      }
      EnumListingsComplete();
      o := MergeLinkBlocks(theirs, AllLinkTypes);
    }

    /** merge_node's title loop: add_title on each title in order. */
    method AddTitles(ts: seq<string>)
      modifies this`titles
      ensures titles == Union(old(titles), ts)
    {
      var i := 0;
      while i < |ts|
        invariant 0 <= i <= |ts|
        invariant titles == Union(old(titles), ts[..i])
      {
        UnionPrefixStep(old(titles), ts, i);
        AddTitle(ts[i]);
        i := i + 1;
      }
      assert ts[..i] == ts;
    }

    /**
     * register: a node whose name the graph lacks is added; a known name needs
     * allow_merge (else ValueError), and the node is then merged into the
     * graph's node of that name, which is the result.
     */
    method Register(g: Graph, allowMerge: bool) returns (r: Result<Node>)
      requires g.Valid()
      modifies g, g.NodeAt(Name()), g.BlocksAt(Name())
      ensures g.Valid()
      ensures old(Name()) !in old(g.nodes) ==> r == Ok(this) && g.nodes == old(g.nodes)[old(Name()) := this]
      ensures old(Name()) in old(g.nodes) && !allowMerge ==> r == Err(ValueError) && unchanged(g)
      ensures old(Name()) in old(g.nodes) && allowMerge ==> (
                var n := old(g.nodes[Name()]);
                && unchanged(g)
                && (r.Ok? ==> r.value == n)
                && (r.Err? ==> r.error == AssertionError)
                && (old(n.Name() == Name()) ==> n.titles == Union(old(n.titles), old(titles)))
                && (r.Ok? ==> forall t :: t in old(linkBlocks) ==> t in n.linkBlocks && Covers(n.linkBlocks[t].items, old(linkBlocks[t].items)))
                && (old(n.Name() == Name() && !HasContentLinks() && Mergeable(n.linkBlocks, linkBlocks)) ==> r == Ok(n)))
    {
      var name := Name();
      if name in g.nodes {
        if !allowMerge {
          return Err(ValueError);
        }
        var n := g.nodes[name];
        var o := n.MergeNode(this);
        r := if o.Pass? then Ok(n) else Err(o.error);
      } else {
        g.AddNode(this);
        r := Ok(this);
      }
    }

    /**
     * add_link_by_type_and_target: the type is resolved (ValueError when it
     * does not), the target is looked up with get_node, creating it when
     * allowed, and the link built from this node to it is added with
     * add_outgoing_link. The result is the link added.
     */
    method AddLinkByTypeAndTarget(g: Graph, linkType: TypeArg<LinkType>, target: NodeArg, caption: Value,
                                  register: bool, allowCreate: bool, hashName: string) returns (r: Result<Link>)
      requires g.Valid()
      requires hashName != []
      modifies g, this`linkBlocks, linkBlocks.Values
      ensures g.Valid()
      ensures ResolvedLinkType(linkType).None? ==> r == Err(ValueError) && unchanged(g) && linkBlocks == old(linkBlocks)
      ensures ResolvedLinkType(linkType).Some? && old(g.Found(target)).Err? ==> r == Err(AssertionError) && unchanged(g) && linkBlocks == old(linkBlocks)
      ensures (ResolvedLinkType(linkType).Some? && old(g.Found(target)) == Ok(None) && !allowCreate) ==> (
                r == Err(AssertionError) && unchanged(g) && linkBlocks == old(linkBlocks))
      ensures r.Ok? ==> ResolvedLinkType(linkType).Some? && fresh(r.value) && r.value.Type() == ResolvedLinkType(linkType).value
      ensures r.Ok? ==> (
                var t := r.value.Type();
                && t in linkBlocks && linkBlocks[t].items != []
                && linkBlocks[t].items[|linkBlocks[t].items| - 1] == LinkItem(r.value))
      ensures r.Ok? && register ==> r.value.edge.NameTuple() in g.edges
      ensures r.Err? ==> r.error == AssertionError || r.error == ValueError || r.error == TypeError
      ensures forall b :: b in linkBlocks.Values ==> b in old(linkBlocks.Values) || fresh(b)
    {
      var lt := ResolvedLinkType(linkType);
      if lt.None? {
        return Err(ValueError);
      }
      var to := g.GetNode(target, allowCreate, hashName);
      if to.Err? {
        return Err(to.error);
      }
      r := LinkTo(g, lt.value, to.value, caption, register);
    }

    /** The last two steps of add_link_by_type_and_target: build_link_from_nodes, then add_outgoing_link. */
    method LinkTo(g: Graph, t: LinkType, to: Option<Node>, caption: Value, register: bool) returns (r: Result<Link>)
      requires g.Valid()
      modifies g, this`linkBlocks, linkBlocks.Values
      ensures g.Valid()
      ensures to.None? ==> r == Err(AssertionError) && unchanged(g) && linkBlocks == old(linkBlocks)
      ensures r.Ok? ==> fresh(r.value) && r.value.Type() == t
      ensures r.Ok? ==> t in linkBlocks && linkBlocks[t].items != [] && linkBlocks[t].items[|linkBlocks[t].items| - 1] == LinkItem(r.value)
      ensures r.Ok? && register ==> r.value.edge.NameTuple() in g.edges
      ensures r.Err? ==> r.error == AssertionError || r.error == ValueError || r.error == TypeError
      ensures forall b :: b in linkBlocks.Values ==> b in old(linkBlocks.Values) || fresh(b)
    {
      var toArg := if to.Some? then Some(ByNode(to.value)) else None;
      r := Link.BuildLinkFromNodes(g, ByNode(this), toArg, Member(t), caption, false);
      if r.Err? {
        return;
      }
      var o := AddOutgoingLink(g, r.value, register);
      if o.Fail? {
        r := Err(o.error);
      }
    }

    // -------------------------------------------------------------------------
    // Ingestion of parsed dictionaries

    /** The node's content blocks and link blocks, as a frame. */
    function Blocks(): set<Block>
      reads this
    {
      (set b | b in contentBlocks) + linkBlocks.Values
    }

    /** Every block the node holds now it held before, or it is new. */
    twostate predicate KeptOrNew()
      reads this
    {
      forall b :: b in Blocks() ==> b in old(Blocks()) || fresh(b)
    }

    /** The last content block ends with the item. */
    predicate EndsWith(item: Item)
      reads this, contentBlocks
    {
      contentBlocks != [] && var items := contentBlocks[|contentBlocks| - 1].items; items != [] && items[|items| - 1] == item
    }

    /** Neither the node nor any of the blocks bs (those it held) has changed. */
    twostate predicate Untouched(bs: set<Block>)
      reads this, bs
    {
      unchanged(this) && unchanged(bs)
    }

    /**
     * add_primitive_value: 'name' sets the name without renaming, 'titles'
     * adds a title, a link type key links to the node the value names
     * (created when missing), a block type key adds the value as a content
     * item of that type, and any other key is a ValueError.
     */
    method AddPrimitiveValue(g: Graph, key: string, value: Value, hashName: string) returns (o: Outcome)
      requires g.Valid() && IsPrimitive(value) && hashName != []
      modifies this`name, this`titles, this`contentBlocks, this`linkBlocks, Blocks(), g
      ensures g.Valid() && KeptOrNew()
      ensures PrimitiveRouteOf(key) != NameRoute ==> name == old(name)
      ensures PrimitiveRouteOf(key) != TitleRoute ==> titles == old(titles)
      ensures PrimitiveRouteOf(key) != ItemRoute ==> contentBlocks == old(contentBlocks)
      ensures PrimitiveRouteOf(key) != LinkRoute ==> linkBlocks == old(linkBlocks)
      ensures PrimitiveRouteOf(key) == NameRoute ==> (
                && (o.Pass? ==> name == Render(value))
                && (o.Fail? ==> name == old(name))
                && (old(name) == [] || old(name) == Render(value) ==> o == Pass && unchanged(g)))
      ensures PrimitiveRouteOf(key) == TitleRoute ==> o == Pass && titles == Union(old(titles), [Render(value)]) && unchanged(g)
      ensures PrimitiveRouteOf(key) == LinkRoute && !value.VStr? ==> o == Fail(AttributeError) && Untouched(old(Blocks())) && unchanged(g)
      ensures (PrimitiveRouteOf(key) == LinkRoute && o.Pass?) ==> EndsWithLink(ResolvedLinkType(Str(key)))
      ensures (PrimitiveRouteOf(key) == ItemRoute && o.Pass?) ==>
                ResolvedBlockType(Str(key)).Some? && LastIs(ResolvedBlockType(Str(key)).value) && EndsWith(ItemOf(value))
      ensures PrimitiveRouteOf(key) == ItemRoute ==> unchanged(g)
      ensures PrimitiveRouteOf(key) == UnknownRoute ==> o == Fail(ValueError) && Untouched(old(Blocks())) && unchanged(g)
    {
      if key == "name" {
        o := SetName(g, Render(value), false);
      } else if key == "titles" {
        AddTitle(Render(value));
        o := Pass;
      } else {
        o := AddTypedValue(g, key, value, hashName);
      }
    }

    /** The last tests of add_primitive_value: a link type key, then a block type key, else ValueError. */
    method AddTypedValue(g: Graph, key: string, value: Value, hashName: string) returns (o: Outcome)
      requires g.Valid() && hashName != []
      modifies this`contentBlocks, this`linkBlocks, Blocks(), g
      ensures g.Valid() && KeptOrNew()
      ensures LinkTypes.HasType(Str(key)) ==> (
                && contentBlocks == old(contentBlocks)
                && (!value.VStr? ==> o == Fail(AttributeError) && Untouched(old(Blocks())) && unchanged(g))
                && (o.Pass? ==> EndsWithLink(ResolvedLinkType(Str(key)))))
      ensures !LinkTypes.HasType(Str(key)) ==> linkBlocks == old(linkBlocks) && unchanged(g)
      ensures !LinkTypes.HasType(Str(key)) && BlockTypes.HasType(Str(key)) && o.Pass? ==>
                ResolvedBlockType(Str(key)).Some? && LastIs(ResolvedBlockType(Str(key)).value) && EndsWith(ItemOf(value))
      ensures !LinkTypes.HasType(Str(key)) && !BlockTypes.HasType(Str(key)) ==> o == Fail(ValueError) && Untouched(old(Blocks()))
    {
      if LinkTypes.HasType(Str(key)) {
        o := AddLinkToValue(g, key, value, hashName);
      } else if BlockTypes.HasType(Str(key)) {
        o := AddContentItem(ItemOf(value), Str(key));
      } else {
        o := Fail(ValueError);
      }
    }

    /** The link ending the link block for the type, as a frame. */
    function LastLink(t: Option<LinkType>): set<Link>
      reads this, linkBlocks.Values
    {
      if t.Some? && t.value in linkBlocks && linkBlocks[t.value].items != [] &&
         linkBlocks[t.value].items[|linkBlocks[t.value].items| - 1].LinkItem?
      then {linkBlocks[t.value].items[|linkBlocks[t.value].items| - 1].link}
      else {}
    }

    /** The link block for the type ends with a new link of that type. */
    twostate predicate EndsWithLink(t: Option<LinkType>)
      reads this, linkBlocks.Values, LastLink(t)
    {
      && t.Some? && t.value in linkBlocks && linkBlocks[t.value].items != []
      && var last := linkBlocks[t.value].items[|linkBlocks[t.value].items| - 1];
      && last.LinkItem? && fresh(last.link)
      && last.link.Type() == t.value
    }

    /**
     * add_primitive_value under a link type key: add_link_by_type_and_target
     * to the node the value names, created when missing. get_node takes a
     * value that is not a string for an object and asks it for its name,
     * which an int or a bool does not have (AttributeError).
     */
    method AddLinkToValue(g: Graph, key: string, value: Value, hashName: string) returns (o: Outcome)
      requires g.Valid() && hashName != []
      modifies g, this`linkBlocks, linkBlocks.Values
      ensures g.Valid() && KeptOrNew()
      ensures !value.VStr? ==> o == Fail(AttributeError) && unchanged(g) && unchanged(this) && unchanged(old(linkBlocks.Values))
      ensures o.Pass? ==> EndsWithLink(ResolvedLinkType(Str(key)))
    {
      if !value.VStr? {
        return Fail(AttributeError);
      }
      var r := AddLinkByTypeAndTarget(g, Str(key), ByName(value.s), VNone, true, true, hashName);
      if r.Ok? {
        assert ResolvedLinkType(Str(key)) == Some(r.value.Type());
      }
      o := if r.Ok? then Pass else Fail(r.error);
    }

    /**
     * add_link_block_from_dict: a new Links block titled with obj['title'] and
     * anchored with the type name gets, for each string item, the link
     * build_link_from_nodes makes from this node to the node of that name; an
     * item that is neither a string nor a dictionary is refused (the first one
     * with UnboundLocalError, since the error message names the link of an
     * earlier round); the block then goes through add_link_block.
     */
    method AddLinkBlockFromDict(g: Graph, obj: Dict) returns (o: Outcome)
      requires g.Valid()
      requires !ItemsNestLinkDict(obj)
      modifies g, this`linkBlocks, linkBlocks.Values
      ensures g.Valid()
      ensures forall b :: b in linkBlocks.Values ==> b in old(linkBlocks.Values) || fresh(b)
      ensures var title := PyGet(obj, "title");
        !(title.VStr? || title.VNone?) ==> o == Fail(AssertionError) && unchanged(g) && unchanged(this) && unchanged(old(linkBlocks.Values))
      ensures var title := PyGet(obj, "title");
        (title.VStr? || title.VNone?) && Iterated(LinkBlockItems(obj)).Err? ==>
          o == Fail(TypeError) && unchanged(g) && unchanged(this) && unchanged(old(linkBlocks.Values))
      ensures var title := PyGet(obj, "title"); var items := Iterated(LinkBlockItems(obj));
        ((title.VStr? || title.VNone?) && items.Ok? && items.value != [] && !items.value[0].VStr?) ==>
          o == Fail(UnboundLocalError) && unchanged(g) && unchanged(this) && unchanged(old(linkBlocks.Values))
      ensures o.Pass? && AnchorType(LinkBlockTypeName(obj)).Some? ==> AnchorType(LinkBlockTypeName(obj)).value in linkBlocks
      ensures o.Fail? ==> o.error in {AssertionError, ValueError, TypeError, UnboundLocalError}
    {
      var built := NamedLinkBlock(g, obj);
      if built.Err? {
        return Fail(built.error);
      }
      var block := built.value;
      o := AddLinkBlock(block, None);
    }

    /**
     * The first part of add_link_block_from_dict: the new Links block, anchored
     * with the type name, filled with one link per string item.
     */
    method NamedLinkBlock(g: Graph, obj: Dict) returns (r: Result<Block>)
      requires g.Valid()
      requires !ItemsNestLinkDict(obj)
      modifies g
      ensures g.Valid()
      ensures r.Ok? ==> fresh(r.value) && r.value.tag == Known(Links) && r.value.anchor == LinkBlockTypeName(obj)
      ensures var title := PyGet(obj, "title");
        !(title.VStr? || title.VNone?) ==> r == Err(AssertionError) && unchanged(g)
      ensures var title := PyGet(obj, "title");
        (title.VStr? || title.VNone?) && Iterated(LinkBlockItems(obj)).Err? ==> r == Err(TypeError) && unchanged(g)
      ensures var title := PyGet(obj, "title"); var items := Iterated(LinkBlockItems(obj));
        ((title.VStr? || title.VNone?) && items.Ok? && items.value != [] && !items.value[0].VStr?) ==>
          r == Err(UnboundLocalError) && unchanged(g)
      ensures r.Err? ==> r.error in {AssertionError, ValueError, TypeError, UnboundLocalError}
    {
      var typeName := LinkBlockTypeName(obj);
      var built := Block.Build(PyGet(obj, "title"), Member(Links), [], typeName);
      if built.Err? {
        return Err(built.error);
      }
      var block := built.value;
      var items := Iterated(LinkBlockItems(obj));
      if items.Err? {
        return Err(items.error);
      }
      var o := AddNamedLinks(g, block, items.value, ArgOf(typeName));
      if o.Fail? {
        return Err(o.error);
      }
      r := Ok(block);
    }

    /**
     * The loop of add_link_block_from_dict: each string item becomes the link
     * from this node to the node of that name, appended to the block; the
     * first item that is not a string ends it.
     */
    method AddNamedLinks(g: Graph, block: Block, xs: seq<Value>, linkType: TypeArg<LinkType>) returns (o: Outcome)
      requires g.Valid() && block.tag == Known(Links)
      requires forall i :: 0 <= i < |xs| ==> !xs[i].VDict?
      modifies g, block
      ensures g.Valid() && block.anchor == old(block.anchor)
      ensures xs != [] && !xs[0].VStr? ==> o == Fail(UnboundLocalError) && unchanged(g)
      ensures o.Pass? ==> (
                && |block.items| == |old(block.items)| + |xs| && block.items[..|old(block.items)|] == old(block.items)
                && forall i :: |old(block.items)| <= i < |block.items| ==>
                     block.items[i].LinkItem? && fresh(block.items[i].link))
      ensures o.Fail? ==> o.error in {AssertionError, ValueError, TypeError, UnboundLocalError}
    {
      var i := 0;
      while i < |xs|
        invariant 0 <= i <= |xs|
        invariant g.Valid() && block.anchor == old(block.anchor)
        invariant i > 0 ==> xs[0].VStr?
        invariant |block.items| == |old(block.items)| + i && block.items[..|old(block.items)|] == old(block.items)
        invariant forall j :: |old(block.items)| <= j < |block.items| ==>
                    block.items[j].LinkItem? && fresh(block.items[j].link)
        invariant i == 0 ==> unchanged(g)
      {
        if !xs[i].VStr? {
          return Fail(if i == 0 then UnboundLocalError else TypeError);
        }
        var link := LinkToName(g, xs[i].s, linkType);
        if link.Err? {
          return Fail(link.error);
        }
        var appended := block.AppendItem(LinkItem(link.value));
        assert appended == Pass;
        i := i + 1;
      }
      o := Pass;
    }

    /** build_link_from_nodes(from_node=self, to_node=name, link_type=linkType), as the loop above uses it. */
    method LinkToName(g: Graph, name: string, linkType: TypeArg<LinkType>) returns (r: Result<Link>)
      requires g.Valid()
      modifies g
      ensures g.Valid()
      ensures r.Ok? ==> fresh(r.value) && Some(r.value.Type()) == ResolvedLinkType(linkType)
      ensures r.Ok? ==> old(g.Resolve(ByNode(this))) == Some(r.value.SourceNode()) && old(g.Resolve(ByName(name))) == Some(r.value.TargetNode())
      ensures name == "" ==> r == Err(AssertionError)
      ensures r.Err? ==> r.error in {AssertionError, ValueError, TypeError}
    {
      r := Link.BuildLinkFromNodes(g, ByNode(this), Some(ByName(name)), linkType, VNone, false);
    }

    /**
     * add_dict_value: the key is canonicalised again; an 'info' dictionary is
     * flattened to one 'key: value' line, a 'links' dictionary is read as a
     * link block, a dictionary under another block type key is read with
     * Block.from_dict and kept as a content block (or merged as a link block
     * when it is a Links block), and any other key is a ValueError.
     */
    method AddDictValue(g: Graph, key: Value, d: Dict, hashName: string) returns (o: Outcome)
      requires g.Valid() && hashName != []
      requires !NestsLinkDict(key, d)
      modifies this`name, this`titles, this`contentBlocks, this`linkBlocks, Blocks(), g
      ensures g.Valid() && KeptOrNew()
      ensures name == old(name) && titles == old(titles)
      ensures DictRouteOf(key).PrimitiveDict? ==> (
                && linkBlocks == old(linkBlocks) && unchanged(g)
                && (o.Pass? ==> LastIs(Info) && EndsWith(Line(FlattenEntries(d)))))
      ensures DictRouteOf(key) == LinkBlockDict ==> (
                && contentBlocks == old(contentBlocks)
                && (o.Pass? && AnchorType(LinkBlockTypeName(d)).Some? ==> AnchorType(LinkBlockTypeName(d)).value in linkBlocks))
      ensures DictRouteOf(key) == BlockDict && ReadBlockDict(d).Err? ==>
                o == Fail(ReadBlockDict(d).error) && Untouched(old(Blocks())) && unchanged(g)
      ensures DictRouteOf(key) == BlockDict && ReadBlockDict(d).Ok? && ReadBlockDict(d).value.tag != Known(Links) ==> (
                && o == Pass && linkBlocks == old(linkBlocks) && unchanged(g)
                && |contentBlocks| == |old(contentBlocks)| + 1 && contentBlocks[..|old(contentBlocks)|] == old(contentBlocks)
                && var b := contentBlocks[|old(contentBlocks)|];
                && fresh(b) && BlockFields(b.title, b.tag, b.items, b.anchor) == ReadBlockDict(d).value)
      ensures DictRouteOf(key) == Unsupported ==> o == Fail(ValueError) && Untouched(old(Blocks())) && unchanged(g)
    {
      match DictRouteOf(key)
      case PrimitiveDict(k) =>
        OnlyInfoFlattened(key);
        o := AddFlattened(g, d, hashName);
      case LinkDict(_) =>
        assert false;
      case LinkBlockDict =>
        o := AddLinkBlockFromDict(g, d);
      case BlockDict =>
        o := AddBlockFromDict(d);
      case Unsupported =>
        o := Fail(ValueError);
    }

    /** add_dict_value under 'info': add_primitive_value('info', the entries flattened to one line). */
    method AddFlattened(g: Graph, d: Dict, hashName: string) returns (o: Outcome)
      requires g.Valid() && hashName != []
      modifies this`name, this`titles, this`contentBlocks, this`linkBlocks, Blocks(), g
      ensures g.Valid() && KeptOrNew()
      ensures name == old(name) && titles == old(titles) && linkBlocks == old(linkBlocks) && unchanged(g)
      ensures o.Pass? ==> LastIs(Info) && EndsWith(Line(FlattenEntries(d)))
    {
      InfoTextIsInfoItem();
      o := AddPrimitiveValue(g, "info", VStr(FlattenEntries(d)), hashName);
    }

    /** add_dict_value under a block type key: Block.from_dict, then add_link_block or add_content_block. */
    method AddBlockFromDict(d: Dict) returns (o: Outcome)
      modifies this`contentBlocks, this`linkBlocks, linkBlocks.Values
      ensures KeptOrNew() && name == old(name) && titles == old(titles)
      ensures ReadBlockDict(d).Err? ==> o == Fail(ReadBlockDict(d).error) && Untouched(old(Blocks()))
      ensures ReadBlockDict(d).Ok? && ReadBlockDict(d).value.tag == Known(Links) ==> contentBlocks == old(contentBlocks)
      ensures ReadBlockDict(d).Ok? && ReadBlockDict(d).value.tag != Known(Links) ==> (
                && o == Pass && linkBlocks == old(linkBlocks)
                && |contentBlocks| == |old(contentBlocks)| + 1 && contentBlocks[..|old(contentBlocks)|] == old(contentBlocks)
                && var b := contentBlocks[|old(contentBlocks)|];
                && fresh(b) && BlockFields(b.title, b.tag, b.items, b.anchor) == ReadBlockDict(d).value)
    {
      var r := Block.FromDict(d);
      if r.Err? {
        return Fail(r.error);
      }
      var block := r.value;
      if block.tag == Known(Links) {
        o := AddLinkBlock(block, None);
      } else {
        o := AddContentBlock(ABlock(block));
        UnionOne(old(contentBlocks), block);
      }
    }

    /**
     * add_list_value: a list under 'name' is a ValueError; otherwise each
     * element goes through add_list_value's element step under the same key,
     * and the first error ends the loop.
     */
    method AddListValue(g: Graph, key: string, xs: seq<Value>, hashName: string) returns (o: Outcome)
      requires g.Valid() && hashName != []
      requires forall i :: 0 <= i < |xs| && xs[i].VDict? ==> !NestsLinkDict(VStr(key), xs[i].entries)
      modifies this`name, this`titles, this`contentBlocks, this`linkBlocks, Blocks(), g
      ensures g.Valid() && KeptOrNew()
      ensures key == "name" ==> o == Fail(ValueError) && Untouched(old(Blocks())) && unchanged(g)
      ensures key == "titles" && AllPrimitive(xs) ==> (
                && o == Pass && titles == Union(old(titles), Texts(xs)) && unchanged(g)
                && name == old(name) && contentBlocks == old(contentBlocks) && linkBlocks == old(linkBlocks))
      ensures key != "name" && xs != [] && !IsPrimitive(xs[0]) && !xs[0].VDict? ==> o == Fail(TypeError) && Untouched(old(Blocks())) && unchanged(g)
    {
      if key == "name" {
        return Fail(ValueError);
      }
      var i := 0;
      while i < |xs|
        invariant 0 <= i <= |xs|
        invariant g.Valid() && KeptOrNew()
        invariant key == "titles" && AllPrimitive(xs) ==> (
                    && titles == Union(old(titles), Texts(xs)[..i]) && unchanged(g)
                    && name == old(name) && contentBlocks == old(contentBlocks) && linkBlocks == old(linkBlocks))
        invariant i == 0 ==> unchanged(g)
        invariant i == 0 ==> Untouched(old(Blocks()))
        invariant i > 0 ==> IsPrimitive(xs[0]) || xs[0].VDict?
      {
        var r := AddListStep(g, key, xs, i, hashName, old(titles));
        if r.Fail? {
          return r;
        }
        i := i + 1;
      }
      assert Texts(xs)[..i] == Texts(xs);
      o := Pass;
    }

    /** Turn i of add_list_value's loop, with the titles gathered so far. */
    method AddListStep(g: Graph, key: string, xs: seq<Value>, i: int, hashName: string, ghost t0: seq<string>) returns (o: Outcome)
      requires g.Valid() && hashName != [] && 0 <= i < |xs|
      requires xs[i].VDict? ==> !NestsLinkDict(VStr(key), xs[i].entries)
      requires key == "titles" && AllPrimitive(xs) ==> titles == Union(t0, Texts(xs)[..i])
      modifies this`name, this`titles, this`contentBlocks, this`linkBlocks, Blocks(), g
      ensures g.Valid() && KeptOrNew()
      ensures key == "titles" && AllPrimitive(xs) ==> (
                && o == Pass && titles == Union(t0, Texts(xs)[..i + 1]) && unchanged(g)
                && name == old(name) && contentBlocks == old(contentBlocks) && linkBlocks == old(linkBlocks))
      ensures !IsPrimitive(xs[i]) && !xs[i].VDict? ==> o == Fail(TypeError) && Untouched(old(Blocks())) && unchanged(g)
    {
      o := AddListElement(g, key, xs[i], hashName);
      UnionPrefixStep(t0, Texts(xs), i);
    }

    /** One element of add_list_value: a primitive to add_primitive_value, a dictionary to add_dict_value, else TypeError. */
    method AddListElement(g: Graph, key: string, x: Value, hashName: string) returns (o: Outcome)
      requires g.Valid() && hashName != []
      requires x.VDict? ==> !NestsLinkDict(VStr(key), x.entries)
      modifies this`name, this`titles, this`contentBlocks, this`linkBlocks, Blocks(), g
      ensures g.Valid() && KeptOrNew()
      ensures key == "titles" && IsPrimitive(x) ==> (
                && o == Pass && titles == Union(old(titles), [Render(x)]) && unchanged(g)
                && name == old(name) && contentBlocks == old(contentBlocks) && linkBlocks == old(linkBlocks))
      ensures !IsPrimitive(x) && !x.VDict? ==> o == Fail(TypeError) && Untouched(old(Blocks())) && unchanged(g)
    {
      if IsPrimitive(x) {
        o := AddPrimitiveValue(g, key, x, hashName);
      } else if x.VDict? {
        o := AddDictValue(g, VStr(key), x.entries, hashName);
      } else {
        o := Fail(TypeError);
      }
    }

    /**
     * add_key_value: the key a dictionary names with 'type', else the key
     * itself, canonicalised; an ignored key drops the pair; a primitive, a
     * list and a dictionary go to add_primitive_value, add_list_value and
     * add_dict_value; anything else (None) is a TypeError.
     */
    method AddKeyValue(g: Graph, key: string, value: Value, hashName: string) returns (o: Outcome)
      requires g.Valid() && hashName != []
      requires !ValueNestsLinkDict(key, value)
      modifies this`name, this`titles, this`contentBlocks, this`linkBlocks, Blocks(), g
      ensures g.Valid() && KeptOrNew()
      ensures KeyValueRouteOf(key, value) == Ignored ==> o == Pass && Untouched(old(Blocks())) && unchanged(g)
      ensures KeyValueRouteOf(key, value) == BadValue ==> o == Fail(TypeError) && Untouched(old(Blocks())) && unchanged(g)
      ensures TitleOrIgnored(key, value) ==> (
                && o == Pass && titles == Union(old(titles), TitleStep(key, value)) && unchanged(g)
                && name == old(name) && contentBlocks == old(contentBlocks) && linkBlocks == old(linkBlocks))
      ensures KeyValueRouteOf(key, value) == PrimitiveKV("name", value) ==> (
                && (o.Pass? ==> name == Render(value))
                && titles == old(titles) && contentBlocks == old(contentBlocks) && linkBlocks == old(linkBlocks))
      ensures KeyValueRouteOf(key, value).ListKV? && KeyValueRouteOf(key, value).lkey == "name" ==>
                o == Fail(ValueError) && Untouched(old(Blocks())) && unchanged(g)
    {
      match KeyValueRouteOf(key, value)
      case Ignored =>
        o := Pass;
      case PrimitiveKV(k, v) =>
        o := AddPrimitiveValue(g, k, v, hashName);
      case ListKV(k, xs) =>
        o := AddListValue(g, k, xs, hashName);
      case DictKV(k, d) =>
        o := AddDictValue(g, k, d, hashName);
      case BadValue =>
        o := Fail(TypeError);
    }

    /** add_from_dict: add_key_value on each pair in order; the first error ends it. */
    method AddFromDict(g: Graph, obj: Dict, hashName: string) returns (o: Outcome)
      requires g.Valid() && hashName != []
      requires !EntriesNestLinkDict(obj)
      modifies this`name, this`titles, this`contentBlocks, this`linkBlocks, Blocks(), g
      ensures g.Valid() && KeptOrNew()
      ensures OnlyTitles(obj) ==> (
                && o == Pass && titles == Union(old(titles), TitleTexts(obj)) && unchanged(g)
                && name == old(name) && contentBlocks == old(contentBlocks) && linkBlocks == old(linkBlocks))
    {
      var i := 0;
      while i < |obj|
        invariant 0 <= i <= |obj|
        invariant g.Valid() && KeptOrNew()
        invariant OnlyTitles(obj) ==> (
                    && titles == Union(old(titles), TitleTexts(obj[..i])) && unchanged(g)
                    && name == old(name) && contentBlocks == old(contentBlocks) && linkBlocks == old(linkBlocks))
      {
        var r := AddKeyValue(g, obj[i].0, obj[i].1, hashName);
        if r.Fail? {
          return r;
        }
        TitleTextsSnoc(obj, i);
        UnionStep(old(titles), TitleTexts(obj[..i]), TitleStep(obj[i].0, obj[i].1));
        i := i + 1;
      }
      assert obj[..i] == obj;
      o := Pass;
    }
  }
}
