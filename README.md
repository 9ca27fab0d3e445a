# semadoc knowledge graph and hierdoc outlines, in Dafny

This project models the core of a Python tool that builds an in-memory, typed
knowledge graph from indented outline text ("hiertext"), and proves properties
of that model.

The system has four parts, and the model follows them module by module.

- **Type registry** (`Synonyms`, `EdgeTypes`, `LinkTypes`, `BlockTypes`,
  `NodeTypes`): four closed enums, aliases resolved through synonym tables by
  first match, and the fixed table giving each edge type its (outbound,
  inbound) pair of link types. A link type's edge type and direction are
  looked up in reverse in that table.
- **Blocks** (`Knowledge.Block`): a typed, ordered list of items. Title and
  Info blocks take strings, Struct and Links blocks take links, Props and Image
  take anything. Merging is an order-preserving union that skips items already
  present (`Unions.Union`).
- **Graph, edges, links and nodes** (`Knowledge.Graph`, `Knowledge.Edge`,
  `Knowledge.Link`, `Knowledge.Node`).
  - The graph is one explicit object: a name→node map and an
    (a, b, edge-type value)→edge map. Each map keeps its insertion order as a
    sequence of keys.
  - An edge joins two nodes under an edge type.
  - A link views an edge from A or from B.
  - A node holds titles, content blocks and one link block per link type. It
    registers into the graph, merging with a node of the same name.
  - A node ingests parsed key/value dictionaries (`Values`, `Ingestion`).
  - Blocks and links are compared by identity; nodes are compared by name.
- **Outline parser** (`Hierdoc`, `HierdocTree`).
  - A paragraph's indentation, in steps of four spaces, is its level.
  - Its text carries an optional marker, a bracketed tag, a name and the
    remaining content.
  - A `Tree` nests lines by level, counts lines and depth, and prunes
    commented subtrees. A commented subtree is one whose title starts with `0 `
    or `x `.

Python-side details:

- Python's `assert` and `raise` become error results (`Wrappers.Outcome`,
  `Wrappers.Result`). Each method's contract says which error comes out and
  what state the failure leaves behind.
- Dynamically typed arguments are small datatypes naming the cases the source
  distinguishes: a member, a string, a falsy value, another object.
- Integers are unbounded, which matches Python's `int`.

Some behaviour is kept as the code has it:

- `remove_commented_subtrees` removes from the list it is iterating, so the
  subtree right after a removed one is neither examined nor pruned.
  - `HierdocTree.SecondCommentedSurvives` exhibits this.
  - `HierdocTree.PruneAll` is the reference pruning that removes every
    commented subtree. `HierdocTree.PruneAllClear` shows that the two
    prunings agree on trees with nothing commented.
- `get_content` drops `len(name) + 3` characters. After a name read before a
  `:`, that is one character too many.
  - `Hierdoc.ContentDropsCharAfterColon` exhibits this on `"ab: cd"`: the code
    gives `"d"`, not `"cd"`.
  - `Hierdoc.IntendedContent` is the reading that keeps the content after the
    colon and one optional space. `Hierdoc.IntendedContentFollowsColon`
    proves that reading, and `Hierdoc.ContentAfterColon` states the lost
    character for every text. `Hierdoc.ContentAfterDash` shows that after a
    name read before `" - "` the `+ 3` is exact.
- Edge ordering and types:
  - `BlockType.get_type('struct')` fails, although `Block('x', 'struct')`
    succeeds: the constructor builds the enum by exact value.
  - `add_edge` ignores `if_not_exists`.
  - `set_type` keeps `is_from_b`, so a retyped link swaps its ends when the new
    type has the other direction.
- Spaces are not replaced by `_` in tags and names, because the source
  discards the result of `replace`.
- Key canonicalisation and link blocks:
  - `'title'` is canonicalised to `'titles'` before the `KEYS_PRIMITIVE` test,
    so a dictionary under a title key is refused.
  - `Block.from_dict` stores a `'type'` value as the raw string, so
    `add_dict_value`'s test for a Links block read that way never holds.
- `merge_node` hands the other node's content links to `add_content_block`.
  That method refuses anything that is not a Block, so merging a node whose
  content holds a link fails, and content blocks are never copied.
- `get_node(name, create_if_not_exists=True)` builds a node with no name. That
  node is then known by its hash name.

## Model

| member | source | states |
|---|---|---|
| Synonyms.CanonicSynonym | utils.py:27-32 | The head of the first group, in table order, that lists the key; for an unlisted key None with skip_missing and ValueError without |
| Synonyms.IsInSynonyms | utils.py:35-36 | True exactly when some group lists the key |
| Synonyms.CanonicInOwnGroup | utils.py:28-30 | The canonical key of a listed key belongs to the first group that lists the key |
| Synonyms.CanonicIdempotent | utils.py:28-30 | In a table where no head appears in an earlier group, canonicalising a canonical key gives it back |
| Synonyms.FirstGroupGivesHead | utils.py:28-30 | A key whose first listing group is group i canonicalises to group i's head |
| Synonyms.MemberCanonical | utils.py:28-30 | In a table of pairwise disjoint groups, group i is the first group of each of its members |
| Synonyms.HeadCanonical | utils.py:28-30 | In a table whose heads come first, every head canonicalises to itself |
| Synonyms.Extension | utils.py:9 | The text after the last '.', or the whole name without a '.'; it holds no '.' and ends the file name |
| Synonyms.DetectedDoctype | utils.py:8-16 | 'txt' or 'yaml' when the extension is one of them, else a truthy default, else ValueError |
| EdgeTypes.LinkTypesOf | knowledge/types/edge_type.py:15-27 | The (outbound, inbound) pair of each edge type, exactly as tabled, with two different members |
| EdgeTypes.Flatten | knowledge/types/edge_type.py:15-27 | The pairs laid out one after another: twice as many members, position 2i the outbound and 2i+1 the inbound member of the i-th pair |
| EdgeTypes.FlattenedPairs | knowledge/types/edge_type.py:15-27 | The six pairs laid out in enum order are the twelve link types in enum order |
| EdgeTypes.PairsPartitionLinkTypes | knowledge/types/edge_type.py:15-27 | The six pairs partition the twelve link types: every link type lies in exactly one position of one pair |
| EdgeTypes.EnumListingsComplete | content/types/link_type.py:22-34 | The ordered listings of both enums name every member exactly once |
| EdgeTypes.EdgeTypeFromValue | knowledge/types/edge_type.py:7-13 | EdgeType(s): the member whose value is s, or ValueError |
| EdgeTypes.EdgeValueRoundTrip | knowledge/types/edge_type.py:7-13 | Different members have different values, and EdgeType(e.value) is e |
| EdgeTypes.GetType | knowledge/types/edge_type.py:30-38 | A string is accepted only as an exact value (no synonyms); a member is returned unchanged; anything else is None with skip_missing and ValueError without |
| EdgeTypes.Default | knowledge/types/edge_type.py:41-42 | The default edge type is ReferenceMention |
| LinkTypes.LinkFromValue | content/types/link_type.py:22-34 | LinkType(s): the member whose value is s, or ValueError |
| LinkTypes.SearchEdgeType | content/types/link_type.py:36-39 | The loop of get_edge_type: the first edge type of the list whose pair holds t, and none when no pair does |
| LinkTypes.HasPair | content/types/link_type.py:36-39 | Every link type lies in the pair of some edge type |
| LinkTypes.EdgeTypeOf | content/types/link_type.py:36-39 | get_edge_type: an edge type whose pair holds t |
| LinkTypes.EdgeTypeOfUnique | content/types/link_type.py:36-39 | No other edge type's pair holds t |
| LinkTypes.Direction | content/types/link_type.py:41-42 | get_direction is true exactly for the inbound members Child, More, Usage, Receptor, Relation and Mention |
| LinkTypes.PositionRecovered | content/types/link_type.py:36-42 | The member at either position of an edge type's pair has that edge type and that position as its direction |
| LinkTypes.DirectionSelectsLinkType | content/types/link_type.py:36-42 | Indexing the pair of t's edge type by t's direction gives t back |
| LinkTypes.HeadsAreValues | content/types/link_type.py:6-19 | Group i of LINK_TYPE_SYNONYMS is headed by the value of the i-th link type |
| LinkTypes.GetType | content/types/link_type.py:45-54 | A string is canonicalised through the synonyms and built by value (ValueError when unlisted); a member passes through; anything else is None with skip_missing and ValueError without |
| LinkTypes.HasType | content/types/link_type.py:57-61 | True for a member and for a listed string; a falsy None for anything else |
| LinkTypes.HasTypeIffGetType | content/types/link_type.py:57-61 | has_type holds exactly when get_type succeeds |
| LinkTypes.LinkSynonymsHeadsFirst | content/types/link_type.py:6-19 | No head of LINK_TYPE_SYNONYMS appears in an earlier group |
| LinkTypes.LinkValueRoundTrip | content/types/link_type.py:22-34 | LinkType(t.value) is t |
| LinkTypes.GetTypeOfValue | content/types/link_type.py:45-54 | get_type(t.value) is t for every link type |
| LinkTypes.GetTypeOfHead | content/types/link_type.py:6-19 | The head of group i names the i-th link type |
| LinkTypes.LinkSynonymsDisjoint | content/types/link_type.py:6-19 | No spelling belongs to two groups of LINK_TYPE_SYNONYMS |
| LinkTypes.GroupMemberResolves | content/types/link_type.py:45-54 | Every spelling in group i resolves to the i-th link type |
| LinkTypes.ParentAliases | content/types/link_type.py:7 | 'cat' and 'cats' resolve to Parent |
| LinkTypes.ChildAliases | content/types/link_type.py:8 | 'children', 'struct' and 'content' resolve to Child |
| LinkTypes.ListAliases | content/types/link_type.py:8 | 'list', 'items' and 'nodes' resolve to Child |
| LinkTypes.OtherAliases | content/types/link_type.py:6-19 | 'base' resolves to Prereq and 'src' to Source |
| LinkTypes.EndpointAliases | content/types/link_type.py:6-19 | 'dst' resolves to Receptor and 'see_also' to Also |
| LinkTypes.UnknownAliasRefused | content/types/link_type.py:45-61 | Every string in no group is a ValueError whatever skip_missing says (get_canonic_synonym is asked without it), and has_type is false for it; 'parents' is such a string |
| LinkTypes.Default | content/types/link_type.py:64-65 | get_default is Reference, the outbound member of the default edge type's pair |
| BlockTypes.BlockFromValue | content/types/block_type.py:15-21 | BlockType(s): the member whose value is s, or ValueError |
| BlockTypes.BlockValueRoundTrip | content/types/block_type.py:15-21 | BlockType(t.value) is t |
| BlockTypes.BlockSynonymsShape | content/types/block_type.py:6-12 | Group i of BLOCK_TYPE_SYNONYMS is headed by the value of its type, and no spelling belongs to two groups |
| BlockTypes.GetType | content/types/block_type.py:28-37 | A string is canonicalised through the synonyms and built by value (ValueError when unlisted); a member passes through; anything else is None with skip_missing and ValueError without |
| BlockTypes.HasType | content/types/block_type.py:40-44 | True for a member and for a listed string; a falsy None for anything else |
| BlockTypes.HasTypeIffGetType | content/types/block_type.py:40-44 | has_type holds exactly when get_type succeeds |
| BlockTypes.GroupMemberResolves | content/types/block_type.py:28-37 | Every spelling of a group resolves to that group's type |
| BlockTypes.TitleInfoAliases | content/types/block_type.py:6-12 | 'head' and 'header' resolve to Title and 'text' to Info |
| BlockTypes.OtherAliases | content/types/block_type.py:6-12 | 'properties', 'img' and 'link' resolve to Props, Image and Links |
| BlockTypes.StructNotResolvable | content/types/block_type.py:6-17 | 'struct' is the value of Struct, yet get_type refuses it and has_type is false |
| NodeTypes.NodeValuesDistinct | knowledge/types/node_type.py:4-9 | The five members have five different values |
| NodeTypes.NodeFromValue | knowledge/types/node_type.py:4-9 | NodeType(s): the member whose value is s, or ValueError |
| NodeTypes.GetType | knowledge/types/node_type.py:12-20 | A string is accepted only as one of the exact values 'unk', 'term', 'doc', 'ext', 'img'; a member passes through; anything else is None with skip_missing and ValueError without |
| NodeTypes.GetTypeOfValue | knowledge/types/node_type.py:12-20 | get_type(t.value) is t |
| Unions.Union | content/implementations/block.py:112-114 | The order-preserving union: mine is a prefix, every element of either input is in the result, and nothing else is |
| Unions.UnionOne | knowledge/implementations/node.py:135-138 | Adding one element appends it when absent and changes nothing when present |
| Unions.UnionAppendsFresh | content/implementations/block.py:112-114 | The appended part holds no element twice and none that mine already held |
| Unions.UnionDistinct | knowledge/implementations/node.py:135-138 | A union over a list without repetitions has none either, so add_title never brings in a duplicate |
| Unions.UnionContained | content/implementations/block.py:112-114 | When mine already holds every element of theirs, the union is mine |
| Unions.UnionIdempotent | content/implementations/block.py:112-114 | Merging the same elements twice gives what merging them once gives |
| Unions.UnionStartsWithFirst | content/implementations/block.py:125-132 | Starting from nothing, the first element of the union is the first element of theirs |
| Unions.Remove | knowledge/implementations/graph.py:110 | Deleting a key from the key order: the key is gone, every other element stays, and an order without the key is unchanged |
| Unions.RemoveAppend | knowledge/implementations/graph.py:110 | Removal distributes over concatenation, so the kept elements stay in their order |
| Unions.RemoveDistinct | knowledge/implementations/graph.py:166 | Removing a key keeps the key order free of repetitions |
| Values.Get | knowledge/implementations/node.py:62 | d.get(k): the value of an entry with key k, and nothing exactly when no entry has key k |
| Values.GetFirst | knowledge/implementations/node.py:62 | The entry d.get(k) reads is the first with key k: no earlier entry has that key |
| Values.GetTruthy | content/implementations/link.py:86-89 | d.get(k) as the left operand of `or`: a value only when it is present and truthy |
| Values.Without | content/implementations/link.py:86-89 | d.pop(k): no entry has key k afterwards, every other entry stays, and a dictionary without k is unchanged |
| Values.WithoutAppend | content/implementations/link.py:86-89 | Dropping a key distributes over concatenation, so the other entries stay in their order |
| Values.GetWithout | content/implementations/link.py:86-89 | Popping one key leaves the lookup of every other key unchanged |
| Ingestion.NodeKeysDisjoint | knowledge/implementations/node.py:26-33 | No spelling belongs to two groups of NODE_KEYS_SYNONYMS |
| Ingestion.CanonicKeyIsTableLookup | knowledge/implementations/node.py:246 | `get_canonic_synonym(key, NODE_KEYS_SYNONYMS, skip_missing=True) or key`: a listed key gets its group's head, any other key is kept |
| Ingestion.CanonicKeyOfGroup | knowledge/implementations/node.py:26-33 | Each member of a NODE_KEYS_SYNONYMS group canonicalises to the group's head |
| Ingestion.UnlistedKeyKept | knowledge/implementations/node.py:246 | A key that no group lists is kept as it is |
| Ingestion.CanonicKeyIdempotent | knowledge/implementations/node.py:284 | Canonicalising twice is canonicalising once, so add_dict_value's second pass changes nothing |
| Ingestion.NodeKeyAliases | knowledge/implementations/node.py:26-33 | The aliases a document may use for the node's keys, and keys no group lists |
| Ingestion.KeyOf | knowledge/implementations/node.py:245-246 | A key taken from a parsed value: a string is canonicalised, any other value is kept |
| Ingestion.ArgOf | knowledge/implementations/node.py:263-266 | A parsed value handed to get_type or has_type: a string, a falsy value or another object |
| Ingestion.PrimitiveRouteMeaning | knowledge/implementations/node.py:258-269 | add_primitive_value's dispatch: 'name', then 'titles', then exactly the other keys naming a link type, then those left naming a block type, else unknown |
| Ingestion.NotLinkTypeNames | knowledge/implementations/node.py:263 | The listed spellings (among them 'text', 'info' and 'titles') name no link type |
| Ingestion.NotBlockTypeNames | knowledge/implementations/node.py:265 | The listed spellings (among them 'type' and 'name') name no block type |
| Ingestion.ContentKeyLinksChild | knowledge/implementations/node.py:246-264 | A primitive under 'content', which canonicalises to 'items', adds a Child link |
| Ingestion.LinkKeyAddsLinksItem | knowledge/implementations/node.py:246-266 | A primitive under 'link', which canonicalises to 'links', becomes an item of a Links content block |
| Ingestion.TextKeyAddsInfoItem | knowledge/implementations/node.py:258-266 | A primitive under 'text' becomes an Info item |
| Ingestion.TypeKeyUnknown | knowledge/implementations/node.py:258-268 | A primitive under 'type' is an unknown key (ValueError) |
| Ingestion.EffectiveKey | knowledge/implementations/node.py:243-246 | The key add_key_value works with: a dictionary's own 'type' replaces it, then it is canonicalised |
| Ingestion.KeyValueRouteOf | knowledge/implementations/node.py:242-256 | Ignored keys are dropped; then primitives, lists and dictionaries go to their handlers; anything else is a TypeError |
| Ingestion.IgnoredKeysDropped | knowledge/implementations/node.py:247-248 | A value under an ignored key is dropped, unless it is a dictionary naming its own type |
| Ingestion.DictTypeOverridesKey | knowledge/implementations/node.py:243-245 | A dictionary that names its 'type' is routed by that type alone, whatever key it sits under |
| Ingestion.KeyValueRouteShapes | knowledge/implementations/node.py:249-256 | Primitive and list values keep the canonical key; a None value under a kept key is a TypeError |
| Ingestion.TitleStep | knowledge/implementations/node.py:261-262 | The title one pair adds: the value's text when the key is a title key, else none (an int or bool title is kept as its text, where the source keeps the raw value) |
| Ingestion.TitleTextsSnoc | knowledge/implementations/node.py:70-73 | One more pair adds its title, if it has one, at the end |
| Ingestion.TitleDictUnsupported | knowledge/implementations/node.py:284-287 | 'title' canonicalises to 'titles' before the KEYS_PRIMITIVE test, so a dictionary under a title key is never flattened and is refused |
| Ingestion.TitlesKeyUnsupported | knowledge/implementations/node.py:283-302 | A key that canonicalises to 'titles' takes none of add_dict_value's branches (ValueError) |
| Ingestion.OnlyInfoFlattened | knowledge/implementations/node.py:285-287 | Only 'info' ever reaches the flattening branch |
| Ingestion.CanonicKeyNotTitle | knowledge/implementations/node.py:26-35 | No key canonicalises to 'title', and only 'info' canonicalises to 'info' |
| Ingestion.InfoTextIsInfoItem | knowledge/implementations/node.py:285-287 | Flattened 'info' text is filed as an Info content item |
| Ingestion.TextDictIsBlock | knowledge/implementations/node.py:293-300 | A dictionary under 'text' is read as a block, not flattened |
| Ingestion.LinksDictIsLinkBlock | knowledge/implementations/node.py:291-292 | A dictionary under 'link' or 'links' is read as a link block |
| Ingestion.ContentDictIsLink | knowledge/implementations/node.py:288-290 | A dictionary under 'content' describes one Child link |
| Ingestion.NonStringKeyUnsupported | knowledge/implementations/node.py:301-302 | A key that is not a string names no type, so its dictionary is a ValueError |
| Ingestion.Render | knowledge/implementations/node.py:286 | str(v): a string is its own text, and an integer's text reads back as that integer |
| Ingestion.FlattenEntries | knowledge/implementations/node.py:286 | ', '.join('{}: {}'.format(k, v)) over the entries: one 'key: value' text per entry, in order, joined by ', ' |
| Ingestion.FlattenSnoc | knowledge/implementations/node.py:286 | One more entry adds ', ' and its 'key: value' text at the end |
| Ingestion.PyGet | content/implementations/link.py:86-89 | d.get(k) with None for a missing key |
| Ingestion.PyOr | content/implementations/link.py:86-89 | `a or b or ...`: the first truthy operand, with every operand before it falsy; when none is truthy, the last operand (None when it is missing or there is none) |
| Ingestion.PlanOf | content/implementations/link.py:86-89 | build_link_from_dict's reading of a link dictionary (caption, type, target, forwarded dictionary, content); its properties are the Plan lemmas below |
| Ingestion.PlanForwardsRest | content/implementations/link.py:86-88 | The dictionary passed on to the target is the link dictionary without 'caption' and 'type' |
| Ingestion.PlanTypeWins | content/implementations/link.py:87 | A truthy 'type' in the dictionary overrides the link type passed in, which is used otherwise |
| Ingestion.PlanTargetById | content/implementations/link.py:89-94 | A truthy 'id' names the target and is consumed; the target has content exactly when something else is left |
| Ingestion.PlanTargetByName | content/implementations/link.py:89-94 | Without a truthy 'id', a truthy 'name' names the target, and both keys are consumed |
| Ingestion.TargetName | knowledge/implementations/graph.py:60-63 | The name get_node looks a target up by: a string as it is, a dictionary's name, and AttributeError for any other value |
| Ingestion.ActionOf | content/implementations/link.py:90-100 | A found target takes the dictionary in when it has content and update_nodes holds; a missing one is built when create_nodes holds, and is a ValueError otherwise |
| Ingestion.IdOnlyHasNoContent | content/implementations/link.py:86-94 | A dictionary of an 'id' and a caption links to that id and brings no content |
| Ingestion.NameStaysBesideId | content/implementations/link.py:89-94 | 'name' is popped only when 'id' gives nothing, so beside an 'id' it counts as content |
| Ingestion.Iterated | knowledge/implementations/node.py:210 | `for i in v or list()`: a list gives its elements, a string its characters, a dictionary its keys, a falsy value nothing, and a truthy number is a TypeError |
| Ingestion.Texts | knowledge/implementations/node.py:274-276 | The text of each value, in order; an int or bool is rendered as text (the source keeps the raw value) |
| Knowledge.AppendedMeaning | content/implementations/block.py:92-103 | add_items passes exactly when the block accepts every item, and then appends all; otherwise it stops with AssertionError at the first refused item, after appending those before it |
| Knowledge.Accepts | content/implementations/block.py:97-101 | append_item's test: a Title or Info block takes strings, a Struct or Links block takes links, any other block anything; its use is stated by AppendedMeaning |
| Knowledge.Appended | content/implementations/block.py:92-95 | add_items as a function of the items and the list; AppendedMeaning, AppendedSnoc and AppendedStops state what it gives |
| Knowledge.LinkItemsAppended | content/implementations/block.py:92-103 | A Links block accepts every link, so add_items appends all of them |
| Knowledge.AppendedSnoc | content/implementations/block.py:92-95 | add_items over one more item is add_items followed by append_item |
| Knowledge.AppendedStops | content/implementations/block.py:92-95 | Once add_items has failed, further items change nothing |
| Knowledge.MergeInto | content/implementations/block.py:112-114 | merge_block's loop: each item of theirs, in order, is appended unless present; a refused item stops it with AssertionError |
| Knowledge.MergeIntoSnoc | content/implementations/block.py:112-114 | The merge over one more item |
| Knowledge.MergeIntoStops | content/implementations/block.py:112-114 | Once the merge has failed, further items change nothing |
| Knowledge.MergeIntoFails | content/implementations/block.py:112-114 | The merge fails exactly when some item of theirs is refused and not already among mine, and then it stops at the first such item |
| Knowledge.RefusedNotMerged | content/implementations/block.py:112-114 | A merge that passed appended only accepted items |
| Knowledge.MergeIntoPresent | content/implementations/block.py:112-114 | When every item of theirs is present, merging changes nothing and passes |
| Knowledge.MergeIntoIdempotent | content/implementations/block.py:112-114 | Merging the same block twice gives what merging it once gives |
| Knowledge.MergeIntoAppendsFresh | content/implementations/block.py:112-114 | The appended items are pairwise distinct and none was present before |
| Knowledge.MergeIntoGrows | content/implementations/block.py:112-114 | A merge only extends the list it merges into |
| Knowledge.MergedCovers | content/implementations/block.py:112-114 | A merged item list holds every item of both inputs |
| Knowledge.LinksIn | content/implementations/block.py:120-123 | Every link item's link and nothing else; no links when no item is a link |
| Knowledge.LinksInAppend | content/implementations/block.py:120-123 | The links of two item lists are those of the first, then those of the second, so the links keep the items' order |
| Knowledge.TypesOf | content/implementations/block.py:125-132 | The type of each link, in order |
| Knowledge.FirstSeen | content/implementations/block.py:125-132 | The scan of get_link_types: the distinct types of the links in first-seen order, as a union |
| Knowledge.InitialType | content/implementations/block.py:40-47 | A string is built by exact value (so 'struct' is accepted), a member is kept, a falsy value becomes Info, anything else fails the isinstance assertion |
| Knowledge.StructByValueOnly | content/implementations/block.py:40-47 | The constructor accepts 'struct', which get_type refuses |
| Knowledge.AnchorType | content/implementations/block.py:134-139 | The link type an anchor names, when it is a string listed in LINK_TYPE_SYNONYMS |
| Knowledge.LinksTypeOf | content/implementations/block.py:134-143 | get_links_type: the anchor's link type, else the first distinct link type, else Reference |
| Knowledge.ReadEntryOutcome | content/implementations/block.py:51-66 | One pair of from_dict fails exactly for an unknown key (ValueError) or refused items (AssertionError); only a truthy 'type' changes the block type |
| Knowledge.ReadEntry | content/implementations/block.py:51-66 | One pair of from_dict; ReadEntryOutcome states its outcome and type |
| Knowledge.ReadBlockDict | content/implementations/block.py:51-66 | from_dict over the pairs in order; the ReadBlockDict lemmas below state its steps and outcomes |
| Knowledge.ItemsOfEntry | content/implementations/block.py:59-64 | The items an 'items' value adds: each element of a list, or the value itself |
| Knowledge.ReadBlockDictNeverLinks | content/implementations/block.py:51-66 | from_dict stores a 'type' value raw, so the block it reads is never a Links block |
| Knowledge.ReadBlockDictSnoc | content/implementations/block.py:51-66 | from_dict over one more pair |
| Knowledge.ReadBlockDictStops | content/implementations/block.py:51-66 | Once from_dict has failed, further pairs change nothing |
| Knowledge.ReadBlockDictErrPrefix | content/implementations/block.py:51-66 | A prefix on which from_dict fails decides the whole dictionary |
| Knowledge.UnknownBlockKey | content/implementations/block.py:53-54 | from_dict raises ValueError for a key outside BLOCK_KEYS_SYNONYMS, and only for such a key |
| Knowledge.ItemlessEntry | content/implementations/block.py:51-66 | A pair under a title, type or anchor key leaves the items alone |
| Knowledge.ItemlessBlockDict | content/implementations/block.py:51-66 | A dictionary of titles, types and anchors alone gives a block without items |
| Knowledge.Block.constructor | content/implementations/block.py:31-48 | The four fields as given |
| Knowledge.Block.Build | content/implementations/block.py:31-48 | Block(title, block_type, items, anchor): the title must be a string or absent, the type follows InitialType, the items are taken unchecked, and a failure allocates nothing |
| Knowledge.Block.AppendItem | content/implementations/block.py:97-103 | The item goes at the end when the type accepts it; otherwise AssertionError and the items are unchanged |
| Knowledge.Block.AddItems | content/implementations/block.py:92-95 | The new items and outcome are those of AppendedMeaning's add_items |
| Knowledge.Block.MergeBlock | content/implementations/block.py:105-115 | The types must agree (else AssertionError, nothing changed); a truthy title and anchor of the other block replace this block's; the items become MergeInto's result |
| Knowledge.Block.MergeItems | content/implementations/block.py:112-114 | The loop over the other block's items, yielding exactly MergeInto's items and outcome |
| Knowledge.Block.OutgoingLinks | content/implementations/block.py:120-123 | get_outgoing_links_iter: every link item's link, and only those |
| Knowledge.Block.OutgoingLinksInOrder | content/implementations/block.py:120-123 | For any split of the items, the links are those of the first part, then those of the second: the items' order |
| Knowledge.Block.DistinctLinkTypes | content/implementations/block.py:125-132 | get_link_types: the distinct link types in first-seen order |
| Knowledge.Block.LinksType | content/implementations/block.py:134-143 | get_links_type: the result is LinksTypeOf over the anchor and the block's link types |
| Knowledge.Block.FromDict | content/implementations/block.py:51-66 | A fresh block read pair by pair; its fields and outcome are those of ReadBlockDict |
| Knowledge.Block.ReadFields | content/implementations/block.py:53-65 | The loop over the pairs, on the fields of the block under construction |
| Knowledge.Block.ReadPair | content/implementations/block.py:54-65 | One pair of from_dict, with the same result as ReadEntry |
| Knowledge.Block.AppendAll | content/implementations/block.py:92-95 | add_items on a block under construction |
| Knowledge.Graph.constructor | knowledge/implementations/graph.py:24-30 | An empty, valid graph |
| Knowledge.Graph.Clear | knowledge/implementations/graph.py:32-36 | Both maps and both key orders are empty |
| Knowledge.Graph.NodeCount | knowledge/implementations/graph.py:50-51 | The size of the node map, equal to the number of listed names |
| Knowledge.Graph.EdgeCount | knowledge/implementations/graph.py:145-146 | The size of the edge map, equal to the number of listed keys |
| Knowledge.Graph.HasName | knowledge/implementations/graph.py:53-54 | True exactly when the name is a key of the node map |
| Knowledge.Graph.FirstWithTitle | knowledge/implementations/graph.py:89-95 | The first node, in insertion order, whose titles hold the string |
| Knowledge.Graph.FirstWithTitleIsFirst | knowledge/implementations/graph.py:89-95 | The node found is stored under the first key whose node has the title; none is found when no node has it |
| Knowledge.Graph.Lookup | knowledge/implementations/graph.py:83-87 | The node stored under the name, else the first node with it as a title |
| Knowledge.Graph.Resolve | content/implementations/link.py:66-67 | `get_node(x) or x`: the node found, else the argument when it is a node |
| Knowledge.Graph.GetNodeByTitle | knowledge/implementations/graph.py:89-95 | The scan over the nodes in insertion order finds FirstWithTitle's node |
| Knowledge.Graph.GetNodeByName | knowledge/implementations/graph.py:83-87 | The result is Lookup's node |
| Knowledge.Graph.Find | knowledge/implementations/graph.py:59-70 | get_node without creation: Lookup of the argument's name |
| Knowledge.Graph.AddNode | knowledge/implementations/graph.py:97-101 | The node is stored under its name, replacing any node of that name; the count grows by one exactly when the name was new, which goes to the end of the order |
| Knowledge.Graph.GetNode | knowledge/implementations/graph.py:59-81 | The node found; when none is found and creation is allowed, a node argument is added, or for a string a new unnamed node is stored under its hash name; no node otherwise |
| Knowledge.Graph.RenameItem | knowledge/implementations/graph.py:103-110 | The old name must be present and the new absent (else AssertionError, nothing changed); the node moves to the new name, the count is kept and every other entry is untouched |
| Knowledge.Graph.AddEndpoint | knowledge/implementations/graph.py:120-125 | An end whose name is not a key must not be registered under a title (AssertionError), and is then added |
| Knowledge.Graph.AddEdge | knowledge/implementations/graph.py:112-126 | A stored edge under the key is kept, otherwise the edge is stored (the count grows by at most one); both ends of the stored edge are then node keys |
| Knowledge.Graph.AddEnds | knowledge/implementations/graph.py:120-125 | Both ends of the stored edge become node keys, earlier nodes kept |
| Knowledge.Graph.GetEdge | knowledge/implementations/graph.py:128-133 | The edge under exactly (a, b, type value), so the order of a and b matters; a type that is neither a member nor a string is an AssertionError |
| Knowledge.Graph.EdgesMatching | knowledge/implementations/graph.py:138-143 | The stored edge of every matching key, and only those: by end name for a node, by any part of the key (the type value included) for a string |
| Knowledge.Graph.EdgesMatchingAppend | knowledge/implementations/graph.py:138-143 | The matches over two key lists are those of the first, then those of the second, so the edges keep the key order |
| Knowledge.Graph.EdgesMatchingCons | knowledge/implementations/graph.py:138-143 | One step of the scan: the first key's edge when it matches, then the matches of the rest |
| Knowledge.Graph.EdgesForNode | knowledge/implementations/graph.py:138-143 | The matching edges in insertion order |
| Knowledge.Graph.DropEdge | knowledge/implementations/graph.py:158-167 | The key, given or taken from the edge, must be present (else AssertionError); exactly that key is removed |
| Knowledge.Edge.constructor | knowledge/implementations/edge.py:16-28 | The two ends and the type as given |
| Knowledge.Edge.Create | knowledge/implementations/edge.py:16-30 | With register the edge goes through add_edge; without it the graph is untouched |
| Knowledge.Edge.NameTuple | knowledge/implementations/edge.py:78-79 | The names of both ends and the type's value, which names the type back |
| Knowledge.Edge.OtherNode | knowledge/implementations/edge.py:54-58 | B for a name matching A, else A for a name matching B, else none |
| Knowledge.Edge.LinkTypePair | knowledge/implementations/edge.py:72-76 | The pair of the edge's own type |
| Knowledge.Edge.Copy | knowledge/implementations/edge.py:48-49 | A fresh edge with the same ends and type; the graph is untouched |
| Knowledge.Edge.IsDefinedInA | knowledge/implementations/edge.py:84-85 | A has a link whose target is named as B |
| Knowledge.Edge.IsDefinedInB | knowledge/implementations/edge.py:87-88 | B has a link whose target is named as A |
| Knowledge.Edge.Drop | knowledge/implementations/edge.py:90-91 | The edge's own key is removed, and must be present |
| Knowledge.OtherNodeSwaps | knowledge/implementations/edge.py:54-58 | For ends with different names, each end is the other one's other node |
| Knowledge.LinkFromNodesOrientation | content/implementations/link.py:39-75 | A link built from (from, to, t) with is_from_b set to t's direction has source from, target to and type t |
| Knowledge.RetypedEnds | content/implementations/link.py:149-157 | With is_from_b kept, the ends stay in place exactly when the new type has the old side's direction, and swap otherwise |
| Knowledge.Strings | content/implementations/link.py:31-32 | The strings of a list, when every element is one |
| Knowledge.CaptionOf | content/implementations/link.py:31-33 | A list caption is joined with single spaces (TypeError for a non-string element); the result must be a string or None |
| Knowledge.CaptionWordsRoundTrip | content/implementations/link.py:31-32 | Words without spaces, joined as a caption, split back into those words |
| Knowledge.Link.constructor | content/implementations/link.py:20-36 | The edge, side, caption and external flag as given |
| Knowledge.Link.BuildEdge | content/implementations/link.py:39-52 | An edge of t's edge type with A=to, B=from when t's direction holds and A=from, B=to otherwise, registered when asked |
| Knowledge.Link.BuildLinkFromNodes | content/implementations/link.py:55-75 | The target must be given and the type must resolve; the ends are resolved in the graph; the new link has source from, target to and type t |
| Knowledge.Link.LinkBetween | content/implementations/link.py:66-75 | Once the type is resolved: the ends resolved, the edge registered, and the link reads from, to and t |
| Knowledge.Link.ResolveEnds | content/implementations/link.py:66-67 | Each end is the graph's node when one is found, else the argument, which must then be a node |
| Knowledge.Link.SettleEnd | content/implementations/link.py:66-67 | One end: the graph's node when one is found, else the node argument |
| Knowledge.Link.Connect | content/implementations/link.py:68-75 | The edge from BuildEdge, registered, and a link over it with is_from_b set to t's direction |
| Knowledge.Link.Copy | content/implementations/link.py:121-122 | The same side and caption over a fresh copy of the edge, not external, graph untouched |
| Knowledge.Link.SourceNode | content/implementations/link.py:124-128 | B when the link is seen from B, else A |
| Knowledge.Link.TargetNode | content/implementations/link.py:130-134 | A when the link is seen from B, else B |
| Knowledge.Link.Type | content/implementations/link.py:142-147 | A link type whose edge type is the edge's and whose direction is is_from_b |
| Knowledge.Link.SetType | content/implementations/link.py:149-157 | The type must resolve (the error is passed on). Then a new edge of that type from the current source to the current target is registered, unless its key is already taken; the old key is dropped, and when it was absent and differs from the new key the call fails with AssertionError. A failure after the type resolves leaves the new key registered beside the old edges, the link unchanged. On success the graph's edges are exactly the old ones with the new key added and the old one removed, the link's key is the new key, is_from_b is kept, and no node changes |
| Knowledge.Link.Retype | content/implementations/link.py:150-152 | set_type once the type is resolved: the same outcome and new state as SetType, failures included, stated for a resolved type |
| Knowledge.Link.OwnTypeUnregisters | content/implementations/link.py:149-157 | Setting a link's own type again builds its own key, so the add keeps the old edge and the drop then removes the key: the edge is no longer registered |
| Knowledge.RetypedEdges | knowledge/implementations/graph.py:112-119 | The edge map after add_edge (which keeps an edge already stored under the key) and then drop_edge: the old key is gone, the new key is present (holding e when it was absent before), every other key keeps its edge and nothing else is added |
| Knowledge.Link.ResetEdge | content/implementations/link.py:154-157 | Fails with AssertionError, changing nothing, exactly when the current edge's key is absent; otherwise the key is dropped and the link takes the new edge |
| Knowledge.LinksOfBlocks | knowledge/implementations/node.py:352-360 | The links of the blocks, block by block |
| Knowledge.BlocksByType | knowledge/implementations/node.py:357-360 | The blocks of a link-block map, taken in the order of the link types |
| Knowledge.ResolvedLinkType | knowledge/implementations/node.py:165 | LinkType.get_type without skip_missing: the member, or none when it raises |
| Knowledge.ResolvedBlockType | knowledge/implementations/node.py:306 | BlockType.get_type without skip_missing: the member, or none when it raises |
| Knowledge.Node.constructor | knowledge/implementations/node.py:39-50 | Node(name, titles, register=False): the name and titles given, no blocks |
| Knowledge.Node.MainTitle | knowledge/implementations/node.py:128-133 | The first title, else the name; an unnamed node is named by its main title when that is not empty |
| Knowledge.Node.Name | knowledge/implementations/node.py:107-113 | get_name: the set name when non-empty, else a non-empty first title, else the hash name; never empty when the hash name is not |
| Knowledge.Node.AllLinks | knowledge/implementations/node.py:369-371 | get_all_links_iter: the links of the content blocks, block by block, then those of the link blocks in link-type order |
| Knowledge.Node.AddTitle | knowledge/implementations/node.py:135-138 | The title is appended exactly when absent |
| Knowledge.Node.IsHidden | knowledge/implementations/node.py:408-409 | True exactly when the node has no content blocks and no link blocks |
| Knowledge.Node.SetName | knowledge/implementations/node.py:115-123 | Changing the set name of a registered node needs allow_rename (else ValueError, nothing changed) and then moves its graph key; an unset or equal name is simply replaced |
| Knowledge.Node.AddLinkBlockByTypeAndLinks | knowledge/implementations/node.py:191-202 | The type must resolve and have no block yet; the new Links block is anchored with the type's value, titled, and holds exactly the links |
| Knowledge.Node.EnsureLinkBlock | knowledge/implementations/node.py:166-171 | The block for a resolved type, created empty and anchored when missing, other blocks untouched |
| Knowledge.Node.GetLinkBlockByType | knowledge/implementations/node.py:159-171 | The type must resolve; a missing block is created with create_if_not_exists, else it is None with skip_missing and KeyError without |
| Knowledge.Node.AddLinkBlock | knowledge/implementations/node.py:173-181 | The block must be a Links block; it is merged into this node's block for the given type, else for its own links type |
| Knowledge.Node.MergeIntoLinkBlock | knowledge/implementations/node.py:178-180 | The block for t, created when missing, takes the other block's items as merge_block does |
| Knowledge.Node.AddOutgoingLink | knowledge/implementations/node.py:321-329 | The link goes at the end of the block for its type, created when missing; with register its edge goes through add_edge |
| Knowledge.Node.AddContentBlock | knowledge/implementations/node.py:232-240 | A dictionary goes through from_dict and a type becomes an empty block; anything else is refused; a block not in the list, by identity, is appended |
| Knowledge.Node.AddContentItem | knowledge/implementations/node.py:305-319 | The type must resolve; an item for the last block's type goes through its append_item, otherwise a new block of just the item is appended; the block count grows by at most one and the last block then ends with the item |
| Knowledge.Node.HasOutgoingLinkTo | knowledge/implementations/node.py:385-390 | True exactly when some link of the node has a target named as the other node |
| Knowledge.Node.MergeLinkBlocks | knowledge/implementations/node.py:100-101 | Each of the other node's link blocks is merged into this node's block of the same type; the first refusal stops it |
| Knowledge.Node.MergeTyped | knowledge/implementations/node.py:101 | add_link_block(block, link_type=t) as merge_node calls it |
| Knowledge.Node.MergeNode | knowledge/implementations/node.py:94-102 | The names must agree; the other node's titles are added in order; content links fail the merge; on success every link block of the other node is covered by this node's block of that type |
| Knowledge.Node.AddTitles | knowledge/implementations/node.py:96-97 | The titles become the union of the old titles and the other node's |
| Knowledge.Node.Register | knowledge/implementations/node.py:82-92 | A new name is added and the node is the result; a known name needs allow_merge (else ValueError) and then merges into the graph's node, which is the result |
| Knowledge.Node.AddLinkByTypeAndTarget | knowledge/implementations/node.py:331-342 | The type must resolve; the target is found or created; the link added goes from this node to the target with that type |
| Knowledge.Node.LinkTo | knowledge/implementations/node.py:340-341 | build_link_from_nodes and then add_outgoing_link: the new link ends the block of its type |
| Knowledge.Node.AddPrimitiveValue | knowledge/implementations/node.py:258-269 | 'name' sets the name without renaming, 'titles' adds a title, a link type key links to the named node, a block type key adds a content item, any other key is a ValueError |
| Knowledge.Node.AddTypedValue | knowledge/implementations/node.py:263-268 | A link type key links, else a block type key adds a content item, else ValueError |
| Knowledge.Node.AddLinkToValue | knowledge/implementations/node.py:263-264 | A string value links to the node of that name; another value is an AttributeError with nothing changed |
| Knowledge.Node.AddLinkBlockFromDict | knowledge/implementations/node.py:204-220 | A new Links block titled with obj['title'] and anchored with the type name gets one link per string item; an item that is neither a string nor a dictionary is refused; the block goes through add_link_block |
| Knowledge.Node.NamedLinkBlock | knowledge/implementations/node.py:205-210 | The fresh Links block anchored with the type name; a title that is not a string or None is AssertionError, items that cannot be iterated are TypeError, a first item that is not a string is UnboundLocalError, each with the graph unchanged |
| Knowledge.Node.AddNamedLinks | knowledge/implementations/node.py:210-218 | Each string item becomes a link from this node to the node of that name, appended in order; the first non-string ends it |
| Knowledge.Node.LinkToName | knowledge/implementations/node.py:212 | build_link_from_nodes from this node to a name: a link from this node to the resolved node |
| Knowledge.Node.AddDictValue | knowledge/implementations/node.py:283-303 | 'info' is flattened to one line, a 'links' dictionary becomes a link block, another block type key is read with from_dict, and any other key is a ValueError |
| Knowledge.Node.AddFlattened | knowledge/implementations/node.py:285-287 | An 'info' dictionary becomes one Info item holding its flattened text |
| Knowledge.Node.AddBlockFromDict | knowledge/implementations/node.py:293-300 | The block read by from_dict goes to add_content_block, or to add_link_block when it is a Links block |
| Knowledge.Node.AddListValue | knowledge/implementations/node.py:271-281 | A list under 'name' is a ValueError; otherwise each element goes through the element step in order, the first error ends it, and a list of primitive titles adds exactly their union |
| Knowledge.Node.AddListStep | knowledge/implementations/node.py:274-280 | One turn of the loop, extending the titles gathered so far by the element's text |
| Knowledge.Node.AddListElement | knowledge/implementations/node.py:275-280 | A primitive goes to add_primitive_value, a dictionary to add_dict_value, anything else is a TypeError |
| Knowledge.Node.AddKeyValue | knowledge/implementations/node.py:242-256 | Routes the pair as KeyValueRouteOf says: ignored keys change nothing, None is a TypeError, and the handlers are called with the effective key |
| Knowledge.Node.AddFromDict | knowledge/implementations/node.py:70-73 | add_key_value on each pair in order; the first error ends it; the titles gain exactly the title texts of the pairs |
| Hierdoc.SplitLines | hierdoc.py:21-26 | The non-empty '\n'-separated pieces, in order, none holding a line break |
| Hierdoc.SplitLinesKeepsText | hierdoc.py:21-26 | The lines laid end to end are the text without its line breaks |
| Hierdoc.SplitJoinedLines | hierdoc.py:21-26 | Non-empty lines without breaks, joined by '\n', split back into themselves |
| Hierdoc.SplitAll | hierdoc.py:231 | The lines of each text, one list after another |
| Hierdoc.SplitAllOfLines | hierdoc.py:230-237 | Lines already split come back unchanged from a second split |
| Hierdoc.Adjust | hierdoc.py:29-33 | The text with its leading whole indent steps removed, and how many were removed |
| Hierdoc.HasIndent | hierdoc.py:29-33 | str_has_indent: longer than one indent step and starting with one; Adjust ends with none left |
| Hierdoc.AdjustSplits | hierdoc.py:65-68 | Only whole indent steps are removed: they and the adjusted text make up the text again |
| Hierdoc.AdjustIdempotent | hierdoc.py:65-68 | An adjusted text has no indent left, so adjusting again changes nothing |
| Hierdoc.MarkOf | hierdoc.py:70-75 | The first character, when the text is longer than two, its second character is a space and the first is a marker |
| Hierdoc.WithoutMarks | hierdoc.py:77-81 | Two characters fewer exactly when there is a mark |
| Hierdoc.TagOf | hierdoc.py:91-99 | The lower-cased token between a leading '[' and the first '] ' past position 2, spaces kept |
| Hierdoc.WithoutTags | hierdoc.py:101-106 | The text without marks, minus len(tag) + 3 characters when there is a tag |
| Hierdoc.TagSplitsText | hierdoc.py:91-106 | The text without marks is '[', the raw token, '] ' and the tag-stripped text (or '[', the token and ']' with nothing after it) |
| Hierdoc.TranslitChar | hierdoc.py:36-40 | Each Russian letter becomes a Latin letter or '_'; other characters are kept |
| Hierdoc.Transliterate | hierdoc.py:36-40 | Length-preserving and character by character, so only Russian letters change and none is left |
| Hierdoc.NameWithForm | hierdoc.py:108-118 | has_name with its rule: the '(x)' prefix past position 2; else the text before ':' if shorter than 20; else that before ' - ' if shorter than 20; else none |
| Hierdoc.HasName | hierdoc.py:108-118 | has_name's result, and which rule produced it |
| Hierdoc.NameOf | hierdoc.py:120-135 | A name holds no ':' and at most four spaces, and no upper-case ASCII letter |
| Hierdoc.NameInParens | hierdoc.py:120-135 | For a text opening with '(x) ' past position 2, where x has no divider and fewer than five spaces, the name is x lower-cased and transliterated |
| Hierdoc.NameCutAtDividers | hierdoc.py:120-135 | Otherwise the name is the tag-stripped text cut before the first ':' and then the first ' - ', lower-cased and transliterated, when that has fewer than five spaces |
| Hierdoc.NameFirstFiveWords | hierdoc.py:120-135 | When the cut text has five spaces or more, the name is its prefix up to the fifth space (holding four spaces), lower-cased and transliterated |
| Hierdoc.NameFromHasName | hierdoc.py:108-135 | When has_name finds the name before ':' (and the text is not in the '(x) ' form), get_name gives that name lower-cased and transliterated, if it has no ' - ' and fewer than five spaces |
| Hierdoc.NameKeepsSpaceExample | hierdoc.py:120-135 | "my term: about it" is named "my term": cut at ':' with its space kept |
| Hierdoc.NameBounds | hierdoc.py:120-135 | A name holds no ':' and at most four spaces |
| Hierdoc.ContentOf | hierdoc.py:137-143 | A suffix of the tag-stripped text: all of it when no non-empty name is found, else what is left after len(name) + 3 characters |
| Hierdoc.ContentAfterParens | hierdoc.py:137-143 | After a name in parentheses, the text is '(', the name, ')', one more character of any kind, and the content |
| Hierdoc.ContentAfterDash | hierdoc.py:137-143 | After a non-empty name cut before ' - ', the text is the name, ' - ' and the content: here the + 3 is exact |
| Hierdoc.ContentAfterColon | hierdoc.py:137-143 | After a non-empty name cut before ':', the content is the intended content without its first character, or its first two when no space follows the colon |
| Hierdoc.IntendedContent | hierdoc.py:137-143 | The corrected get_content: a suffix of the tag-stripped text, which keeps the character the code loses after ': ' |
| Hierdoc.IntendedContentFollowsColon | hierdoc.py:137-143 | In the corrected reading, a name before ':' is followed by the colon, an optional space and the content |
| Hierdoc.NameBeforeColonExample | hierdoc.py:108-118 | On "ab: cd" the name is "ab", read before the ':' |
| Hierdoc.ContentDropsCharAfterColon | hierdoc.py:137-143 | On "ab: cd" the code gives "d", the corrected reading "cd" |
| Hierdoc.IndentStepKeepsLine | hierdoc.py:65-68 | One step of adjust_level keeps the line and the adjusted text |
| Hierdoc.Paragraph.constructor | hierdoc.py:44-53 | With adjust_level, whole leading indent steps move into the level |
| Hierdoc.Paragraph.Line | hierdoc.py:55-56 | The text behind four spaces per level |
| Hierdoc.Paragraph.AdjustLevel | hierdoc.py:65-68 | The loop removes whole indent steps while the text has an indent, raising the level by one each; for a level that is not negative the line stays the same |
| Hierdoc.Paragraph.SetLine | hierdoc.py:58-60 | A new text at the current level, adjusted again |
| Hierdoc.Paragraph.Mark | hierdoc.py:70-75 | get_mark with standard_only, on the paragraph's text |
| Hierdoc.ParagraphExample | test.py:9-16 | '    mytext' becomes level 1, text 'mytext', and the line is '    mytext' again |
| Hierdoc.BranchOf | hierdoc.py:316-337 | get_item's branch for a subtree title: parent tags first, then '=' or a child tag (a list when the content is empty or ends with ':'), then 'usage', else info lines |
| Hierdoc.UntaggedIsInfo | hierdoc.py:316-337 | A title without a '=' marker and without a tag becomes info lines |
| Hierdoc.ShortTitleHasNoContent | hierdoc.py:137-143 | A short title with no '(' at its start and no ':' is its own name, so its content is empty |
| HierdocTree.NewSubtree | hierdoc.py:150-162 | Tree(text, level) for one line: the level takes the indent, the title keeps the line |
| HierdocTree.AddPar | hierdoc.py:199-206 | The paragraph goes into the last subtree when it is deeper than that subtree, else it starts a new last subtree |
| HierdocTree.AddParShape | hierdoc.py:199-206 | All but the last subtree are untouched, and the count grows by one unless the paragraph went deeper |
| HierdocTree.AddLineTo | hierdoc.py:208-210 | The paragraph Paragraph(text, level) added |
| HierdocTree.PrepareLine | hierdoc.py:224-225 | A line starting with a tab has every tab replaced by four spaces when replace_tab holds |
| HierdocTree.FoldLines | hierdoc.py:223-226 | Every line added in order |
| HierdocTree.Prune | hierdoc.py:191-197 | remove_commented_subtrees as written, skipping the subtree after each removed one |
| HierdocTree.PruneList | hierdoc.py:191-197 | The loop of remove_commented_subtrees over a list: no longer than the list; PruneKeepsOrder and SecondCommentedSurvives state what survives |
| HierdocTree.PruneKeepsOrder | hierdoc.py:191-197 | Only whole subtrees go: the surviving titles are the original titles, in order |
| HierdocTree.PruneKeepsUncommented | hierdoc.py:191-197 | Every subtree not commented survives, pruned or (after a removal) as it was |
| HierdocTree.SecondCommentedSurvives | hierdoc.py:192-194 | Of two commented subtrees in a row, the second is kept |
| HierdocTree.PruneClear | hierdoc.py:191-197 | A tree with nothing commented is unchanged |
| HierdocTree.PruneAll | hierdoc.py:191-197 | The reference pruning: every commented subtree goes |
| HierdocTree.PruneAllClears | hierdoc.py:191-197 | The reference pruning leaves nothing commented |
| HierdocTree.PruneAllClear | hierdoc.py:191-197 | Both prunings leave a tree with nothing commented unchanged |
| HierdocTree.Hiertext | hierdoc.py:222-228 | add_hiertext: the lines folded in, then pruned when skip_commented holds |
| HierdocTree.Parse | hierdoc.py:150-162 | Tree(text, level): IndexError without a line; otherwise the first line is the title, the level takes the text's indent, and the other lines are added |
| HierdocTree.DepthOf | hierdoc.py:164-170 | One more than the deepest subtree, and 0 for a leaf |
| HierdocTree.AddParAddsLine | hierdoc.py:199-206 | Adding a paragraph adds exactly one line |
| HierdocTree.FoldLinesAddsLines | hierdoc.py:223-226 | Adding n lines adds n lines |
| HierdocTree.DepthOfTree | hierdoc.py:164-170 | A leaf has depth 0, any other tree is one deeper than its deepest subtree |
| HierdocTree.FoldLinesClear | hierdoc.py:223-226 | Lines none of which is commented keep a clear tree clear |
| HierdocTree.ParseCountsLines | hierdoc.py:254-258 | A text whose lines after the first are not commented parses to a tree with one line per non-empty piece |
| HierdocTree.AdjustIndented | hierdoc.py:65-68 | k indent steps before a line without indent are all taken off |
| HierdocTree.IndentedLine | hierdoc.py:44-53 | A line with k indent steps before a plain text becomes that text at level k |
| HierdocTree.FoldIndented | hierdoc.py:199-206 | Plain lines behind whole indent steps fold into those paragraphs, level by level |
| HierdocTree.ParseIndented | hierdoc.py:150-162 | A title line followed by indented plain lines parses to the title with those paragraphs added |
| HierdocTree.FirstTreeShape | test.py:22 | The first test's nesting: the deeper line goes under the first, the last line beside it |
| HierdocTree.FirstTreeCounts | test.py:25-29 | The first test's tree has 2 subtrees, 4 lines and depth 2 |
| HierdocTree.FirstTreeTest | test.py:20-29 | Tree of the first test text: 2 subtrees, 4 lines, depth 2 |
| HierdocTree.SecondTreeShape | test.py:23 | The second test's nesting: three lines each one level deeper, then a line back at the first level |
| HierdocTree.SecondTreeCounts | test.py:25-29 | The second test's tree has 2 subtrees, 5 lines and depth 3 |
| HierdocTree.SecondTreeTest | test.py:20-29 | Tree of the second test text: 2 subtrees, 5 lines, depth 3 |
| HierdocTree.Tree.Init | hierdoc.py:157 | Paragraph.__init__ of a tree: the adjusted text at the adjusted level, no subtrees |
| HierdocTree.Tree.Leaf | hierdoc.py:150-162 | Tree(text, level) for one line: the object holds NewSubtree's outline |
| HierdocTree.Tree.SubtreesCount | hierdoc.py:251-252 | The number of subtrees |
| HierdocTree.Tree.AddParagraph | hierdoc.py:199-206 | The tree's outline becomes AddPar's; a paragraph without text is an IndexError with nothing changed |
| HierdocTree.Tree.AddToLast | hierdoc.py:201-203 | The last subtree takes the paragraph; the others are untouched |
| HierdocTree.Tree.AppendSubtree | hierdoc.py:205-206 | A separate tree appended as the last subtree |
| HierdocTree.Tree.AddLine | hierdoc.py:208-210 | The outline becomes AddLineTo's |
| HierdocTree.Tree.RemoveCommentedSubtrees | hierdoc.py:191-197 | The outline becomes Prune's, the skip included |
| HierdocTree.Tree.PruneAt | hierdoc.py:192-197 | One loop pass: a commented subtree is removed and the next one stepped over; another is pruned |
| HierdocTree.Tree.DropCommented | hierdoc.py:193-194 | A commented subtree goes, and the one after it is stepped over |
| HierdocTree.Tree.KeepUncommented | hierdoc.py:196-197 | A subtree not commented is pruned in place |
| HierdocTree.Tree.RemoveAt | hierdoc.py:194 | The subtree at index k is removed, the others kept in order |
| HierdocTree.Tree.PruneChild | hierdoc.py:197 | The subtree at index k is replaced by its pruning |
| HierdocTree.Tree.AddHiertext | hierdoc.py:222-228 | The outline becomes Hiertext's |
| HierdocTree.Tree.AddLines | hierdoc.py:223-226 | The loop over the lines: the outline becomes FoldLines' |
| HierdocTree.Tree.AddNext | hierdoc.py:224-226 | One line, tabs replaced, added at level 0 |
| HierdocTree.Tree.SetHiertext | hierdoc.py:230-237 | With including_title the first line becomes the title (IndexError without one, nothing changed); the subtrees are rebuilt from the other lines |
| HierdocTree.Tree.FromText | hierdoc.py:150-162 | Tree(text, level): the outline Parse describes, or IndexError for a text without lines |
| HierdocTree.Tree.Depth | hierdoc.py:164-170 | The recursive depth, equal to DepthOf |
| HierdocTree.Tree.LinesCount | hierdoc.py:254-258 | One for the title plus the lines of every subtree |
| HierdocTree.LinesOf | hierdoc.py:254-258 | get_lines_count of an outline; ParseCountsLines, AddParAddsLine and FoldLinesAddsLines state its value |

## Left out

- File and YAML input (`Tree.from_file`, `add_yaml_text`, `get_parsed_yaml_from_lines`, yamldoc.py): these are calls into the file system and a YAML library.
- Rendering (`get_text`, `get_markdown`, `get_html`, `show`, `__repr__` on every class) and all `print` calls: text output only.
- The `singleton` decorator and `gc.collect`: the graph is one explicit `Knowledge.Graph` object that each operation takes as a parameter.
- `hash(str(self))`: Python's hash is not modelled. A node's hash name is a non-empty string fixed when the node is created.
- Knowledge.Node.AddLinkToValue: link targets are modelled for `str` values only. An `int` or `bool` value is refused with AttributeError, as `get_name` would refuse it.
- Ingestion.Render: a list or dictionary is spelt out by `Repr` with its strings in single quotes, no escaping of quotes inside them, and string keys only; Python's repr switches to double quotes or escapes when a string holds a quote. Floats are not modelled.
- Floats: parsed numbers are integers or booleans only.
- `Link.build_link_from_dict` as a method: its reading of the dictionary (caption, type, target, forwarded content, target action) is modelled as `Ingestion.PlanOf` and `Ingestion.ActionOf`. Building or updating the target node from the forwarded dictionary is not modelled. That step re-enters the whole ingestion recursively.
- Knowledge.Node.AddDictValue: requires that the pair does not reach `build_link_from_dict`, that is, no dictionary under a link type key and no dictionary items in a link block dictionary.
- Knowledge.Node.AddLinkBlockFromDict: requires that no item is a dictionary, for the same reason.
- Knowledge.Node.AddPrimitiveValue: an int or bool under 'name' or 'titles' is stored as its text (`Ingestion.Render`), where the source stores the raw value. So `0` and `False` are not falsy names here, a title `True` and a title `1` are different here but equal in Python, and the graph key is a string rather than an int.
- Knowledge.Node.AddListElement: the same text rendering of an int or bool name or title.
- Ingestion.TitleStep: an int or bool title is its text, where the source keeps the raw value.
- Ingestion.Texts: an int or bool is its text, where the source keeps the raw value.
- Hierdoc.TagOf: `Text.Lower` lowers only ASCII A-Z and the Russian Cyrillic capitals and keeps the length; Python's `str.lower` covers all of Unicode and can change the length (for 'İ'), so the `len(tag) + 3` cut can differ on such text.
- Hierdoc.NameOf: the same restriction of `Text.Lower` to ASCII and Russian letters.
- Knowledge.Node.AddListValue: an int or bool title is stored as its text, as in AddPrimitiveValue. It also requires the same of each dictionary element. The TypeError for an element that is neither primitive nor a dictionary is stated for the first element only.
- Knowledge.Node.AddKeyValue: an int or bool name or title is stored as its text, as in AddPrimitiveValue. It also requires the same of the value.
- Knowledge.Node.AddFromDict: an int or bool name or title is stored as its text, as in AddPrimitiveValue. It also requires the same of every pair.
- `Node.build_node_from_dict`: it creates a node and ingests a whole dictionary; only its `add_from_dict` half is modelled (`Knowledge.Node.AddFromDict`).
- `Node.add_block`: its dictionary form is `Knowledge.Node.AddBlockFromDict`; its Block-object form is not modelled separately.
- `Node.add_link_by_name`, `get_link`, `get_child_links_iter`, `get_outgoing_links_iter`, `has_outgoing_edge`, `get_incoming_edges` and `get_incoming_links`, and `Graph.get_outgoing_edges`/`get_incoming_edges`: these are used only by the outline interpretation or are broken (`get_incoming_links` compares a LinkType with an EdgeType).
- `Edge.get_links`/`get_other_link`: the LinkType/EdgeType comparison inside `get_link` never matches.
- `Node.get_link_blocks_types`/`get_link_blocks_list`: `sorted` over enum keys raises TypeError for more than one key. The model reads a node's link blocks in enum order.
- Knowledge.Node.MergeLinkBlocks: the order of the Python dict of link blocks is not kept. The link blocks are a map, and merge_node's loop takes them in enum order, which the merged items do not depend on except for their order within a block.
- Knowledge.Node.AddNamedLinks: the types of the links it appends are not stated in its contract, only their sources and targets.
- `utils.get_standardized_dict`: it reads the undefined name `list_plural_keys`.
- `Tree.get_item`: only its branch selection is modelled (`Hierdoc.BranchOf`). The interpretation itself is driven by graph side effects and calls the nonexistent `element.get_node`.
- `Tree.get_last_subtree`, `get_last_level`, `get_title_paragraph`, `get_hiertext` and `get_paragraphs`: they appear only inside `AddPar` and the rendering.
- HierdocTree.Tree.AddParagraph: a paragraph with empty text, for which `Tree('')` raises IndexError, is refused before anything changes.
- Interface files, type_enums.py, classes.py, builders.py and page.py have no behaviour of their own.
