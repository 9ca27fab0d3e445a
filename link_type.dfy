/**
 * content/types/link_type.py: the link-type aliases and the functions that
 * derive a link type's edge type and direction from the EdgeType table.
 */
module LinkTypes {
  import opened Wrappers
  import opened EdgeTypes
  import Synonyms

  /** LINK_TYPE_SYNONYMS: one group per link type, in enum order, headed by its value. */
  const LinkTypeSynonyms: Synonyms.Table := [
    ["parent", "cat", "cats"],
    ["child", "children", "struct", "content", "list", "items", "nodes"],
    ["uses", "use"],
    ["usage", "usages"],
    ["prereq", "base"],
    ["more"],
    ["source", "src", "sources"],
    ["receptor", "dst"],
    ["also", "see_also"],
    ["relation"],
    ["reference"],
    ["mention"]
  ]

  /** LinkType(s): the member whose value is exactly s, or ValueError. */
  function LinkFromValue(s: string): (r: Result<LinkType>)
    ensures r.Ok? ==> LinkValue(r.value) == s
    ensures r.Err? ==> r.error == ValueError && forall t: LinkType :: LinkValue(t) != s
  {
    if s == "parent" then Ok(Parent)
    else if s == "child" then Ok(Child)
    else if s == "uses" then Ok(Uses)
    else if s == "usage" then Ok(Usage)
    else if s == "prereq" then Ok(Prereq)
    else if s == "more" then Ok(More)
    else if s == "source" then Ok(Source)
    else if s == "receptor" then Ok(Receptor)
    else if s == "also" then Ok(Also)
    else if s == "relation" then Ok(Relation)
    else if s == "reference" then Ok(Reference)
    else if s == "mention" then Ok(Mention)
    else Err(ValueError)
  }

  /** The pair of edge type e contains link type t. */
  predicate InPair(t: LinkType, e: EdgeType) {
    LinkTypesOf(e).0 == t || LinkTypesOf(e).1 == t
  }

  /** The loop of get_edge_type: the first edge type of `edges` whose pair contains t. */
  function SearchEdgeType(t: LinkType, edges: seq<EdgeType>): (r: Option<EdgeType>)
    ensures r.Some? ==> r.value in edges && InPair(t, r.value)
    ensures r.None? ==> forall i :: 0 <= i < |edges| ==> !InPair(t, edges[i])
  {
    if edges == [] then None
    else if InPair(t, edges[0]) then Some(edges[0])
    else SearchEdgeType(t, edges[1..])
  }

  /** Every link type lies in some pair. */
  lemma HasPair(t: LinkType)
    ensures SearchEdgeType(t, AllEdgeTypes).Some?
  {
    var es := AllEdgeTypes;
    var e := match t
      case Parent => ParentChild case Child => ParentChild
      case Prereq => PrereqMore case More => PrereqMore
      case Uses => UsesUsage case Usage => UsesUsage
      case Source => SourceReceptor case Receptor => SourceReceptor
      case Also => AlsoRelation case Relation => AlsoRelation
      case Reference => ReferenceMention case Mention => ReferenceMention;
    EnumListingsComplete();
    assert InPair(t, e) && e in es;
    var i :| 0 <= i < |es| && es[i] == e;
  }

  /** get_edge_type: an edge type whose pair contains t (the only one, by EdgeTypeOfUnique). */
  function EdgeTypeOf(t: LinkType): (r: EdgeType)
    ensures InPair(t, r)
  {
    HasPair(t);
    SearchEdgeType(t, AllEdgeTypes).value
  }

  /** No other edge type's pair contains t. */
  lemma EdgeTypeOfUnique(t: LinkType, e: EdgeType)
    requires InPair(t, e)
    ensures e == EdgeTypeOf(t)
  {
  }

  /** get_direction: t is the inbound (second) member of its edge type's pair. */
  function Direction(t: LinkType): (r: bool)
    ensures r <==> t in {Child, More, Usage, Receptor, Relation, Mention}
  {
    LinkTypesOf(EdgeTypeOf(t)).1 == t
  }

  /** Indexing the pair of a link type's edge type by its direction gives the link type back. */
  lemma DirectionSelectsLinkType(t: LinkType)
    ensures LinkTypeAt(EdgeTypeOf(t), Direction(t)) == t
    ensures LinkTypeAt(EdgeTypeOf(t), !Direction(t)) != t
  {
  }

  /** The reverse lookups undo the table: the member at either position of e's pair has edge type e and that position as its direction. */
  lemma PositionRecovered(e: EdgeType, inbound: bool)
    ensures EdgeTypeOf(LinkTypeAt(e, inbound)) == e
    ensures Direction(LinkTypeAt(e, inbound)) == inbound
  {
    EdgeTypeOfUnique(LinkTypeAt(e, inbound), e);
  }

  /** Group i is headed by the value of the i-th link type. */
  lemma HeadsAreValues()
    ensures |LinkTypeSynonyms| == |AllLinkTypes|
    ensures forall i :: 0 <= i < |LinkTypeSynonyms| ==> |LinkTypeSynonyms[i]| > 0 && LinkTypeSynonyms[i][0] == LinkValue(AllLinkTypes[i])
  {
  }

  /**
   * get_type: a string is canonicalised through the synonyms and then built
   * by exact value; a member passes through; anything else gives None when
   * skipMissing holds and ValueError otherwise.
   */
  function GetType(arg: TypeArg<LinkType>, skipMissing: bool): (r: Result<Option<LinkType>>)
    ensures arg.Str? ==> (r.Ok? <==> Synonyms.Listed(arg.s, LinkTypeSynonyms))
    ensures arg.Str? && r.Ok? ==>
      r.value.Some? && exists i :: Synonyms.IsFirstGroup(arg.s, LinkTypeSynonyms, i) && LinkValue(r.value.value) == LinkTypeSynonyms[i][0]
    ensures arg.Member? ==> r == Ok(Some(arg.member))
    ensures (arg.Absent? || arg.Foreign?) ==> r == (if skipMissing then Ok(None) else Err(ValueError))
    ensures r.Err? ==> r.error == ValueError
  {
    match arg
    case Str(s) =>
      HeadsAreValues();
      (match Synonyms.CanonicSynonym(s, LinkTypeSynonyms, false)
       case Ok(Some(head)) =>
         (match LinkFromValue(head)
          case Ok(t) => Ok(Some(t))
          case Err(x) => Err(x))
       case Ok(None) => Err(ValueError)
       case Err(x) => Err(x))
    case Member(t) => Ok(Some(t))
    case _ => if skipMissing then Ok(None) else Err(ValueError)
  }

  /** has_type: a listed string or a member; anything else gives Python's falsy None. */
  function HasType(arg: TypeArg<LinkType>): (r: bool)
    ensures arg.Str? ==> (r <==> Synonyms.Listed(arg.s, LinkTypeSynonyms))
    ensures arg.Member? ==> r
    ensures (arg.Absent? || arg.Foreign?) ==> !r
  {
    match arg
    case Str(s) => Synonyms.IsInSynonyms(s, LinkTypeSynonyms)
    case Member(_) => true
    case _ => false
  }

  /** has_type(s) holds exactly when get_type(s) succeeds. */
  lemma HasTypeIffGetType(s: string, skipMissing: bool)
    ensures HasType(Str(s)) <==> GetType(Str(s), skipMissing).Ok?
  {
  }

  /** No head of LINK_TYPE_SYNONYMS appears in an earlier group. */
  lemma LinkSynonymsHeadsFirst()
    ensures Synonyms.HeadsFirst(LinkTypeSynonyms)
  {
  }

  /** LinkType(t.value) is t. */
  lemma LinkValueRoundTrip(t: LinkType)
    ensures LinkFromValue(LinkValue(t)) == Ok(t)
  {
  }

  /** Every link type's own value is its first group's head, so get_type(t.value) gives t back. */
  lemma {:induction false} GetTypeOfValue(t: LinkType, skipMissing: bool)
    ensures GetType(Str(LinkValue(t)), skipMissing) == Ok(Some(t))
  {
    var i := match t
      case Parent => 0 case Child => 1 case Uses => 2 case Usage => 3
      case Prereq => 4 case More => 5 case Source => 6 case Receptor => 7
      case Also => 8 case Relation => 9 case Reference => 10 case Mention => 11;
    assert AllLinkTypes[i] == t;
    GetTypeOfHead(i, skipMissing);
  }

  /** The head of group i names the i-th link type. */
  lemma GetTypeOfHead(i: int, skipMissing: bool)
    requires 0 <= i < |LinkTypeSynonyms|
    ensures |LinkTypeSynonyms[i]| > 0 && i < |AllLinkTypes|
    ensures GetType(Str(LinkTypeSynonyms[i][0]), skipMissing) == Ok(Some(AllLinkTypes[i]))
  {
    LinkSynonymsHeadsFirst();
    HeadsAreValues();
    LinkValueRoundTrip(AllLinkTypes[i]);
    Synonyms.HeadCanonical(LinkTypeSynonyms, i, false);
  }

  /** No alias of LINK_TYPE_SYNONYMS belongs to two groups. */
  lemma LinkSynonymsDisjoint()
    ensures Synonyms.GroupsDisjoint(LinkTypeSynonyms)
  {
  }

  /** Every spelling in group i resolves to the i-th link type. */
  lemma GroupMemberResolves(key: string, i: int, skipMissing: bool)
    requires 0 <= i < |LinkTypeSynonyms| && key in LinkTypeSynonyms[i]
    ensures i < |AllLinkTypes| && GetType(Str(key), skipMissing) == Ok(Some(AllLinkTypes[i]))
  {
    LinkSynonymsDisjoint();
    HeadsAreValues();
    LinkValueRoundTrip(AllLinkTypes[i]);
    Synonyms.MemberCanonical(key, LinkTypeSynonyms, i, false);
  }

  /** 'cat' and 'cats' name Parent. */
  lemma ParentAliases()
    ensures GetType(Str("cat"), false) == Ok(Some(Parent))
    ensures GetType(Str("cats"), false) == Ok(Some(Parent))
  {
    GroupMemberResolves("cat", 0, false);
    GroupMemberResolves("cats", 0, false);
  }

  /** 'children', 'struct' and 'content' name Child. */
  lemma ChildAliases()
    ensures GetType(Str("children"), false) == Ok(Some(Child))
    ensures GetType(Str("struct"), false) == Ok(Some(Child))
    ensures GetType(Str("content"), false) == Ok(Some(Child))
  {
    GroupMemberResolves("children", 1, false);
    GroupMemberResolves("struct", 1, false);
    GroupMemberResolves("content", 1, false);
  }

  /** 'list', 'items' and 'nodes' name Child. */
  lemma ListAliases()
    ensures GetType(Str("list"), false) == Ok(Some(Child))
    ensures GetType(Str("items"), false) == Ok(Some(Child))
    ensures GetType(Str("nodes"), false) == Ok(Some(Child))
  {
    GroupMemberResolves("list", 1, false);
    GroupMemberResolves("items", 1, false);
    GroupMemberResolves("nodes", 1, false);
  }

  /** 'base' and 'src' name Prereq and Source. */
  lemma OtherAliases()
    ensures GetType(Str("base"), false) == Ok(Some(Prereq))
    ensures GetType(Str("src"), false) == Ok(Some(Source))
  {
    GroupMemberResolves("base", 4, false);
    GroupMemberResolves("src", 6, false);
  }

  /** 'dst' and 'see_also' name Receptor and Also. */
  lemma EndpointAliases()
    ensures GetType(Str("dst"), false) == Ok(Some(Receptor))
    ensures GetType(Str("see_also"), false) == Ok(Some(Also))
  {
    GroupMemberResolves("dst", 7, false);
    GroupMemberResolves("see_also", 8, false);
  }

  /**
   * A string outside every group is refused with ValueError whatever
   * skip_missing says, since get_canonic_synonym is asked without it;
   * "parents", say, is in no group.
   */
  lemma UnknownAliasRefused(s: string, skipMissing: bool)
    ensures !Synonyms.Listed(s, LinkTypeSynonyms) ==> GetType(Str(s), skipMissing) == Err(ValueError) && !HasType(Str(s))
    ensures !Synonyms.Listed("parents", LinkTypeSynonyms)
  {
  }

  /** get_default: Reference, the outbound member of the default edge type's pair. */
  function Default(): (r: LinkType)
    ensures r == LinkTypesOf(EdgeTypes.Default()).0
    ensures !Direction(r)
  {
    Reference
  }
}
