/**
 * knowledge/types/edge_type.py: the closed set of edge types and the fixed
 * table that gives each edge type its (outbound, inbound) pair of link types.
 * The LinkType enum is declared here as well, because the table names its
 * members; the functions of content/types/link_type.py live in LinkTypes.
 */
module EdgeTypes {
  import opened Wrappers

  datatype EdgeType = ParentChild | PrereqMore | UsesUsage | SourceReceptor | AlsoRelation | ReferenceMention

  datatype LinkType =
    | Parent | Child | Uses | Usage | Prereq | More
    | Source | Receptor | Also | Relation | Reference | Mention

  /** The edge types in declaration order, which is the order `for edge_type in EdgeType` visits them. */
  const AllEdgeTypes: seq<EdgeType> := [ParentChild, PrereqMore, UsesUsage, SourceReceptor, AlsoRelation, ReferenceMention]

  /** The link types in declaration order. */
  const AllLinkTypes: seq<LinkType> := [Parent, Child, Uses, Usage, Prereq, More, Source, Receptor, Also, Relation, Reference, Mention]

  /** The enum's `.value` string. */
  function EdgeValue(e: EdgeType): string {
    match e
    case ParentChild => "parent_child"
    case PrereqMore => "prereq_more"
    case UsesUsage => "uses_usage"
    case SourceReceptor => "source_receptor"
    case AlsoRelation => "also_relation"
    case ReferenceMention => "reference_mention"
  }

  /** LinkType's `.value` string. */
  function LinkValue(t: LinkType): string {
    match t
    case Parent => "parent"
    case Child => "child"
    case Uses => "uses"
    case Usage => "usage"
    case Prereq => "prereq"
    case More => "more"
    case Source => "source"
    case Receptor => "receptor"
    case Also => "also"
    case Relation => "relation"
    case Reference => "reference"
    case Mention => "mention"
  }

  /** get_link_types: the (outbound, inbound) link types of an edge type. */
  function LinkTypesOf(e: EdgeType): (r: (LinkType, LinkType))
    ensures r.0 != r.1
  {
    match e
    case ParentChild => (Parent, Child)
    case PrereqMore => (Prereq, More)
    case UsesUsage => (Uses, Usage)
    case SourceReceptor => (Source, Receptor)
    case AlsoRelation => (Also, Relation)
    case ReferenceMention => (Reference, Mention)
  }

  /** The link type at position 1 when `inbound` holds, else at position 0. */
  function LinkTypeAt(e: EdgeType, inbound: bool): LinkType {
    if inbound then LinkTypesOf(e).1 else LinkTypesOf(e).0
  }

  /** The pairs of `edges`, laid out one after another. */
  function Flatten(edges: seq<EdgeType>): (r: seq<LinkType>)
    ensures |r| == 2 * |edges|
    ensures forall i :: 0 <= i < |edges| ==> r[2 * i] == LinkTypesOf(edges[i]).0 && r[2 * i + 1] == LinkTypesOf(edges[i]).1
  {
    if edges == [] then []
    else
      var rest := Flatten(edges[1..]);
      assert forall i :: 1 <= i < |edges| ==> edges[i] == edges[1..][i - 1];
      [LinkTypesOf(edges[0]).0, LinkTypesOf(edges[0]).1] + rest
  }

  /** The six pairs laid out in enum order, read off pair by pair. */
  lemma {:induction false} FlattenedPairs()
    ensures Flatten(AllEdgeTypes) == [Parent, Child, Prereq, More, Uses, Usage, Source, Receptor, Also, Relation, Reference, Mention]
  {
    var es := AllEdgeTypes;
    var f := Flatten(es);
    var want := [Parent, Child, Prereq, More, Uses, Usage, Source, Receptor, Also, Relation, Reference, Mention];
    forall i | 0 <= i < |es|
      ensures f[2 * i] == want[2 * i] && f[2 * i + 1] == want[2 * i + 1]
    {
    }
    forall k | 0 <= k < |f|
      ensures f[k] == want[k]
    {
      var i := k / 2;
      assert k == 2 * i || k == 2 * i + 1;
    }
  }

  /**
   * The six pairs partition the twelve link types: laid out in enum order,
   * they name every link type, and none twice.
   */
  lemma PairsPartitionLinkTypes()
    ensures forall t: LinkType :: t in Flatten(AllEdgeTypes)
    ensures forall i, j :: 0 <= i < j < |Flatten(AllEdgeTypes)| ==> Flatten(AllEdgeTypes)[i] != Flatten(AllEdgeTypes)[j]
    ensures |Flatten(AllEdgeTypes)| == |AllLinkTypes|
  {
    FlattenedPairs();
    var f := Flatten(AllEdgeTypes);
    forall t: LinkType ensures t in f {
      match t
      case Parent => assert f[0] == t;
      case Child => assert f[1] == t;
      case Prereq => assert f[2] == t;
      case More => assert f[3] == t;
      case Uses => assert f[4] == t;
      case Usage => assert f[5] == t;
      case Source => assert f[6] == t;
      case Receptor => assert f[7] == t;
      case Also => assert f[8] == t;
      case Relation => assert f[9] == t;
      case Reference => assert f[10] == t;
      case Mention => assert f[11] == t;
    }
  }

  /** The ordered listings name every member of their enum exactly once. */
  lemma EnumListingsComplete()
    ensures forall t: LinkType :: t in AllLinkTypes
    ensures forall e: EdgeType :: e in AllEdgeTypes
    ensures forall i, j :: 0 <= i < j < |AllLinkTypes| ==> AllLinkTypes[i] != AllLinkTypes[j]
    ensures forall i, j :: 0 <= i < j < |AllEdgeTypes| ==> AllEdgeTypes[i] != AllEdgeTypes[j]
  {
    forall t: LinkType ensures t in AllLinkTypes {
      match t
      case Parent => assert AllLinkTypes[0] == t;
      case Child => assert AllLinkTypes[1] == t;
      case Uses => assert AllLinkTypes[2] == t;
      case Usage => assert AllLinkTypes[3] == t;
      case Prereq => assert AllLinkTypes[4] == t;
      case More => assert AllLinkTypes[5] == t;
      case Source => assert AllLinkTypes[6] == t;
      case Receptor => assert AllLinkTypes[7] == t;
      case Also => assert AllLinkTypes[8] == t;
      case Relation => assert AllLinkTypes[9] == t;
      case Reference => assert AllLinkTypes[10] == t;
      case Mention => assert AllLinkTypes[11] == t;
    }
    forall e: EdgeType ensures e in AllEdgeTypes {
      match e
      case ParentChild => assert AllEdgeTypes[0] == e;
      case PrereqMore => assert AllEdgeTypes[1] == e;
      case UsesUsage => assert AllEdgeTypes[2] == e;
      case SourceReceptor => assert AllEdgeTypes[3] == e;
      case AlsoRelation => assert AllEdgeTypes[4] == e;
      case ReferenceMention => assert AllEdgeTypes[5] == e;
    }
  }

  /** EdgeType(s): the member whose value is exactly s, or ValueError. */
  function EdgeTypeFromValue(s: string): (r: Result<EdgeType>)
    ensures r.Ok? ==> EdgeValue(r.value) == s
    ensures r.Err? ==> r.error == ValueError && forall e: EdgeType :: EdgeValue(e) != s
  {
    if s == "parent_child" then Ok(ParentChild)
    else if s == "prereq_more" then Ok(PrereqMore)
    else if s == "uses_usage" then Ok(UsesUsage)
    else if s == "source_receptor" then Ok(SourceReceptor)
    else if s == "also_relation" then Ok(AlsoRelation)
    else if s == "reference_mention" then Ok(ReferenceMention)
    else Err(ValueError)
  }

  /** Each value names one member, and EdgeType(e.value) gives e back. */
  lemma EdgeValueRoundTrip(e: EdgeType)
    ensures EdgeTypeFromValue(EdgeValue(e)) == Ok(e)
  {
  }

  /**
   * get_type: a string is taken as an exact value (no synonyms), a member is
   * returned unchanged, anything else gives None when skipMissing holds and
   * ValueError otherwise.
   */
  function GetType(arg: TypeArg<EdgeType>, skipMissing: bool): (r: Result<Option<EdgeType>>)
    ensures arg.Str? ==> (r.Ok? <==> exists e: EdgeType :: EdgeValue(e) == arg.s)
    ensures arg.Str? && r.Ok? ==> r.value.Some? && EdgeValue(r.value.value) == arg.s
    ensures arg.Member? ==> r == Ok(Some(arg.member))
    ensures (arg.Absent? || arg.Foreign?) ==> r == (if skipMissing then Ok(None) else Err(ValueError))
    ensures r.Err? ==> r.error == ValueError
  {
    match arg
    case Str(s) =>
      (match EdgeTypeFromValue(s)
       case Ok(e) => Ok(Some(e))
       case Err(x) => Err(x))
    case Member(e) => Ok(Some(e))
    case _ => if skipMissing then Ok(None) else Err(ValueError)
  }

  /** get_default */
  function Default(): (r: EdgeType)
    ensures LinkTypesOf(r) == (Reference, Mention)
  {
    ReferenceMention
  }
}
