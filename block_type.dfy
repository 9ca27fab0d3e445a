/**
 * content/types/block_type.py: the kinds of content block and their aliases.
 * 'struct' is a member of the enum but has no synonym group, so it can be
 * built by exact value but not resolved by name.
 */
module BlockTypes {
  import opened Wrappers
  import Synonyms

  datatype BlockType = Title | Struct | Info | Props | Image | Links

  /** The enum's `.value` string. */
  function BlockValue(t: BlockType): string {
    match t
    case Title => "title"
    case Struct => "struct"
    case Info => "info"
    case Props => "props"
    case Image => "image"
    case Links => "links"
  }

  /** BLOCK_TYPE_SYNONYMS */
  const BlockTypeSynonyms: Synonyms.Table := [
    ["title", "head", "header"],
    ["info", "text"],
    ["props", "properties"],
    ["image", "img"],
    ["links", "link"]
  ]

  /** The block type each synonym group stands for, in table order. */
  const GroupTypes: seq<BlockType> := [Title, Info, Props, Image, Links]

  /** BlockType(s): the member whose value is exactly s, or ValueError. */
  function BlockFromValue(s: string): (r: Result<BlockType>)
    ensures r.Ok? ==> BlockValue(r.value) == s
    ensures r.Err? ==> r.error == ValueError && forall t: BlockType :: BlockValue(t) != s
  {
    if s == "title" then Ok(Title)
    else if s == "struct" then Ok(Struct)
    else if s == "info" then Ok(Info)
    else if s == "props" then Ok(Props)
    else if s == "image" then Ok(Image)
    else if s == "links" then Ok(Links)
    else Err(ValueError)
  }

  /** BlockType(t.value) is t. */
  lemma BlockValueRoundTrip(t: BlockType)
    ensures BlockFromValue(BlockValue(t)) == Ok(t)
  {
  }

  /** Group i is headed by the value of the i-th group type, and no spelling belongs to two groups. */
  lemma BlockSynonymsShape()
    ensures |BlockTypeSynonyms| == |GroupTypes|
    ensures forall i :: 0 <= i < |BlockTypeSynonyms| ==> |BlockTypeSynonyms[i]| > 0 && BlockTypeSynonyms[i][0] == BlockValue(GroupTypes[i])
    ensures Synonyms.GroupsDisjoint(BlockTypeSynonyms)
  {
  }

  /**
   * get_type: a string is canonicalised through the synonyms and then built
   * by exact value; a member passes through; anything else gives None when
   * skipMissing holds and ValueError otherwise.
   */
  function GetType(arg: TypeArg<BlockType>, skipMissing: bool): (r: Result<Option<BlockType>>)
    ensures arg.Str? ==> (r.Ok? <==> Synonyms.Listed(arg.s, BlockTypeSynonyms))
    ensures arg.Str? && r.Ok? ==>
      r.value.Some? && exists i :: Synonyms.IsFirstGroup(arg.s, BlockTypeSynonyms, i) && BlockValue(r.value.value) == BlockTypeSynonyms[i][0]
    ensures arg.Member? ==> r == Ok(Some(arg.member))
    ensures (arg.Absent? || arg.Foreign?) ==> r == (if skipMissing then Ok(None) else Err(ValueError))
    ensures r.Err? ==> r.error == ValueError
  {
    match arg
    case Str(s) =>
      BlockSynonymsShape();
      (match Synonyms.CanonicSynonym(s, BlockTypeSynonyms, false)
       case Ok(Some(head)) =>
         (match BlockFromValue(head)
          case Ok(t) => Ok(Some(t))
          case Err(x) => Err(x))
       case Ok(None) => Err(ValueError)
       case Err(x) => Err(x))
    case Member(t) => Ok(Some(t))
    case _ => if skipMissing then Ok(None) else Err(ValueError)
  }

  /** has_type: a listed string or a member; anything else gives Python's falsy None. */
  function HasType(arg: TypeArg<BlockType>): (r: bool)
    ensures arg.Str? ==> (r <==> Synonyms.Listed(arg.s, BlockTypeSynonyms))
    ensures arg.Member? ==> r
    ensures (arg.Absent? || arg.Foreign?) ==> !r
  {
    match arg
    case Str(s) => Synonyms.IsInSynonyms(s, BlockTypeSynonyms)
    case Member(_) => true
    case _ => false
  }

  /** has_type(s) holds exactly when get_type(s) succeeds. */
  lemma HasTypeIffGetType(s: string, skipMissing: bool)
    ensures HasType(Str(s)) <==> GetType(Str(s), skipMissing).Ok?
  {
  }

  /** Every spelling in group i resolves to the i-th group type. */
  lemma GroupMemberResolves(key: string, i: int, skipMissing: bool)
    requires 0 <= i < |BlockTypeSynonyms| && key in BlockTypeSynonyms[i]
    ensures i < |GroupTypes| && GetType(Str(key), skipMissing) == Ok(Some(GroupTypes[i]))
  {
    BlockSynonymsShape();
    BlockValueRoundTrip(GroupTypes[i]);
    Synonyms.MemberCanonical(key, BlockTypeSynonyms, i, false);
  }

  /** 'head' and 'header' name Title, 'text' names Info. */
  lemma TitleInfoAliases()
    ensures GetType(Str("head"), false) == Ok(Some(Title))
    ensures GetType(Str("header"), false) == Ok(Some(Title))
    ensures GetType(Str("text"), false) == Ok(Some(Info))
  {
    GroupMemberResolves("head", 0, false);
    GroupMemberResolves("header", 0, false);
    GroupMemberResolves("text", 1, false);
  }

  /** 'properties', 'img' and 'link' name Props, Image and Links. */
  lemma OtherAliases()
    ensures GetType(Str("properties"), false) == Ok(Some(Props))
    ensures GetType(Str("img"), false) == Ok(Some(Image))
    ensures GetType(Str("link"), false) == Ok(Some(Links))
  {
    GroupMemberResolves("properties", 2, false);
    GroupMemberResolves("img", 3, false);
    GroupMemberResolves("link", 4, false);
  }

  /** 'struct' is a value of the enum, yet no group lists it: get_type refuses it and has_type is false. */
  lemma StructNotResolvable(skipMissing: bool)
    ensures BlockFromValue("struct") == Ok(Struct)
    ensures GetType(Str("struct"), skipMissing) == Err(ValueError)
    ensures !HasType(Str("struct"))
  {
    assert !Synonyms.Listed("struct", BlockTypeSynonyms);
  }
}
