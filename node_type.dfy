/** knowledge/types/node_type.py: the kinds of graph node, looked up by exact value only. */
module NodeTypes {
  import opened Wrappers

  datatype NodeType = Unk | Term | Doc | Ext | Img

  /** The enum's `.value` string. */
  function NodeValue(t: NodeType): string {
    match t
    case Unk => "unk"
    case Term => "term"
    case Doc => "doc"
    case Ext => "ext"
    case Img => "img"
  }

  /** The five members have five different values. */
  lemma NodeValuesDistinct(t1: NodeType, t2: NodeType)
    ensures NodeValue(t1) == NodeValue(t2) ==> t1 == t2
  {
  }

  /** NodeType(s): the member whose value is exactly s, or ValueError. */
  function NodeFromValue(s: string): (r: Result<NodeType>)
    ensures r.Ok? ==> NodeValue(r.value) == s
    ensures r.Err? ==> r.error == ValueError && forall t: NodeType :: NodeValue(t) != s
  {
    if s == "unk" then Ok(Unk)
    else if s == "term" then Ok(Term)
    else if s == "doc" then Ok(Doc)
    else if s == "ext" then Ok(Ext)
    else if s == "img" then Ok(Img)
    else Err(ValueError)
  }

  /**
   * get_type: a string is taken as an exact value, a member passes through,
   * anything else gives None when skipMissing holds and ValueError otherwise.
   */
  function GetType(arg: TypeArg<NodeType>, skipMissing: bool): (r: Result<Option<NodeType>>)
    ensures arg.Str? ==> (r.Ok? <==> exists t: NodeType :: NodeValue(t) == arg.s)
    ensures arg.Str? && r.Ok? ==> r.value.Some? && NodeValue(r.value.value) == arg.s
    ensures arg.Member? ==> r == Ok(Some(arg.member))
    ensures (arg.Absent? || arg.Foreign?) ==> r == (if skipMissing then Ok(None) else Err(ValueError))
    ensures r.Err? ==> r.error == ValueError
  {
    match arg
    case Str(s) =>
      (match NodeFromValue(s)
       case Ok(t) => Ok(Some(t))
       case Err(x) => Err(x))
    case Member(t) => Ok(Some(t))
    case _ => if skipMissing then Ok(None) else Err(ValueError)
  }

  /** get_type(t.value) gives t back. */
  lemma GetTypeOfValue(t: NodeType, skipMissing: bool)
    ensures GetType(Str(NodeValue(t)), skipMissing) == Ok(Some(t))
  {
  }
}
