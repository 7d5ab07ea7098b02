/** `MessageType` (src/request.rs:7-14) and its `FromPrimitive` conversion. */
module MessageTypes {
  import opened Results

  datatype MessageType = Invocation | Oneway | Reply | Notification

  /** The discriminant of each message type (`as u32`). */
  function Code(t: MessageType): (c: nat)
    ensures c < 4
  {
    match t
    case Invocation => 0
    case Oneway => 1
    case Reply => 2
    case Notification => 3
  }

  /** `MessageType::from_u32`: the type whose discriminant is x, if there is one. */
  function FromU32(x: nat): (r: Option<MessageType>)
    ensures r.Some? <==> x < 4
    ensures r.Some? ==> Code(r.value) == x
  {
    if x == 0 then Some(Invocation)
    else if x == 1 then Some(Oneway)
    else if x == 2 then Some(Reply)
    else if x == 3 then Some(Notification)
    else None
  }

  /** Converting a type to its discriminant and back gives the type. */
  lemma FromCode(t: MessageType)
    ensures FromU32(Code(t)) == Some(t)
  {
  }

  /** Distinct types have distinct discriminants. */
  lemma CodeInjective(s: MessageType, t: MessageType)
    requires Code(s) == Code(t)
    ensures s == t
  {
  }
}
