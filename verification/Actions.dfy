/** `Action`: one step of a recorded conversation. */
module Actions {
  import opened Bytes

  datatype ActionType = Connect | Send | Recv | Close

  datatype Action = Action(kind: ActionType, data: bytes)
}
