/** Issued commands, and the two-byte token by which a node's acknowledgement finds its command. */
module Commands {
  import opened Bytes
  import opened Clock

  datatype CommandStatus = Pending | Acked

  datatype PendingCommand = PendingCommand(nodeID: byte, action: string, sentAt: Stamp, status: CommandStatus, ackedAt: Stamp)

  type Table = map<Uuid, PendingCommand>

  function TokenOf(id: Uuid): Token {
    (id[14], id[15])
  }

  predicate Matches(t: Table, id: Uuid, token: Token) {
    id in t && t[id].status == Pending && TokenOf(id) == token
  }

  ghost predicate IsMatch(t: Table, token: Token, r: Option<Uuid>) {
    match r
    case Some(id) => Matches(t, id, token)
    case None => forall id :: !Matches(t, id, token)
  }

  /** The pending command an acknowledgement resolves to; `hint` is the map-order choice. */
  ghost function FindByToken(t: Table, token: Token, hint: Uuid): (r: Option<Uuid>)
    ensures IsMatch(t, token, r)
  {
    if Matches(t, hint, token) then Some(hint)
    else if exists id :: Matches(t, id, token) then (var id :| Matches(t, id, token); Some(id))
    else None
  }

  function MarkAcked(t: Table, id: Uuid, now: int): Table
    requires id in t
  {
    t[id := t[id].(status := Acked, ackedAt := At(now))]
  }

  class CommandStore {
    var commands: Table

    constructor ()
      ensures commands == map[]
    {
      commands := map[];
    }

    method Add(id: Uuid, cmd: PendingCommand)
      modifies this
      ensures commands == old(commands)[id := cmd]
    {
      commands := commands[id := cmd];
    }

    method Get(id: Uuid) returns (r: Option<PendingCommand>)
      ensures r == if id in commands then Some(commands[id]) else None
    {
      return if id in commands then Some(commands[id]) else None;
    }

    /** Scans in any order and acknowledges the first pending command with this token. */
    method AckByToken(token: Token, now: int) returns (r: Option<Uuid>)
      modifies this
      ensures IsMatch(old(commands), token, r)
      ensures commands == if r.Some? then MarkAcked(old(commands), r.value, now) else old(commands)
    {
      var todo := commands.Keys;
      while todo != {}
        invariant todo <= commands.Keys && commands == old(commands)
        invariant forall id :: id in commands && id !in todo ==> !Matches(commands, id, token)
        decreases todo
      {
        var id :| id in todo;
        if commands[id].status == Pending && id[14] == token.0 && id[15] == token.1 {
          commands := commands[id := commands[id].(status := Acked, ackedAt := At(now))];
          return Some(id);
        }
        todo := todo - {id};
      }
      return None;
    }
  }
}
