/** The presence registry: the `users` map and the `connectedUsers` counter,
    changed by the `user-join`, `toggle-media` and `disconnect` handlers. */
module Presence {
  import opened Common

  /** At most this many sockets are admitted by `user-join`. */
  const MaxUsers: int := 2

  /** An entry of `users`, keyed by its own socket id. */
  datatype User = User(username: string, id: SocketId, hasAudio: bool, hasVideo: bool)

  /** The counter and the map together. The counter is not recomputed from
      the map on a join, so it may run ahead of the map's size. */
  datatype Roster = Roster(connectedUsers: int, users: map<SocketId, User>)

  /** The registry's invariant: the map never holds more entries than the
      counter says, the counter never exceeds the cap, and every entry is
      filed under its own id. */
  predicate RosterOk(r: Roster) {
    && |r.users| <= r.connectedUsers <= MaxUsers
    && forall id :: id in r.users ==> r.users[id].id == id
  }

  predicate Full(r: Roster) {
    r.connectedUsers >= MaxUsers
  }

  /** `user-join`: refused when the counter has reached the cap; otherwise
      the counter goes up and the socket is (re)registered with no media. */
  function Admit(r: Roster, sid: SocketId, username: string): Roster {
    if Full(r) then r
    else Roster(r.connectedUsers + 1, r.users[sid := User(username, sid, false, false)])
  }

  /** `toggle-media`: overwrite the caller's two media flags, if registered. */
  function SetMedia(r: Roster, sid: SocketId, audio: bool, video: bool): Roster {
    if sid in r.users then
      r.(users := r.users[sid := r.users[sid].(hasAudio := audio, hasVideo := video)])
    else r
  }

  /** `disconnect`: drop a registered socket and resynchronise the counter
      with the map's size; an unregistered socket changes nothing. */
  function Depart(r: Roster, sid: SocketId): Roster {
    if sid in r.users then
      var rest := r.users - {sid};
      Roster(|rest|, rest)
    else r
  }

  /** Admission: a full roster refuses and stays as it was; otherwise the
      counter goes up by one, the caller is registered with both media off,
      and every other entry is kept. */
  lemma AdmitDecides(r: Roster, sid: SocketId, username: string)
    ensures Full(r) ==> Admit(r, sid, username) == r
    ensures !Full(r) ==>
      var r' := Admit(r, sid, username);
      && r'.connectedUsers == r.connectedUsers + 1
      && r'.users.Keys == r.users.Keys + {sid}
      && r'.users[sid] == User(username, sid, false, false)
      && forall id :: id in r.users && id != sid ==> r'.users[id] == r.users[id]
  {
  }

  /** `user-join` keeps the registry's invariant. */
  lemma AdmitKeepsRosterOk(r: Roster, sid: SocketId, username: string)
    requires RosterOk(r)
    ensures RosterOk(Admit(r, sid, username))
  {
  }

  /** `toggle-media` keeps the invariant and changes nothing but the caller's
      two flags: same keys, same counter, same name and id. */
  lemma SetMediaFrame(r: Roster, sid: SocketId, audio: bool, video: bool)
    requires RosterOk(r)
    ensures var r' := SetMedia(r, sid, audio, video);
      && RosterOk(r')
      && r'.connectedUsers == r.connectedUsers
      && r'.users.Keys == r.users.Keys
      && (forall id :: id in r.users && id != sid ==> r'.users[id] == r.users[id])
      && (sid in r.users ==> r'.users[sid] == r.users[sid].(hasAudio := audio, hasVideo := video))
      && (sid !in r.users ==> r' == r)
  {
  }

  /** `disconnect` keeps the invariant; for a registered socket the counter
      then equals the map's size exactly and the socket is gone; every other
      entry is kept as it was. */
  lemma DepartKeepsRosterOk(r: Roster, sid: SocketId)
    requires RosterOk(r)
    ensures var r' := Depart(r, sid);
      && RosterOk(r')
      && (sid in r.users ==> sid !in r'.users && r'.connectedUsers == |r'.users| == |r.users| - 1)
      && (forall id :: id != sid ==> (id in r'.users <==> id in r.users))
      && (forall id :: id in r.users && id != sid ==> r'.users[id] == r.users[id])
      && (sid !in r.users ==> r' == r)
  {
  }

  /** The steps of the registry that a socket can cause. */
  datatype Step =
    | JoinStep(sid: SocketId, username: string)
    | ToggleStep(sid: SocketId, audio: bool, video: bool)
    | LeaveStep(sid: SocketId)

  function Apply(r: Roster, s: Step): Roster {
    match s
    case JoinStep(sid, name) => Admit(r, sid, name)
    case ToggleStep(sid, a, v) => SetMedia(r, sid, a, v)
    case LeaveStep(sid) => Depart(r, sid)
  }

  function Run(r: Roster, steps: seq<Step>): Roster
    decreases |steps|
  {
    if steps == [] then r else Run(Apply(r, steps[0]), steps[1..])
  }

  /** Whatever the interleaving of joins, toggles and disconnects, the
      invariant holds after each of them, so at most two sockets are ever
      registered. */
  lemma {:induction false} RunKeepsRosterOk(r: Roster, steps: seq<Step>)
    requires RosterOk(r)
    ensures RosterOk(Run(r, steps))
    ensures |Run(r, steps).users| <= MaxUsers
    decreases |steps|
  {
    if steps != [] {
      match steps[0] {
        case JoinStep(sid, name) => AdmitKeepsRosterOk(r, sid, name);
        case ToggleStep(sid, a, v) => SetMediaFrame(r, sid, a, v);
        case LeaveStep(sid) => DepartKeepsRosterOk(r, sid);
      }
      RunKeepsRosterOk(Apply(r, steps[0]), steps[1..]);
    }
  }

  /** A second `user-join` from one socket raises the counter without adding
      an entry, so a different socket is then refused although only one
      user is registered. */
  lemma DoubleJoinTakesBothSlots()
    ensures var r := Admit(Admit(Roster(0, map[]), "a", "ann"), "a", "ann");
      && r.connectedUsers == 2 && |r.users| == 1
      && Admit(r, "b", "bob") == r
  {
  }
}
