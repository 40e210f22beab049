/** The video-room table `videoRooms`: a room id, built from the two socket
    ids of a call, maps to the list of sockets that joined that room. It is
    changed by `join-video-room`, `leave-video-room` and `disconnect`. */
module Rooms {
  import opened Common

  type RoomTable = map<string, seq<SocketId>>

  /** The two ids of a pair in `Array.prototype.sort` order. */
  function Sorted(a: SocketId, b: SocketId): (SocketId, SocketId) {
    if Precedes(b, a) then (b, a) else (a, b)
  }

  /** `[a, b].sort().join("_")`. */
  function RoomId(a: SocketId, b: SocketId): string {
    var (lo, hi) := Sorted(a, b);
    lo + "_" + hi
  }

  /** The room id does not depend on who asks: both ends of a call compute
      the same key. */
  lemma RoomIdSymmetric(a: SocketId, b: SocketId)
    ensures RoomId(a, b) == RoomId(b, a)
  {
    PrecedesTotal(a, b);
    PrecedesAsymmetric(a, b);
  }

  /** Ids may themselves contain "_", so two different pairs can share a
      room id. */
  lemma RoomIdCollides()
    ensures RoomId("x", "y_z") == RoomId("x_y", "z") == "x_y_z"
    ensures {"x", "y_z"} != {"x_y", "z"}
  {
  }

  /** `list.filter(id => id !== x)`: every occurrence of `x` removed, every
      other id kept. */
  function Without(s: seq<SocketId>, x: SocketId): (r: seq<SocketId>)
    ensures x !in r
    ensures forall y :: y != x ==> (y in r <==> y in s)
    ensures |r| <= |s|
    ensures x !in s ==> r == s
    ensures NoDup(s) ==> NoDup(r)
    decreases |s|
  {
    if s == [] then []
    else if s[0] == x then Without(s[1..], x)
    else
      var rest := Without(s[1..], x);
      assert NoDup(s) ==> s[0] !in s[1..];
      assert x !in s ==> s == [s[0]] + s[1..];
      [s[0]] + rest
  }

  /** Filtering out an id just appended undoes the append. */
  lemma {:induction false} WithoutAppended(s: seq<SocketId>, x: SocketId)
    requires x !in s
    ensures Without(s + [x], x) == s
    decreases |s|
  {
    if s != [] {
      assert (s + [x])[1..] == s[1..] + [x];
      WithoutAppended(s[1..], x);
      assert s == [s[0]] + s[1..];
    }
  }

  /** `list.find(id => id !== sid)`: the first listed id other than `sid`. */
  function FirstOther(s: seq<SocketId>, sid: SocketId): (r: Option<SocketId>)
    ensures r.Some? <==> exists m :: m in s && m != sid
    ensures r.Some? ==> r.value in s && r.value != sid
    ensures r.Some? ==> exists k :: 0 <= k < |s| && s[k] == r.value && forall j :: 0 <= j < k ==> s[j] == sid
    decreases |s|
  {
    if s == [] then None
    else if s[0] != sid then assert s[0] in s; Some(s[0])
    else
      var r := FirstOther(s[1..], sid);
      assert forall m :: m in s && m != sid <==> m in s[1..] && m != sid;
      assert r.Some? ==> exists k :: 0 <= k < |s| && s[k] == r.value && forall j :: 0 <= j < k ==> s[j] == sid by {
        if r.Some? {
          var k :| 0 <= k < |s[1..]| && s[1..][k] == r.value && forall j :: 0 <= j < k ==> s[1..][j] == sid;
          assert s[k + 1] == r.value;
        }
      }
      r
  }

  /** `m` is one of the two ids that a room id `r` is made of. */
  ghost predicate KeyHalf(m: SocketId, r: string) {
    exists t :: RoomId(m, t) == r
  }

  /** The table's invariant: no room is empty, no room lists a socket twice,
      and a socket is only ever listed under a room id it is one half of. */
  ghost predicate RoomsOk(rooms: RoomTable) {
    forall r :: r in rooms ==>
      && rooms[r] != []
      && NoDup(rooms[r])
      && forall m :: m in rooms[r] ==> KeyHalf(m, r)
  }

  /** `u` is another socket listed in some room together with `sid`. */
  ghost predicate RoomMate(rooms: RoomTable, sid: SocketId, u: SocketId) {
    u != sid && exists r :: r in rooms && sid in rooms[r] && u in rooms[r]
  }

  /** `join-video-room`: create the room if absent, then append the caller
      unless already listed. */
  function JoinRoom(rooms: RoomTable, sid: SocketId, target: SocketId): RoomTable {
    var r := RoomId(sid, target);
    var members := if r in rooms then rooms[r] else [];
    if sid in members then rooms[r := members] else rooms[r := members + [sid]]
  }

  /** Filter `sid` out of room `r`, deleting the room once it is empty. */
  function DropMember(rooms: RoomTable, r: string, sid: SocketId): RoomTable {
    if r !in rooms then rooms
    else
      var rest := Without(rooms[r], sid);
      if rest == [] then rooms - {r} else rooms[r := rest]
  }

  /** `leave-video-room`. */
  function LeaveRoom(rooms: RoomTable, sid: SocketId, target: SocketId): RoomTable {
    DropMember(rooms, RoomId(sid, target), sid)
  }

  /** Whether room `r` survives the `disconnect` sweep of `sid`. */
  predicate Survives(rooms: RoomTable, sid: SocketId, r: string)
    requires r in rooms
  {
    sid !in rooms[r] || Without(rooms[r], sid) != []
  }

  /** The `disconnect` sweep: every room listing `sid` has it filtered out,
      and is deleted if that empties it; other rooms are not touched. */
  function RemoveEverywhere(rooms: RoomTable, sid: SocketId): RoomTable {
    map r | r in rooms && Survives(rooms, sid, r) ::
      if sid in rooms[r] then Without(rooms[r], sid) else rooms[r]
  }

  /** `join-video-room` lists the caller in the room of the pair, appended at
      the end when new, and touches no other room. */
  lemma JoinRoomAdds(rooms: RoomTable, sid: SocketId, target: SocketId)
    ensures var r := RoomId(sid, target); var j := JoinRoom(rooms, sid, target);
      && r in j && sid in j[r]
      && (r in rooms && sid in rooms[r] ==> j == rooms)
      && (r in rooms && sid !in rooms[r] ==> j[r] == rooms[r] + [sid])
      && (r !in rooms ==> j[r] == [sid])
      && j.Keys == rooms.Keys + {r}
      && forall k :: k in rooms && k != r ==> j[k] == rooms[k]
  {
  }

  /** Joining twice is joining once. */
  lemma JoinRoomIdempotent(rooms: RoomTable, sid: SocketId, target: SocketId)
    ensures JoinRoom(JoinRoom(rooms, sid, target), sid, target) == JoinRoom(rooms, sid, target)
  {
  }

  /** `join-video-room` keeps the table's invariant. */
  lemma JoinRoomKeepsRoomsOk(rooms: RoomTable, sid: SocketId, target: SocketId)
    requires RoomsOk(rooms)
    ensures RoomsOk(JoinRoom(rooms, sid, target))
  {
  }

  /** `leave-video-room` keeps the invariant, leaves the caller in no list
      under that room id, keeps that room exactly while someone else is still
      in it, and touches no other room. */
  lemma LeaveRoomEvicts(rooms: RoomTable, sid: SocketId, target: SocketId)
    requires RoomsOk(rooms)
    ensures var r := RoomId(sid, target); var l := LeaveRoom(rooms, sid, target);
      && RoomsOk(l)
      && (r in l <==> r in rooms && exists m :: m in rooms[r] && m != sid)
      && (r in l ==> sid !in l[r] && forall m :: m in l[r] <==> m in rooms[r] && m != sid)
      && l.Keys - {r} == rooms.Keys - {r}
      && forall k :: k in l && k != r ==> l[k] == rooms[k]
  {
    var r := RoomId(sid, target);
    if r in rooms && Without(rooms[r], sid) != [] {
      assert Without(rooms[r], sid)[0] in Without(rooms[r], sid);
    }
  }

  /** Leaving undoes joining, for a socket not yet listed in that room. */
  lemma JoinThenLeave(rooms: RoomTable, sid: SocketId, target: SocketId)
    requires RoomsOk(rooms)
    requires var r := RoomId(sid, target); r !in rooms || sid !in rooms[r]
    ensures LeaveRoom(JoinRoom(rooms, sid, target), sid, target) == rooms
  {
    var r := RoomId(sid, target);
    var members := if r in rooms then rooms[r] else [];
    WithoutAppended(members, sid);
    if r in rooms {
      assert rooms[r := members] == rooms;
    }
  }

  /** The `disconnect` sweep keeps the invariant, leaves `sid` listed
      nowhere, deletes exactly the rooms that held nobody else, and keeps
      every room that did not list `sid` as it was. */
  lemma RemoveEverywhereEvicts(rooms: RoomTable, sid: SocketId)
    requires RoomsOk(rooms)
    ensures var s := RemoveEverywhere(rooms, sid);
      && RoomsOk(s)
      && (forall r :: r in s ==> sid !in s[r])
      && (forall r :: r in rooms && sid !in rooms[r] ==> r in s && s[r] == rooms[r])
      && (forall r :: r in s <==> r in rooms && exists m :: m in rooms[r] && m != sid)
      && (forall r :: r in s ==> r in rooms && forall m :: m in s[r] <==> m in rooms[r] && m != sid)
  {
    var s := RemoveEverywhere(rooms, sid);
    forall r | r in rooms
      ensures r in s <==> exists m :: m in rooms[r] && m != sid
    {
      var rest := Without(rooms[r], sid);
      if sid !in rooms[r] {
        assert rooms[r][0] in rooms[r];
      } else if rest != [] {
        assert rest[0] in rest;
      }
    }
  }

  /** A room id with a single "_" in it. */
  predicate OneSeparator(r: string) {
    forall i, j :: 0 <= i < j < |r| && r[i] == '_' ==> r[j] != '_'
  }

  /** Around a single "_", a string splits into its two halves one way only. */
  lemma SplitUnique(lo1: string, hi1: string, lo2: string, hi2: string)
    requires lo1 + "_" + hi1 == lo2 + "_" + hi2
    requires OneSeparator(lo1 + "_" + hi1)
    ensures lo1 == lo2 && hi1 == hi2
  {
    var s := lo1 + "_" + hi1;
    assert s[|lo1|] == '_';
    assert s[|lo2|] == '_';
    assert |lo1| == |lo2|;
    assert lo1 == s[..|lo1|] == lo2;
    assert hi1 == s[|lo1| + 1..] == hi2;
  }

  /** A socket listed under a room id with a single "_" is one of the two
      halves of that id. */
  lemma HalfOfSplit(m: SocketId, r: string, lo: string, hi: string)
    requires KeyHalf(m, r) && r == lo + "_" + hi && OneSeparator(r)
    ensures m == lo || m == hi
  {
    var t :| RoomId(m, t) == r;
    var (lo', hi') := Sorted(m, t);
    SplitUnique(lo, hi, lo', hi');
  }

  /** A list without repeats has as many distinct ids as entries. */
  lemma {:induction false} NoDupCard(s: seq<SocketId>)
    requires NoDup(s)
    ensures |set m | m in s| == |s|
    decreases |s|
  {
    if s != [] {
      NoDupCard(s[1..]);
      assert (set m | m in s) == {s[0]} + (set m | m in s[1..]);
      assert s[0] !in s[1..];
    }
  }

  /** A list without repeats drawn from two values has at most two entries. */
  lemma NoDupOfTwo(s: seq<SocketId>, a: SocketId, b: SocketId)
    requires NoDup(s)
    requires forall i :: 0 <= i < |s| ==> s[i] == a || s[i] == b
    ensures |s| <= 2
  {
    var ids := set m | m in s;
    NoDupCard(s);
    assert ids <= {a, b};
    assert {a, b} == ids + ({a, b} - ids);
    assert |{a, b}| <= 2;
  }

  /** When a room id contains a single "_" (for instance when no socket id
      contains one), that room lists at most the two sockets of its pair. */
  lemma RoomAtMostTwo(rooms: RoomTable, r: string)
    requires RoomsOk(rooms) && r in rooms && OneSeparator(r)
    ensures |rooms[r]| <= 2
  {
    var s := rooms[r];
    assert KeyHalf(s[0], r);
    var t :| RoomId(s[0], t) == r;
    var (lo, hi) := Sorted(s[0], t);
    forall i | 0 <= i < |s| ensures s[i] == lo || s[i] == hi {
      HalfOfSplit(s[i], r, lo, hi);
    }
    NoDupOfTwo(s, lo, hi);
  }

  /** Without that condition the bound fails: three sockets whose pairs all
      produce "x_y_z" end up in one room. */
  lemma ThreeShareOneRoom()
    ensures var rooms := JoinRoom(JoinRoom(JoinRoom(map[], "x", "y_z"), "x_y", "z"), "z", "x_y");
      "x_y_z" in rooms && rooms["x_y_z"] == ["x", "x_y", "z"]
  {
    assert !Precedes("y_z", "x");
    assert !Precedes("z", "x_y");
    assert Precedes("x_y", "z");
    assert RoomId("x", "y_z") == "x_y_z";
    assert RoomId("x_y", "z") == "x_y_z";
    assert RoomId("z", "x_y") == "x_y_z";
    var r1 := JoinRoom(map[], "x", "y_z");
    assert [] + ["x"] == ["x"];
    assert r1 == map["x_y_z" := ["x"]];
    var r2 := JoinRoom(r1, "x_y", "z");
    assert "x_y" !in ["x"] by { assert |"x_y"| != |"x"|; }
    assert ["x"] + ["x_y"] == ["x", "x_y"];
    assert r2 == map["x_y_z" := ["x", "x_y"]];
    assert "z" !in ["x", "x_y"] by { assert "z"[0] != "x"[0]; }
    assert ["x", "x_y"] + ["z"] == ["x", "x_y", "z"];
  }

  /** The `toggle-media` loop: every room that lists `sid` notifies each of
      its other members. The result names exactly the room-mates of `sid`. */
  method MediaToggleNotices(rooms: RoomTable, sid: SocketId) returns (notices: seq<Event>)
    ensures forall e :: e in notices ==>
      e.name == "remote-media-toggled" && e.to.Peer? && RoomMate(rooms, sid, e.to.id)
    ensures forall u :: RoomMate(rooms, sid, u) ==> Event(Peer(u), "remote-media-toggled") in notices
  {
    notices := [];
    var todo := rooms.Keys;
    while todo != {}
      invariant todo <= rooms.Keys
      invariant forall e :: e in notices ==>
        e.name == "remote-media-toggled" && e.to.Peer? && RoomMate(rooms, sid, e.to.id)
      invariant forall r, u :: r in rooms && r !in todo && sid in rooms[r] && u in rooms[r] && u != sid ==>
        Event(Peer(u), "remote-media-toggled") in notices
      decreases |todo|
    {
      var r :| r in todo;
      if sid in rooms[r] {
        var members := rooms[r];
        var i := 0;
        while i < |members|
          invariant 0 <= i <= |members|
          invariant forall e :: e in notices ==>
            e.name == "remote-media-toggled" && e.to.Peer? && RoomMate(rooms, sid, e.to.id)
          invariant forall r', u :: r' in rooms && r' !in todo && sid in rooms[r'] && u in rooms[r'] && u != sid ==>
            Event(Peer(u), "remote-media-toggled") in notices
          invariant forall j :: 0 <= j < i && members[j] != sid ==>
            Event(Peer(members[j]), "remote-media-toggled") in notices
        {
          if members[i] != sid {
            assert RoomMate(rooms, sid, members[i]);
            notices := notices + [Event(Peer(members[i]), "remote-media-toggled")];
          }
          i := i + 1;
        }
      }
      todo := todo - {r};
    }
  }

  /** The notices one room sends when `sid` leaves it go to the members it
      keeps, which are exactly the room-mates of `sid` in that room. */
  lemma LeaveNotices(rooms: RoomTable, sid: SocketId, r: string)
    requires r in rooms && sid in rooms[r]
    ensures var sent := Notify(Without(rooms[r], sid), "user-left-video-room");
      && (forall e :: e in sent ==>
            && e.name == "user-left-video-room" && e.to.Peer?
            && e.to.id in rooms[r] && e.to.id != sid
            && RoomMate(rooms, sid, e.to.id))
      && (forall u :: u in rooms[r] && u != sid ==> Event(Peer(u), "user-left-video-room") in sent)
  {
    var rest := Without(rooms[r], sid);
    var sent := Notify(rest, "user-left-video-room");
    forall e | e in sent
      ensures && e.name == "user-left-video-room" && e.to.Peer?
              && e.to.id in rooms[r] && e.to.id != sid
              && RoomMate(rooms, sid, e.to.id)
    {
      var k :| 0 <= k < |rest| && sent[k] == e;
      assert rest[k] in rooms[r];
    }
    forall u | u in rooms[r] && u != sid
      ensures Event(Peer(u), "user-left-video-room") in sent
    {
      var k :| 0 <= k < |rest| && rest[k] == u;
      assert sent[k] == Event(Peer(u), "user-left-video-room");
    }
  }

  /** The `disconnect` loop: filter `sid` out of every room listing it,
      notify the sockets left in that room, and delete the room if it is now
      empty. The new table is `RemoveEverywhere`, and the notices name
      exactly the room-mates of `sid`. */
  method SweepRooms(rooms: RoomTable, sid: SocketId) returns (swept: RoomTable, notices: seq<Event>)
    ensures swept == RemoveEverywhere(rooms, sid)
    ensures forall e :: e in notices ==>
      e.name == "user-left-video-room" && e.to.Peer? && RoomMate(rooms, sid, e.to.id)
    ensures forall u :: RoomMate(rooms, sid, u) ==> Event(Peer(u), "user-left-video-room") in notices
  {
    swept, notices := rooms, [];
    var todo := rooms.Keys;
    while todo != {}
      invariant todo <= rooms.Keys
      invariant forall r :: r in swept <==> r in rooms && (r in todo || Survives(rooms, sid, r))
      invariant forall r :: r in swept ==>
        swept[r] == if r in todo || sid !in rooms[r] then rooms[r] else Without(rooms[r], sid)
      invariant forall e :: e in notices ==>
        e.name == "user-left-video-room" && e.to.Peer? && RoomMate(rooms, sid, e.to.id)
      invariant forall r, u :: r in rooms && r !in todo && sid in rooms[r] && u in rooms[r] && u != sid ==>
        Event(Peer(u), "user-left-video-room") in notices
      decreases |todo|
    {
      var r :| r in todo;
      if sid in swept[r] {
        var rest := Without(swept[r], sid);
        LeaveNotices(rooms, sid, r);
        notices := notices + Notify(rest, "user-left-video-room");
        if |rest| == 0 {
          swept := swept - {r};
        } else {
          swept := swept[r := rest];
        }
      }
      todo := todo - {r};
    }
    assert swept.Keys == RemoveEverywhere(rooms, sid).Keys;
  }
}
