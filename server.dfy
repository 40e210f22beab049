/** The server's in-memory state and its socket and HTTP handlers. A socket
    handler runs to completion within one turn of the event loop, so each is
    one method on the state. `POST /upload` spans several turns: the quota
    check awaits the directory scan, and the parser's callback and each
    `data` chunk arrive later. It is therefore split into `PostUpload`,
    `ReceiveChunk` and `CompleteUpload`. */
module Server {
  import opened Common
  import opened Presence
  import opened Rooms
  import opened Playback
  import opened Upload

  /** What `POST /upload` answers straight away: a status, or nothing yet
      because the file is being received. */
  datatype UploadReply = Answered(response: Response) | Receiving

  /** The events a socket gets right after a successful `user-join`. */
  const JoinEvents: seq<Event> := [
    Event(Everyone, "existing-users"),
    Event(OthersThanCaller, "user-joined"),
    Event(Caller, "video-state"),
    Event(Caller, "upload-status")
  ]

  class WatchServer {
    var connectedUsers: int
    var users: map<SocketId, User>
    var videoRooms: RoomTable
    var videoState: VideoState
    var isUploading: bool
    var lastTime: int
    var lastBytes: int

    function RosterView(): Roster
      reads this`connectedUsers, this`users
    {
      Roster(connectedUsers, users)
    }

    /** The invariant every handler keeps: a bounded roster and a well-formed
        room table. */
    ghost predicate Valid()
      reads this`connectedUsers, this`users, this`videoRooms
    {
      RosterOk(RosterView()) && RoomsOk(videoRooms)
    }

    /** The module-level initial values; `lastTime` starts at the clock
        reading when the server loads. */
    constructor (startTime: int)
      ensures Valid()
      ensures RosterView() == Roster(0, map[]) && videoRooms == map[]
      ensures videoState == InitialVideoState && !isUploading
      ensures lastTime == startTime && lastBytes == 0
    {
      connectedUsers := 0;
      users := map[];
      videoRooms := map[];
      videoState := InitialVideoState;
      isUploading := false;
      lastTime := startTime;
      lastBytes := 0;
    }

    /** `user-join`: refused with `server-full` once the counter has reached
        the cap, leaving the roster as it was; otherwise admitted. */
    method UserJoin(sid: SocketId, username: string) returns (emits: seq<Event>)
      requires Valid()
      modifies this`connectedUsers, this`users
      ensures Valid()
      ensures RosterView() == Admit(old(RosterView()), sid, username)
      ensures emits == if Full(old(RosterView())) then [Event(Caller, "server-full")] else JoinEvents
    {
      AdmitKeepsRosterOk(RosterView(), sid, username);
      if connectedUsers >= MaxUsers {
        emits := [Event(Caller, "server-full")];
        return;
      }
      connectedUsers := connectedUsers + 1;
      users := users[sid := User(username, sid, false, false)];
      emits := JoinEvents;
    }

    /** `toggle-media`: a registered caller's flags are overwritten and each
        of its room-mates is told; an unregistered caller changes nothing. */
    method ToggleMedia(sid: SocketId, audio: bool, video: bool) returns (emits: seq<Event>)
      requires Valid()
      modifies this`users
      ensures Valid()
      ensures RosterView() == SetMedia(old(RosterView()), sid, audio, video)
      ensures sid !in old(users) ==> emits == []
      ensures sid in old(users) ==> forall e :: e in emits ==>
        e.name == "remote-media-toggled" && e.to.Peer? && RoomMate(videoRooms, sid, e.to.id)
      ensures sid in old(users) ==> forall u :: RoomMate(videoRooms, sid, u) ==>
        Event(Peer(u), "remote-media-toggled") in emits
    {
      SetMediaFrame(RosterView(), sid, audio, video);
      if sid !in users {
        return [];
      }
      users := users[sid := users[sid].(hasAudio := audio, hasVideo := video)];
      emits := MediaToggleNotices(videoRooms, sid);
    }

    /** `join-video-room`: the caller is listed in the pair's room; both ends
        are told, and the caller learns the media flags of the first other
        member when that member is registered. */
    method JoinVideoRoom(sid: SocketId, target: SocketId) returns (emits: seq<Event>)
      requires Valid()
      modifies this`videoRooms
      ensures Valid()
      ensures videoRooms == JoinRoom(old(videoRooms), sid, target)
      ensures var other := FirstOther(videoRooms[RoomId(sid, target)], sid);
        emits == [Event(Peer(target), "user-joined-video-room"), Event(Caller, "user-joined-video-room")]
          + if other.Some? && other.value != "" && other.value in users
            then [Event(Caller, "remote-media-stream")] else []
    {
      JoinRoomKeepsRoomsOk(videoRooms, sid, target);
      JoinRoomAdds(videoRooms, sid, target);
      var r := RoomId(sid, target);
      if r !in videoRooms {
        videoRooms := videoRooms[r := []];
      }
      if sid !in videoRooms[r] {
        videoRooms := videoRooms[r := videoRooms[r] + [sid]];
      }
      emits := [Event(Peer(target), "user-joined-video-room"), Event(Caller, "user-joined-video-room")];
      var other := FirstOther(videoRooms[r], sid);
      if other.Some? && other.value != "" && other.value in users {
        emits := emits + [Event(Caller, "remote-media-stream")];
      }
    }

    /** `leave-video-room`: the caller is filtered out of the pair's room; an
        emptied room is deleted, otherwise those left are told. */
    method LeaveVideoRoom(sid: SocketId, target: SocketId) returns (emits: seq<Event>)
      requires Valid()
      modifies this`videoRooms
      ensures Valid()
      ensures videoRooms == LeaveRoom(old(videoRooms), sid, target)
      ensures var r := RoomId(sid, target);
        emits == if r in videoRooms then Notify(videoRooms[r], "user-left-video-room") else []
    {
      LeaveRoomEvicts(videoRooms, sid, target);
      var r := RoomId(sid, target);
      emits := [];
      if r in videoRooms {
        var rest := Without(videoRooms[r], sid);
        if rest == [] {
          videoRooms := videoRooms - {r};
        } else {
          videoRooms := videoRooms[r := rest];
          emits := Notify(rest, "user-left-video-room");
        }
      }
    }

    method Play() returns (emits: seq<Event>)
      modifies this`videoState
      ensures videoState == ApplyControl(old(videoState), Control.Play)
      ensures emits == [Event(Everyone, "play")]
    {
      videoState := videoState.(isPlaying := true);
      emits := [Event(Everyone, "play")];
    }

    method Pause() returns (emits: seq<Event>)
      modifies this`videoState
      ensures videoState == ApplyControl(old(videoState), Control.Pause)
      ensures emits == [Event(Everyone, "pause")]
    {
      videoState := videoState.(isPlaying := false);
      emits := [Event(Everyone, "pause")];
    }

    method Seek(time: real) returns (emits: seq<Event>)
      modifies this`videoState
      ensures videoState == ApplyControl(old(videoState), Control.Seek(time))
      ensures emits == [Event(Everyone, "seek")]
    {
      videoState := videoState.(currentTime := time);
      emits := [Event(Everyone, "seek")];
    }

    method Mute() returns (emits: seq<Event>)
      modifies this`videoState
      ensures videoState == ApplyControl(old(videoState), Control.Mute)
      ensures emits == [Event(Everyone, "mute")]
    {
      videoState := videoState.(muted := true);
      emits := [Event(Everyone, "mute")];
    }

    method Unmute() returns (emits: seq<Event>)
      modifies this`videoState
      ensures videoState == ApplyControl(old(videoState), Control.Unmute)
      ensures emits == [Event(Everyone, "unmute")]
    {
      videoState := videoState.(muted := false);
      emits := [Event(Everyone, "unmute")];
    }

    method VolumeChange(level: real) returns (emits: seq<Event>)
      modifies this`videoState
      ensures videoState == ApplyControl(old(videoState), Control.VolumeChange(level))
      ensures emits == [Event(Everyone, "volume-change")]
    {
      videoState := videoState.(volume := level);
      emits := [Event(Everyone, "volume-change")];
    }

    method SelectVideo(filename: string) returns (emits: seq<Event>)
      modifies this`videoState
      ensures videoState == ApplyControl(old(videoState), Control.SelectVideo(filename))
      ensures emits == [Event(Everyone, "video-selected"), Event(Everyone, "video-state")]
    {
      videoState := videoState.(currentVideo := Some(filename));
      videoState := videoState.(isPlaying := false);
      videoState := videoState.(currentTime := 0.0);
      emits := [Event(Everyone, "video-selected"), Event(Everyone, "video-state")];
    }

    /** `disconnect`: a registered socket is swept out of every room, its
        room-mates are told, it is dropped from the roster and the counter is
        reset to the roster's size. An unregistered socket changes nothing,
        and any room that lists it keeps doing so. */
    method Disconnect(sid: SocketId) returns (emits: seq<Event>)
      requires Valid()
      modifies this`connectedUsers, this`users, this`videoRooms
      ensures Valid()
      ensures RosterView() == Depart(old(RosterView()), sid)
      ensures sid !in old(users) ==> videoRooms == old(videoRooms) && emits == []
      ensures sid in old(users) ==> videoRooms == RemoveEverywhere(old(videoRooms), sid)
      ensures sid in old(users) ==>
        && |emits| >= 2
        && emits[|emits| - 2..] == [Event(Everyone, "existing-users"), Event(Everyone, "user-left")]
        && (forall e :: e in emits[..|emits| - 2] ==>
              e.name == "user-left-video-room" && e.to.Peer? && RoomMate(old(videoRooms), sid, e.to.id))
        && (forall u :: RoomMate(old(videoRooms), sid, u) ==>
              Event(Peer(u), "user-left-video-room") in emits)
    {
      if sid !in users {
        return [];
      }
      RemoveEverywhereEvicts(videoRooms, sid);
      DepartKeepsRosterOk(RosterView(), sid);
      var swept, notices := SweepRooms(videoRooms, sid);
      videoRooms := swept;
      users := users - {sid};
      connectedUsers := |users|;
      emits := notices + [Event(Everyone, "existing-users"), Event(Everyone, "user-left")];
      assert emits[..|emits| - 2] == notices;
    }

    /** `POST /upload`: the quota check runs first and may answer 500 or 413;
        then a second upload while one is running is refused with 400;
        otherwise the flag is raised, `upload-start` goes to everyone and
        the file is received. Every refusal leaves the flag as it was. */
    method PostUpload(listing: Listing, contentLength: Option<nat>) returns (reply: UploadReply, emits: seq<Event>)
      modifies this`isUploading
      ensures !QuotaPasses(listing, contentLength) ==>
        && isUploading == old(isUploading) && emits == []
        && reply == Answered(Response(if listing.None? || !AllStatted(listing.value) then 500 else 413, None))
      ensures QuotaPasses(listing, contentLength) && old(isUploading) ==>
        isUploading && emits == [] && reply == Answered(Response(400, None))
      ensures QuotaPasses(listing, contentLength) && !old(isUploading) ==>
        isUploading && emits == [Event(Everyone, "upload-start")] && reply == Receiving
    {
      var gate := CheckTotalFileSize(listing, contentLength);
      if gate.Refuse? {
        return Answered(Response(gate.status, None)), [];
      }
      if isUploading {
        return Answered(Response(400, None)), [];
      }
      isUploading := true;
      reply, emits := Receiving, [Event(Everyone, "upload-start")];
    }

    /** The end of an upload, whichever way it ends (the parser's callback,
        or the handler's `catch`): the flag is lowered, `upload-end` goes to
        everyone, and the answer is `Respond(c)`. */
    method CompleteUpload(c: Completion) returns (response: Response, emits: seq<Event>)
      modifies this`isUploading
      ensures !isUploading
      ensures response == Respond(c)
      ensures emits == [Event(Everyone, "upload-end")]
    {
      isUploading := false;
      emits := [Event(Everyone, "upload-end")];
      response := Respond(c);
    }

    /** `calculateSpeed`: when the clock has moved past the last sample,
        report the speed and take this chunk as the new sample; otherwise
        report 0 and keep the old sample. */
    method CalculateSpeed(chunkLength: nat, now: int) returns (speed: int)
      modifies this`lastTime, this`lastBytes
      ensures now > old(lastTime) ==>
        lastTime == now && lastBytes == chunkLength
        && speed == SpeedKBps(chunkLength, old(lastBytes), now - old(lastTime))
      ensures now <= old(lastTime) ==>
        lastTime == old(lastTime) && lastBytes == old(lastBytes) && speed == 0
    {
      if now > lastTime {
        speed := SpeedKBps(chunkLength, lastBytes, now - lastTime);
        lastTime := now;
        lastBytes := chunkLength;
      } else {
        speed := 0;
      }
    }

    /** The request's `data` listener: each chunk takes a speed sample and
        sends `upload-progress` to everyone. */
    method ReceiveChunk(chunkLength: nat, now: int) returns (emits: seq<Event>)
      modifies this`lastTime, this`lastBytes
      ensures now > old(lastTime) ==> lastTime == now && lastBytes == chunkLength
      ensures now <= old(lastTime) ==> lastTime == old(lastTime) && lastBytes == old(lastBytes)
      ensures emits == [Event(Everyone, "upload-progress")]
    {
      var _ := CalculateSpeed(chunkLength, now);
      emits := [Event(Everyone, "upload-progress")];
    }
  }
}
