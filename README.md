# Watch-together server: a Dafny model of its state and handlers

The server (`server.js`) lets two people watch a video together. It keeps
all of its state in memory, in a handful of module-level variables, and
changes that state from socket.io event handlers and from the `POST /upload`
route. This project models that state and its handlers:

- the presence registry: the `users` map and the `connectedUsers` counter,
  changed by `user-join`, `toggle-media` and `disconnect`;
- the video-room table `videoRooms` and its room-id rule (the two socket ids,
  sorted and joined with `_`), changed by `join-video-room`,
  `leave-video-room` and `disconnect`;
- the shared playback record `videoState` and the seven control events;
- upload admission:
  - the 16 GiB total-size quota (`checkTotalFileSize`);
  - the MIME allow-list (`fileFilter`);
  - the `isUploading` single-flight flag;
  - the status each way of ending an upload answers with;
  - the stored-filename rule;
  - `calculateSpeed`.

Layout:

- `common.dfy` (module `Common`): socket ids, the string order of
  `Array.prototype.sort` (`Precedes`), and outbound events. An event is an
  audience plus a name: everyone, the caller, all but the caller, or one
  socket id.
- `presence.dfy` (module `Presence`): the registry as a value `Roster`, its
  invariant `RosterOk`, and the transitions `Admit`, `SetMedia` and `Depart`.
- `rooms.dfy` (module `Rooms`):
  - the room id and the transitions `JoinRoom`, `LeaveRoom` and
    `RemoveEverywhere`;
  - the table invariant `RoomsOk`: rooms are non-empty and have no
    repeats, and every member is one of the two halves of its room id;
  - the two loops over all rooms, as methods proved against those
    functions: `MediaToggleNotices` and `SweepRooms`.
- `playback.dfy` (module `Playback`): `VideoState` and `ApplyControl`.
- `upload.dfy` (module `Upload`): the quota loop `CheckTotalFileSize`, the
  filter, the completion statuses `Respond`, `StoredName` and `SpeedKBps`.
- `server.dfy` (module `Server`): class `WatchServer`.
  - Its fields are the server's variables.
  - It has one method per handler, and each method's `ensures` also lists
    the events the handler emits.
  - The registry, room and playback handlers give their new state as a
    specification function of the module above, applied to the old state.
  - The upload handlers (`PostUpload`, `CompleteUpload`, `CalculateSpeed`,
    `ReceiveChunk`) state their new `isUploading`, `lastTime` and
    `lastBytes` directly.
  - `Valid()` (`RosterOk` and `RoomsOk`) is kept by every handler.
- `scenarios.dfy` (module `Scenarios`): client code that uses only the
  handlers' contracts:
  - a third socket is refused;
  - selecting a video and playing it;
  - one upload at a time.

Observations the proofs make precise:

- **The counter can run ahead of the map.** `user-join` increments
  `connectedUsers` even when the socket is already registered. Two joins
  from one socket therefore fill both slots (`DoubleJoinTakesBothSlots`).
  `disconnect` resets the counter to the map's size.
- **Unregistered sockets are not swept from rooms.** `join-video-room` does
  not check registration, while `disconnect` only sweeps registered sockets.
  A room may therefore keep a socket that is gone.
- **Room ids can collide.** Socket ids are arbitrary strings, and a string
  containing `_` can produce the same room id for two different pairs
  (`RoomIdCollides`). One room can then hold three sockets
  (`ThreeShareOneRoom`). The source calls the sorted, joined pair a unique
  room id (server.js:319). A single `_` in the id is a sufficient condition
  for it to identify one pair, and `RoomAtMostTwo` proves that such a room
  lists at most two sockets. Some ids with more than one `_` also come from
  one pair only.
- **The quota is checked first.** It runs as middleware before the
  single-flight check. An oversized request is answered 413 (or 500) even
  while another upload is running.
- **The speed figure compares chunks, not totals.** `calculateSpeed`
  compares the current chunk's length with the previous chunk's length,
  not with a running total. Equal-sized chunks therefore read as speed 0
  (`EqualChunksReadZero`).

## Model

| member | source | states |
|---|---|---|
| Common.PrecedesTotal | server.js:319 | the sort order used for room ids is total: two strings are equal or one precedes the other |
| Common.PrecedesAsymmetric | server.js:319 | no two strings precede each other, so sorting a pair has one outcome |
| Common.Precedes | server.js:319 | the default string order of `sort`: lexicographic by character code, a proper prefix first |
| Presence.Admit | server.js:245-253 | `user-join`: refused when the counter is at 2; otherwise counter plus one and the caller (re)registered with media off |
| Presence.SetMedia | server.js:296-299 | `toggle-media`: the caller's two flags overwritten when registered, otherwise no change |
| Presence.Depart | server.js:405-421 | `disconnect`: a registered socket is deleted and the counter reset to the map's size; otherwise no change |
| Presence.AdmitDecides | server.js:245-253 | up to the forced disconnect that follows a refusal, `user-join` with the counter at 2 changes nothing; otherwise the counter rises by one, the caller is registered with both media flags off, and every other entry is kept |
| Presence.AdmitKeepsRosterOk | server.js:243-253 | `user-join` keeps the registry invariant: entries ≤ counter ≤ 2, each entry filed under its own id |
| Presence.SetMediaFrame | server.js:296-299 | `toggle-media` keeps the invariant and changes only the caller's two flags; an unregistered caller changes nothing |
| Presence.DepartKeepsRosterOk | server.js:405-421 | `disconnect` keeps the invariant; a registered socket is removed, every other entry is kept unchanged and none is added, and the counter then equals the map's size; an unregistered one changes nothing |
| Presence.RunKeepsRosterOk | server.js:245-253 | under any interleaving of joins, toggles and disconnects the invariant holds, so at most two users are ever registered |
| Presence.DoubleJoinTakesBothSlots | server.js:245-253 | two joins from one socket set the counter to 2 with one entry, and a third socket is then refused |
| Rooms.Sorted | server.js:319 | the pair in `sort` order |
| Rooms.RoomId | server.js:319 | the room id: the sorted pair joined with `_` |
| Rooms.RoomIdSymmetric | server.js:319 | both ends of a call compute the same room id |
| Rooms.RoomIdCollides | server.js:319 | two different pairs of ids can yield the same room id when ids contain `_` |
| Rooms.Without | server.js:353 | the filter drops every occurrence of the id, keeps every other member, never grows the list, and keeps it free of repeats |
| Rooms.WithoutAppended | server.js:353 | filtering out an id that was just appended gives back the list before the append |
| Rooms.FirstOther | server.js:337 | `find` returns the first listed member other than the caller, and returns one exactly when such a member exists |
| Rooms.JoinRoom | server.js:318-328 | `join-video-room`: the pair's room created if absent, the caller appended unless listed |
| Rooms.DropMember | server.js:352-356 | the caller filtered out of a room, which is deleted once empty |
| Rooms.LeaveRoom | server.js:348-356 | `leave-video-room`: `DropMember` at the pair's room id |
| Rooms.RemoveEverywhere | server.js:409-419 | the `disconnect` sweep: every room listing the socket filtered, emptied rooms deleted, other rooms untouched |
| Rooms.JoinRoomAdds | server.js:318-328 | `join-video-room` creates the pair's room if needed and appends the caller only if absent; other rooms are untouched |
| Rooms.JoinRoomIdempotent | server.js:326-328 | joining the same room twice is the same as joining once |
| Rooms.JoinRoomKeepsRoomsOk | server.js:318-328 | joining keeps rooms non-empty and repeat-free, with every member a half of its room id |
| Rooms.LeaveRoomEvicts | server.js:348-356 | `leave-video-room` keeps the invariant, removes the caller from that room, keeps the room exactly while another member remains, keeps those members, and touches no other room |
| Rooms.JoinThenLeave | server.js:318-356 | leaving undoes joining for a socket not already in the room |
| Rooms.RemoveEverywhereEvicts | server.js:409-419 | the disconnect sweep keeps the invariant, leaves the socket in no room, deletes exactly the rooms that held nobody else, keeps every room that did not list it, and keeps the other members of the rooms that did |
| Rooms.RoomAtMostTwo | server.js:318-328 | a room whose id contains a single `_` lists at most two sockets |
| Rooms.ThreeShareOneRoom | server.js:318-328 | with ids `x`, `x_y`, `z`, three joins put three sockets in room `x_y_z` |
| Rooms.MediaToggleNotices | server.js:301-313 | the `toggle-media` loop notifies exactly the sockets that share a room with the caller |
| Rooms.LeaveNotices | server.js:410-414 | in one room, the disconnect notices go exactly to that room's members other than the departing socket |
| Rooms.SweepRooms | server.js:409-419 | the disconnect loop produces `RemoveEverywhere` of the table and notifies exactly the caller's room-mates |
| Playback.ApplyControl | server.js:366-402 | the field writes of the seven control handlers |
| Playback.ApplyControlFrame | server.js:366-402 | each control other than `select-video` writes one field, and no control changes a field it does not write |
| Playback.ApplyControlStores | server.js:366-402 | each control stores the value it carries, unvalidated; `select-video` sets the video, stops playback and rewinds to 0 |
| Playback.LastWriterWins | server.js:366-402 | a control whose fields a later control writes again leaves no trace |
| Playback.DisjointControlsCommute | server.js:366-402 | controls writing different fields commute |
| Upload.TotalSize | server.js:92-96 | the sum of the stored files' sizes |
| Upload.ContentLength | server.js:98 | the request's `content-length`, 0 when missing |
| Upload.WithinQuota | server.js:100 | the quota comparison: stored total plus request at most 16 GiB, the cap itself allowed |
| Upload.CheckTotalFileSize | server.js:87-116 | answers 500 exactly when the listing or a `stat` fails, passes exactly when stored sizes plus `content-length` (missing = 0) are at most 16 GiB, and otherwise answers 413 |
| Upload.Respond | server.js:140-171 | 200 exactly for a stored file, answered with the name the storage rule gives it (`StoredName` of the upload time and the original name); 413 exactly for `LIMIT_FILE_SIZE`; 500 exactly when the parser throws; 400 for a missing file or any other error |
| Upload.FileFilter | server.js:66-78 | `fileFilter`: an allowed type continues, any other ends the upload with an error without code |
| Upload.FileFilterDecides | server.js:66-78 | only `video/mp4`, `video/avi` and `video/x-matroska` pass, compared exactly; any other type ends the upload with 400 |
| Upload.Decimal | server.js:62 | the timestamp's decimal form is a non-empty string of digits, without a leading zero |
| Upload.StoredName | server.js:62 | the stored file name: the upload time in milliseconds, `-`, the original name |
| Upload.DecimalInjective | server.js:62 | different timestamps have different decimal forms |
| Upload.StoredNameSplits | server.js:62 | a stored name splits at its first `-` back into the timestamp and the original name, whatever the original name contains |
| Upload.StoredNameInjective | server.js:62 | two uploads get the same stored name only if their millisecond and original name agree |
| Upload.RoundHalfUp | server.js:128 | `Math.round`: nearest whole number, halves upwards |
| Upload.SpeedKBps | server.js:122-128 | the speed figure: change in chunk length per second, in KiB, rounded |
| Upload.EqualChunksReadZero | server.js:121-131 | equal consecutive chunk sizes report speed 0 |
| Server.WatchServer.constructor | server.js:195-205 | the initial state: no users, no rooms, the initial playback record, no upload running, speed sample at the start time |
| Server.WatchServer.UserJoin | server.js:243-293 | new registry is `Admit` of the old one; a full server answers only `server-full`, otherwise the caller gets the join events in order |
| Server.WatchServer.ToggleMedia | server.js:296-315 | new registry is `SetMedia`; a registered caller's room-mates, and no one else, get `remote-media-toggled` |
| Server.WatchServer.JoinVideoRoom | server.js:318-345 | new table is `JoinRoom`; both ends are told, and the caller gets `remote-media-stream` when the first other listed member is registered (and non-empty) |
| Server.WatchServer.LeaveVideoRoom | server.js:348-363 | new table is `LeaveRoom`; the members left in the room are told, in list order |
| Server.WatchServer.Play | server.js:366-369 | the record becomes `ApplyControl(Play)`; `play` goes to everyone |
| Server.WatchServer.Pause | server.js:371-374 | the record becomes `ApplyControl(Pause)`; `pause` goes to everyone |
| Server.WatchServer.Seek | server.js:376-379 | the record becomes `ApplyControl(Seek(time))`; `seek` goes to everyone |
| Server.WatchServer.Mute | server.js:381-384 | the record becomes `ApplyControl(Mute)`; `mute` goes to everyone |
| Server.WatchServer.Unmute | server.js:386-389 | the record becomes `ApplyControl(Unmute)`; `unmute` goes to everyone |
| Server.WatchServer.VolumeChange | server.js:391-394 | the record becomes `ApplyControl(VolumeChange(level))`; `volume-change` goes to everyone |
| Server.WatchServer.SelectVideo | server.js:396-402 | the record becomes `ApplyControl(SelectVideo(name))`; `video-selected` then `video-state` go to everyone |
| Server.WatchServer.Disconnect | server.js:405-428 | an unregistered socket changes nothing; a registered one gives registry `Depart`, table `RemoveEverywhere`, notices to exactly its room-mates, then `existing-users` and `user-left` |
| Server.WatchServer.PostUpload | server.js:132-137 | a failed quota check answers 500 or 413 and leaves the flag as it was; otherwise a running upload answers 400; otherwise the flag is raised and `upload-start` goes to everyone |
| Server.WatchServer.CompleteUpload | server.js:140-171 | however the upload ends, the flag is lowered, `upload-end` goes to everyone, and the answer is `Respond` of the outcome |
| Server.WatchServer.CalculateSpeed | server.js:121-131 | when the clock has advanced, reports `SpeedKBps` and takes this chunk as the new sample; otherwise reports 0 and keeps the sample |
| Server.WatchServer.ReceiveChunk | server.js:160-165 | each chunk updates the speed sample as `CalculateSpeed` does and sends `upload-progress` to everyone |

## Left out

- Server.WatchServer.UserJoin: the two `available-videos` emits are left out. They come from asynchronous directory reads, so they arrive in a later turn of the event loop, and a read error drops them.
- Server.WatchServer.UserJoin: `socket.disconnect(true)` after `server-full` is left to the transport, which then delivers `disconnect` for that socket. The model covers it by calling `Disconnect(sid)` next. A refused caller that was never registered then changes nothing. A refused caller that is registered, for instance a socket sending `user-join` again once the counter is at 2, is removed from the roster and swept from its rooms by that `Disconnect`. `Presence.AdmitDecides` describes the handler only up to that forced disconnect.
- Event payloads are not modelled: `existing-users` lists, media flags, playback values and the progress percentage. Events carry an audience and a name only.
- Rooms.MediaToggleNotices, Rooms.SweepRooms, Server.WatchServer.ToggleMedia and Server.WatchServer.Disconnect: the notices are stated by membership. Which sockets are told is exact. The order of the notices, and how often a socket is told when it shares several rooms with the caller, are not stated.
- Server.WatchServer.ReceiveChunk: the `upload-progress` percentage (uploaded bytes over `content-length`) is not modelled.
- Rooms.RoomAtMostTwo: the bound is proved only under the sufficient condition of a single `_` in the room id. Other ids that only one pair produces also hold at most two sockets, but they are not characterised. The bound does not hold in general (`ThreeShareOneRoom`).
- `socket.join` and `socket.leave` belong to socket.io's own room bookkeeping, not to `videoRooms`, and are not modelled.
- HTTPS certificates, Express middleware (CORS, static files, the catch-all error handler), `server.listen` and the `error` and logging listeners (`onAny`, the wrapped `socket.emit`) do no bookkeeping on the modelled state and are left out.
- `DELETE /videos/:filename` and the unused `mediaStreams` map are outside the modelled state.
- File-system effects are parameters:
  - the quota check's directory scan is an input `Listing`;
  - the multipart parser's outcome is an input `Completion`.
- The clock is a parameter: `Date.now()` is passed in as `now`.
- The per-file 16 GiB limit is enforced by the parser, which is not part of this model. It appears only as the `LIMIT_FILE_SIZE` outcome.
- Upload.ContentLength: an unparsable `content-length` header (`parseInt` giving `NaN`, which makes the comparison false and lets the request through) is not modelled; the header is either absent or a whole number.
- Playback values and the speed are modelled with exact reals, not IEEE doubles, so floating-point rounding is not modelled. `RoundHalfUp` rounds halves upwards, as `Math.round` does, negative halves included.
- JavaScript compares strings by UTF-16 code unit, while `Precedes` compares Dafny characters (code points). The two orders differ only when a character outside the Basic Multilingual Plane is compared with one in U+E000–U+FFFF. Code-unit order puts the former first, code-point order puts it last.
- `users` and `videoRooms` are plain objects in the source. Keys such as `__proto__`, which behave specially there, are modelled as ordinary map keys.
- A control event's argument is whatever the client sends. The model gives it one type: a number for `seek` and `volume-change`, a string for `select-video`, booleans for `toggle-media`.
- The `targetUserId` of `join-video-room` and `leave-video-room` is client-supplied and is modelled as a string. Other values are not modelled. For instance, `undefined` sorts after every string and joins as an empty string, giving room id `sid + "_"`, whereas `RoomId(sid, "")` is `"_" + sid`.
- Server.WatchServer.PostUpload: the quota check and the single-flight check are one step in the model. In the source, other handlers may run while the quota check awaits the directory scan. A request admitted meanwhile is not modelled.
