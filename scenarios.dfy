/** Clients of `WatchServer` that rely on the handlers' contracts alone. */
module Scenarios {
  import opened Common
  import opened Playback
  import opened Upload
  import opened Server

  /** Two sockets join and a third is turned away. */
  method ThirdIsRefused() {
    var s := new WatchServer(0);
    var e := s.UserJoin("A", "ann");
    e := s.UserJoin("B", "bob");
    e := s.UserJoin("C", "cem");
    assert e == [Event(Caller, "server-full")];
    assert s.users.Keys == {"A", "B"};
  }

  /** Picking a video stops playback at 0; `play` then starts it. */
  method PickAndPlay() {
    var s := new WatchServer(0);
    var e := s.SelectVideo("movie.mp4");
    e := s.Play();
    assert s.videoState == VideoState(true, 0.0, false, 1.0, Some("movie.mp4"));
  }

  /** One upload at a time: a second request is refused while the first is
      being received, and admitted again once it has ended; the quota check
      comes first, so an oversized request is answered 413 even then. */
  method OneUploadAtATime() {
    var s := new WatchServer(0);
    var stored := Some([Some(10)]);
    var reply, e := s.PostUpload(stored, Some(100));
    assert reply == Receiving && s.isUploading;
    reply, e := s.PostUpload(stored, Some(100));
    assert reply == Answered(Response(400, None));
    reply, e := s.PostUpload(Some([Some(MaxTotalSize)]), Some(1));
    assert reply == Answered(Response(413, None));
    var response, e2 := s.CompleteUpload(Stored(1700000000000, "movie.mp4"));
    assert response.status == 200 && !s.isUploading;
    StoredNameSplits(1700000000000, "movie.mp4");
    assert SplitStoredName(response.filename.value).1 == "movie.mp4";
    reply, e := s.PostUpload(stored, None);
    assert reply == Receiving;
  }
}
