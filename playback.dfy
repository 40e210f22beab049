/** The shared playback record `videoState` and the seven control events
    that overwrite its fields. */
module Playback {
  import opened Common

  /** `currentTime` and `volume` are whatever number the client sent; they
      are stored and echoed, never computed with. */
  datatype VideoState = VideoState(
    isPlaying: bool,
    currentTime: real,
    muted: bool,
    volume: real,
    currentVideo: Option<string>)

  /** The record as the server starts. */
  const InitialVideoState := VideoState(false, 0.0, false, 1.0, None)

  /** The control events: `play`, `pause`, `seek`, `mute`, `unmute`,
      `volume-change` and `select-video`. */
  datatype Control =
    | Play
    | Pause
    | Seek(time: real)
    | Mute
    | Unmute
    | VolumeChange(level: real)
    | SelectVideo(filename: string)

  datatype Field = IsPlaying | CurrentTime | Muted | Volume | CurrentVideo

  /** The fields a control event writes. */
  function Writes(c: Control): set<Field> {
    match c
    case Play | Pause => {IsPlaying}
    case Seek(_) => {CurrentTime}
    case Mute | Unmute => {Muted}
    case VolumeChange(_) => {Volume}
    case SelectVideo(_) => {CurrentVideo, IsPlaying, CurrentTime}
  }

  /** Field `f` has the same value in `s` and `t`. */
  predicate SameField(s: VideoState, t: VideoState, f: Field) {
    match f
    case IsPlaying => s.isPlaying == t.isPlaying
    case CurrentTime => s.currentTime == t.currentTime
    case Muted => s.muted == t.muted
    case Volume => s.volume == t.volume
    case CurrentVideo => s.currentVideo == t.currentVideo
  }

  /** The handler of a control event, as field writes on the record. */
  function ApplyControl(s: VideoState, c: Control): VideoState {
    match c
    case Play => s.(isPlaying := true)
    case Pause => s.(isPlaying := false)
    case Seek(t) => s.(currentTime := t)
    case Mute => s.(muted := true)
    case Unmute => s.(muted := false)
    case VolumeChange(v) => s.(volume := v)
    case SelectVideo(name) => s.(currentVideo := Some(name), isPlaying := false, currentTime := 0.0)
  }

  /** Every control but `select-video` writes exactly one field, and no
      control changes a field outside the ones it writes. */
  lemma ApplyControlFrame(s: VideoState, c: Control)
    ensures !c.SelectVideo? ==> |Writes(c)| == 1
    ensures forall f :: f !in Writes(c) ==> SameField(s, ApplyControl(s, c), f)
  {
  }

  /** The value a control writes is the one it carries, stored as given: a
      seek position or a volume level outside [0, 1] is kept unchanged, and
      `select-video` also stops playback at position 0. */
  lemma ApplyControlStores(s: VideoState, c: Control)
    ensures var t := ApplyControl(s, c);
      && (c.Play? ==> t.isPlaying)
      && (c.Pause? ==> !t.isPlaying)
      && (c.Seek? ==> t.currentTime == c.time)
      && (c.Mute? ==> t.muted)
      && (c.Unmute? ==> !t.muted)
      && (c.VolumeChange? ==> t.volume == c.level)
      && (c.SelectVideo? ==> t.currentVideo == Some(c.filename) && !t.isPlaying && t.currentTime == 0.0
                             && t.muted == s.muted && t.volume == s.volume)
  {
  }

  /** Last writer wins: a control whose fields are all written again by a
      later one leaves no trace. */
  lemma LastWriterWins(s: VideoState, c1: Control, c2: Control)
    requires Writes(c1) <= Writes(c2)
    ensures ApplyControl(ApplyControl(s, c1), c2) == ApplyControl(s, c2)
  {
  }

  /** Controls that write different fields commute. */
  lemma DisjointControlsCommute(s: VideoState, c1: Control, c2: Control)
    requires Writes(c1) !! Writes(c2)
    ensures ApplyControl(ApplyControl(s, c1), c2) == ApplyControl(ApplyControl(s, c2), c1)
  {
  }
}
