/** The track-index state machine of the mini player,
    src/renderer/js/background-player.js: which track of the list plays,
    how next and previous wrap around, and what the player broadcasts.
    The audio itself (Howler) is left to the effects the model emits. */
module Player {
  import opened Wrappers
  import TrackUtils

  /** A track as the playlist sends it. */
  type Track = TrackUtils.Track

  /** The player's state: `tracks`, `currentIndex` (-1 before anything
      played), `isPlaying`, whether a sound is loaded (`sound !== null`) and
      the global volume. */
  datatype Player = Player(tracks: seq<Track>, currentIndex: int, playing: bool, hasSound: bool, volume: real)

  /** The state when the window opens. */
  const Initial: Player := Player([], -1, false, false, 1.0)

  /** The state the player sends to the main window. */
  datatype Broadcast = Broadcast(isPlaying: bool, currentTrack: Option<Track>, volume: real)

  /** What the player asks of the audio library and of the main window. */
  datatype Effect =
    | Start(url: string)
    | PauseSound
    | ResumeSound
    | SeekSound(value: Value)
    | SetVolume(volume: real)
    | Send(state: Broadcast)

  /** An argument of a command: a JavaScript number or anything else. */
  datatype Value = Number(n: real) | NotNumber

  /** The commands of the `player-command` channel; `Play`'s index is
      `None` when it is not a number, and `RefreshTracks`' list is `None`
      when it is not an array. */
  datatype Command =
    | Play(index: Option<int>)
    | Pause
    | Resume
    | Next
    | Prev
    | Seek(value: Value)
    | Volume(value: Value)
    | RefreshTracks(list: Option<seq<Track>>)
    | GetState
    | Unknown(name: string)

  /** The sound's callbacks. */
  datatype Event = Played | Paused | Stopped | Ended

  /** The index points into the list. */
  predicate InRange(p: Player) {
    0 <= p.currentIndex < |p.tracks|
  }

  /** `broadcastState()`'s `currentTrack`: the track at the index when the
      index is in range, `null` otherwise. */
  function CurrentTrack(p: Player): (t: Option<Track>)
    ensures t.Some? <==> InRange(p)
    ensures t.Some? ==> t.value == p.tracks[p.currentIndex]
  {
    if 0 <= p.currentIndex < |p.tracks| then Some(p.tracks[p.currentIndex]) else None
  }

  function StateOf(p: Player): Broadcast {
    Broadcast(p.playing, CurrentTrack(p), p.volume)
  }

  /** `currentIndex + 1 < tracks.length ? currentIndex + 1 : 0`. */
  function NextIndex(i: int, len: nat): int {
    if i + 1 < len then i + 1 else 0
  }

  /** `currentIndex - 1 >= 0 ? currentIndex - 1 : tracks.length - 1`. */
  function PrevIndex(i: int, len: nat): int {
    if i - 1 >= 0 then i - 1 else len - 1
  }

  /** `playTrackAt(index)`: an index outside the list is refused and nothing
      changes; otherwise the old sound is dropped, the index moves there and
      the track's sound is started. */
  function PlayAt(p: Player, index: int): (r: (Player, seq<Effect>))
    ensures !(0 <= index < |p.tracks|) ==> r == (p, [])
    ensures 0 <= index < |p.tracks| ==>
      && r.0.currentIndex == index && InRange(r.0) && r.0.hasSound
      && CurrentTrack(r.0) == Some(p.tracks[index])
      && r.1 == [Start(p.tracks[index].url)]
    ensures r.0.tracks == p.tracks && r.0.volume == p.volume && r.0.playing == p.playing
  {
    if index < 0 || index >= |p.tracks| then (p, [])
    else (p.(currentIndex := index, hasSound := true), [Start(p.tracks[index].url)])
  }

  /** One `player-command`. */
  function Step(p: Player, cmd: Command): (r: (Player, seq<Effect>))
    ensures cmd.Unknown? || (cmd.Play? && cmd.index.None?) ==> r == (p, [])
    ensures r.0.tracks != p.tracks ==> cmd.RefreshTracks?
    ensures r.0.currentIndex != p.currentIndex ==> cmd.Play? || cmd.Next? || cmd.Prev?
    ensures r.0.volume != p.volume ==> cmd.Volume? && cmd.value.Number?
    ensures r.0.playing == p.playing
  {
    match cmd
    case Play(index) =>
      if index.Some? then PlayAt(p, index.value) else (p, [])
    case Pause =>
      if p.hasSound && p.playing then (p, [PauseSound]) else (p, [])
    case Resume =>
      if p.hasSound then (p, [ResumeSound]) else (p, [])
    case Next => PlayAt(p, NextIndex(p.currentIndex, |p.tracks|))
    case Prev => PlayAt(p, PrevIndex(p.currentIndex, |p.tracks|))
    case Seek(value) =>
      if p.hasSound then (p, [SeekSound(value)]) else (p, [])
    case Volume(value) =>
      if value.Number? then
        var q := p.(volume := value.n);
        (q, [SetVolume(value.n), Send(StateOf(q))])
      else (p, [])
    case RefreshTracks(list) =>
      if list.Some? && |list.value| > 0 then (p.(tracks := list.value), []) else (p, [])
    case GetState => (p, [Send(StateOf(p))])
    case Unknown(_) => (p, [])
  }

  /** The sound's callbacks: playing and stopping are broadcast; at the end
      of a track the next one starts. */
  function OnEvent(p: Player, e: Event): (r: (Player, seq<Effect>))
    ensures e.Played? ==> r.0.playing && r.1 == [Send(StateOf(r.0))]
    ensures e.Paused? || e.Stopped? ==> !r.0.playing && r.1 == [Send(StateOf(r.0))]
    ensures r.0.tracks == p.tracks
  {
    match e
    case Played => var q := p.(playing := true); (q, [Send(StateOf(q))])
    case Paused => var q := p.(playing := false); (q, [Send(StateOf(q))])
    case Stopped => var q := p.(playing := false); (q, [Send(StateOf(q))])
    case Ended => PlayAt(p, NextIndex(p.currentIndex, |p.tracks|))
  }

  /** The mini player's own buttons. */
  datatype Button = PlayButton | PrevButton | NextButton

  function Click(p: Player, b: Button): (r: (Player, seq<Effect>))
    ensures b.PlayButton? ==> r.0 == p
    ensures b.PlayButton? && p.hasSound ==> r.1 == [if p.playing then PauseSound else ResumeSound]
  {
    match b
    case PlayButton =>
      if !p.hasSound then (p, []) else if p.playing then (p, [PauseSound]) else (p, [ResumeSound])
    case PrevButton => PlayAt(p, PrevIndex(p.currentIndex, |p.tracks|))
    case NextButton => PlayAt(p, NextIndex(p.currentIndex, |p.tracks|))
  }

  /** The buttons and the end of a track follow the same wrap rules as the
      commands. */
  lemma SameRules(p: Player)
    ensures Click(p, NextButton) == Step(p, Next) == OnEvent(p, Ended)
    ensures Click(p, PrevButton) == Step(p, Prev)
  {
  }

  /** The index is never below -1, and an index of a track means a sound
      has been loaded. */
  predicate Valid(p: Player) {
    -1 <= p.currentIndex && (0 <= p.currentIndex ==> p.hasSound)
  }

  /** Every command, callback and button keeps the state valid, starting
      from the window's initial state. */
  lemma ValidKept(p: Player, cmd: Command, e: Event, b: Button)
    requires Valid(p)
    ensures Valid(Initial)
    ensures Valid(Step(p, cmd).0) && Valid(OnEvent(p, e).0) && Valid(Click(p, b).0)
  {
  }

  /** With an empty list, next and previous do nothing. */
  lemma EmptyListStill(p: Player)
    requires |p.tracks| == 0
    ensures Step(p, Next) == (p, []) && Step(p, Prev) == (p, [])
  {
  }

  /** From any valid state with tracks, next and previous land on a track:
      the following one, or the first after the last, and the preceding
      one, or the last before the first. */
  lemma StepsLand(p: Player)
    requires Valid(p) && InRange(p)
    ensures var n := Step(p, Next).0;
      InRange(n) && n.currentIndex == (p.currentIndex + 1) % |p.tracks|
    ensures var q := Step(p, Prev).0;
      InRange(q) && q.currentIndex == (p.currentIndex - 1 + |p.tracks|) % |p.tracks|
  {
    var i, len := p.currentIndex, |p.tracks|;
    if i + 1 < len {
      ModSmall(i + 1, len);
    } else {
      ModSmall(0, len);
      ModShift(0, len);
    }
    if i > 0 {
      ModSmall(i - 1, len);
      ModShift(i - 1, len);
    } else {
      ModSmall(len - 1, len);
    }
  }

  lemma ModSmall(x: int, len: int)
    requires 0 <= x < len
    ensures x % len == x
  {
  }

  lemma ModShift(x: int, len: int)
    requires 0 < len
    ensures (x + len) % len == x % len
  {
    var q, r := x / len, x % len;
    var q', r' := (x + len) / len, (x + len) % len;
    assert x == q * len + r;
    assert x + len == q' * len + r';
    var k := q + 1 - q';
    assert k * len == r' - r by {
      assert (q + 1) * len == q * len + len;
      assert k * len == (q + 1) * len - q' * len;
    }
    MulBounds(k, len);
  }

  lemma MulBounds(k: int, len: int)
    requires 0 < len
    ensures k >= 1 ==> k * len >= len
    ensures k <= -1 ==> k * len <= -len
  {
    if k <= -1 {
      assert k * len == -((-k) * len);
    }
  }

  /** Next then previous, and previous then next, come back to the track
      that was playing. */
  lemma NextPrevInverse(p: Player)
    requires InRange(p)
    ensures Step(Step(p, Next).0, Prev).0.currentIndex == p.currentIndex
    ensures Step(Step(p, Prev).0, Next).0.currentIndex == p.currentIndex
  {
  }

  /** `n` presses of next. */
  function NextN(p: Player, n: nat): Player
    decreases n
  {
    if n == 0 then p else NextN(Step(p, Next).0, n - 1)
  }

  /** From a track of the list, `n` presses of next go round the list:
      the index is `(i + n) mod length` and the list is unchanged. */
  lemma {:induction false} NextNCycles(p: Player, n: nat)
    requires InRange(p)
    ensures NextN(p, n).currentIndex == (p.currentIndex + n) % |p.tracks|
    ensures NextN(p, n).tracks == p.tracks
    decreases n
  {
    var i, len := p.currentIndex, |p.tracks|;
    if n == 0 {
      ModSmall(i, len);
    } else {
      var q := Step(p, Next).0;
      NextNCycles(q, n - 1);
      if i + 1 < len {
        assert q.currentIndex == i + 1;
      } else {
        assert q.currentIndex == 0;
        ModShift(n - 1, len);
        assert i + n == n - 1 + len;
      }
    }
  }

  /** `refresh-tracks` takes a non-empty array only, and keeps the index
      whatever the new list's length. */
  lemma RefreshKeepsIndex(p: Player, list: Option<seq<Track>>)
    ensures var q := Step(p, RefreshTracks(list)).0;
      && q.currentIndex == p.currentIndex
      && (q.tracks == if list.Some? && |list.value| > 0 then list.value else p.tracks)
  {
  }

  /** After a refresh to a shorter list the kept index can lie past its
      end: nothing is broadcast as playing then, and previous does nothing
      unless the index is just past the end, when it plays the last
      track. */
  lemma StaleIndexAfterRefresh(p: Player, list: seq<Track>)
    requires 0 < |list| <= p.currentIndex
    ensures var q := Step(p, RefreshTracks(Some(list))).0;
      && CurrentTrack(q).None?
      && (p.currentIndex > |list| ==> Step(q, Prev) == (q, []))
      && (p.currentIndex == |list| ==> Step(q, Prev).0.currentIndex == |list| - 1)
      && Step(q, Next).0.currentIndex == 0
  {
  }

  /** Only a refresh can take the index off the list. */
  lemma InRangeKept(p: Player, cmd: Command)
    requires InRange(p) && !cmd.RefreshTracks?
    ensures InRange(Step(p, cmd).0)
  {
  }
}
