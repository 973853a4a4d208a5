/**
 * The state behind `MusicPlayerProvider`: whether a track is playing, which
 * track is current, and the volume, with the four transitions the context
 * hands to its consumers.
 */
module MusicPlayerContext {
  import opened Wrappers

  /** The three pieces of state, as one value. `currentTrack` is `None` for `null`. */
  datatype PlayerState<Track> = PlayerState(isPlaying: bool, currentTrack: Option<Track>, volume: real)

  /** The transitions a consumer can request. */
  datatype Action<Track> =
    | PlayTrack(track: Track)
    | PauseTrack
    | StopTrack
    | ChangeVolume(newVolume: real)

  /** A player that is playing always has a current track. */
  predicate Consistent<Track>(s: PlayerState<Track>) {
    s.isPlaying ==> s.currentTrack.Some?
  }

  /** The state the provider starts in: not playing, no track, full volume. */
  function Initial<Track>(): (s: PlayerState<Track>)
    ensures !s.isPlaying && s.currentTrack == None && s.volume == 1.0
    ensures Consistent(s)
  {
    PlayerState(false, None, 1.0)
  }

  /** The state after one transition. */
  function Step<Track>(s: PlayerState<Track>, a: Action<Track>): (r: PlayerState<Track>)
    ensures a.PlayTrack? ==> r.isPlaying && r.currentTrack == Some(a.track)
    ensures a.PauseTrack? ==> !r.isPlaying && r.currentTrack == s.currentTrack
    ensures a.StopTrack? ==> !r.isPlaying && r.currentTrack == None
    ensures a.ChangeVolume? ==> r.isPlaying == s.isPlaying && r.currentTrack == s.currentTrack
    ensures r.volume == if a.ChangeVolume? then a.newVolume else s.volume
    ensures Consistent(s) ==> Consistent(r)
  {
    match a
    case PlayTrack(track) => s.(currentTrack := Some(track), isPlaying := true)
    case PauseTrack => s.(isPlaying := false)
    case StopTrack => s.(currentTrack := None, isPlaying := false)
    case ChangeVolume(newVolume) => s.(volume := newVolume)
  }

  /** The state after a series of transitions, applied in order. */
  function Run<Track>(s: PlayerState<Track>, actions: seq<Action<Track>>): PlayerState<Track> {
    if actions == [] then s else Step(Run(s, actions[..|actions| - 1]), actions[|actions| - 1])
  }

  /** Pausing twice is the same as pausing once. */
  lemma PauseIdempotent<Track>(s: PlayerState<Track>)
    ensures Step(Step(s, PauseTrack), PauseTrack) == Step(s, PauseTrack)
  {
  }

  /** Stopping twice is the same as stopping once. */
  lemma StopIdempotent<Track>(s: PlayerState<Track>)
    ensures Step(Step(s, StopTrack), StopTrack) == Step(s, StopTrack)
  {
  }

  /** Every state reachable from the initial one is consistent. */
  lemma {:induction false} RunConsistent<Track>(s: PlayerState<Track>, actions: seq<Action<Track>>)
    requires Consistent(s)
    ensures Consistent(Run(s, actions))
  {
    if actions != [] {
      RunConsistent(s, actions[..|actions| - 1]);
    }
  }

  /** Only `changeVolume` moves the volume: without it, the volume stays where it was. */
  lemma {:induction false} RunKeepsVolume<Track>(s: PlayerState<Track>, actions: seq<Action<Track>>)
    requires forall i :: 0 <= i < |actions| ==> !actions[i].ChangeVolume?
    ensures Run(s, actions).volume == s.volume
  {
    if actions != [] {
      RunKeepsVolume(s, actions[..|actions| - 1]);
    }
  }

  /** The volume is the one set by the last `changeVolume`, whatever came after it. */
  lemma {:induction false} RunLastVolume<Track>(s: PlayerState<Track>, actions: seq<Action<Track>>, k: nat)
    requires k < |actions| && actions[k].ChangeVolume?
    requires forall i :: k < i < |actions| ==> !actions[i].ChangeVolume?
    ensures Run(s, actions).volume == actions[k].newVolume
  {
    if k < |actions| - 1 {
      RunLastVolume(s, actions[..|actions| - 1], k);
    }
  }

  /** The provider's state, updated in place by the four transitions. */
  class MusicPlayer<Track> {
    var isPlaying: bool
    var currentTrack: Option<Track>
    var volume: real

    /** The fields, read as one value. */
    function State(): PlayerState<Track>
      reads this
    {
      PlayerState(isPlaying, currentTrack, volume)
    }

    /** Lines 8-10: the three `useState` initial values. */
    constructor ()
      ensures !isPlaying && currentTrack == None && volume == 1.0
      ensures State() == Initial()
    {
      isPlaying := false;
      currentTrack := None;
      volume := 1.0;
    }

    /** `playTrack(track)`: make `track` current and start playing; the volume is kept. */
    method PlayTrack(track: Track)
      modifies this
      ensures currentTrack == Some(track) && isPlaying && volume == old(volume)
      ensures State() == Step(old(State()), Action.PlayTrack(track))
    {
      currentTrack := Some(track);
      isPlaying := true;
    }

    /** `pauseTrack()`: stop playing but keep the current track and the volume. */
    method PauseTrack()
      modifies this
      ensures !isPlaying && currentTrack == old(currentTrack) && volume == old(volume)
      ensures State() == Step(old(State()), Action.PauseTrack)
    {
      isPlaying := false;
    }

    /** `stopTrack()`: stop playing and clear the current track; the volume is kept. */
    method StopTrack()
      modifies this
      ensures !isPlaying && currentTrack == None && volume == old(volume)
      ensures State() == Step(old(State()), Action.StopTrack)
    {
      currentTrack := None;
      isPlaying := false;
    }

    /** `changeVolume(newVolume)`: take the new volume as given, with no clamping. */
    method ChangeVolume(newVolume: real)
      modifies this
      ensures volume == newVolume && isPlaying == old(isPlaying) && currentTrack == old(currentTrack)
      ensures State() == Step(old(State()), Action.ChangeVolume(newVolume))
    {
      volume := newVolume;
    }
  }
}
