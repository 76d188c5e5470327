/** Muting the audio of a video page while offensive subtitles are shown
    (src/script/webAudio.ts). The video element and the tab are inputs and
    outputs: the first `<video>` of the page, if any, and the `{mute}`
    messages sent to the background page. Media times and volumes are exact
    reals. */
module WebAudioModel {
  import opened Base
  import opened Seqs

  /** The fields of a `WebAudio` object the muting logic reads and writes.
      `unmuteDelay` is `null` as `None`. */
  datatype AudioState = AudioState(
    muted: bool,
    muteMethod: int,
    showSubtitles: int,
    unmuteDelay: Option<real>,
    volume: real,
    youTubeAutoSubsMin: real)

  /** The state the constructor sets up from the configuration. */
  function InitialState(muteMethod: int, showSubtitles: int, youTubeAutoSubsMin: real): (st: AudioState)
    ensures !st.muted && st.unmuteDelay == Some(0.0) && st.volume == 1.0
  {
    AudioState(false, muteMethod, showSubtitles, Some(0.0), 1.0, youTubeAutoSubsMin)
  }

  /** The page's first `<video>`: its volume (absent counts as `null`) and
      its current time. */
  datatype Video = Video(volume: Option<real>, currentTime: real)

  /** What the muting logic touches outside the object: the video, if
      there is one, and the `{mute: b}` messages sent, oldest first. */
  datatype Env = Env(video: Option<Video>, sent: seq<bool>)

  predicate HasVolume(env: Env) {
    env.video.Some? && env.video.value.volume.Some?
  }

  /** `mute()`: only when not muted already; method 0 asks the background
      page to mute the tab, method 1 saves the video's volume and sets it
      to 0. */
  function Mute(st: AudioState, env: Env): (r: (AudioState, Env))
    ensures r.0.muted
    ensures st.muted ==> r == (st, env)
    ensures !st.muted && st.muteMethod == 0 ==> r.1.sent == env.sent + [true] && r.1.video == env.video
    ensures !st.muted && st.muteMethod == 1 && HasVolume(env) ==>
              r.0.volume == env.video.value.volume.value && r.1.video == Some(env.video.value.(volume := Some(0.0)))
    ensures !st.muted && st.muteMethod == 1 && HasVolume(env) ==> r.1.sent == env.sent
    ensures !(st.muteMethod == 1 && HasVolume(env)) ==> r.0.volume == st.volume
    ensures st.muteMethod != 0 && !(st.muteMethod == 1 && HasVolume(env)) ==> r.1 == env
    ensures r.0.(muted := st.muted, volume := st.volume) == st
  {
    if st.muted then (st, env)
    else
      var st' := st.(muted := true);
      if st.muteMethod == 0 then (st', env.(sent := env.sent + [true]))
      else if st.muteMethod == 1 && HasVolume(env) then
        (st'.(volume := env.video.value.volume.value), env.(video := Some(env.video.value.(volume := Some(0.0)))))
      else (st', env)
  }

  /** `unmute()`: always clears `muted`; method 0 asks the background page
      to unmute the tab, method 1 writes the saved volume to the video. */
  function Unmute(st: AudioState, env: Env): (r: (AudioState, Env))
    ensures r.0 == st.(muted := false)
    ensures st.muteMethod == 0 ==> r.1.sent == env.sent + [false] && r.1.video == env.video
    ensures st.muteMethod == 1 && HasVolume(env) ==>
              r.1.video == Some(env.video.value.(volume := Some(st.volume))) && r.1.sent == env.sent
    ensures st.muteMethod != 0 && !(st.muteMethod == 1 && HasVolume(env)) ==> r.1 == env
  {
    var st' := st.(muted := false);
    if st.muteMethod == 0 then (st', env.(sent := env.sent + [false]))
    else if st.muteMethod == 1 && HasVolume(env) then
      (st', env.(video := Some(env.video.value.(volume := Some(st.volume)))))
    else (st', env)
  }

  /** Muting twice is muting once. */
  lemma MuteIdempotent(st: AudioState, env: Env)
    ensures var (st1, env1) := Mute(st, env);
            Mute(st1, env1) == (st1, env1)
  {
  }

  /** With method 1, muting and then unmuting puts the video's volume back
      where it was. */
  lemma UnmuteRestoresVolume(st: AudioState, env: Env)
    requires !st.muted && st.muteMethod == 1 && HasVolume(env)
    ensures var (st1, env1) := Mute(st, env);
            var (st2, env2) := Unmute(st1, env1);
            !st2.muted && env2.video == env.video && env2.sent == env.sent
  {
  }

  /** With method 0 the tab gets one mute and then one unmute message. */
  lemma MuteUnmuteMessages(st: AudioState, env: Env)
    requires !st.muted && st.muteMethod == 0
    ensures var (st1, env1) := Mute(st, env);
            var (st2, env2) := Unmute(st1, env1);
            !st2.muted && env2.sent == env.sent + [true, false]
  {
  }

  /** `unmute` without a `mute` before it still writes the saved volume,
      which is 1 after construction: a video at another volume is set to
      full volume. */
  lemma UnmuteWithoutMute(v: real, t: real, min: real)
    requires v != 1.0
    ensures var env := Env(Some(Video(Some(v), t)), []);
            Unmute(InitialState(1, 0, min), env).1.video == Some(Video(Some(1.0), t))
  {
  }

  // ---------------------------------------------------------------------
  // YouTube automatic subtitles

  /** What handling one caption leaves behind: the state, the outside
      world, the caption's text and whether the badge was updated. */
  datatype AutoSubsOutcome = AutoSubsOutcome(st: AudioState, env: Env, text: string, badge: bool)

  /** `cleanYouTubeAutoSubs(node)`. A caption that needed filtering is
      replaced, mutes, and stops the unmute timer (`unmuteDelay = null`).
      A clean caption while muted unmutes at once when the minimum is not
      positive; otherwise the first one starts the timer at the video's
      current time, a time before the timer resets it to 0, and the sound
      comes back once the time is past the timer plus the minimum. Reading
      the time of a page without video throws. */
  function CleanYouTubeAutoSubs(st: AudioState, env: Env, text: string, replace: string -> string)
    : (r: Result<AutoSubsOutcome, string>)
    ensures replace(text) != text ==>
              r.Ok? && r.value.st.muted && r.value.st.unmuteDelay.None? && r.value.badge && r.value.text == replace(text)
    ensures replace(text) != text ==>
              r == Ok(AutoSubsOutcome(Mute(st, env).0.(unmuteDelay := None), Mute(st, env).1, replace(text), true))
    ensures replace(text) == text && !st.muted ==> r == Ok(AutoSubsOutcome(st, env, text, false))
    ensures replace(text) == text && st.muted && st.youTubeAutoSubsMin <= 0.0 ==>
              r == Ok(AutoSubsOutcome(Unmute(st, env).0, Unmute(st, env).1, text, false))
    ensures r.Err? <==> replace(text) == text && st.muted && st.youTubeAutoSubsMin > 0.0 && env.video.None?
    ensures r.Ok? ==> r.value.text == replace(text) && (r.value.badge <==> replace(text) != text)
  {
    if replace(text) != text then
      var (st1, env1) := Mute(st, env);
      Ok(AutoSubsOutcome(st1.(unmuteDelay := None), env1, replace(text), true))
    else if !st.muted then Ok(AutoSubsOutcome(st, env, text, false))
    else if st.youTubeAutoSubsMin > 0.0 then
      if env.video.None? then Err("TypeError: Cannot read properties of undefined (reading 'currentTime')")
      else
        var t := env.video.value.currentTime;
        match st.unmuteDelay
        case None => Ok(AutoSubsOutcome(st.(unmuteDelay := Some(t)), env, text, false))
        case Some(delay) =>
          var delay' := if t < delay then 0.0 else delay;
          var st1 := st.(unmuteDelay := Some(delay'));
          if t > delay' + st.youTubeAutoSubsMin then
            var (st2, env2) := Unmute(st1, env);
            Ok(AutoSubsOutcome(st2, env2, text, false))
          else Ok(AutoSubsOutcome(st1, env, text, false))
    else
      var (st1, env1) := Unmute(st, env);
      Ok(AutoSubsOutcome(st1, env1, text, false))
  }

  /** The timer while muted with a positive minimum: the first clean
      caption starts it without unmuting; later ones unmute exactly when
      the time is past the (possibly reset) timer plus the minimum. */
  lemma AutoSubsTimer(st: AudioState, env: Env, text: string, replace: string -> string)
    requires replace(text) == text && st.muted && st.youTubeAutoSubsMin > 0.0 && env.video.Some?
    ensures var t := env.video.value.currentTime;
            var r := CleanYouTubeAutoSubs(st, env, text, replace).value;
            && (st.unmuteDelay.None? ==> r.st == st.(unmuteDelay := Some(t)) && r.env == env)
            && (st.unmuteDelay.Some? ==>
                  var delay := if t < st.unmuteDelay.value then 0.0 else st.unmuteDelay.value;
                  && r.st.unmuteDelay == Some(delay)
                  && (!r.st.muted <==> t > delay + st.youTubeAutoSubsMin))
  {
  }

  /** With a minimum of 5 seconds and the timer at 10, a clean caption at
      16 seconds brings the sound back and one at 14 does not. */
  lemma AutoSubsTimerExample(st: AudioState, text: string, replace: string -> string)
    requires replace(text) == text && st.muted && st.youTubeAutoSubsMin == 5.0 && st.unmuteDelay == Some(10.0)
    ensures !CleanYouTubeAutoSubs(st, Env(Some(Video(None, 16.0)), []), text, replace).value.st.muted
    ensures CleanYouTubeAutoSubs(st, Env(Some(Video(None, 14.0)), []), text, replace).value.st.muted
  {
  }

  // ---------------------------------------------------------------------
  // Subtitles of supported sites

  /** One subtitle node: whether it is a text node, and its text
      (`textContent` for text nodes, `innerText` otherwise). */
  datatype Subtitle = Subtitle(isText: bool, text: string)

  /** What `clean` leaves behind: the state, the outside world, the
      subtitles, whether any was filtered, and the position of the last
      filtered text node. `None` there means `lastFilteredNode` is left as
      it was: `clean` only ever sets it. */
  datatype CleanOutcome = CleanOutcome(
    st: AudioState, env: Env, subtitles: seq<Subtitle>, filtered: bool, lastFilteredNode: Option<nat>)

  /** The subtitles `clean` works on: those the site's selector finds in
      the container, or the container itself when the site has none. */
  function SubtitlesOf(subtitleSelector: Option<string>, container: Subtitle, selected: seq<Subtitle>): seq<Subtitle> {
    if Truthy(subtitleSelector) then selected else [container]
  }

  /** A subtitle after filtering. */
  function Filtered(s: Subtitle, replace: string -> string): Subtitle {
    s.(text := replace(s.text))
  }

  /** Whether the display mode blanks every subtitle: mode 1 shows only
      filtered subtitles, mode 2 only unfiltered ones, mode 3 none. */
  predicate BlanksAll(showSubtitles: int, filtered: bool) {
    || (showSubtitles == 1 && !filtered)
    || (showSubtitles == 2 && filtered)
    || showSubtitles == 3
  }

  predicate NeedsFiltering(s: Subtitle, replace: string -> string) {
    replace(s.text) != s.text
  }

  /** `clean(subtitleContainer)`: `selected` is what the site's selector
      finds in `container`; the positions in the outcome are positions in
      `SubtitlesOf(subtitleSelector, container, selected)`. */
  method Clean(st: AudioState, env: Env, subtitleSelector: Option<string>, container: Subtitle,
               selected: seq<Subtitle>, replace: string -> string)
    returns (r: CleanOutcome)
    ensures var subtitles := SubtitlesOf(subtitleSelector, container, selected);
            && (r.filtered <==> exists i :: 0 <= i < |subtitles| && NeedsFiltering(subtitles[i], replace))
            && (r.filtered ==> (r.st, r.env) == Mute(st, env))
            && (!r.filtered ==> r.st == st && r.env == env)
            && |r.subtitles| == |subtitles|
            && (BlanksAll(st.showSubtitles, r.filtered) ==>
                  forall i :: 0 <= i < |subtitles| ==> r.subtitles[i] == subtitles[i].(text := ""))
            && (!BlanksAll(st.showSubtitles, r.filtered) ==>
                  forall i :: 0 <= i < |subtitles| ==> r.subtitles[i] == Filtered(subtitles[i], replace))
    ensures var subtitles := SubtitlesOf(subtitleSelector, container, selected);
            && (r.lastFilteredNode.Some? ==>
                  && r.lastFilteredNode.value < |subtitles|
                  && subtitles[r.lastFilteredNode.value].isText
                  && NeedsFiltering(subtitles[r.lastFilteredNode.value], replace)
                  && forall j :: r.lastFilteredNode.value < j < |subtitles| ==>
                       !(subtitles[j].isText && NeedsFiltering(subtitles[j], replace)))
            && (r.lastFilteredNode.None? ==>
                  forall j :: 0 <= j < |subtitles| ==> !(subtitles[j].isText && NeedsFiltering(subtitles[j], replace)))
  {
    var subtitles := SubtitlesOf(subtitleSelector, container, selected);
    var out: seq<Subtitle> := [];
    var filtered := false;
    var cur, world := st, env;
    var last: Option<nat> := None;
    var i := 0;
    while i < |subtitles|
      invariant 0 <= i <= |subtitles|
      invariant |out| == i
      invariant forall j :: 0 <= j < i ==> out[j] == Filtered(subtitles[j], replace)
      invariant filtered <==> exists j :: 0 <= j < i && NeedsFiltering(subtitles[j], replace)
      invariant filtered ==> (cur, world) == Mute(st, env)
      invariant !filtered ==> cur == st && world == env
      invariant last.Some? ==>
                  && last.value < i && subtitles[last.value].isText && NeedsFiltering(subtitles[last.value], replace)
                  && forall j :: last.value < j < i ==> !(subtitles[j].isText && NeedsFiltering(subtitles[j], replace))
      invariant last.None? ==> forall j :: 0 <= j < i ==> !(subtitles[j].isText && NeedsFiltering(subtitles[j], replace))
    {
      var s := subtitles[i];
      var result := replace(s.text);
      if result != s.text {
        filtered := true;
        MuteAgain(st, env, cur, world);
        cur, world := Mute(cur, world).0, Mute(cur, world).1;
        if s.isText {
          last := Some(i);
        }
      }
      out := out + [s.(text := result)];
      i := i + 1;
    }
    if BlanksAll(st.showSubtitles, filtered) {
      out := seq(|subtitles|, j requires 0 <= j < |subtitles| => subtitles[j].(text := ""));
    }
    r := CleanOutcome(cur, world, out, filtered, last);
  }

  /** Muting from the start or from the muted state gives the muted state. */
  lemma MuteAgain(st: AudioState, env: Env, cur: AudioState, world: Env)
    requires (cur, world) == Mute(st, env) || (cur == st && world == env)
    ensures Mute(cur, world) == Mute(st, env)
  {
    MuteIdempotent(st, env);
  }
}
