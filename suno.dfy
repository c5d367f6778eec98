/**
 * The generation orchestrator (`generateMusic`): marks the track generating,
 * enriches the prompt with the genre's descriptor, then either asks the music
 * provider (when an API key is configured) or picks the genre's demo audio,
 * and writes the track ready or, when anything in between fails, failed.
 * The HTTP call is the function `provider`, from the request to its outcome.
 */
module Suno {
  import opened Wrappers
  import opened Schema
  import Tracks
  import Db

  /** The descriptor phrase appended to the prompt, per genre. */
  const GenrePrompts: map<string, string> := map[
    "jazz" := "smooth jazz, saxophone, piano, relaxing jazz melody",
    "ambient" := "ambient, atmospheric, ethereal, meditation music",
    "lofi" := "lo-fi hip hop, chill beats, relaxing study music",
    "classical" := "classical piano, calming orchestra, serene strings"]

  /** The demo audio per genre, used when no API key is configured. */
  const SampleAudioUrls: map<string, string> := map[
    "jazz" := "https://www.soundhelix.com/examples/mp3/SoundHelix-Song-1.mp3",
    "ambient" := "https://www.soundhelix.com/examples/mp3/SoundHelix-Song-2.mp3",
    "lofi" := "https://www.soundhelix.com/examples/mp3/SoundHelix-Song-3.mp3",
    "classical" := "https://www.soundhelix.com/examples/mp3/SoundHelix-Song-4.mp3"]

  /** The length in seconds the provider is asked for. */
  const ProviderDuration: int := 60

  /** The length in seconds recorded for demo audio. */
  const DemoDuration: int := 120

  /** The body of the provider request. */
  datatype SunoRequest = SunoRequest(prompt: string, duration: int, makeInstrumental: bool)

  /** The fields read from a successful provider response; each may be missing. */
  datatype SunoData = SunoData(audioUrl: Option<string>, imageUrl: Option<string>,
                               id: Option<string>, duration: Option<int>)

  /** What the provider call comes to. */
  datatype ProviderOutcome =
    | Responded(data: SunoData)      // an ok response and its JSON body
    | NotOk(statusText: string)      // a response whose status is not ok
    | Threw(message: string)         // the call, or reading its body, threw

  /** The genre's descriptor, or the ambient one when the genre is missing from the table or its entry is empty. */
  function Descriptor(genre: string): (d: string)
    ensures genre in GenrePrompts ==> d == GenrePrompts[genre]
    ensures genre !in GenrePrompts ==> d == GenrePrompts["ambient"]
    ensures d != ""
  {
    if genre in GenrePrompts && GenrePrompts[genre] != "" then GenrePrompts[genre] else GenrePrompts["ambient"]
  }

  /** The genre's demo audio, or the ambient one when the genre is missing from the table or its entry is empty. */
  function SampleAudioUrl(genre: string): (url: string)
    ensures genre in SampleAudioUrls ==> url == SampleAudioUrls[genre]
    ensures genre !in SampleAudioUrls ==> url == SampleAudioUrls["ambient"]
    ensures url != ""
  {
    if genre in SampleAudioUrls && SampleAudioUrls[genre] != "" then SampleAudioUrls[genre]
    else SampleAudioUrls["ambient"]
  }

  /**
   * The prompt sent to the provider: the user's prompt, unchanged, then ", ",
   * then the genre's descriptor.
   */
  function EnhancedPrompt(prompt: string, genre: string): (p: string)
    ensures |p| == |prompt| + 2 + |Descriptor(genre)|
    ensures p[..|prompt|] == prompt
    ensures p[|prompt|..|prompt| + 2] == ", "
    ensures p[|prompt| + 2..] == Descriptor(genre)
  {
    prompt + ", " + Descriptor(genre)
  }

  /** The request sent to the provider: the user's prompt with its genre's descriptor, 60 seconds, instrumental. */
  function RequestFor(prompt: string, genre: string): (req: SunoRequest)
    ensures |req.prompt| > |prompt| + 2 && req.prompt[..|prompt|] == prompt
    ensures req.prompt[|prompt| + 2..] == Descriptor(genre)
    ensures req.duration == ProviderDuration && req.makeInstrumental
  {
    SunoRequest(EnhancedPrompt(prompt, genre), ProviderDuration, true)
  }

  /**
   * The provider can tell the genres apart: for the same prompt, two
   * different genres of the table give two different requests, and two
   * different demo tracks.
   */
  lemma RequestsTellGenresApart(prompt: string, g1: string, g2: string)
    requires g1 in GenrePrompts && g2 in GenrePrompts && g1 != g2
    ensures RequestFor(prompt, g1) != RequestFor(prompt, g2)
    ensures SampleAudioUrl(g1) != SampleAudioUrl(g2)
  {
  }

  /** A genre outside the table is treated exactly as ambient, in the prompt and in demo mode. */
  lemma UnknownGenreFallsBackToAmbient(prompt: string, genre: string)
    requires genre !in {"jazz", "ambient", "lofi", "classical"}
    ensures RequestFor(prompt, genre) == RequestFor(prompt, "ambient")
    ensures SampleAudioUrl(genre) == SampleAudioUrl("ambient")
  {
  }

  /**
   * `generateMusic` for caller `caller`. `keyConfigured` says whether the
   * provider's API key is set; `provider` is the provider call. The store's
   * status log shows the statuses written, in order.
   */
  method GenerateMusic(store: Db.Store, caller: Option<UserId>, trackId: TrackId,
                       prompt: string, genre: string,
                       keyConfigured: bool, provider: SunoRequest -> ProviderOutcome)
    returns (r: Result<(), Error>)
    requires store.Valid()
    modifies store
    ensures store.Valid()
    ensures store.favorites == old(store.favorites) && store.history == old(store.history)
    ensures store.nextId == old(store.nextId) && store.clock == old(store.clock)
    // the first update is outside the try: when it throws, nothing is written and its error propagates
    ensures !(caller.Some? && Tracks.Owns(old(store.tracks), caller.value, trackId)) ==>
      && r == Err(if caller.None? then NotAuthenticated else TrackNotFound)
      && store.tracks == old(store.tracks)
      && store.statusLog == old(store.statusLog)
    ensures caller.Some? && Tracks.Owns(old(store.tracks), caller.value, trackId) ==>
      && trackId in store.tracks
      && store.tracks == old(store.tracks)[trackId := store.tracks[trackId]]
      && var t0, t := old(store.tracks)[trackId], store.tracks[trackId];
      && t.userId == t0.userId && t.title == t0.title && t.prompt == t0.prompt
      && t.genre == t0.genre && t.createdAt == t0.createdAt
      && store.statusLog == old(store.statusLog) + [(trackId, Generating), (trackId, t.status)]
      && (t.status == Ready || t.status == Failed)
      && (t.status == Ready <==> r.Ok?)
      && (r.Ok? <==> !keyConfigured || provider(RequestFor(prompt, genre)).Responded?)
      && (t.status == Failed ==>
            t.audioUrl == t0.audioUrl && t.imageUrl == t0.imageUrl
            && t.sunoTaskId == t0.sunoTaskId && t.duration == t0.duration)
      && (!keyConfigured ==>
            t.audioUrl == Some(SampleAudioUrl(genre)) && t.duration == Some(DemoDuration)
            && t.imageUrl == t0.imageUrl && t.sunoTaskId == t0.sunoTaskId)
      && (keyConfigured ==>
            match provider(RequestFor(prompt, genre))
            case Responded(data) =>
              && t.audioUrl == (if Tracks.Truthy(data.audioUrl) then data.audioUrl else t0.audioUrl)
              && t.imageUrl == (if Tracks.Truthy(data.imageUrl) then data.imageUrl else t0.imageUrl)
              && t.sunoTaskId == (if Tracks.Truthy(data.id) then data.id else t0.sunoTaskId)
              && t.duration == (if Tracks.TruthyNumber(data.duration) then data.duration else t0.duration)
            case NotOk(statusText) => r == Err(ProviderError(statusText))
            case Threw(message) => r == Err(ProviderException(message)))
  {
    r := store.UpdateStatus(caller, trackId, Generating, None, None, None, None);
    if r.Err? {
      return;
    }

    // try
    var failure: Option<Error> := None;
    var enhanced := EnhancedPrompt(prompt, genre);
    if keyConfigured {
      match provider(SunoRequest(enhanced, ProviderDuration, true))
      case NotOk(statusText) =>
        failure := Some(ProviderError(statusText));
      case Threw(message) =>
        failure := Some(ProviderException(message));
      case Responded(data) =>
        var u := store.UpdateStatus(caller, trackId, Ready, data.audioUrl, data.imageUrl, data.id, data.duration);
        match u
        case Ok(_) =>
        case Err(e) => failure := Some(e);
    } else {
      var u := store.UpdateStatus(caller, trackId, Ready, Some(SampleAudioUrl(genre)), None, None, Some(DemoDuration));
      match u
      case Ok(_) =>
      case Err(e) => failure := Some(e);
    }

    match failure
    case None =>
      r := Ok(());
    case Some(e) =>
      // catch: mark the track failed, then rethrow
      var f := store.UpdateStatus(caller, trackId, Failed, None, None, None, None);
      r := if f.Ok? then Err(e) else f;
  }

  /**
   * A track created as "Study Session" / "rainy cafe" / lofi and generated
   * without an API key ends up ready with the lofi demo audio and 120 seconds.
   */
  method StudySessionScenario() returns (t: Track)
    ensures t.title == "Study Session" && t.prompt == "rainy cafe" && t.status == Ready
    ensures t.audioUrl == Some(SampleAudioUrls["lofi"]) && t.duration == Some(DemoDuration)
  {
    var store := new Db.Store();
    var me: Option<UserId> := Some(1);
    var created := store.Create(me, "Study Session", "rainy cafe", "lofi");
    var id := created.value;
    var r := GenerateMusic(store, me, id, "rainy cafe", "lofi", false, _ => Threw("unreachable"));
    t := store.tracks[id];
  }
}
