/** Saving which source and tracks a viewer picked, finding them again (`src/library/model.rs`),
    and handing them to the player (`src/jellyfin/play.rs`). */
module PlaybackPreference {
  import opened Basics

  datatype MediaStream = MediaStream(
    index: int, streamType: Option<string>, language: Option<string>, title: Option<string>,
    displayTitle: Option<string>, codec: Option<string>, channels: Option<int>,
    isDefault: bool, isForced: bool, isHearingImpaired: bool, isExternal: bool)

  datatype MediaSource = MediaSource(
    id: Option<string>, name: Option<string>, container: Option<string>,
    supportsDirectPlay: bool, supportsDirectStream: bool, transcodingUrl: Option<string>,
    streams: seq<MediaStream>, defaultAudio: Option<int>, defaultSubtitle: Option<int>)
  {
    function DisplayName(): string { if name.Some? then name.value else "Default" }
  }

  datatype TrackPreference = TrackPreference(
    index: int, language: Option<string>, title: Option<string>, displayTitle: Option<string>,
    codec: Option<string>, channels: Option<int>,
    isDefault: bool, isForced: bool, isHearingImpaired: bool, isExternal: bool)

  datatype SourcePreference = SourcePreference(id: Option<string>, index: nat, name: string, container: Option<string>)

  datatype ItemPreference = ItemPreference(
    source: SourcePreference, audio: Option<TrackPreference>, subtitle: Option<TrackPreference>)

  /** No subtitle index means subtitles off. */
  datatype Resolved = Resolved(sourceId: Option<string>, sourceIndex: nat, audio: Option<int>, subtitle: Option<int>)

  // ---- Searching ----

  /** `Iterator::find`. */
  function Find<T(!new)>(items: seq<T>, test: T -> bool): (found: Option<T>)
    ensures found.Some? <==> exists item <- items :: test(item)
    ensures found.Some? ==> found.value in items && test(found.value)
  {
    var p := Position(items, test);
    if p.Some? then Some(items[p.value]) else None
  }

  function OrElse<T>(first: Option<T>, second: Option<T>): Option<T> { if first.Some? then first else second }

  predicate EqualIgnoringCase(a: string, b: string) {
    |a| == |b| && forall i | 0 <= i < |a| :: LowerAscii(a[i]) == LowerAscii(b[i])
  }

  predicate IsOfType(stream: MediaStream, kind: string) {
    stream.streamType.Some? && EqualIgnoringCase(stream.streamType.value, kind)
  }

  function StreamsOfType(streams: seq<MediaStream>, kind: string): (typed: seq<MediaStream>)
    ensures forall stream :: stream in typed <==> stream in streams && IsOfType(stream, kind)
  {
    if streams == [] then []
    else if IsOfType(streams[0], kind) then [streams[0]] + StreamsOfType(streams[1..], kind)
    else StreamsOfType(streams[1..], kind)
  }

  // ---- Capturing ----

  function FromStream(stream: MediaStream): TrackPreference {
    TrackPreference(
      stream.index, NonEmpty(stream.language), NonEmpty(stream.title), NonEmpty(stream.displayTitle),
      NonEmpty(stream.codec), if stream.channels.Some? && stream.channels.value > 0 then stream.channels else None,
      stream.isDefault, stream.isForced, stream.isHearingImpaired, stream.isExternal)
  }

  function Capture(source: MediaSource, index: nat, audio: Option<MediaStream>, subtitle: Option<MediaStream>):
    ItemPreference
  {
    ItemPreference(
      SourcePreference(NonEmpty(source.id), index, source.DisplayName(), NonEmpty(source.container)),
      if audio.Some? then Some(FromStream(audio.value)) else None,
      if subtitle.Some? then Some(FromStream(subtitle.value)) else None)
  }

  // ---- Resolving ----

  predicate TextMatches(saved: Option<string>, current: Option<string>) {
    var wanted := NonEmpty(saved);
    wanted.Some? ==> current.Some? && EqualIgnoringCase(wanted.value, Trim(current.value))
  }

  predicate Matches(saved: TrackPreference, stream: MediaStream) {
    && saved.index == stream.index
    && TextMatches(saved.language, stream.language) && TextMatches(saved.title, stream.title)
    && (saved.language.None? && saved.title.None? && saved.codec.None? && saved.channels.None? ==>
          TextMatches(saved.displayTitle, stream.displayTitle))
    && TextMatches(saved.codec, stream.codec)
    && (saved.channels.Some? ==> stream.channels == saved.channels)
    && saved.isForced == stream.isForced && saved.isHearingImpaired == stream.isHearingImpaired
    && saved.isExternal == stream.isExternal
  }

  function MatchingSource(saved: SourcePreference, sources: seq<MediaSource>): (p: Option<nat>)
    ensures p.Some? ==> p.value < |sources|
  {
    if saved.id.Some? then Position(sources, (source: MediaSource) => source.id == saved.id)
    else if saved.index < |sources| && sources[saved.index].DisplayName() == saved.name
            && TextMatches(saved.container, sources[saved.index].container) then Some(saved.index)
    else None
  }

  function MatchingStream(source: MediaSource, kind: string, saved: TrackPreference): Option<MediaStream> {
    Find(StreamsOfType(source.streams, kind), (stream: MediaStream) => Matches(saved, stream))
  }

  function ByIndex(source: MediaSource, kind: string, index: int): Option<MediaStream> {
    Find(StreamsOfType(source.streams, kind), (stream: MediaStream) => stream.index == index)
  }

  function ByDefaultIndex(source: MediaSource, kind: string, index: Option<int>): Option<MediaStream> {
    if index.Some? && index.value >= 0 then ByIndex(source, kind, index.value) else None
  }

  function FirstAudio(source: MediaSource): Option<MediaStream> {
    var audio := StreamsOfType(source.streams, "Audio");
    OrElse(Find(audio, (stream: MediaStream) => stream.isDefault), if audio == [] then None else Some(audio[0]))
  }

  function DefaultAudio(source: MediaSource): Option<MediaStream> {
    OrElse(ByDefaultIndex(source, "Audio", source.defaultAudio), FirstAudio(source))
  }

  function DefaultSubtitle(source: MediaSource): Option<MediaStream> {
    ByDefaultIndex(source, "Subtitle", source.defaultSubtitle)
  }

  predicate PlaysDirectly(source: MediaSource) { source.supportsDirectPlay || source.supportsDirectStream }

  function DefaultSource(sources: seq<MediaSource>): (k: nat)
    ensures sources != [] ==> k < |sources|
  {
    var found := OrElse(Position(sources, PlaysDirectly),
                        Position(sources, (source: MediaSource) => source.transcodingUrl.Some?));
    if found.Some? then found.value else 0
  }

  function IndexOf(stream: Option<MediaStream>): Option<int> {
    if stream.Some? then Some(stream.value.index) else None
  }

  function Resolve(preference: Option<ItemPreference>, sources: seq<MediaSource>): Option<Resolved> {
    var matched := if preference.Some? then MatchingSource(preference.value.source, sources) else None;
    var sourceIndex := if matched.Some? then matched.value else DefaultSource(sources);
    if sourceIndex >= |sources| then None
    else
      var source := sources[sourceIndex];
      var saved := if matched.Some? then preference else None;
      var savedAudio :=
        if saved.Some? && saved.value.audio.Some?
        then MatchingStream(source, "Audio", saved.value.audio.value) else None;
      var subtitle :=
        if saved.None? then DefaultSubtitle(source)
        else if saved.value.subtitle.None? then None
        else OrElse(MatchingStream(source, "Subtitle", saved.value.subtitle.value), DefaultSubtitle(source));
      var audio := OrElse(savedAudio, DefaultAudio(source));
      Some(Resolved(NonEmpty(source.id), sourceIndex, IndexOf(audio), IndexOf(subtitle)))
  }

  // ---- Playing ----

  datatype PlayOptions = PlayOptions(
    sourceId: Option<string>, sourceIndex: Option<nat>, audio: Option<int>, subtitle: Option<int>)

  function SavedPreferenceApplied(resolved: Resolved): PlayOptions {
    PlayOptions(resolved.sourceId, Some(resolved.sourceIndex), resolved.audio,
                Some(if resolved.subtitle.Some? then resolved.subtitle.value else -1))
  }

  function SelectSource(sources: seq<MediaSource>, id: Option<string>, index: Option<nat>): (p: Option<nat>)
    ensures p.Some? ==> p.value < |sources|
  {
    var byId := if id.Some? then Position(sources, (source: MediaSource) => source.id == id) else None;
    if byId.Some? then byId
    else if id.None? && index.Some? && index.value < |sources| then index
    else if sources == [] then None
    else Some(DefaultSource(sources))
  }

  function ChooseStream(source: MediaSource, kind: string, requested: Option<int>): Option<MediaStream> {
    if requested.Some? then
      (if requested.value < 0 then None else ByIndex(source, kind, requested.value))
    else
      var index := if kind == "Audio" then source.defaultAudio else source.defaultSubtitle;
      var byDefault := ByDefaultIndex(source, kind, index);
      if byDefault.Some? then byDefault else if kind == "Audio" then FirstAudio(source) else None
  }

  /** What a request asks the player for: the source, and the track indices, -1 for subtitles off. */
  datatype Request = Request(source: nat, audio: Option<int>, subtitle: Option<int>)

  function Requested(sources: seq<MediaSource>, options: PlayOptions): Option<Request> {
    match SelectSource(sources, options.sourceId, options.sourceIndex)
    case None => None
    case Some(k) =>
      var off := options.subtitle.Some? && options.subtitle.value < 0;
      Some(Request(k, IndexOf(ChooseStream(sources[k], "Audio", options.audio)),
                   if off then Some(-1) else IndexOf(ChooseStream(sources[k], "Subtitle", options.subtitle))))
  }

  /** Players count the embedded tracks of one kind from 1. */
  function EmbeddedOrdinal(source: MediaSource, kind: string, index: int): Option<nat> {
    var p := Position(EmbeddedStreams(source, kind), (stream: MediaStream) => stream.index == index);
    if p.Some? then Some(p.value + 1) else None
  }

  function EmbeddedStreams(source: MediaSource, kind: string): seq<MediaStream> {
    Embedded(StreamsOfType(source.streams, kind))
  }

  function Embedded(streams: seq<MediaStream>): seq<MediaStream> {
    if streams == [] then []
    else if !streams[0].isExternal then [streams[0]] + Embedded(streams[1..])
    else Embedded(streams[1..])
  }

  // ---- Trimmed texts ----

  lemma {:induction false} TrimmedEnd(text: string)
    ensures var t := TrimEnd(text); t <= text && (t != [] ==> !IsWhitespace(t[|t| - 1])) && TrimEnd(t) == t
  {
    if text != [] && IsWhitespace(text[|text| - 1]) {
      TrimmedEnd(text[..|text| - 1]);
    }
  }

  lemma {:induction false} TrimmedStart(text: string)
    ensures var t := TrimStart(text); t != [] ==> !IsWhitespace(t[0])
  {
    if text != [] && IsWhitespace(text[0]) {
      TrimmedStart(text[1..]);
    }
  }

  lemma TrimTwice(text: string)
    ensures Trim(Trim(text)) == Trim(text)
  {
    TrimmedStart(text);
    TrimmedEnd(TrimStart(text));
  }

  lemma SavedTextMatches(current: Option<string>)
    ensures TextMatches(NonEmpty(current), current)
  {
    if current.Some? {
      TrimTwice(current.value);
    }
  }

  // ---- Capture, then resolve ----

  /** A saved track matches the stream it was taken from. */
  lemma CapturedTrackMatches(stream: MediaStream)
    ensures Matches(FromStream(stream), stream)
  {
    SavedTextMatches(stream.language);
    SavedTextMatches(stream.title);
    SavedTextMatches(stream.displayTitle);
    SavedTextMatches(stream.codec);
  }

  /** A captured track is found again, or one of the same index and description. */
  lemma CapturedTrackComesBack(source: MediaSource, kind: string, stream: MediaStream)
    requires stream in source.streams && IsOfType(stream, kind)
    ensures IndexOf(MatchingStream(source, kind, FromStream(stream))) == Some(stream.index)
  {
    CapturedTrackMatches(stream);
    assert stream in StreamsOfType(source.streams, kind);
  }

  /** The source has no id, or a trimmed one that no earlier source has. */
  predicate FoundAgain(sources: seq<MediaSource>, k: nat)
    requires k < |sources|
  {
    var id := sources[k].id;
    NonEmpty(id).None? || (id == NonEmpty(id) && forall j | 0 <= j < k :: sources[j].id != id)
  }

  /** On the same source list the captured source comes back exactly then. */
  lemma CapturedSourceComesBack(sources: seq<MediaSource>, k: nat,
                                audio: Option<MediaStream>, subtitle: Option<MediaStream>)
    requires k < |sources|
    ensures MatchingSource(Capture(sources[k], k, audio, subtitle).source, sources) == Some(k)
      <==> FoundAgain(sources, k)
  {
    SavedTextMatches(sources[k].container);
  }

  predicate IsTrackOf(source: MediaSource, kind: string, stream: Option<MediaStream>) {
    stream.Some? ==> stream.value in source.streams && IsOfType(stream.value, kind)
  }

  /** Then so do the tracks: the audio index, or the default where none was picked, and the
      subtitle choice, including off. */
  lemma CaptureThenResolve(sources: seq<MediaSource>, k: nat, audio: Option<MediaStream>, subtitle: Option<MediaStream>)
    requires k < |sources| && FoundAgain(sources, k)
    requires IsTrackOf(sources[k], "Audio", audio) && IsTrackOf(sources[k], "Subtitle", subtitle)
    ensures Resolve(Some(Capture(sources[k], k, audio, subtitle)), sources)
      == Some(Resolved(NonEmpty(sources[k].id), k, IndexOf(OrElse(audio, DefaultAudio(sources[k]))), IndexOf(subtitle)))
  {
    CapturedSourceComesBack(sources, k, audio, subtitle);
    if audio.Some? {
      CapturedTrackComesBack(sources[k], "Audio", audio.value);
    }
    if subtitle.Some? {
      CapturedTrackComesBack(sources[k], "Subtitle", subtitle.value);
    }
  }

  /** Once no source has the saved id, or the place of a source without one is taken by another,
      the preference counts for nothing. */
  lemma GoneSourceCountsForNothing(preference: ItemPreference, sources: seq<MediaSource>)
    requires match preference.source.id
             case Some(id) => forall source <- sources :: source.id != Some(id)
             case None =>
               var k := preference.source.index;
               k < |sources| ==> sources[k].DisplayName() != preference.source.name
                                 || !TextMatches(preference.source.container, sources[k].container)
    ensures Resolve(Some(preference), sources) == Resolve(None, sources)
  {
  }

  // ---- Resolve, then play ----

  function Playable(index: Option<int>): Option<int> { if index.Some? && index.value >= 0 then index else None }

  lemma ChosenByIndex(source: MediaSource, kind: string, stream: Option<MediaStream>)
    requires stream.Some? && IsTrackOf(source, kind, stream)
    ensures IndexOf(ChooseStream(source, kind, IndexOf(stream))) == Playable(IndexOf(stream))
  {
    assert stream.value in StreamsOfType(source.streams, kind);
  }

  lemma DefaultTracksAreTracks(source: MediaSource)
    ensures IsTrackOf(source, "Audio", DefaultAudio(source)) && IsTrackOf(source, "Subtitle", DefaultSubtitle(source))
    ensures DefaultAudio(source).None? ==> StreamsOfType(source.streams, "Audio") == []
  {
    var audio := StreamsOfType(source.streams, "Audio");
    assert audio != [] ==> audio[0] in audio;
  }

  lemma NoAudioNoChoice(source: MediaSource)
    requires StreamsOfType(source.streams, "Audio") == []
    ensures ChooseStream(source, "Audio", None).None?
  {
  }

  /** What playback asks of the list the server negotiates, which is not the list the choice was
      resolved on: source `j` of it has the tracks of the resolved source `k`, and is the first with
      its id, or at its place when it has none. */
  predicate NamesTheSame(source: MediaSource, k: nat, negotiated: seq<MediaSource>, j: nat) {
    && j < |negotiated| && negotiated[j].streams == source.streams
    && if NonEmpty(source.id).None? then j == k
       else negotiated[j].id == NonEmpty(source.id) && forall i | 0 <= i < j :: negotiated[i].id != NonEmpty(source.id)
  }

  /** On one list, a source names itself exactly when it is found again. */
  lemma FoundAgainNamesItself(sources: seq<MediaSource>, k: nat)
    requires k < |sources|
    ensures FoundAgain(sources, k) <==> NamesTheSame(sources[k], k, sources, k)
  {
  }

  lemma SelectedSource(source: MediaSource, k: nat, negotiated: seq<MediaSource>, j: nat)
    requires NamesTheSame(source, k, negotiated, j)
    ensures SelectSource(negotiated, NonEmpty(source.id), Some(k)) == Some(j)
  {
  }

  lemma RequestFollows(source: MediaSource, k: nat, negotiated: seq<MediaSource>, j: nat,
                       audio: Option<MediaStream>, subtitle: Option<MediaStream>)
    requires NamesTheSame(source, k, negotiated, j)
    requires IsTrackOf(source, "Audio", audio) && IsTrackOf(source, "Subtitle", subtitle)
    requires audio.None? ==> StreamsOfType(source.streams, "Audio") == []
    ensures Requested(negotiated, SavedPreferenceApplied(
                        Resolved(NonEmpty(source.id), k, IndexOf(audio), IndexOf(subtitle))))
      == Some(Request(j, Playable(IndexOf(audio)),
                      if Playable(IndexOf(subtitle)).Some? then IndexOf(subtitle) else Some(-1)))
  {
    SelectedSource(source, k, negotiated, j);
    if audio.Some? {
      ChosenByIndex(negotiated[j], "Audio", audio);
    } else {
      NoAudioNoChoice(negotiated[j]);
    }
    if subtitle.Some? {
      ChosenByIndex(negotiated[j], "Subtitle", subtitle);
    }
  }

  /** Playback follows what was resolved: the same source, the same tracks (a negative index
      stands for none), and off stays off. */
  lemma PlaybackFollowsResolve(preference: Option<ItemPreference>, sources: seq<MediaSource>,
                               negotiated: seq<MediaSource>, j: nat)
    requires Resolve(preference, sources).Some?
    requires var k := Resolve(preference, sources).value.sourceIndex; NamesTheSame(sources[k], k, negotiated, j)
    ensures var resolved := Resolve(preference, sources).value;
            Requested(negotiated, SavedPreferenceApplied(resolved))
              == Some(Request(j, Playable(resolved.audio),
                              if Playable(resolved.subtitle).Some? then resolved.subtitle else Some(-1)))
  {
    var audio := ResolvedAudio(preference, sources);
    var subtitle := ResolvedSubtitle(preference, sources);
    var k := Resolve(preference, sources).value.sourceIndex;
    RequestFollows(sources[k], k, negotiated, j, audio, subtitle);
  }

  lemma ResolvedAudio(preference: Option<ItemPreference>, sources: seq<MediaSource>)
    returns (audio: Option<MediaStream>)
    requires Resolve(preference, sources).Some?
    ensures var resolved := Resolve(preference, sources).value;
            && resolved.audio == IndexOf(audio) && IsTrackOf(sources[resolved.sourceIndex], "Audio", audio)
            && (audio.None? ==> StreamsOfType(sources[resolved.sourceIndex].streams, "Audio") == [])
  {
    var source := sources[Resolve(preference, sources).value.sourceIndex];
    DefaultTracksAreTracks(source);
    audio := DefaultAudio(source);
    if preference.Some? && MatchingSource(preference.value.source, sources).Some? && preference.value.audio.Some? {
      audio := OrElse(MatchingStream(source, "Audio", preference.value.audio.value), audio);
    }
  }

  lemma ResolvedSubtitle(preference: Option<ItemPreference>, sources: seq<MediaSource>)
    returns (subtitle: Option<MediaStream>)
    requires Resolve(preference, sources).Some?
    ensures var resolved := Resolve(preference, sources).value;
            resolved.subtitle == IndexOf(subtitle) && IsTrackOf(sources[resolved.sourceIndex], "Subtitle", subtitle)
  {
    var source := sources[Resolve(preference, sources).value.sourceIndex];
    DefaultTracksAreTracks(source);
    subtitle := DefaultSubtitle(source);
    if preference.Some? && MatchingSource(preference.value.source, sources).Some? {
      var saved := preference.value.subtitle;
      subtitle := if saved.None? then None else OrElse(MatchingStream(source, "Subtitle", saved.value), subtitle);
    }
  }

  /** From the pick to the player: what was captured is what is played. */
  lemma CaptureThenPlay(sources: seq<MediaSource>, k: nat, audio: Option<MediaStream>, subtitle: Option<MediaStream>,
                        negotiated: seq<MediaSource>, j: nat)
    requires k < |sources| && FoundAgain(sources, k) && NamesTheSame(sources[k], k, negotiated, j)
    requires IsTrackOf(sources[k], "Audio", audio) && IsTrackOf(sources[k], "Subtitle", subtitle)
    requires audio.Some? && audio.value.index >= 0 && (subtitle.Some? ==> subtitle.value.index >= 0)
    ensures var resolved := Resolve(Some(Capture(sources[k], k, audio, subtitle)), sources);
            resolved.Some? && Requested(negotiated, SavedPreferenceApplied(resolved.value))
              == Some(Request(j, Some(audio.value.index),
                              if subtitle.Some? then Some(subtitle.value.index) else Some(-1)))
  {
    CaptureThenResolve(sources, k, audio, subtitle);
    PlaybackFollowsResolve(Some(Capture(sources[k], k, audio, subtitle)), sources, negotiated, j);
  }

  // ---- What else is chosen ----

  /** The same letters, in whatever case, when outer white space is dropped. */
  predicate SaysTheSame(saved: string, current: Option<string>) {
    && current.Some? && |Trim(saved)| == |Trim(current.value)|
    && forall i | 0 <= i < |Trim(saved)| :: LowerAscii(Trim(saved)[i]) == LowerAscii(Trim(current.value)[i])
  }

  /** After a file replacement another stream may have the index. It is taken for the saved track only
      if it says the same wherever the saved one said anything. */
  lemma ReplacedTrackIsRefused(stream: MediaStream, other: MediaStream)
    requires Matches(FromStream(stream), other)
    ensures other.index == stream.index
    ensures SpeaksAlike(stream.language, other.language) && SpeaksAlike(stream.title, other.title)
    ensures SpeaksAlike(stream.codec, other.codec)
    ensures stream.channels.Some? && stream.channels.value > 0 ==> other.channels == stream.channels
    ensures other.isForced == stream.isForced && other.isHearingImpaired == stream.isHearingImpaired
    ensures other.isExternal == stream.isExternal
    ensures IsUndescribed(stream) ==> SpeaksAlike(stream.displayTitle, other.displayTitle)
  {
    SavedSpeaksAlike(stream.language, other.language);
    SavedSpeaksAlike(stream.title, other.title);
    SavedSpeaksAlike(stream.codec, other.codec);
    SavedSpeaksAlike(stream.displayTitle, other.displayTitle);
  }

  predicate SpeaksAlike(saved: Option<string>, current: Option<string>) {
    saved.Some? && Trim(saved.value) != "" ==> SaysTheSame(saved.value, current)
  }

  predicate IsUndescribed(stream: MediaStream) {
    && (stream.language.Some? ==> Trim(stream.language.value) == "")
    && (stream.title.Some? ==> Trim(stream.title.value) == "")
    && (stream.codec.Some? ==> Trim(stream.codec.value) == "")
    && (stream.channels.Some? ==> stream.channels.value <= 0)
  }

  lemma SavedSpeaksAlike(saved: Option<string>, current: Option<string>)
    ensures TextMatches(NonEmpty(saved), current) <==> SpeaksAlike(saved, current)
  {
    if saved.Some? {
      TrimTwice(saved.value);
    }
  }

  /** Conversely, whatever the saved track did not say may be anything, the display title included
      where something stronger was said. */
  lemma EnrichedTrackMatches(stream: MediaStream, other: MediaStream)
    requires other.index == stream.index
    requires SpeaksAlike(stream.language, other.language) && SpeaksAlike(stream.title, other.title)
    requires SpeaksAlike(stream.codec, other.codec)
    requires stream.channels.Some? && stream.channels.value > 0 ==> other.channels == stream.channels
    requires other.isForced == stream.isForced && other.isHearingImpaired == stream.isHearingImpaired
    requires other.isExternal == stream.isExternal
    requires IsUndescribed(stream) ==> SpeaksAlike(stream.displayTitle, other.displayTitle)
    ensures Matches(FromStream(stream), other)
  {
    SavedSpeaksAlike(stream.language, other.language);
    SavedSpeaksAlike(stream.title, other.title);
    SavedSpeaksAlike(stream.codec, other.codec);
    SavedSpeaksAlike(stream.displayTitle, other.displayTitle);
  }

  /** The default source: the first that plays without transcoding, else the first that can be
      transcoded, else the first. */
  lemma DefaultSourceExactly(sources: seq<MediaSource>, k: nat)
    requires k < |sources|
    ensures sources[k].supportsDirectPlay || sources[k].supportsDirectStream ==>
              (DefaultSource(sources) == k <==> forall i | 0 <= i < k :: !PlaysDirectly(sources[i]))
    ensures (forall source <- sources :: !source.supportsDirectPlay && !source.supportsDirectStream)
            && sources[k].transcodingUrl.Some? ==>
              (DefaultSource(sources) == k <==> forall i | 0 <= i < k :: sources[i].transcodingUrl.None?)
    ensures (forall source <- sources :: !source.supportsDirectPlay && !source.supportsDirectStream
                                         && source.transcodingUrl.None?) ==> DefaultSource(sources) == 0
  {
    var direct := Position(sources, PlaysDirectly);
    assert PlaysDirectly(sources[k]) ==> direct.Some?;
    assert direct.Some? ==> sources[direct.value] in sources;
    var transcoded := Position(sources, (source: MediaSource) => source.transcodingUrl.Some?);
    assert transcoded.Some? ==> sources[transcoded.value] in sources;
  }

  predicate IsAudio(source: MediaSource, stream: MediaStream) {
    stream in source.streams && IsOfType(stream, "Audio")
  }

  predicate IsNamed(index: Option<int>, stream: MediaStream) { index == Some(stream.index) && stream.index >= 0 }

  /** The default audio: the one the source names, else one flagged as default, else the first. */
  lemma DefaultAudioExactly(source: MediaSource)
    ensures var audio, named := DefaultAudio(source), source.defaultAudio;
            if exists stream <- source.streams :: IsOfType(stream, "Audio") && IsNamed(named, stream)
            then audio.Some? && IsAudio(source, audio.value) && named == Some(audio.value.index)
            else if exists stream <- source.streams :: IsOfType(stream, "Audio") && stream.isDefault
            then audio.Some? && IsAudio(source, audio.value) && audio.value.isDefault
            else if exists stream <- source.streams :: IsOfType(stream, "Audio")
            then audio.Some? && IsFirstAudio(source.streams, audio.value)
            else audio.None?
  {
    var p := FirstOfType(source.streams, "Audio");
  }

  predicate IsFirstAudio(streams: seq<MediaStream>, stream: MediaStream) {
    exists p | 0 <= p < |streams| ::
      streams[p] == stream && IsOfType(stream, "Audio") && forall i | 0 <= i < p :: !IsOfType(streams[i], "Audio")
  }

  lemma {:induction false} FirstOfType(streams: seq<MediaStream>, kind: string) returns (p: nat)
    ensures StreamsOfType(streams, kind) != [] ==>
              && p < |streams| && streams[p] == StreamsOfType(streams, kind)[0] && IsOfType(streams[p], kind)
              && forall i | 0 <= i < p :: !IsOfType(streams[i], kind)
  {
    p := 0;
    if streams != [] && !IsOfType(streams[0], kind) {
      p := FirstOfType(streams[1..], kind);
      p := p + 1;
      assert forall i | 0 < i < |streams| :: streams[i] == streams[1..][i - 1];
    }
  }

  /** Subtitles are on by default only where the source names a subtitle of its own. */
  lemma DefaultSubtitleExactly(source: MediaSource)
    ensures var subtitle, named := DefaultSubtitle(source), source.defaultSubtitle;
            if exists stream <- source.streams :: IsOfType(stream, "Subtitle") && IsNamed(named, stream)
            then subtitle.Some? && subtitle.value in source.streams && IsOfType(subtitle.value, "Subtitle")
                 && named == Some(subtitle.value.index)
            else subtitle.None?
  {
  }

  /** Without a saved choice, or for a saved one that is gone, the defaults are resolved. */
  lemma DefaultsAreResolved(sources: seq<MediaSource>)
    requires sources != []
    ensures var source := sources[DefaultSource(sources)];
            Resolve(None, sources) == Some(Resolved(NonEmpty(source.id), DefaultSource(sources),
                                                    IndexOf(DefaultAudio(source)), IndexOf(DefaultSubtitle(source))))
  {
  }

  /** A source without an id is found again only at its place, under its name and in its container. */
  lemma ReplacedSourceIsRefused(source: MediaSource, k: nat, audio: Option<MediaStream>, subtitle: Option<MediaStream>,
                                sources: seq<MediaSource>, j: nat)
    requires NonEmpty(source.id).None?
    ensures MatchingSource(Capture(source, k, audio, subtitle).source, sources) == Some(j)
      <==> && j == k < |sources| && SpeaksAlike(source.container, sources[k].container)
           && (if source.name.Some? then source.name.value else "Default")
                == if sources[k].name.Some? then sources[k].name.value else "Default"
  {
    if k < |sources| {
      SavedSpeaksAlike(source.container, sources[k].container);
    }
  }

  /** A stream's type is told in any case. */
  lemma TypeIgnoresCase(stream: MediaStream, kind: string)
    ensures IsOfType(stream, kind)
      <==> && stream.streamType.Some? && |stream.streamType.value| == |kind|
           && forall i | 0 <= i < |kind| :: LowerAscii(stream.streamType.value[i]) == LowerAscii(kind[i])
  {
  }

  /** Which source of the server's second answer is played: the one with the requested id; for a
      request without an id the one at the position; and else, a position after a lost id included,
      the default. */
  lemma NegotiatedExactly(sources: seq<MediaSource>, id: Option<string>, index: Option<nat>)
    ensures var selected := SelectSource(sources, id, index);
            if id.Some? && exists source <- sources :: source.id == id
            then selected.Some? && sources[selected.value].id == id
                 && forall i | 0 <= i < selected.value :: sources[i].id != id
            else if id.None? && index.Some? && index.value < |sources| then selected == index
            else if sources == [] then selected.None?
            else selected == Some(DefaultSource(sources))
  {
  }

  /** Without a requested track the source's default is played. */
  lemma UnrequestedTracks(source: MediaSource)
    ensures ChooseStream(source, "Audio", None) == DefaultAudio(source)
    ensures ChooseStream(source, "Subtitle", None) == DefaultSubtitle(source)
  {
  }

  // ---- Embedded track numbers ----

  /** A number from 1 up to the count of embedded tracks names a track of that index; where there
      is none, no embedded track has the index. */
  lemma EmbeddedOrdinalNamesATrack(source: MediaSource, kind: string, index: int)
    ensures var tracks, n := EmbeddedStreams(source, kind), EmbeddedOrdinal(source, kind, index);
            if n.Some? then 1 <= n.value <= |tracks| && tracks[n.value - 1].index == index
            else forall p | 0 <= p < |tracks| :: tracks[p].index != index
  {
    var tracks := EmbeddedStreams(source, kind);
    var p := Position(tracks, (stream: MediaStream) => stream.index == index);
  }

  predicate NumberedInOrder(source: MediaSource, kind: string) {
    var tracks := EmbeddedStreams(source, kind);
    forall p | 0 <= p < |tracks| :: EmbeddedOrdinal(source, kind, tracks[p].index) == Some(p + 1)
  }

  /** The embedded tracks are numbered 1, 2, 3, … without a clash exactly when their indices differ. */
  lemma EmbeddedOrdinalsAreABijection(source: MediaSource, kind: string)
    ensures var tracks := EmbeddedStreams(source, kind);
            NumberedInOrder(source, kind) <==> forall p, q | 0 <= p < q < |tracks| :: tracks[p].index != tracks[q].index
  {
    var tracks := EmbeddedStreams(source, kind);
    forall p | 0 <= p < |tracks|
      ensures (forall q | 0 <= q < p :: tracks[q].index != tracks[p].index)
                ==> EmbeddedOrdinal(source, kind, tracks[p].index) == Some(p + 1)
    {
      var found := Position(tracks, (stream: MediaStream) => stream.index == tracks[p].index);
    }
    if NumberedInOrder(source, kind) {
      forall p, q | 0 <= p < q < |tracks|
        ensures tracks[p].index != tracks[q].index
      {
        assert EmbeddedOrdinal(source, kind, tracks[p].index) == Some(p + 1);
        assert EmbeddedOrdinal(source, kind, tracks[q].index) == Some(q + 1);
      }
    }
  }

  /** The numbered tracks are the internal ones of the kind, in the order of the source. */
  lemma {:induction false} EmbeddedMembers(streams: seq<MediaStream>, stream: MediaStream)
    ensures stream in Embedded(streams) <==> stream in streams && !stream.isExternal
  {
    if streams != [] {
      EmbeddedMembers(streams[1..], stream);
    }
  }
}
