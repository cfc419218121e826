/** The decisions `processVideo` takes around the recorder: whether to start
    at all, which container type to ask the recorder for, how the recorded
    blob is tagged, whether the recording is re-recorded as MP4, and which
    recorded chunks are kept.  Whether the browser supports a type is a
    parameter. */
module Recording {
  import opened Wrappers
  import opened Strings
  import Pixels
  import Masks

  const Mp4H264Aac: string := "video/mp4;codecs=h264,aac"
  const Mp4: string := "video/mp4"
  const WebmH264Opus: string := "video/webm;codecs=h264,opus"
  const Webm: string := "video/webm"

  /** The type the re-recording of a WebM result asks for. */
  const ConversionMimeType: string := Mp4H264Aac

  /** Reference rule: the first candidate the browser supports, else the
      fallback, which is used without asking. */
  function FirstSupported(candidates: seq<string>, fallback: string, supported: string -> bool): (t: string)
    ensures (forall i :: 0 <= i < |candidates| ==> !supported(candidates[i])) ==> t == fallback
    ensures (exists i :: 0 <= i < |candidates| && supported(candidates[i])) ==>
      exists i :: 0 <= i < |candidates| && candidates[i] == t && supported(t) &&
        forall j :: 0 <= j < i ==> !supported(candidates[j])
  {
    if candidates == [] then fallback
    else if supported(candidates[0]) then candidates[0]
    else FirstSupported(candidates[1..], fallback, supported)
  }

  /** The recorder's type: the H.264/AAC MP4 type if supported, else plain
      MP4 if supported, else WebM. */
  function ChooseMimeType(supported: string -> bool): (t: string)
    ensures t == Mp4H264Aac <==> supported(Mp4H264Aac)
    ensures t == Mp4 <==> !supported(Mp4H264Aac) && supported(Mp4)
    ensures t == WebmH264Opus <==> !supported(Mp4H264Aac) && !supported(Mp4)
  {
    if supported(Mp4H264Aac) then Mp4H264Aac
    else if supported(Mp4) then Mp4
    else WebmH264Opus
  }

  /** The ternary chain is the priority rule over the two MP4 types with WebM
      as the fallback. */
  lemma ChooseIsFirstSupported(supported: string -> bool)
    ensures ChooseMimeType(supported) == FirstSupported([Mp4H264Aac, Mp4], WebmH264Opus, supported)
  {
    assert [Mp4H264Aac, Mp4][1..] == [Mp4];
    assert [Mp4][1..] == [];
  }

  /** The type the recorded blob is tagged with. */
  function BlobType(mimeType: string): (t: string)
    ensures t == Mp4 || t == Webm
    ensures t == Mp4 <==> StartsWith(mimeType, Mp4)
  {
    if StartsWith(mimeType, Mp4) then Mp4 else Webm
  }

  /** The recording is re-recorded as MP4 when the chosen type is not an MP4 one. */
  predicate NeedsConversion(mimeType: string) {
    !StartsWith(mimeType, Mp4)
  }

  lemma Mp4Prefixes()
    ensures StartsWith(Mp4H264Aac, Mp4) && StartsWith(Mp4, Mp4) && !StartsWith(WebmH264Opus, Mp4)
  {
    assert Mp4H264Aac[..|Mp4|] == Mp4;
    assert WebmH264Opus[6] != Mp4[6];
  }

  /** Conversion runs exactly when the blob was tagged WebM, which happens
      exactly when neither MP4 type is supported. */
  lemma ConversionExactlyForWebm(supported: string -> bool)
    ensures var t := ChooseMimeType(supported);
      (NeedsConversion(t) <==> BlobType(t) == Webm) &&
      (NeedsConversion(t) <==> !supported(Mp4H264Aac) && !supported(Mp4))
  {
    Mp4Prefixes();
  }

  /** Whenever the re-recording runs, it asks for a type the first choice
      found unsupported. */
  lemma ConversionAsksForUnsupportedType(supported: string -> bool)
    requires NeedsConversion(ChooseMimeType(supported))
    ensures !supported(ConversionMimeType)
  {
    Mp4Prefixes();
  }

  /** The processed video `processVideo` ends with, as written, by its blob
      type: the recording itself when it was made as MP4; otherwise the
      re-recording, whose recorder is built for `ConversionMimeType`.  The
      `MediaRecorder` constructor refuses a type the browser does not
      support, and then no processed video is set. */
  function ProcessedVideoAsWritten(mimeType: string, supported: string -> bool): (r: Option<string>)
    ensures r.Some? <==> !NeedsConversion(mimeType) || supported(ConversionMimeType)
    ensures r.Some? ==> r.value == Mp4
  {
    if !NeedsConversion(mimeType) then Some(BlobType(mimeType))
    else if supported(ConversionMimeType) then Some(Mp4)
    else None
  }

  /** With the type `processVideo` chooses, the conversion branch never
      delivers: there is no processed video exactly when the browser
      supports neither MP4 type, which is exactly when conversion runs. */
  lemma ConversionNeverDelivers(supported: string -> bool)
    ensures ProcessedVideoAsWritten(ChooseMimeType(supported), supported).None? <==>
      NeedsConversion(ChooseMimeType(supported))
  {
    Mp4Prefixes();
  }

  /** A browser that supports no MP4 type gets no processed video at all. */
  lemma NoVideoWithoutMp4()
    ensures var none := (t: string) => false;
      ProcessedVideoAsWritten(ChooseMimeType(none), none) == None
  {
    var none := (t: string) => false;
    ConversionNeverDelivers(none);
    Mp4Prefixes();
  }

  /** The processed video as intended: every finished recording yields one.
      It is MP4 when it was recorded as MP4 or the browser can re-record it
      as MP4; otherwise it is the recording itself, tagged with its own type. */
  function ProcessedVideo(mimeType: string, supported: string -> bool): (r: Option<string>)
    ensures r.Some?
    ensures r.value == Mp4 <==> !NeedsConversion(mimeType) || supported(ConversionMimeType)
    ensures r.value != Mp4 ==> r.value == BlobType(mimeType)
  {
    if !NeedsConversion(mimeType) then Some(BlobType(mimeType))
    else if supported(ConversionMimeType) then Some(Mp4)
    else Some(BlobType(mimeType))
  }

  /** With the chosen type, the intended outcome always delivers a video:
      MP4 exactly when the browser supports an MP4 type, else WebM; and it
      agrees with the code as written whenever that delivers. */
  lemma ProcessedVideoDelivers(supported: string -> bool)
    ensures var t := ChooseMimeType(supported); var r := ProcessedVideo(t, supported);
      r.Some? &&
      (r.value == Mp4 <==> supported(Mp4H264Aac) || supported(Mp4)) &&
      (r.value == Webm <==> !supported(Mp4H264Aac) && !supported(Mp4)) &&
      (ProcessedVideoAsWritten(t, supported).Some? ==> ProcessedVideoAsWritten(t, supported) == r)
  {
    Mp4Prefixes();
  }

  /** `processVideo` does nothing without masks; otherwise it records with the
      chosen type. */
  function StartProcessing(masks: seq<Masks.Rect>, supported: string -> bool): (r: Option<string>)
    ensures r.None? <==> masks == []
    ensures r.Some? ==> r.value == FirstSupported([Mp4H264Aac, Mp4], WebmH264Opus, supported)
  {
    ChooseIsFirstSupported(supported);
    if |masks| == 0 then None else Some(ChooseMimeType(supported))
  }

  /** A recorded chunk; its size is the number of bytes it holds. */
  datatype Chunk = Chunk(bytes: seq<Pixels.byte>)

  /** `ondataavailable`: a chunk is kept only when it is not empty. */
  function OnDataAvailable(chunks: seq<Chunk>, data: Chunk): (r: seq<Chunk>)
    ensures |data.bytes| > 0 ==> r == chunks + [data]
    ensures |data.bytes| == 0 ==> r == chunks
  {
    if |data.bytes| > 0 then chunks + [data] else chunks
  }

  /** The chunk list after the recorder delivered `events` in order. */
  function Collect(events: seq<Chunk>): (r: seq<Chunk>)
    ensures |r| <= |events|
    ensures forall i :: 0 <= i < |r| ==> |r[i].bytes| > 0
    decreases |events|
  {
    if events == [] then [] else OnDataAvailable(Collect(events[..|events| - 1]), events[|events| - 1])
  }

  /** The bytes of the blob built from `chunks`. */
  function Concat(chunks: seq<Chunk>): (bytes: seq<Pixels.byte>)
    decreases |chunks|
  {
    if chunks == [] then [] else Concat(chunks[..|chunks| - 1]) + chunks[|chunks| - 1].bytes
  }

  /** Every kept chunk is non-empty, and dropping the empty ones loses no
      bytes: the blob holds everything the recorder delivered, in order. */
  lemma {:induction false} CollectKeepsBytes(events: seq<Chunk>)
    ensures forall i :: 0 <= i < |Collect(events)| ==> |Collect(events)[i].bytes| > 0
    ensures Concat(Collect(events)) == Concat(events)
    decreases |events|
  {
    if events != [] {
      var init, last := events[..|events| - 1], events[|events| - 1];
      CollectKeepsBytes(init);
      if |last.bytes| > 0 {
        assert (Collect(init) + [last])[..|Collect(init)|] == Collect(init);
      } else {
        assert Concat(init) + last.bytes == Concat(init);
      }
    }
  }
}
