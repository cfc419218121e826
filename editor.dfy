/** The editor's state and the events that change it: mouse events on the
    canvas that draw masks, the buttons that remove them, the effect
    controls, and choosing a new file.  Every event maps the state to a new
    state; React's setters become field updates. */
module Editor {
  import opened Wrappers
  import opened Masks
  import opened Strings
  import Recording

  /** What the file input reports about the chosen file. */
  datatype FileInfo = FileInfo(name: string, mimeType: string)

  /** The component's state that the masking logic reads or writes.  URLs
      are opaque strings made by the host. */
  datatype Editor = Editor(
    videoFile: Option<FileInfo>,
    videoUrl: Option<string>,
    isMuted: bool,
    maskType: MaskType,
    maskIntensity: int,
    masks: seq<Rect>,
    isDrawing: bool,
    drawStart: Option<Point>,
    currentMask: Option<Rect>,
    processedVideoUrl: Option<string>)

  /** Bounds of the intensity slider. */
  const MinIntensity := 1
  const MaxIntensity := 20

  /** The state before any event: blur at intensity 10, no masks, muted. */
  function Initial(): (e: Editor)
    ensures e.maskType == Blur && e.maskIntensity == 10 && e.masks == [] && e.isMuted
    ensures !e.isDrawing && e.videoUrl.None? && e.processedVideoUrl.None?
  {
    Editor(None, None, true, Blur, 10, [], false, None, None, None)
  }

  /** What every reachable state satisfies: each stored mask passed the size
      test, the intensity is one the slider can produce, and the rectangle
      being drawn never has a negative size. */
  predicate Valid(e: Editor) {
    AllAdmitted(e.masks) &&
    MinIntensity <= e.maskIntensity <= MaxIntensity &&
    (e.currentMask.Some? ==> e.currentMask.value.width >= 0.0 && e.currentMask.value.height >= 0.0)
  }

  datatype Event =
    | MouseDown(at: Point)
    | MouseMove(at: Point)
    | MouseUp
    | ClearMask(index: int)
    | ClearAllMasks
    | FileChange(files: seq<FileInfo>, newUrl: string)
    | SelectMaskType(maskType: MaskType)
    | SetIntensity(value: int)
    | RecordingStopped(video: Option<string>, newUrl: string)

  /** Mouse-down starts a drag at the cursor with an empty rectangle. */
  function OnMouseDown(e: Editor, p: Point): (e': Editor)
    ensures e' == e.(isDrawing := true, drawStart := Some(p), currentMask := Some(Rect(p.x, p.y, 0.0, 0.0)))
  {
    e.(isDrawing := true, drawStart := Some(p), currentMask := Some(Rect(p.x, p.y, 0.0, 0.0)))
  }

  /** Mouse-move while drawing replaces the current rectangle by the one
      spanned from the drag's start; otherwise nothing happens. */
  function OnMouseMove(e: Editor, p: Point): (e': Editor)
    ensures e.isDrawing && e.drawStart.Some? ==> e' == e.(currentMask := Some(DragRect(e.drawStart.value, p)))
    ensures !(e.isDrawing && e.drawStart.Some?) ==> e' == e
  {
    if !e.isDrawing || e.drawStart.None? then e
    else e.(currentMask := Some(DragRect(e.drawStart.value, p)))
  }

  /** Mouse-up ends the drag; a copy of the current rectangle is appended
      when it is large enough.  The current rectangle itself is kept. */
  function OnMouseUp(e: Editor): (e': Editor)
    ensures e.isDrawing && e.currentMask.Some? && Admitted(e.currentMask.value) ==>
      e' == e.(masks := e.masks + [e.currentMask.value], isDrawing := false, drawStart := None)
    ensures !(e.isDrawing && e.currentMask.Some? && Admitted(e.currentMask.value)) ==>
      e' == e.(isDrawing := false, drawStart := None)
  {
    var masks := if e.isDrawing && e.currentMask.Some? then AppendIfLarge(e.masks, e.currentMask.value) else e.masks;
    e.(masks := masks, isDrawing := false, drawStart := None)
  }

  /** A new file resets the editor only when its type starts with "video/";
      an empty selection or any other type leaves the state as it was. */
  function OnFileChange(e: Editor, files: seq<FileInfo>, newUrl: string): (e': Editor)
    ensures |files| > 0 && StartsWith(files[0].mimeType, "video/") ==>
      e' == e.(videoFile := Some(files[0]), videoUrl := Some(newUrl), isMuted := true, masks := [], processedVideoUrl := None)
    ensures !(|files| > 0 && StartsWith(files[0].mimeType, "video/")) ==> e' == e
  {
    if |files| > 0 && StartsWith(files[0].mimeType, "video/") then
      e.(videoFile := Some(files[0]), videoUrl := Some(newUrl), isMuted := true, masks := [], processedVideoUrl := None)
    else e
  }

  /** The recorder's `onstop` (directly or after the re-recording): when a
      processed video came out, its fresh URL becomes the processed video;
      when none did, the state stays as it was. */
  function OnRecordingStopped(e: Editor, video: Option<string>, newUrl: string): (e': Editor)
    ensures video.Some? ==> e' == e.(processedVideoUrl := Some(newUrl))
    ensures video.None? ==> e' == e
  {
    if video.Some? then e.(processedVideoUrl := Some(newUrl)) else e
  }

  /** One event.  The slider only produces values in its range. */
  function Step(e: Editor, ev: Event): (e': Editor)
    requires ev.SetIntensity? ==> MinIntensity <= ev.value <= MaxIntensity
    ensures ev.ClearAllMasks? ==> e' == e.(masks := [])
    ensures ev.ClearMask? ==> e' == e.(masks := RemoveAt(e.masks, ev.index))
    ensures ev.SelectMaskType? ==> e' == e.(maskType := ev.maskType)
    ensures ev.SetIntensity? ==> e' == e.(maskIntensity := ev.value)
    ensures !ev.FileChange? ==> e'.videoFile == e.videoFile && e'.videoUrl == e.videoUrl
    ensures !ev.FileChange? && !ev.RecordingStopped? ==> e'.processedVideoUrl == e.processedVideoUrl
  {
    match ev
    case MouseDown(p) => OnMouseDown(e, p)
    case MouseMove(p) => OnMouseMove(e, p)
    case MouseUp => OnMouseUp(e)
    case ClearMask(i) => e.(masks := RemoveAt(e.masks, i))
    case ClearAllMasks => e.(masks := [])
    case FileChange(files, url) => OnFileChange(e, files, url)
    case SelectMaskType(t) => e.(maskType := t)
    case SetIntensity(v) => e.(maskIntensity := v)
    case RecordingStopped(video, url) => OnRecordingStopped(e, video, url)
  }

  lemma InitialValid()
    ensures Valid(Initial())
  {
  }

  /** Every event keeps the state valid. */
  lemma StepPreservesValid(e: Editor, ev: Event)
    requires Valid(e)
    requires ev.SetIntensity? ==> MinIntensity <= ev.value <= MaxIntensity
    ensures Valid(Step(e, ev))
  {
    match ev
    case MouseUp =>
      if e.isDrawing && e.currentMask.Some? {
        AppendKeepsAdmitted(e.masks, e.currentMask.value);
      }
    case ClearMask(i) => RemoveKeepsAdmitted(e.masks, i);
    case _ =>
  }

  /** The state after a sequence of events. */
  function Run(e: Editor, events: seq<Event>): (e': Editor)
    requires forall i :: 0 <= i < |events| && events[i].SetIntensity? ==> MinIntensity <= events[i].value <= MaxIntensity
    decreases |events|
  {
    if events == [] then e else Run(Step(e, events[0]), events[1..])
  }

  /** Whatever events arrive, every stored mask is larger than 5 by 5 pixels
      and the intensity stays in the slider's range. */
  lemma {:induction false} RunPreservesValid(e: Editor, events: seq<Event>)
    requires Valid(e)
    requires forall i :: 0 <= i < |events| && events[i].SetIntensity? ==> MinIntensity <= events[i].value <= MaxIntensity
    ensures Valid(Run(e, events))
    decreases |events|
  {
    if events != [] {
      StepPreservesValid(e, events[0]);
      RunPreservesValid(Step(e, events[0]), events[1..]);
    }
  }

  /** A drag from `a` to `b` followed by mouse-up stores exactly the
      normalised rectangle when it is larger than 5 by 5, and nothing otherwise. */
  lemma DragThenRelease(e: Editor, a: Point, b: Point)
    ensures var e' := Step(Step(Step(e, MouseDown(a)), MouseMove(b)), MouseUp);
      e'.masks == if Admitted(DragRect(a, b)) then e.masks + [DragRect(a, b)] else e.masks
  {
  }

  /** Processing ends with a new processed video exactly when the browser
      supports an MP4 type; otherwise the conversion fails and the editor
      keeps its state, the earlier processed video included. */
  lemma ProcessingOutcome(e: Editor, supported: string -> bool, newUrl: string)
    ensures var video := Recording.ProcessedVideoAsWritten(Recording.ChooseMimeType(supported), supported);
      var e' := Step(e, RecordingStopped(video, newUrl));
      (supported(Recording.Mp4H264Aac) || supported(Recording.Mp4) ==> e'.processedVideoUrl == Some(newUrl)) &&
      (!supported(Recording.Mp4H264Aac) && !supported(Recording.Mp4) ==> e' == e)
  {
    Recording.ConversionNeverDelivers(supported);
    Recording.ConversionExactlyForWebm(supported);
  }
}
