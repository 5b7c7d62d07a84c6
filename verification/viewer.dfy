/**
  The interactive viewer as a state machine. A state holds the envelope
  being edited, the selected item, the mode, the unsaved-changes flag and
  the status message. `Update` consumes one event and returns the next
  state, the command handed back to the terminal runtime (an `Effect`) and
  the file it replaced, if any.

  Everything outside the process is a parameter: the outcomes of the file
  writes, the file picker's selection and the text field's contents after a
  keystroke come from a `World` value chosen by the environment.
 */
module Viewer {
  import opened Bytes
  import opened JsonModel
  import opened ItemHeader
  import opened EnvelopeCodec
  import opened BinaryClassifier

  datatype Mode = ListMode | InputMode | ExportMode | ConfirmQuitMode

  datatype Key =
    | Up | Down | KeyK | KeyJ | Enter | Esc
    | KeyE | KeyD | KeyX | KeyA | KeyW | KeyQ | CtrlC | KeyY
    | OtherKey(name: string)

  datatype Event =
    | KeyPress(key: Key)
    /** What the editor or pager reported: an error, or the edited payload of item `index`. */
    | EditResult(index: int, payload: Bytes, err: Option<string>)
    | WindowSize(width: int, height: int)
    /** Any other message, which only the file picker consumes. */
    | PickerMsg

  /** The command returned to the runtime. */
  datatype Effect =
    | NoEffect
    | Quit
    | Reprint                     // print the envelope dump again
    | ViewInPager(index: nat)
    | EditInEditor(index: nat)
    | StartPicker
    | FocusExport
    | WidgetCommand               // whatever the picker or text field asked for

  datatype Note = ItemDeleted | PayloadUpdated | Saved(path: string) | Exported(filename: string) | Added(name: string)

  datatype Cause =
    | EditFailed(reason: string)
    | LengthNotUpdated(headerError: HeaderError)
    | SaveFailed(serializeError: SerializeError)
    | WriteFailed(reason: string)
    | ExportFailed(reason: string)
    | AttachFailed(reason: string)

  datatype Message = NoMessage | Info(note: Note) | Error(cause: Cause)

  /** A file the picker selected: its base name, its contents or the read error, and its MIME type ("" if unknown). */
  datatype Pick = Pick(base: string, contents: Result<Bytes, string>, contentType: string)

  /**
    Outcomes of the side effects one event may trigger. `createTemp` and
    `commit` are the failures (if any) of creating the temporary file and
    of flushing and renaming it over the envelope file.
   */
  datatype World = World(
    createTemp: Option<string>,
    commit: Option<string>,
    exportWrite: Option<string>,
    typed: string,
    picked: Option<Pick>)

  datatype FileWrite = FileWrite(path: string, data: Bytes)

  datatype State = State(
    env: Envelope,
    filePath: string,
    fileSize: int,
    selected: int,
    mode: Mode,
    dirty: bool,
    message: Message,
    exportName: string,
    width: int)

  /** The next state, the returned command and the file replaced on disk. */
  datatype Outcome = Outcome(state: State, effect: Effect, written: Option<FileWrite>)

  function Count(s: State): nat { |s.env.items| }

  /**
    The selection is 0 on an empty list and an index otherwise, and export
    mode is only entered with an item to export.
   */
  predicate Inv(s: State) {
    && (Count(s) == 0 ==> s.selected == 0)
    && (Count(s) > 0 ==> 0 <= s.selected < Count(s))
    && (s.mode == ExportMode ==> Count(s) > 0)
  }

  /** The state right after opening an envelope. */
  function Initial(env: Envelope, filePath: string, fileSize: int): (s: State)
    ensures Inv(s) && s.mode == ListMode && !s.dirty && s.message == NoMessage
  {
    State(env, filePath, fileSize, 0, ListMode, false, NoMessage, "", 0)
  }

  function Stay(s: State): Outcome { Outcome(s, NoEffect, None) }

  /** The name offered when exporting an item. */
  function DefaultExportFilename(c: Codec, it: Item): (name: string)
    ensures name != ""
    ensures it.filename != "" ==> name == it.filename
    ensures it.filename == "" ==>
              name == (if it.typ == "" then "item" else it.typ) + (if c.decode(it.payload).Some? then ".json" else ".bin")
  {
    if it.filename != "" then it.filename
    else
      var typ := if it.typ == "" then "item" else it.typ;
      if c.decode(it.payload).Some? then typ + ".json" else typ + ".bin"
  }

  /** The header written for a new attachment: type, length, filename and, when known, content type, in that order. */
  function AttachmentHeader(data: Bytes, base: string, contentType: string): (ms: seq<Member>)
    ensures |ms| == (if contentType == "" then 3 else 4)
  {
    [("type", Str("attachment")), ("length", Int(|data|)), ("filename", Str(base))]
      + (if contentType != "" then [("content_type", Str(contentType))] else [])
  }

  /** Appends the picked file as an attachment item, or reports why it could not be read. */
  function AddAttachment(c: Codec, env: Envelope, pick: Pick): (r: Result<Envelope, string>)
    ensures pick.contents.Failure? <==> r.Failure?
    ensures r.Success? ==> r.value.header == env.header && |r.value.items| == |env.items| + 1
    ensures r.Success? ==> r.value.items[..|env.items|] == env.items
  {
    match pick.contents
    case Failure(e) => Failure(e)
    case Success(data) =>
      var header := c.marshal(Object(AttachmentHeader(data, pick.base, pick.contentType)));
      var items := env.items + [Item(header, data, "attachment", pick.base)];
      assert items[..|env.items|] == env.items;
      Success(env.(items := items))
  }

  /** The file picker consumed a message; a completed selection adds an attachment and returns to the list. */
  function UpdatePicker(c: Codec, s: State, w: World): (r: Outcome)
    requires Inv(s) && s.mode == InputMode
    ensures Inv(r.state) && r.written == None
  {
    match w.picked
    case None => Outcome(s, WidgetCommand, None)
    case Some(pick) =>
      match AddAttachment(c, s.env, pick)
      case Failure(e) => Stay(s.(message := Error(AttachFailed(e)), mode := ListMode))
      case Success(env) =>
        Outcome(s.(env := env, dirty := true, message := Info(Added(pick.base)), mode := ListMode), Reprint, None)
  }

  /** Writes the serialized envelope through a temporary file that replaces the original. */
  function Save(c: Codec, s: State, w: World): (r: Outcome)
    ensures r.state.env == s.env && r.state.mode == s.mode && r.state.selected == s.selected
    ensures r.written.Some? <==> w.createTemp.None? && Serialize(c, s.env).Success? && w.commit.None?
    ensures r.written.Some? ==>
              && r.written.value == FileWrite(s.filePath, Serialize(c, s.env).value)
              && !r.state.dirty && r.state.fileSize == |r.written.value.data|
    ensures r.written.None? ==> r.state.dirty == s.dirty && r.state.message.Error?
  {
    if w.createTemp.Some? then Stay(s.(message := Error(WriteFailed(w.createTemp.value))))
    else
      match Serialize(c, s.env)
      case Failure(e) => Stay(s.(message := Error(SaveFailed(e))))
      case Success(out) =>
        if w.commit.Some? then Stay(s.(message := Error(WriteFailed(w.commit.value))))
        else
          Outcome(s.(dirty := false, fileSize := |out|, message := Info(Saved(s.filePath))),
                  Reprint, Some(FileWrite(s.filePath, out)))
  }

  /** The selected item removed; the selection moves back when it falls off the end. */
  function Delete(s: State): (r: State)
    requires Inv(s) && s.mode == ListMode && Count(s) > 0
    ensures Inv(r) && Count(r) == Count(s) - 1
  {
    var i := s.selected;
    var items := s.env.items[..i] + s.env.items[i + 1..];
    var sel := if i >= |items| && |items| > 0 then |items| - 1 else i;
    s.(env := s.env.(items := items), selected := sel, dirty := true, message := Info(ItemDeleted))
  }

  /** A key press in list mode. */
  function UpdateList(c: Codec, s: State, k: Key, w: World): (r: Outcome)
    requires Inv(s) && s.mode == ListMode
    ensures Inv(r.state)
  {
    var n := Count(s);
    match k
    case Up | KeyK => Stay(if s.selected > 0 then s.(selected := s.selected - 1) else s)
    case Down | KeyJ => Stay(if s.selected < n - 1 then s.(selected := s.selected + 1) else s)
    case Enter => if n > 0 then Outcome(s, ViewInPager(s.selected), None) else Stay(s)
    case KeyE =>
      if n > 0 && !Binary(s.env.items[s.selected].payload) then Outcome(s, EditInEditor(s.selected), None)
      else Stay(s)
    case KeyD => if n > 0 then Outcome(Delete(s), Reprint, None) else Stay(s)
    case KeyX =>
      if n > 0 then
        Outcome(s.(exportName := DefaultExportFilename(c, s.env.items[s.selected]), mode := ExportMode), FocusExport, None)
      else Stay(s)
    case KeyA => Outcome(s.(mode := InputMode), StartPicker, None)
    case KeyW => if !s.dirty then Stay(s) else Save(c, s, w)
    case KeyQ | CtrlC => if s.dirty then Stay(s.(mode := ConfirmQuitMode)) else Outcome(s, Quit, None)
    case _ => Stay(s)
  }

  /** A key press while the export file name is being entered. */
  function UpdateExport(s: State, k: Key, w: World): (r: Outcome)
    requires Inv(s) && s.mode == ExportMode
    ensures Inv(r.state)
  {
    match k
    case Enter =>
      if s.exportName == "" then Stay(s.(mode := ListMode))
      else
        var data := s.env.items[s.selected].payload;
        (match w.exportWrite
         case Some(e) => Stay(s.(message := Error(ExportFailed(e)), mode := ListMode))
         case None =>
           Outcome(s.(message := Info(Exported(s.exportName)), mode := ListMode), NoEffect,
                   Some(FileWrite(s.exportName, data))))
    case Esc => Stay(s.(mode := ListMode))
    case _ => Outcome(s.(exportName := w.typed), WidgetCommand, None)
  }

  /** The editor's result: a changed payload replaces the item's payload and has its header's length rewritten. */
  function ApplyEdit(c: Codec, s: State, index: int, payload: Bytes): (r: Outcome)
    requires Inv(s) && 0 <= index < Count(s)
    ensures Inv(r.state) && r.written == None
  {
    var it := s.env.items[index];
    if it.payload == payload then Stay(s)
    else
      var edited := it.(payload := payload);
      match UpdateLength(c, it.header, |payload|)
      case Failure(e) =>
        Stay(s.(env := s.env.(items := s.env.items[index := edited]), message := Error(LengthNotUpdated(e))))
      case Success(header) =>
        var items := s.env.items[index := edited.(header := header)];
        Outcome(s.(env := s.env.(items := items), dirty := true, message := Info(PayloadUpdated)), Reprint, None)
  }

  /** One event. An edit result must name an existing item, as the editor is only started on one. */
  function Update(c: Codec, s: State, ev: Event, w: World): (r: Outcome)
    requires Inv(s)
    requires ev.EditResult? && ev.err.None? ==> 0 <= ev.index < Count(s)
    ensures Inv(r.state)
  {
    match ev
    case WindowSize(width, _) =>
      var s' := s.(width := width);
      if s'.mode == InputMode then UpdatePicker(c, s', w) else Stay(s')
    case EditResult(index, payload, err) =>
      if err.Some? then Stay(s.(message := Error(EditFailed(err.value))))
      else ApplyEdit(c, s, index, payload)
    case KeyPress(k) =>
      var s' := s.(message := NoMessage);
      (match s'.mode
       case ListMode => UpdateList(c, s', k, w)
       case InputMode => if k == Esc then Stay(s'.(mode := ListMode)) else UpdatePicker(c, s', w)
       case ExportMode => UpdateExport(s', k, w)
       case ConfirmQuitMode => if k == KeyY then Outcome(s', Quit, None) else Stay(s'.(mode := ListMode)))
    case PickerMsg =>
      if s.mode == InputMode then UpdatePicker(c, s, w) else Stay(s)
  }
}
