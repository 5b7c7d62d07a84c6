/**
  Properties of the viewer's state machine: navigation stays in bounds,
  deletion removes exactly the selected item, quitting asks first when
  there are unsaved changes, saving clears the flag only when the file was
  replaced, and edits and attachments change exactly the item they concern.
 */
module ViewerProperties {
  import opened Bytes
  import opened JsonModel
  import opened ItemHeader
  import opened EnvelopeCodec
  import opened EnvelopeProperties
  import opened BinaryClassifier
  import opened Viewer

  function Press(c: Codec, s: State, k: Key, w: World): (r: Outcome)
    requires Inv(s)
    ensures Inv(r.state)
  {
    Update(c, s, KeyPress(k), w)
  }

  // ---------------------------------------------------------------------
  // Navigation
  // ---------------------------------------------------------------------

  function Min(a: int, b: int): int { if a <= b then a else b }
  function Max(a: int, b: int): int { if a >= b then a else b }

  /** Up and k move the selection up one place unless it is at the top; down and j move it down unless it is at the bottom. */
  lemma NavigationSteps(c: Codec, s: State, w: World)
    requires Inv(s) && s.mode == ListMode
    ensures var up := s.(selected := Max(s.selected - 1, 0), message := NoMessage);
            Press(c, s, Up, w) == Stay(up) && Press(c, s, KeyK, w) == Stay(up)
    ensures var down := s.(selected := Max(Min(s.selected + 1, Count(s) - 1), 0), message := NoMessage);
            Press(c, s, Down, w) == Stay(down) && Press(c, s, KeyJ, w) == Stay(down)
  {
  }

  /** The state after pressing the same key `n` times. */
  function Presses(c: Codec, s: State, k: Key, w: World, n: nat): (r: State)
    requires Inv(s)
    ensures Inv(r)
    decreases n
  {
    if n == 0 then s else Presses(c, Press(c, s, k, w).state, k, w, n - 1)
  }

  /** Holding down moves to the last item at most and changes nothing else but the message. */
  lemma {:induction false} DownRepeatedly(c: Codec, s: State, w: World, n: nat)
    requires Inv(s) && s.mode == ListMode
    ensures var r := Presses(c, s, Down, w, n);
            && r.selected == Max(Min(s.selected + n, Count(s) - 1), 0)
            && r.mode == ListMode && r.env == s.env && r.dirty == s.dirty
    decreases n
  {
    if n > 0 {
      NavigationSteps(c, s, w);
      DownRepeatedly(c, Press(c, s, Down, w).state, w, n - 1);
    }
  }

  /** Holding up moves to the first item at most and changes nothing else but the message. */
  lemma {:induction false} UpRepeatedly(c: Codec, s: State, w: World, n: nat)
    requires Inv(s) && s.mode == ListMode
    ensures var r := Presses(c, s, Up, w, n);
            && r.selected == Max(s.selected - n, 0)
            && r.mode == ListMode && r.env == s.env && r.dirty == s.dirty
    decreases n
  {
    if n > 0 {
      NavigationSteps(c, s, w);
      UpRepeatedly(c, Press(c, s, Up, w).state, w, n - 1);
    }
  }

  // ---------------------------------------------------------------------
  // Deletion
  // ---------------------------------------------------------------------

  /**
    On a non-empty list, d removes the selected item and only it, keeps the
    others in order, marks the envelope modified and keeps the selection on
    the same position unless it was the last one.
   */
  lemma DeleteRemovesSelected(c: Codec, s: State, w: World)
    requires Inv(s) && s.mode == ListMode && Count(s) > 0
    ensures var r := Press(c, s, KeyD, w);
            var items, before, i := r.state.env.items, s.env.items, s.selected;
            && |items| == |before| - 1
            && (forall j | 0 <= j < i :: items[j] == before[j])
            && (forall j | i <= j < |items| :: items[j] == before[j + 1])
            && multiset(items) + multiset{before[i]} == multiset(before)
            && r.state.selected == (if i == |before| - 1 then Max(i - 1, 0) else i)
            && r.state.env.header == s.env.header
            && r.state.dirty && r.state.message == Info(ItemDeleted)
            && r.state.mode == ListMode && r.effect == Reprint && r.written == None
  {
    var s' := s.(message := NoMessage);
    assert Press(c, s, KeyD, w) == Outcome(Delete(s'), Reprint, None);
    DeleteShape(s');
  }

  lemma DeleteShape(s: State)
    requires Inv(s) && s.mode == ListMode && Count(s) > 0
    ensures var r := Delete(s);
            var items, before, i := r.env.items, s.env.items, s.selected;
            && |items| == |before| - 1
            && (forall j | 0 <= j < i :: items[j] == before[j])
            && (forall j | i <= j < |items| :: items[j] == before[j + 1])
            && multiset(items) + multiset{before[i]} == multiset(before)
            && r.selected == (if i == |before| - 1 then Max(i - 1, 0) else i)
            && r.env.header == s.env.header
            && r.dirty && r.message == Info(ItemDeleted) && r.mode == ListMode
  {
    var before, i := s.env.items, s.selected;
    var items := before[..i] + before[i + 1..];
    assert Delete(s).env.items == items;
    RemoveAt(before, i);
  }

  /** Removing index `i` shifts the later elements down by one and takes exactly one copy of `xs[i]` away. */
  lemma RemoveAt<T>(xs: seq<T>, i: nat)
    requires i < |xs|
    ensures var ys := xs[..i] + xs[i + 1..];
            && |ys| == |xs| - 1
            && (forall j | 0 <= j < i :: ys[j] == xs[j])
            && (forall j | i <= j < |ys| :: ys[j] == xs[j + 1])
            && multiset(ys) + multiset{xs[i]} == multiset(xs)
  {
    assert xs == xs[..i] + [xs[i]] + xs[i + 1..];
  }

  /** On an empty list, d only clears the message. */
  lemma DeleteOnEmptyListChangesNothing(c: Codec, s: State, w: World)
    requires Inv(s) && s.mode == ListMode && Count(s) == 0
    ensures Press(c, s, KeyD, w) == Stay(s.(message := NoMessage))
  {
  }

  // ---------------------------------------------------------------------
  // Quitting
  // ---------------------------------------------------------------------

  /**
    The viewer quits exactly on q or ctrl+c in list mode without unsaved
    changes, or on y when asked to confirm.
   */
  lemma QuitIff(c: Codec, s: State, ev: Event, w: World)
    requires Inv(s)
    requires ev.EditResult? && ev.err.None? ==> 0 <= ev.index < Count(s)
    ensures Update(c, s, ev, w).effect == Quit <==>
              ev.KeyPress? &&
              ((s.mode == ListMode && (ev.key == KeyQ || ev.key == CtrlC) && !s.dirty)
               || (s.mode == ConfirmQuitMode && ev.key == KeyY))
  {
    match ev
    case KeyPress(k) =>
      if s.mode == ListMode && k == KeyW && s.dirty {
        var s' := s.(message := NoMessage);
        assert Update(c, s, ev, w) == Save(c, s', w);
      }
    case EditResult(i, p, err) =>
      if err.None? {
        assert Update(c, s, ev, w) == ApplyEdit(c, s, i, p);
      }
    case _ =>
  }

  /** With unsaved changes, q and ctrl+c ask for confirmation instead of quitting. */
  lemma DirtyQuitAsksFirst(c: Codec, s: State, k: Key, w: World)
    requires Inv(s) && s.mode == ListMode && s.dirty && (k == KeyQ || k == CtrlC)
    ensures Press(c, s, k, w) == Stay(s.(mode := ConfirmQuitMode, message := NoMessage))
  {
  }

  /** When asked to confirm, any key but y goes back to the list and changes nothing else. */
  lemma ConfirmCancelled(c: Codec, s: State, k: Key, w: World)
    requires Inv(s) && s.mode == ConfirmQuitMode && k != KeyY
    ensures Press(c, s, k, w) == Stay(s.(mode := ListMode, message := NoMessage))
  {
  }

  // ---------------------------------------------------------------------
  // Saving
  // ---------------------------------------------------------------------

  /** Without unsaved changes, w writes nothing. */
  lemma CleanSaveWritesNothing(c: Codec, s: State, w: World)
    requires Inv(s) && s.mode == ListMode && !s.dirty
    ensures Press(c, s, KeyW, w) == Stay(s.(message := NoMessage))
  {
  }

  /**
    With unsaved changes, w replaces the file with the serialized envelope
    exactly when the temporary file is created, serialization succeeds and
    the rename succeeds; only then is the flag cleared and the file size
    updated. Otherwise the file is untouched and an error is shown.
   */
  lemma DirtySave(c: Codec, s: State, w: World)
    requires Inv(s) && s.mode == ListMode && s.dirty
    ensures var r := Press(c, s, KeyW, w);
            && (r.written.Some? <==> w.createTemp.None? && Serialize(c, s.env).Success? && w.commit.None?)
            && r.state.env == s.env && r.state.mode == ListMode && r.state.selected == s.selected
            && (r.written.Some? ==>
                  && r.written.value == FileWrite(s.filePath, Serialize(c, s.env).value)
                  && !r.state.dirty && r.state.fileSize == |r.written.value.data|
                  && r.state.message == Info(Saved(s.filePath)) && r.effect == Reprint)
            && (r.written.None? ==>
                  && r.state.dirty && r.state.fileSize == s.fileSize
                  && r.state.message.Error? && r.effect == NoEffect)
  {
    assert Press(c, s, KeyW, w) == Save(c, s.(message := NoMessage), w);
  }

  /**
    A saved envelope whose items are framed reopens with the same number of
    items and the same types, filenames and payload bytes.
   */
  lemma SavedFileReopens(c: Codec, s: State, w: World)
    requires Lawful(c)
    requires Inv(s) && s.mode == ListMode && s.dirty
    requires Parsed(c, s.env) && forall i | 0 <= i < Count(s) :: Rewritable(c, s.env.items[i])
    requires w.createTemp.None? && w.commit.None?
    ensures var r := Press(c, s, KeyW, w);
            && r.written.Some?
            && Parse(c, r.written.value.data).Success?
            && SameContent(s.env.items, Parse(c, r.written.value.data).value.items)
  {
    SerializeThenParse(c, s.env);
    DirtySave(c, s, w);
  }

  // ---------------------------------------------------------------------
  // Edit results
  // ---------------------------------------------------------------------

  /** An editor or pager error only sets the message. */
  lemma EditErrorOnlySetsMessage(c: Codec, s: State, i: int, p: Bytes, e: string, w: World)
    requires Inv(s)
    ensures Update(c, s, EditResult(i, p, Some(e)), w) == Stay(s.(message := Error(EditFailed(e))))
  {
  }

  /** An edit that leaves the payload as it was changes nothing at all, the flag and the message included. */
  lemma UnchangedEditIsNoOp(c: Codec, s: State, i: int, p: Bytes, w: World)
    requires Inv(s) && 0 <= i < Count(s) && s.env.items[i].payload == p
    ensures Update(c, s, EditResult(i, p, None), w) == Stay(s)
  {
  }

  /**
    A changed payload replaces item `i`'s payload and leaves every other
    item alone. When the header's length can be rewritten the header is
    replaced and the envelope marked modified; otherwise the header and the
    flag stay as they were and an error is shown.
   */
  lemma ChangedEdit(c: Codec, s: State, i: int, p: Bytes, w: World)
    requires Inv(s) && 0 <= i < Count(s) && s.env.items[i].payload != p
    ensures var r := Update(c, s, EditResult(i, p, None), w);
            var it, it' := s.env.items[i], r.state.env.items[i];
            var u := UpdateLength(c, it.header, |p|);
            && Count(r.state) == Count(s)
            && (forall j | 0 <= j < Count(s) && j != i :: r.state.env.items[j] == s.env.items[j])
            && it'.payload == p && it'.typ == it.typ && it'.filename == it.filename
            && r.state.selected == s.selected && r.state.mode == s.mode && r.written == None
            && (u.Success? ==>
                  && it'.header == u.value && r.state.dirty
                  && r.state.message == Info(PayloadUpdated) && r.effect == Reprint)
            && (u.Failure? ==>
                  && it'.header == it.header && r.state.dirty == s.dirty
                  && r.state.message == Error(LengthNotUpdated(u.error)) && r.effect == NoEffect)
  {
  }

  /**
    After an edit, a header that was a plain object records the new payload
    length under `length`; every other member keeps its place and holds its
    value as it comes back from `any`.
   */
  lemma EditedHeaderRecordsLength(c: Codec, s: State, i: int, p: Bytes, w: World)
    requires Lawful(c)
    requires Inv(s) && 0 <= i < Count(s) && s.env.items[i].payload != p
    requires PlainObjectHeader(c, s.env.items[i])
    ensures var r := Update(c, s, EditResult(i, p, None), w);
            var ms := c.decode(s.env.items[i].header).value.members;
            && r.state.dirty
            && c.decode(r.state.env.items[i].header) ==
                 Some(Object(Set(ThroughAny(c, ms).value, "length", Int(|p|))))
  {
    var ms := c.decode(s.env.items[i].header).value.members;
    UpdateLengthDecodes(c, s.env.items[i].header, ms, |p|);
    ChangedEdit(c, s, i, p, w);
  }

  // ---------------------------------------------------------------------
  // Modes
  // ---------------------------------------------------------------------

  /** The mode after a key press. */
  function NextMode(s: State, k: Key, w: World): Mode {
    match s.mode
    case ListMode =>
      if k == KeyA then InputMode
      else if k == KeyX && Count(s) > 0 then ExportMode
      else if (k == KeyQ || k == CtrlC) && s.dirty then ConfirmQuitMode
      else ListMode
    case InputMode => if k == Esc || w.picked.Some? then ListMode else InputMode
    case ExportMode => if k == Enter || k == Esc then ListMode else ExportMode
    case ConfirmQuitMode => if k == KeyY then ConfirmQuitMode else ListMode
  }

  /**
    Every key press follows the mode table, and any message left on the
    screen afterwards was produced by that key: deleting or saving in the
    list, confirming an export, or a file chosen in the picker.
   */
  lemma KeyPressTransitions(c: Codec, s: State, k: Key, w: World)
    requires Inv(s)
    ensures var r := Press(c, s, k, w);
            && r.state.mode == NextMode(s, k, w)
            && (r.state.message != NoMessage ==>
                  || (s.mode == ListMode && (k == KeyD || k == KeyW))
                  || (s.mode == ExportMode && k == Enter)
                  || (s.mode == InputMode && k != Esc && w.picked.Some?))
  {
    match s.mode
    case ListMode => ListKeyTransitions(c, s, k, w);
    case InputMode => InputKeyTransitions(c, s, k, w);
    case ExportMode => ExportKeyTransitions(c, s, k, w);
    case ConfirmQuitMode =>
  }

  lemma InputKeyTransitions(c: Codec, s: State, k: Key, w: World)
    requires Inv(s) && s.mode == InputMode
    ensures var r := Press(c, s, k, w);
            && r.state.mode == NextMode(s, k, w)
            && (r.state.message != NoMessage ==> k != Esc && w.picked.Some?)
  {
    if k != Esc {
      assert Press(c, s, k, w) == UpdatePicker(c, s.(message := NoMessage), w);
    }
  }

  lemma ExportKeyTransitions(c: Codec, s: State, k: Key, w: World)
    requires Inv(s) && s.mode == ExportMode
    ensures var r := Press(c, s, k, w);
            && r.state.mode == NextMode(s, k, w)
            && (r.state.message != NoMessage ==> k == Enter)
  {
    assert Press(c, s, k, w) == UpdateExport(s.(message := NoMessage), k, w);
  }

  lemma ListKeyTransitions(c: Codec, s: State, k: Key, w: World)
    requires Inv(s) && s.mode == ListMode
    ensures var r := Press(c, s, k, w);
            && r.state.mode == NextMode(s, k, w)
            && (r.state.message != NoMessage ==> k == KeyD || k == KeyW)
  {
    var s' := s.(message := NoMessage);
    assert Press(c, s, k, w) == UpdateList(c, s', k, w);
    if k == KeyW && s.dirty {
      assert Press(c, s, k, w) == Save(c, s', w);
    }
  }

  /** The editor is started only by e in list mode, on the selected item, when its payload is text. */
  lemma EditorOnlyForText(c: Codec, s: State, ev: Event, w: World)
    requires Inv(s)
    requires ev.EditResult? && ev.err.None? ==> 0 <= ev.index < Count(s)
    ensures var r := Update(c, s, ev, w);
            && (r.effect.EditInEditor? <==>
                  ev == KeyPress(KeyE) && s.mode == ListMode && Count(s) > 0
                  && !Binary(s.env.items[s.selected].payload))
            && (r.effect.EditInEditor? ==> r.effect.index == s.selected)
  {
    match ev
    case KeyPress(k) =>
      if s.mode == ListMode && k == KeyW && s.dirty {
        assert Update(c, s, ev, w) == Save(c, s.(message := NoMessage), w);
      }
    case EditResult(i, p, err) =>
      if err.None? {
        assert Update(c, s, ev, w) == ApplyEdit(c, s, i, p);
      }
    case _ =>
  }

  /** The pager is started only by enter in list mode on a non-empty list, on the selected item. */
  lemma PagerOnlyForItems(c: Codec, s: State, ev: Event, w: World)
    requires Inv(s)
    requires ev.EditResult? && ev.err.None? ==> 0 <= ev.index < Count(s)
    ensures var r := Update(c, s, ev, w);
            && (r.effect.ViewInPager? <==> ev == KeyPress(Enter) && s.mode == ListMode && Count(s) > 0)
            && (r.effect.ViewInPager? ==> r.effect.index == s.selected)
  {
    match ev
    case KeyPress(k) =>
      if s.mode == ListMode && k == KeyW && s.dirty {
        assert Update(c, s, ev, w) == Save(c, s.(message := NoMessage), w);
      }
    case EditResult(i, p, err) =>
      if err.None? {
        assert Update(c, s, ev, w) == ApplyEdit(c, s, i, p);
      }
    case _ =>
  }

  // ---------------------------------------------------------------------
  // Export
  // ---------------------------------------------------------------------

  /** x on a non-empty list enters export mode with the default name for the selected item. */
  lemma ExportStarts(c: Codec, s: State, w: World)
    requires Inv(s) && s.mode == ListMode && Count(s) > 0
    ensures var r := Press(c, s, KeyX, w);
            && r.state.mode == ExportMode && r.effect == FocusExport
            && r.state.exportName == DefaultExportFilename(c, s.env.items[s.selected])
            && r.state.exportName != ""
  {
  }

  /**
    Enter in export mode writes the selected payload under the typed name,
    unless the name is empty; either way it returns to the list with the
    envelope unchanged.
   */
  lemma ExportConfirmed(c: Codec, s: State, w: World)
    requires Inv(s) && s.mode == ExportMode
    ensures var r := Press(c, s, Enter, w);
            && r.state.mode == ListMode && r.state.env == s.env && r.state.dirty == s.dirty
            && (s.exportName == "" ==> r.written == None && r.state.message == NoMessage)
            && (s.exportName != "" && w.exportWrite.None? ==>
                  r.written == Some(FileWrite(s.exportName, s.env.items[s.selected].payload))
                  && r.state.message == Info(Exported(s.exportName)))
            && (s.exportName != "" && w.exportWrite.Some? ==>
                  r.written == None && r.state.message == Error(ExportFailed(w.exportWrite.value)))
  {
  }

  /** The default export names from the viewer's tests, given a codec that accepts `{}` and rejects a NUL byte. */
  lemma ExportNameExamples(c: Codec, h: Bytes, data: Bytes, obj: Bytes, nul: Bytes)
    requires c.decode(obj).Some? && c.decode(nul).None?
    ensures DefaultExportFilename(c, Item(h, data, "attachment", "crash.txt")) == "crash.txt"
    ensures DefaultExportFilename(c, Item(h, obj, "event", "")) == "event.json"
    ensures DefaultExportFilename(c, Item(h, nul, "event", "")) == "event.bin"
    ensures DefaultExportFilename(c, Item(h, obj, "", "")) == "item.json"
  {
  }

  // ---------------------------------------------------------------------
  // Attachments
  // ---------------------------------------------------------------------

  /**
    A file chosen in the picker is appended as an attachment item whose
    header names its type, length and filename; a file that cannot be read
    leaves the envelope as it was. Either way the list is shown again.
   */
  lemma AttachmentAdded(c: Codec, s: State, pick: Pick, w: World)
    requires Inv(s) && s.mode == InputMode && w.picked == Some(pick)
    ensures var r := Update(c, s, PickerMsg, w);
            && r.state.mode == ListMode
            && (pick.contents.Failure? ==>
                  r.state.env == s.env && r.state.dirty == s.dirty
                  && r.state.message == Error(AttachFailed(pick.contents.error)))
            && (pick.contents.Success? ==>
                  var data := pick.contents.value;
                  && r.state.env.items[..Count(s)] == s.env.items
                  && Count(r.state) == Count(s) + 1
                  && r.state.env.items[Count(s)] ==
                       Item(c.marshal(Object(AttachmentHeader(data, pick.base, pick.contentType))),
                            data, "attachment", pick.base)
                  && r.state.dirty && r.state.message == Info(Added(pick.base)) && r.effect == Reprint)
  {
  }

  /** The attachment header reads back as type "attachment", the data's length and the file's base name. */
  lemma AttachmentHeaderFields(data: Bytes, base: string, contentType: string)
    requires |data| <= MaxInt64
    ensures DistinctKeys(AttachmentHeader(data, base, contentType))
    ensures DecodeMembers(AttachmentHeader(data, base, contentType))
              == Success(ItemFields("attachment", Some(|data|), base))
  {
    var ms := AttachmentHeader(data, base, contentType);
    var three := [("type", Str("attachment")), ("length", Int(|data|)), ("filename", Str(base))];
    assert IsTypeKey("type") && IsLengthKey("length") && IsFilenameKey("filename");
    assert three[..2] == [("type", Str("attachment")), ("length", Int(|data|))];
    assert three[..2][..1] == [("type", Str("attachment"))];
    assert three[..2][..1][..0] == [];
    assert DecodeMembers(three[..2][..1]) == Success(ItemFields("attachment", None, ""));
    assert DecodeMembers(three[..2]) == Success(ItemFields("attachment", Some(|data|), ""));
    assert DecodeMembers(three) == Success(ItemFields("attachment", Some(|data|), base));
    if contentType != "" {
      assert ms[..3] == three;
    } else {
      assert ms == three;
    }
  }

  /** The item added for an attachment is one the serializer can write and the parser read back. */
  lemma AttachmentIsRewritable(c: Codec, data: Bytes, base: string, contentType: string)
    requires Lawful(c)
    requires |data| <= MaxInt64
    ensures var it := Item(c.marshal(Object(AttachmentHeader(data, base, contentType))), data, "attachment", base);
            Rewritable(c, it)
  {
    var ms := AttachmentHeader(data, base, contentType);
    MarshalFacts(c, Object(ms));
    AttachmentHeaderFields(data, base, contentType);
    AnyFacts(c, Str("attachment"));
    AnyFacts(c, Int(|data|));
    AnyFacts(c, Str(base));
    AnyFacts(c, Str(contentType));
    assert FieldValuesStable(c, ms);
  }

  // ---------------------------------------------------------------------
  // Saving stays possible
  // ---------------------------------------------------------------------

  /** Every item can be written and read back, so a save reopens with the same items. */
  predicate Savable(c: Codec, s: State) {
    Parsed(c, s.env) && forall i | 0 <= i < Count(s) :: Rewritable(c, s.env.items[i])
  }

  lemma DeleteKeepsSavable(c: Codec, s: State)
    requires Inv(s) && s.mode == ListMode && Count(s) > 0 && Savable(c, s)
    ensures Savable(c, Delete(s))
  {
    var r, i := Delete(s), s.selected;
    assert forall j | 0 <= j < Count(r) :: r.env.items[j] == s.env.items[if j < i then j else j + 1];
  }

  lemma PickerKeepsSavable(c: Codec, s: State, w: World)
    requires Lawful(c)
    requires Inv(s) && s.mode == InputMode && Savable(c, s)
    requires w.picked.Some? && w.picked.value.contents.Success? ==> |w.picked.value.contents.value| <= MaxInt64
    ensures Savable(c, UpdatePicker(c, s, w).state)
  {
    if w.picked.Some? && w.picked.value.contents.Success? {
      var pick := w.picked.value;
      var r := UpdatePicker(c, s, w).state;
      AttachmentIsRewritable(c, pick.contents.value, pick.base, pick.contentType);
      assert forall j | 0 <= j < Count(s) :: r.env.items[j] == s.env.items[j];
    }
  }

  /**
    Key presses, window resizes and picker messages keep the envelope
    savable, provided attached files fit the 64-bit length field.
   */
  lemma KeyPressKeepsSavable(c: Codec, s: State, ev: Event, w: World)
    requires Lawful(c)
    requires Inv(s) && Savable(c, s)
    requires !ev.EditResult?
    requires w.picked.Some? && w.picked.value.contents.Success? ==> |w.picked.value.contents.value| <= MaxInt64
    ensures Savable(c, Update(c, s, ev, w).state)
  {
    match ev
    case KeyPress(k) =>
      OneKeyKeepsSavable(c, s, k, w);
    case WindowSize(width, _) =>
      if s.mode == InputMode {
        PickerKeepsSavable(c, s.(width := width), w);
      }
    case PickerMsg =>
      if s.mode == InputMode {
        PickerKeepsSavable(c, s, w);
      }
  }

  lemma OneKeyKeepsSavable(c: Codec, s: State, k: Key, w: World)
    requires Lawful(c)
    requires Inv(s) && Savable(c, s)
    requires w.picked.Some? && w.picked.value.contents.Success? ==> |w.picked.value.contents.value| <= MaxInt64
    ensures Savable(c, Press(c, s, k, w).state)
  {
    var r := Press(c, s, k, w);
    var s' := s.(message := NoMessage);
    if s.mode == ListMode && k == KeyD && Count(s) > 0 {
      assert r.state == Delete(s');
      DeleteKeepsSavable(c, s');
    } else if s.mode == ListMode && k == KeyW && s.dirty {
      assert r == Save(c, s', w);
      assert r.state.env == s.env;
    } else if s.mode == InputMode && k != Esc {
      assert r == UpdatePicker(c, s', w);
      PickerKeepsSavable(c, s', w);
    } else {
      assert r.state.env == s.env;
    }
  }
}
