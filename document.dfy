/**
 * The editor session as a value: the text buffer, the file it is tied to (if
 * any), the unsaved-changes flag, and the file system the session reads and
 * writes. Every user decision and every I/O outcome is an explicit argument.
 * The functions here specify the operations of Notepad; the lemmas state what
 * they promise, above all that New, Open and Exit never discard unsaved text
 * after the user asked to save it.
 */
module Document {
  import opened Wrappers
  import opened FileNames
  import opened Lines

  /** The answer to the "unsaved changes" dialog: its three buttons, or the dialog closed. */
  datatype Answer = Yes | No | Cancel | Closed

  datatype State = State(buffer: string, currentFile: Option<Path>, changed: bool, files: map<Path, string>)

  /** What the unsaved-changes check decides, and the session it leaves behind. */
  datatype Confirmation = Confirmation(proceed: bool, after: State)

  /**
   * How an attempt to save ends. Saving creates or truncates the file, hands
   * the text to a buffered writer, clears the changed flag, and closes the
   * writer, which flushes what is still buffered. Each of the three I/O steps
   * can fail; `flushed` is how many characters had reached the file by then.
   */
  datatype WriteOutcome = OpenFailed | WriteFailed(flushed: nat) | CloseFailed(flushed: nat) | Written
  {
    /** The save got past writing the text, to the statement that clears the flag. */
    predicate ClearsFlag()
    {
      CloseFailed? || Written?
    }
  }

  /** The first n characters of text, or all of it. */
  function Prefix(text: string, n: nat): (r: string)
    ensures r <= text
    ensures |r| == if n < |text| then n else |text|
  {
    if n < |text| then text[..n] else text
  }

  /** The file system after an attempt to write text to path. */
  function FilesAfterWrite(files: map<Path, string>, path: Path, text: string, outcome: WriteOutcome): (r: map<Path, string>)
    ensures outcome.OpenFailed? ==> r == files
    ensures !outcome.OpenFailed? ==> path in r && r[path] <= text
    ensures outcome.Written? ==> r[path] == text
    ensures forall q :: q in files && q != path ==> q in r && r[q] == files[q]
    ensures forall q :: q in r && q != path ==> q in files
  {
    match outcome
    case OpenFailed => files
    case WriteFailed(n) => files[path := Prefix(text, n)]
    case CloseFailed(n) => files[path := Prefix(text, n)]
    case Written => files[path := text]
  }

  /** The session at start-up: empty, untitled, unchanged. */
  function Initial(files: map<Path, string>): (s: State)
    ensures s.buffer == [] && s.currentFile.None? && !s.changed && s.files == files
  {
    State([], None, false, files)
  }

  // ---------------------------------------------------------------------------
  // The document listener: every insert, remove or attribute change marks the
  // session changed.

  function Edited(s: State, text: string): State
  {
    s.(buffer := text, changed := true)
  }

  /** Inserting text; the document fires no event for an empty insertion. */
  function Insert(s: State, pos: nat, text: string): (r: State)
    requires pos <= |s.buffer|
    ensures |r.buffer| == |s.buffer| + |text|
    ensures r.changed == (s.changed || text != [])
    ensures r.currentFile == s.currentFile && r.files == s.files
  {
    if text == [] then s else Edited(s, s.buffer[..pos] + text + s.buffer[pos..])
  }

  /** Removing len characters at pos; the document fires no event when len is zero. */
  function Remove(s: State, pos: nat, len: nat): (r: State)
    requires pos + len <= |s.buffer|
    ensures |r.buffer| == |s.buffer| - len
    ensures r.changed == (s.changed || len != 0)
    ensures r.currentFile == s.currentFile && r.files == s.files
  {
    if len == 0 then s else Edited(s, s.buffer[..pos] + s.buffer[pos + len..])
  }

  /** An attribute change: the text stays, the listener still fires. */
  function ChangeAttributes(s: State): (r: State)
    ensures r.changed && r.buffer == s.buffer
    ensures r.currentFile == s.currentFile && r.files == s.files
  {
    Edited(s, s.buffer)
  }

  /** Replacing the whole text, as the text area does it: remove everything, then insert. */
  function SetText(s: State, text: string): (r: State)
    ensures r.buffer == text
    ensures r.currentFile == s.currentFile && r.files == s.files
  {
    Insert(Remove(s, 0, |s.buffer|), 0, text)
  }

  // ---------------------------------------------------------------------------
  // Save and Save As.

  /** The file Save writes to: the current file, else the Save As choice with its default extension. */
  function SaveTarget(currentFile: Option<Path>, chooser: Option<Path>): (t: Option<Path>)
    ensures t.None? <==> currentFile.None? && chooser.None?
    ensures currentFile.Some? ==> t == currentFile
    ensures t.Some? && currentFile.None? ==> '.' in BaseName(t.value)
  {
    if currentFile.Some? then currentFile
    else if chooser.Some? then DefaultExtRule(chooser.value); Some(WithDefaultExt(chooser.value))
    else None
  }

  /**
   * Writing the buffer to the current file. The flag is cleared once the text
   * has been handed to the writer, before the writer is closed, so a failure
   * while closing leaves it cleared.
   */
  function WriteBuffer(s: State, outcome: WriteOutcome): (r: State)
    requires s.currentFile.Some?
    ensures r.buffer == s.buffer && r.currentFile == s.currentFile
    ensures r.changed == (s.changed && !outcome.ClearsFlag())
    ensures outcome.Written? ==> s.currentFile.value in r.files && r.files[s.currentFile.value] == s.buffer
  {
    var r := s.(files := FilesAfterWrite(s.files, s.currentFile.value, s.buffer, outcome));
    if outcome.ClearsFlag() then r.(changed := false) else r
  }

  /** Save: write to the current file, or go through Save As when there is none. */
  function Save(s: State, chooser: Option<Path>, outcome: WriteOutcome): (r: State)
    ensures r.buffer == s.buffer
    ensures r.currentFile == SaveTarget(s.currentFile, chooser)
    decreases if s.currentFile.None? then 2 else 0
  {
    if s.currentFile.None? then SaveAs(s, chooser, outcome) else WriteBuffer(s, outcome)
  }

  /** Save As: retarget the session to the chosen file first, then save. */
  function SaveAs(s: State, chooser: Option<Path>, outcome: WriteOutcome): (r: State)
    ensures r.buffer == s.buffer
    ensures chooser.None? ==> r == s
    ensures chooser.Some? ==> r.currentFile == Some(WithDefaultExt(chooser.value))
    decreases 1
  {
    match chooser
    case None => s
    case Some(p) => Save(s.(currentFile := Some(WithDefaultExt(p))), chooser, outcome)
  }

  // ---------------------------------------------------------------------------
  // The unsaved-changes check and the three actions that pass through it.

  /** The check goes ahead exactly when the flag is clear afterwards, or the user chose to discard. */
  function Confirm(s: State, answer: Answer, chooser: Option<Path>, outcome: WriteOutcome): (c: Confirmation)
    ensures c.after.buffer == s.buffer
    ensures c.proceed <==> !c.after.changed || (s.changed && answer == No)
  {
    if !s.changed then Confirmation(true, s)
    else if answer == Cancel || answer == Closed then Confirmation(false, s)
    else if answer == Yes then
      var t := Save(s, chooser, outcome);
      Confirmation(!t.changed, t)
    else assert answer == No; Confirmation(true, s)
  }

  /** New: either an empty, untitled, clean session, or the old text still marked changed. */
  function NewFile(s: State, answer: Answer, chooser: Option<Path>, outcome: WriteOutcome): (r: State)
    ensures (r.buffer == [] && r.currentFile.None? && !r.changed) || (r.buffer == s.buffer && r.changed)
  {
    var c := Confirm(s, answer, chooser, outcome);
    if !c.proceed then c.after
    else SetText(c.after, []).(currentFile := None, changed := false)
  }

  /** Open: confirm, choose a file, read it, and load its lines joined by the host separator. */
  function OpenFile(s: State, answer: Answer, saveChooser: Option<Path>, outcome: WriteOutcome,
                    openChooser: Option<Path>, readOk: bool, sep: string): (r: State)
    ensures r.buffer == s.buffer || (r.currentFile == openChooser && !r.changed)
  {
    var c := Confirm(s, answer, saveChooser, outcome);
    if !c.proceed || openChooser.None? then c.after
    else
      var f := openChooser.value;
      if readOk && f in c.after.files then
        SetText(c.after, LoadText(c.after.files[f], sep)).(currentFile := Some(f), changed := false)
      else c.after
  }

  // ---------------------------------------------------------------------------
  // Properties.

  /**
   * Any insertion, removal or attribute change that the document reports sets
   * the changed flag, gives the expected text, and leaves the current file and
   * the file system alone.
   */
  lemma EditsMarkChanged(s: State, pos: nat, text: string, len: nat)
    requires pos + len <= |s.buffer|
    ensures text != [] ==> var r := Insert(s, pos, text);
      r.changed && r.currentFile == s.currentFile && r.files == s.files &&
      r.buffer[..pos] == s.buffer[..pos] && r.buffer[pos..pos + |text|] == text &&
      r.buffer[pos + |text|..] == s.buffer[pos..]
    ensures len > 0 ==> var r := Remove(s, pos, len);
      r.changed && r.currentFile == s.currentFile && r.files == s.files &&
      |r.buffer| == |s.buffer| - len &&
      r.buffer[..pos] == s.buffer[..pos] && r.buffer[pos..] == s.buffer[pos + len..]
    ensures var r := ChangeAttributes(s);
      r.changed && r.buffer == s.buffer && r.currentFile == s.currentFile && r.files == s.files
  {

  }

  /**
   * Replacing the text leaves exactly the new text; it fires the listener
   * unless the old and the new text are both empty.
   */
  lemma SetTextReplaces(s: State, text: string)
    ensures var r := SetText(s, text);
      r.buffer == text && r.currentFile == s.currentFile && r.files == s.files &&
      r.changed == (s.changed || s.buffer != [] || text != [])
  {

  }

  /**
   * Save writes the buffer to its target. The flag is cleared exactly when the
   * save reached the end of writing, including when closing then fails. A
   * failure while creating or writing the file, or a cancelled chooser, leaves
   * the flag alone. The session is tied to the target even when the write fails.
   */
  lemma SaveEffect(s: State, chooser: Option<Path>, outcome: WriteOutcome)
    ensures var r := Save(s, chooser, outcome); var t := SaveTarget(s.currentFile, chooser);
      r.buffer == s.buffer && r.currentFile == t &&
      r.files == (if t.Some? then FilesAfterWrite(s.files, t.value, s.buffer, outcome) else s.files) &&
      r.changed == (s.changed && !(t.Some? && outcome.ClearsFlag())) &&
      (t.Some? && outcome.Written? ==> t.value in r.files && r.files[t.value] == s.buffer)
  {
    if s.currentFile.None? && chooser.Some? {
      var retargeted := s.(currentFile := Some(WithDefaultExt(chooser.value)));
      assert Save(s, chooser, outcome) == Save(retargeted, chooser, outcome);
      assert Save(retargeted, chooser, outcome) == WriteBuffer(retargeted, outcome);
    }
  }

  /**
   * Save As always retargets the session when a file is chosen, adding ".txt"
   * to a name without a dot, whether or not the write then succeeds.
   */
  lemma SaveAsEffect(s: State, chooser: Option<Path>, outcome: WriteOutcome)
    ensures chooser.None? ==> SaveAs(s, chooser, outcome) == s
    ensures chooser.Some? ==> var r := SaveAs(s, chooser, outcome); var f := WithDefaultExt(chooser.value);
      r.buffer == s.buffer && r.currentFile == Some(f) && '.' in BaseName(f) &&
      r.files == FilesAfterWrite(s.files, f, s.buffer, outcome) &&
      r.changed == (s.changed && !outcome.ClearsFlag())
  {
    if chooser.Some? {
      DefaultExtRule(chooser.value);
    }
  }

  /** A session without unsaved changes proceeds at once, whatever the user would answer. */
  lemma ConfirmWhenUnchanged(s: State, answer: Answer, chooser: Option<Path>, outcome: WriteOutcome)
    requires !s.changed
    ensures Confirm(s, answer, chooser, outcome) == Confirmation(true, s)
  {
  }

  /** Cancelling or closing the dialog stops the action and changes nothing. */
  lemma ConfirmWhenCancelled(s: State, answer: Answer, chooser: Option<Path>, outcome: WriteOutcome)
    requires s.changed && (answer == Cancel || answer == Closed)
    ensures Confirm(s, answer, chooser, outcome) == Confirmation(false, s)
  {
  }

  /** Answering No discards nothing yet: the action proceeds and the session is untouched. */
  lemma ConfirmWhenDiscarded(s: State, chooser: Option<Path>, outcome: WriteOutcome)
    requires s.changed
    ensures Confirm(s, No, chooser, outcome) == Confirmation(true, s)
  {
  }

  /**
   * Answering Yes proceeds exactly when the changed flag ended up cleared, that
   * is, when the save had a target and got past writing the text. A failure
   * while creating or writing the file, or a Save As chooser cancelled on an
   * untitled document, stops the action; a failure while closing does not.
   */
  lemma ConfirmWhenSaving(s: State, chooser: Option<Path>, outcome: WriteOutcome)
    requires s.changed
    ensures var c := Confirm(s, Yes, chooser, outcome); var t := SaveTarget(s.currentFile, chooser);
      c.proceed == !c.after.changed &&
      (c.proceed <==> t.Some? && outcome.ClearsFlag()) &&
      c.after.buffer == s.buffer && c.after.currentFile == t &&
      c.after.files == (if t.Some? then FilesAfterWrite(s.files, t.value, s.buffer, outcome) else s.files)
  {
    SaveEffect(s, chooser, outcome);
  }

  /**
   * The safety rule as the code keeps it: when the text has unsaved changes and
   * the user did not answer No, the check either stops with the text still in
   * the buffer and still marked changed, or goes ahead with the text stored in
   * the session's file, unless closing the writer failed.
   */
  lemma ConfirmKeepsUnsavedText(s: State, answer: Answer, chooser: Option<Path>, outcome: WriteOutcome)
    requires s.changed && answer != No
    ensures var c := Confirm(s, answer, chooser, outcome);
      (c.proceed && !outcome.CloseFailed? ==>
        c.after.currentFile.Some? && c.after.currentFile.value in c.after.files &&
        c.after.files[c.after.currentFile.value] == s.buffer) &&
      (!c.proceed ==> c.after.buffer == s.buffer && c.after.changed)
  {
    if answer == Yes {
      ConfirmWhenSaving(s, chooser, outcome);
    }
  }

  /**
   * New: once the check lets it proceed the session is empty, untitled and
   * unchanged, with the files as the check left them. When it is stopped the
   * text and the flag are kept; only an attempted Save As can have retargeted
   * it, and only a save that failed while writing can have changed a file.
   */
  lemma NewFileEffect(s: State, answer: Answer, chooser: Option<Path>, outcome: WriteOutcome)
    ensures var c := Confirm(s, answer, chooser, outcome); var r := NewFile(s, answer, chooser, outcome);
      (c.proceed ==> r == State([], None, false, c.after.files)) &&
      (!c.proceed ==> (r == c.after && r.buffer == s.buffer && r.changed &&
                       (r.currentFile != s.currentFile ==> answer == Yes && s.currentFile.None? && chooser.Some?) &&
                       (r.files != s.files ==> answer == Yes && outcome.WriteFailed?)))
  {
    var c := Confirm(s, answer, chooser, outcome);
    SetTextReplaces(c.after, []);
    if s.changed && answer == Yes {
      ConfirmWhenSaving(s, chooser, outcome);
    }
  }

  /**
   * Open: after a successful read the buffer is the file's lines, each followed
   * by the separator, the session is tied to the chosen file and unchanged. A
   * cancelled chooser or a failed read leaves the session as the check left it.
   */
  lemma OpenFileEffect(s: State, answer: Answer, saveChooser: Option<Path>, outcome: WriteOutcome,
                       openChooser: Option<Path>, readOk: bool, sep: string)
    ensures var c := Confirm(s, answer, saveChooser, outcome);
      var r := OpenFile(s, answer, saveChooser, outcome, openChooser, readOk, sep);
      if c.proceed && openChooser.Some? && readOk && openChooser.value in c.after.files then
        r == State(JoinLines(ReadLines(c.after.files[openChooser.value]), sep), openChooser, false, c.after.files)
      else r == c.after
  {

  }

  /**
   * The safety rule for New and Open as the code keeps it: unless the user
   * answered No or closing the writer failed, text with unsaved changes is
   * never lost. It is either still in the buffer and marked changed, or it is
   * stored in the file system.
   */
  lemma DestructiveActionsKeepUnsavedText(s: State, answer: Answer, chooser: Option<Path>, outcome: WriteOutcome,
                                         openChooser: Option<Path>, readOk: bool, sep: string)
    requires s.changed && answer != No
    ensures var r := NewFile(s, answer, chooser, outcome);
      (r.buffer == s.buffer && r.changed) || s.buffer in r.files.Values || outcome.CloseFailed?
    ensures var r := OpenFile(s, answer, chooser, outcome, openChooser, readOk, sep);
      (r.buffer == s.buffer && r.changed) || s.buffer in r.files.Values || outcome.CloseFailed?
  {
    ConfirmKeepsUnsavedText(s, answer, chooser, outcome);
    NewFileEffect(s, answer, chooser, outcome);
    OpenFileEffect(s, answer, chooser, outcome, openChooser, readOk, sep);
    var c := Confirm(s, answer, chooser, outcome);
    if c.proceed && !outcome.CloseFailed? {
      var p := c.after.currentFile.value;
      assert c.after.files[p] == s.buffer;
    }
  }

  /**
   * Saving to a file and opening it again gives back the buffer's lines, with
   * every line now ended by the host separator; a second save and open
   * changes nothing more.
   */
  lemma SaveThenOpen(s: State, f: Path, chooser: Option<Path>, answer: Answer, outcome: WriteOutcome, sep: string)
    requires s.currentFile == Some(f) && IsLineEnding(sep)
    ensures var r := OpenFile(Save(s, chooser, Written), answer, chooser, outcome, Some(f), true, sep);
      r.buffer == LoadText(s.buffer, sep) && ReadLines(r.buffer) == ReadLines(s.buffer) &&
      LoadText(r.buffer, sep) == r.buffer && r.currentFile == Some(f) && !r.changed
  {
    var saved := Save(s, chooser, Written);
    SaveEffect(s, chooser, Written);
    ConfirmWhenUnchanged(saved, answer, chooser, outcome);
    OpenFileEffect(saved, answer, chooser, outcome, Some(f), true, sep);
    LoadIdempotent(s.buffer, sep);
  }

  /**
   * An untitled, changed buffer "hello" saved under the name "notes" lands in
   * "notes.txt" in the same directory, and the session is clean afterwards.
   */
  lemma SaveUntitledExample(files: map<Path, string>)
    ensures var r := Save(State("hello", None, true, files), Some("/home/user/notes"), Written);
      r.currentFile == Some("/home/user/notes.txt") && "/home/user/notes.txt" in r.files &&
      r.files["/home/user/notes.txt"] == "hello" && !r.changed
  {
    var p: Path := "/home/user/notes";
    assert BaseName(p) == "notes" by {
      assert p == "/home/user/" + "notes";
      BaseNameAppend("/home/user/", "notes");
    }
    assert '.' !in "notes";
    assert WithDefaultExt(p) == "/home/user/notes.txt";
    SaveEffect(State("hello", None, true, files), Some(p), Written);
  }

  // ---------------------------------------------------------------------------
  // The flag cleared before the writer is closed.

  /**
   * A changed "hello" saved on the way to New, where creating the file works
   * but flushing it at close fails: the check goes ahead, New empties the
   * buffer, and the file holds nothing. The text is gone and no prompt remains.
   */
  lemma FailedCloseLosesText()
    ensures var s := State("hello", Some("/home/user/notes.txt"), true, map[]);
      var c := Confirm(s, Yes, None, CloseFailed(0));
      var r := NewFile(s, Yes, None, CloseFailed(0));
      c.proceed && c.after.files == map["/home/user/notes.txt" := ""] &&
      r.buffer == [] && !r.changed && "hello" !in r.files.Values
  {
    var s := State("hello", Some("/home/user/notes.txt"), true, map[]);
    SaveEffect(s, None, CloseFailed(0));
    NewFileEffect(s, Yes, None, CloseFailed(0));
    assert Prefix("hello", 0) == "";
    var r := NewFile(s, Yes, None, CloseFailed(0));
    assert r.files == map["/home/user/notes.txt" := ""];
    assert forall v :: v in r.files.Values ==> v == "" by {
      forall v | v in r.files.Values ensures v == "" {
        var k :| k in r.files && r.files[k] == v;
      }
    }
    assert "hello" != "";
  }

  /**
   * The evident intent: clear the flag only after the writer has been closed.
   * A failure while closing then counts as a failed write: the same characters
   * reach the file, and the flag stays set.
   */
  function FlagAfterClose(outcome: WriteOutcome): (r: WriteOutcome)
    ensures r.ClearsFlag() <==> outcome.Written?
    ensures r.OpenFailed? == outcome.OpenFailed? && r.Written? == outcome.Written?
  {
    match outcome
    case CloseFailed(n) => WriteFailed(n)
    case _ => outcome
  }

  /** The unsaved-changes check with the flag cleared after close. */
  function ConfirmCorrected(s: State, answer: Answer, chooser: Option<Path>, outcome: WriteOutcome): Confirmation
  {
    Confirm(s, answer, chooser, FlagAfterClose(outcome))
  }

  /** New with the flag cleared after close. */
  function NewFileCorrected(s: State, answer: Answer, chooser: Option<Path>, outcome: WriteOutcome): State
  {
    NewFile(s, answer, chooser, FlagAfterClose(outcome))
  }

  /** Open with the flag cleared after close. */
  function OpenFileCorrected(s: State, answer: Answer, saveChooser: Option<Path>, outcome: WriteOutcome,
                             openChooser: Option<Path>, readOk: bool, sep: string): (r: State)
    ensures r.buffer == s.buffer || (r.currentFile == openChooser && !r.changed)
  {
    OpenFile(s, answer, saveChooser, FlagAfterClose(outcome), openChooser, readOk, sep)
  }

  /**
   * With the correction the file system sees the same writes, and the check
   * answering Yes goes ahead exactly when the whole buffer was written.
   */
  lemma CorrectedConfirmWhenSaving(s: State, chooser: Option<Path>, outcome: WriteOutcome)
    requires s.changed
    ensures var c := ConfirmCorrected(s, Yes, chooser, outcome); var t := SaveTarget(s.currentFile, chooser);
      c.after.files == (if t.Some? then FilesAfterWrite(s.files, t.value, s.buffer, outcome) else s.files) &&
      (c.proceed <==> t.Some? && outcome.Written?) &&
      (c.proceed ==> t.value in c.after.files && c.after.files[t.value] == s.buffer)
  {
    ConfirmWhenSaving(s, chooser, FlagAfterClose(outcome));
    var t := SaveTarget(s.currentFile, chooser);
    if t.Some? {
      assert FilesAfterWrite(s.files, t.value, s.buffer, FlagAfterClose(outcome)) ==
             FilesAfterWrite(s.files, t.value, s.buffer, outcome);
    }
  }

  /**
   * The safety rule holds with the correction, for every way a save can end:
   * unless the user answered No, the check, New and Open never lose text with
   * unsaved changes, and Exit goes ahead only with the text stored in the
   * session's file.
   */
  lemma CorrectedActionsKeepUnsavedText(s: State, answer: Answer, chooser: Option<Path>, outcome: WriteOutcome,
                                        openChooser: Option<Path>, readOk: bool, sep: string)
    requires s.changed && answer != No
    ensures var c := ConfirmCorrected(s, answer, chooser, outcome);
      (c.proceed ==> c.after.currentFile.Some? && c.after.currentFile.value in c.after.files &&
                     c.after.files[c.after.currentFile.value] == s.buffer) &&
      (!c.proceed ==> c.after.buffer == s.buffer && c.after.changed)
    ensures var r := NewFileCorrected(s, answer, chooser, outcome);
      (r.buffer == s.buffer && r.changed) || s.buffer in r.files.Values
    ensures var r := OpenFileCorrected(s, answer, chooser, outcome, openChooser, readOk, sep);
      (r.buffer == s.buffer && r.changed) || s.buffer in r.files.Values
  {
    DestructiveActionsKeepUnsavedText(s, answer, chooser, FlagAfterClose(outcome), openChooser, readOk, sep);
    ConfirmKeepsUnsavedText(s, answer, chooser, FlagAfterClose(outcome));
  }
}
