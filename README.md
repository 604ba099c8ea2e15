# Notepad document session, modelled in Dafny

This project models the one piece of logic in the Swing Notepad editor. That piece is the
document session and its unsaved-changes check. The session is three things:

- the text in the text area (the buffer);
- `currentFile`, null until a file is opened or saved;
- the `changed` flag, set by the document listener on every edit.

The File menu actions New, Open, Save, Save As and Exit move this state. New, Open and Exit
first pass through `confirmSaveIfNeeded`. Its safety rule is that a destructive action does not
go ahead when the user chose to save and the save did not happen.

Files:

- `wrappers.dfy`: `Option`, which stands in for a Java reference that may be null.
- `file_names.dfy`: the last name component of a path, and the rule that gives a name without a
  dot the default extension `.txt`.
- `lines.dfy`: Java's `BufferedReader.readLine` as a pure function. It splits at `\n`, `\r` or
  `\r\n`, drops the ending, and yields no empty line at end of input. The file also holds the
  loop that joins the lines with the host separator, and the round-trip lemmas.
- `document.dfy`: the session as a value (`Document.State`: buffer, current file, flag and the file
  system). Each operation is a function, and lemmas state what the operations promise.
- `notepad.dfy`: the program's own form. `Notepad.Session` is a class whose fields the methods
  update in place, and `Notepad.Disk` is the file system (a map from paths to contents). Each
  `Session` method for an edit or a menu action ensures that the new `Snapshot()` equals the
  `Document` function applied to the old one. `DocumentChanged`, the listener itself, ensures
  only that the flag is set.

Every user or OS decision is an argument:

- the dialog answer (`Yes`, `No`, `Cancel`, or `Closed` for the dialog dismissed);
- the file chooser's result (`None` when cancelled);
- whether a read succeeds;
- how a write ends (`Document.WriteOutcome`): creating the file fails, writing the text fails,
  closing the writer fails, or everything succeeds. A failure after the file was created leaves
  the characters flushed so far.

`setText` is applied as the text area applies it. It removes the old text and inserts the new
one, and each of these fires the listener when it changes something. New and Open then clear the
flag afterwards, so the order in the source stays visible.

Points where the code's behaviour is easy to misread, and which the model follows:

- The default extension is added when the final name component contains no `.` at all. A name
  such as `notes.` or `.profile` counts as having an extension (src/Notepad.java:188).
- Save As assigns the chosen file to `currentFile` before it attempts the write. A failed write
  therefore leaves the session tied to the new file (src/Notepad.java:191-192). For the same
  reason, a New or Open that is stopped can still have its `currentFile` changed. This happens
  when the user answered Yes on an untitled document, picked a file, and the write failed
  (`Document.NewFileEffect`).
- A successful Save inside the check has already happened when the Open chooser is cancelled or
  the read fails. Open then leaves the session as the check left it, not as it was before.
- The check returns `!changed` after the save, using the flag as a stand-in for "the save
  succeeded". The flag is cleared inside the `try` block, before the writer is closed and its
  buffer flushed (src/Notepad.java:173-177). When the flush at close fails, the flag stays
  cleared and the check proceeds with the text stored nowhere. "## Findings" below gives the
  input, and the `Document` functions with the suffix `Corrected` model the evident intent.

## Model

| member | source | states |
|---|---|---|
| `FileNames.BaseName` | src/Notepad.java:188 | the name of a path (`getName`) is never longer than the path; `BaseNameIsLastComponent` pins it down |
| `FileNames.BaseNameIsLastComponent` | src/Notepad.java:188 | the file's name is the part of the path after its last separator: it contains no separator, and it is a suffix of the path |
| `FileNames.WithDefaultExt` | src/Notepad.java:187-190 | the default-extension rule only appends: the chosen path is a prefix of the result, which is at most ".txt" longer |
| `FileNames.BaseNameAppend` | src/Notepad.java:189 | appending text without a separator to a path extends its name by that text and changes nothing else |
| `FileNames.DefaultExtRule` | src/Notepad.java:187-190 | the chosen path is kept exactly when its name contains a dot, and otherwise gets ".txt" appended; either way the resulting name contains a dot |
| `FileNames.DefaultExtIdempotent` | src/Notepad.java:187-190 | applying the default-extension rule to its own result changes nothing |
| `Lines.LineLength` | src/Notepad.java:154 | the first line runs up to the first CR or LF, or to the end of the input |
| `Lines.NextLine` | src/Notepad.java:154 | readLine returns null exactly at end of input; otherwise the input is the line, then a recognised ending (or none at end of input), then the rest; the line holds no break, and a lone CR is never followed by LF |
| `Lines.ReadLines` | src/Notepad.java:154 | no line that the reading loop receives contains a CR or LF |
| `Lines.JoinLines` | src/Notepad.java:155 | with a non-empty separator, the accumulated text is empty exactly when there are no lines |
| `Lines.LoadText` | src/Notepad.java:151-157 | with a non-empty separator, a file loads as empty text exactly when it is empty |
| `Lines.NextLineOf` | src/Notepad.java:154 | a line without breaks, followed by one recognised ending, is split back into exactly that line, ending and rest |
| `Lines.ReadAll` | src/Notepad.java:151-157 | the reading loop builds the file's lines, each followed by the host separator |
| `Lines.ReadJoined` | src/Notepad.java:154-155 | reading back lines joined by a CR, LF or CR LF separator yields exactly those lines |
| `Lines.LoadIdempotent` | src/Notepad.java:151-157 | loaded text has the same lines as the file it came from, and loading it again gives it unchanged |
| `Lines.LoadUnixText` | src/Notepad.java:151-157 | with LF-only content and the separator LF, loading returns the content itself, with an LF added when the last line lacked one |
| `Lines.MixedEndingsExample` | src/Notepad.java:151-157 | a file holding "a", LF, "b", CR LF, "c" loads as a, b and c, each followed by the host separator |
| `Document.Prefix` | src/Notepad.java:173-177 | what an interrupted write leaves in the file is a prefix of the text, as long as the part flushed or the whole text |
| `Document.FilesAfterWrite` | src/Notepad.java:173-177 | a failure to create the file changes nothing; otherwise the file holds a prefix of the text, the whole text when every step succeeds, and every other file is kept |
| `Document.Initial` | src/Notepad.java:11-12 | the session starts with an empty buffer, no current file and `changed` false |
| `Document.Insert` | src/Notepad.java:38 | an insertion lengthens the text by the inserted text, sets `changed` unless nothing was inserted, and keeps the current file and the files |
| `Document.Remove` | src/Notepad.java:39 | a removal shortens the text by the removed length, sets `changed` unless nothing was removed, and keeps the current file and the files |
| `Document.ChangeAttributes` | src/Notepad.java:40 | an attribute change sets `changed` and keeps the text, the current file and the files |
| `Document.SetText` | src/Notepad.java:139 | after `setText` the buffer is exactly the new text, with the current file and the files kept |
| `Document.EditsMarkChanged` | src/Notepad.java:37-41 | an insertion, a removal or an attribute change sets `changed`, gives the expected text, and leaves the current file and the files alone |
| `Document.SetTextReplaces` | src/Notepad.java:139 | replacing the text leaves exactly the new text, and fires the listener unless both the old and the new text are empty |
| `Document.SaveTarget` | src/Notepad.java:168-191 | Save has a target unless the document is untitled and the chooser is cancelled; a current file is its own target, and a chosen one always ends with a name containing a dot |
| `Document.WriteBuffer` | src/Notepad.java:173-179 | writing keeps the buffer and the current file, clears `changed` exactly when the code reached the statement after the write, and on full success stores the buffer in the current file |
| `Document.Save` | src/Notepad.java:168-180 | Save keeps the buffer and leaves the session tied to its target |
| `Document.SaveAs` | src/Notepad.java:183-194 | Save As keeps the buffer; with no file chosen it changes nothing, otherwise the session is tied to the chosen path with the default extension |
| `Document.SaveEffect` | src/Notepad.java:168-180 | Save targets the current file, or the Save As choice when there is none. The files become what the write outcome leaves. `changed` is cleared exactly when there is a target and the code got past writing the text, a failure at close included. On full success the target holds the buffer |
| `Document.SaveAsEffect` | src/Notepad.java:183-194 | with no file chosen, Save As changes nothing. Otherwise it ties the session to the chosen path (".txt" added to a name without a dot) whatever the write outcome, and the files and the flag are what writing there leaves |
| `Document.Confirm` | src/Notepad.java:197-207 | the check keeps the buffer, and goes ahead exactly when the flag is clear afterwards or the user chose to discard changed text |
| `Document.ConfirmWhenUnchanged` | src/Notepad.java:198 | an unchanged session proceeds without a dialog, and the state is untouched |
| `Document.ConfirmWhenCancelled` | src/Notepad.java:201 | Cancel or a closed dialog stops the action and leaves the state unchanged |
| `Document.ConfirmWhenDiscarded` | src/Notepad.java:206 | No proceeds, and the buffer, file, flag and files stay unchanged |
| `Document.ConfirmWhenSaving` | src/Notepad.java:202-204 | Yes proceeds exactly when `changed` ends up false, that is, when the save had a target and got past writing the text; the files are what the write outcome leaves at the target |
| `Document.ConfirmKeepsUnsavedText` | src/Notepad.java:197-207 | when the text is changed and the answer is not No, the check either stops with the text still in the buffer and still marked changed, or proceeds; unless closing the writer failed, the text is then stored in the current file |
| `Document.NewFile` | src/Notepad.java:137-143 | New leaves either an empty, untitled, clean session, or the old text still marked changed |
| `Document.NewFileEffect` | src/Notepad.java:137-143 | when the check proceeds, New leaves an empty, untitled, unchanged session. When it stops, the text and the flag are kept; the current file can change only through an attempted Save As, and a file only through a save that failed while writing |
| `Document.OpenFile` | src/Notepad.java:146-165 | Open either keeps the buffer or leaves a clean session tied to the file chosen to open |
| `Document.OpenFileEffect` | src/Notepad.java:146-165 | a successful read makes the buffer the file's lines, each followed by the separator; the session is then tied to the chosen file and unchanged. A cancelled chooser or a failed read leaves the state as the check left it |
| `Document.DestructiveActionsKeepUnsavedText` | src/Notepad.java:137-165 | unless the answer is No or closing the writer failed, New and Open never lose changed text: it is either still in the buffer and marked changed, or it is one of the stored files' contents |
| `Document.SaveThenOpen` | src/Notepad.java:151-175 | saving and then reopening the same file gives back the buffer's lines, with the host separator after each, and a clean session; a second load changes nothing |
| `Document.SaveUntitledExample` | src/Notepad.java:168-192 | an untitled, changed buffer "hello" saved under the name "notes" is written to "notes.txt", and the session is clean afterwards |
| `Document.FailedCloseLosesText` | src/Notepad.java:173-179 | with the flush at close failing, the check proceeds and New empties the buffer while the file holds nothing, so the changed text is in no file |
| `Document.FlagAfterClose` | src/Notepad.java:173-179 | with the flag cleared only after a successful close, only a complete write clears it, and the file system sees the same writes |
| `Document.CorrectedConfirmWhenSaving` | src/Notepad.java:202-204 | with that correction, Yes proceeds exactly when the save had a target and the whole buffer was written there |
| `Document.CorrectedActionsKeepUnsavedText` | src/Notepad.java:137-165 | with that correction, for every write outcome and any answer but No, the check, New and Open never lose changed text, and the check proceeds only with the text stored in the current file |
| `Notepad.Disk.Read` | src/Notepad.java:151 | opening a file for reading fails when it does not exist or the read fails; otherwise it yields its whole content |
| `Notepad.Disk.Create` | src/Notepad.java:173 | `new FileWriter` empties the file, creating it if needed, unless opening fails |
| `Notepad.Disk.Put` | src/Notepad.java:174 | a failed `write` leaves the part of the text flushed so far; otherwise the text is held in the writer's buffer |
| `Notepad.Disk.Close` | src/Notepad.java:173-177 | `close` flushes the rest, so the file holds the text; a failed close leaves the part flushed so far |
| `Notepad.Session.constructor` | src/Notepad.java:11-12 | a session starts with an empty buffer, a null current file and `changed` false |
| `Notepad.Session.DocumentChanged` | src/Notepad.java:37-41 | each document event sets `changed` |
| `Notepad.Session.Insert` | src/Notepad.java:38 | an insertion updates the buffer and marks it changed, as `Document.Insert` says |
| `Notepad.Session.Remove` | src/Notepad.java:39 | a removal updates the buffer and marks it changed, as `Document.Remove` says |
| `Notepad.Session.ChangeAttributes` | src/Notepad.java:40 | an attribute change marks the session changed |
| `Notepad.Session.SetText` | src/Notepad.java:157 | replacing the text is a removal followed by an insertion, as `Document.SetText` says |
| `Notepad.Session.SaveFile` | src/Notepad.java:168-180 | creating, writing, clearing the flag and closing, in the code's order, leave the session and the disk given by `Document.Save` |
| `Notepad.Session.SaveFileAs` | src/Notepad.java:183-194 | the session and the disk after Save As are those given by `Document.SaveAs` |
| `Notepad.Session.ConfirmSaveIfNeeded` | src/Notepad.java:197-207 | the decision returned, the session and the disk are those given by `Document.Confirm` |
| `Notepad.Session.NewFile` | src/Notepad.java:137-143 | the session and the disk after New are those given by `Document.NewFile` |
| `Notepad.Session.OpenFile` | src/Notepad.java:146-165 | the session and the disk after Open are those given by `Document.OpenFile` with the host separator |
| `Notepad.Session.ExitApp` | src/Notepad.java:210-214 | Exit terminates exactly when the check proceeds, and leaves the state the check leaves |

## Findings

| source | as written | input that shows it | evidently intended | confidence | as-written member | corrected member |
|---|---|---|---|---|---|---|
| src/Notepad.java:173-179 | `changed = false` runs inside the `try` block before the `BufferedWriter` is closed; `close` flushes the buffered text, and an `IOException` it throws is caught at line 177 with the flag already cleared, so `confirmSaveIfNeeded` returns true at line 204 | a changed buffer "hello" tied to /home/user/notes.txt, answer Yes, the file is created but the flush at close fails with nothing written: New goes ahead, the buffer is emptied and the file is empty | the flag is cleared only once the writer has been closed, so a failed close stops New, Open and Exit as a failed write does | not executed | `Document.FailedCloseLosesText` | `Document.CorrectedActionsKeepUnsavedText` |

`Document.ConfirmCorrected`, `Document.NewFileCorrected` and `Document.OpenFileCorrected` are the
check, New and Open with the flag cleared after close; `Document.FlagAfterClose` expresses that
change as a rewriting of the write outcome. `Notepad.Session` follows the code as written.

## Left out

- Swing construction, menus, accelerators, the scroll pane, the look-and-feel and the window
  listener (src/Notepad.java:14-109, 281-291) are UI wiring with no logic. The close button is
  the same as Exit, which `Notepad.Session.ExitApp` models.
- The `actionPerformed` dispatch and its catch-all error dialog (src/Notepad.java:112-134) are
  left out. Each case is one call of a modelled method.
- Cut, Copy, Paste and Select All (src/Notepad.java:121-124) are left out. They pass straight to
  the clipboard and the text widget. Their effect on the buffer goes through `Insert` and
  `Remove`, which are modelled.
- The font dialog, colour chooser and About box (src/Notepad.java:217-278) are left out. They
  change only how the text is displayed.
- Window titles and error message dialogs are not modelled. `dispose` and `System.exit` become
  the `terminated` result of `ExitApp`.
- Real file I/O is not modelled. The disk is a map from paths to contents, and success or
  failure is an argument. A missing file makes a read fail.
- How many characters reach the file before a failure is an argument (`flushed`). The buffer
  size of `BufferedWriter`, which decides when it flushes, is not modelled.
- ConfirmKeepsUnsavedText: does not promise that the text is stored when closing the writer
  fails, because the code clears the flag before the close (see "## Findings").
- DestructiveActionsKeepUnsavedText: does not promise that the text survives New or Open when
  closing the writer fails, for the same reason.
- Character decoding by `FileReader` and encoding by `FileWriter` are not modelled. Text is a
  sequence of characters on both sides.
- Paths are normalised absolute strings with `/` as the separator. The chooser's file is taken
  to be absolute, so `getAbsolutePath` returns the path itself.
- The host line separator is a constant of the session. Lemmas that read text back assume it is
  LF, CR or CR LF, which `System.lineSeparator()` is by default on every Java platform; the
  `line.separator` property can override it at start-up.
