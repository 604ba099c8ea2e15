/**
 * The Notepad window's document session as the program keeps it: a text
 * buffer, the current file (null until a file is opened or saved) and the
 * changed flag, updated in place by the File menu actions and by the document
 * listener. Dialog answers, chooser results and whether a read or write
 * succeeds are arguments; the disk is a map from paths to contents.
 */
module Notepad {
  import opened Wrappers
  import opened FileNames
  import opened Lines
  import D = Document

  /** The file system the editor reads and writes. */
  class Disk {
    var files: map<Path, string>

    constructor (files: map<Path, string>)
      ensures this.files == files
    {
      this.files := files;
    }

    /** Opening and reading a file: fails when it does not exist or the read fails. */
    method Read(path: Path, readOk: bool) returns (content: Option<string>)
      ensures content.Some? <==> readOk && path in files
      ensures content.Some? ==> content.value == files[path]
    {
      if readOk && path in files {
        content := Some(files[path]);
      } else {
        content := None;
      }
    }

    /** `new FileWriter(path)`: creates the file or truncates it to nothing, unless opening fails. */
    method Create(path: Path, outcome: D.WriteOutcome) returns (ok: bool)
      modifies this
      ensures ok == !outcome.OpenFailed?
      ensures files == if ok then old(files)[path := []] else old(files)
    {
      ok := !outcome.OpenFailed?;
      if ok {
        files := files[path := []];
      }
    }

    /**
     * `write(text)` on the buffered writer: the text goes into the buffer. A
     * failure leaves in the file the characters flushed before it.
     */
    method Put(path: Path, text: string, outcome: D.WriteOutcome) returns (ok: bool)
      modifies this
      ensures ok == !outcome.WriteFailed?
      ensures files == if ok then old(files) else old(files)[path := D.Prefix(text, outcome.flushed)]
    {
      ok := !outcome.WriteFailed?;
      if !ok {
        files := files[path := D.Prefix(text, outcome.flushed)];
      }
    }

    /**
     * `close()` on the buffered writer: flushes the rest of the text. A failure
     * leaves in the file the characters flushed before it.
     */
    method Close(path: Path, text: string, outcome: D.WriteOutcome) returns (ok: bool)
      modifies this
      ensures ok == outcome.Written?
      ensures files == if outcome.Written? then old(files)[path := text]
                       else if outcome.CloseFailed? then old(files)[path := D.Prefix(text, outcome.flushed)]
                       else old(files)
    {
      ok := outcome.Written?;
      if ok {
        files := files[path := text];
      } else if outcome.CloseFailed? {
        files := files[path := D.Prefix(text, outcome.flushed)];
      }
    }
  }

  class Session {
    var buffer: string
    var currentFile: Option<Path>
    var changed: bool
    const disk: Disk
    /** The host's line separator, appended after every line Open reads. */
    const lineSeparator: string
    ghost function Snapshot(): D.State
      reads this, disk
    {
      D.State(buffer, currentFile, changed, disk.files)
    }

    constructor (disk: Disk, lineSeparator: string)
      ensures this.disk == disk && this.lineSeparator == lineSeparator
      ensures Snapshot() == D.Initial(disk.files)
    {
      buffer := [];
      currentFile := None;
      changed := false;
      this.disk := disk;
      this.lineSeparator := lineSeparator;
    }

    /** The document listener: insertUpdate, removeUpdate and changedUpdate all mark the session changed. */
    method DocumentChanged()
      modifies this`changed
      ensures changed
    {
      changed := true;
    }

    method Insert(pos: nat, text: string)
      requires pos <= |buffer|
      modifies this
      ensures Snapshot() == D.Insert(old(Snapshot()), pos, text)
    {
      if text != [] {
        buffer := buffer[..pos] + text + buffer[pos..];
        DocumentChanged();
      }
    }

    method Remove(pos: nat, len: nat)
      requires pos + len <= |buffer|
      modifies this
      ensures Snapshot() == D.Remove(old(Snapshot()), pos, len)
    {
      if len != 0 {
        buffer := buffer[..pos] + buffer[pos + len..];
        DocumentChanged();
      }
    }

    method ChangeAttributes()
      modifies this
      ensures Snapshot() == D.ChangeAttributes(old(Snapshot()))
    {
      DocumentChanged();
    }

    /** The text area's setText: remove the old text, insert the new one, each firing the listener. */
    method SetText(text: string)
      modifies this
      ensures Snapshot() == D.SetText(old(Snapshot()), text)
    {
      Remove(0, |buffer|);
      Insert(0, text);
    }

    /** File > Save: write to the current file, or ask for one through Save As. */
    method SaveFile(chooser: Option<Path>, outcome: D.WriteOutcome)
      modifies this, disk
      ensures Snapshot() == D.Save(old(Snapshot()), chooser, outcome)
      decreases if currentFile.None? then 2 else 0
    {
      if currentFile.None? {
        SaveFileAs(chooser, outcome);
        return;
      }
      var path := currentFile.value;
      var created := disk.Create(path, outcome);
      if !created {
        return;
      }
      var written := disk.Put(path, buffer, outcome);
      if !written {
        return;
      }
      // The flag is cleared before the writer is closed, so it stays cleared
      // when closing fails.
      changed := false;
      var closed := disk.Close(path, buffer, outcome);
    }

    /** File > Save As: take the chosen file, with ".txt" added to a name without a dot, then save. */
    method SaveFileAs(chooser: Option<Path>, outcome: D.WriteOutcome)
      modifies this, disk
      ensures Snapshot() == D.SaveAs(old(Snapshot()), chooser, outcome)
      decreases 1
    {
      if chooser.Some? {
        currentFile := Some(WithDefaultExt(chooser.value));
        SaveFile(chooser, outcome);
      }
    }

    /** Asks to save unsaved changes; false means the calling action must stop. */
    method ConfirmSaveIfNeeded(answer: D.Answer, chooser: Option<Path>, outcome: D.WriteOutcome) returns (proceed: bool)
      modifies this, disk
      ensures D.Confirmation(proceed, Snapshot()) == D.Confirm(old(Snapshot()), answer, chooser, outcome)
    {
      if !changed {
        return true;
      }
      if answer == D.Cancel || answer == D.Closed {
        return false;
      }
      if answer == D.Yes {
        SaveFile(chooser, outcome);
        return !changed;
      }
      return true;
    }

    /** File > New. */
    method NewFile(answer: D.Answer, chooser: Option<Path>, outcome: D.WriteOutcome)
      modifies this, disk
      ensures Snapshot() == D.NewFile(old(Snapshot()), answer, chooser, outcome)
    {
      var proceed := ConfirmSaveIfNeeded(answer, chooser, outcome);
      if !proceed {
        return;
      }
      SetText([]);
      currentFile := None;
      changed := false;
    }

    /** File > Open: reads the chosen file line by line, appending the host separator after each line. */
    method OpenFile(answer: D.Answer, saveChooser: Option<Path>, outcome: D.WriteOutcome,
                    openChooser: Option<Path>, readOk: bool)
      modifies this, disk
      ensures Snapshot() == D.OpenFile(old(Snapshot()), answer, saveChooser, outcome, openChooser, readOk, lineSeparator)
    {
      var proceed := ConfirmSaveIfNeeded(answer, saveChooser, outcome);
      if !proceed || openChooser.None? {
        return;
      }
      var f := openChooser.value;
      var content := disk.Read(f, readOk);
      if content.None? {
        return;
      }
      var text := ReadAll(content.value, lineSeparator);
      SetText(text);
      currentFile := Some(f);
      changed := false;
    }

    /** File > Exit and the window's close button: terminates only when the check lets it proceed. */
    method ExitApp(answer: D.Answer, chooser: Option<Path>, outcome: D.WriteOutcome) returns (terminated: bool)
      modifies this, disk
      ensures D.Confirmation(terminated, Snapshot()) == D.Confirm(old(Snapshot()), answer, chooser, outcome)
    {
      terminated := ConfirmSaveIfNeeded(answer, chooser, outcome);
    }
  }
}
