/**
 * The document controller of QuickMD's main window (QuickMD/ui.py): the
 * editor buffer, the current file, the window title and the status line, and
 * the file and formatting actions that change them.
 *
 * The editor's textChanged signal is connected to update_status, and Qt
 * delivers it synchronously, so every change of the editor text refreshes the
 * status line from the state at that moment. Dialog results are parameters;
 * the empty string is a cancelled dialog.
 */
module Ui {
  import opened Wrappers
  import opened EditorBuffer
  import opened StatusLine
  import opened Files

  const AppTitle := "QuickMD"
  const UntitledTitle := "QuickMD - Untitled"
  const ReadyMessage := "Ready"

  /** The title shown once a file is open or saved under a name. */
  function FileTitle(path: string): (t: string)
    ensures |t| == 10 + |FileName(path)|
    ensures t[..10] == "QuickMD - " && t[10..] == FileName(path)
  {
    "QuickMD - " + FileName(path)
  }

  /** The status line for the given text and file, as update_status shows it. */
  function StatusFor(text: string, currentFile: Option<string>): string {
    StatusMessage(DocumentStatus(text, currentFile))
  }

  class MainWindow {
    var buffer: Buffer
    var currentFile: Option<string>
    var title: string
    var status: string

    ghost predicate Valid()
      reads this
    {
      buffer.Valid()
    }

    /** A fresh window: empty editor, no file, title "QuickMD", status "Ready". */
    constructor ()
      ensures Valid()
      ensures buffer == EmptyBuffer && currentFile == None
      ensures title == AppTitle && status == ReadyMessage
    {
      buffer := EmptyBuffer;
      currentFile := None;
      title := AppTitle;
      status := ReadyMessage;
    }

    /** update_status: recomputes the status line from the text and the file. */
    method UpdateStatus()
      modifies this`status
      ensures status == StatusFor(buffer.text, currentFile)
    {
      status := StatusMessage(DocumentStatus(buffer.text, currentFile));
    }

    /** A change of the editor text, followed by the textChanged signal. */
    method EditorChanged(b: Buffer)
      requires b.Valid()
      modifies this`buffer, this`status
      ensures Valid() && buffer == b
      ensures status == StatusFor(b.text, currentFile)
    {
      buffer := b;
      UpdateStatus();
    }

    /** The editor's setPlainText: the text is replaced by the given string,
        the cursor goes to the start. Qt's substitution of line breaks and
        no-break spaces is not part of this model. */
    method SetPlainText(text: string)
      modifies this`buffer, this`status
      ensures Valid() && buffer == Buffer(text, 0, 0)
      ensures status == StatusFor(text, currentFile)
    {
      EditorChanged(Buffer(text, 0, 0));
    }

    /** The user selects [start, end) in the editor. */
    method Select(start: nat, end: nat)
      requires Valid() && start <= end <= |buffer.text|
      modifies this`buffer
      ensures Valid() && buffer == Buffer(old(buffer.text), start, end)
    {
      buffer := Buffer(buffer.text, start, end);
    }

    /** new_file: whatever the previous content, the editor is emptied, the
        current file forgotten and the title reset. The status line is
        refreshed by clear() while the old file is still current. */
    method NewFile()
      modifies this
      ensures Valid() && buffer == EmptyBuffer
      ensures currentFile == None && title == UntitledTitle
      ensures status == StatusFor([], old(currentFile))
    {
      EditorChanged(EmptyBuffer);
      currentFile := None;
      title := UntitledTitle;
    }

    /** open_file with the path chosen in the dialog. A successful read
        replaces the text and makes the path current; a cancelled dialog or a
        failed read changes nothing. */
    method OpenFile(chosen: string, fs: FileSystem)
      requires Valid()
      modifies this
      ensures Valid()
      ensures chosen == [] || ReadResult(fs.files, chosen) == None ==>
        buffer == old(buffer) && currentFile == old(currentFile)
        && title == old(title) && status == old(status)
      ensures chosen != [] && ReadResult(fs.files, chosen).Some? ==>
        var contents := ReadResult(fs.files, chosen).value;
        && buffer == Buffer(contents, 0, 0)
        && currentFile == Some(chosen)
        && title == FileTitle(chosen)
        && status == StatusFor(contents, old(currentFile))
    {
      if chosen != [] {
        var contents := ReadResult(fs.files, chosen);
        if contents.Some? {
          SetPlainText(contents.value);
          currentFile := Some(chosen);
          title := FileTitle(chosen);
        }
      }
    }

    /** _save_to_file: writes the editor text to path; a failure is swallowed. */
    method SaveToFile(path: string, fs: FileSystem)
      modifies fs
      ensures fs.files == Written(old(fs.files), path, buffer.text)
    {
      var _ := fs.Write(path, buffer.text);
    }

    /** save_file_as with the path chosen in the dialog. Cancelling changes
        nothing; otherwise the path becomes current before the write, so it
        does so even when the write fails, and the title follows it. */
    method SaveFileAs(chosen: string, fs: FileSystem)
      requires Valid()
      modifies this, fs
      ensures Valid() && buffer == old(buffer) && status == old(status)
      ensures chosen == [] ==>
        currentFile == old(currentFile) && title == old(title) && fs.files == old(fs.files)
      ensures chosen != [] ==>
        currentFile == Some(chosen) && title == FileTitle(chosen)
        && fs.files == Written(old(fs.files), chosen, buffer.text)
    {
      if chosen != [] {
        currentFile := Some(chosen);
        SaveToFile(chosen, fs);
        title := FileTitle(chosen);
      }
    }

    /** save_file: an untitled document is saved exactly as by save_file_as
        (the dialog's answer is chosen); otherwise the text is written to the
        current file and the window is left as it is. */
    method SaveFile(chosen: string, fs: FileSystem)
      requires Valid()
      modifies this, fs
      ensures Valid() && buffer == old(buffer) && status == old(status)
      ensures old(currentFile) == None && chosen == [] ==>
        currentFile == old(currentFile) && title == old(title) && fs.files == old(fs.files)
      ensures old(currentFile) == None && chosen != [] ==>
        currentFile == Some(chosen) && title == FileTitle(chosen)
        && fs.files == Written(old(fs.files), chosen, buffer.text)
      ensures old(currentFile).Some? ==>
        currentFile == old(currentFile) && title == old(title)
        && fs.files == Written(old(fs.files), old(currentFile).value, buffer.text)
    {
      if currentFile == None {
        SaveFileAs(chosen, fs);
      } else {
        SaveToFile(currentFile.value, fs);
      }
    }

    /** insert_markdown_syntax: wraps the selection in syntax, or types the
        syntax at the cursor when nothing is selected. */
    method InsertMarkdownSyntax(syntax: string)
      requires Valid()
      modifies this`buffer, this`status
      ensures Valid() && buffer == WrapSelection(old(buffer), syntax)
      ensures status == StatusFor(buffer.text, currentFile)
    {
      var selected := SelectedText(buffer);
      if selected != [] {
        EditorChanged(InsertText(buffer, syntax + selected + syntax));
      } else {
        EditorChanged(InsertText(buffer, syntax));
      }
    }

    /** insert_link: the selection, or "link text", becomes a link to "url". */
    method InsertLink()
      requires Valid()
      modifies this`buffer, this`status
      ensures Valid() && buffer == EditorBuffer.InsertLink(old(buffer))
      ensures status == StatusFor(buffer.text, currentFile)
    {
      EditorChanged(InsertText(buffer, LinkText(SelectedText(buffer))));
    }

    /** insert_image: the fixed image markup replaces the selection. */
    method InsertImage()
      requires Valid()
      modifies this`buffer, this`status
      ensures Valid() && buffer == EditorBuffer.InsertImage(old(buffer))
      ensures status == StatusFor(buffer.text, currentFile)
    {
      EditorChanged(InsertText(buffer, ImageMarkup));
    }
  }
}
