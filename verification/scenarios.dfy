/**
 * Client code that drives the main window the way tests/test_editor.py does,
 * with the outcomes the model guarantees written as assertions.
 */
module Scenarios {
  import opened Wrappers
  import opened EditorBuffer
  import opened Files
  import opened Ui

  method InitialSetup() {
    var w := new MainWindow();
    assert w.title == "QuickMD" && w.currentFile == None;
  }

  method NewFileClearsText() {
    var w := new MainWindow();
    w.SetPlainText("Some text");
    w.NewFile();
    assert w.buffer.text == "" && w.currentFile == None;
  }

  method OpenFileLoadsContents() {
    var fs := new FileSystem(map["test.md" := Some("Test markdown content")]);
    var w := new MainWindow();
    w.OpenFile("test.md", fs);
    assert w.buffer.text == "Test markdown content";
    assert w.currentFile == Some("test.md");
  }

  method SaveAsWritesText(path: string, text: string)
    requires path != []
  {
    var fs := new FileSystem(map[path := None]);
    var w := new MainWindow();
    w.SetPlainText(text);
    w.SaveFileAs(path, fs);
    assert ReadResult(fs.files, path) == Some(text);
    assert w.currentFile == Some(path);
  }

  method BoldWrapsSelection() {
    var w := new MainWindow();
    w.SetPlainText("test");
    w.Select(0, 4);
    assert w.buffer == Buffer("test", 0, 4);
    WrapWholeDocument("test", "**");
    w.InsertMarkdownSyntax("**");
    assert w.buffer.text == "**" + "test" + "**";
  }

  method CancelledSaveAsChangesNothing(files: FileMap, text: string) {
    var fs := new FileSystem(files);
    var w := new MainWindow();
    w.SetPlainText(text);
    w.SaveFileAs("", fs);
    assert w.currentFile == None && w.title == "QuickMD";
    assert fs.files == files;
  }

  /** Saving the editor's text under a writable name and opening that name
      in another window brings the same text back, for any text the editor
      holds as a string of this model. */
  method SaveThenReopen(fs: FileSystem, path: string, text: string)
    requires path != [] && path in fs.files
    modifies fs
  {
    var w := new MainWindow();
    w.SetPlainText(text);
    w.SaveFileAs(path, fs);
    var v := new MainWindow();
    v.OpenFile(path, fs);
    assert v.buffer.text == text && v.currentFile == Some(path);
    assert v.title == w.title;
  }
}
