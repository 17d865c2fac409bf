# QuickMD document controller and Markdown highlighter in Dafny

QuickMD is a desktop Markdown editor: an editing pane, a rendered preview,
file open/save and toolbar helpers that insert Markdown syntax. Most of it is
wiring over PyQt5 and the `markdown` library. This project models the two
parts with logic of their own:

- **The main window's document state** (`QuickMD/ui.py`). The state is the
  editor text with its cursor or selection, the current file, the window title
  and the status line. The model covers `new_file`, `open_file`, `save_file`,
  `save_file_as`, `_save_to_file`, the insertion helpers
  `insert_markdown_syntax`, `insert_link` and `insert_image`, and
  `update_status`. `MainWindow` is a class whose methods update these fields.
  The file system is a `FileSystem` object holding a map from path to optional
  contents. Each dialog answer is a parameter, and the empty string means the
  user cancelled.
- **The highlighter** (`QuickMD/highlighter.py`). This part is an ordered list
  of four (matcher, format) rules. `highlightBlock` runs a loop over the rules
  and, inside it, a `while` loop over each rule's matches. Each match is
  written into the block's per-character format array.

Modules:

- `Wrappers` holds `Option`.
- `EditorBuffer` holds the text-and-selection value, the text cursor's
  `insertText`, and the three insertion helpers stated on that value.
- `StatusLine` holds Python's `str.split()`, `str()` of a count, and the
  `Path.name` of the current file. The split takes its separator test as a
  parameter; `update_status` uses `IsSpace`, the `str.isspace` set.
- `Files` holds the file system.
- `Ui` holds the `MainWindow` class.
- `Patterns` holds the matchers. The heading and code patterns are written
  out concretely.
- `Highlighter` holds the rule list, the specification of what a block ends
  up formatted as, and the `MarkdownHighlighter` class with its loop.
- `Scenarios` holds client code that follows `tests/test_editor.py`.

Behaviour the model pins down:

- **The status line follows every text change.** The editor's `textChanged`
  signal is connected to `update_status` (ui.py:59), and Qt delivers it at
  once. So each change of the editor text recomputes the status line from the
  state at that moment.
- **`new_file` and `open_file` show the old file name.** Both change the text
  *before* they reassign `current_file`. The status line they leave therefore
  shows the previous file's name with the new text's counts. `NewFile` and
  `OpenFile` state exactly this.
  - `clear()` is taken to emit `textChanged` even when the editor is already
    empty.
- **A failed save still switches the file.** `save_file_as` assigns
  `current_file` before `_save_to_file` runs (ui.py:214-215), and
  `_save_to_file` swallows the write error. So `current_file` and the title
  change even when the write fails.
- **Which `__init__` counts.** `ui.py` defines `MainWindow.__init__` twice.
  Python keeps the second definition (lines 26-32), and the model follows it.
- **Where the cursor ends up.** After `clear()` or `setPlainText` the cursor
  is at position 0. After `insertText` there is no selection, and the cursor
  sits just after the inserted text.
- **The heading pattern.** With QRegExp's default caret mode, `^#{1,6} .+`
  matches only when the search starts at position 0 of the block. QRegExp's
  `.` matches any character, so the match runs to the end of the block.
- **The bold and italic patterns stay abstract.** They are matchers passed to
  the highlighter's constructor. The only thing required of them is what the
  loop needs: each match lies inside the block, starts at or after the search
  position, and has positive length.

## Model

| member | source | states |
|---|---|---|
| `EditorBuffer.SelectedText` | QuickMD/ui.py:247-248 | the selected text is the part of the document between the selection's ends: document = before + selection + after |
| `EditorBuffer.InsertText` | QuickMD/ui.py:251-253 | `QTextCursor.insertText` keeps the text before the selection and after it. It puts the inserted string exactly in between. The cursor ends collapsed just after the insertion, and the length changes by the inserted minus the selected length |
| `EditorBuffer.InsertTextInverse` | QuickMD/ui.py:251-253 | deleting the inserted string gives the old document without its selection. Putting the selected text back there restores the old document |
| `EditorBuffer.MarkdownSyntaxText` | QuickMD/ui.py:250-253 | by its definition, the text typed is syntax + selection + syntax when the selection is non-empty, and the bare syntax otherwise |
| `EditorBuffer.WrapSelection` | QuickMD/ui.py:245-253 | with a non-empty selection `t`, the text becomes before + syntax + t + syntax + after. With none, exactly `syntax` is inserted at the cursor, the text grows by its length, and nothing else changes |
| `EditorBuffer.WrapSelectionInverse` | QuickMD/ui.py:250-251 | after wrapping, the span at the selection's start reads syntax + t + syntax and the cursor sits after the closing marker. Deleting the two markers restores the original document |
| `EditorBuffer.InsertSyntaxInverse` | QuickMD/ui.py:252-253 | with no selection, deleting the inserted syntax at the cursor restores the original document |
| `EditorBuffer.WrapWholeDocument` | tests/test_editor.py:205-214 | wrapping a whole non-empty document `t` gives syntax + t + syntax ("test" becomes "**test**") |
| `EditorBuffer.LinkText` | QuickMD/ui.py:259 | the link markup is "[", then the label, then "](url)". The label is the selection, or "link text" when the selection is empty |
| `EditorBuffer.InsertLink` | QuickMD/ui.py:255-259 | the selection is replaced by "[" + t + "](url)". With no selection, "[link text](url)" is inserted. Text around it is unchanged, and the cursor ends, with no selection, just after the link |
| `EditorBuffer.InsertImage` | QuickMD/ui.py:261-264 | the fixed "![alt text](image_url)" replaces any selection. The cursor ends after it |
| `StatusLine.IsSpace` | QuickMD/ui.py:175 | by its definition, the separators of `text.split()` are the characters of Python's `str.isspace`: code points 9-13 and 28-32, U+0085, U+00A0, U+1680, U+2000-U+200A, U+2028, U+2029, U+202F, U+205F and U+3000 |
| `StatusLine.SplitSeparators` | QuickMD/ui.py:175 | among ASCII characters exactly tab, line feed, vertical tab, form feed, carriage return, the separators 0x1C-0x1F and the space split words. No-break and ideographic spaces do too; the zero-width space and the byte-order mark do not |
| `StatusLine.Words` | QuickMD/ui.py:175 | every word `str.split()` yields is non-empty and contains no separator. The word functions take the separator test as a parameter, and the status line passes `IsSpace` |
| `StatusLine.WordCountIsRunCount` | QuickMD/ui.py:175 | for any separator test, the number of words equals the number of word starts. A word start is a non-white-space character at the start of the text or after white space. This is the number of maximal runs of non-white-space characters |
| `StatusLine.WordsKeepAllNonSpace` | QuickMD/ui.py:175 | for any separator test, the words joined together are exactly the text's non-separator characters in order |
| `StatusLine.Decimal` | QuickMD/ui.py:178 | a count prints as one or more decimal digits. It has a leading zero only when the count is 0 |
| `StatusLine.DecimalRoundTrip` | QuickMD/ui.py:178 | reading the printed digits back gives the count |
| `StatusLine.FileName` | QuickMD/ui.py:177 | a file's name contains no '/' |
| `StatusLine.FileNameOfJoin` | QuickMD/ui.py:177 | the name of "dir/name" is `name`, and a bare name is its own name |
| `StatusLine.DocumentStatus` | QuickMD/ui.py:172-178 | characters = length of the text. Words = number of maximal non-white-space runs. The file name is the current file's last component, or 'Untitled' without one |
| `StatusLine.StatusMessage` | QuickMD/ui.py:178 | by its definition, the message is the file name, " - Words: ", the word count, ", Characters: " and the character count, counts in decimal |
| `StatusLine.StatusMessageReadsBack` | QuickMD/ui.py:178 | both counts can be read back from the message. The word count is the value of the digits after "<name> - Words: ", which a comma ends. The character count is the value of the trailing digits, which a space precedes |
| `Files.ReadResult` | QuickMD/ui.py:193-194 | a read yields contents only for a path the file system holds a file at |
| `Files.Written` | QuickMD/ui.py:220-222 | after a write to an openable path, reading it gives exactly the written text. Every other path reads as before. An unopenable path leaves the files unchanged |
| `Files.FileSystem.Write` | QuickMD/ui.py:221-222 | the write succeeds exactly when the path can be opened. The files become `Written(old files, path, data)` |
| `Ui.FileTitle` | QuickMD/ui.py:196 | the title is "QuickMD - " followed by the file's name |
| `Ui.MainWindow.constructor` | QuickMD/ui.py:26-36 | a new window has an empty editor, no current file, title "QuickMD" and (ui.py:170) status "Ready" |
| `Ui.MainWindow.UpdateStatus` | QuickMD/ui.py:172-178 | the status line becomes "<name> - Words: <words>, Characters: <chars>" for the current text and file, and nothing else changes |
| `Ui.MainWindow.EditorChanged` | QuickMD/ui.py:58-59 | a change of the editor text is followed by `update_status` on the new text and the current file |
| `Ui.MainWindow.SetPlainText` | tests/test_editor.py:85-89 | after setting the text, the editor holds the given string with the cursor at 0, and the status line is refreshed. Qt's substitutions are not modelled (see "Left out") |
| `Ui.MainWindow.Select` | tests/test_editor.py:207-211 | selecting [start, end) changes only the selection |
| `Ui.MainWindow.NewFile` | QuickMD/ui.py:180-184 | whatever the previous content, the text becomes empty, `current_file` becomes None and the title 'QuickMD - Untitled'. The status line was computed for the empty text under the old file |
| `Ui.MainWindow.OpenFile` | QuickMD/ui.py:186-199 | on a successful read, the text becomes the file's contents with the cursor at 0. `current_file` becomes the chosen path and the title names it. On a cancelled dialog or a failed read, text, selection, file, title and status are all unchanged |
| `Ui.MainWindow.SaveToFile` | QuickMD/ui.py:218-225 | the editor text is written to the path if it can be opened. Otherwise the file system is unchanged, and the window never changes |
| `Ui.MainWindow.SaveFileAs` | QuickMD/ui.py:208-216 | a cancelled dialog changes nothing. Otherwise `current_file` and the title switch to the chosen path even if the write fails, and a successful write stores exactly the editor text there. The text and status are untouched |
| `Ui.MainWindow.SaveFile` | QuickMD/ui.py:201-206 | with no current file, it has the three outcomes of `SaveFileAs`. Otherwise it writes the text to the current file and leaves the file and title unchanged |
| `Ui.MainWindow.InsertMarkdownSyntax` | QuickMD/ui.py:245-253 | the buffer becomes `WrapSelection` of the old buffer. The current file and title are unchanged, and the status line is refreshed |
| `Ui.MainWindow.InsertLink` | QuickMD/ui.py:255-259 | the buffer becomes `InsertLink` of the old buffer, and the status line is refreshed |
| `Ui.MainWindow.InsertImage` | QuickMD/ui.py:261-264 | the buffer becomes `InsertImage` of the old buffer, and the status line is refreshed |
| `Patterns.HeadingMatch` | QuickMD/highlighter.py:17 | a heading match starts at position 0, only for a search from 0. It spans the whole block and is at least 3 characters long |
| `Patterns.HeadingMatchIsHeadingLine` | QuickMD/highlighter.py:17 | a block has a heading match exactly when it starts with 1 to 6 '#', a space, and at least one more character |
| `Patterns.CodeSpanAt` | QuickMD/highlighter.py:37 | a code span starting at i is found exactly when one exists there |
| `Patterns.CodeMatch` | QuickMD/highlighter.py:37 | a code match begins and ends with a backtick and encloses one or more non-backtick characters. It is the leftmost one at or after the search position, and no match means no code span there |
| `Patterns.ConcreteMatchersWellFormed` | QuickMD/highlighter.py:17-37 | the heading and code matchers give only non-empty matches inside the block, at or after the search position |
| `Highlighter.StandardRules` | QuickMD/highlighter.py:13-38 | the rules come in the order heading, bold, italic, code, each with its matcher and its format, and all are well formed |
| `Highlighter.SetSpan` | QuickMD/highlighter.py:47 | `setFormat` gives the positions of the match its format and leaves every other position alone |
| `Highlighter.Matches` | QuickMD/highlighter.py:44-48 | the matches one rule visits lie inside the block, are non-empty, and are strictly increasing and pairwise non-overlapping |
| `Highlighter.ApplyRule` | QuickMD/highlighter.py:43-48 | one rule's loop keeps the buffer's length. A position takes the rule's format exactly when one of the rule's matches covers it, and keeps its prior format otherwise |
| `Highlighter.Highlight` | QuickMD/highlighter.py:42-48 | the rules are applied in list order, each to the buffer the earlier ones left, and the buffer's length is kept. `HighlightAt` gives its per-position meaning |
| `Highlighter.PaintAt` | QuickMD/highlighter.py:45-48 | after one rule's loop, a position has the rule's format exactly when one of its matches covers it. Otherwise it keeps its prior format |
| `Highlighter.HighlightAt` | QuickMD/highlighter.py:42-48 | after all rules, every position has the format of the last rule with a match over it, or its prior format |
| `Highlighter.LaterRuleWins` | QuickMD/highlighter.py:42-47 | where rule j matches and no later rule does, the character ends with rule j's format |
| `Highlighter.UncoveredUnchanged` | QuickMD/highlighter.py:40-48 | a position no rule matches over keeps its prior format |
| `Highlighter.CodeSpanWins` | QuickMD/highlighter.py:32-47 | with the standard rules, every character inside a code match ends in the code format |
| `Highlighter.SetFormat` | QuickMD/highlighter.py:47 | the format array becomes `SetSpan` of its old contents |
| `Highlighter.MarkdownHighlighter.constructor` | QuickMD/highlighter.py:9-38 | the rule list is built by four appends in the order heading, bold, italic, code |
| `Highlighter.MarkdownHighlighter.HighlightBlock` | QuickMD/highlighter.py:40-48 | the nested loops terminate because each search resumes after a non-empty match. The format array ends as `Highlight(rules, text, old formats)`, and only that array changes |

## Left out

- Markdown-to-HTML rendering is left out. This covers `update_viewer`,
  `setup_markdown_extensions` and `Viewer.render_markdown`. They are single
  calls into the external `markdown` library.
- Menus, toolbar, `change_font`, `change_editor_color` and
  `change_viewer_color` are left out. They are Qt wiring and style setters.
  Dialog outcomes enter the model only as parameters.
- Undo and redo are left out. They are delegated to `QTextEdit`.
- Configuration loading (`QuickMD/config.py`) is left out. So are `apply_config`
  of the editor and viewer, start-up in `main.py`, and logging setup in
  `QuickMD/utils.py`. These are library calls with no logic of their own. The
  logging calls in the open and save error handlers are side effects only.
- The real semantics of the bold pattern `\*\*(.*?)\*\*` and the italic
  pattern `\*(.*?)\*` under QRegExp are not modelled. They are abstract
  matchers that only promise non-empty matches inside the block.
- Qt's encoding of line breaks in `selectedText()` as U+2029 is not modelled,
  and neither is UTF-8 decoding. Selections and files are plain strings. A
  file that cannot be decoded is a failed read.
- `Ui.MainWindow.SetPlainText`: the editor holds the string it is given.
  Qt's `setPlainText` turns '\r', "\r\n", U+2028 and U+2029 into line breaks,
  and `toPlainText()` (ui.py:174, 222) returns them as "\n" and a no-break
  space U+00A0 as ' '. None of this is modelled. So for text holding those
  characters the model's character count and saved text differ from the
  source's: "a\r\nb" counts 4 characters where the window shows 3, and a
  save writes U+00A0 where the source writes ' '. The file map holds each
  file as a text-mode `read()` returns it (ui.py:193), after newline
  translation; the line-ending conversion of a text-mode write (ui.py:221) is
  not modelled either.
- `Files.Written`: a path's entry is either both readable and writable or
  neither, so read-only and write-only files are not modelled. On a read-only
  file that `open_file` could read, the source's save raises an error that
  ui.py:224 swallows and the file keeps its old contents; the model cannot
  express that case, and for a write-only file it lets a later read return
  the saved text.
- A write that fails after opening the file is not modelled. Such a write could
  leave the file truncated; in the model a write either stores the whole text
  or changes nothing.
- `StatusLine.FileName`: only POSIX '/' separators and trailing slashes are
  modelled. pathlib's removal of '.' components and Windows separators are
  not, since the dialogs return plain file paths.
- `Highlighter.CharFormat` records the properties each rule sets: foreground
  colour, bold, italic and font family. The code format's `setFont` also
  resets the other font properties, which is not modelled, and bold is a flag
  rather than a weight.
