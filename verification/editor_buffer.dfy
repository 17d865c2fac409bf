/**
 * The editor's plain text together with its text cursor, and the Markdown
 * insertion helpers of the main window (QuickMD/ui.py) stated on that value.
 */
module EditorBuffer {

  /** The editor text and its cursor. The selection is the half-open range
      [selStart, selEnd); an empty range is a bare cursor at selStart. */
  datatype Buffer = Buffer(text: string, selStart: nat, selEnd: nat) {
    predicate Valid() {
      selStart <= selEnd <= |text|
    }
  }

  /** An empty document with the cursor at its start (what clear() leaves). */
  const EmptyBuffer := Buffer([], 0, 0)

  /** The text the cursor's selection covers. */
  function SelectedText(b: Buffer): (t: string)
    requires b.Valid()
    ensures |t| == b.selEnd - b.selStart
    ensures b.text == b.text[..b.selStart] + t + b.text[b.selEnd..]
  {
    b.text[b.selStart..b.selEnd]
  }

  /** The text with n characters removed at position i. */
  function Remove(s: string, i: nat, n: nat): (r: string)
    requires i + n <= |s|
    ensures |r| == |s| - n
  {
    s[..i] + s[i + n..]
  }

  /** QTextCursor.insertText: the selection is replaced by s (or s is inserted
      at the cursor when nothing is selected), and the cursor ends, with no
      selection, just after the inserted text. */
  function InsertText(b: Buffer, s: string): (r: Buffer)
    requires b.Valid()
    ensures r.Valid()
    ensures r.selStart == r.selEnd == b.selStart + |s|
    ensures |r.text| == |b.text| - (b.selEnd - b.selStart) + |s|
    ensures r.text[..b.selStart] == b.text[..b.selStart]
    ensures r.text[b.selStart..r.selStart] == s
    ensures r.text[r.selStart..] == b.text[b.selEnd..]
  {
    var text := b.text[..b.selStart] + s + b.text[b.selEnd..];
    assert text[..b.selStart] == b.text[..b.selStart];
    assert text[b.selStart..b.selStart + |s|] == s;
    assert text[b.selStart + |s|..] == b.text[b.selEnd..];
    Buffer(text, b.selStart + |s|, b.selStart + |s|)
  }

  /** Removing what InsertText put in gives back the text without the
      selection: insertion of s at the selection is undone by deleting |s|
      characters there and putting the selected text back. */
  lemma InsertTextInverse(b: Buffer, s: string)
    requires b.Valid()
    ensures Remove(InsertText(b, s).text, b.selStart, |s|) == Remove(b.text, b.selStart, b.selEnd - b.selStart)
    ensures var r := Remove(InsertText(b, s).text, b.selStart, |s|);
            r[..b.selStart] + SelectedText(b) + r[b.selStart..] == b.text
  {
    var r := InsertText(b, s);
    assert r.text[..b.selStart] == b.text[..b.selStart];
    assert r.text[b.selStart + |s|..] == b.text[b.selEnd..];
  }

  /** The inserted text sits between the kept prefix and suffix. */
  lemma InsertTextShape(b: Buffer, s: string)
    requires b.Valid()
    ensures InsertText(b, s).text == b.text[..b.selStart] + s + b.text[b.selEnd..]
  {
  }

  /** What insert_markdown_syntax types: the selection wrapped in the syntax,
      or the bare syntax when nothing is selected. */
  function MarkdownSyntaxText(selected: string, syntax: string): string {
    if selected != [] then syntax + selected + syntax else syntax
  }

  /** insert_markdown_syntax(syntax) on the editor buffer. */
  function WrapSelection(b: Buffer, syntax: string): (r: Buffer)
    requires b.Valid()
    ensures r.Valid()
    ensures b.selStart < b.selEnd ==>
      r.text == b.text[..b.selStart] + syntax + SelectedText(b) + syntax + b.text[b.selEnd..]
    ensures b.selStart == b.selEnd ==>
      r.text == b.text[..b.selStart] + syntax + b.text[b.selStart..] && |r.text| == |b.text| + |syntax|
    ensures r.selStart == r.selEnd == b.selStart + |MarkdownSyntaxText(SelectedText(b), syntax)|
  {
    var t := SelectedText(b);
    InsertTextShape(b, MarkdownSyntaxText(t, syntax));
    InsertText(b, MarkdownSyntaxText(t, syntax))
  }

  /** Removing the middle piece of a three-part string. */
  lemma RemoveMiddle(a: string, m: string, c: string)
    ensures Remove(a + m + c, |a|, |m|) == a + c
  {
    var s := a + m + c;
    assert s[..|a|] == a;
    assert s[|a| + |m|..] == c;
  }

  /** Deleting the closing and then the opening marker of
      s == pre + syntax + t + syntax + post, with pre of length i, gives
      pre + t + post. */
  lemma RemoveMarkers(s: string, i: nat, pre: string, syntax: string, t: string, post: string)
    requires s == pre + syntax + t + syntax + post && i == |pre|
    ensures Remove(Remove(s, i + |syntax| + |t|, |syntax|), i, |syntax|) == pre + t + post
  {
    var a := pre + syntax + t;
    assert s == a + syntax + post;
    RemoveMiddle(a, syntax, post);
    assert a + post == pre + syntax + (t + post);
    RemoveMiddle(pre, syntax, t + post);
    assert pre + (t + post) == pre + t + post;
  }

  /** Deleting the two markers that WrapSelection added restores the original
      text, and the cursor ends just after the closing marker. */
  lemma WrapSelectionInverse(b: Buffer, syntax: string)
    requires b.Valid() && b.selStart < b.selEnd
    ensures var r, t := WrapSelection(b, syntax), SelectedText(b);
            r.selStart == b.selStart + |syntax| + |t| + |syntax|
    ensures var r, t := WrapSelection(b, syntax), SelectedText(b);
            r.text[b.selStart..r.selStart] == syntax + t + syntax
    ensures var r, t := WrapSelection(b, syntax), SelectedText(b);
            Remove(Remove(r.text, b.selStart + |syntax| + |t|, |syntax|), b.selStart, |syntax|) == b.text
  {
    var t := SelectedText(b);
    var pre, post := b.text[..b.selStart], b.text[b.selEnd..];
    RemoveMarkers(WrapSelection(b, syntax).text, b.selStart, pre, syntax, t, post);
  }

  /** With nothing selected, deleting the inserted syntax restores the text. */
  lemma InsertSyntaxInverse(b: Buffer, syntax: string)
    requires b.Valid() && b.selStart == b.selEnd
    ensures Remove(WrapSelection(b, syntax).text, b.selStart, |syntax|) == b.text
  {
    var r := WrapSelection(b, syntax);
    assert r.text[..b.selStart] == b.text[..b.selStart];
    assert r.text[b.selStart + |syntax|..] == b.text[b.selStart..];
  }

  /** Selecting a whole non-empty document and wrapping it gives
      syntax + document + syntax ("test" becomes "**test**"). */
  lemma WrapWholeDocument(text: string, syntax: string)
    requires text != []
    ensures WrapSelection(Buffer(text, 0, |text|), syntax).text == syntax + text + syntax
  {
    var b := Buffer(text, 0, |text|);
    assert b.text[..0] == [] && b.text[|text|..] == [];
    assert SelectedText(b) == text;
  }

  /** The placeholder label of insert_link. */
  const LinkPlaceholder := "link text"

  /** The fixed text of insert_image. */
  const ImageMarkup := "![alt text](image_url)"

  /** What insert_link types: the selection, or the placeholder, as a link label. */
  function LinkText(selected: string): (s: string)
    ensures |s| == 7 + |if selected != [] then selected else LinkPlaceholder|
    ensures s[..1] == "[" && s[|s| - 6..] == "](url)"
    ensures s[1..|s| - 6] == (if selected != [] then selected else LinkPlaceholder)
  {
    "[" + (if selected != [] then selected else LinkPlaceholder) + "](url)"
  }

  /** insert_link on the editor buffer. */
  function InsertLink(b: Buffer): (r: Buffer)
    requires b.Valid()
    ensures r.Valid()
    ensures var shown := if b.selStart < b.selEnd then SelectedText(b) else LinkPlaceholder;
            r.text == b.text[..b.selStart] + "[" + shown + "](url)" + b.text[b.selEnd..]
    ensures r.selStart == r.selEnd == b.selStart + |LinkText(SelectedText(b))|
  {
    InsertTextShape(b, LinkText(SelectedText(b)));
    InsertText(b, LinkText(SelectedText(b)))
  }

  /** insert_image on the editor buffer: the selection, if any, is lost. */
  function InsertImage(b: Buffer): (r: Buffer)
    requires b.Valid()
    ensures r.Valid()
    ensures r.text == b.text[..b.selStart] + ImageMarkup + b.text[b.selEnd..]
    ensures r.selStart == r.selEnd == b.selStart + |ImageMarkup|
  {
    InsertTextShape(b, ImageMarkup);
    InsertText(b, ImageMarkup)
  }
}
