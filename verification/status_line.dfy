/**
 * The status line of the main window: file name, word count and character
 * count of the document (MainWindow.update_status in QuickMD/ui.py).
 */
module StatusLine {
  import opened Wrappers

  /** Python's str.isspace(), the separator set of str.split() with no
      argument: the ASCII controls 9-13 and 28-31, the space, and the Unicode
      white-space characters. */
  predicate IsSpace(c: char) {
    var n := c as int;
    || 9 <= n <= 13 || 28 <= n <= 32 || n == 0x85 || n == 0xA0 || n == 0x1680
    || 0x2000 <= n <= 0x200A || n == 0x2028 || n == 0x2029 || n == 0x202F
    || n == 0x205F || n == 0x3000
  }

  /** The separators of str.split() among the ASCII characters are tab, line
      feed, vertical tab, form feed, carriage return, the four information
      separators and the space. No-break and ideographic spaces separate
      words too; the zero-width space and the byte-order mark do not. */
  lemma SplitSeparators()
    ensures forall c: char :: c as int < 0x80 ==>
      (IsSpace(c) <==> c == '\t' || c == '\n' || c == '\U{B}' || c == '\U{C}' || c == '\r'
                       || c == '\U{1C}' || c == '\U{1D}' || c == '\U{1E}' || c == '\U{1F}' || c == ' ')
    ensures IsSpace('\U{A0}') && IsSpace('\U{3000}')
    ensures !IsSpace('\U{200B}') && !IsSpace('\U{FEFF}')
  {
  }

  // The word functions below take the separator test as a parameter sep;
  // str.split() with no argument is the case sep == IsSpace. Keeping sep
  // abstract keeps the counting proofs independent of the character table.

  /** A word of str.split(): non-empty and without separators. */
  predicate IsWord(sep: char -> bool, w: string) {
    w != [] && forall i :: 0 <= i < |w| ==> !sep(w[i])
  }

  /** Length of the run of non-separator characters that s starts with; the
      run ends at a separator or at the end of s. */
  function RunLength(sep: char -> bool, s: string): (n: nat)
    ensures n <= |s|
    ensures n < |s| ==> sep(s[n])
  {
    if s == [] || sep(s[0]) then 0 else 1 + RunLength(sep, s[1..])
  }

  /** The run holds no separator. */
  lemma {:induction false} RunHasNoSeparator(sep: char -> bool, s: string)
    ensures forall i :: 0 <= i < RunLength(sep, s) ==> !sep(s[i])
  {
    if s != [] && !sep(s[0]) {
      RunHasNoSeparator(sep, s[1..]);
      forall i | 1 <= i < RunLength(sep, s) ensures !sep(s[i]) {
        assert s[i] == s[1..][i - 1];
      }
    }
  }

  /** str.split() with no argument, for sep == IsSpace: the maximal runs of
      non-separator characters, in order. */
  function Words(sep: char -> bool, s: string): (ws: seq<string>)
    ensures forall k :: 0 <= k < |ws| ==> IsWord(sep, ws[k])
    decreases |s|
  {
    if s == [] then []
    else if sep(s[0]) then Words(sep, s[1..])
    else
      var n := RunLength(sep, s);
      RunHasNoSeparator(sep, s);
      [s[..n]] + Words(sep, s[n..])
  }

  /** Position i begins a word: a non-separator character at the start of the
      text or after a separator. */
  predicate IsWordStart(sep: char -> bool, s: string, i: int) {
    0 <= i < |s| && !sep(s[i]) && (i == 0 || sep(s[i - 1]))
  }

  /** Number of word starts at positions lo and above. */
  function WordStartsFrom(sep: char -> bool, s: string, lo: nat): nat
    decreases |s| - lo
  {
    if lo >= |s| then 0
    else (if IsWordStart(sep, s, lo) then 1 else 0) + WordStartsFrom(sep, s, lo + 1)
  }

  /** Inside a run of non-separator characters no word starts. */
  lemma {:induction false} NoStartsInRun(sep: char -> bool, s: string, a: nat, b: nat)
    requires 0 < a <= b <= |s|
    requires forall i :: a - 1 <= i < b - 1 ==> !sep(s[i])
    ensures WordStartsFrom(sep, s, a) == WordStartsFrom(sep, s, b)
    decreases b - a
  {
    if a < b {
      assert !IsWordStart(sep, s, a) by { assert !sep(s[a - 1]); }
      NoStartsInRun(sep, s, a + 1, b);
    }
  }

  /** A separator at lo is skipped by str.split() and starts no word. */
  lemma SkipSpace(sep: char -> bool, s: string, lo: nat)
    requires lo < |s| && sep(s[lo])
    ensures |Words(sep, s[lo..])| == |Words(sep, s[lo + 1..])|
    ensures WordStartsFrom(sep, s, lo) == WordStartsFrom(sep, s, lo + 1)
  {
    assert s[lo..][1..] == s[lo + 1..];
  }

  /** A word starting at lo is one word of str.split() and one word start;
      the rest of the text begins where the run ends. */
  lemma SkipWord(sep: char -> bool, s: string, lo: nat) returns (n: nat)
    requires lo < |s| && IsWordStart(sep, s, lo)
    ensures 0 < n && lo + n <= |s|
    ensures lo + n < |s| ==> sep(s[lo + n])
    ensures |Words(sep, s[lo..])| == 1 + |Words(sep, s[lo + n..])|
    ensures WordStartsFrom(sep, s, lo) == 1 + WordStartsFrom(sep, s, lo + n)
  {
    var t := s[lo..];
    n := RunLength(sep, t);
    RunHasNoSeparator(sep, t);
    assert t[0] == s[lo];
    assert Words(sep, t) == [t[..n]] + Words(sep, t[n..]);
    assert t[n..] == s[lo + n..];
    forall i | lo <= i < lo + n - 1 ensures !sep(s[i]) {
      assert s[i] == t[i - lo];
    }
    NoStartsInRun(sep, s, lo + 1, lo + n);
    if lo + n < |s| {
      assert t[n] == s[lo + n];
    }
  }

  /** The number of words str.split() returns is the number of word starts of
      the text, that is, of its maximal runs of non-separator characters. */
  lemma {:induction false} WordCountIsRunCount(sep: char -> bool, s: string, lo: nat)
    requires lo <= |s|
    requires lo == 0 || sep(s[lo - 1])
    ensures |Words(sep, s[lo..])| == WordStartsFrom(sep, s, lo)
    decreases |s| - lo
  {
    if lo == |s| {
      assert s[lo..] == [];
    } else if sep(s[lo]) {
      SkipSpace(sep, s, lo);
      WordCountIsRunCount(sep, s, lo + 1);
    } else {
      assert IsWordStart(sep, s, lo);
      var n := SkipWord(sep, s, lo);
      if lo + n < |s| {
        SkipSpace(sep, s, lo + n);
        WordCountIsRunCount(sep, s, lo + n + 1);
      } else {
        assert s[lo + n..] == [];
      }
    }
  }

  /** The characters of s that are not separators, in order. */
  function NonSpace(sep: char -> bool, s: string): string {
    if s == [] then []
    else if sep(s[0]) then NonSpace(sep, s[1..])
    else [s[0]] + NonSpace(sep, s[1..])
  }

  /** All words joined together. */
  function Concat(ws: seq<string>): string {
    if ws == [] then [] else ws[0] + Concat(ws[1..])
  }

  lemma {:induction false} NonSpaceAppend(sep: char -> bool, a: string, b: string)
    ensures NonSpace(sep, a + b) == NonSpace(sep, a) + NonSpace(sep, b)
  {
    if a != [] {
      assert (a + b)[0] == a[0];
      assert (a + b)[1..] == a[1..] + b;
      NonSpaceAppend(sep, a[1..], b);
    } else {
      assert a + b == b;
    }
  }

  lemma {:induction false} NonSpaceOfRun(sep: char -> bool, w: string)
    requires forall i :: 0 <= i < |w| ==> !sep(w[i])
    ensures NonSpace(sep, w) == w
  {
    if w != [] {
      NonSpaceOfRun(sep, w[1..]);
    }
  }

  /** The words of str.split(), joined, are exactly the non-separator
      characters of the text, in order: splitting loses nothing but the
      separators. */
  lemma {:induction false} WordsKeepAllNonSpace(sep: char -> bool, s: string)
    ensures Concat(Words(sep, s)) == NonSpace(sep, s)
    decreases |s|
  {
    if s != [] {
      if sep(s[0]) {
        WordsKeepAllNonSpace(sep, s[1..]);
      } else {
        var n := RunLength(sep, s);
        RunHasNoSeparator(sep, s);
        var ws := Words(sep, s);
        assert ws == [s[..n]] + Words(sep, s[n..]);
        assert ws[1..] == Words(sep, s[n..]);
        WordsKeepAllNonSpace(sep, s[n..]);
        assert s == s[..n] + s[n..];
        NonSpaceAppend(sep, s[..n], s[n..]);
        NonSpaceOfRun(sep, s[..n]);
      }
    }
  }

  predicate IsDigit(c: char) {
    '0' as int <= c as int <= '9' as int
  }

  function Digit(d: nat): (c: char)
    requires d < 10
    ensures IsDigit(c) && c as int - '0' as int == d
  {
    ('0' as int + d) as char
  }

  /** Python's str() of a non-negative int: decimal digits, no leading zero. */
  function Decimal(n: nat): (s: string)
    ensures |s| >= 1
    ensures forall i :: 0 <= i < |s| ==> IsDigit(s[i])
    ensures (s[0] == '0') == (n == 0)
    decreases n
  {
    if n < 10 then [Digit(n)] else Decimal(n / 10) + [Digit(n % 10)]
  }

  /** The number a string of decimal digits denotes. */
  function DecimalValue(s: string): nat
    requires forall i :: 0 <= i < |s| ==> IsDigit(s[i])
  {
    if s == [] then 0
    else
      assert IsDigit(s[|s| - 1]);
      DecimalValue(s[..|s| - 1]) * 10 + (s[|s| - 1] as int - '0' as int)
  }

  /** Reading back the printed count gives the count. */
  lemma {:induction false} DecimalRoundTrip(n: nat)
    ensures DecimalValue(Decimal(n)) == n
    decreases n
  {
    if n >= 10 {
      var s := Decimal(n);
      assert s[..|s| - 1] == Decimal(n / 10);
      DecimalRoundTrip(n / 10);
    }
  }

  /** The text with the trailing '/' characters removed. */
  function StripTrailingSlashes(p: string): (r: string)
    ensures r == [] || r[|r| - 1] != '/'
  {
    if p != [] && p[|p| - 1] == '/' then StripTrailingSlashes(p[..|p| - 1]) else p
  }

  /** The characters after the last '/'. */
  function LastComponent(p: string): (r: string)
    ensures '/' !in r
    ensures |r| <= |p|
  {
    if p == [] || p[|p| - 1] == '/' then [] else LastComponent(p[..|p| - 1]) + [p[|p| - 1]]
  }

  /** pathlib's Path(p).name for a POSIX path: its final component. */
  function FileName(p: string): (name: string)
    ensures '/' !in name
  {
    LastComponent(StripTrailingSlashes(p))
  }

  lemma {:induction false} LastComponentAfterSlash(dir: string, name: string)
    requires dir == [] || dir[|dir| - 1] == '/'
    requires '/' !in name
    ensures LastComponent(dir + name) == name
    decreases |name|
  {
    if name == [] {
      assert dir + name == dir;
    } else {
      var p := dir + name;
      var init, last := name[..|name| - 1], name[|name| - 1];
      assert name == init + [last];
      assert p == (dir + init) + [last];
      assert p[..|p| - 1] == dir + init;
      LastComponentAfterSlash(dir, init);
    }
  }

  /** The name of "dir/name" is name; a bare name is its own name. */
  lemma FileNameOfJoin(dir: string, name: string)
    requires name != [] && '/' !in name
    ensures FileName(dir + "/" + name) == name
    ensures FileName(name) == name
  {
    var p := dir + "/" + name;
    assert p[|p| - 1] == name[|name| - 1];
    assert StripTrailingSlashes(p) == p;
    LastComponentAfterSlash(dir + "/", name);
    assert StripTrailingSlashes(name) == name;
    LastComponentAfterSlash([], name);
    assert [] + name == name;
  }

  /** What the status bar reports about a document. */
  datatype Status = Status(fileName: string, words: nat, chars: nat)

  const UntitledName := "Untitled"

  /** The facts update_status computes: len(text.split()), len(text) and the
      current file's name, or 'Untitled' when there is none. */
  function DocumentStatus(text: string, currentFile: Option<string>): (st: Status)
    ensures st.chars == |text|
    ensures st.words == WordStartsFrom(IsSpace, text, 0)
    ensures currentFile == None ==> st.fileName == UntitledName
    ensures currentFile.Some? ==> st.fileName == FileName(currentFile.value) && '/' !in st.fileName
  {
    assert text[0..] == text;
    WordCountIsRunCount(IsSpace, text, 0);
    var name := if currentFile.Some? then FileName(currentFile.value) else UntitledName;
    Status(name, |Words(IsSpace, text)|, |text|)
  }

  /** The message shown: "<name> - Words: <words>, Characters: <chars>". */
  function StatusMessage(st: Status): string {
    st.fileName + " - Words: " + Decimal(st.words) + ", Characters: " + Decimal(st.chars)
  }

  /** Both counts can be read back from the message: the word count is the
      run of digits after "<name> - Words: ", which a comma ends, and the
      character count is the run of digits at the end, after a space. */
  lemma StatusMessageReadsBack(st: Status)
    ensures var m, a := StatusMessage(st), |st.fileName| + 10;
            var nw, nc := |Decimal(st.words)|, |Decimal(st.chars)|;
            && |m| == a + nw + 14 + nc
            && m[..a] == st.fileName + " - Words: "
            && (forall i :: a <= i < a + nw ==> IsDigit(m[i])) && m[a + nw] == ','
            && DecimalValue(m[a..a + nw]) == st.words
            && (forall i :: |m| - nc <= i < |m| ==> IsDigit(m[i])) && m[|m| - nc - 1] == ' '
            && DecimalValue(m[|m| - nc..]) == st.chars
  {
    var dw, dc := Decimal(st.words), Decimal(st.chars);
    var head := st.fileName + " - Words: ";
    var tail := ", Characters: " + dc;
    var m := StatusMessage(st);
    assert m == head + dw + tail;
    assert m[..|head|] == head;
    assert m[|head|..|head| + |dw|] == dw;
    assert m[|head| + |dw|] == tail[0] == ',';
    assert m[|m| - |dc|..] == dc;
    assert m[|m| - |dc| - 1] == tail[13] == ' ';
    DecimalRoundTrip(st.words);
    DecimalRoundTrip(st.chars);
  }
}
