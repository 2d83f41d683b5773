/** The GUI text editor's buffer (kernel/src/gui/mod.rs, `TextEditorState`):
    a list of lines and a cursor, the flat text `content()` joins with
    newlines, and the undo/redo stacks. Characters stand for bytes: the
    buffer is modelled for ASCII text, where `String::len` and `insert`
    count characters. */
module Editor {
  import opened Common
  import Text

  const UNDO_LIMIT: nat := 100
  const BLINK_PERIOD: nat := 30

  /** The lines and the cursor (`cursor_line`, `cursor_col`): what the
      edits change, and what the undo and redo stacks hold. */
  datatype Buffer = Buffer(lines: seq<string>, line: nat, col: nat)

  datatype TextEditor = TextEditor(
    buf: Buffer,
    scrollY: nat,
    scrollX: nat,
    filename: Option<string>,
    modified: bool,
    undo: seq<Buffer>,
    redo: seq<Buffer>,
    selection: Option<(nat, nat)>,
    cursorVisible: bool,
    blink: nat)

  /** The cursor invariant: there is a line, the cursor is on one, and its
      column is at most that line's length. */
  predicate Cursor(b: Buffer)
  {
    |b.lines| >= 1 && b.line < |b.lines| && b.col <= |b.lines[b.line]|
  }

  /** The editor invariant: the cursor, and every state undo or redo can
      bring back. */
  predicate Valid(e: TextEditor)
  {
    && Cursor(e.buf)
    && (forall k :: 0 <= k < |e.undo| ==> Cursor(e.undo[k]))
    && (forall k :: 0 <= k < |e.redo| ==> Cursor(e.redo[k]))
  }

  // ---------------------------------------------------------------------
  // The flat text

  /** `content()`: the lines joined by newlines. */
  function Content(lines: seq<string>): string
  {
    Text.JoinWith("\n", lines)
  }

  /** The text of the lines above a line, each with its newline. */
  function Above(p: seq<string>): string
  {
    if p == [] then "" else Content(p) + "\n"
  }

  /** The text of the lines below a line, each after its newline. */
  function Below(s: seq<string>): string
  {
    if s == [] then "" else "\n" + Content(s)
  }

  /** Characters a run of lines takes up in the text, newlines included. */
  function Span(p: seq<string>): nat
  {
    if p == [] then 0 else |p[0]| + 1 + Span(p[1..])
  }

  /** The cursor's position in `content()`. */
  function Offset(lines: seq<string>, line: nat, col: nat): nat
    requires line <= |lines|
  {
    Span(lines[..line]) + col
  }

  function Position(b: Buffer): nat
    requires b.line <= |b.lines|
  {
    Offset(b.lines, b.line, b.col)
  }

  function Lens(lines: seq<string>): (r: seq<nat>)
    ensures |r| == |lines|
    ensures forall k :: 0 <= k < |r| ==> r[k] == |lines[k]|
  {
    if lines == [] then [] else [|lines[0]|] + Lens(lines[1..])
  }

  /** `char_count`: the line lengths plus one newline between each pair. */
  function CharCount(lines: seq<string>): nat
  {
    Sum(Lens(lines)) + (if |lines| >= 1 then |lines| - 1 else 0)
  }

  /** Joining a line in front of a non-empty run of lines. */
  lemma JoinCons(x: string, ws: seq<string>)
    requires ws != []
    ensures Content([x] + ws) == x + "\n" + Content(ws)
  {
    assert ([x] + ws)[1..] == ws;
  }

  /** The text from a line down. */
  lemma FrameTop(x: string, s: seq<string>)
    ensures Content([x] + s) == x + Below(s)
  {
    if s != [] {
      JoinCons(x, s);
    } else {
      assert [x] + s == [x];
    }
  }

  /** The text above a line grows by one line and its newline. */
  lemma AboveCons(p: seq<string>)
    requires p != []
    ensures Above(p) == p[0] + "\n" + Above(p[1..])
  {
    var q := p[1..];
    if q != [] {
      assert p == [p[0]] + q;
      JoinCons(p[0], q);
    } else {
      assert p == [p[0]];
    }
  }

  /** A line sits in the text between the lines above and below it. */
  lemma {:induction false} Frame(p: seq<string>, x: string, s: seq<string>)
    ensures Content(p + [x] + s) == Above(p) + x + Below(s)
  {
    if p == [] {
      assert p + [x] + s == [x] + s;
      FrameTop(x, s);
    } else {
      var q := p[1..];
      var rest := q + [x] + s;
      assert p + [x] + s == [p[0]] + rest;
      JoinCons(p[0], rest);
      Frame(q, x, s);
      AboveCons(p);
      var h, a, b := p[0] + "\n", Above(q), Below(s);
      assert Content(p + [x] + s) == h + (a + x + b);
      assert h + (a + x + b) == (h + a) + x + b;
    }
  }

  /** The text above a line ends with the line just above it. */
  lemma AboveSnoc(p: seq<string>, a: string)
    ensures Above(p + [a]) == Above(p) + a + "\n"
  {
    Frame(p, a, []);
    assert p + [a] + [] == p + [a];
  }

  lemma {:induction false} SpanAppend(a: seq<string>, b: seq<string>)
    ensures Span(a + b) == Span(a) + Span(b)
  {
    if a != [] {
      assert (a + b)[1..] == a[1..] + b;
      SpanAppend(a[1..], b);
    } else {
      assert a + b == b;
    }
  }

  /** `Span` counts the characters of the text above a line. */
  lemma {:induction false} SpanAbove(p: seq<string>)
    ensures |Above(p)| == Span(p)
  {
    if p != [] {
      var q := p[..|p| - 1];
      var a := p[|p| - 1];
      assert p == q + [a];
      AboveSnoc(q, a);
      SpanAbove(q);
      SpanAppend(q, [a]);
      assert Span([a]) == |a| + 1;
    }
  }

  /** The cursor splits the text into what is before and after it. */
  lemma CursorSplit(lines: seq<string>, k: nat, col: nat)
    requires k < |lines| && col <= |lines[k]|
    ensures var c := Content(lines); var o := Offset(lines, k, col);
      && o <= |c|
      && c[..o] == Above(lines[..k]) + lines[k][..col]
      && c[o..] == lines[k][col..] + Below(lines[k + 1..])
  {
    var p, l, s := lines[..k], lines[k], lines[k + 1..];
    assert lines == p + [l] + s;
    Frame(p, l, s);
    SpanAbove(p);
    var a := Above(p);
    assert l == l[..col] + l[col..];
    assert Content(lines) == (a + l[..col]) + (l[col..] + Below(s));
  }

  /** The cursor is at the start of the text exactly at the first column of
      the first line, and at its end exactly at the end of the last line. */
  lemma CursorEnds(lines: seq<string>, k: nat, col: nat)
    requires k < |lines| && col <= |lines[k]|
    ensures Offset(lines, k, col) == 0 <==> k == 0 && col == 0
    ensures Offset(lines, k, col) == |Content(lines)| <==> k == |lines| - 1 && col == |lines[k]|
  {
    CursorSplit(lines, k, col);
    var p, s := lines[..k], lines[k + 1..];
    SpanAbove(p);
    assert p != [] ==> |Above(p)| >= 1;
    assert s != [] ==> |Below(s)| >= 1;
    var c := Content(lines);
    var o := Offset(lines, k, col);
    assert |c| == |c[..o]| + |c[o..]|;
  }

  /** `char_count` is the length of `content()`. */
  lemma {:induction false} CharCountIsLength(lines: seq<string>)
    ensures CharCount(lines) == |Content(lines)|
  {
    if |lines| > 1 {
      var q := lines[1..];
      CharCountIsLength(q);
      assert Lens(lines) == [|lines[0]|] + Lens(q);
      assert Content(lines) == lines[0] + "\n" + Content(q);
    } else if |lines| == 1 {
      assert Lens(lines) == [|lines[0]|];
      assert Sum(Lens(lines)) == |lines[0]| + Sum([]);
    }
  }

  // ---------------------------------------------------------------------
  // Creating, loading and saving

  /** `TextEditorState::new`: one empty line, cursor at its start. */
  function New(): (e: TextEditor)
    ensures Valid(e) && Content(e.buf.lines) == "" && Position(e.buf) == 0
  {
    TextEditor(Buffer([""], 0, 0), 0, 0, None, false, [], [], None, true, 0)
  }

  predicate NewlineFree(s: string)
  {
    forall k :: 0 <= k < |s| ==> s[k] != '\n'
  }

  /** Where the first line of `s` ends: the first newline, or the end. */
  function LineEnd(s: string): (i: nat)
    ensures i <= |s| && NewlineFree(s[..i]) && (i < |s| ==> s[i] == '\n')
  {
    if s == [] || s[0] == '\n' then 0
    else
      var i := LineEnd(s[1..]);
      assert s[..i + 1] == [s[0]] + s[1..][..i];
      i + 1
  }

  predicate EndsCr(s: string)
  {
    s != [] && s[|s| - 1] == '\r'
  }

  function StripCr(s: string): string
  {
    if EndsCr(s) then s[..|s| - 1] else s
  }

  /** `str::lines`: pieces ended by "\n" or "\r\n"; the last line needs no
      ending, and an ending at the very end adds no empty line. */
  function Lines(s: string): seq<string>
    decreases |s|
  {
    if s == [] then []
    else
      var i := LineEnd(s);
      if i == |s| then [s] else [StripCr(s[..i])] + Lines(s[i + 1..])
  }

  /** The lines `load_file` keeps: an empty text gives one empty line. */
  function LoadLines(s: string): (ls: seq<string>)
    ensures |ls| >= 1
  {
    var ls := Lines(s);
    if ls == [] then [""] else ls
  }

  /** `load_file`: `text` is the file's content when `read_file` succeeds
      (`None` when it fails, which changes nothing). */
  function Load(e: TextEditor, path: string, text: Option<string>): (r: TextEditor)
    ensures text.None? ==> r == e
    ensures text.Some? ==> (Valid(r) && Position(r.buf) == 0 && r.filename == Some(path)
      && r.buf.lines == LoadLines(text.value) && r.undo == [] && r.redo == [] && !r.modified)
  {
    match text
    case None => e
    case Some(t) =>
      e.(buf := Buffer(LoadLines(t), 0, 0), filename := Some(path),
         scrollY := 0, scrollX := 0, modified := false, undo := [], redo := [],
         selection := None)
  }

  /** `save_file`: with a file name, writes `content()` there; `write` is
      the filesystem's answer to writing a text at a path. The result is
      the new state and whether the save succeeded. */
  function Save(e: TextEditor, write: (string, string) -> bool): (r: (TextEditor, bool))
    ensures r.1 <==> e.filename.Some? && write(e.filename.value, Content(e.buf.lines))
    ensures r.0 == if r.1 then e.(modified := false) else e
  {
    if e.filename.Some? && write(e.filename.value, Content(e.buf.lines)) then (e.(modified := false), true)
    else (e, false)
  }

  predicate Reloadable(ls: seq<string>)
  {
    && |ls| >= 1
    && (forall k :: 0 <= k < |ls| ==> NewlineFree(ls[k]) && !EndsCr(ls[k]))
    && (|ls| > 1 ==> ls[|ls| - 1] != "")
  }

  /** A newline-free piece followed by a newline (or by nothing) is the
      first line. */
  lemma {:induction false} LineEndAfter(x: string, rest: string)
    requires NewlineFree(x) && (rest != [] ==> rest[0] == '\n')
    ensures LineEnd(x + rest) == |x|
    decreases |x|
  {
    if x != [] {
      assert (x + rest)[0] == x[0];
      assert (x + rest)[1..] == x[1..] + rest;
      LineEndAfter(x[1..], rest);
    } else {
      assert x + rest == rest;
    }
  }

  lemma {:induction false} LinesOfContent(ls: seq<string>)
    requires |ls| >= 1 && ls[|ls| - 1] != ""
    requires forall k :: 0 <= k < |ls| ==> NewlineFree(ls[k]) && !EndsCr(ls[k])
    ensures Lines(Content(ls)) == ls
  {
    var x := ls[0];
    if |ls| == 1 {
      LineEndAfter(x, []);
      assert x + [] == x;
    } else {
      var q := ls[1..];
      var c := x + "\n" + Content(q);
      assert Content(ls) == c;
      assert c == x + ("\n" + Content(q));
      LineEndAfter(x, "\n" + Content(q));
      assert c[..|x|] == x;
      assert c[|x| + 1..] == Content(q);
      LinesOfContent(q);
    }
  }

  /** Saving then loading gives the lines back, unless a line holds a
      newline, ends in a carriage return, or the last of several lines is
      empty (`str::lines` drops that one). */
  lemma SaveThenLoad(ls: seq<string>)
    requires Reloadable(ls)
    ensures LoadLines(Content(ls)) == ls
  {
    if ls == [""] {
      assert Content(ls) == "";
    } else {
      LinesOfContent(ls);
    }
  }

  /** A trailing empty line does not survive a save and reload. */
  lemma TrailingEmptyLineLost()
    ensures LoadLines(Content(["a", ""])) == ["a"]
  {
    var s := "a\n";
    assert Content(["a", ""]) == "a" + "\n" + "";
    assert "a" + "\n" + "" == s;
    assert s[1..] == "\n";
    assert LineEnd(s[1..]) == 0;
    assert LineEnd(s) == 1;
    assert s[..1] == "a";
    assert !EndsCr("a");
    assert s[2..] == [];
    assert Lines(s) == ["a"] + Lines([]);
  }

  // ---------------------------------------------------------------------
  // Undo and redo

  /** `push_undo`: the current buffer goes on the undo stack, the oldest
      entry is dropped past the limit, and the redo stack is cleared. */
  function PushUndo(e: TextEditor): (r: TextEditor)
    ensures r == e.(undo := r.undo, redo := [])
    ensures r.undo != [] && r.undo[|r.undo| - 1] == e.buf
    ensures |e.undo| < UNDO_LIMIT ==> r.undo == e.undo + [e.buf]
    ensures |e.undo| == UNDO_LIMIT ==> r.undo == e.undo[1..] + [e.buf]
    ensures |e.undo| <= UNDO_LIMIT ==> |r.undo| <= UNDO_LIMIT
  {
    var u := e.undo + [e.buf];
    e.(undo := if |u| > UNDO_LIMIT then u[1..] else u, redo := [])
  }

  /** `undo`: the latest undo entry comes back; the current buffer goes on
      the redo stack. */
  function Undo(e: TextEditor): (r: TextEditor)
    ensures e.undo == [] ==> r == e
    ensures e.undo != [] ==> r.undo + [r.buf] == e.undo && r.redo == e.redo + [e.buf] && r.modified
    ensures |r.undo| + |r.redo| == |e.undo| + |e.redo|
  {
    if e.undo == [] then e
    else
      var n := |e.undo|;
      e.(buf := e.undo[n - 1], undo := e.undo[..n - 1], redo := e.redo + [e.buf], modified := true)
  }

  /** `redo`: the mirror image of `Undo`. */
  function Redo(e: TextEditor): (r: TextEditor)
    ensures e.redo == [] ==> r == e
    ensures e.redo != [] ==> r.redo + [r.buf] == e.redo && r.undo == e.undo + [e.buf] && r.modified
    ensures |r.undo| + |r.redo| == |e.undo| + |e.redo|
  {
    if e.redo == [] then e
    else
      var n := |e.redo|;
      e.(buf := e.redo[n - 1], redo := e.redo[..n - 1], undo := e.undo + [e.buf], modified := true)
  }

  /** Redo after undo brings back the buffer and both stacks. */
  lemma RedoUndo(e: TextEditor)
    requires e.undo != []
    ensures var r := Redo(Undo(e));
      r.buf == e.buf && r.undo == e.undo && r.redo == e.redo && r.modified
  {
    var n := |e.undo|;
    assert e.undo[..n - 1] + [e.undo[n - 1]] == e.undo;
  }

  /** Undo after redo does the same. */
  lemma UndoRedo(e: TextEditor)
    requires e.redo != []
    ensures var r := Undo(Redo(e));
      r.buf == e.buf && r.undo == e.undo && r.redo == e.redo && r.modified
  {
    var n := |e.redo|;
    assert e.redo[..n - 1] + [e.redo[n - 1]] == e.redo;
  }

  /** Undo and redo keep the invariant, and an empty stack changes nothing. */
  lemma UndoRedoValid(e: TextEditor)
    requires Valid(e)
    ensures Valid(Undo(e)) && Valid(Redo(e))
    ensures e.undo == [] ==> Undo(e) == e
    ensures e.redo == [] ==> Redo(e) == e
  {
    if e.undo != [] {
      var r := Undo(e);
      assert forall k :: 0 <= k < |r.undo| ==> r.undo[k] == e.undo[k];
      assert Cursor(e.undo[|e.undo| - 1]);
    }
    if e.redo != [] {
      var r := Redo(e);
      assert forall k :: 0 <= k < |r.redo| ==> r.redo[k] == e.redo[k];
      assert Cursor(e.redo[|e.redo| - 1]);
    }
  }

  lemma PushUndoValid(e: TextEditor)
    requires Valid(e)
    ensures Valid(PushUndo(e))
  {
    var u := e.undo + [e.buf];
    assert forall k :: 0 <= k < |u| ==> Cursor(u[k]);
  }

  // ---------------------------------------------------------------------
  // Editing the buffer

  /** The edit of `insert_char`: a newline splits the line at the cursor
      (at most at its end) and moves to the start of the new line below;
      any other character goes in at the cursor, or at the end of the line
      when the cursor is past it. */
  function Insert(b: Buffer, c: char): (r: Buffer)
    requires b.line < |b.lines|
    ensures |r.lines| == |b.lines| + (if c == '\n' then 1 else 0)
    ensures r.lines[..b.line] == b.lines[..b.line] && r.line < |r.lines|
    ensures c != '\n' ==> r.line == b.line && |r.lines[b.line]| == |b.lines[b.line]| + 1
  {
    var cur := b.lines[b.line];
    if c == '\n' then
      var at := if b.col <= |cur| then b.col else |cur|;
      Buffer(b.lines[..b.line] + [cur[..at], cur[at..]] + b.lines[b.line + 1..], b.line + 1, 0)
    else
      var l := if b.col >= |cur| then cur + [c] else cur[..b.col] + [c] + cur[b.col..];
      b.(lines := b.lines[b.line := l], col := b.col + 1)
  }

  /** The edit of `delete_char` (backspace): removes the character before
      the cursor, or joins the line onto the one above at column 0. */
  function Backspace(b: Buffer): (r: Buffer)
    requires b.line < |b.lines|
    ensures r.line < |r.lines|
    ensures b.col > 0 ==> |r.lines| == |b.lines| && r.lines[..b.line] == b.lines[..b.line] && r.line == b.line
    ensures b.col == 0 && b.line > 0 ==> |r.lines| == |b.lines| - 1 && r.line == b.line - 1
    ensures b.col == 0 && b.line == 0 ==> r == b
  {
    var cur := b.lines[b.line];
    if b.col > 0 then
      if b.col <= |cur| then b.(lines := b.lines[b.line := cur[..b.col - 1] + cur[b.col..]], col := b.col - 1)
      else b.(col := b.col - 1)
    else if b.line > 0 then
      var prev := b.lines[b.line - 1];
      Buffer(b.lines[..b.line - 1] + [prev + cur] + b.lines[b.line + 1..], b.line - 1, |prev|)
    else b
  }

  /** Whether `delete_forward` has something to delete: a character after
      the cursor, or a line below. */
  predicate CanDelete(b: Buffer)
    requires b.line < |b.lines|
  {
    b.col < |b.lines[b.line]| || b.line + 1 < |b.lines|
  }

  /** The edit of `delete_forward` (delete key): removes the character at
      the cursor, or joins the next line onto this one at the end of a
      line. */
  function Delete(b: Buffer): (r: Buffer)
    requires b.line < |b.lines|
    ensures r.line == b.line && r.col == b.col && r.line < |r.lines|
    ensures r.lines[..b.line] == b.lines[..b.line]
    ensures |r.lines| == |b.lines| - (if b.col < |b.lines[b.line]| || !CanDelete(b) then 0 else 1)
    ensures !CanDelete(b) ==> r == b
  {
    var cur := b.lines[b.line];
    if b.col < |cur| then
      b.(lines := b.lines[b.line := cur[..b.col] + cur[b.col + 1..]])
    else if b.line + 1 < |b.lines| then
      b.(lines := b.lines[..b.line] + [cur + b.lines[b.line + 1]] + b.lines[b.line + 2..])
    else b
  }

  /** `insert_char`: saves the buffer for undo, then edits it. */
  function InsertChar(e: TextEditor, c: char): (r: TextEditor)
    requires e.buf.line < |e.buf.lines|
    ensures r.undo != [] && r.undo[|r.undo| - 1] == e.buf && r.redo == [] && r.selection == None
    ensures Undo(r).buf == e.buf && r.modified
  {
    PushUndo(e).(buf := Insert(e.buf, c), selection := None, modified := true)
  }

  /** `delete_char`: marks the buffer modified even when nothing is deleted. */
  function DeleteChar(e: TextEditor): (r: TextEditor)
    requires e.buf.line < |e.buf.lines|
    ensures r.undo != [] && r.undo[|r.undo| - 1] == e.buf && r.redo == [] && r.selection == None
    ensures Undo(r).buf == e.buf
  {
    PushUndo(e).(buf := Backspace(e.buf), selection := None, modified := true)
  }

  /** `delete_forward`: marks the buffer modified only when it deletes. */
  function DeleteForward(e: TextEditor): (r: TextEditor)
    requires e.buf.line < |e.buf.lines|
    ensures r.undo != [] && r.undo[|r.undo| - 1] == e.buf && r.redo == [] && r.selection == None
    ensures Undo(r).buf == e.buf
    ensures r.modified <==> e.modified || CanDelete(e.buf)
  {
    PushUndo(e).(buf := Delete(e.buf), selection := None, modified := e.modified || CanDelete(e.buf))
  }

  /** Replacing the cursor's line replaces its part of the text. */
  lemma ReplaceLine(lines: seq<string>, k: nat, l: string)
    requires k < |lines|
    ensures Content(lines[k := l]) == Above(lines[..k]) + l + Below(lines[k + 1..])
    ensures lines[k := l][..k] == lines[..k]
  {
    var r := lines[k := l];
    assert r == lines[..k] + [l] + lines[k + 1..];
    Frame(lines[..k], l, lines[k + 1..]);
  }

  /** Two adjacent lines sit in the text with one newline between them. */
  lemma Pair(p: seq<string>, a: string, b: string, s: seq<string>)
    ensures Content(p + [a, b] + s) == Above(p) + a + "\n" + b + Below(s)
    ensures Span(p + [a]) == Span(p) + |a| + 1
  {
    assert p + [a, b] + s == (p + [a]) + [b] + s;
    Frame(p + [a], b, s);
    AboveSnoc(p, a);
    SpanAppend(p, [a]);
    assert Span([a]) == |a| + 1;
  }

  /** The start of the next line is one past the end of this one. */
  lemma NextLineOffset(lines: seq<string>, k: nat)
    requires k < |lines|
    ensures Offset(lines, k + 1, 0) == Offset(lines, k, |lines[k]|) + 1
  {
    assert lines[..k + 1] == lines[..k] + [lines[k]];
    SpanAppend(lines[..k], [lines[k]]);
    assert Span([lines[k]]) == |lines[k]| + 1;
  }

  /** Removing the character before column `col` of a line removes the
      character before the cursor from the text. */
  lemma RemoveInLine(lines: seq<string>, k: nat, col: nat)
    requires k < |lines| && 0 < col <= |lines[k]|
    ensures var t := Content(lines); var o := Offset(lines, k, col);
      var l := lines[k]; var r := lines[k := l[..col - 1] + l[col..]];
      && 0 < o <= |t|
      && Content(r) == t[..o - 1] + t[o..]
      && Offset(r, k, col - 1) == o - 1
  {
    var l := lines[k];
    var nl := l[..col - 1] + l[col..];
    CursorSplit(lines, k, col);
    ReplaceLine(lines, k, nl);
    var t := Content(lines);
    var o := Offset(lines, k, col);
    var a, b := Above(lines[..k]), Below(lines[k + 1..]);
    assert t[..o - 1] == t[..o][..o - 1];
    assert (a + l[..col])[..o - 1] == a + l[..col - 1];
    assert Content(lines[k := nl]) == (a + l[..col - 1]) + (l[col..] + b);
  }

  /** Joining line `k` onto the line above removes the newline between
      them from the text. */
  lemma JoinLines(lines: seq<string>, k: nat)
    requires 0 < k < |lines|
    ensures var t := Content(lines); var o := Offset(lines, k, 0);
      var a := lines[k - 1];
      var r := lines[..k - 1] + [a + lines[k]] + lines[k + 1..];
      && 0 < o <= |t|
      && Content(r) == t[..o - 1] + t[o..]
      && Offset(r, k - 1, |a|) == o - 1
  {
    var p, a, b, s := lines[..k - 1], lines[k - 1], lines[k], lines[k + 1..];
    var r := p + [a + b] + s;
    assert lines == p + [a, b] + s;
    Pair(p, a, b, s);
    Frame(p, a + b, s);
    SpanAbove(p);
    assert lines[..k] == p + [a];
    assert r[..k - 1] == p;
    var t := Content(lines);
    var o := Offset(lines, k, 0);
    var h := Above(p) + a;
    assert t == h + "\n" + (b + Below(s));
    assert |h| == o - 1;
    assert t[..o - 1] == h;
    assert t[o..] == b + Below(s);
  }

  /** Splitting a line at the cursor puts a newline into the text there. */
  lemma SplitLine(lines: seq<string>, k: nat, col: nat)
    requires k < |lines| && col <= |lines[k]|
    ensures var t := Content(lines); var o := Offset(lines, k, col); var l := lines[k];
      var r := lines[..k] + [l[..col], l[col..]] + lines[k + 1..];
      && o <= |t|
      && Content(r) == t[..o] + "\n" + t[o..]
      && Offset(r, k + 1, 0) == o + 1
  {
    var p, l, s := lines[..k], lines[k], lines[k + 1..];
    var r := p + [l[..col], l[col..]] + s;
    CursorSplit(lines, k, col);
    Pair(p, l[..col], l[col..], s);
    assert r[..k + 1] == p + [l[..col]];
    SpanAbove(p);
  }

  /** Putting a character into a line at the cursor puts it into the text
      there. */
  lemma PutInLine(lines: seq<string>, k: nat, col: nat, c: char)
    requires k < |lines| && col <= |lines[k]|
    ensures var t := Content(lines); var o := Offset(lines, k, col); var l := lines[k];
      var r := lines[k := l[..col] + [c] + l[col..]];
      && o <= |t|
      && Content(r) == t[..o] + [c] + t[o..]
      && Offset(r, k, col + 1) == o + 1
  {
    var l := lines[k];
    var nl := l[..col] + [c] + l[col..];
    CursorSplit(lines, k, col);
    ReplaceLine(lines, k, nl);
    var a, b := Above(lines[..k]), Below(lines[k + 1..]);
    assert Content(lines[k := nl]) == (a + l[..col]) + [c] + (l[col..] + b);
  }

  /** Typing a character puts it into the text at the cursor, and the
      cursor moves past it. */
  lemma InsertEdits(b: Buffer, c: char)
    requires Cursor(b)
    ensures var r := Insert(b, c); var t := Content(b.lines); var o := Position(b);
      && Cursor(r)
      && o <= |t|
      && Content(r.lines) == t[..o] + [c] + t[o..]
      && Position(r) == o + 1
  {
    var k, col := b.line, b.col;
    var l := b.lines[k];
    if c == '\n' {
      SplitLine(b.lines, k, col);
    } else {
      PutInLine(b.lines, k, col, c);
      assert col >= |l| ==> l + [c] == l[..col] + [c] + l[col..];
    }
  }

  /** Backspace removes the character before the cursor, which moves back
      over it; at the very start nothing changes. */
  lemma BackspaceEdits(b: Buffer)
    requires Cursor(b)
    ensures var r := Backspace(b); var t := Content(b.lines); var o := Position(b);
      && Cursor(r)
      && (o > 0 ==> o <= |t| && Content(r.lines) == t[..o - 1] + t[o..] && Position(r) == o - 1)
      && (o == 0 ==> r == b)
  {
    var k, col := b.line, b.col;
    CursorEnds(b.lines, k, col);
    if col > 0 {
      RemoveInLine(b.lines, k, col);
    } else if k > 0 {
      JoinLines(b.lines, k);
    }
  }

  /** Delete removes the character after the cursor, which stays put; at
      the very end nothing changes. */
  lemma DeleteEdits(b: Buffer)
    requires Cursor(b)
    ensures var r := Delete(b); var t := Content(b.lines); var o := Position(b);
      && Cursor(r)
      && (CanDelete(b) <==> o < |t|)
      && (o < |t| ==> Content(r.lines) == t[..o] + t[o + 1..] && Position(r) == o)
      && (o == |t| ==> r == b)
  {
    var k, col := b.line, b.col;
    var l := b.lines[k];
    CursorEnds(b.lines, k, col);
    if col < |l| {
      RemoveInLine(b.lines, k, col + 1);
      assert Offset(b.lines, k, col + 1) == Position(b) + 1;
    } else if k + 1 < |b.lines| {
      JoinLines(b.lines, k + 1);
      NextLineOffset(b.lines, k);
      assert b.lines[..k + 1][..k] == b.lines[..k];
    }
  }

  /** Every edit keeps the editor invariant and leaves the buffer it
      replaced on top of the undo stack. */
  lemma EditsValid(e: TextEditor, c: char)
    requires Valid(e)
    ensures Valid(InsertChar(e, c)) && Valid(DeleteChar(e)) && Valid(DeleteForward(e))
    ensures InsertChar(e, c).undo == PushUndo(e).undo && InsertChar(e, c).redo == []
  {
    PushUndoValid(e);
    InsertEdits(e.buf, c);
    BackspaceEdits(e.buf);
    DeleteEdits(e.buf);
  }

  // ---------------------------------------------------------------------
  // Moving the cursor

  /** The column clamped to the length of `line`. */
  function Clamp(lines: seq<string>, line: nat, col: nat): (c: nat)
    requires line < |lines|
    ensures c <= |lines[line]| && c <= col
    ensures col <= |lines[line]| ==> c == col
  {
    if col > |lines[line]| then |lines[line]| else col
  }

  function Up(b: Buffer): (r: Buffer)
    requires b.line <= |b.lines|
    ensures r.lines == b.lines && r.line == SatSub(b.line, 1)
    ensures Cursor(b) ==> Cursor(r) && r.col <= b.col && (b.col <= |r.lines[r.line]| ==> r.col == b.col)
  {
    if b.line > 0 then b.(line := b.line - 1, col := Clamp(b.lines, b.line - 1, b.col)) else b
  }

  function Down(b: Buffer): (r: Buffer)
    ensures r.lines == b.lines
    ensures b.line < |b.lines| ==> r.line == Min(b.line + 1, |b.lines| - 1)
    ensures Cursor(b) ==> Cursor(r) && r.col <= b.col && (b.col <= |r.lines[r.line]| ==> r.col == b.col)
  {
    if b.line + 1 < |b.lines| then b.(line := b.line + 1, col := Clamp(b.lines, b.line + 1, b.col)) else b
  }

  function Left(b: Buffer): (r: Buffer)
    requires b.line <= |b.lines|
    ensures r.lines == b.lines && r.line <= b.line
    ensures Cursor(b) ==> Cursor(r)
  {
    if b.col > 0 then b.(col := b.col - 1)
    else if b.line > 0 then b.(line := b.line - 1, col := |b.lines[b.line - 1]|)
    else b
  }

  function Right(b: Buffer): (r: Buffer)
    requires b.line < |b.lines|
    ensures r.lines == b.lines && r.line >= b.line
    ensures Cursor(b) ==> Cursor(r)
  {
    if b.col < |b.lines[b.line]| then b.(col := b.col + 1)
    else if b.line + 1 < |b.lines| then b.(line := b.line + 1, col := 0)
    else b
  }

  function Home(b: Buffer): (r: Buffer)
    ensures r.lines == b.lines && r.line == b.line && r.col <= b.col
    ensures Cursor(b) ==> Cursor(r)
  {
    b.(col := 0)
  }

  function End(b: Buffer): (r: Buffer)
    requires b.line < |b.lines|
    ensures r.lines == b.lines && r.line == b.line
    ensures Cursor(b) ==> Cursor(r) && r.col >= b.col
  {
    b.(col := |b.lines[b.line]|)
  }

  function ToStart(b: Buffer): (r: Buffer)
    ensures r.lines == b.lines
    ensures Cursor(b) ==> Cursor(r)
  {
    b.(line := 0, col := 0)
  }

  function ToEnd(b: Buffer): (r: Buffer)
    requires |b.lines| >= 1
    ensures r.lines == b.lines && Cursor(r)
  {
    var last := |b.lines| - 1;
    b.(line := last, col := |b.lines[last]|)
  }

  /** `usize::saturating_sub`. */
  function SatSub(a: nat, b: nat): nat
  {
    if a >= b then a - b else 0
  }

  function PageUp(b: Buffer, visible: nat): (r: Buffer)
    requires SatSub(b.line, visible) < |b.lines|
    ensures r.lines == b.lines && r.line <= b.line && r.line == SatSub(b.line, visible)
    ensures Cursor(b) ==> Cursor(r)
  {
    var l := SatSub(b.line, visible);
    b.(line := l, col := Clamp(b.lines, l, b.col))
  }

  function PageDown(b: Buffer, visible: nat): (r: Buffer)
    requires |b.lines| >= 1
    ensures r.lines == b.lines && r.line == Min(b.line + visible, |b.lines| - 1)
    ensures b.line < |b.lines| ==> r.line >= b.line
    ensures Cursor(b) ==> Cursor(r)
  {
    var l := Min(b.line + visible, |b.lines| - 1);
    b.(line := l, col := Clamp(b.lines, l, b.col))
  }

  /** Left and right step one character through the text, stopping at its
      ends; up and down change line by one, keeping the column where the
      new line allows. */
  lemma StepsMoveByOne(b: Buffer)
    requires Cursor(b)
    ensures var o := Position(b); var n := |Content(b.lines)|;
      && Position(Left(b)) == (if o == 0 then 0 else o - 1)
      && Position(Right(b)) == (if o == n then n else o + 1)
      && Up(b).line == SatSub(b.line, 1)
      && Down(b).line == Min(b.line + 1, |b.lines| - 1)
      && Up(b).col == Clamp(b.lines, Up(b).line, b.col)
      && Down(b).col == Clamp(b.lines, Down(b).line, b.col)
  {
    var k := b.line;
    CursorEnds(b.lines, k, b.col);
    if b.col == 0 && k > 0 {
      NextLineOffset(b.lines, k - 1);
    }
    if b.col == |b.lines[k]| && k + 1 < |b.lines| {
      NextLineOffset(b.lines, k);
    }
  }

  /** Home, end, and the start and end of the file. */
  lemma JumpsLand(b: Buffer)
    requires Cursor(b)
    ensures Position(ToStart(b)) == 0
    ensures Position(ToEnd(b)) == |Content(b.lines)|
    ensures Home(b).col == 0 && Home(b).line == b.line
    ensures End(b).col == |b.lines[b.line]| && End(b).line == b.line
  {
    var last := |b.lines| - 1;
    CursorEnds(b.lines, last, |b.lines[last]|);
  }

  // ---------------------------------------------------------------------
  // Scrolling and the cursor blink

  /** One axis of `ensure_cursor_visible`: scroll back to the cursor when
      it is before the window, forward just enough when it is past it. */
  function Scroll(pos: nat, scroll: nat, visible: nat): (r: nat)
    ensures visible >= 1 ==> r <= pos < r + visible
    ensures scroll <= pos < scroll + visible ==> r == scroll
    ensures pos < scroll ==> r == pos
  {
    if pos < scroll then pos
    else if pos >= scroll + visible then pos - visible + 1
    else scroll
  }

  /** `ensure_cursor_visible`: afterwards the cursor is inside the visible
      window, the window moved only if it had to, scrolling again changes
      nothing, and nothing but the scroll offsets changes. */
  function EnsureCursorVisible(e: TextEditor, lines: nat, cols: nat): (r: TextEditor)
    ensures lines >= 1 ==> r.scrollY <= r.buf.line < r.scrollY + lines
    ensures cols >= 1 ==> r.scrollX <= r.buf.col < r.scrollX + cols
    ensures e.scrollY <= e.buf.line < e.scrollY + lines ==> r.scrollY == e.scrollY
    ensures e.scrollX <= e.buf.col < e.scrollX + cols ==> r.scrollX == e.scrollX
    ensures r == e.(scrollY := r.scrollY, scrollX := r.scrollX)
  {
    e.(scrollY := Scroll(e.buf.line, e.scrollY, lines), scrollX := Scroll(e.buf.col, e.scrollX, cols))
  }

  /** `update_blink`: every thirtieth frame the cursor's visibility flips. */
  function UpdateBlink(e: TextEditor): (r: TextEditor)
    ensures e.blink < BLINK_PERIOD ==> r.blink < BLINK_PERIOD
    ensures r.cursorVisible != e.cursorVisible <==> e.blink + 1 >= BLINK_PERIOD
    ensures r == e.(blink := r.blink, cursorVisible := r.cursorVisible)
  {
    var b := e.blink + 1;
    if b >= BLINK_PERIOD then e.(blink := 0, cursorVisible := !e.cursorVisible) else e.(blink := b)
  }
}
