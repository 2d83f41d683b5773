/** The userspace shell (userspace/src/shell.rs): line editing on the bytes
    read from standard input, the command dispatch of `execute`, the `cd`
    path composition, and the commands' output. The system calls it makes
    (`chdir`, `mkdir`, `open`/`read`, `getpid`, the tick count) are answers
    given in a `Sys` record. */
module UShell {
  import opened Common
  import opened Text
  import opened VfsPath
  import KShell

  datatype UShell = UShell(prompt: string, history: seq<string>, cwd: string)

  /** `Shell::new`. */
  function New(): UShell
  {
    UShell("cotton$ ", [], "/")
  }

  /** The bytes as characters, one per byte (`b as char`). */
  function Latin1(bs: seq<byte>): (s: string)
    ensures |s| == |bs| && forall k :: 0 <= k < |bs| ==> s[k] as int == bs[k]
  {
    if bs == [] then "" else [bs[0] as char] + Latin1(bs[1..])
  }

  // ---------------------------------------------------------------------
  // read_line

  const NEWLINE: byte := 10
  const RETURN: byte := 13
  const DELETE: byte := 0x7F
  const BACKSPACE: byte := 8

  predicate EndsLine(b: byte) { b == NEWLINE || b == RETURN }
  predicate Erases(b: byte) { b == DELETE || b == BACKSPACE }
  predicate Typed(b: byte) { b >= 0x20 && !Erases(b) }

  /** What the terminal is sent when a character is erased. */
  const ERASE_ECHO: seq<byte> := [8, 32, 8]

  /** One byte that does not end the line: the line after it and what is
      echoed. Erasing pops a character if there is one; bytes from 0x20 up
      are appended as characters; other control bytes are dropped. */
  function Edit(line: string, b: byte): (r: (string, seq<byte>))
    requires !EndsLine(b)
    ensures Erases(b) && line != [] ==> r.0 + [line[|line| - 1]] == line && r.1 == ERASE_ECHO
    ensures Typed(b) ==> |r.0| == |line| + 1 && r.0[..|line|] == line && r.0[|line|] as int == b && r.1 == [b]
    ensures !Typed(b) && !(Erases(b) && line != []) ==> r == (line, [])
  {
    if Erases(b) then (if line != [] then (line[..|line| - 1], ERASE_ECHO) else (line, []))
    else if b >= 0x20 then (line + [b as char], [b])
    else (line, [])
  }

  /** `read_line` continued from a partial line: the line, the bytes echoed
      back, and the input left after the line's end. Input that runs out
      ends the line too. */
  function ReadFrom(line: string, input: seq<byte>): (r: (string, seq<byte>, seq<byte>))
    ensures |r.2| <= |input|
    decreases |input|
  {
    if input == [] then (line, [], [])
    else if EndsLine(input[0]) then (line, [NEWLINE], input[1..])
    else
      var e := Edit(line, input[0]);
      var r := ReadFrom(e.0, input[1..]);
      (r.0, e.1 + r.1, r.2)
  }

  /** Reading keeps the line made of typed characters, and stops just after
      the first line end (using up input that has none). */
  lemma {:induction false} ReadFromStops(line: string, input: seq<byte>)
    ensures var r := ReadFrom(line, input);
      && (TypedText(line) ==> TypedText(r.0))
      && (NoLineEnd(input) ==> r.2 == [])
      && (forall i :: FirstLineEnd(input, i) ==> r.2 == input[i + 1..])
    decreases |input|
  {
    if input == [] {
    } else if EndsLine(input[0]) {
      assert forall i :: FirstLineEnd(input, i) ==> i == 0;
    } else {
      var e := Edit(line, input[0]);
      ReadFromStops(e.0, input[1..]);
      assert TypedText(line) ==> TypedText(e.0) by {
        if TypedText(line) && Erases(input[0]) && line != [] {
          assert forall k :: 0 <= k < |e.0| ==> e.0[k] == line[k];
        }
      }
      assert NoLineEnd(input) ==> NoLineEnd(input[1..]);
      forall i | FirstLineEnd(input, i) ensures i >= 1 && FirstLineEnd(input[1..], i - 1) {
        assert input[..i][1..] == input[1..][..i - 1];
      }
    }
  }

  /** `read_line`: the line holds only typed characters, and the input
      left is what follows the first line end (nothing when there is
      none). */
  function ReadLine(input: seq<byte>): (r: (string, seq<byte>, seq<byte>))
    ensures TypedText(r.0)
    ensures NoLineEnd(input) ==> r.2 == []
    ensures forall i :: FirstLineEnd(input, i) ==> r.2 == input[i + 1..]
  {
    ReadFromStops("", input);
    ReadFrom("", input)
  }

  predicate NoLineEnd(bs: seq<byte>)
  {
    forall k :: 0 <= k < |bs| ==> !EndsLine(bs[k])
  }

  /** The input's first line end is at `i`. */
  predicate FirstLineEnd(input: seq<byte>, i: int)
  {
    0 <= i < |input| && EndsLine(input[i]) && NoLineEnd(input[..i])
  }

  /** Text made only of characters a typed byte appends. */
  predicate TypedText(s: string)
  {
    forall k :: 0 <= k < |s| ==> s[k] as int < 256 && Typed(s[k] as int)
  }

  /** Typed characters alone are appended to the line and echoed, and
      use up the input. */
  lemma {:induction false} ReadTypedRun(line: string, text: seq<byte>)
    requires forall k :: 0 <= k < |text| ==> Typed(text[k])
    ensures ReadFrom(line, text) == (line + Latin1(text), text, [])
    decreases |text|
  {
    if text == [] {
      assert line + Latin1(text) == line;
    } else {
      ReadTypedRun(line + [text[0] as char], text[1..]);
      assert Latin1(text) == [text[0] as char] + Latin1(text[1..]);
      assert line + [text[0] as char] + Latin1(text[1..]) == line + Latin1(text);
      assert [text[0]] + text[1..] == text;
    }
  }

  /** Input without a line end is consumed whole; what follows continues
      from the line it left, and the echoes follow each other. */
  lemma {:induction false} ReadFromAppend(line: string, p: seq<byte>, q: seq<byte>)
    requires NoLineEnd(p)
    ensures ReadFrom(line, p).2 == []
    ensures var mid := ReadFrom(line, p);
      var rest := ReadFrom(mid.0, q);
      ReadFrom(line, p + q) == (rest.0, mid.1 + rest.1, rest.2)
    decreases |p|
  {
    if p == [] {
      assert p + q == q;
      assert [] + ReadFrom(line, q).1 == ReadFrom(line, q).1;
    } else {
      var e := Edit(line, p[0]);
      ReadFromAppend(e.0, p[1..], q);
      var mid := ReadFrom(e.0, p[1..]);
      var rest := ReadFrom(mid.0, q);
      assert ReadFrom(line, p) == (mid.0, e.1 + mid.1, mid.2);
      var x := p + q;
      assert x[0] == p[0] && x[1..] == p[1..] + q;
      var tail := ReadFrom(e.0, x[1..]);
      assert tail == (rest.0, mid.1 + rest.1, rest.2);
      assert ReadFrom(line, x) == (tail.0, e.1 + tail.1, tail.2);
      assert e.1 + (mid.1 + rest.1) == (e.1 + mid.1) + rest.1;
    }
  }


  /** Typed characters followed by a newline come back as the line, are
      echoed, and the input after the newline is left unread. */
  lemma ReadTyped(line: string, text: seq<byte>, rest: seq<byte>)
    requires forall k :: 0 <= k < |text| ==> Typed(text[k])
    ensures ReadFrom(line, text + ([NEWLINE] + rest)) == (line + Latin1(text), text + [NEWLINE], rest)
  {
    ReadTypedRun(line, text);
    ReadFromAppend(line, text, [NEWLINE] + rest);
    assert ([NEWLINE] + rest)[1..] == rest;
  }

  /** A typed character erased straight away leaves the line as it was,
      having echoed the character and then the erase sequence. */
  lemma TypedThenErased(line: string, c: byte, q: seq<byte>)
    requires Typed(c)
    ensures var r := ReadFrom(line, q);
      ReadFrom(line, [c, DELETE] + q) == (r.0, [c] + (ERASE_ECHO + r.1), r.2)
  {
    var x := [c, DELETE] + q;
    assert x[0] == c && x[1..] == [DELETE] + q;
    assert ([DELETE] + q)[0] == DELETE && ([DELETE] + q)[1..] == q;
    assert (line + [c as char])[..|line|] == line;
  }

  /** A typed character followed by a backspace leaves no trace on the
      line, wherever it comes before the line's end. */
  lemma BackspaceCancels(p: seq<byte>, c: byte, q: seq<byte>)
    requires NoLineEnd(p) && Typed(c)
    ensures ReadLine(p + [c, DELETE] + q).0 == ReadLine(p + q).0
    ensures ReadLine(p + [c, DELETE] + q).2 == ReadLine(p + q).2
  {
    var mid := ReadFrom("", p).0;
    assert p + [c, DELETE] + q == p + ([c, DELETE] + q);
    ReadFromAppend("", p, [c, DELETE] + q);
    ReadFromAppend("", p, q);
    TypedThenErased(mid, c, q);
  }


  /** A backspace on an empty line is ignored. */
  lemma BackspaceOnEmpty(q: seq<byte>)
    ensures ReadLine([DELETE] + q) == ReadLine(q)
  {
    assert ([DELETE] + q)[1..] == q;
    assert [] + ReadFrom("", q).1 == ReadFrom("", q).1;
  }

  // ---------------------------------------------------------------------
  // cd

  /** `cmd_cd`'s target: absolute paths as they are; ".." drops the last
      slash-separated piece of the working directory (leaving "/" when
      nothing or only the leading empty piece remains); anything else is
      put under the working directory. */
  function CdTarget(cwd: string, path: string): (t: string)
    ensures KShell.Absolute(path) ==> t == path
    ensures !KShell.Absolute(path) && path != ".." ==> t == MkdirPath(cwd, path)
  {
    if KShell.Absolute(path) then path
    else if path == ".." then
      if cwd == "/" then "/"
      else
        var parts := Split(cwd);
        var q := parts[..|parts| - 1];
        if q == [] || (|q| == 1 && q[0] == "") then "/" else Join(q)
    else if cwd == "/" then "/" + path
    else cwd + "/" + path
  }

  lemma JoinLeadingEmpty(xs: seq<string>)
    requires |xs| >= 1
    ensures Join([""] + xs) == "/" + Join(xs)
  {
    assert ([""] + xs)[1..] == xs;
  }

  /** `cd ..` from a normal working directory drops its last component. */
  lemma CdParentParts(cwd: string)
    requires KShell.Normal(cwd)
    ensures CdTarget(cwd, "..") == KShell.Render(KShell.Step(KShell.Parts(cwd), ".."))
  {
    if cwd != "/" {
      KShell.PartsOfNormal(cwd);
      var cs := KShell.Parts(cwd);
      var n := |cs|;
      var q := ([""] + cs)[..n];
      assert q == [""] + cs[..n - 1];
      if n > 1 {
        JoinLeadingEmpty(cs[..n - 1]);
      }
    }
  }

  /** From a normal working directory, `cd ..` goes where the kernel's
      `normalize_path` takes "cwd/..". */
  lemma CdParentAgrees(cwd: string)
    requires KShell.Normal(cwd)
    ensures CdTarget(cwd, "..") == KShell.NormalizePath(cwd + "/..")
  {
    CdParentParts(cwd);
    KShell.NormalizeAppend(cwd, "..");
    assert cwd + "/" + ".." == cwd + "/..";
  }

  /** `cd name` from a normal working directory appends the name. */
  lemma CdChildParts(cwd: string, name: string)
    requires KShell.Normal(cwd) && KShell.Clean(name)
    ensures CdTarget(cwd, name) == KShell.Render(KShell.Step(KShell.Parts(cwd), name))
  {
    if cwd == "/" {
      assert KShell.Step([], name) == [name];
    } else {
      KShell.PartsOfNormal(cwd);
      var cs := KShell.Parts(cwd);
      JoinSnoc(cs, name);
      assert "/" + (cwd[1..] + [SLASH] + name) == cwd + "/" + name;
    }
  }

  /** From a normal working directory, `cd` into a clean name goes where
      the kernel's `normalize_path` takes "cwd/name", and stays normal. */
  lemma CdChildAgrees(cwd: string, name: string)
    requires KShell.Normal(cwd) && KShell.Clean(name)
    ensures CdTarget(cwd, name) == KShell.NormalizePath(cwd + "/" + name)
    ensures KShell.Normal(CdTarget(cwd, name))
  {
    CdChildParts(cwd, name);
    KShell.NormalizeAppend(cwd, name);
  }

  // ---------------------------------------------------------------------
  // Commands

  /** The system's answers: `chdir` and `mkdir` results, the contents
      `open` and `read` give for a path (`None` when `open` fails), the
      process id and the tick count. */
  datatype Sys = Sys(
    chdir: string -> int,
    mkdir: string -> int,
    files: string -> Option<seq<byte>>,
    pid: u32,
    time: u64)

  /** `cmd_cd`: the working directory changes only when `chdir` accepts
      the target. */
  function Cd(sh: UShell, sys: Sys, args: seq<string>): (r: (UShell, string))
    ensures var path := if args == [] then "/" else args[0];
      var t := CdTarget(sh.cwd, path);
      && (sys.chdir(t) >= 0 ==> r == (sh.(cwd := t), ""))
      && (sys.chdir(t) < 0 ==> r.0 == sh && r.1 != "")
  {
    var path := if args == [] then "/" else args[0];
    var t := CdTarget(sh.cwd, path);
    if sys.chdir(t) >= 0 then (sh.(cwd := t), "")
    else (sh, "cd: " + path + ": No such directory\n")
  }

  /** The path `cmd_mkdir` asks for: absolute paths as they are, relative
      ones under the working directory. */
  function MkdirPath(cwd: string, p: string): (full: string)
    ensures KShell.Absolute(p) ==> full == p
    ensures !KShell.Absolute(p) ==> |full| > |p| && full[|full| - |p| - 1] == SLASH && full[|full| - |p|..] == p
  {
    if KShell.Absolute(p) then p else if cwd == "/" then "/" + p else cwd + "/" + p
  }

  /** `cmd_mkdir` over its operands: one complaint per directory `mkdir`
      refuses, so it prints nothing exactly when every one is created. */
  function Mkdir(cwd: string, sys: Sys, paths: seq<string>): (r: string)
    ensures r == "" <==> forall k :: 0 <= k < |paths| ==> sys.mkdir(MkdirPath(cwd, paths[k])) >= 0
  {
    if paths == [] then ""
    else
      var p := paths[0];
      (if sys.mkdir(MkdirPath(cwd, p)) < 0 then "mkdir: cannot create directory '" + p + "'\n" else "")
      + Mkdir(cwd, sys, paths[1..])
  }

  /** `cmd_cat` over its operands: each file's bytes, or a complaint for a
      path that does not open. A single file that opens is shown exactly. */
  function Cat(sys: Sys, paths: seq<string>): (r: string)
    ensures |paths| == 1 && sys.files(paths[0]).Some? ==> r == Latin1(sys.files(paths[0]).value)
    ensures |paths| == 1 && sys.files(paths[0]).None? ==> r == "cat: " + paths[0] + ": No such file\n"
  {
    if paths == [] then ""
    else
      (match sys.files(paths[0])
       case None => "cat: " + paths[0] + ": No such file\n"
       case Some(bytes) => Latin1(bytes))
      + Cat(sys, paths[1..])
  }

  /** The operands are shown one after another: `cat a b` prints what
      `cat a` and then `cat b` print. */
  lemma {:induction false} CatAppend(sys: Sys, a: seq<string>, b: seq<string>)
    ensures Cat(sys, a + b) == Cat(sys, a) + Cat(sys, b)
    decreases |a|
  {
    if a == [] {
      assert a + b == b;
    } else {
      assert (a + b)[0] == a[0] && (a + b)[1..] == a[1..] + b;
      CatAppend(sys, a[1..], b);
    }
  }

  /** `cmd_history`'s line number as written: two spaces of padding below
      10, one below 100, then the hundreds digit `b'0' + (n / 100) as u8`
      (which wraps in a release build), the tens digit and the units
      digit. */
  function HistoryNumberAsWritten(n: nat): string
  {
    var pad := if n < 10 then "  " else if n < 100 then " " else "";
    var hundreds := if n >= 100 then [((48 + (n / 100) % 256) % 256) as char] else "";
    var tens := if n >= 10 then [DigitChar((n / 10) % 10)] else "";
    pad + hundreds + tens + [DigitChar(n % 10)]
  }

  /** From the 1000th history entry on, the hundreds "digit" is not a digit:
      entry 1000 is numbered ":00". */
  lemma HistoryNumberAsWrittenBreaks()
    ensures HistoryNumberAsWritten(1000) == ":00"
    ensures !AllDigits(HistoryNumberAsWritten(1000))
  {
    assert HistoryNumberAsWritten(1000)[0] == ':';
  }

  /** The line number right-aligned in three columns, in full decimal. */
  function HistoryNumber(n: nat): (s: string)
  {
    (if n < 10 then "  " else if n < 100 then " " else "") + Decimal(n)
  }

  /** The number printed is `n`, after at most two spaces of padding, and
      it fills at least three columns. */
  lemma HistoryNumberSpells(n: nat)
    ensures var s := HistoryNumber(n);
      var pad := if n < 10 then 2 else if n < 100 then 1 else 0;
      |s| >= 3 && (forall k :: 0 <= k < pad ==> s[k] == ' ')
      && AllDigits(s[pad..]) && Value(s[pad..]) == n
  {
    var pad := if n < 10 then 2 else if n < 100 then 1 else 0;
    var s := HistoryNumber(n);
    assert s[pad..] == Decimal(n);
    DecimalValue(n);
    if n >= 100 {
      assert |Decimal(n)| >= 3 by {
        assert |Decimal(n / 10)| >= 2;
      }
    } else if n >= 10 {
      assert |Decimal(n)| == 2;
    }
  }

  /** Below 1000 entries the number as written is the full decimal. */
  lemma HistoryNumberAgrees(n: nat)
    requires n < 1000
    ensures HistoryNumberAsWritten(n) == HistoryNumber(n)
  {
    if n >= 100 {
      var h, t, u := n / 100, (n / 10) % 10, n % 10;
      assert Decimal(n) == [DigitChar(h), DigitChar(t), DigitChar(u)] by {
        assert n / 10 / 10 == h;
        assert Decimal(n / 10) == [DigitChar(h), DigitChar(t)];
      }
      assert ((48 + h % 256) % 256) as char == DigitChar(h);
    } else if n >= 10 {
      assert Decimal(n) == [DigitChar(n / 10), DigitChar(n % 10)];
    }
  }

  /** One line of `cmd_history`, numbered as written. */
  function HistoryLine(n: nat, entry: string): string
  {
    HistoryNumberAsWritten(n) + "  " + entry + "\n"
  }

  /** One line of the listing, numbered in full decimal. */
  function HistoryLineFixed(n: nat, entry: string): string
  {
    HistoryNumber(n) + "  " + entry + "\n"
  }

  /** The listing with every entry numbered in full decimal. */
  function HistoryFixed(entries: seq<string>, first: nat): string
    decreases |entries|
  {
    if entries == [] then "" else HistoryLineFixed(first, entries[0]) + HistoryFixed(entries[1..], first + 1)
  }

  /** `cmd_history`: every entry on its own line, numbered from `first` as
      written. While the numbers stay below 1000 the listing is the one
      numbered in full decimal. */
  function History(entries: seq<string>, first: nat): (r: string)
    ensures entries == [] ==> r == ""
    ensures first + |entries| <= 1000 ==> r == HistoryFixed(entries, first)
    decreases |entries|
  {
    if entries == [] then ""
    else
      HistoryNumberAgreesBelow(first, |entries|);
      HistoryLine(first, entries[0]) + History(entries[1..], first + 1)
  }

  lemma HistoryNumberAgreesBelow(first: nat, count: nat)
    requires count > 0
    ensures first + count <= 1000 ==> HistoryNumberAsWritten(first) == HistoryNumber(first)
  {
    if first + count <= 1000 {
      HistoryNumberAgrees(first);
    }
  }

  /** Recording one more command adds exactly one line, numbered after the
      others, to the end of the listing. */
  lemma {:induction false} HistoryAppend(entries: seq<string>, first: nat, entry: string)
    ensures History(entries + [entry], first) == History(entries, first) + HistoryLine(first + |entries|, entry)
    decreases |entries|
  {
    if entries == [] {
      assert [] + [entry] == [entry];
      assert [entry][1..] == [];
    } else {
      assert (entries + [entry])[1..] == entries[1..] + [entry];
      HistoryAppend(entries[1..], first + 1, entry);
      var h, t, l := HistoryLine(first, entries[0]), History(entries[1..], first + 1), HistoryLine(first + |entries|, entry);
      assert (h + t) + l == h + (t + l);
    }
  }

  const HELP_TEXT: string :=
    "CottonOS Shell Commands:\n  help     - Show this help message\n  exit     - Exit the shell\n"
    + "  echo     - Print arguments\n  pwd      - Print working directory\n  cd       - Change directory\n"
    + "  ls       - List directory contents\n  mkdir    - Create directory\n  cat      - Show file contents\n"
    + "  clear    - Clear screen\n  uname    - Show system info\n  ps       - Show processes\n"
    + "  history  - Show command history\n  date     - Show current time\n  whoami   - Show current user\n"
    + "  hostname - Show hostname\n"

  /** The words `execute` recognises as commands. */
  const COMMANDS: set<string> := {"exit", "quit", "cd", "help", "echo", "pwd", "ls", "mkdir", "cat",
    "clear", "uname", "ps", "history", "date", "whoami", "hostname"}

  const CLEAR_TEXT: string := [27 as char] + "[2J" + [27 as char] + "[H"

  function PsText(pid: u32): string
  {
    "  PID TTY          TIME CMD\n    " + Decimal(pid) + " tty0     00:00:00 shell\n"
  }

  function LsText(cwd: string, args: seq<string>): string
  {
    "Contents of " + (if args == [] then cwd else args[0]) + "\n  .  (current directory)\n  .. (parent directory)\n"
  }

  /** `execute`: the new shell, whether to keep running, and the output.
      The shell stops exactly on "exit" or "quit"; blank lines keep it
      running; only `cd` changes the shell, and only its working directory;
      a word that names no command is reported. */
  function Execute(sh: UShell, sys: Sys, line: string): (r: (UShell, bool, string))
    ensures !r.1 <==> Words(line) != [] && Words(line)[0] in {"exit", "quit"}
    ensures r.0.prompt == sh.prompt && r.0.history == sh.history
    ensures r.0.cwd != sh.cwd ==> Words(line) != [] && Words(line)[0] == "cd"
    ensures Words(line) != [] && Words(line)[0] !in COMMANDS ==>
      r == (sh, true, "Unknown command: " + Words(line)[0] + "\n")
  {
    var words := Words(line);
    if words == [] then (sh, true, "")
    else
      var cmd := words[0];
      var args := words[1..];
      if cmd == "exit" || cmd == "quit" then (sh, false, "")
      else if cmd == "cd" then var (sh', out) := Cd(sh, sys, args); (sh', true, out)
      else
        var out :=
          if cmd == "help" then HELP_TEXT
          else if cmd == "echo" then JoinWith(" ", args) + "\n"
          else if cmd == "pwd" then sh.cwd + "\n"
          else if cmd == "ls" then LsText(sh.cwd, args)
          else if cmd == "mkdir" then (if args == [] then "mkdir: missing operand\n" else Mkdir(sh.cwd, sys, args))
          else if cmd == "cat" then (if args == [] then "cat: missing operand\n" else Cat(sys, args))
          else if cmd == "clear" then CLEAR_TEXT
          else if cmd == "uname" then "CottonOS 0.1.0 cotton\n"
          else if cmd == "ps" then PsText(sys.pid)
          else if cmd == "history" then History(sh.history, 1)
          else if cmd == "date" then "System ticks: " + Decimal(sys.time) + "\n"
          else if cmd == "whoami" then "root\n"
          else if cmd == "hostname" then "cotton\n"
          else "Unknown command: " + cmd + "\n";
        (sh, true, out)
  }

  /** One turn of `run` after `read_line`: an empty line is skipped, any
      other is recorded in the history and executed. */
  function Interact(sh: UShell, sys: Sys, line: string): (r: (UShell, bool, string))
    ensures line == "" ==> r == (sh, true, "")
    ensures line != "" ==> r.0.history == sh.history + [line]
  {
    if line == "" then (sh, true, "")
    else Execute(sh.(history := sh.history + [line]), sys, line)
  }
}
