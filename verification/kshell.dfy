/** The kernel shell (kernel/src/shell.rs): the working directory, path
    resolution and normalisation, the command dispatch of
    `execute_command`, and the commands whose output the model can state
    (`echo`, `clear`, `pwd`, `cd`, `cat`, `uptime`, `help`). */
module KShell {
  import opened Common
  import opened Text
  import opened VfsPath
  import Vfs
  import FileData
  import RamFs
  import VfsWorld

  /** The `CWD` global; `None` until the first `cd`. */
  datatype KShell = KShell(cwd: Option<string>)

  const INITIAL: KShell := KShell(None)

  /** `get_cwd`. */
  function GetCwd(sh: KShell): (r: string)
    ensures sh.cwd.None? ==> r == "/"
    ensures sh.cwd.Some? ==> r == sh.cwd.value
  {
    match sh.cwd
    case None => "/"
    case Some(c) => c
  }

  predicate Absolute(p: string) { p != [] && p[0] == SLASH }

  /** `resolve_path`: absolute paths as they are; relative ones under the
      working directory, without doubling the slash of "/". */
  function ResolvePath(cwd: string, path: string): (r: string)
    ensures Absolute(path) ==> r == path
    ensures Absolute(cwd) ==> Absolute(r)
    ensures !Absolute(path) && cwd == "/" ==> r == "/" + path
    ensures !Absolute(path) && cwd != "/" ==> r == cwd + "/" + path
  {
    if Absolute(path) then path
    else if cwd == "/" then "/" + path
    else cwd + "/" + path
  }

  // ---------------------------------------------------------------------
  // normalize_path

  /** A component that survives normalisation. */
  predicate Clean(c: string) { c != "" && c != "." && c != ".." && NoSlash(c) }

  predicate AllClean(cs: seq<string>)
  {
    forall k :: 0 <= k < |cs| ==> Clean(cs[k])
  }

  /** One turn of the loop over the components: empty and "." are skipped,
      ".." pops (nothing, at the root), anything else is pushed. */
  function Step(stack: seq<string>, c: string): seq<string>
  {
    if c == "" || c == "." then stack
    else if c == ".." then (if stack == [] then [] else stack[..|stack| - 1])
    else stack + [c]
  }

  function Fold(stack: seq<string>, comps: seq<string>): seq<string>
    decreases |comps|
  {
    if comps == [] then stack else Fold(Step(stack, comps[0]), comps[1..])
  }

  /** The path spelled by a stack of components. */
  function Render(parts: seq<string>): string
  {
    if parts == [] then "/" else "/" + Join(parts)
  }

  /** `normalize_path`: the result is always normal. */
  function NormalizePath(path: string): (r: string)
    ensures Normal(r)
  {
    FoldRendersNormal(path);
    Render(Fold([], Split(path)))
  }

  /** What `normalize_path` produces: "/" or "/" followed by clean
      components joined with slashes. */
  predicate Normal(p: string)
  {
    p == "/" || (|p| > 1 && p[0] == SLASH && AllClean(Split(p[1..])))
  }

  lemma {:induction false} FoldAppend(stack: seq<string>, a: seq<string>, b: seq<string>)
    ensures Fold(stack, a + b) == Fold(Fold(stack, a), b)
    decreases |a|
  {
    if a == [] {
      assert a + b == b;
    } else {
      assert (a + b)[0] == a[0] && (a + b)[1..] == a[1..] + b;
      FoldAppend(Step(stack, a[0]), a[1..], b);
    }
  }

  /** Folding clean components pushes them all. */
  lemma {:induction false} FoldOfClean(stack: seq<string>, cs: seq<string>)
    requires AllClean(cs)
    ensures Fold(stack, cs) == stack + cs
    decreases |cs|
  {
    if cs == [] {
      assert stack + cs == stack;
    } else {
      FoldOfClean(stack + [cs[0]], cs[1..]);
      assert stack + [cs[0]] + cs[1..] == stack + cs;
    }
  }

  /** The stack only ever holds clean components. */
  lemma {:induction false} FoldClean(stack: seq<string>, comps: seq<string>)
    requires AllClean(stack) && AllNoSlash(comps)
    ensures AllClean(Fold(stack, comps))
    decreases |comps|
  {
    if comps != [] {
      FoldClean(Step(stack, comps[0]), comps[1..]);
    }
  }

  lemma SplitSlash(x: string)
    ensures Split([SLASH] + x) == [""] + Split(x)
  {
    assert ([SLASH] + x)[1..] == x;
  }

  /** Folding the pieces of any path renders a normal path. */
  lemma FoldRendersNormal(path: string)
    ensures Normal(Render(Fold([], Split(path))))
  {
    var parts := Fold([], Split(path));
    SplitNoSlash(path);
    FoldClean([], Split(path));
    if parts != [] {
      var r := "/" + Join(parts);
      assert r[1..] == Join(parts);
      SplitJoin(parts);
    }
  }

  /** A normal path is its own normalisation. */
  lemma NormalFixed(p: string)
    requires Normal(p)
    ensures NormalizePath(p) == p
  {
    if p == "/" {
      assert Split(p) == ["", ""] by {
        assert p == [SLASH] + "";
        SplitSlash("");
      }
      assert ["", ""][1..] == [""] && [""][1..] == [];
      assert Fold([], ["", ""]) == Fold([], [""]) == Fold([], []) == [];
    } else {
      var cs := Split(p[1..]);
      assert p == [SLASH] + p[1..];
      SplitSlash(p[1..]);
      FoldOfClean([], cs);
      assert ([""] + cs)[0] == "" && ([""] + cs)[1..] == cs;
      assert Fold([], [""] + cs) == Fold([], cs) == cs;
      JoinSplit(p[1..]);
    }
  }

  /** `normalize_path` is idempotent. */
  lemma NormalizeIdempotent(path: string)
    ensures NormalizePath(NormalizePath(path)) == NormalizePath(path)
  {
    NormalFixed(NormalizePath(path));
  }

  /** The components of a normal path. */
  function Parts(p: string): (cs: seq<string>)
    requires Normal(p)
    ensures AllClean(cs)
  {
    if p == "/" then [] else Split(p[1..])
  }

  /** A normal path below the root: "/" and its components. */
  lemma PartsOfNormal(p: string)
    requires Normal(p) && p != "/"
    ensures Split(p) == [""] + Parts(p)
    ensures Join(Parts(p)) == p[1..] && Render(Parts(p)) == p
  {
    assert p == [SLASH] + p[1..];
    SplitSlash(p[1..]);
    JoinSplit(p[1..]);
  }

  lemma AppendAtRoot(c: string)
    requires NoSlash(c)
    ensures NormalizePath("/" + "/" + c) == Render(Step([], c))
  {
    assert "/" + "/" + c == [SLASH] + ([SLASH] + c);
    SplitSlash([SLASH] + c);
    SplitSlash(c);
    SplitPrefix(c, "");
    assert Split("/" + "/" + c) == ["", "", c];
    assert ["", "", c][1..] == ["", c] && ["", c][1..] == [c];
    assert Fold([], ["", "", c]) == Fold([], [c]) == Fold(Step([], c), []);
  }

  lemma SplitBelowRoot(p: string, c: string)
    requires Normal(p) && p != "/" && NoSlash(c)
    ensures Split(p + "/" + c) == [""] + (Parts(p) + [c])
  {
    PartsOfNormal(p);
    var cs := Parts(p);
    JoinSnoc(cs, c);
    assert AllNoSlash(cs + [c]) by {
      assert forall k :: 0 <= k < |cs| ==> (cs + [c])[k] == cs[k];
    }
    SplitJoin(cs + [c]);
    assert p + "/" + c == [SLASH] + (Join(cs) + [SLASH] + c);
    SplitSlash(Join(cs) + [SLASH] + c);
  }

  lemma AppendBelowRoot(p: string, c: string)
    requires Normal(p) && p != "/" && NoSlash(c)
    ensures NormalizePath(p + "/" + c) == Render(Step(Parts(p), c))
  {
    SplitBelowRoot(p, c);
    var cs := Parts(p);
    assert ([""] + (cs + [c]))[1..] == cs + [c];
    assert Fold([], [""] + (cs + [c])) == Fold([], cs + [c]);
    FoldAppend([], cs, [c]);
    FoldOfClean([], cs);
    assert [] + cs == cs;
    assert Fold(cs, [c]) == Fold(Step(cs, c), []);
  }

  /** Normalising a normal path with one more component applied: one step
      of the loop on the path's own components. */
  lemma NormalizeAppend(p: string, c: string)
    requires Normal(p) && NoSlash(c)
    ensures NormalizePath(p + "/" + c) == Render(Step(Parts(p), c))
  {
    if p == "/" {
      AppendAtRoot(c);
    } else {
      AppendBelowRoot(p, c);
    }
  }

  /** ".." never climbs above the root: "/../p" is "/p". */
  lemma DotDotAtRoot(p: string)
    ensures NormalizePath("/../" + p) == NormalizePath("/" + p)
  {
    assert "/../" + p == [SLASH] + (".." + [SLASH] + p);
    assert "/" + p == [SLASH] + p;
    SplitSlash(".." + [SLASH] + p);
    SplitSlash(p);
    SplitPrefix("..", p);
    assert Split("/../" + p) == [""] + [".."] + Split(p);
    FoldAppend([], [""] + [".."], Split(p));
    FoldAppend([], [""], Split(p));
  }

  /** After normalising, it does not matter that `resolve_path` avoids a
      double slash under "/": the result is that of plain concatenation. */
  lemma ResolveThenNormalize(cwd: string, p: string)
    requires !Absolute(p)
    ensures NormalizePath(ResolvePath(cwd, p)) == NormalizePath(cwd + "/" + p)
  {
    if cwd == "/" {
      assert "/" + p == [SLASH] + p;
      assert cwd + "/" + p == [SLASH] + ([SLASH] + p);
      SplitSlash(p);
      SplitSlash([SLASH] + p);
      FoldAppend([], [""], Split(p));
      FoldAppend([], [""] + [""], Split(p));
      assert [""] + ([""] + Split(p)) == ([""] + [""]) + Split(p);
    }
  }

  // ---------------------------------------------------------------------
  // cat

  /** The bytes `exec_cat` keeps: printable ASCII, newline, carriage
      return and tab. */
  predicate Kept(b: byte) { (0x20 <= b <= 0x7E) || b == 10 || b == 13 || b == 9 }

  function CatFilter(bs: seq<byte>): (r: string)
    ensures |r| <= |bs|
    ensures forall k :: 0 <= k < |r| ==> r[k] as int < 0x100 && Kept(r[k] as int)
  {
    if bs == [] then ""
    else if Kept(bs[0]) then [bs[0] as char] + CatFilter(bs[1..])
    else CatFilter(bs[1..])
  }

  lemma {:induction false} CatFilterAppend(a: seq<byte>, b: seq<byte>)
    ensures CatFilter(a + b) == CatFilter(a) + CatFilter(b)
    decreases |a|
  {
    if a == [] {
      assert a + b == b;
    } else {
      assert (a + b)[0] == a[0] && (a + b)[1..] == a[1..] + b;
      CatFilterAppend(a[1..], b);
    }
  }

  /** Text made only of kept bytes passes through unchanged. */
  lemma {:induction false} CatFilterKeepsText(bs: seq<byte>)
    requires forall k :: 0 <= k < |bs| ==> Kept(bs[k])
    ensures |CatFilter(bs)| == |bs|
    ensures forall k :: 0 <= k < |bs| ==> CatFilter(bs)[k] as int == bs[k]
  {
    if bs != [] {
      CatFilterKeepsText(bs[1..]);
    }
  }

  const CAT_BUFFER: nat := 256

  /** The read loop of `exec_cat`: 256-byte reads from the offset until a
      read returns 0, each chunk filtered and appended. */
  function CatLoop(data: seq<byte>, offset: nat): (r: string)
    requires offset <= |data| < U64_MODULUS
    ensures |r| <= |data| - offset
    decreases |data| - offset
  {
    var (n, buf) := FileData.Read(data, offset, FileData.Zeros(CAT_BUFFER));
    if n == 0 then ""
    else CatFilter(buf[..n]) + CatLoop(data, offset + n)
  }

  /** Reading in chunks filters the whole rest of the file. */
  lemma {:induction false} CatLoopFilters(data: seq<byte>, offset: nat)
    requires offset <= |data| < U64_MODULUS
    ensures CatLoop(data, offset) == CatFilter(data[offset..])
    decreases |data| - offset
  {
    var (n, buf) := FileData.Read(data, offset, FileData.Zeros(CAT_BUFFER));
    if offset < |data| {
      CatLoopFilters(data, offset + n);
      assert data[offset..] == data[offset..offset + n] + data[offset + n..];
      CatFilterAppend(data[offset..offset + n], data[offset + n..]);
    }
  }

  const NOT_REGULAR_SUFFIX: string := ": Not a regular file"

  /** `exec_cat` on an existing world: a regular file's whole contents,
      filtered to what cat prints; otherwise a message saying why not. */
  function ExecCat(sh: KShell, w: VfsWorld.World, args: seq<string>): (r: string)
    requires VfsWorld.WorldOk(w)
    ensures args == [] ==> r == "cat: missing file argument"
    ensures args != [] ==>
      var path := ResolvePath(GetCwd(sh), args[0]);
      var found := VfsWorld.LookupPath(w, path);
      && (found.Err? ==> r == "cat: " + args[0] + ": " + found.msg)
      && (found.Ok? && VfsWorld.NodeType(w, found.value) != Vfs.Regular ==> r == "cat: " + args[0] + NOT_REGULAR_SUFFIX)
      && (found.Ok? && found.value.Ram? && VfsWorld.NodeType(w, found.value) == Vfs.Regular
          && found.value.h < |w.ram.nodes| && w.ram.nodes[found.value.h].data.File? ==>
            r == CatFilter(w.ram.nodes[found.value.h].data.bytes))
  {
    if args == [] then "cat: missing file argument"
    else
      var path := ResolvePath(GetCwd(sh), args[0]);
      match VfsWorld.LookupPath(w, path)
      case Err(e) => "cat: " + args[0] + ": " + e
      case Ok(n) =>
        if VfsWorld.NodeType(w, n) != Vfs.Regular then "cat: " + args[0] + NOT_REGULAR_SUFFIX
        else
          match w.ram.nodes[n.h].data
          case File(bytes) =>
            assert RamFs.NodeOk(|w.ram.nodes|, w.ram.nodes[n.h]);
            CatLoopFilters(bytes, 0);
            assert bytes[0..] == bytes;
            CatLoop(bytes, 0)
          case Dir(_) => "\ncat: read error: " + Vfs.NOT_REGULAR_MSG
  }

  // ---------------------------------------------------------------------
  // cd

  /** `exec_cd`: no argument goes to "/"; otherwise the resolved path must
      name a directory, and the working directory becomes its normal
      form. */
  function ExecCd(sh: KShell, w: VfsWorld.World, args: seq<string>): (r: (KShell, string))
    requires VfsWorld.WorldOk(w)
    ensures r.0 != sh ==> r.1 == "" && r.0.cwd.Some? && Normal(r.0.cwd.value)
  {
    if args == [] then (KShell(Some("/")), "")
    else
      var path := ResolvePath(GetCwd(sh), args[0]);
      match VfsWorld.LookupPath(w, path)
      case Err(e) => (sh, "cd: " + args[0] + ": " + e)
      case Ok(n) =>
        if VfsWorld.NodeType(w, n) == Vfs.Directory then (KShell(Some(NormalizePath(path))), "")
        else (sh, "cd: " + args[0] + ": " + Vfs.NOT_DIRECTORY_MSG)
  }

  // ---------------------------------------------------------------------
  // uptime

  /** `exec_uptime`'s arithmetic on the millisecond tick count. */
  function Uptime(ticks: nat): (nat, nat, nat)
  {
    var seconds := ticks / 1000;
    var minutes := seconds / 60;
    (minutes / 60, minutes % 60, seconds % 60)
  }

  /** Hours, minutes and seconds add back up to the whole seconds, with
      minutes and seconds below 60. */
  lemma UptimeSplits(ticks: nat)
    ensures var (h, m, s) := Uptime(ticks);
      h * 3600 + m * 60 + s == ticks / 1000 && m < 60 && s < 60
  {
    var seconds := ticks / 1000;
    var minutes := seconds / 60;
    assert minutes == (minutes / 60) * 60 + minutes % 60;
    assert seconds == minutes * 60 + seconds % 60;
  }

  function UptimeText(ticks: nat): string
  {
    var (h, m, s) := Uptime(ticks);
    "Uptime: " + Decimal(h) + "h " + Decimal(m) + "m " + Decimal(s) + "s (" + Decimal(ticks) + " ticks)"
  }

  // ---------------------------------------------------------------------
  // execute_command

  const HELP_TEXT: string := "Commands: help, clear, info, mem, df, ps, uptime, echo, sync, reboot, halt\nFiles:    ls, cd, pwd, cat, touch, mkdir, rm, write\n\nFiles are stored persistently on disk (CottonFS)."
  const CLEAR_SCREEN: string := [27 as char] + "[CLEAR]"

  function HelpDetail(cmd: string): string
  {
    match cmd
    case "ls" => "ls [path] - List directory contents"
    case "cd" => "cd <path> - Change directory"
    case "pwd" => "pwd - Print working directory"
    case "cat" => "cat <file> - Display file contents"
    case "touch" => "touch <file> - Create empty file"
    case "mkdir" => "mkdir <dir> - Create directory"
    case "rm" => "rm <file> - Remove file or empty directory"
    case "write" => "write <file> <text> - Write text to file"
    case "df" => "df - Show disk space usage (CottonFS)"
    case "sync" => "sync - Force sync all data to disk"
    case "info" => "info - Show system information"
    case "mem" => "mem - Show memory statistics"
    case "ps" => "ps - List running processes"
    case "uptime" => "uptime - Show system uptime"
    case "echo" => "echo <text> - Print text"
    case "clear" => "clear - Clear the screen"
    case "reboot" => "reboot - Restart the system"
    case "halt" => "halt - Stop the CPU"
    case _ => "Unknown command: " + cmd
  }

  /** The commands whose work the model does not carry out: they report on
      or change state outside the shell and the VFS model (memory, disk,
      processes, the CPU), or they format directory listings. */
  predicate Delegated(cmd: string)
  {
    cmd in {"info", "mem", "df", "sync", "ps", "panic", "reboot", "halt", "ls", "touch", "mkdir", "rm", "write"}
  }

  /** What a command line produces: its text, or the name of a command
      whose work is not modelled (with its arguments). */
  datatype Reply = Text(text: string) | Elsewhere(cmd: string, args: seq<string>)

  function UnknownText(cmd: string): string
  {
    "Unknown command: '" + cmd + "'. Type 'help'."
  }

  /** `execute_command`: split the line into words, dispatch on the first. */
  function Execute(sh: KShell, w: VfsWorld.World, ticks: nat, line: string): (r: (KShell, Reply))
    requires VfsWorld.WorldOk(w)
    ensures Words(line) == [] ==> r == (sh, Text(""))
    ensures r.0 != sh ==> Words(line) != [] && Words(line)[0] == "cd"
    ensures Words(line) != [] && !Delegated(Words(line)[0]) ==> r.1.Text?
    ensures Words(line) != [] && Delegated(Words(line)[0]) ==> r == (sh, Elsewhere(Words(line)[0], Words(line)[1..]))
  {
    var words := Words(line);
    if words == [] then (sh, Text(""))
    else
      var cmd := words[0];
      var args := words[1..];
      if cmd == "help" then (sh, Text(if args == [] then HELP_TEXT else HelpDetail(args[0])))
      else if cmd == "clear" then (sh, Text(CLEAR_SCREEN))
      else if cmd == "uptime" then (sh, Text(UptimeText(ticks)))
      else if cmd == "echo" then (sh, Text(JoinWith(" ", args)))
      else if cmd == "pwd" then (sh, Text(GetCwd(sh)))
      else if cmd == "cd" then var (sh', out) := ExecCd(sh, w, args); (sh', Text(out))
      else if cmd == "cat" then (sh, Text(ExecCat(sh, w, args)))
      else if Delegated(cmd) then (sh, Elsewhere(cmd, args))
      else (sh, Text(UnknownText(cmd)))
  }

  /** `echo` prints its words joined by single spaces, whatever spacing the
      line used. */
  lemma EchoJoins(sh: KShell, w: VfsWorld.World, ticks: nat, ws: seq<string>)
    requires VfsWorld.WorldOk(w) && AllWords(ws)
    ensures Execute(sh, w, ticks, JoinWith(" ", ["echo"] + ws)) == (sh, Text(JoinWith(" ", ws)))
  {
    assert IsWord("echo") by { assert forall k :: 0 <= k < 4 ==> "echo"[k] in "echo"; }
    WordsOfJoin(["echo"] + ws);
    assert (["echo"] + ws)[1..] == ws;
  }

  /** An unrecognised command word is reported back. */
  lemma UnknownCommand(sh: KShell, w: VfsWorld.World, ticks: nat, cmd: string, ws: seq<string>)
    requires VfsWorld.WorldOk(w) && IsWord(cmd) && AllWords(ws) && !Delegated(cmd)
    requires cmd !in {"help", "clear", "uptime", "echo", "pwd", "cd", "cat"}
    ensures Execute(sh, w, ticks, JoinWith(" ", [cmd] + ws)) == (sh, Text(UnknownText(cmd)))
  {
    WordsOfJoin([cmd] + ws);
  }

  lemma CdWords(p: string)
    requires IsWord(p)
    ensures Words("cd " + p) == ["cd", p]
  {
    assert IsWord("cd") by { assert forall k :: 0 <= k < 2 ==> "cd"[k] in "cd"; }
    WordsOfJoin(["cd", p]);
    assert JoinWith(" ", ["cd", p]) == "cd " + p;
  }

  lemma PwdWords()
    ensures Words("pwd") == ["pwd"]
  {
    assert IsWord("pwd") by { assert forall k :: 0 <= k < 3 ==> "pwd"[k] in "pwd"; }
    WordsOfJoin(["pwd"]);
  }

  /** `cd` into a directory followed by `pwd` prints the normal form of the
      resolved path. */
  lemma CdThenPwd(sh: KShell, w: VfsWorld.World, ticks: nat, p: string, n: VfsWorld.Node)
    requires VfsWorld.WorldOk(w) && IsWord(p)
    requires VfsWorld.LookupPath(w, ResolvePath(GetCwd(sh), p)) == Ok(n)
    requires VfsWorld.NodeIn(w, n) && VfsWorld.NodeType(w, n) == Vfs.Directory
    ensures var r := Execute(sh, w, ticks, "cd " + p);
      && r.1 == Text("")
      && Execute(r.0, w, ticks, "pwd") == (r.0, Text(NormalizePath(ResolvePath(GetCwd(sh), p))))
  {
    CdWords(p);
    PwdWords();
    var sh' := KShell(Some(NormalizePath(ResolvePath(GetCwd(sh), p))));
    assert ExecCd(sh, w, [p]) == (sh', "");
    assert Execute(sh, w, ticks, "cd " + p) == (sh', Text(""));
  }
}
