/** The libwc library of lab1/zad1: a context holding a growable table of optional
    result strings addressed by integer handles, and the builder of the `wc` shell
    command whose output the results are.  Allocation failures are boolean
    parameters; the contents of the temporary file are an input. */
module LibWc {
  import opened Common

  const DEFAULT_TMPFILE: string := "/tmp/libwc.txt"
  /** 32 / sizeof(char*) on a 64-bit target: the first capacity of the table. */
  const INITIAL_CAP := 4

  /** A C string holds no NUL character. */
  predicate NoNul(s: string) {
    forall i :: 0 <= i < |s| ==> s[i] != '\0'
  }

  class Context {
    var tmpfile: string
    var len: nat
    var cap: nat
    /** The `cap` slots of the table; NULL is None. */
    var data: array<Option<string>>

    /** The slots past `len` are NULL, as calloc left them. */
    ghost predicate Valid()
      reads this, data
    {
      data.Length == cap && len <= cap &&
      forall i :: len <= i < cap ==> data[i] == None
    }

    /** The results table: one entry per handle handed out, None once deleted. */
    ghost function Results(): seq<Option<string>>
      reads this, data
      requires Valid()
    {
      data[..len]
    }

    constructor Init(path: string)
      ensures Valid() && fresh(data)
      ensures tmpfile == path && len == 0 && cap == 0 && Results() == []
    {
      tmpfile := path;
      len, cap := 0, 0;
      data := new Option<string>[0];
    }

    /** ensure_space: with a free slot nothing changes; otherwise the table is
        reallocated at twice its capacity (INITIAL_CAP when it had none) with the
        first `len` entries copied, or, if the allocation fails, false is returned
        and nothing changes. */
    method EnsureSpace(allocOk: bool) returns (ok: bool)
      requires Valid()
      modifies this
      ensures Valid()
      ensures ok <==> old(cap) > old(len) || allocOk
      ensures ok ==> cap > len
      ensures Results() == old(Results()) && len == old(len) && tmpfile == old(tmpfile)
      ensures old(cap) > old(len) || !allocOk ==> cap == old(cap) && data == old(data)
      ensures old(cap) <= old(len) && allocOk ==>
        cap == (if old(cap) == 0 then INITIAL_CAP else 2 * old(cap)) && fresh(data)
    {
      if cap > len {
        return true;
      }
      var newSize := 2 * cap;
      if newSize == 0 {
        newSize := INITIAL_CAP;
      }
      if !allocOk {
        return false;
      }
      var newData := new Option<string>[newSize](_ => None);
      assert newSize > len;
      var i := 0;
      while i < len
        modifies newData
        invariant 0 <= i <= len
        invariant forall j :: 0 <= j < i ==> newData[j] == data[j]
        invariant forall j :: len <= j < newSize ==> newData[j] == None
      {
        newData[i] := data[i];
        i := i + 1;
      }
      assert newData[..len] == data[..len];
      cap := newSize;
      data := newData;
      return true;
    }

    /** libwc_load_result without the file I/O: `contents` is the temporary file read
        whole, None when fopen, fseeko or ftello fails.  A success hands out the old
        `len` as the handle; every failure returns -1 with the table as it was. */
    method LoadResult(spaceAllocOk: bool, contents: Option<string>, bufferAllocOk: bool) returns (handle: int)
      requires Valid()
      modifies this, data
      ensures Valid() && tmpfile == old(tmpfile)
      ensures handle == -1 || handle == old(len)
      ensures handle >= 0 <==>
        (old(cap) > old(len) || spaceAllocOk) && contents.Some? && bufferAllocOk
      ensures handle >= 0 ==> Results() == old(Results()) + [contents] && len == old(len) + 1
      ensures handle < 0 ==> Results() == old(Results()) && len == old(len)
    {
      var ok := EnsureSpace(spaceAllocOk);
      if !ok {
        return -1;
      }
      if contents.None? {
        return -1;
      }
      var idx := len;
      len := len + 1;
      assert data[idx] == None;
      if !bufferAllocOk {
        len := len - 1;
        return -1;
      }
      data[idx] := contents;
      assert data[..len] == old(Results()) + [contents];
      return idx;
    }

    /** libwc_del_result: false for a handle that is out of range or already deleted,
        otherwise that one entry becomes NULL. */
    method DelResult(handle: int) returns (ok: bool)
      requires Valid()
      modifies data
      ensures Valid()
      ensures ok <==> 0 <= handle < len && old(Results())[handle].Some?
      ensures ok ==> Results() == old(Results())[handle := None]
      ensures !ok ==> Results() == old(Results())
    {
      if handle < 0 || handle >= len {
        return false;
      }
      if data[handle].None? {
        return false;
      }
      data[handle] := None;
      assert data[..len] == old(Results())[handle := None];
      return true;
    }

    /** libwc_get_result, whose assert on the handle is its precondition. */
    method GetResult(handle: int) returns (r: Option<string>)
      requires Valid() && 0 <= handle < len
      ensures r == Results()[handle]
    {
      r := data[handle];
    }
  }

  /** libwc_create: a context with the default temporary file and an empty table, or
      NULL when its allocation fails. */
  method Create(allocOk: bool) returns (ctx: Context?)
    ensures allocOk <==> ctx != null
    ensures ctx != null ==>
      (fresh(ctx) && ctx.Valid() && ctx.tmpfile == DEFAULT_TMPFILE && ctx.len == 0 && ctx.cap == 0)
  {
    if !allocOk {
      return null;
    }
    ctx := new Context.Init(DEFAULT_TMPFILE);
  }

  /** libwc_create_custom as written: the context is allocated and set up, but the
      function returns NULL in every case. */
  method CreateCustomAsWritten(tmpfile: string, allocOk: bool) returns (ctx: Context?)
    requires |tmpfile| > 0 && tmpfile[0] != ' '
    ensures ctx == null
  {
    if !allocOk {
      return null;
    }
    var made := new Context.Init(tmpfile);
    return null;
  }

  /** libwc_create_custom as its header describes it: an empty context using the
      given temporary file. */
  method CreateCustom(tmpfile: string, allocOk: bool) returns (ctx: Context?)
    requires |tmpfile| > 0 && tmpfile[0] != ' '
    ensures allocOk <==> ctx != null
    ensures ctx != null ==>
      (fresh(ctx) && ctx.Valid() && ctx.tmpfile == tmpfile && ctx.len == 0 && ctx.cap == 0)
  {
    if !allocOk {
      return null;
    }
    ctx := new Context.Init(tmpfile);
  }

  /** Deleting a handle twice: the second delete reports failure and leaves the
      table as the first one left it. */
  method DeleteTwice(ctx: Context, handle: int) returns (first: bool, second: bool)
    requires ctx.Valid()
    modifies ctx.data
    ensures ctx.Valid()
    ensures !second
    ensures first ==> 0 <= handle < |old(ctx.Results())| && ctx.Results() == old(ctx.Results())[handle := None]
  {
    first := ctx.DelResult(handle);
    second := ctx.DelResult(handle);
  }

  /** is_arg_safe: characters that need no quoting in a shell word. */
  predicate IsArgSafe(c: char) {
    ('-' <= c <= ':') || ('@' <= c <= 'Z') || ('a' <= c <= 'z') || c == '_' || c == '~' || c == '+'
  }

  /** The characters that section 2.2 of the POSIX.1-2017 Shell Command Language
      says must be quoted to stand for themselves, and those that are special in
      some contexts, other than `~`. */
  const SHELL_SPECIAL: set<char> :=
    {'|', '&', ';', '<', '>', '(', ')', '$', '`', '\\', '"', '\'', ' ', '\t', '\n',
     '*', '?', '[', '#', '=', '%'}

  /** No character the builder copies without a backslash is special to the shell,
      apart from `~`, which is special only at the start of a word. */
  lemma SafeCharsNotSpecial(c: char)
    requires IsArgSafe(c)
    ensures c !in SHELL_SPECIAL
  {
  }

  /** A character of the temporary file path, with a backslash when it is unsafe. */
  function EscapeChar(c: char): string {
    if IsArgSafe(c) then [c] else ['\\', c]
  }

  /** The escaped temporary file path. */
  function EscapeWord(t: string): (r: string)
    ensures |r| <= 2 * |t|
  {
    if t == [] then [] else EscapeChar(t[0]) + EscapeWord(t[1..])
  }

  lemma {:induction false} EscapeWordSnoc(t: string, c: char)
    ensures EscapeWord(t + [c]) == EscapeWord(t) + EscapeChar(c)
  {
    if t == [] {
      assert [c][1..] == [];
    } else {
      assert (t + [c])[1..] == t[1..] + [c];
      EscapeWordSnoc(t[1..], c);
    }
  }

  /** One character of the file paths: a word-initial `-` gets `./` before it so that
      wc does not take it for an option, a space is copied as is (it separates
      words), and any other unsafe character gets a backslash. */
  function PathChar(start: bool, c: char): string {
    (if start && c == '-' then "./" else "") + (if !IsArgSafe(c) && c != ' ' then "\\" else "") + [c]
  }

  /** The growth that keeps the escaped paths within 2 bytes per character plus one:
      a `./` is only ever added at a word start, which follows a space (1 byte) or is
      the first character. */
  lemma PathCharLength(start: bool, c: char)
    ensures |PathChar(start, c)| <= 2 + (if start then 1 else 0) - (if c == ' ' then 1 else 0)
  {
  }

  /** The escaped file paths; `start` says whether the first character begins a word. */
  function EscapePaths(a: string, start: bool): string {
    if a == [] then [] else PathChar(start, a[0]) + EscapePaths(a[1..], a[0] == ' ')
  }

  /** Whether the character after `a` begins a word. */
  function StartAfter(a: string, start: bool): bool {
    if a == [] then start else a[|a| - 1] == ' '
  }

  lemma {:induction false} EscapePathsSnoc(a: string, start: bool, c: char)
    ensures EscapePaths(a + [c], start) == EscapePaths(a, start) + PathChar(StartAfter(a, start), c)
  {
    if a == [] {
      assert [c][1..] == [];
    } else {
      assert (a + [c])[1..] == a[1..] + [c];
      assert (a + [c])[0] == a[0];
      EscapePathsSnoc(a[1..], a[0] == ' ', c);
      if |a| > 1 {
        assert a[1..][|a[1..]| - 1] == a[|a| - 1];
      }
    }
  }

  /** The command libwc_stats_to_tmpfile passes to system(). */
  function WcCommand(tmpfile: string, paths: string): string {
    "wc >" + EscapeWord(tmpfile) + " " + EscapePaths(paths, true)
  }

  /** The size of the buffer libwc_stats_to_tmpfile allocates. */
  function BufferSize(tmpfile: string, paths: string): nat {
    2 * (|paths| + 1) + 2 * |tmpfile| + 6
  }

  /** The unwritten rest of the calloc'd buffer is still zero. */
  ghost predicate ZeroFrom(buf: array<char>, p: nat)
    reads buf
  {
    forall k :: p <= k < buf.Length ==> buf[k] == '\0'
  }

  /** `*p++ = c` for each character of s. */
  method PutStr(buf: array<char>, p: nat, s: string) returns (q: nat)
    requires p + |s| <= buf.Length && ZeroFrom(buf, p)
    modifies buf
    ensures q == p + |s| && ZeroFrom(buf, q)
    ensures buf[..q] == old(buf[..p]) + s
  {
    var i := 0;
    while i < |s|
      invariant 0 <= i <= |s|
      invariant buf[..p + i] == old(buf[..p]) + s[..i]
      invariant ZeroFrom(buf, p + i)
    {
      buf[p + i] := s[i];
      assert s[..i + 1] == s[..i] + [s[i]];
      i := i + 1;
    }
    assert s[..i] == s;
    q := p + |s|;
  }

  /** The loop over the temporary file path: each character, with a backslash
      before it when it is unsafe. */
  method PutWord(buf: array<char>, p0: nat, t: string) returns (p: nat)
    requires p0 + 2 * |t| <= buf.Length && ZeroFrom(buf, p0)
    modifies buf
    ensures p0 <= p <= p0 + 2 * |t| && ZeroFrom(buf, p)
    ensures buf[..p] == old(buf[..p0]) + EscapeWord(t)
  {
    p := p0;
    var i := 0;
    while i < |t|
      invariant 0 <= i <= |t|
      invariant p0 <= p <= p0 + 2 * i && ZeroFrom(buf, p)
      invariant buf[..p] == old(buf[..p0]) + EscapeWord(t[..i])
    {
      var c := t[i];
      p := PutStr(buf, p, EscapeChar(c));
      EscapeWordSnoc(t[..i], c);
      assert t[..i + 1] == t[..i] + [c];
      i := i + 1;
    }
    assert t[..i] == t;
  }

  /** The loop over the file paths, with its word-start flag: `./` before a
      word-initial `-`, a backslash before an unsafe character other than space. */
  method PutPaths(buf: array<char>, p0: nat, a: string) returns (p: nat)
    requires p0 + 2 * |a| + 1 <= buf.Length && ZeroFrom(buf, p0)
    modifies buf
    ensures p0 <= p <= p0 + 2 * |a| + 1 && ZeroFrom(buf, p)
    ensures buf[..p] == old(buf[..p0]) + EscapePaths(a, true)
  {
    p := p0;
    var start := true;
    var j := 0;
    while j < |a|
      invariant 0 <= j <= |a|
      invariant start == StartAfter(a[..j], true)
      invariant p0 <= p <= p0 + 2 * j + 1 - (if start then 1 else 0) && ZeroFrom(buf, p)
      invariant buf[..p] == old(buf[..p0]) + EscapePaths(a[..j], true)
    {
      var c := a[j];
      PathCharLength(start, c);
      EscapePathsSnoc(a[..j], true, c);
      assert a[..j + 1] == a[..j] + [c];
      p := PutStr(buf, p, PathChar(start, c));
      start := c == ' ';
      assert StartAfter(a[..j + 1], true) == start;
      j := j + 1;
    }
    assert a[..j] == a;
  }

  /** The string building of libwc_stats_to_tmpfile, writing into the calloc'd buffer
      through a moving position: every write is in bounds and a NUL still follows the
      command. */
  method BuildCommand(tmpfile: string, paths: string) returns (cmd: string)
    requires NoNul(tmpfile) && NoNul(paths)
    ensures cmd == WcCommand(tmpfile, paths)
    ensures |cmd| + 1 <= BufferSize(tmpfile, paths)
  {
    var size := 2 * (|paths| + 1) + 2 * |tmpfile| + 6;
    var buf := new char[size](_ => '\0');
    var p := PutStr(buf, 0, "wc >");
    ghost var b1 := buf[..p];
    p := PutWord(buf, p, tmpfile);
    ghost var b2 := buf[..p];
    p := PutStr(buf, p, " ");
    ghost var b3 := buf[..p];
    p := PutPaths(buf, p, paths);
    assert b1 == "wc >" && b2 == b1 + EscapeWord(tmpfile) && b3 == b2 + " ";
    assert buf[..p] == b3 + EscapePaths(paths, true);
    assert p < size && buf[p] == '\0';
    cmd := buf[..p];
  }

  /** Every character of `s` is safe or preceded by a backslash; with `spaces`, an
      unescaped space is allowed too. */
  predicate Quoted(s: string, spaces: bool) {
    if s == [] then true
    else if s[0] == '\\' then |s| >= 2 && Quoted(s[2..], spaces)
    else (IsArgSafe(s[0]) || (spaces && s[0] == ' ')) && Quoted(s[1..], spaces)
  }

  /** How the shell reads a character copied as is, in front of `r`. */
  lemma UnescapePlain(c: char, r: string, spaces: bool, start: bool)
    requires c != '\\'
    ensures ShellUnquote([c] + r) == [c] + ShellUnquote(r)
    ensures Quoted([c] + r, spaces) == ((IsArgSafe(c) || (spaces && c == ' ')) && Quoted(r, spaces))
    ensures TildeAtStart([c] + r, start) == ((start && c == '~') || TildeAtStart(r, c == ' '))
  {
    assert ([c] + r)[1..] == r;
  }

  /** How the shell reads a backslash and the character after it, in front of `r`. */
  lemma UnescapeBackslash(c: char, r: string, spaces: bool, start: bool)
    ensures ShellUnquote(['\\', c] + r) == (if c == '\n' then [] else [c]) + ShellUnquote(r)
    ensures Quoted(['\\', c] + r, spaces) == Quoted(r, spaces)
    ensures TildeAtStart(['\\', c] + r, start) == TildeAtStart(r, start && c == '\n')
  {
    assert (['\\', c] + r)[2..] == r;
  }

  /** The escaped temporary file is one shell word.  Quote removal gives the path
      without its newlines, since a backslash before a newline is a line continuation,
      and the word is open to tilde expansion exactly when what is left starts with
      `~`, which is_arg_safe lets through unescaped. */
  lemma {:induction false} EscapeWordMeaning(t: string, start: bool)
    ensures Quoted(EscapeWord(t), false)
    ensures ShellUnquote(EscapeWord(t)) == Joined(t)
    ensures TildeAtStart(EscapeWord(t), start) <==> start && Joined(t) != [] && Joined(t)[0] == '~'
  {
    if t != [] {
      var c, rest := t[0], EscapeWord(t[1..]);
      if IsArgSafe(c) {
        EscapeWordMeaning(t[1..], false);
        UnescapePlain(c, rest, false, start);
      } else {
        EscapeWordMeaning(t[1..], start && c == '\n');
        UnescapeBackslash(c, rest, false, start);
      }
    }
  }

  /** A temporary file path without newlines that does not start with `~` is the word
      the shell redirects to. */
  lemma EscapeWordRoundTrip(t: string)
    requires forall i :: 0 <= i < |t| ==> t[i] != '\n'
    requires t == [] || t[0] != '~'
    ensures ShellUnquote(EscapeWord(t)) == t
    ensures !TildeAtStart(EscapeWord(t), true)
  {
    EscapeWordMeaning(t, true);
    JoinedNoNewline(t);
  }

  /** The paths with `./` before every word-initial `-`. */
  function DashGuarded(a: string, start: bool): string {
    if a == [] then []
    else (if start && a[0] == '-' then "./" else "") + [a[0]] + DashGuarded(a[1..], a[0] == ' ')
  }

  /** `./` followed by a file name is the same file, and no word of the result starts
      with `-`. */
  lemma {:induction false} DashGuardedNoOption(a: string, start: bool)
    ensures start && |DashGuarded(a, start)| > 0 ==> DashGuarded(a, start)[0] != '-'
    ensures forall k :: 0 <= k < |DashGuarded(a, start)| - 1 && DashGuarded(a, start)[k] == ' ' ==>
      DashGuarded(a, start)[k + 1] != '-'
  {
    if a != [] {
      DashGuardedNoOption(a[1..], a[0] == ' ');
    }
  }

  /** Guarding adds no newline. */
  lemma {:induction false} DashGuardedNoNewline(a: string, start: bool)
    requires forall i :: 0 <= i < |a| ==> a[i] != '\n'
    ensures forall i :: 0 <= i < |DashGuarded(a, start)| ==> DashGuarded(a, start)[i] != '\n'
  {
    if a != [] {
      DashGuardedNoNewline(a[1..], a[0] == ' ');
    }
  }

  /** One escaped path character in front of already escaped text. */
  lemma DashMeaning(rest: string)
    ensures Quoted("./-" + rest, true) == Quoted(rest, true)
    ensures ShellUnquote("./-" + rest) == "./-" + ShellUnquote(rest)
  {
    UnescapePlain('-', rest, true, false);
    UnescapePlain('/', "-" + rest, true, false);
    UnescapePlain('.', "/-" + rest, true, false);
    assert "./-" + rest == ['.'] + ("/-" + rest);
    assert "/-" + rest == ['/'] + ("-" + rest);
  }

  lemma PathCharMeaning(start: bool, c: char, rest: string)
    ensures Quoted(PathChar(start, c) + rest, true) == Quoted(rest, true)
    ensures ShellUnquote(PathChar(start, c) + rest) ==
      (if start && c == '-' then "./" else "") + Joined([c]) + ShellUnquote(rest)
  {
    JoinedOne(c);
    if start && c == '-' {
      DashMeaning(rest);
      assert PathChar(start, c) + rest == "./-" + rest;
    } else if !IsArgSafe(c) && c != ' ' {
      UnescapeBackslash(c, rest, true, false);
      assert PathChar(start, c) + rest == ['\\', c] + rest;
    } else {
      UnescapePlain(c, rest, true, false);
      assert PathChar(start, c) + rest == [c] + rest;
    }
  }

  /** The escaped paths are unescaped spaces between quoted words, and quote removal
      gives the paths with their word-initial dashes guarded and their newlines
      removed as line continuations. */
  lemma {:induction false} EscapePathsMeaning(a: string, start: bool)
    ensures Quoted(EscapePaths(a, start), true)
    ensures ShellUnquote(EscapePaths(a, start)) == Joined(DashGuarded(a, start))
  {
    if a != [] {
      var pre := if start && a[0] == '-' then "./" else "";
      var guarded := DashGuarded(a[1..], a[0] == ' ');
      EscapePathsMeaning(a[1..], a[0] == ' ');
      PathCharMeaning(start, a[0], EscapePaths(a[1..], a[0] == ' '));
      JoinedNoNewline(pre);
      JoinedAppend(pre, [a[0]]);
      JoinedAppend(pre + [a[0]], guarded);
    }
  }

  /** Paths without newlines reach wc as the paths with their dashes guarded, except
      that a word of them beginning with `~` undergoes tilde expansion; no other word
      does. */
  lemma PathsRoundTrip(a: string)
    requires forall i :: 0 <= i < |a| ==> a[i] != '\n'
    ensures ShellUnquote(EscapePaths(a, true)) == DashGuarded(a, true)
    ensures TildeAtStart(EscapePaths(a, true), true) <==> TildeWord(a, true)
  {
    EscapePathsMeaning(a, true);
    DashGuardedNoNewline(a, true);
    JoinedNoNewline(DashGuarded(a, true));
    EscapePathsTilde(a, true, true);
    JoinedNoNewline(a);
  }

  /** A path that starts with a newline and then a dash: the builder guards only a
      dash at the start of a word, the line continuation removes the newline, and wc
      receives the word "-n", an option. */
  lemma NewlineExposesDash()
    ensures ShellUnquote(EscapePaths("\n-n", true)) == "-n"
  {
    var a := "\n-n";
    var e := "\\\n-n";
    assert PathChar(true, '\n') == e[..2] && PathChar(false, '-') == "-";
    assert EscapePaths(a[2..], false) == e[3..];
    assert EscapePaths(a[1..], false) == e[2..];
    assert EscapePaths(a, true) == e;
    assert ShellUnquote(e[3..]) == "n";
    assert ShellUnquote(e[2..]) == "-n";
  }

  /** Whether some word of the plain text a begins with `~`: a word begins at the start
      when `start` holds, and after a space. */
  predicate TildeWord(a: string, start: bool) {
    if a == [] then false
    else if start && a[0] == '~' then true
    else TildeWord(a[1..], a[0] == ' ')
  }

  /** How the shell's tilde test reads one escaped path character in front of `rest`. */
  lemma PathCharTilde(start: bool, c: char, rest: string, shellStart: bool)
    ensures TildeAtStart(PathChar(start, c) + rest, shellStart) ==
      if start && c == '-' then TildeAtStart(rest, false)
      else if !IsArgSafe(c) && c != ' ' then TildeAtStart(rest, shellStart && c == '\n')
      else (shellStart && c == '~') || TildeAtStart(rest, c == ' ')
  {
    if start && c == '-' {
      assert PathChar(start, c) + rest == ['.'] + (['/'] + (['-'] + rest));
      UnescapePlain('-', rest, true, false);
      UnescapePlain('/', ['-'] + rest, true, false);
      UnescapePlain('.', ['/'] + (['-'] + rest), true, shellStart);
    } else if !IsArgSafe(c) && c != ' ' {
      assert PathChar(start, c) + rest == ['\\', c] + rest;
      UnescapeBackslash(c, rest, true, shellStart);
    } else {
      assert PathChar(start, c) + rest == [c] + rest;
      UnescapePlain(c, rest, true, shellStart);
    }
  }

  /** Whether a word of the paths begins with `~` once their newlines are removed, one
      character at a time. */
  lemma JoinedTildeWord(a: string, shellStart: bool)
    requires a != []
    ensures TildeWord(Joined(a), shellStart) ==
      if a[0] == '\n' then TildeWord(Joined(a[1..]), shellStart)
      else (shellStart && a[0] == '~') || TildeWord(Joined(a[1..]), a[0] == ' ')
  {
    if a[0] == '\n' {
      assert Joined(a) == Joined(a[1..]);
    } else {
      assert Joined(a) == [a[0]] + Joined(a[1..]);
      assert ([a[0]] + Joined(a[1..]))[1..] == Joined(a[1..]);
    }
  }

  /** The escaped paths are open to tilde expansion exactly when a word of the paths,
      once the line continuations are removed, begins with `~`.  `start` is the
      builder's word-start flag and `shellStart` the shell's, which differ after a
      newline. */
  lemma {:induction false} EscapePathsTilde(a: string, start: bool, shellStart: bool)
    ensures TildeAtStart(EscapePaths(a, start), shellStart) == TildeWord(Joined(a), shellStart)
  {
    if a != [] {
      var c := a[0];
      PathCharTilde(start, c, EscapePaths(a[1..], c == ' '), shellStart);
      JoinedTildeWord(a, shellStart);
      if start && c == '-' {
        EscapePathsTilde(a[1..], false, false);
      } else if !IsArgSafe(c) && c != ' ' {
        assert c != '~';
        EscapePathsTilde(a[1..], false, shellStart && c == '\n');
      } else {
        EscapePathsTilde(a[1..], c == ' ', c == ' ');
      }
    }
  }
}
