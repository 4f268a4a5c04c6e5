/** lab5/zad2: a front end to mail(1).  With one argument ("date" or "author") it lists
    the mailbox headers through a sort command; with three (address, subject, contents)
    it builds a `mail` command line that quotes every character of the address and
    writes the message into the pipe.  The pipes themselves are not modelled: a run is
    described by the sort command it starts, or by the command line and the message
    text it sends. */
module MailCmd {
  import opened Common

  /** A C string: no character is NUL. */
  predicate NoNul(s: string) {
    forall i :: 0 <= i < |s| ==> s[i] != '\0'
  }

  /** The filter the mailbox headers are piped through: sort method 1 sorts on the
      second field (the author), every other method keeps mail's own order. */
  function SortCommand(sortMethod: int): (cmd: string)
    ensures cmd == "sort -k2,2" <==> sortMethod == 1
    ensures cmd != "sort -k2,2" ==> cmd == "cat"
  {
    if sortMethod == 1 then "sort -k2,2" else "cat"
  }

  /** Every character of s preceded by a backslash, so the shell takes it literally. */
  function Escaped(s: string): (e: string)
    ensures |e| == 2 * |s|
  {
    if s == [] then [] else ['\\', s[0]] + Escaped(s[1..])
  }

  /** Character i of s sits at 2 i + 1 of the escaped word, behind a backslash. */
  lemma {:induction false} EscapedAt(s: string, i: nat)
    requires i < |s|
    ensures Escaped(s)[2 * i] == '\\' && Escaped(s)[2 * i + 1] == s[i]
  {
    if i > 0 {
      EscapedAt(s[1..], i - 1);
    }
  }

  /** What the shell reads from an escaped word: every character literally, except a
      newline, whose backslash makes a line continuation that removes both.  No
      character is left unquoted, so tilde expansion never applies. */
  lemma {:induction false} UnescapeEscaped(s: string, start: bool)
    ensures ShellUnquote(Escaped(s)) == Joined(s)
    ensures !TildeAtStart(Escaped(s), start)
  {
    if s != [] {
      var e := Escaped(s);
      assert e[0] == '\\' && e[1] == s[0] && e[2..] == Escaped(s[1..]);
      UnescapeEscaped(s[1..], start && s[0] == '\n');
    }
  }

  lemma {:induction false} EscapedAppend(a: string, b: string)
    ensures Escaped(a + b) == Escaped(a) + Escaped(b)
  {
    if a == [] {
      assert a + b == b;
    } else {
      assert (a + b)[0] == a[0] && (a + b)[1..] == a[1..] + b;
      EscapedAppend(a[1..], b);
      assert Escaped(a + b) == ['\\', a[0]] + (Escaped(a[1..]) + Escaped(b));
    }
  }

  /** The command line mail_compose runs: "mail " and the escaped address. */
  function CommandLine(to: string): (cmd: string)
    ensures |cmd| == 5 + 2 * |to|
    ensures cmd[..5] == "mail " && ShellUnquote(cmd[5..]) == Joined(to)
    ensures !TildeAtStart(cmd[5..], true)
  {
    UnescapeEscaped(to, true);
    "mail " + Escaped(to)
  }

  lemma EscapedSnoc(to: string, i: nat)
    requires i < |to|
    ensures Escaped(to[..i + 1]) == Escaped(to[..i]) + ['\\', to[i]]
  {
    assert to[..i + 1] == to[..i] + [to[i]];
    EscapedAppend(to[..i], [to[i]]);
  }

  /** Writes x and y at p and p + 1 of a, behind the first p characters. */
  method Put2(a: array<char>, p: nat, x: char, y: char)
    requires p + 2 <= a.Length
    modifies a
    ensures a[..p + 2] == old(a[..p]) + [x, y]
  {
    a[p] := x;
    a[p + 1] := y;
    assert a[..p + 2] == a[..p] + [x, y];
  }

  /** mail_compose's command-line builder: a zeroed buffer of 2 |to| + 8 characters is
      filled through a cursor with "mail ", then a backslash and a character for every
      character of the address, then the terminating NUL. */
  method ComposeCommand(to: string) returns (cmdline: array<char>)
    requires NoNul(to)
    ensures fresh(cmdline) && cmdline.Length == 2 * |to| + 8
    ensures |CommandLine(to)| < cmdline.Length
    ensures cmdline[..|CommandLine(to)|] == CommandLine(to) && cmdline[|CommandLine(to)|] == '\0'
  {
    cmdline := new char[2 * |to| + 8](_ => '\0');
    cmdline[0], cmdline[1], cmdline[2], cmdline[3], cmdline[4] := 'm', 'a', 'i', 'l', ' ';
    assert cmdline[..5] == "mail " + Escaped(to[..0]);
    var p := 5;
    var i := 0;
    while i < |to|
      invariant 0 <= i <= |to| && p == 5 + 2 * i
      invariant cmdline[..p] == "mail " + Escaped(to[..i])
    {
      EscapedSnoc(to, i);
      ghost var next := "mail " + Escaped(to[..i + 1]);
      assert next == cmdline[..p] + ['\\', to[i]];
      Put2(cmdline, p, '\\', to[i]);
      p, i := p + 2, i + 1;
    }
    assert to[..i] == to;
    assert cmdline[..p] == CommandLine(to);
    ghost var prefix := cmdline[..p];
    cmdline[p] := '\0';
    assert cmdline[..p] == prefix;
  }

  /** The text written into mail's pipe: an empty line where the Cc: prompt is answered,
      the subject line, and the body, each followed by a newline. */
  function Message(subject: string, contents: string): (m: string)
    ensures |m| == |subject| + |contents| + 3
  {
    "\n" + subject + "\n" + contents + "\n"
  }

  /** The position of the first newline in s, or |s| when there is none. */
  function LineEnd(s: string): (k: nat)
    ensures k <= |s| && (k < |s| ==> s[k] == '\n')
    ensures forall i :: 0 <= i < k ==> s[i] != '\n'
  {
    if s == [] || s[0] == '\n' then 0 else 1 + LineEnd(s[1..])
  }

  /** How mail reads the text back: the answer to the Cc: prompt up to the first
      newline, the subject up to the next, and the rest without its final newline. */
  function ReadMessage(m: string): (r: Option<(string, string, string)>)
  {
    var k := LineEnd(m);
    if k == |m| then None
    else
      var rest := m[k + 1..];
      var j := LineEnd(rest);
      if j + 1 >= |rest| || rest[|rest| - 1] != '\n' then None
      else Some((m[..k], rest[..j], rest[j + 1..|rest| - 1]))
  }

  lemma {:induction false} LineEndAt(s: string, k: nat)
    requires k <= |s| && (k < |s| ==> s[k] == '\n')
    requires forall i :: 0 <= i < k ==> s[i] != '\n'
    ensures LineEnd(s) == k
  {
    if k > 0 {
      assert s[0] != '\n';
      LineEndAt(s[1..], k - 1);
    }
  }

  /** The message is read back as an empty Cc: answer, the subject and the contents,
      whenever the subject is a single line. */
  lemma ReadMessageBack(subject: string, contents: string)
    requires forall i :: 0 <= i < |subject| ==> subject[i] != '\n'
    ensures ReadMessage(Message(subject, contents)) == Some(("", subject, contents))
  {
    var m := Message(subject, contents);
    LineEndAt(m, 0);
    var rest := m[1..];
    assert rest == subject + "\n" + contents + "\n";
    LineEndAt(rest, |subject|);
    assert m[..0] == "" && rest[..|subject|] == subject;
    assert rest[|subject| + 1..|rest| - 1] == contents;
  }

  /** The strings mail_compose writes into the pipe, one TRYWRITE each. */
  function Parts(subject: string, contents: string): seq<string> {
    ["\n", subject, "\n", contents, "\n"]
  }

  /** The strings of parts one after the other. */
  function Concat(parts: seq<string>): string {
    if parts == [] then [] else parts[0] + Concat(parts[1..])
  }

  lemma PartsMessage(subject: string, contents: string)
    ensures Concat(Parts(subject, contents)) == Message(subject, contents)
  {
    var p4: seq<string> := ["\n"];
    var p3: seq<string> := [contents, "\n"];
    var p2: seq<string> := ["\n", contents, "\n"];
    var p1: seq<string> := [subject, "\n", contents, "\n"];
    assert p4[1..] == [] && p3[1..] == p4 && p2[1..] == p3 && p1[1..] == p2;
    assert Parts(subject, contents)[1..] == p1;
    assert Concat(p4) == "\n";
    assert Concat(p3) == contents + "\n";
    assert Concat(p2) == "\n" + contents + "\n";
    assert Concat(p1) == subject + "\n" + contents + "\n";
  }

  /** What a sequence of TRYWRITEs sends, and whether every one of them succeeds. */
  datatype Sent = Sent(written: string, complete: bool)

  /** TRYWRITE as written: `fwrite(str, len, 1, f)` counts whole items of len bytes, and
      for len 0 it writes no item and returns 0, so the macro aborts at the first empty
      string.  Whatever was written before it reaches mail when pclose flushes the
      stream. */
  function SendParts(parts: seq<string>): (r: Sent)
    ensures r.complete <==> forall i :: 0 <= i < |parts| ==> parts[i] != []
    ensures r.written <= Concat(parts)
    ensures r.complete ==> r.written == Concat(parts)
  {
    if parts == [] then Sent([], true)
    else if parts[0] == [] then Sent([], false)
    else
      var rest := SendParts(parts[1..]);
      assert forall i :: 1 <= i < |parts| ==> parts[i] == parts[1..][i - 1];
      Sent(parts[0] + rest.written, rest.complete)
  }

  /** The five writes of a message: an empty subject aborts after the first newline, an
      empty body after the subject line, and otherwise the whole message is sent. */
  lemma SendMessage(subject: string, contents: string)
    ensures SendParts(Parts(subject, contents)) ==
      if subject == [] then Sent("\n", false)
      else if contents == [] then Sent("\n" + subject + "\n", false)
      else Sent(Message(subject, contents), true)
  {
    var p4: seq<string> := ["\n"];
    var p3: seq<string> := [contents, "\n"];
    var p2: seq<string> := ["\n", contents, "\n"];
    var p1: seq<string> := [subject, "\n", contents, "\n"];
    assert p4[1..] == [] && p3[1..] == p4 && p2[1..] == p3 && p1[1..] == p2;
    assert Parts(subject, contents)[1..] == p1;
    assert SendParts(p4) == Sent("\n", true);
    if subject != [] && contents != [] {
      assert SendParts(p3) == Sent(contents + "\n", true);
      assert SendParts(p2) == Sent("\n" + contents + "\n", true);
      assert SendParts(p1) == Sent(subject + "\n" + contents + "\n", true);
    } else if subject != [] {
      assert SendParts(p3) == Sent([], false);
      assert SendParts(p2) == Sent("\n", false);
      assert SendParts(p1) == Sent(subject + "\n", false);
    }
  }

  /** What a run of main does. */
  datatype Run =
    | Usage(program: string)                   // the usage text, exit code 2
    | Headers(sortCommand: string)             // list the mailbox through sortCommand
    | Compose(cmdline: string, message: string)  // send message with cmdline
    | Abort(cmdline: string, written: string)  // "Short write, aborting" after sending written; exit code 1

  /** mail_compose: mail is started with the escaped address, and the message is written
      into its pipe through TRYWRITE, which aborts at an empty subject or body after
      sending only the text before it. */
  function MailCompose(to: string, subject: string, contents: string): (r: Run)
    ensures r.Compose? || r.Abort?
    ensures r.cmdline == CommandLine(to)
    ensures r.Compose? <==> subject != [] && contents != []
    ensures r.Compose? ==> r.message == Message(subject, contents)
    ensures r.Abort? ==> r.written == if subject == [] then "\n" else "\n" + subject + "\n"
    ensures r.Abort? ==> r.written < Message(subject, contents)
  {
    SendMessage(subject, contents);
    PartsMessage(subject, contents);
    var sent := SendParts(Parts(subject, contents));
    if sent.complete then Compose(CommandLine(to), sent.written)
    else Abort(CommandLine(to), sent.written)
  }

  /** mail_compose with TRYWRITE as evidently intended, `fwrite(str, 1, len, f) < len`:
      an empty string writes nothing and is no failure, so every message is sent whole
      and read back as its subject and contents when the subject is a single line. */
  function MailComposeIntended(to: string, subject: string, contents: string): (r: Run)
    ensures r.Compose? && r.cmdline == CommandLine(to)
    ensures |r.message| == |subject| + |contents| + 3
    ensures (forall i :: 0 <= i < |subject| ==> subject[i] != '\n') ==>
      ReadMessage(r.message) == Some(("", subject, contents))
  {
    PartsMessage(subject, contents);
    if forall i :: 0 <= i < |subject| ==> subject[i] != '\n' then
      ReadMessageBack(subject, contents);
      Compose(CommandLine(to), Concat(Parts(subject, contents)))
    else Compose(CommandLine(to), Concat(Parts(subject, contents)))
  }

  /** main: one argument selects the header listing ("date" is method 0, "author"
      method 1), three arguments compose a mail; anything else prints the usage, naming
      the program as argv[0] or "main" when there is none. */
  function Dispatch(argv: seq<string>): (r: Run)
    ensures r.Usage? <==> !(|argv| == 4 || (|argv| == 2 && (argv[1] == "date" || argv[1] == "author")))
    ensures r.Usage? ==> r.program == (if |argv| > 0 then argv[0] else "main")
    ensures r.Headers? ==> (r.sortCommand == "sort -k2,2" <==> argv[1] == "author")
    ensures r.Compose? <==> |argv| == 4 && argv[2] != [] && argv[3] != []
    ensures r.Abort? <==> |argv| == 4 && (argv[2] == [] || argv[3] == [])
    ensures (r.Compose? || r.Abort?) ==>
      |argv| == 4 && |r.cmdline| >= 5 && ShellUnquote(r.cmdline[5..]) == Joined(argv[1])
  {
    var program := if |argv| > 0 then argv[0] else "main";
    if |argv| != 2 && |argv| != 4 then Usage(program)
    else if |argv| == 2 then
      if argv[1] == "date" then Headers(SortCommand(0))
      else if argv[1] == "author" then Headers(SortCommand(1))
      else Usage(program)
    else MailCompose(argv[1], argv[2], argv[3])
  }

  /** A mail composed from the command line reaches mail with the address (without
      its newlines, the whole address when it has none).  With a subject and a body it
      is read back as them when the subject is a single line; with either one empty
      the run aborts, and what was sent is no complete message. */
  lemma ComposeRoundTrip(argv: seq<string>)
    requires |argv| == 4 && forall i :: 0 <= i < |argv[2]| ==> argv[2][i] != '\n'
    ensures Dispatch(argv).Compose? <==> argv[2] != [] && argv[3] != []
    ensures ShellUnquote(Dispatch(argv).cmdline[5..]) == Joined(argv[1])
    ensures (forall i :: 0 <= i < |argv[1]| ==> argv[1][i] != '\n') ==>
      ShellUnquote(Dispatch(argv).cmdline[5..]) == argv[1]
    ensures Dispatch(argv).Compose? ==> ReadMessage(Dispatch(argv).message) == Some(("", argv[2], argv[3]))
    ensures Dispatch(argv).Abort? ==> ReadMessage(Dispatch(argv).written) == None
  {
    if forall i :: 0 <= i < |argv[1]| ==> argv[1][i] != '\n' {
      JoinedNoNewline(argv[1]);
    }
    if argv[2] != [] && argv[3] != [] {
      ReadMessageBack(argv[2], argv[3]);
    } else if argv[2] == [] {
      LineEndAt("\n", 0);
      LineEndAt("", 0);
    } else {
      var w := "\n" + argv[2] + "\n";
      LineEndAt(w, 0);
      assert w[1..] == argv[2] + "\n";
      LineEndAt(w[1..], |argv[2]|);
    }
  }

  /** An empty subject: as written, only the first newline reaches mail before the run
      aborts with exit code 1; as intended, the mail is sent and read back with an empty
      subject. */
  lemma EmptySubjectAborts()
    ensures Dispatch(["main", "a@b", "", "body"]) == Abort(CommandLine("a@b"), "\n")
    ensures ReadMessage(MailComposeIntended("a@b", "", "body").message) == Some(("", "", "body"))
  {
  }
}
