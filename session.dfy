/**
 * The terminal session: the command being typed, the transcript that is
 * shown above it (`previousContent`), and the directory. `State` and the
 * functions over it describe what the key handler does; the class
 * `Terminal` does it in place, field by field, and is proved to follow
 * those functions.
 */
module Session {
  import opened Text
  import opened Paths
  import opened Escape
  import opened VirtualFs
  import opened Interpreter
  import opened Options

  /** A snapshot of the terminal: directory, transcript, typed command. */
  datatype State = State(cwd: string, transcript: string, command: string)

  /** The terminal as it opens: at `~`, showing only the prompt. */
  function Initial(): (s: State)
    ensures Good(s) && s.command == ""
  {
    EndsWithAppend([], Prompt("~"));
    State("~", Prompt("~"), "")
  }

  /** What the screen shows: the transcript, a space, the typed command. */
  function Display(s: State): (screen: string)
    ensures s.transcript <= screen
    ensures EndsWith(screen, s.command)
  {
    EndsWithAppend(s.transcript + " ", s.command);
    s.transcript + " " + s.command
  }

  /** The session invariant: the directory is a folder and the transcript
      ends with the prompt for it. */
  predicate Good(s: State) {
    s.cwd in Folders && EndsWith(s.transcript, Prompt(s.cwd))
  }

  /** A key other than Enter: Backspace drops the last character (none
      when the command is empty), a one-character key is appended, and any
      other key (Shift, arrows, ...) leaves the command as it is. */
  function EditBuffer(command: string, key: string): (next: string)
    requires key != "Enter"
    ensures key == "Backspace" ==> next <= command && |next| == if command == "" then 0 else |command| - 1
    ensures |key| == 1 ==> next == command + key
    ensures key != "Backspace" && |key| != 1 ==> next == command
  {
    if key == "Backspace" then (if command == "" then "" else command[..|command| - 1])
    else if |key| == 1 then command + key
    else command
  }

  /** Enter: the command is run, the transcript records the echoed command,
      its output and the prompt for the directory it leaves the terminal
      in, and the command line is cleared. */
  function Submit(s: State, table: seq<(string, string)>, render: string -> string): (t: State)
    ensures t.command == ""
    ensures t.cwd == s.cwd || t.cwd in Folders
    ensures t.cwd == Interpret(s.cwd, table, render, s.command).cwd
    ensures s.transcript + " " + s.command + "<br>" <= t.transcript
    ensures EndsWith(t.transcript, Prompt(t.cwd))
  {
    var r := Interpret(s.cwd, table, render, s.command);
    var echoed := s.transcript + " " + s.command + "<br>";
    assert echoed <= echoed + r.output;
    EndsWithAppend(echoed + r.output, Prompt(r.cwd));
    State(r.cwd, echoed + r.output + Prompt(r.cwd), "")
  }

  /** One `keyup` event. */
  function KeyStep(s: State, table: seq<(string, string)>, render: string -> string, key: string): (t: State) {
    if key == "Enter" then Submit(s, table, render)
    else s.(command := EditBuffer(s.command, key))
  }

  /** The state after the keys `keys`, in order. */
  function Run(s: State, table: seq<(string, string)>, render: string -> string, keys: seq<string>): (t: State)
    decreases |keys|
  {
    if keys == [] then s
    else KeyStep(Run(s, table, render, keys[..|keys| - 1]), table, render, keys[|keys| - 1])
  }

  /** Each key event keeps the session invariant and only ever appends to
      the transcript. */
  lemma KeyStepGood(s: State, table: seq<(string, string)>, render: string -> string, key: string)
    requires Good(s)
    ensures Good(KeyStep(s, table, render, key))
    ensures s.transcript <= KeyStep(s, table, render, key).transcript
  {
  }

  /** A key other than Enter changes neither the directory nor the
      transcript. */
  lemma EditingKeepsTranscript(s: State, table: seq<(string, string)>, render: string -> string, key: string)
    requires key != "Enter"
    ensures var t := KeyStep(s, table, render, key);
      t.cwd == s.cwd && t.transcript == s.transcript
  {
  }

  /** Any run of keys keeps the session invariant, so the directory is
      always one of the folders and the screen always ends its transcript
      with the current prompt; and the transcript only grows. */
  lemma {:induction false} RunGood(s: State, table: seq<(string, string)>, render: string -> string, keys: seq<string>)
    requires Good(s)
    ensures Good(Run(s, table, render, keys))
    ensures s.transcript <= Run(s, table, render, keys).transcript
    decreases |keys|
  {
    if keys != [] {
      var before := Run(s, table, render, keys[..|keys| - 1]);
      RunGood(s, table, render, keys[..|keys| - 1]);
      KeyStepGood(before, table, render, keys[|keys| - 1]);
    }
  }

  /** Keys pressed one after another: running `a` and then `b` is running
      `a + b`. */
  lemma {:induction false} RunAppend(s: State, table: seq<(string, string)>, render: string -> string, a: seq<string>, b: seq<string>)
    ensures Run(s, table, render, a + b) == Run(Run(s, table, render, a), table, render, b)
    decreases |b|
  {
    if b == [] {
      assert a + b == a;
    } else {
      var init := b[..|b| - 1];
      assert (a + b)[..|a + b| - 1] == a + init;
      assert (a + b)[|a + b| - 1] == b[|b| - 1];
      RunAppend(s, table, render, a, init);
    }
  }

  /** The key events of typing the characters of `w`. */
  function Typing(w: string): (keys: seq<string>)
    ensures |keys| == |w|
    ensures forall i :: 0 <= i < |w| ==> keys[i] == [w[i]]
    decreases |w|
  {
    if w == [] then [] else Typing(w[..|w| - 1]) + [[w[|w| - 1]]]
  }

  /** `n` presses of Backspace. */
  function Backspaces(n: nat): (keys: seq<string>)
    ensures |keys| == n
    ensures forall i :: 0 <= i < n ==> keys[i] == "Backspace"
  {
    if n == 0 then [] else Backspaces(n - 1) + ["Backspace"]
  }

  /** Typing a word appends it to the command line and touches nothing
      else. */
  lemma {:induction false} TypeWord(s: State, table: seq<(string, string)>, render: string -> string, w: string)
    ensures Run(s, table, render, Typing(w)) == s.(command := s.command + w)
    decreases |w|
  {
    if w == [] {
      assert s.command + w == s.command;
    } else {
      var init := w[..|w| - 1];
      var keys := Typing(w);
      assert keys[..|keys| - 1] == Typing(init);
      TypeWord(s, table, render, init);
      assert init + [w[|w| - 1]] == w;
      assert s.command + init + [w[|w| - 1]] == s.command + w;
    }
  }

  /** `n` Backspaces remove the last `n` characters of the command line,
      and go no further than its beginning. */
  lemma {:induction false} EraseChars(s: State, table: seq<(string, string)>, render: string -> string, n: nat)
    ensures var k := if n <= |s.command| then |s.command| - n else 0;
      Run(s, table, render, Backspaces(n)) == s.(command := s.command[..k])
    decreases n
  {
    if n == 0 {
      assert s.command[..|s.command|] == s.command;
    } else {
      var keys := Backspaces(n);
      assert keys[..|keys| - 1] == Backspaces(n - 1);
      EraseChars(s, table, render, n - 1);
    }
  }

  /** Typing a word and erasing it again gives back the command line as
      it was. */
  lemma TypeThenErase(s: State, table: seq<(string, string)>, render: string -> string, w: string)
    ensures Run(s, table, render, Typing(w) + Backspaces(|w|)) == s
  {
    RunAppend(s, table, render, Typing(w), Backspaces(|w|));
    TypeWord(s, table, render, w);
    var t := s.(command := s.command + w);
    EraseChars(t, table, render, |w|);
    assert (s.command + w)[..|s.command|] == s.command;
  }

  /** Typing a command and pressing Enter runs exactly that command from the
      current directory, and leaves an empty command line. */
  lemma TypeAndEnter(s: State, table: seq<(string, string)>, render: string -> string, w: string)
    requires s.command == ""
    ensures var r := Interpret(s.cwd, table, render, w);
      Run(s, table, render, Typing(w) + ["Enter"])
        == State(r.cwd, s.transcript + " " + w + "<br>" + r.output + Prompt(r.cwd), "")
  {
    RunAppend(s, table, render, Typing(w), ["Enter"]);
    TypeWord(s, table, render, w);
    assert s.command + w == w;
  }

  /** The terminal itself: the mutable variables of the handler and the
      file table it was opened with. */
  class Terminal {
    const table: seq<(string, string)>
    const render: string -> string
    var cwd: string
    var previousContent: string
    var command: string

    /** The fields as a `State`. */
    function Snapshot(): (s: State)
      reads this
    {
      State(cwd, previousContent, command)
    }

    /** The session invariant on the fields. */
    predicate Valid()
      reads this
    {
      Good(Snapshot())
    }

    /** `loadTerminal`: the file table holds the fetched `resume`, the
        directory is `~` and only the prompt is shown. */
    constructor (resume: string, render: string -> string)
      ensures Valid()
      ensures table == FileTable(resume) && this.render == render
      ensures Snapshot() == Initial()
    {
      table := FileTable(resume);
      this.render := render;
      cwd := "~";
      previousContent := Prompt("~");
      command := "";
      new;
      EndsWithAppend([], Prompt("~"));
    }

    /** `processCommand(cmd)`: echoes the command, runs it, and appends
        its output and the new prompt. */
    method ProcessCommand(cmd: string)
      modifies this
      ensures cwd == old(cwd) || cwd in Folders
      ensures EndsWith(previousContent, Prompt(cwd))
      ensures old(Valid()) ==> Valid()
      ensures var r := Interpret(old(cwd), table, render, cmd);
        cwd == r.cwd && previousContent == old(previousContent) + " " + cmd + "<br>" + r.output + Prompt(cwd)
      ensures command == old(command)
    {
      ghost var r := Interpret(cwd, table, render, cmd);
      previousContent := previousContent + " " + cmd + "<br>";
      ghost var echoed := previousContent;
      var line := Trim(cmd);
      if line != "" {
        var tokens := Split(line, " ");
        if tokens[0] == "cd" {
          ChangeDir(tokens);
        } else if tokens[0] == "ls" {
          List(tokens);
        } else if tokens[0] == "cat" {
          Cat(line, tokens);
        } else {
          previousContent := previousContent + ErrorLine(Unrecognized + tokens[0]);
        }
      } else {
        previousContent := previousContent + "\n";
      }
      assert previousContent == echoed + r.output;
      previousContent := previousContent + Prompt(cwd);
      EndsWithAppend(echoed + r.output, Prompt(cwd));
    }

    /** The `cd` branch: moves to the resolved folder, or appends the
        error. */
    method ChangeDir(tokens: seq<string>)
      modifies this
      ensures var r := ChangeDirectory(old(cwd), tokens);
        cwd == r.cwd && previousContent == old(previousContent) + r.output
      ensures command == old(command)
    {
      if |tokens| != 2 {
        previousContent := previousContent + ErrorLine(CdArity);
      } else {
        var target := tokens[1];
        var next := MoveDirectory(cwd, target);
        if next in Folders {
          cwd := next;
          assert previousContent + "" == previousContent;
        } else {
          previousContent := previousContent + ErrorLine(NoSuchDirectory + target);
        }
      }
    }

    /** The `ls` branch: appends the listing built set-wise, or the
        error. */
    method List(tokens: seq<string>)
      modifies this
      ensures cwd == old(cwd) && command == old(command)
      ensures previousContent == old(previousContent) +
        if |tokens| != 1 then ErrorLine(LsArity) else Join(Listing(cwd, table), "<br>") + "<br>"
    {
      if |tokens| != 1 {
        previousContent := previousContent + ErrorLine(LsArity);
      } else {
        var names := ListContents(Folders, Keys(table), cwd);
        previousContent := previousContent + (Join(names, "<br>") + "<br>");
      }
    }

    /** The `cat` branch: appends the file's text (rendered for `.md`,
        escaped otherwise), or the error. */
    method Cat(line: string, tokens: seq<string>)
      modifies this
      ensures cwd == old(cwd) && command == old(command)
      ensures previousContent == old(previousContent) +
        if |tokens| != 2 then ErrorLine(CatArity) else ShowFile(cwd, table, render, SliceFrom(line, 4))
    {
      if |tokens| != 2 {
        previousContent := previousContent + ErrorLine(CatArity);
      } else {
        var target := SliceFrom(line, 4);
        var path := MoveDirectory(cwd, target);
        var found := Lookup(table, path);
        if found.Some? && found.value != "" {
          if EndsWith(path, ".md") {
            previousContent := previousContent + (render(found.value) + "<br>");
          } else {
            previousContent := previousContent + (EscapeHtml(found.value) + "<br>");
          }
        } else {
          previousContent := previousContent + ErrorLine(NoSuchFile + target);
        }
      }
    }

    /** The `keyup` handler: Enter runs and clears the command, Backspace
        drops its last character, a one-character key is typed. */
    method KeyUp(key: string)
      modifies this
      ensures old(Valid()) ==> Valid()
      ensures Snapshot() == KeyStep(old(Snapshot()), table, render, key)
    {
      if key == "Enter" {
        ProcessCommand(command);
        command := "";
      } else if key == "Backspace" {
        command := if |command| > 0 then command[..|command| - 1] else "";
      } else if |key| == 1 {
        command := command + key;
      }
    }
  }
}
