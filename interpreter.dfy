/**
 * `processCommand` as a function: what one submitted line does to the
 * current directory and which text it adds to the transcript between the
 * echoed command and the closing prompt. The class in the session module
 * runs the same steps imperatively and is proved to agree with `Interpret`.
 */
module Interpreter {
  import opened Text
  import opened Paths
  import opened Escape
  import opened VirtualFs
  import opened Options

  /** The prompt printed after every command, showing the directory. */
  function Prompt(cwd: string): (p: string) {
    "<span class=\"prompt\">reader@ackhava.dev:" + cwd + " $</span> "
  }

  /** An error message as the terminal prints it, on a line of its own. */
  function ErrorLine(message: string): (line: string)
    ensures EndsWith(line, "<br>")
  {
    "<span class=\"error\">" + message + "</span><br>"
  }

  const CdArity := "cd takes exactly one argument"
  const LsArity := "ls takes no arguments"
  const CatArity := "cat takes exactly one argument"
  const NoSuchDirectory := "No such directory: "
  const NoSuchFile := "No such file: "
  const Unrecognized := "Unrecognized command: "

  /** The directory after a command, and what the command printed. */
  datatype Reply = Reply(cwd: string, output: string)

  /** `cd`: with exactly one argument, moves to the resolved path when it
      is one of the folders; otherwise prints why not. */
  function ChangeDirectory(cwd: string, tokens: seq<string>): (r: Reply)
    ensures r.cwd == cwd || r.cwd in Folders
    ensures r.cwd != cwd ==> r.output == ""
    ensures r.output == "" || EndsWith(r.output, "<br>")
  {
    if |tokens| != 2 then Reply(cwd, ErrorLine(CdArity))
    else
      var next := MoveDirectory(cwd, tokens[1]);
      if next in Folders then Reply(next, "")
      else Reply(cwd, ErrorLine(NoSuchDirectory + tokens[1]))
  }

  /** `cat`: the target is resolved against `cwd`; a file whose content is
      missing or empty is reported as missing; a `.md` file goes through
      the markdown renderer `render`, anything else is escaped. */
  function ShowFile(cwd: string, table: seq<(string, string)>, render: string -> string, target: string): (out: string)
    ensures EndsWith(out, "<br>")
  {
    var path := MoveDirectory(cwd, target);
    var found := Lookup(table, path);
    if found.Some? && found.value != "" then
      if EndsWith(path, ".md") then render(found.value) + "<br>"
      else EscapeHtml(found.value) + "<br>"
    else ErrorLine(NoSuchFile + target)
  }

  /** `processCommand(cmd)` from directory `cwd` over the file table
      `table`: the input is trimmed, split on single spaces, and dispatched
      on its first token. */
  function Interpret(cwd: string, table: seq<(string, string)>, render: string -> string, cmd: string): (r: Reply)
    ensures r.cwd == cwd || r.cwd in Folders
    ensures Trim(cmd) == "" ==> r.output == "\n"
    ensures Trim(cmd) != "" ==> r.output == "" || EndsWith(r.output, "<br>")
  {
    var line := Trim(cmd);
    if line == "" then Reply(cwd, "\n")
    else
      var tokens := Split(line, " ");
      if tokens[0] == "cd" then ChangeDirectory(cwd, tokens)
      else if tokens[0] == "ls" then
        if |tokens| != 1 then Reply(cwd, ErrorLine(LsArity))
        else Reply(cwd, Join(Listing(cwd, table), "<br>") + "<br>")
      else if tokens[0] == "cat" then
        if |tokens| != 2 then Reply(cwd, ErrorLine(CatArity))
        else Reply(cwd, ShowFile(cwd, table, render, SliceFrom(line, 4)))
      else Reply(cwd, ErrorLine(Unrecognized + tokens[0]))
  }

  // ---------------------------------------------------------------------
  // How the input is read
  // ---------------------------------------------------------------------

  /** A non-empty word with no space in it and no whitespace at either
      edge: such a word is its own trim and is not split. */
  predicate IsWord(w: string) {
    w != [] && ' ' !in w && !IsJsWhitespace(w[0]) && !IsJsWhitespace(w[|w| - 1])
  }

  lemma ReadWord(w: string)
    requires IsWord(w)
    ensures Trim(w) == w && Split(w, " ") == [w]
  {
    TrimOfTrimmed(w);
    SplitWithoutSeparator(w, ' ');
  }

  /** A command word, one space and an argument word are read as exactly
      those two tokens. */
  lemma ReadCommand(line: string, name: string, arg: string)
    requires IsWord(name) && IsWord(arg) && line == name + " " + arg
    ensures Trim(line) == line
    ensures Split(line, " ") == [name, arg]
  {
    TrimCommand(line, name, arg);
    SplitCommand(line, name, arg);
  }

  lemma TrimCommand(line: string, name: string, arg: string)
    requires IsWord(name) && IsWord(arg) && line == name + " " + arg
    ensures Trim(line) == line
  {
    assert line[0] == name[0] && line[|line| - 1] == arg[|arg| - 1];
    TrimOfTrimmed(line);
  }

  lemma SplitCommand(line: string, name: string, arg: string)
    requires ' ' !in name && ' ' !in arg && line == name + " " + arg
    ensures Split(line, " ") == [name, arg]
  {
    SplitAround(name, arg, ' ');
    SplitWithoutSeparator(name, ' ');
    SplitWithoutSeparator(arg, ' ');
  }

  /** When `cat` has exactly one argument, `trim().slice(4)` is that
      argument: the trimmed line is `cat`, one space and the argument. */
  lemma CatArgumentIsSecondToken(line: string)
    requires |Split(line, " ")| == 2 && Split(line, " ")[0] == "cat"
    ensures SliceFrom(line, 4) == Split(line, " ")[1]
  {
    var tokens := Split(line, " ");
    JoinSplit(line, " ");
    assert tokens[1..] == [tokens[1]];
    assert line == "cat" + " " + tokens[1];
    assert line[..4] == "cat ";
  }

  // ---------------------------------------------------------------------
  // What each command does
  // ---------------------------------------------------------------------

  /** Only `cd` with one argument that resolves to a folder moves, and it
      moves to that folder and prints nothing; every other command, and a
      `cd` that fails, leaves the directory where it was. */
  lemma OnlyCdMoves(cwd: string, table: seq<(string, string)>, render: string -> string, cmd: string)
    ensures var r := Interpret(cwd, table, render, cmd);
      var line := Trim(cmd);
      var tokens := Split(line, " ");
      var moves := line != "" && tokens[0] == "cd" && |tokens| == 2 && MoveDirectory(cwd, tokens[1]) in Folders;
      (moves ==> r == Reply(MoveDirectory(cwd, tokens[1]), ""))
      && (!moves ==> r.cwd == cwd)
  {
  }

  /** `cd arg`, for an argument word: to the resolved path when it is one
      of the folders, otherwise `No such directory`. */
  lemma CdCommand(cwd: string, table: seq<(string, string)>, render: string -> string, arg: string)
    requires IsWord(arg)
    ensures var next := MoveDirectory(cwd, arg);
      Interpret(cwd, table, render, "cd " + arg) ==
        if next in Folders then Reply(next, "") else Reply(cwd, ErrorLine(NoSuchDirectory + arg))
  {
    var line := "cd " + arg;
    assert IsWord("cd");
    ReadCommand(line, "cd", arg);
    CdLine(cwd, table, render, line, arg);
  }

  lemma CdLine(cwd: string, table: seq<(string, string)>, render: string -> string, line: string, arg: string)
    requires Trim(line) == line && Split(line, " ") == ["cd", arg]
    ensures var next := MoveDirectory(cwd, arg);
      Interpret(cwd, table, render, line) ==
        if next in Folders then Reply(next, "") else Reply(cwd, ErrorLine(NoSuchDirectory + arg))
  {
    var tokens := Split(line, " ");
    assert tokens[0] == "cd" && |tokens| == 2 && tokens[1] == arg;
  }

  /** Every folder can be reached from anywhere by naming it. */
  lemma CdToFolder(cwd: string, table: seq<(string, string)>, render: string -> string, folder: string)
    requires folder in Folders
    ensures Interpret(cwd, table, render, "cd " + folder) == Reply(folder, "")
  {
    FoldersAreWords(folder);
    CdCommand(cwd, table, render, folder);
  }

  lemma FoldersAreWords(folder: string)
    requires folder in Folders
    ensures IsWord(folder) && folder[0] == '~'
  {
  }

  /** Going down into a child folder by its name and coming back with
      `cd ..` returns to the starting folder, each step printing nothing. */
  lemma CdDownAndUp(cwd: string, table: seq<(string, string)>, render: string -> string, name: string)
    requires IsChildName(name) && IsWord(name) && cwd + "/" + name in Folders
    ensures Interpret(cwd, table, render, "cd " + name) == Reply(cwd + "/" + name, "")
    ensures Interpret(cwd + "/" + name, table, render, "cd ..") == Reply(cwd, "")
  {
    CdDown(cwd, table, render, name);
    CdUp(cwd, table, render, name);
  }

  lemma CdDown(cwd: string, table: seq<(string, string)>, render: string -> string, name: string)
    requires IsChildName(name) && IsWord(name) && cwd + "/" + name in Folders
    ensures Interpret(cwd, table, render, "cd " + name) == Reply(cwd + "/" + name, "")
  {
    DescendThenAscend(cwd, name);
    CdCommand(cwd, table, render, name);
  }

  lemma CdUp(cwd: string, table: seq<(string, string)>, render: string -> string, name: string)
    requires IsChildName(name) && cwd + "/" + name in Folders
    ensures Interpret(cwd + "/" + name, table, render, "cd ..") == Reply(cwd, "")
  {
    UpToParent(cwd, name);
    CdUpFrom(cwd + "/" + name, cwd, table, render);
  }

  /** The parent of a child folder is a folder, reached by `..`. */
  lemma UpToParent(cwd: string, name: string)
    requires IsChildName(name) && cwd + "/" + name in Folders
    ensures cwd in Folders && MoveDirectory(cwd + "/" + name, "..") == cwd
  {
    ParentOfChild(cwd, name);
    ParentFolder(cwd, name);
  }

  /** `cd ..` moves to the parent whenever that parent is a folder. */
  lemma CdUpFrom(child: string, parent: string, table: seq<(string, string)>, render: string -> string)
    requires parent in Folders && MoveDirectory(child, "..") == parent
    ensures Interpret(child, table, render, "cd ..") == Reply(parent, "")
  {
    assert IsWord("cd") && IsWord("..");
    ReadCommand("cd ..", "cd", "..");
    CdLine(child, table, render, "cd ..", "..");
  }

  /** Each folder's parent is a folder, or the folder is `~`. */
  lemma ParentFolder(cwd: string, name: string)
    requires IsChildName(name) && cwd + "/" + name in Folders
    ensures cwd in Folders
  {
    var f := cwd + "/" + name;
    ParentOfChild(cwd, name);
    assert f != "~" by { assert |f| > 1; }
    FolderParents(f);
  }

  lemma FolderParents(f: string)
    requires f in Folders && f != "~"
    ensures MoveDirectory(f, "..") == "~"
  {
    if f == "~/about" { UpFromAbout(); }
    else if f == "~/projects" { UpFromChild(f, "projects"); }
    else { UpFromChild(f, "contact"); }
  }

  lemma UpFromChild(f: string, name: string)
    requires f == "~/" + name && '/' !in name
    ensures MoveDirectory(f, "..") == "~"
  {
    assert f == "~" + "/" + name;
    ParentOfChild("~", name);
  }

  /** `ls`: every name below the directory, each followed by `<br>`. */
  lemma LsCommand(cwd: string, table: seq<(string, string)>, render: string -> string)
    ensures Interpret(cwd, table, render, "ls") == Reply(cwd, Join(Listing(cwd, table), "<br>") + "<br>")
  {
    assert IsWord("ls");
    ReadWord("ls");
  }

  /** `ls` in `~` prints the three subfolders, `index.html` and
      `resume.md`. */
  lemma LsAtRoot(resume: string, render: string -> string)
    ensures Interpret("~", FileTable(resume), render, "ls")
      == Reply("~", Join(["about", "projects", "contact", "index.html", "resume.md"], "<br>") + "<br>")
  {
    LsCommand("~", FileTable(resume), render);
    ListingOfRoot(resume);
  }

  /** `cat arg`, for an argument word, shows the file `arg` resolves to. */
  lemma CatCommand(cwd: string, table: seq<(string, string)>, render: string -> string, arg: string)
    requires IsWord(arg)
    ensures Interpret(cwd, table, render, "cat " + arg) == Reply(cwd, ShowFile(cwd, table, render, arg))
  {
    var line := "cat " + arg;
    ReadCat(line, arg);
    CatSlice(line, arg);
    CatLine(cwd, table, render, line, arg);
  }

  lemma ReadCat(line: string, arg: string)
    requires IsWord(arg) && line == "cat " + arg
    ensures Trim(line) == line && Split(line, " ") == ["cat", arg]
  {
    assert IsWord("cat");
    ReadCommand(line, "cat", arg);
  }

  lemma CatSlice(line: string, arg: string)
    requires line == "cat " + arg
    ensures SliceFrom(line, 4) == arg
  {
    assert line[4..] == arg;
  }

  lemma CatLine(cwd: string, table: seq<(string, string)>, render: string -> string, line: string, arg: string)
    requires Trim(line) == line && Split(line, " ") == ["cat", arg] && SliceFrom(line, 4) == arg
    ensures Interpret(cwd, table, render, line) == Reply(cwd, ShowFile(cwd, table, render, arg))
  {
    var tokens := Split(line, " ");
    assert tokens[0] == "cat" && |tokens| == 2;
  }

  /** What `cat` prints: `No such file` exactly when the path is not a key
      or its content is empty; otherwise the rendered markdown of a `.md`
      file, or the escaped content of any other file, which then holds no
      markup character, has every `&` begin an entity, and decodes back to
      the file's content. */
  lemma ShowFileCases(cwd: string, table: seq<(string, string)>, render: string -> string, target: string)
    ensures var path := MoveDirectory(cwd, target);
      var out := ShowFile(cwd, table, render, target);
      var found := Lookup(table, path);
      var shown := found.Some? && found.value != "";
      (found.Some? <==> path in Keys(table))
      && (!shown ==> out == ErrorLine(NoSuchFile + target))
      && (shown ==>
            (path, found.value) in table
            && (EndsWith(path, ".md") ==> out == render(found.value) + "<br>")
            && (!EndsWith(path, ".md") ==>
                  exists e :: out == e + "<br>" && NoMarkup(e) && AmpersandsBeginEntities(e)
                              && UnescapeHtml(e) == found.value))
  {
    var path := MoveDirectory(cwd, target);
    var found := Lookup(table, path);
    LookupFinds(table, path);
    if found.Some? && found.value != "" && !EndsWith(path, ".md") {
      var e := EscapeHtml(found.value);
      EscapeHtmlSafe(found.value);
      EscapeHtmlRoundTrip(found.value);
      assert ShowFile(cwd, table, render, target) == e + "<br>";
    }
  }

  /** Any other first token is reported as unrecognized, with that token
      and whatever follows it, and the directory stays. */
  lemma UnknownCommand(cwd: string, table: seq<(string, string)>, render: string -> string, cmd: string)
    ensures var line := Trim(cmd);
      var tokens := Split(line, " ");
      line != "" && tokens[0] != "cd" && tokens[0] != "ls" && tokens[0] != "cat" ==>
        Interpret(cwd, table, render, cmd) == Reply(cwd, ErrorLine(Unrecognized + tokens[0]))
  {
  }

  /** For example, a single unknown word is reported with the word. */
  lemma UnknownWord(cwd: string, table: seq<(string, string)>, render: string -> string, word: string)
    requires IsWord(word) && word != "cd" && word != "ls" && word != "cat"
    ensures Interpret(cwd, table, render, word) == Reply(cwd, ErrorLine(Unrecognized + word))
  {
    ReadWord(word);
  }

  /** An unknown word followed by an argument is reported with the word
      alone. */
  lemma UnknownWordWithArgument(cwd: string, table: seq<(string, string)>, render: string -> string, word: string, arg: string)
    requires IsWord(word) && IsWord(arg) && word != "cd" && word != "ls" && word != "cat"
    ensures Interpret(cwd, table, render, word + " " + arg) == Reply(cwd, ErrorLine(Unrecognized + word))
  {
    ReadCommand(word + " " + arg, word, arg);
    UnknownCommand(cwd, table, render, word + " " + arg);
  }

  /** Wrong numbers of arguments: `cd` and `cat` need exactly one, `ls`
      none; each prints its message and stays in the directory. */
  lemma ArityErrors(cwd: string, table: seq<(string, string)>, render: string -> string, cmd: string)
    ensures var line := Trim(cmd);
      var tokens := Split(line, " ");
      var r := Interpret(cwd, table, render, cmd);
      line != "" ==>
        (tokens[0] == "cd" && |tokens| != 2 ==> r == Reply(cwd, ErrorLine(CdArity)))
        && (tokens[0] == "ls" && |tokens| != 1 ==> r == Reply(cwd, ErrorLine(LsArity)))
        && (tokens[0] == "cat" && |tokens| != 2 ==> r == Reply(cwd, ErrorLine(CatArity)))
  {
  }

  /** A blank line, and only a blank line, prints a bare newline: every
      other command prints nothing or text ending in `<br>`. */
  lemma BlankInput(cwd: string, table: seq<(string, string)>, render: string -> string, cmd: string)
    ensures Interpret(cwd, table, render, cmd).output == "\n" <==> AllWhitespace(cmd)
  {
    TrimEmpty(cmd);
    var out := Interpret(cwd, table, render, cmd).output;
    if Trim(cmd) != "" && out != "" {
      assert out[|out| - 1] == '>';
    }
  }
}
