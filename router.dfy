/**
 * `applyHashRoute`: which view the location hash selects. The terminal has
 * its own hash; every other hash names a markdown page, the hash without
 * its first character, with `index` standing in for nothing.
 */
module Router {
  import opened Text

  /** What the content area shows. */
  datatype View = TerminalView | PageView(name: string)

  /** The page name for a hash other than `#terminal`:
      `location.hash.slice(1) || "index"`. */
  function PageName(hash: string): (name: string)
    ensures name != ""
  {
    var rest := SliceFrom(hash, 1);
    if rest == "" then "index" else rest
  }

  /** The choice made on every load and hash change. */
  function Route(hash: string): (v: View) {
    if hash == "#terminal" then TerminalView else PageView(PageName(hash))
  }

  /** Exactly the hash `#terminal` opens the terminal. */
  lemma TerminalRoute(hash: string)
    ensures Route(hash) == TerminalView <==> hash == "#terminal"
  {
  }

  /** Any other hash `#name` with a non-empty name opens the page `name`;
      `name` may itself be `terminal` with extra text, or contain `#`. */
  lemma NamedPageRoute(name: string)
    requires name != "" && "#" + name != "#terminal"
    ensures Route("#" + name) == PageView(name)
  {
    assert ("#" + name)[1..] == name;
  }

  /** No hash, or a bare `#`, opens the index page. */
  lemma IndexRoute(hash: string)
    requires hash == "" || hash == "#"
    ensures Route(hash) == PageView("index")
  {
  }
}
