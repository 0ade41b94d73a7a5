/**
 * The terminal's path resolver (`moveDirectory`). Paths are strings rooted
 * at `~` with `/` between segments, and the resolver only rewrites strings:
 * whether the result names a folder or a file is decided by its callers.
 */
module Paths {
  import opened Text

  /** `moveDirectory(current, target)`. The rules are tried in order:
      `..` drops the last segment of `current`; a target beginning with `~`
      replaces `current`; `./x` is glued onto `current` WITHOUT a slash (so
      `~` and `./foo` give `~foo`); `.` keeps `current`; anything else is a
      child `current/target`. The resolver never fails. */
  function MoveDirectory(current: string, target: string): (next: string) {
    if target == ".." then DropLastSegment(current)
    else if |target| > 0 && target[0] == '~' then target
    else if StartsWith(target, "./") then current + target[2..]
    else if target != "." then current + "/" + target
    else current
  }

  /** A target that the resolver treats as the name of a child: one
      segment that is neither `.` nor `..` and is not absolute. */
  predicate IsChildName(name: string) {
    '/' !in name && name != "." && name != ".." && (name == "" || name[0] != '~')
  }

  /** `..` from `p/seg` gives `p`, whatever `p` is. */
  lemma ParentOfChild(p: string, seg: string)
    requires '/' !in seg
    ensures MoveDirectory(p + "/" + seg, "..") == p
  {
    SegmentsOfChild(p, seg);
  }

  /** `..` from a path without a slash (the root `~` among them) gives the
      empty string, which is not a folder. */
  lemma ParentOfTop(name: string)
    requires '/' !in name
    ensures MoveDirectory(name, "..") == ""
  {
    SegmentsOfName(name);
  }

  /** Going down into a child and then up again comes back to where one
      started. */
  lemma DescendThenAscend(current: string, name: string)
    requires IsChildName(name)
    ensures MoveDirectory(current, name) == current + "/" + name
    ensures MoveDirectory(MoveDirectory(current, name), "..") == current
  {
    assert !StartsWith(name, "./") by {
      assert |name| < 2 || name[1] != '/';
    }
    ParentOfChild(current, name);
  }

  /** An absolute target is resolved to itself whatever the current
      directory, so two resolutions of it from different places agree. */
  lemma AbsoluteTargetIgnoresCurrent(c1: string, c2: string, target: string)
    requires |target| > 0 && target[0] == '~'
    ensures MoveDirectory(c1, target) == MoveDirectory(c2, target) == target
  {
  }

  /** From a directory that begins with `~`, every resolved path either
      begins with `~` or is empty. Such a path can never collide with a
      name that every JavaScript object inherits (`constructor`,
      `toString`, ...), so the terminal's file table can be read as a plain
      table. */
  lemma ResolvedPathIsRooted(current: string, target: string)
    requires |current| > 0 && current[0] == '~'
    ensures var r := MoveDirectory(current, target);
      r == "" || r[0] == '~'
  {
    if target == ".." {
      var segments := Split(current, "/");
      FirstPiece(current, '/');
      var kept := segments[..|segments| - 1];
      if |kept| >= 1 {
        JoinStartsWithFirst(kept, "/");
        assert segments[0] <= current;
        assert kept[0] == segments[0];
        assert |segments[0]| > 0 && segments[0][0] == current[0];
        assert Join(kept, "/")[0] == '~';
      }
    }
  }

  /** Worked resolutions, including the missing separator after `./`. */
  lemma UpFromAbout()
    ensures MoveDirectory("~/about", "..") == "~"
  {
    assert "~" + "/" + "about" == "~/about";
    ParentOfChild("~", "about");
  }

  lemma UpFromRoot()
    ensures MoveDirectory("~", "..") == ""
  {
    ParentOfTop("~");
  }

  lemma DotSlashFromRoot()
    ensures MoveDirectory("~", "./foo") == "~foo"
  {
  }

  lemma ChildOfRoot()
    ensures MoveDirectory("~", "projects") == "~/projects"
  {
  }
}
