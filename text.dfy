/**
 * The JavaScript string operations that the terminal script relies on:
 * `trim`, `split` with a string separator, `join`, `startsWith`, `endsWith`,
 * `slice` and the `split('/').pop()` idiom. Strings are sequences of
 * characters; a JavaScript UTF-16 code unit and a Dafny `char` are treated
 * as the same unit.
 */
module Text {

  /** The characters JavaScript's `trim` and `parseInt` skip: the
      WhiteSpace and LineTerminator productions of ECMAScript, written out
      by code point: tab, line feed, line tabulation, form feed and
      carriage return (U+0009 to U+000D), space, no-break space, U+1680,
      the spaces U+2000 to U+200A, the line and paragraph separators
      U+2028 and U+2029, U+202F, U+205F, U+3000 and the byte order mark
      U+FEFF. */
  predicate IsJsWhitespace(c: char) {
    ('\t' <= c <= '\r') || c == ' ' || c == '\U{00A0}' || c == '\U{1680}'
    || ('\U{2000}' <= c <= '\U{200A}') || c == '\U{2028}' || c == '\U{2029}'
    || c == '\U{202F}' || c == '\U{205F}' || c == '\U{3000}' || c == '\U{FEFF}'
  }

  /** Every character of `s` is whitespace. */
  predicate AllWhitespace(s: string)
    decreases |s|
  {
    s == [] || (IsJsWhitespace(s[0]) && AllWhitespace(s[1..]))
  }

  lemma {:induction false} AllWhitespaceAppend(a: string, b: string)
    ensures AllWhitespace(a + b) <==> AllWhitespace(a) && AllWhitespace(b)
    decreases |a|
  {
    if a == [] {
      assert a + b == b;
    } else {
      assert (a + b)[1..] == a[1..] + b;
      AllWhitespaceAppend(a[1..], b);
    }
  }

  /** `s.trimStart()`: what is left after removing leading whitespace. */
  function TrimStart(s: string): (r: string)
    decreases |s|
  {
    if |s| > 0 && IsJsWhitespace(s[0]) then TrimStart(s[1..]) else s
  }

  /** `s.trimEnd()`: what is left after removing trailing whitespace. */
  function TrimEnd(s: string): (r: string)
    decreases |s|
  {
    if |s| > 0 && IsJsWhitespace(s[|s| - 1]) then TrimEnd(s[..|s| - 1]) else s
  }

  /** `s.trim()`. */
  function Trim(s: string): (r: string) {
    TrimEnd(TrimStart(s))
  }

  /** `trimStart` removes a run of whitespace from the front and stops at
      the first character that is not whitespace. */
  lemma {:induction false} TrimStartShape(s: string)
    ensures var r := TrimStart(s);
      |r| <= |s| && r == s[|s| - |r|..] && AllWhitespace(s[..|s| - |r|])
      && (r == [] || !IsJsWhitespace(r[0]))
    decreases |s|
  {
    if |s| > 0 && IsJsWhitespace(s[0]) {
      TrimStartShape(s[1..]);
      var r := TrimStart(s[1..]);
      assert s[..|s| - |r|] == [s[0]] + s[1..][..|s| - 1 - |r|];
      assert s[..|s| - |r|][1..] == s[1..][..|s| - 1 - |r|];
    }
  }

  /** `trimEnd` removes a run of whitespace from the back and stops at the
      last character that is not whitespace. */
  lemma {:induction false} TrimEndShape(s: string)
    ensures var r := TrimEnd(s);
      |r| <= |s| && r == s[..|r|] && AllWhitespace(s[|r|..])
      && (r == [] || !IsJsWhitespace(r[|r| - 1]))
    decreases |s|
  {
    if |s| > 0 && IsJsWhitespace(s[|s| - 1]) {
      var init := s[..|s| - 1];
      TrimEndShape(init);
      var r := TrimEnd(init);
      assert TrimEnd(s) == r;
      assert r == s[..|r|] by {
        assert s[..|r|] == init[..|r|];
      }
      var last := [s[|s| - 1]];
      assert AllWhitespace(last) by {
        assert last[1..] == [];
      }
      assert s[|r|..] == init[|r|..] + last;
      AllWhitespaceAppend(init[|r|..], last);
    }
  }

  /** The trim neither begins nor ends with whitespace. */
  lemma TrimShape(s: string)
    ensures var r := Trim(s);
      r == [] || (!IsJsWhitespace(r[0]) && !IsJsWhitespace(r[|r| - 1]))
  {
    var t := TrimStart(s);
    TrimStartShape(s);
    TrimEndShape(t);
    var r := TrimEnd(t);
    assert r == [] || r[0] == t[0];
  }

  /** A string that neither begins nor ends with whitespace is its own
      trim. */
  lemma TrimOfTrimmed(s: string)
    requires s == [] || (!IsJsWhitespace(s[0]) && !IsJsWhitespace(s[|s| - 1]))
    ensures Trim(s) == s
  {
  }

  /** One non-whitespace character is enough to make a string not all
      whitespace. */
  lemma {:induction false} NotAllWhitespace(s: string, i: nat)
    requires i < |s| && !IsJsWhitespace(s[i])
    ensures !AllWhitespace(s)
    decreases i
  {
    if i > 0 {
      NotAllWhitespace(s[1..], i - 1);
    }
  }

  /** Removing leading whitespace leaves nothing exactly when the string
      is all whitespace; likewise for trailing whitespace. */
  lemma TrimStartEmpty(s: string)
    ensures TrimStart(s) == [] <==> AllWhitespace(s)
  {
    TrimStartShape(s);
    var r := TrimStart(s);
    if r != [] {
      NotAllWhitespace(s, |s| - |r|);
    }
  }

  lemma TrimEndEmpty(s: string)
    ensures TrimEnd(s) == [] <==> AllWhitespace(s)
  {
    TrimEndShape(s);
    var r := TrimEnd(s);
    if r != [] {
      NotAllWhitespace(s, |r| - 1);
    }
  }

  /** The trim is empty exactly when every character is whitespace. */
  lemma TrimEmpty(s: string)
    ensures Trim(s) == [] <==> AllWhitespace(s)
  {
    var t := TrimStart(s);
    TrimStartShape(s);
    TrimEndEmpty(t);
    TrimStartEmpty(s);
    var lead := |s| - |t|;
    assert s == s[..lead] + t;
    AllWhitespaceAppend(s[..lead], t);
  }

  /** `s.startsWith(p)`. */
  predicate StartsWith(s: string, p: string) {
    p <= s
  }

  /** `s.endsWith(p)`. */
  predicate EndsWith(s: string, p: string) {
    |p| <= |s| && s[|s| - |p|..] == p
  }

  /** Whatever is written before it, a string ends with itself. */
  lemma EndsWithAppend(a: string, b: string)
    ensures EndsWith(a + b, b)
  {
    assert (a + b)[|a|..] == b;
  }

  /** `s.slice(k)` for a non-negative `k`: empty when `k` is past the end. */
  function SliceFrom(s: string, k: nat): (r: string) {
    if k <= |s| then s[k..] else ""
  }

  /** `s.split(sep)` for a non-empty string separator: occurrences of `sep`
      are found from the left without overlap, and the pieces between them
      are returned in order. There is always at least one piece. */
  function Split(s: string, sep: string): (parts: seq<string>)
    requires |sep| > 0
    ensures |parts| >= 1
    decreases |s|
  {
    if |s| < |sep| then [s]
    else if s[..|sep|] == sep then [""] + Split(s[|sep|..], sep)
    else
      var rest := Split(s[1..], sep);
      [[s[0]] + rest[0]] + rest[1..]
  }

  /** `parts.join(sep)`. */
  function Join(parts: seq<string>, sep: string): (r: string)
    decreases |parts|
  {
    if |parts| == 0 then ""
    else if |parts| == 1 then parts[0]
    else parts[0] + sep + Join(parts[1..], sep)
  }

  /** `path.split('/').pop()`: the text after the last slash. */
  function LastSegment(path: string): (seg: string) {
    var segments := Split(path, "/");
    segments[|segments| - 1]
  }

  /** `path.split('/').slice(0, -1).join('/')`: everything before the last
      slash, or the empty string when there is no slash. */
  function DropLastSegment(path: string): (parent: string) {
    var segments := Split(path, "/");
    Join(segments[..|segments| - 1], "/")
  }

  // ---------------------------------------------------------------------
  // Split and Join are inverse
  // ---------------------------------------------------------------------

  lemma JoinConsHead(c: char, rest: seq<string>, sep: string)
    requires |rest| >= 1
    ensures Join([[c] + rest[0]] + rest[1..], sep) == [c] + Join(rest, sep)
  {
    var parts := [[c] + rest[0]] + rest[1..];
    if |rest| > 1 {
      assert parts[1..] == rest[1..];
    }
  }

  /** Joining the pieces of a split with the same separator gives back the
      original string. */
  lemma {:induction false} JoinSplit(s: string, sep: string)
    requires |sep| > 0
    ensures Join(Split(s, sep), sep) == s
    decreases |s|
  {
    if |s| < |sep| {
    } else if s[..|sep|] == sep {
      var rest := Split(s[|sep|..], sep);
      assert Split(s, sep) == [""] + rest;
      JoinSplit(s[|sep|..], sep);
      assert ([""] + rest)[1..] == rest;
      assert Join([""] + rest, sep) == "" + sep + Join(rest, sep);
      assert s == sep + s[|sep|..];
    } else {
      var rest := Split(s[1..], sep);
      assert Split(s, sep) == [[s[0]] + rest[0]] + rest[1..];
      JoinSplit(s[1..], sep);
      JoinConsHead(s[0], rest, sep);
      assert s == [s[0]] + s[1..];
    }
  }

  /** The first piece of a split is a prefix of the string, and it is not
      empty when the string does not begin with the separator. */
  lemma {:induction false} FirstPiece(s: string, c: char)
    ensures Split(s, [c])[0] <= s
    ensures |s| > 0 && s[0] != c ==> |Split(s, [c])[0]| > 0
    decreases |s|
  {
    if |s| >= 1 && s[..1] != [c] {
      FirstPiece(s[1..], c);
      assert s == [s[0]] + s[1..];
    }
  }

  /** A join of at least one piece starts with the first piece. */
  lemma {:induction false} JoinStartsWithFirst(parts: seq<string>, sep: string)
    requires |parts| >= 1
    ensures parts[0] <= Join(parts, sep)
  {
  }

  /** A string without the separator character is not split. */
  lemma {:induction false} SplitWithoutSeparator(s: string, c: char)
    requires c !in s
    ensures Split(s, [c]) == [s]
    decreases |s|
  {
    if |s| >= 1 {
      assert s[..1] != [c] by { assert s[0] != c; }
      SplitWithoutSeparator(s[1..], c);
      assert s == [s[0]] + s[1..];
    }
  }

  /** Splitting on a single character distributes over an occurrence of
      that character. */
  lemma {:induction false} SplitAround(a: string, b: string, c: char)
    ensures Split(a + [c] + b, [c]) == Split(a, [c]) + Split(b, [c])
    decreases |a|
  {
    if |a| == 0 {
      assert a + [c] + b == [c] + b;
      SplitAtSeparator(b, c);
    } else {
      SplitAround(a[1..], b, c);
      SplitAroundStep(a[0], a[1..], b, c);
      assert [a[0]] + a[1..] == a;
    }
  }

  /** The inductive step of `SplitAround`: one more character in front. */
  lemma SplitAroundStep(x: char, a: string, b: string, c: char)
    requires Split(a + [c] + b, [c]) == Split(a, [c]) + Split(b, [c])
    ensures Split([x] + a + [c] + b, [c]) == Split([x] + a, [c]) + Split(b, [c])
  {
    var t := a + [c] + b;
    assert [x] + a + [c] + b == [x] + t;
    if x == c {
      StepAtSeparator(a, t, b, c);
    } else {
      StepAtOther(x, a, t, b, c);
    }
  }

  lemma StepAtSeparator(a: string, t: string, b: string, c: char)
    requires Split(t, [c]) == Split(a, [c]) + Split(b, [c])
    ensures Split([c] + t, [c]) == Split([c] + a, [c]) + Split(b, [c])
  {
    SplitAtSeparator(t, c);
    SplitAtSeparator(a, c);
    ConsAppend("", Split(a, [c]), Split(b, [c]));
  }

  lemma StepAtOther(x: char, a: string, t: string, b: string, c: char)
    requires x != c
    requires Split(t, [c]) == Split(a, [c]) + Split(b, [c])
    ensures Split([x] + t, [c]) == Split([x] + a, [c]) + Split(b, [c])
  {
    SplitAtOther(x, t, c);
    SplitAtOther(x, a, c);
    var ra := Split(a, [c]);
    HeadAppend(ra, Split(b, [c]));
    ConsAppend([x] + ra[0], ra[1..], Split(b, [c]));
  }

  lemma ConsAppend<T>(x: T, u: seq<T>, v: seq<T>)
    ensures [x] + (u + v) == ([x] + u) + v
  {
  }

  lemma HeadAppend<T>(u: seq<T>, v: seq<T>)
    requires |u| >= 1
    ensures (u + v)[0] == u[0] && (u + v)[1..] == u[1..] + v
  {
    assert (u + v)[1..] == u[1..] + v;
  }

  /** A leading separator character gives an empty first piece. */
  lemma SplitAtSeparator(t: string, c: char)
    ensures Split([c] + t, [c]) == [""] + Split(t, [c])
  {
    var s := [c] + t;
    assert s[..1] == [c];
    assert s[1..] == t;
  }

  /** Any other leading character belongs to the first piece. */
  lemma SplitAtOther(ch: char, t: string, c: char)
    requires ch != c
    ensures var rest := Split(t, [c]);
      Split([ch] + t, [c]) == [[ch] + rest[0]] + rest[1..]
  {
    var s := [ch] + t;
    assert s[..1] == [ch] && s[0] == ch;
    assert s[1..] == t;
  }

  /** The segments of `p + "/" + seg`, for a slash-free `seg`, are those of
      `p` followed by `seg`. */
  lemma SplitLastSegment(p: string, seg: string)
    requires '/' !in seg
    ensures Split(p + "/" + seg, "/") == Split(p, "/") + [seg]
  {
    SplitAround(p, seg, '/');
    SplitWithoutSeparator(seg, '/');
  }

  /** Joining one more piece appends the separator and the piece. */
  lemma {:induction false} JoinSnoc(parts: seq<string>, x: string, sep: string)
    requires |parts| >= 1
    ensures Join(parts + [x], sep) == Join(parts, sep) + sep + x
    decreases |parts|
  {
    if |parts| > 1 {
      assert (parts + [x])[1..] == parts[1..] + [x];
      JoinSnoc(parts[1..], x, sep);
    }
  }

  /** A join splits at any inner piece boundary into the join of the
      pieces before it, the separator, and the join of the pieces after. */
  lemma {:induction false} JoinAt(parts: seq<string>, k: nat, sep: string)
    requires 0 < k < |parts|
    ensures Join(parts, sep) == Join(parts[..k], sep) + sep + Join(parts[k..], sep)
    decreases k
  {
    if k > 1 {
      JoinAt(parts[1..], k - 1, sep);
      assert parts[1..][..k - 1] == parts[..k][1..];
      assert parts[1..][k - 1..] == parts[k..];
    } else {
      assert parts[..1] == [parts[0]];
    }
  }

  /** `p + "/" + seg` has last segment `seg` and everything before it is
      `p`, for a slash-free `seg`. */
  lemma SegmentsOfChild(p: string, seg: string)
    requires '/' !in seg
    ensures LastSegment(p + "/" + seg) == seg
    ensures DropLastSegment(p + "/" + seg) == p
  {
    SplitLastSegment(p, seg);
    var segments := Split(p + "/" + seg, "/");
    assert segments[..|segments| - 1] == Split(p, "/");
    JoinSplit(p, "/");
  }

  /** A path without a slash has itself as last segment and nothing before
      it. */
  lemma SegmentsOfName(name: string)
    requires '/' !in name
    ensures LastSegment(name) == name
    ensures DropLastSegment(name) == ""
  {
    SplitWithoutSeparator(name, '/');
  }
}
