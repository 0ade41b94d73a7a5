/**
 * The markdown side of the site: the heading renderer that shifts every
 * heading one level down (`shiftHeader`), and the `data-blocks` limit that
 * keeps only the first blocks of a fetched markdown file before it is
 * rendered. The markdown parser itself is not part of this model.
 */
module Markdown {
  import opened Text
  import opened Options

  // ---------------------------------------------------------------------
  // Decimal numbers
  // ---------------------------------------------------------------------

  predicate IsDigit(c: char) {
    '0' <= c <= '9'
  }

  predicate AllDigits(s: string) {
    forall i :: 0 <= i < |s| ==> IsDigit(s[i])
  }

  /** The decimal numeral of `n`, as a template string prints it: no sign,
      no leading zero except for `0` itself. */
  function NatToString(n: nat): (s: string)
    ensures |s| >= 1 && AllDigits(s)
    ensures s[0] == '0' ==> n == 0 && s == "0"
    decreases n
  {
    if n < 10 then [('0' as int + n) as char]
    else NatToString(n / 10) + [('0' as int + n % 10) as char]
  }

  /** The value of a string of decimal digits. */
  function DigitsValue(d: string): (v: nat)
    requires AllDigits(d)
    decreases |d|
  {
    if d == [] then 0
    else
      assert IsDigit(d[|d| - 1]);
      DigitsValue(d[..|d| - 1]) * 10 + (d[|d| - 1] as int - '0' as int)
  }

  /** The longest prefix of `s` made of decimal digits. */
  function DigitPrefix(s: string): (d: string)
    ensures d <= s && AllDigits(d)
    ensures |d| < |s| ==> !IsDigit(s[|d|])
    decreases |s|
  {
    if |s| > 0 && IsDigit(s[0]) then [s[0]] + DigitPrefix(s[1..]) else ""
  }

  /** `parseInt(s, 10)`: leading whitespace is skipped, one sign is read,
      then as many decimal digits as follow; with no digit the result is
      NaN, here `None`. */
  function ParseInt(s: string): (r: Option<int>) {
    var t := TrimStart(s);
    var negative := |t| > 0 && t[0] == '-';
    var body := if |t| > 0 && (t[0] == '-' || t[0] == '+') then t[1..] else t;
    var d := DigitPrefix(body);
    if d == "" then None
    else if negative then Some(-(DigitsValue(d) as int))
    else Some(DigitsValue(d))
  }

  /** The numeral of `n` is read back as `n`. */
  lemma {:induction false} DigitsOfNat(n: nat)
    ensures DigitsValue(NatToString(n)) == n
    decreases n
  {
    var s := NatToString(n);
    if n >= 10 {
      DigitsOfNat(n / 10);
      assert s[..|s| - 1] == NatToString(n / 10);
    }
  }

  /** The digit prefix of a digit string followed by a non-digit is that
      digit string. */
  lemma {:induction false} DigitPrefixOf(d: string, rest: string)
    requires AllDigits(d)
    requires rest == "" || !IsDigit(rest[0])
    ensures DigitPrefix(d + rest) == d
    decreases |d|
  {
    if d != [] {
      assert (d + rest)[1..] == d[1..] + rest;
      DigitPrefixOf(d[1..], rest);
    } else {
      assert d + rest == rest;
    }
  }

  /** A numeral followed by anything that is not a digit (`"3px"`) parses
      as its value. */
  lemma ParseIntOfNumeral(n: nat, rest: string)
    requires rest == "" || !IsDigit(rest[0])
    ensures ParseInt(NatToString(n) + rest) == Some(n)
  {
    var s := NatToString(n);
    assert (s + rest)[0] == s[0];
    DigitPrefixOf(s, rest);
    ParseIntOfDigits(s + rest, s);
    DigitsOfNat(n);
  }

  /** `parseInt` reads back every numeral. */
  lemma ParseIntOfNat(n: nat)
    ensures ParseInt(NatToString(n)) == Some(n)
  {
    ParseIntOfNumeral(n, "");
    assert NatToString(n) + "" == NatToString(n);
  }

  /** Text that starts with a digit is read up to its last leading digit. */
  lemma ParseIntOfDigits(t: string, d: string)
    requires |t| > 0 && IsDigit(t[0]) && DigitPrefix(t) == d
    ensures ParseInt(t) == Some(DigitsValue(d))
  {
    assert TrimStart(t) == t;
  }

  /** A minus sign before a numeral negates it. */
  lemma ParseIntOfNegative(n: nat)
    ensures ParseInt("-" + NatToString(n)) == Some(-(n as int))
  {
    var s := "-" + NatToString(n);
    assert s[1..] == NatToString(n);
    assert TrimStart(s) == s by {
      assert s[0] == '-';
    }
    DigitPrefixOf(NatToString(n), "");
    assert NatToString(n) + "" == NatToString(n);
    DigitsOfNat(n);
  }

  /** Text that starts with anything but whitespace, a sign or a digit is
      not a number. */
  lemma ParseIntOfWord(s: string)
    requires |s| > 0 && !IsJsWhitespace(s[0]) && !IsDigit(s[0]) && s[0] != '-' && s[0] != '+'
    ensures ParseInt(s) == None
  {
  }

  // ---------------------------------------------------------------------
  // The block limit of `.markdown-fetch` elements
  // ---------------------------------------------------------------------

  /** `parseInt(div.getAttribute('data-blocks'), 10) || undefined`: an
      absent attribute reads as `null`, which is parsed as the text
      `"null"`; NaN, `0` and `-0` are all falsy and mean no limit. */
  function BlockLimit(attr: Option<string>): (limit: Option<int>)
    ensures limit.Some? ==> limit.value != 0
  {
    var n := ParseInt(if attr.Some? then attr.value else "null");
    if n.Some? && n.value != 0 then n else None
  }

  /** The end index that `slice(0, end)` uses on an array of length `len`:
      no end means the whole array, a negative end counts from the back,
      and both are clamped to the array. */
  function SliceEnd(len: nat, end: Option<int>): (k: nat)
    ensures k <= len
  {
    if end.None? then len
    else if end.value < 0 then (if len + end.value >= 0 then len + end.value else 0)
    else if end.value <= len then end.value
    else len
  }

  /** The blank-line separator of markdown blocks. */
  const BlockSeparator := "\n\n"

  /** `markdown.split('\n\n').slice(0, blocks).join('\n\n')`. */
  function LimitBlocks(md: string, attr: Option<string>): (r: string) {
    var blocks := Split(md, BlockSeparator);
    Join(blocks[..SliceEnd(|blocks|, BlockLimit(attr))], BlockSeparator)
  }

  /** A missing attribute reads as "no limit". */
  lemma AbsentAttribute()
    ensures BlockLimit(None) == None
  {
    ParseIntOfWord("null");
  }

  /** A positive count is taken as it is written. */
  lemma CountAttribute(n: nat)
    requires n > 0
    ensures BlockLimit(Some(NatToString(n))) == Some(n)
  {
    ParseIntOfNat(n);
  }

  /** `data-blocks="0"` keeps everything rather than nothing. */
  lemma ZeroAttribute()
    ensures BlockLimit(Some(NatToString(0))) == None
  {
    ParseIntOfNat(0);
  }

  /** The pieces kept by the limit join to the front of the whole text. */
  lemma JoinPrefix(parts: seq<string>, k: nat, sep: string)
    requires k <= |parts|
    ensures Join(parts[..k], sep) <= Join(parts, sep)
  {
    if k == |parts| {
      assert parts[..k] == parts;
    } else if k > 0 {
      JoinAt(parts, k, sep);
    }
  }

  /** Whatever the attribute, the limited text is a prefix of the file. */
  lemma LimitIsPrefix(md: string, attr: Option<string>)
    ensures LimitBlocks(md, attr) <= md
  {
    var blocks := Split(md, BlockSeparator);
    JoinPrefix(blocks, SliceEnd(|blocks|, BlockLimit(attr)), BlockSeparator);
    JoinSplit(md, BlockSeparator);
  }

  /** With no limit, or a limit at least the number of blocks, the file is
      kept whole. */
  lemma NoLimitKeepsAll(md: string, attr: Option<string>)
    requires BlockLimit(attr).None? || BlockLimit(attr).value >= |Split(md, BlockSeparator)|
    ensures LimitBlocks(md, attr) == md
  {
    var blocks := Split(md, BlockSeparator);
    assert blocks[..|blocks|] == blocks;
    JoinSplit(md, BlockSeparator);
  }

  /** `data-blocks="n"` with fewer than all blocks cuts the file at a
      block boundary: the kept text, a blank line, and the dropped blocks
      make up the file again. */
  lemma LimitSplitsFile(md: string, n: nat)
    requires 0 < n < |Split(md, BlockSeparator)|
    ensures var blocks := Split(md, BlockSeparator);
      LimitBlocks(md, Some(NatToString(n))) == Join(blocks[..n], BlockSeparator)
      && md == LimitBlocks(md, Some(NatToString(n))) + BlockSeparator + Join(blocks[n..], BlockSeparator)
  {
    var blocks := Split(md, BlockSeparator);
    CountAttribute(n);
    JoinAt(blocks, n, BlockSeparator);
    JoinSplit(md, BlockSeparator);
  }

  /** A negative count drops that many blocks from the end. */
  lemma NegativeLimitDropsLast(md: string, n: nat)
    requires 0 < n < |Split(md, BlockSeparator)|
    ensures var blocks := Split(md, BlockSeparator);
      LimitBlocks(md, Some("-" + NatToString(n))) == Join(blocks[..|blocks| - n], BlockSeparator)
  {
    ParseIntOfNegative(n);
  }

  /** A negative count reaching past the first block keeps nothing. */
  lemma NegativeLimitPastStart(md: string, n: nat)
    requires n >= |Split(md, BlockSeparator)|
    ensures LimitBlocks(md, Some("-" + NatToString(n))) == ""
  {
    ParseIntOfNegative(n);
  }

  // ---------------------------------------------------------------------
  // The shifted heading renderer
  // ---------------------------------------------------------------------

  /** `shiftHeader`'s depth rule: every depth below 6 goes one level
      deeper, and 6, the deepest HTML heading, stays. */
  function ShiftDepth(depth: nat): (d: nat) {
    if depth < 6 then depth + 1 else depth
  }

  /** The HTML the shifted renderer returns for a heading. */
  function HeadingHtml(depth: nat, text: string): (html: string) {
    var level := NatToString(ShiftDepth(depth));
    "<h" + level + ">" + text + "</h" + level + ">"
  }

  /** Markdown's heading depths 1 to 6 become 2 to 6: a valid HTML heading
      level, one deeper except at the bottom, and the order of levels is
      kept. */
  lemma ShiftDepthRange(depth: nat)
    requires 1 <= depth <= 6
    ensures 2 <= ShiftDepth(depth) <= 6
    ensures ShiftDepth(depth) == depth + 1 || ShiftDepth(depth) == depth == 6
  {
  }

  lemma ShiftDepthMonotone(a: nat, b: nat)
    requires a <= b
    ensures ShiftDepth(a) <= ShiftDepth(b)
  {
  }

  /** Only depths 5 and 6 meet after the shift. */
  lemma ShiftDepthMerges(a: nat, b: nat)
    requires a < b && ShiftDepth(a) == ShiftDepth(b)
    ensures a == 5 && b == 6
  {
  }

  /** The level in the opening tag of a rendered heading is the shifted
      depth: reading the number after `<h` gives it back. */
  lemma HeadingLevel(depth: nat, text: string)
    ensures ParseInt(HeadingHtml(depth, text)[2..]) == Some(ShiftDepth(depth))
  {
    var level := NatToString(ShiftDepth(depth));
    var rest := ">" + text + "</h" + level + ">";
    assert HeadingHtml(depth, text)[2..] == level + rest;
    ParseIntOfNumeral(ShiftDepth(depth), rest);
  }
}
