/** The JavaScript string primitives the upload parsers rely on:
    `String.prototype.split` with a one-character separator, `split` on the
    regular expression `/\r\n|\n/`, `String.prototype.trim` and
    `Array.prototype.indexOf` on an array of strings. */
module Text {

  /** The characters `trim` removes: ECMAScript WhiteSpace and LineTerminator. */
  const SpaceChars: set<char> := {
    '\t', '\n', '\U{B}', '\U{C}', '\r', ' ', '\U{A0}', '\U{1680}',
    '\U{2028}', '\U{2029}', '\U{202F}', '\U{205F}', '\U{3000}', '\U{FEFF}'
  }

  predicate IsSpace(c: char) {
    c in SpaceChars || '\U{2000}' <= c <= '\U{200A}'
  }

  /** No whitespace at either end. */
  predicate Trimmed(s: string) {
    s == [] || (!IsSpace(s[0]) && !IsSpace(s[|s| - 1]))
  }

  /** The number of whitespace characters `s` starts with. */
  function LeadingSpace(s: string): (n: nat)
    ensures n <= |s|
    ensures forall k | 0 <= k < n :: IsSpace(s[k])
    ensures n < |s| ==> !IsSpace(s[n])
  {
    if s != [] && IsSpace(s[0]) then 1 + LeadingSpace(s[1..]) else 0
  }

  /** The number of whitespace characters `s` ends with. */
  function TrailingSpace(s: string): (n: nat)
    ensures n <= |s|
    ensures forall k | |s| - n <= k < |s| :: IsSpace(s[k])
    ensures n < |s| ==> !IsSpace(s[|s| - 1 - n])
  {
    if s != [] && IsSpace(s[|s| - 1]) then 1 + TrailingSpace(s[..|s| - 1]) else 0
  }

  /** `String.prototype.trim`: the longest infix of `s` that neither starts nor
      ends with whitespace, everything cut away on either side being whitespace. */
  function Trim(s: string): (r: string)
    ensures Trimmed(r)
    ensures var lead := LeadingSpace(s);
      lead + |r| <= |s| && r == s[lead..lead + |r|]
      && (forall k | 0 <= k < lead :: IsSpace(s[k]))
      && (forall k | lead + |r| <= k < |s| :: IsSpace(s[k]))
  {
    var lead := LeadingSpace(s);
    if lead == |s| then []
    else
      var trail := TrailingSpace(s);
      assert !IsSpace(s[lead]);
      s[lead..|s| - trail]
  }

  /** `Array.prototype.indexOf`: the first position of `x` in `xs`, or -1. */
  function IndexOf(xs: seq<string>, x: string): (r: int)
    ensures -1 <= r < |xs|
    ensures r == -1 <==> x !in xs
    ensures r >= 0 ==> xs[r] == x && x !in xs[..r]
  {
    if xs == [] then -1
    else if xs[0] == x then 0
    else
      var k := IndexOf(xs[1..], x);
      assert xs == [xs[0]] + xs[1..];
      if k == -1 then -1
      else
        assert xs[..k + 1] == [xs[0]] + xs[1..][..k];
        k + 1
  }

  /** `s.split(sep)` for a one-character separator: the pieces between
      occurrences of `sep`; there is always at least one piece. */
  function Split(s: string, sep: char): (r: seq<string>)
    ensures |r| >= 1
    ensures forall k | 0 <= k < |r| :: sep !in r[k]
  {
    if s == [] then [""]
    else
      var rest := Split(s[1..], sep);
      if s[0] == sep then [""] + rest
      else [[s[0]] + rest[0]] + rest[1..]
  }

  /** `parts.join(sep)`: the inverse of `Split`. */
  function Join(parts: seq<string>, sep: char): string {
    if parts == [] then ""
    else if |parts| == 1 then parts[0]
    else parts[0] + [sep] + Join(parts[1..], sep)
  }

  lemma {:induction false} JoinSplit(s: string, sep: char)
    ensures Join(Split(s, sep), sep) == s
  {
    if s != [] {
      var rest := Split(s[1..], sep);
      JoinSplit(s[1..], sep);
      if s[0] == sep {
        assert Split(s, sep) == [""] + rest;
      } else {
        var parts := Split(s, sep);
        assert parts == [[s[0]] + rest[0]] + rest[1..];
        if |rest| == 1 {
          assert Join(parts, sep) == [s[0]] + rest[0];
        } else {
          assert parts[1..] == rest[1..];
          assert Join(rest, sep) == rest[0] + [sep] + Join(rest[1..], sep);
          assert Join(parts, sep) == [s[0]] + rest[0] + [sep] + Join(rest[1..], sep);
        }
        assert s == [s[0]] + s[1..];
      }
    }
  }

  /** A piece free of the separator splits into itself. */
  lemma {:induction false} SplitSinglePiece(p: string, sep: char)
    requires sep !in p
    ensures Split(p, sep) == [p]
  {
    if p != [] {
      SplitSinglePiece(p[1..], sep);
      assert p == [p[0]] + p[1..];
    }
  }

  /** A piece free of the separator, the separator, then more text. */
  lemma {:induction false} SplitLeadingPiece(p: string, sep: char, tail: string)
    requires sep !in p
    ensures Split(p + [sep] + tail, sep) == [p] + Split(tail, sep)
  {
    var s := p + [sep] + tail;
    if p == [] {
      assert s[1..] == tail;
    } else {
      SplitLeadingPiece(p[1..], sep, tail);
      assert s[1..] == p[1..] + [sep] + tail;
      assert p == [p[0]] + p[1..];
    }
  }

  lemma {:induction false} SplitJoin(parts: seq<string>, sep: char)
    requires |parts| >= 1
    requires forall k | 0 <= k < |parts| :: sep !in parts[k]
    ensures Split(Join(parts, sep), sep) == parts
  {
    if |parts| == 1 {
      SplitSinglePiece(parts[0], sep);
    } else {
      SplitJoin(parts[1..], sep);
      SplitLeadingPiece(parts[0], sep, Join(parts[1..], sep));
      assert parts == [parts[0]] + parts[1..];
    }
  }

  /** `s.split(/\r\n|\n/)`: at each position the pair CR LF is tried first,
      then a lone LF; a CR not followed by LF is ordinary text. */
  function SplitLines(s: string): (r: seq<string>)
    ensures |r| >= 1
    ensures forall k | 0 <= k < |r| :: '\n' !in r[k]
  {
    if s == [] then [""]
    else if s[0] == '\n' then [""] + SplitLines(s[1..])
    else if |s| >= 2 && s[0] == '\r' && s[1] == '\n' then [""] + SplitLines(s[2..])
    else
      var rest := SplitLines(s[1..]);
      [[s[0]] + rest[0]] + rest[1..]
  }

  /** `s` with every CR that directly precedes an LF deleted. */
  function DropCRBeforeLF(s: string): string {
    if s == [] then []
    else if |s| >= 2 && s[0] == '\r' && s[1] == '\n' then "\n" + DropCRBeforeLF(s[2..])
    else [s[0]] + DropCRBeforeLF(s[1..])
  }

  /** Splitting on `/\r\n|\n/` is the same as turning every CR LF into LF and
      splitting on LF. */
  lemma {:induction false} SplitLinesIsSplitOnLF(s: string)
    ensures SplitLines(s) == Split(DropCRBeforeLF(s), '\n')
  {
    if s == [] {
    } else if |s| >= 2 && s[0] == '\r' && s[1] == '\n' {
      SplitLinesIsSplitOnLF(s[2..]);
      var d := DropCRBeforeLF(s[2..]);
      assert ("\n" + d)[1..] == d;
    } else {
      SplitLinesIsSplitOnLF(s[1..]);
      var d := DropCRBeforeLF(s[1..]);
      assert ([s[0]] + d)[1..] == d;
    }
  }

  /** Text without CR is split on LF alone, and joining the lines gives it back. */
  lemma LinesWithoutCR(s: string)
    requires '\r' !in s
    ensures SplitLines(s) == Split(s, '\n')
    ensures Join(SplitLines(s), '\n') == s
  {
    NoCRUnchanged(s);
    SplitLinesIsSplitOnLF(s);
    JoinSplit(s, '\n');
  }

  lemma {:induction false} NoCRUnchanged(s: string)
    requires '\r' !in s
    ensures DropCRBeforeLF(s) == s
  {
    if s != [] {
      assert s == [s[0]] + s[1..];
      NoCRUnchanged(s[1..]);
    }
  }
}
