/**
 The normaliser shared by the detectors (maskguard/detection/normalization.py): spaces at
 token boundaries are dropped or made canonical, punctuation variants are folded, and
 every kept character remembers where it came from.
 */
module ContextNormalization {
  import opened Collections
  import opened Models
  import opened LineIndexing

  // ---------- characters ----------

  /** What the pattern class for non-space does not match. */
  predicate IsSpace(c: char) {
    var code := c as int;
    || 9 <= code <= 13 || 28 <= code <= 32 || code == 0x85 || code == 0xA0 || code == 0x1680
    || 0x2000 <= code <= 0x200A || code == 0x2028 || code == 0x2029 || code == 0x202F || code == 0x205F ||
         code == 0x3000
  }

  function NormalizeChar(c: char): char {
    var code := c as int;
    if code == 0xFF1A || code == 0xFE55 || code == 0xFE13 || code == 0x2025 then ':'
    else if code == 0xFF1B || code == 0xFE54 then ';'
    else if code == 0xFF0C || code == 0xFE50 then ','
    else if code == 0x3002 || code == 0xFF0E then '.'
    else if code == 0xFF08 then '('
    else if code == 0xFF09 then ')'
    else if 0xFF01 <= code <= 0xFF5E then (code - 0xFEE0) as char
    else c
  }

  predicate IsAsciiAlnum(c: char) { '0' <= c <= '9' || 'A' <= c <= 'Z' || 'a' <= c <= 'z' }

  /** White space, code point by code point. */
  lemma {:induction false} SpaceExactly(c: char)
    ensures IsSpace(c) <==>
            c as int in {9, 10, 11, 12, 13, 28, 29, 30, 31, 32, 0x85, 0xA0, 0x1680, 0x2000, 0x2001, 0x2002, 0x2003,
                         0x2004, 0x2005, 0x2006, 0x2007, 0x2008, 0x2009, 0x200A, 0x2028, 0x2029, 0x202F, 0x205F, 0x3000}
  {}

  lemma {:induction false} NormalizedChar(c: char)
    ensures NormalizeChar(NormalizeChar(c)) == NormalizeChar(c)
    ensures IsSpace(NormalizeChar(c)) <==> IsSpace(c)
  {}

  /** What is folded into what: the variants of six marks, the full-width form of every other
      visible ASCII character, and nothing else. */
  lemma {:induction false} FoldedExactly(c: char, d: char)
    ensures NormalizeChar(c) == ':' <==> c as int in {0x3A, 0xFF1A, 0xFE55, 0xFE13, 0x2025}
    ensures NormalizeChar(c) == ';' <==> c as int in {0x3B, 0xFF1B, 0xFE54}
    ensures NormalizeChar(c) == ',' <==> c as int in {0x2C, 0xFF0C, 0xFE50}
    ensures NormalizeChar(c) == '.' <==> c as int in {0x2E, 0xFF0E, 0x3002}
    ensures '!' <= d <= '~' && d !in {':', ';', ',', '.'} ==>
              (NormalizeChar(c) == d <==> c == d || c as int == d as int + 0xFEE0)
    ensures NormalizeChar(c) == c || '!' <= NormalizeChar(c) <= '~'
  {}

  // ---------- the specification ----------

  /** One character of the output and the position it came from. */
  datatype Cell = Cell(ch: char, source: nat)

  function Chars(cells: seq<Cell>): string { seq(|cells|, i requires 0 <= i < |cells| => cells[i].ch) }

  function Sources(cells: seq<Cell>): seq<nat> { seq(|cells|, i requires 0 <= i < |cells| => cells[i].source) }

  /** A space is kept between two characters when one of them is an ASCII letter or digit. */
  predicate Separated(prev: Option<char>, next: char) {
    prev.Some? && (IsAsciiAlnum(prev.value) || IsAsciiAlnum(next))
  }

  /** The output for `text`, which starts at position `at`; `prev` is the last character
      written and `gap` says that white space followed it. */
  function Scan(text: string, at: nat, prev: Option<char>, gap: bool): seq<Cell> {
    if text == "" then []
    else if IsSpace(text[0]) then Scan(text[1..], at + 1, prev, true)
    else
      var ch := NormalizeChar(text[0]);
      (if gap && Separated(prev, ch) then [Cell(' ', at)] else []) +
      [Cell(ch, at)] + Scan(text[1..], at + 1, Some(ch), false)
  }

  function Normalized(text: string): seq<Cell> { Scan(text, 0, None, false) }

  datatype NormalizedLineIndex = NormalizedLineIndex(
    normalizedText: string, sourcePositions: seq<nat>, original: LineIndex)

  // ---------- the loop ----------

  method NormalizeForContext(index: LineIndex) returns (n: NormalizedLineIndex)
    ensures n == NormalizedLineIndex(Chars(Normalized(index.text)), Sources(Normalized(index.text)), index)
  {
    var text := index.text;
    var outChars: string, outPositions: seq<nat>, prevLastChar: Option<char> := "", [], None;
    ghost var out: seq<Cell> := [];
    var i := 0;
    assert text[0..] == text;
    GapBeforeAnything(text, 0);
    while i < |text|
      invariant i <= |text| && outChars == Chars(out) && outPositions == Sources(out)
      invariant Reached(out, text, i, prevLastChar)
      decreases |text| - i
    {
      if IsSpace(text[i]) {
        PastSpace(out, text, i, prevLastChar);
        i := i + 1;
        continue;
      }
      var segStart := i;
      i := SegmentEnd(text, i);
      PastSegment(out, text, segStart, i, prevLastChar);
      var rawSegment := text[segStart..i];
      outChars, outPositions := AppendSegment(out, outChars, outPositions, rawSegment, segStart, prevLastChar);
      out := out + Segment(rawSegment, segStart, prevLastChar);
      prevLastChar := Some(NormalizeChar(rawSegment[|rawSegment| - 1]));
    }
    assert text[i..] == "" && out + [] == out;
    return NormalizedLineIndex(outChars, outPositions, index);
  }

  /** `out` is the output up to position `i`, which follows a segment or nothing. */
  ghost predicate Reached(out: seq<Cell>, text: string, i: nat, prev: Option<char>) {
    i <= |text| && out + Scan(text[i..], i, prev, true) == Normalized(text)
  }

  lemma {:induction false} PastSpace(out: seq<Cell>, text: string, i: nat, prev: Option<char>)
    requires Reached(out, text, i, prev) && i < |text| && IsSpace(text[i])
    ensures Reached(out, text, i + 1, prev)
  {
    assert text[i..][1..] == text[i + 1..];
  }

  lemma {:induction false} PastSegment(out: seq<Cell>, text: string, start: nat, end: nat, prev: Option<char>)
    requires Reached(out, text, start, prev) && start < end <= |text|
    requires (forall k :: start <= k < end ==> !IsSpace(text[k])) && (end < |text| ==> IsSpace(text[end]))
    ensures Reached(out + Segment(text[start..end], start, prev), text, end, Some(NormalizeChar(text[end - 1])))
  {
    var raw := text[start..end];
    assert text[start..] == raw + text[end..];
    ScanSegment(raw, text[end..], start, prev);
    Regroup(out, Segment(raw, start, prev), Scan(text[end..], end, Some(NormalizeChar(text[end - 1])), true));
  }

  /** The end of the run of non-space characters that starts at `start`. */
  method SegmentEnd(text: string, start: nat) returns (end: nat)
    requires start < |text| && !IsSpace(text[start])
    ensures start < end <= |text|
    ensures forall k :: start <= k < end ==> !IsSpace(text[k])
    ensures end < |text| ==> IsSpace(text[end])
  {
    end := start;
    while end < |text| && !IsSpace(text[end])
      invariant start <= end <= |text| && forall k :: start <= k < end ==> !IsSpace(text[k])
      invariant end == start ==> !IsSpace(text[start])
    {
      end := end + 1;
    }
  }

  method AppendSegment(ghost out: seq<Cell>, chars: string, positions: seq<nat>, raw: string, segStart: nat,
        prev: Option<char>)
    returns (outChars: string, outPositions: seq<nat>)
    requires raw != "" && chars == Chars(out) && positions == Sources(out)
    ensures outChars == Chars(out + Segment(raw, segStart, prev))
    ensures outPositions == Sources(out + Segment(raw, segStart, prev))
  {
    outChars, outPositions := chars, positions;
    var firstChar := NormalizeChar(raw[0]);
    if prev.Some? && (IsAsciiAlnum(prev.value) || IsAsciiAlnum(firstChar)) {
      outChars := outChars + " ";
      outPositions := outPositions + [segStart];
    }
    ghost var cells := out + if Separated(prev, firstChar) then [Cell(' ', segStart)] else [];
    for offset := 0 to |raw|
      invariant outChars == Chars(cells + Solids(raw, segStart, offset))
      invariant outPositions == Sources(cells + Solids(raw, segStart, offset))
    {
      OneMoreSolid(cells, raw, segStart, offset);
      outChars := outChars + [NormalizeChar(raw[offset])];
      outPositions := outPositions + [segStart + offset];
    }
    assert cells + Solids(raw, segStart, |raw|) == out + Segment(raw, segStart, prev);
  }

  /** The first `n` characters of a run, each normalised, at its own position. */
  ghost function Solids(raw: string, at: nat, n: nat): seq<Cell>
    requires n <= |raw|
  {
    seq(n, k requires 0 <= k < n => Cell(NormalizeChar(raw[k]), at + k))
  }

  lemma {:induction false} OneMoreSolid(cells: seq<Cell>, raw: string, at: nat, n: nat)
    requires n < |raw|
    ensures Chars(cells + Solids(raw, at, n + 1)) == Chars(cells + Solids(raw, at, n)) + [NormalizeChar(raw[n])]
    ensures Sources(cells + Solids(raw, at, n + 1)) == Sources(cells + Solids(raw, at, n)) + [at + n]
  {}

  /** What one run of non-space characters adds. */
  ghost function Segment(raw: string, at: nat, prev: Option<char>): seq<Cell>
    requires raw != ""
  {
    (if Separated(prev, NormalizeChar(raw[0])) then [Cell(' ', at)] else []) + Solids(raw, at, |raw|)
  }

  lemma {:induction false} GapBeforeAnything(text: string, at: nat)
    ensures Scan(text, at, None, true) == Scan(text, at, None, false)
  {}

  lemma {:induction false} GapAfterSegment(text: string, at: nat, prev: Option<char>)
    requires text == "" || IsSpace(text[0])
    ensures Scan(text, at, prev, true) == Scan(text, at, prev, false)
  {}

  lemma {:induction false} GapBeforeSegment(text: string, at: nat, prev: Option<char>)
    requires text != "" && !IsSpace(text[0])
    ensures Scan(text, at, prev, true) ==
            (if Separated(prev, NormalizeChar(text[0])) then [Cell(' ', at)] else []) + Scan(text, at, prev, false)
  {}

  lemma {:induction false} ScanSolid(raw: string, rest: string, at: nat, prev: Option<char>)
    requires raw != "" && forall k :: 0 <= k < |raw| ==> !IsSpace(raw[k])
    ensures Scan(raw + rest, at, prev, false) ==
            Solids(raw, at, |raw|) + Scan(rest, at + |raw|, Some(NormalizeChar(raw[|raw| - 1])), false)
    decreases |raw|
  {
    var ch := NormalizeChar(raw[0]);
    assert (raw + rest)[1..] == raw[1..] + rest;
    if |raw| == 1 {
      assert raw[1..] + rest == rest;
    } else {
      ScanSolid(raw[1..], rest, at + 1, Some(ch));
      assert [Cell(ch, at)] + Solids(raw[1..], at + 1, |raw| - 1) == Solids(raw, at, |raw|);
    }
  }

  lemma {:induction false} ScanSegment(raw: string, rest: string, at: nat, prev: Option<char>)
    requires raw != "" && (forall k :: 0 <= k < |raw| ==> !IsSpace(raw[k])) && (rest == "" || IsSpace(rest[0]))
    ensures Scan(raw + rest, at, prev, true) ==
            Segment(raw, at, prev) + Scan(rest, at + |raw|, Some(NormalizeChar(raw[|raw| - 1])), true)
  {
    GapBeforeSegment(raw + rest, at, prev);
    ScanSolid(raw, rest, at, prev);
    GapAfterSegment(rest, at + |raw|, Some(NormalizeChar(raw[|raw| - 1])));
  }
}
