/**
 * The integer core of text.c: glyph lookup by codepoint, the measuring
 * walk of `MeasureTextEx` over a NUL-terminated UTF-8 string, and the two
 * small loops of `LoadFontData` (bitmap binarisation and the default
 * codepoint list).
 */
module Text {
  import opened Types
  import Utf8

  // ---------------------------------------------------------------------------
  // Glyph lookup

  /** `TEXT_CHARACTER_NOTFOUND`: the index returned for a codepoint the font lacks. */
  const NotFound := 63

  /**
   * The index the lookup loop stops at when it starts at `from`: the first
   * glyph with the codepoint, or `NotFound` when none of the first `count`
   * glyphs has it.
   */
  function FirstMatch(chars: seq<CharInfo>, count: int, codepoint: int, from: int): (index: int)
    requires 0 <= from && count <= |chars|
    ensures (index == NotFound && forall i :: from <= i < count ==> chars[i].value != codepoint)
         || (from <= index < count && chars[index].value == codepoint
             && forall i :: from <= i < index ==> chars[i].value != codepoint)
    decreases count - from
  {
    if from >= count then NotFound
    else if chars[from].value == codepoint then from
    else FirstMatch(chars, count, codepoint, from + 1)
  }

  /** The glyph slot of a codepoint in a font. */
  function GlyphSlot(font: Font, codepoint: int): int
    requires font.charsCount <= |font.chars|
  {
    FirstMatch(font.chars, font.charsCount, codepoint, 0)
  }

  /** `GetGlyphIndex`: a linear search over the first `charsCount` glyphs. */
  method GetGlyphIndex(font: Font, codepoint: int) returns (index: int)
    requires font.charsCount <= |font.chars|
    ensures index == GlyphSlot(font, codepoint)
  {
    index := NotFound;
    var i := 0;
    while i < font.charsCount
      invariant 0 <= i && (i <= font.charsCount || font.charsCount <= 0)
      invariant FirstMatch(font.chars, font.charsCount, codepoint, i) == GlyphSlot(font, codepoint)
    {
      if font.chars[i].value == codepoint {
        index := i;
        return;
      }
      i := i + 1;
    }
  }

  /**
   * A font whose glyphs hold consecutive codepoints from 32, as the default
   * list of `LoadFontData` makes them, finds codepoint `c` at `c - 32`, the
   * answer of the ordered-charset variant of `GetGlyphIndex`, and any other
   * codepoint at `NotFound`.
   */
  lemma ConsecutiveSlots(font: Font, c: int)
    requires font.charsCount <= |font.chars|
    requires forall i :: 0 <= i < font.charsCount ==> font.chars[i].value == i + 32
    ensures GlyphSlot(font, c) == if 32 <= c < 32 + font.charsCount then c - 32 else NotFound
  {
    if 32 <= c < 32 + font.charsCount {
      assert font.chars[c - 32].value == c;
    }
  }

  // ---------------------------------------------------------------------------
  // The codepoints of a string

  /** The line-feed codepoint that starts a new line. */
  const Newline := 10

  /**
   * The codepoints the text walkers visit, in order: decode at the current
   * byte, then move on by `Utf8.Step` (one byte after a `'?'`).
   */
  function Codepoints(text: seq<byte>): (cps: seq<int>)
    requires Utf8.NoNul(text)
    ensures |cps| <= |text|
    decreases |text|
  {
    if text == [] then []
    else
      Utf8.StepWithinString(text);
      [Utf8.GetNextCodepoint(text).code] + Codepoints(text[Utf8.Step(text)..])
  }

  /** An ASCII string is its own codepoint sequence. */
  lemma {:induction false} AsciiCodepoints(text: seq<byte>)
    requires forall i :: 0 <= i < |text| ==> 0 < text[i] <= 0x7F
    ensures Utf8.NoNul(text) && Codepoints(text) == text
    decreases |text|
  {
    if text != [] {
      var rest := text[1..];
      AsciiCodepoints(rest);
      AsciiStep(text);
      assert text == [text[0]] + rest;
    }
  }

  /** The walk takes an ASCII byte as one codepoint of that value. */
  lemma AsciiStep(text: seq<byte>)
    requires |text| > 0 && 0 < text[0] <= 0x7F && Utf8.NoNul(text[1..])
    ensures Utf8.NoNul(text) && Codepoints(text) == [text[0] as int] + Codepoints(text[1..])
  {
    assert Utf8.NoNul(text) by {
      forall k | 0 <= k < |text| ensures text[k] != 0 {
        if k > 0 { assert text[k] == text[1..][k - 1]; }
      }
    }
    var c := text[0] as int;
    Utf8.DecodeEncode(c, text[1..]);
    assert Utf8.Encode(c) + text[1..] == text;
    assert Utf8.Step(text) == 1;
  }

  /**
   * The walk loses nothing on valid UTF-8: the string encoding a sequence of
   * non-zero scalar values has no NUL, and walking it yields exactly those
   * values.
   */
  lemma {:induction false} StringRoundTrip(cs: seq<int>)
    requires forall i :: 0 <= i < |cs| ==> Utf8.IsScalar(cs[i]) && cs[i] != 0
    ensures Utf8.NoNul(Utf8.EncodeAll(cs)) && Codepoints(Utf8.EncodeAll(cs)) == cs
    decreases |cs|
  {
    if cs != [] {
      var c, tail := cs[0], cs[1..];
      var e, rest := Utf8.Encode(c), Utf8.EncodeAll(tail);
      StringRoundTrip(tail);
      Utf8.EncodeNoNul(c);
      Utf8.DecodeEncode(c, rest);
      assert cs == [c] + tail;
      Utf8.EncodeAllCons(c, tail);
      var s := e + rest;
      Utf8.NoNulConcat(e, rest);
      WalkHead(s);
      assert s[|e|..] == rest;
    }
  }

  /**
   * The converse: a C string whose walk meets no `'?'` is valid UTF-8, the
   * encoding of the scalar values the walk yields.
   */
  lemma {:induction false} WalkEncodes(text: seq<byte>)
    requires Utf8.NoNul(text) && Utf8.Replacement !in Codepoints(text)
    ensures var cs := Codepoints(text);
      (forall i :: 0 <= i < |cs| ==> Utf8.IsScalar(cs[i])) && Utf8.EncodeAll(cs) == text
    decreases |text|
  {
    if text != [] {
      var c, n := Utf8.GetNextCodepoint(text).code, Utf8.Step(text);
      WalkHead(text);
      var rest := text[n..];
      var tail := Codepoints(rest);
      NotInCons(Utf8.Replacement, c, tail);
      WalkEncodes(rest);
      CanonicalHead(text);
      ConsEncodes(text, n, c, tail);
    }
  }

  /** A string that starts with the encoding of `c` and goes on with that of `tail` encodes `[c] + tail`. */
  lemma ConsEncodes(text: seq<byte>, n: int, c: int, tail: seq<int>)
    requires 0 <= n <= |text| && Utf8.IsScalar(c) && text[..n] == Utf8.Encode(c)
    requires (forall i :: 0 <= i < |tail| ==> Utf8.IsScalar(tail[i])) && Utf8.EncodeAll(tail) == text[n..]
    ensures forall i :: 0 <= i < |[c] + tail| ==> Utf8.IsScalar(([c] + tail)[i])
    ensures Utf8.EncodeAll([c] + tail) == text
  {
    Utf8.EncodeAllCons(c, tail);
    assert text == text[..n] + text[n..];
  }

  /** A value absent from `[c] + xs` is neither `c` nor in `xs`. */
  lemma NotInCons(v: int, c: int, xs: seq<int>)
    requires v !in [c] + xs
    ensures v != c && v !in xs
  {
    assert c == ([c] + xs)[0];
    assert forall i :: 0 <= i < |xs| ==> xs[i] == ([c] + xs)[i + 1];
  }

  /** A step that does not yield `'?'` consumed exactly the encoding of a scalar value. */
  lemma CanonicalHead(text: seq<byte>)
    requires Utf8.NoNul(text) && text != [] && Utf8.GetNextCodepoint(text).code != Utf8.Replacement
    ensures var c := Utf8.GetNextCodepoint(text).code;
      Utf8.IsScalar(c) && Utf8.Step(text) <= |text| && text[..Utf8.Step(text)] == Utf8.Encode(c)
  {
    var c, n := Utf8.GetNextCodepoint(text).code, Utf8.Step(text);
    Utf8.StepWithinString(text);
    Utf8.DecodedIsCanonical(text);
    forall k | 0 <= k < n ensures text[..n][k] == Utf8.Encode(c)[k] {
      assert Utf8.At(text, k) == text[k];
    }
  }

  /** One step of the walk over a non-empty C string: the rest is again a C string. */
  lemma WalkHead(text: seq<byte>)
    requires Utf8.NoNul(text) && text != []
    ensures 1 <= Utf8.Step(text) <= |text| && Utf8.NoNul(text[Utf8.Step(text)..])
    ensures Codepoints(text) == [Utf8.GetNextCodepoint(text).code] + Codepoints(text[Utf8.Step(text)..])
  {
    Utf8.StepWithinString(text);
  }

  // ---------------------------------------------------------------------------
  // Lines

  /** The codepoints split at every newline; there is always at least one (possibly empty) line. */
  function Lines(cps: seq<int>): (ls: seq<seq<int>>)
    ensures |ls| >= 1
    decreases |cps|
  {
    if cps == [] then [[]]
    else
      var ls := Lines(cps[..|cps| - 1]);
      var c := cps[|cps| - 1];
      if c == Newline then ls + [[]]
      else ls[..|ls| - 1] + [ls[|ls| - 1] + [c]]
  }

  /** Lines put back together with a newline between neighbours. */
  function Join(ls: seq<seq<int>>): seq<int>
    requires |ls| >= 1
    decreases |ls|
  {
    if |ls| == 1 then ls[0] else Join(ls[..|ls| - 1]) + [Newline] + ls[|ls| - 1]
  }

  /** Splitting loses nothing: no line holds a newline, and joining the lines gives the codepoints back. */
  lemma {:induction false} JoinLines(cps: seq<int>)
    ensures var ls := Lines(cps);
      Join(ls) == cps && forall i :: 0 <= i < |ls| ==> Newline !in ls[i]
    decreases |cps|
  {
    if cps != [] {
      var init := cps[..|cps| - 1];
      JoinLines(init);
      var ls := Lines(init);
      var c := cps[|cps| - 1];
      assert cps == init + [c];
      if c != Newline {
        var ls' := Lines(cps);
        assert ls'[..|ls'| - 1] == ls[..|ls| - 1];
        if |ls| > 1 {
          assert Join(ls) == Join(ls[..|ls| - 1]) + [Newline] + ls[|ls| - 1];
        }
      }
    }
  }

  /** The other direction: splitting joined newline-free lines gives the lines back. */
  lemma {:induction false} LinesJoin(ls: seq<seq<int>>)
    requires |ls| >= 1 && forall i :: 0 <= i < |ls| ==> Newline !in ls[i]
    ensures Lines(Join(ls)) == ls
    decreases |ls|
  {
    var last := ls[|ls| - 1];
    if |ls| == 1 {
      SingleLine(last);
    } else {
      var init := ls[..|ls| - 1];
      assert forall i :: 0 <= i < |init| ==> init[i] == ls[i];
      LinesJoin(init);
      LinesJoinLast(ls);
    }
  }

  /** One newline and a newline-free line after joined lines add that line. */
  lemma LinesJoinLast(ls: seq<seq<int>>)
    requires |ls| >= 2 && Lines(Join(ls[..|ls| - 1])) == ls[..|ls| - 1] && Newline !in ls[|ls| - 1]
    ensures Lines(Join(ls)) == ls
  {
    var init, last := ls[..|ls| - 1], ls[|ls| - 1];
    var joined := Join(init);
    LinesAfterNewline(joined);
    LinesThenLine(joined + [Newline], ls);
    JoinSnoc(ls);
  }

  /** Newline-free codepoints after text whose last line is empty become its last line. */
  lemma LinesThenLine(front: seq<int>, ls: seq<seq<int>>)
    requires |ls| >= 1 && Lines(front) == ls[..|ls| - 1] + [[]] && Newline !in ls[|ls| - 1]
    ensures Lines(front + ls[|ls| - 1]) == ls
  {
    var init, last := ls[..|ls| - 1], ls[|ls| - 1];
    LinesExtend(front, last);
    ReplaceEmptyLast(init, last);
    assert ls == init + [last];
  }

  /** Joining at least two lines puts a newline between the join of the others and the last. */
  lemma JoinSnoc(ls: seq<seq<int>>)
    requires |ls| >= 2
    ensures Join(ls) == (Join(ls[..|ls| - 1]) + [Newline]) + ls[|ls| - 1]
  {
  }

  /** Extending the empty last line by `last` makes `last` the last line. */
  lemma ReplaceEmptyLast(init: seq<seq<int>>, last: seq<int>)
    ensures var ls := init + [[]]; ls[..|ls| - 1] + [ls[|ls| - 1] + last] == init + [last]
  {
    var ls := init + [[]];
    assert ls[..|ls| - 1] == init;
    assert [] + last == last;
  }

  /** A newline after `cps` starts one more, empty line. */
  lemma LinesAfterNewline(cps: seq<int>)
    ensures Lines(cps + [Newline]) == Lines(cps) + [[]]
  {
    assert (cps + [Newline])[..|cps|] == cps;
  }

  /** Newline-free codepoints after `cps` extend its last line. */
  lemma {:induction false} LinesExtend(cps: seq<int>, more: seq<int>)
    requires Newline !in more
    ensures var ls := Lines(cps);
      Lines(cps + more) == ls[..|ls| - 1] + [ls[|ls| - 1] + more]
    decreases |more|
  {
    var ls := Lines(cps);
    var k := |ls| - 1;
    if more == [] {
      assert cps + more == cps;
      ExtendLastByNothing(ls);
    } else {
      var init := more[..|more| - 1];
      var c := more[|more| - 1];
      assert more == init + [c] && c != Newline && Newline !in init;
      LinesExtend(cps, init);
      assert cps + more == (cps + init) + [c];
      LinesExtendStep(cps + more, cps + init, c, ls, init);
    }
  }

  /**
   * One more letter `c` after `prefix`, whose lines are `ls` with the last
   * one extended by `init`, extends that last line by `init + [c]`.
   */
  lemma LinesExtendStep(whole: seq<int>, prefix: seq<int>, c: int, ls: seq<seq<int>>, init: seq<int>)
    requires whole == prefix + [c] && c != Newline && |ls| >= 1
    requires Lines(prefix) == ls[..|ls| - 1] + [ls[|ls| - 1] + init]
    ensures Lines(whole) == ls[..|ls| - 1] + [ls[|ls| - 1] + (init + [c])]
  {
    LinesSnocLetter(prefix, c);
    ExtendLast(ls, init, c);
  }

  /** Extending the last line by nothing changes nothing. */
  lemma ExtendLastByNothing(ls: seq<seq<int>>)
    requires |ls| >= 1
    ensures ls[..|ls| - 1] + [ls[|ls| - 1] + []] == ls
  {
    assert ls[|ls| - 1] + [] == ls[|ls| - 1];
  }

  /** Lines after one more non-newline codepoint: it joins the last line. */
  lemma LinesSnocLetter(cps: seq<int>, c: int)
    requires c != Newline
    ensures var ls := Lines(cps);
      Lines(cps + [c]) == ls[..|ls| - 1] + [ls[|ls| - 1] + [c]]
  {
    assert (cps + [c])[..|cps|] == cps;
  }

  /** Extending the last line by `init`, then by `c`, extends it by `init + [c]`. */
  lemma ExtendLast(ls: seq<seq<int>>, init: seq<int>, c: int)
    requires |ls| >= 1
    ensures var k := |ls| - 1; var li := ls[..k] + [ls[k] + init];
      li[..|li| - 1] + [li[|li| - 1] + [c]] == ls[..k] + [ls[k] + (init + [c])]
  {
    var k := |ls| - 1;
    var li := ls[..k] + [ls[k] + init];
    assert |li| == k + 1 && li[..k] == ls[..k] && li[k] == ls[k] + init;
    assert (ls[k] + init) + [c] == ls[k] + (init + [c]);
  }

  /** There is one line more than there are newlines. */
  lemma {:induction false} LineCount(cps: seq<int>)
    ensures |Lines(cps)| == multiset(cps)[Newline] + 1
    decreases |cps|
  {
    if cps != [] {
      var init := cps[..|cps| - 1];
      LineCount(init);
      assert cps == init + [cps[|cps| - 1]];
      assert multiset(cps) == multiset(init) + multiset{cps[|cps| - 1]};
    }
  }

  // ---------------------------------------------------------------------------
  // Measurement

  /** What `MeasureTextEx` needs of the font: a found-or-sentinel slot is always a glyph, and a non-zero base size. */
  predicate Measurable(font: Font) {
    NotFound < font.charsCount <= |font.chars| && font.charsCount <= |font.recs| && font.baseSize != 0
  }

  /** The horizontal advance of glyph `index`: `advanceX`, or rectangle width plus `offsetX` when it is 0. */
  function Advance(font: Font, index: int): int
    requires 0 <= index < |font.chars| && index < |font.recs|
  {
    if font.chars[index].advanceX != 0 then font.chars[index].advanceX
    else font.recs[index].width + font.chars[index].offsetX
  }

  /** The advance of the glyph a codepoint is drawn with. */
  function CodepointAdvance(font: Font, c: int): int
    requires Measurable(font)
  {
    Advance(font, GlyphSlot(font, c))
  }

  /** The unscaled width of one line: the sum of its advances. */
  function LineWidth(font: Font, line: seq<int>): int
    requires Measurable(font)
    decreases |line|
  {
    if line == [] then 0 else LineWidth(font, line[..|line| - 1]) + CodepointAdvance(font, line[|line| - 1])
  }

  /** The widest of the lines, and 0 when there are none. */
  function MaxWidth(font: Font, ls: seq<seq<int>>): int
    requires Measurable(font)
    decreases |ls|
  {
    if ls == [] then 0
    else
      var w := MaxWidth(font, ls[..|ls| - 1]);
      var l := LineWidth(font, ls[|ls| - 1]);
      if w < l then l else w
  }

  /** `MaxWidth` is never below 0 or below any line's width, and is 0 or some line's width. */
  lemma {:induction false} MaxWidthIsMax(font: Font, ls: seq<seq<int>>)
    requires Measurable(font)
    ensures var w := MaxWidth(font, ls);
      w >= 0 && (forall i :: 0 <= i < |ls| ==> LineWidth(font, ls[i]) <= w)
      && (w == 0 || exists i :: 0 <= i < |ls| && LineWidth(font, ls[i]) == w)
    decreases |ls|
  {
    if ls != [] {
      var init := ls[..|ls| - 1];
      MaxWidthIsMax(font, init);
      assert forall i :: 0 <= i < |init| ==> init[i] == ls[i];
    }
  }

  /** The most codepoints on one line, and 0 when there are no lines. */
  function MaxLen(ls: seq<seq<int>>): int
    decreases |ls|
  {
    if ls == [] then 0
    else
      var n := MaxLen(ls[..|ls| - 1]);
      var l := |ls[|ls| - 1]|;
      if n < l then l else n
  }

  /** `MaxLen` is never below 0 or below any line's length, and is 0 or some line's length. */
  lemma {:induction false} MaxLenIsMax(ls: seq<seq<int>>)
    ensures var n := MaxLen(ls);
      n >= 0 && (forall i :: 0 <= i < |ls| ==> |ls[i]| <= n)
      && (n == 0 || exists i :: 0 <= i < |ls| && |ls[i]| == n)
    decreases |ls|
  {
    if ls != [] {
      var init := ls[..|ls| - 1];
      MaxLenIsMax(init);
      assert forall i :: 0 <= i < |init| ==> init[i] == ls[i];
    }
  }

  /** `Vector2`. */
  datatype Vector2 = Vector2(x: real, y: real)

  /** The unscaled height of `lines` lines: one base size, and one and a half more per newline. */
  function Height(base: real, lines: int): real {
    base + ((lines - 1) as real) * (base * 1.5)
  }

  /** A single line is one base size high. */
  lemma HeightOne(base: real)
    ensures Height(base, 1) == base
  {
    assert ((1 - 1) as real) * (base * 1.5) == 0.0;
  }

  /** One newline more adds one and a half base sizes to the height. */
  lemma HeightStep(base: real, lines: int)
    ensures Height(base, lines + 1) == Height(base, lines) + base * 1.5
  {
    var k := base * 1.5;
    assert ((lines + 1 - 1) as real) * k == ((lines - 1) as real) * k + 1.0 * k;
  }

  /**
   * The size of a text with codepoints `cps`: the widest line scaled by
   * `fontSize/baseSize` plus `spacing` between the codepoints of the longest
   * line; `Height` of the lines, scaled alike.
   */
  function Measured(font: Font, cps: seq<int>, fontSize: real, spacing: real): Vector2
    requires Measurable(font)
  {
    var ls := Lines(cps);
    Scaled(MaxWidth(font, ls), MaxLen(ls), |ls|, font.baseSize, fontSize, spacing)
  }

  /** The vector of a text `widest` units wide, `longest` codepoints long and `lines` lines high. */
  function Scaled(widest: int, longest: int, lines: int, baseSize: int, fontSize: real, spacing: real): Vector2
    requires baseSize != 0
  {
    var scale := fontSize / (baseSize as real);
    Vector2((widest as real) * scale + ((longest - 1) as real) * spacing, Height(baseSize as real, lines) * scale)
  }

  /**
   * The five counters of the C loop after a prefix of codepoints: the width
   * of the current line, the widest finished line, the length of the current
   * line, the longest line so far and the number of lines.
   */
  datatype Tally = Tally(width: int, widest: int, count: int, longest: int, lines: int)

  /** The counters after `cps`, one codepoint at a time as the C loop updates them. */
  function Tallied(font: Font, cps: seq<int>): Tally
    requires Measurable(font)
    decreases |cps|
  {
    if cps == [] then Tally(0, 0, 0, 0, 1) else Tick(font, Tallied(font, cps[..|cps| - 1]), cps[|cps| - 1])
  }

  /** `Tallied` one codepoint at a time. */
  lemma TalliedSnoc(font: Font, cps: seq<int>, c: int)
    requires Measurable(font)
    ensures Tallied(font, cps + [c]) == Tick(font, Tallied(font, cps), c)
  {
    assert (cps + [c])[..|cps|] == cps;
  }

  /** The counters after one codepoint more: a newline closes the line, anything else widens it. */
  function Tick(font: Font, t: Tally, c: int): Tally
    requires Measurable(font)
  {
    if c != Newline then
      var n := t.count + 1;
      Tally(t.width + CodepointAdvance(font, c), t.widest, n, if t.longest < n then n else t.longest, t.lines)
    else
      Tally(0, if t.widest < t.width then t.width else t.widest, 0, t.longest, t.lines + 1)
  }

  /** What the counters mean in terms of the lines of the prefix. */
  ghost predicate MeasureState(font: Font, done: seq<int>, t: Tally)
    requires Measurable(font)
  {
    var ls := Lines(done);
    t.width == LineWidth(font, ls[|ls| - 1]) && t.widest == MaxWidth(font, ls[..|ls| - 1])
    && t.count == |ls[|ls| - 1]| && t.longest == MaxLen(ls) && t.lines == |ls|
  }

  /** One codepoint more keeps the meaning of the counters. */
  lemma MeasureStep(font: Font, cps: seq<int>)
    requires Measurable(font) && cps != []
    requires MeasureState(font, cps[..|cps| - 1], Tallied(font, cps[..|cps| - 1]))
    ensures MeasureState(font, cps, Tallied(font, cps))
  {
    if cps[|cps| - 1] == Newline {
      NewlineStep(font, cps);
    } else {
      LetterStep(font, cps);
    }
  }

  /** A newline closes the current line: it joins the finished ones and a new, empty line starts. */
  lemma NewlineStep(font: Font, cps: seq<int>)
    requires Measurable(font) && cps != [] && cps[|cps| - 1] == Newline
    requires MeasureState(font, cps[..|cps| - 1], Tallied(font, cps[..|cps| - 1]))
    ensures MeasureState(font, cps, Tallied(font, cps))
  {
    var ls := Lines(cps[..|cps| - 1]);
    var ls' := Lines(cps);
    assert ls' == ls + [[]];
    assert ls'[..|ls'| - 1] == ls;
  }

  /** Any other codepoint extends the current line. */
  lemma LetterStep(font: Font, cps: seq<int>)
    requires Measurable(font) && cps != [] && cps[|cps| - 1] != Newline
    requires MeasureState(font, cps[..|cps| - 1], Tallied(font, cps[..|cps| - 1]))
    ensures MeasureState(font, cps, Tallied(font, cps))
  {
    var c := cps[|cps| - 1];
    var ls := Lines(cps[..|cps| - 1]);
    var k := |ls| - 1;
    LetterLines(cps);
    LineWidthSnoc(font, ls[k], c);
  }

  /** The lines after a codepoint other than a newline: the same lines, the last one longer by it. */
  lemma LetterLines(cps: seq<int>)
    requires cps != [] && cps[|cps| - 1] != Newline
    ensures var ls := Lines(cps[..|cps| - 1]); var ls' := Lines(cps);
      |ls'| == |ls| && ls'[..|ls| - 1] == ls[..|ls| - 1] && ls'[|ls| - 1] == ls[|ls| - 1] + [cps[|cps| - 1]]
  {
  }

  /** A line one codepoint longer is wider by that codepoint's advance. */
  lemma LineWidthSnoc(font: Font, line: seq<int>, c: int)
    requires Measurable(font)
    ensures LineWidth(font, line + [c]) == LineWidth(font, line) + CodepointAdvance(font, c)
  {
    assert (line + [c])[..|line|] == line;
  }

  /** The counters describe the lines of every prefix. */
  lemma {:induction false} TalliedLines(font: Font, cps: seq<int>)
    requires Measurable(font)
    ensures MeasureState(font, cps, Tallied(font, cps))
    decreases |cps|
  {
    if cps != [] {
      TalliedLines(font, cps[..|cps| - 1]);
      MeasureStep(font, cps);
    }
  }

  /** After the last codepoint, folding the current line into the widest gives the widest line. */
  lemma TalliedMeasure(font: Font, cps: seq<int>)
    requires Measurable(font)
    ensures var t := Tallied(font, cps); var ls := Lines(cps);
      MaxWidth(font, ls) == (if t.widest < t.width then t.width else t.widest)
      && MaxLen(ls) == t.longest && |ls| == t.lines
  {
    TalliedLines(font, cps);
    var ls := Lines(cps);
    assert ls == ls[..|ls| - 1] + [ls[|ls| - 1]];
  }

  /** The measurement of a text from the counters after its last codepoint. */
  lemma MeasuredFromTally(font: Font, cps: seq<int>, fontSize: real, spacing: real, widest: int, t: Tally)
    requires Measurable(font)
    requires t == Tallied(font, cps) && widest == (if t.widest < t.width then t.width else t.widest)
    ensures Measured(font, cps, fontSize, spacing) == Scaled(widest, t.longest, t.lines, font.baseSize, fontSize, spacing)
  {
    TalliedMeasure(font, cps);
  }

  /** `Scaled` is what the C code computes from the counters, the accumulated height and the scale factor. */
  lemma ScaledAsComputed(widest: int, longest: int, lines: int, baseSize: int, fontSize: real, spacing: real,
                         textHeight: real, scaleFactor: real)
    requires baseSize != 0 && textHeight == Height(baseSize as real, lines) && scaleFactor == fontSize / (baseSize as real)
    ensures Scaled(widest, longest, lines, baseSize, fontSize, spacing)
      == Vector2((widest as real) * scaleFactor + ((longest - 1) as real) * spacing, textHeight * scaleFactor)
  {
  }

  /** What `MeasureTextEx` returns once the walk has visited all of `cps`. */
  lemma MeasureResult(font: Font, cps: seq<int>, fontSize: real, spacing: real, width: int, widest: int, count: int,
                      longest: int, lines: int, finalWidest: int, textHeight: real, scaleFactor: real)
    requires Measurable(font) && Tallied(font, cps) == Tally(width, widest, count, longest, lines)
    requires finalWidest == (if widest < width then width else widest)
    requires textHeight == Height(font.baseSize as real, lines) && scaleFactor == fontSize / (font.baseSize as real)
    ensures Measured(font, cps, fontSize, spacing)
      == Vector2((finalWidest as real) * scaleFactor + ((longest - 1) as real) * spacing, textHeight * scaleFactor)
  {
    MeasuredFromTally(font, cps, fontSize, spacing, finalWidest, Tally(width, widest, count, longest, lines));
    ScaledAsComputed(finalWidest, longest, lines, font.baseSize, fontSize, spacing, textHeight, scaleFactor);
  }

  /**
   * The walk at byte `here`: the codepoint decoded there, then the walk from
   * `there`, the decoded length further on, or 1 further after a `'?'`.
   */
  lemma WalkStep(text: seq<byte>, here: int, there: int, done: seq<int>, letter: int)
    requires Utf8.NoNul(text) && 0 <= here < |text|
    requires letter == Utf8.GetNextCodepoint(text[here..]).code
    requires there == here + if letter == Utf8.Replacement then 1 else Utf8.GetNextCodepoint(text[here..]).bytesProcessed
    ensures here < there <= |text|
    ensures done + Codepoints(text[here..]) == (done + [letter]) + Codepoints(text[there..])
  {
    var rest := text[here..];
    Utf8.StepWithinString(rest);
    assert rest[Utf8.Step(rest)..] == text[there..];
  }

  /**
   * `MeasureTextEx`. The C code keeps the widths in floats; the advances
   * are integers, so the model sums them as integers and scales with reals.
   */
  method MeasureTextEx(font: Font, text: seq<byte>, fontSize: real, spacing: real) returns (v: Vector2)
    requires Measurable(font) && Utf8.NoNul(text)
    ensures v == Measured(font, Codepoints(text), fontSize, spacing)
  {
    var len := |text|;
    var tempLen := 0;
    var lenCounter := 0;
    var textWidth := 0;
    var tempTextWidth := 0;
    var textHeight := font.baseSize as real;
    var scaleFactor := fontSize / (font.baseSize as real);
    ghost var done: seq<int> := [];
    ghost var lines := 1;
    var i := 0;
    assert text[0..] == text;
    HeightOne(font.baseSize as real);
    while i < len
      invariant 0 <= i <= len
      invariant Codepoints(text) == done + Codepoints(text[i..])
      invariant Tallied(font, done) == Tally(textWidth, tempTextWidth, lenCounter, tempLen, lines)
      invariant textHeight == Height(font.baseSize as real, lines)
      invariant tempLen >= 0
    {
      lenCounter := lenCounter + 1;
      var decoded := Utf8.GetNextCodepoint(text[i..]);
      var letter := decoded.code;
      var next := decoded.bytesProcessed;
      if letter == 0x3F {
        next := 1;
      }
      ghost var here := i;
      i := i + next - 1;
      textWidth, tempTextWidth, lenCounter, tempLen, textHeight, lines :=
        CountCodepoint(font, letter, textWidth, tempTextWidth, lenCounter, tempLen, textHeight, lines);
      i := i + 1;
      WalkStep(text, here, i, done, letter);
      TalliedSnoc(font, done, letter);
      done := done + [letter];
    }
    assert text[len..] == [];
    assert Codepoints(text) == done;
    ghost var widest := tempTextWidth;
    if tempTextWidth < textWidth {
      tempTextWidth := textWidth;
    }
    MeasureResult(font, done, fontSize, spacing, textWidth, widest, lenCounter, tempLen, lines, tempTextWidth, textHeight, scaleFactor);
    v := Vector2((tempTextWidth as real) * scaleFactor + ((tempLen - 1) as real) * spacing, textHeight * scaleFactor);
  }

  /** Codepoints without a newline make one line. */
  lemma {:induction false} SingleLine(cps: seq<int>)
    requires Newline !in cps
    ensures Lines(cps) == [cps]
    decreases |cps|
  {
    if cps != [] {
      var init := cps[..|cps| - 1];
      assert Newline !in init by {
        assert forall x :: x in init ==> x in cps;
      }
      assert cps[|cps| - 1] in cps;
      SingleLine(init);
      assert init + [cps[|cps| - 1]] == cps;
    }
  }

  /** A line of glyphs that all advance by `a` is `a` times its length wide. */
  lemma {:induction false} UniformWidth(font: Font, cps: seq<int>, a: int)
    requires Measurable(font)
    requires forall i :: 0 <= i < |cps| ==> CodepointAdvance(font, cps[i]) == a
    ensures LineWidth(font, cps) == |cps| * a
    decreases |cps|
  {
    if cps != [] {
      var init := cps[..|cps| - 1];
      UniformWidth(font, init, a);
      MulSucc(|init|, a);
    }
  }

  /** `(n + 1) * a == n * a + a`. */
  lemma MulSucc(n: int, a: int)
    ensures (n + 1) * a == n * a + a
  {
  }

  /**
   * The rest of the C loop body once a codepoint is decoded: look up its
   * glyph, then widen the line (the counter `lenCounter` has already been
   * incremented) or, at a newline, close it and add a line of height.
   */
  method CountCodepoint(font: Font, letter: int, textWidth: int, tempTextWidth: int, lenCounter: int, tempLen: int,
                        textHeight: real, ghost lines: int)
    returns (width: int, widest: int, count: int, longest: int, height: real, ghost lines': int)
    requires Measurable(font) && tempLen >= 0
    ensures Tally(width, widest, count, longest, lines') == Tick(font, Tally(textWidth, tempTextWidth, lenCounter - 1, tempLen, lines), letter)
    ensures textHeight == Height(font.baseSize as real, lines) ==> height == Height(font.baseSize as real, lines')
  {
    width, widest, count, longest, height, lines' := textWidth, tempTextWidth, lenCounter, tempLen, textHeight, lines;
    var index := GetGlyphIndex(font, letter);
    if letter != Newline {
      if font.chars[index].advanceX != 0 {
        width := width + font.chars[index].advanceX;
      } else {
        width := width + (font.recs[index].width + font.chars[index].offsetX);
      }
    } else {
      if widest < width {
        widest := width;
      }
      count := 0;
      width := 0;
      HeightStep(font.baseSize as real, lines);
      height := height + (font.baseSize as real * 1.5);
      lines' := lines + 1;
    }
    if longest < count {
      longest := count;
    }
  }

  /**
   * A newline-free text in a font whose glyphs all advance by `a > 0` is one
   * line, `|cps| * a` wide and `|cps|` codepoints long.
   */
  lemma UniformLine(font: Font, cps: seq<int>, a: int)
    requires Measurable(font) && a > 0 && Newline !in cps
    requires forall i :: 0 <= i < font.charsCount ==> font.chars[i].advanceX == a
    ensures Lines(cps) == [cps]
    ensures MaxWidth(font, Lines(cps)) == |cps| * a && MaxLen(Lines(cps)) == |cps|
  {
    UniformAdvance(font, a);
    SingleLine(cps);
    UniformWidth(font, cps, a);
    NonNegMul(|cps|, a);
    assert [cps][..0] == [];
  }

  /** A product of two non-negative numbers is non-negative. */
  lemma NonNegMul(n: int, a: int)
    requires n >= 0 && a >= 0
    ensures n * a >= 0
  {
  }

  /**
   * Measured at its own base size, a line of `n` codepoints in a font whose
   * glyphs all advance by `a` is `n * a` plus `n - 1` spacings wide and one
   * base size high.
   */
  lemma MeasureOneLine(font: Font, cps: seq<int>, a: int, spacing: real)
    requires Measurable(font) && a > 0 && Newline !in cps
    requires forall i :: 0 <= i < font.charsCount ==> font.chars[i].advanceX == a
    ensures Measured(font, cps, font.baseSize as real, spacing)
      == Vector2(((|cps| * a) as real) + ((|cps| - 1) as real) * spacing, font.baseSize as real)
  {
    var w := |cps| * a;
    assert Lines(cps) == [cps] && MaxWidth(font, [cps]) == w && MaxLen([cps]) == |cps| by {
      UniformLine(font, cps, a);
    }
    OneLineMeasured(font, cps, w, spacing);
  }

  /** A text that is one line `w` wide, measured at its base size. */
  lemma OneLineMeasured(font: Font, cps: seq<int>, w: int, spacing: real)
    requires Measurable(font) && Lines(cps) == [cps]
    requires MaxWidth(font, [cps]) == w && MaxLen([cps]) == |cps|
    ensures Measured(font, cps, font.baseSize as real, spacing)
      == Vector2((w as real) + ((|cps| - 1) as real) * spacing, font.baseSize as real)
  {
    ScaledAtBaseSize(w, |cps|, font.baseSize, spacing);
  }

  /** Five codepoints of a font whose glyphs all advance by 20, spaced by 2 at the base size, measure 108 wide. */
  lemma MeasureFiveGlyphs(font: Font, cps: seq<int>)
    requires Measurable(font) && |cps| == 5 && Newline !in cps
    requires forall i :: 0 <= i < font.charsCount ==> font.chars[i].advanceX == 20
    ensures Measured(font, cps, font.baseSize as real, 2.0) == Vector2(108.0, font.baseSize as real)
  {
    MeasureOneLine(font, cps, 20, 2.0);
  }

  /** When every glyph advances by the same non-zero `a`, so does every codepoint, found or not. */
  lemma UniformAdvance(font: Font, a: int)
    requires Measurable(font) && a != 0
    requires forall i :: 0 <= i < font.charsCount ==> font.chars[i].advanceX == a
    ensures forall c :: CodepointAdvance(font, c) == a
  {
    forall c ensures CodepointAdvance(font, c) == a {
      assert 0 <= GlyphSlot(font, c) < font.charsCount;
    }
  }

  /** At `fontSize == baseSize` nothing is scaled, and one line is one base size high. */
  lemma ScaledAtBaseSize(widest: int, longest: int, baseSize: int, spacing: real)
    requires baseSize != 0
    ensures Scaled(widest, longest, 1, baseSize, baseSize as real, spacing)
      == Vector2((widest as real) + ((longest - 1) as real) * spacing, baseSize as real)
  {
    var b := baseSize as real;
    assert b / b == 1.0;
  }

  // ---------------------------------------------------------------------------
  // LoadFontData loops

  /** `BITMAP_ALPHA_THRESHOLD`. */
  const BitmapAlphaThreshold := 80

  /** A glyph byte after binarisation: 0 below the threshold, 255 from it on. */
  function Binary(b: byte): (r: byte)
    ensures r == 0 || r == 255
    ensures r == 255 <==> b >= BitmapAlphaThreshold
  {
    if b < BitmapAlphaThreshold then 0 else 255
  }

  /** Binarising twice changes nothing more. */
  lemma BinaryIdempotent(b: byte)
    ensures Binary(Binary(b)) == Binary(b)
  {
  }

  /** The FONT_BITMAP loop: every byte of the `chw*chh` glyph bitmap becomes 0 or 255, in place. */
  method Binarize(data: array<byte>, count: int)
    requires 0 <= count <= data.Length
    modifies data
    ensures forall p :: 0 <= p < count ==> data[p] == Binary(old(data[p]))
    ensures forall p :: count <= p < data.Length ==> data[p] == old(data[p])
  {
    var p := 0;
    while p < count
      invariant 0 <= p <= count
      invariant forall q :: 0 <= q < p ==> data[q] == Binary(old(data[q]))
      invariant forall q :: p <= q < data.Length ==> data[q] == old(data[q])
    {
      if data[p] < BitmapAlphaThreshold {
        data[p] := 0;
      } else {
        data[p] := 255;
      }
      p := p + 1;
    }
  }

  /** The codepoint list `LoadFontData` makes when none is given: `charsCount` (or 95) codepoints from 32 up. */
  method DefaultCodepoints(charsCount: int) returns (fontChars: seq<int>)
    ensures |fontChars| == GlyphCount(charsCount)
    ensures forall i :: 0 <= i < |fontChars| ==> fontChars[i] == i + 32
  {
    var n := GlyphCount(charsCount);
    var list := new int[n];
    var i := 0;
    while i < n
      invariant 0 <= i <= n
      invariant forall j :: 0 <= j < i ==> list[j] == j + 32
    {
      list[i] := i + 32;
      i := i + 1;
    }
    fontChars := list[..];
  }

  /** The default list of 95 codepoints is exactly printable ASCII, space to tilde. */
  lemma DefaultIsPrintableAscii(fontChars: seq<int>)
    requires |fontChars| == GlyphCount(0)
    requires forall i :: 0 <= i < |fontChars| ==> fontChars[i] == i + 32
    ensures forall c :: c in fontChars <==> 32 <= c <= 126
  {
    forall c | 32 <= c <= 126 ensures c in fontChars {
      assert fontChars[c - 32] == c;
    }
  }
}
