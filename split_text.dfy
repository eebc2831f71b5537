/** splitTextIntoLines (utils/splitTextIntoLines.ts): greedy line filling
    for a text box. The text is split at runs of white space; words are
    appended to the current line while the line, the word and one trailing
    space fit in the word's character limit, and a word longer than its
    limit is cut into pieces of exactly that many characters. Each word's
    limit is given as a positive integer function of the word (in the source
    it is computed from the font size, the box width and whether the word is
    alphanumeric). Lengths count characters. */
module TextLines {

  /** A character limit; with 0 the cutting loop would never shorten a word. */
  type Positive = n: int | n >= 1 witness 1

  /** JavaScript's white space and line terminators: what `\s` matches and
      what `trim` removes. */
  predicate IsSpace(c: char) {
    || c == '\t' || c == '\n' || c == '\U{000B}' || c == '\U{000C}' || c == '\r' || c == ' '
    || c == '\U{00A0}' || c == '\U{1680}' || ('\U{2000}' <= c <= '\U{200A}')
    || c == '\U{2028}' || c == '\U{2029}' || c == '\U{202F}' || c == '\U{205F}'
    || c == '\U{3000}' || c == '\U{FEFF}'
  }

  predicate NoSpace(s: string) {
    forall i :: 0 <= i < |s| ==> !IsSpace(s[i])
  }

  /** Neither the first nor the last character is white space. */
  predicate Trimmed(s: string) {
    s == [] || (!IsSpace(s[0]) && !IsSpace(s[|s| - 1]))
  }

  /** The longest prefix of `s` without white space. */
  function WordAt(s: string): (w: string)
    ensures |w| <= |s| && w == s[..|w|] && NoSpace(w)
    ensures |w| < |s| ==> IsSpace(s[|w|])
  {
    if s == [] || IsSpace(s[0]) then [] else [s[0]] + WordAt(s[1..])
  }

  /** `s` without its leading white space. */
  function TrimStart(s: string): (r: string)
    ensures |r| <= |s| && r == s[|s| - |r|..]
    ensures r == [] || !IsSpace(r[0])
    ensures forall i :: 0 <= i < |s| - |r| ==> IsSpace(s[i])
  {
    if s != [] && IsSpace(s[0]) then TrimStart(s[1..]) else s
  }

  /** `s` without its trailing white space. */
  function TrimEnd(s: string): (r: string)
    ensures |r| <= |s| && r == s[..|r|]
    ensures r == [] || !IsSpace(r[|r| - 1])
    ensures forall i :: |r| <= i < |s| ==> IsSpace(s[i])
  {
    if s != [] && IsSpace(s[|s| - 1]) then TrimEnd(s[..|s| - 1]) else s
  }

  /** `String.prototype.trim` */
  function Trim(s: string): string {
    TrimEnd(TrimStart(s))
  }

  /** `text.split(/\s+/)`: the pieces between maximal runs of white space;
      a leading or trailing run gives an empty first or last piece. */
  function Split(text: string): (words: seq<string>)
    ensures |words| >= 1
    ensures forall k :: 0 <= k < |words| ==> NoSpace(words[k])
    decreases |text|
  {
    var w := WordAt(text);
    if |w| == |text| then [w]
    else
      var rest := TrimStart(text[|w|..]);
      assert |rest| < |text| - |w| by {
        assert IsSpace(text[|w|..][0]);
      }
      [w] + Split(rest)
  }

  /** The characters of the lines, one after another. */
  function Concat(lines: seq<string>): string {
    if lines == [] then [] else Concat(lines[..|lines| - 1]) + lines[|lines| - 1]
  }

  /** `s` with every white-space character removed. */
  function Strip(s: string): string {
    if s == [] then [] else (if IsSpace(s[0]) then [] else [s[0]]) + Strip(s[1..])
  }

  /** The pieces the cutting loop emits for a word longer than `limit`. */
  function Chunks(part: string, limit: Positive): (r: seq<string>)
    ensures forall i :: 0 <= i < |r| ==> |r[i]| == limit
    decreases |part|
  {
    if |part| > limit then [part[..limit]] + Chunks(part[limit..], limit) else []
  }

  /** What the cutting loop leaves of the word: it starts the next line. */
  function Remainder(part: string, limit: Positive): (r: string)
    ensures |r| <= limit
    decreases |part|
  {
    if |part| > limit then Remainder(part[limit..], limit) else part
  }

  /** One turn of the cutting loop moves the first piece to the lines. */
  lemma CutOnePiece(lines: seq<string>, part: string, limit: Positive)
    requires |part| > limit
    ensures lines + Chunks(part, limit) == (lines + [part[..limit]]) + Chunks(part[limit..], limit)
    ensures Remainder(part, limit) == Remainder(part[limit..], limit)
  {
  }

  /** When the loop stops, no piece is left to cut. */
  lemma NothingLeftToCut(lines: seq<string>, part: string, limit: Positive)
    requires |part| <= limit
    ensures lines + Chunks(part, limit) == lines && Remainder(part, limit) == part
  {
  }

  /** The lines emitted so far and the line being filled (which carries a
      trailing space after each word). */
  datatype Wrap = Wrap(lines: seq<string>, current: string)

  /** Whether the line being filled is pushed before `word` is placed. The
      code as written pushes it unconditionally when the word fits its limit
      but not the line, and only if it is non-empty when the word is cut;
      the corrected flush pushes it only if it has a character other than
      white space. */
  predicate Flushes(current: string, forced: bool, skipBlank: bool) {
    if skipBlank then |Trim(current)| > 0 else !forced || |current| > 0
  }

  function Flush(st: Wrap, forced: bool, skipBlank: bool): seq<string> {
    if Flushes(st.current, forced, skipBlank) then st.lines + [Trim(st.current)] else st.lines
  }

  /** One turn of the loop over words. `skipBlank` false is the code as
      written, true the corrected flush. */
  function Place(st: Wrap, word: string, limit: Positive, skipBlank: bool): Wrap {
    if |word| > limit then
      Wrap(Flush(st, true, skipBlank) + Chunks(word, limit), Remainder(word, limit) + " ")
    else if |st.current + word + " "| > limit then
      Wrap(Flush(st, false, skipBlank), word + " ")
    else
      Wrap(st.lines, st.current + word + " ")
  }

  lemma PlaceForced(st: Wrap, word: string, limit: Positive, skipBlank: bool)
    requires |word| > limit
    ensures Place(st, word, limit, skipBlank) ==
      Wrap(Flush(st, true, skipBlank) + Chunks(word, limit), Remainder(word, limit) + " ")
  {
  }

  lemma PlacePush(st: Wrap, word: string, limit: Positive, skipBlank: bool)
    requires |word| <= limit < |st.current + word + " "|
    ensures Place(st, word, limit, skipBlank) == Wrap(Flush(st, false, skipBlank), word + " ")
  {
  }

  lemma PlaceAppend(st: Wrap, word: string, limit: Positive, skipBlank: bool)
    requires |st.current + word + " "| <= limit
    ensures Place(st, word, limit, skipBlank) == Wrap(st.lines, st.current + word + " ")
  {
  }

  /** The loop over `words`, each with its own limit. */
  function PlaceAll(words: seq<string>, limitOf: string -> Positive, skipBlank: bool): Wrap {
    if words == [] then Wrap([], "")
    else
      var last := words[|words| - 1];
      Place(PlaceAll(words[..|words| - 1], limitOf, skipBlank), last, limitOf(last), skipBlank)
  }

  /** After the loop: the last line is added unless it is only white space. */
  function Finish(st: Wrap): seq<string> {
    if |Trim(st.current)| > 0 then st.lines + [Trim(st.current)] else st.lines
  }

  /** The lines `splitTextIntoLines` returns when `skipBlank` is false;
      with `skipBlank` true, the lines of the corrected flush. */
  function WrapText(text: string, limitOf: string -> Positive, skipBlank: bool): seq<string> {
    Finish(PlaceAll(Split(text), limitOf, skipBlank))
  }

  method SplitTextIntoLines(text: string, limitOf: string -> Positive) returns (lines: seq<string>)
    ensures lines == WrapText(text, limitOf, false)
  {
    var words := Split(text);
    lines := [];
    var currentLine := "";
    for n := 0 to |words|
      invariant Wrap(lines, currentLine) == PlaceAll(words[..n], limitOf, false)
    {
      var word := words[n];
      var maxCharsPerLine := limitOf(word);
      ghost var before := Wrap(lines, currentLine);
      assert PlaceAll(words[..n + 1], limitOf, false) == Place(before, word, maxCharsPerLine, false) by {
        assert words[..n + 1][..n] == words[..n];
      }
      if |word| > maxCharsPerLine {
        if |currentLine| > 0 {
          lines := lines + [Trim(currentLine)];
        }
        ghost var flushed := lines;
        var wordPart := word;
        while |wordPart| > maxCharsPerLine
          invariant lines + Chunks(wordPart, maxCharsPerLine) == flushed + Chunks(word, maxCharsPerLine)
          invariant Remainder(wordPart, maxCharsPerLine) == Remainder(word, maxCharsPerLine)
        {
          CutOnePiece(lines, wordPart, maxCharsPerLine);
          lines := lines + [wordPart[..maxCharsPerLine]];
          wordPart := wordPart[maxCharsPerLine..];
        }
        NothingLeftToCut(lines, wordPart, maxCharsPerLine);
        currentLine := wordPart + " ";
        PlaceForced(before, word, maxCharsPerLine, false);
      } else if |currentLine + word + " "| > maxCharsPerLine {
        PlacePush(before, word, maxCharsPerLine, false);
        lines := lines + [Trim(currentLine)];
        currentLine := word + " ";
      } else {
        PlaceAppend(before, word, maxCharsPerLine, false);
        currentLine := currentLine + word + " ";
      }
    }
    assert words[..|words|] == words;
    if |Trim(currentLine)| > 0 {
      lines := lines + [Trim(currentLine)];
    }
  }

  // ---- Strings: trimming, stripping, concatenating ----

  lemma TrimIsTrimmed(s: string)
    ensures Trimmed(Trim(s))
  {
    var t := TrimStart(s);
    var r := TrimEnd(t);
    if r != [] {
      assert r[0] == t[0];
    }
  }

  /** Trimming a line that ends in white space shortens it. */
  lemma TrimDropsTrailingSpace(s: string)
    requires s != [] && IsSpace(s[|s| - 1])
    ensures |Trim(s)| < |s|
  {
    var t := TrimStart(s);
    if t != [] {
      assert t[|t| - 1] == s[|s| - 1];
      assert TrimEnd(t) == TrimEnd(t[..|t| - 1]);
    }
  }

  lemma {:induction false} StripAppend(a: string, b: string)
    ensures Strip(a + b) == Strip(a) + Strip(b)
  {
    if a != [] {
      assert (a + b)[0] == a[0];
      assert (a + b)[1..] == a[1..] + b;
      StripAppend(a[1..], b);
    } else {
      assert a + b == b;
    }
  }

  lemma {:induction false} StripAllSpace(s: string)
    requires forall i :: 0 <= i < |s| ==> IsSpace(s[i])
    ensures Strip(s) == []
  {
    if s != [] {
      StripAllSpace(s[1..]);
    }
  }

  lemma {:induction false} StripNoSpace(s: string)
    requires NoSpace(s)
    ensures Strip(s) == s
  {
    if s != [] {
      StripNoSpace(s[1..]);
    }
  }

  lemma StripTrimStart(s: string)
    ensures Strip(TrimStart(s)) == Strip(s)
  {
    var t := TrimStart(s);
    assert s == s[..|s| - |t|] + t;
    StripAppend(s[..|s| - |t|], t);
    StripAllSpace(s[..|s| - |t|]);
  }

  lemma StripTrimEnd(s: string)
    ensures Strip(TrimEnd(s)) == Strip(s)
  {
    var r := TrimEnd(s);
    assert s == r + s[|r|..];
    StripAppend(r, s[|r|..]);
    StripAllSpace(s[|r|..]);
  }

  /** Trimming removes only white space. */
  lemma StripTrim(s: string)
    ensures Strip(Trim(s)) == Strip(s)
  {
    StripTrimStart(s);
    StripTrimEnd(TrimStart(s));
  }

  lemma {:induction false} ConcatAppend(a: seq<string>, b: seq<string>)
    ensures Concat(a + b) == Concat(a) + Concat(b)
    decreases |b|
  {
    if b == [] {
      assert a + b == a;
    } else {
      var front, last := b[..|b| - 1], b[|b| - 1];
      var ab := a + b;
      assert ab[..|ab| - 1] == a + front;
      assert Concat(ab) == Concat(a + front) + last;
      ConcatAppend(a, front);
      assert Concat(b) == Concat(front) + last;
      assert (Concat(a) + Concat(front)) + last == Concat(a) + (Concat(front) + last);
    }
  }

  /** The cutting loop loses no character: its pieces and what is left,
      put back together, are the word. */
  lemma {:induction false} ChunksRebuild(part: string, limit: Positive)
    ensures Concat(Chunks(part, limit)) + Remainder(part, limit) == part
    decreases |part|
  {
    if |part| > limit {
      var piece, rest := part[..limit], part[limit..];
      ChunksRebuild(rest, limit);
      CutOnePieceText(part, limit);
      assert part == piece + rest;
    } else {
      assert Chunks(part, limit) == [];
    }
  }

  /** The text of one cut: the first piece, then what the rest rebuilds. */
  lemma CutOnePieceText(part: string, limit: Positive)
    requires |part| > limit
    ensures Concat(Chunks(part, limit)) + Remainder(part, limit)
         == part[..limit] + (Concat(Chunks(part[limit..], limit)) + Remainder(part[limit..], limit))
  {
    var piece, rest := part[..limit], part[limit..];
    var pieces := Chunks(rest, limit);
    assert Chunks(part, limit) == [piece] + pieces;
    assert Remainder(part, limit) == Remainder(rest, limit);
    ConcatAppend([piece], pieces);
    ConcatSingle(piece);
    assert Concat(Chunks(part, limit)) == piece + Concat(pieces);
    SeqAssoc(piece, Concat(pieces), Remainder(rest, limit));
  }

  lemma SeqAssoc(a: string, b: string, c: string)
    ensures (a + b) + c == a + (b + c)
  {
  }

  lemma {:induction false} ChunksNoSpace(part: string, limit: Positive)
    requires NoSpace(part)
    ensures forall i :: 0 <= i < |Chunks(part, limit)| ==> NoSpace(Chunks(part, limit)[i])
    ensures NoSpace(Remainder(part, limit))
    decreases |part|
  {
    if |part| > limit {
      ChunksNoSpace(part[limit..], limit);
    }
  }

  lemma ConcatSingle(w: string)
    ensures Concat([w]) == w
  {
    assert [w][..0] == [];
  }

  /** Splitting drops only white space. */
  lemma {:induction false} SplitKeepsText(text: string)
    ensures Strip(Concat(Split(text))) == Strip(text)
    decreases |text|
  {
    var w := WordAt(text);
    StripNoSpace(w);
    ConcatSingle(w);
    if |w| < |text| {
      var gap := text[|w|..];
      var rest := TrimStart(gap);
      assert IsSpace(gap[0]);
      calc {
        Strip(Concat(Split(text)));
        { assert Split(text) == [w] + Split(rest); }
        Strip(Concat([w] + Split(rest)));
        { ConcatAppend([w], Split(rest)); }
        Strip(w + Concat(Split(rest)));
        { StripAppend(w, Concat(Split(rest))); SplitKeepsText(rest); }
        w + Strip(rest);
        { StripTrimStart(gap); }
        Strip(w) + Strip(gap);
        { StripAppend(w, gap); assert text == w + gap; }
        Strip(text);
      }
    } else {
      assert w == text;
    }
  }


  // ---- Line lengths ----

  predicate Bounded(lines: seq<string>, m: int) {
    forall i :: 0 <= i < |lines| ==> |lines[i]| <= m
  }

  /** Every emitted line is at most `m` characters; the line being filled
      ends with the space after its last word and is at most one longer. */
  predicate FitsWithin(st: Wrap, m: int) {
    && Bounded(st.lines, m)
    && (st.current == [] || (st.current[|st.current| - 1] == ' ' && |st.current| <= m + 1))
  }

  lemma AppendBounded(a: seq<string>, b: seq<string>, m: int)
    requires Bounded(a, m) && Bounded(b, m)
    ensures Bounded(a + b, m)
  {
    forall i | 0 <= i < |a + b|
      ensures |(a + b)[i]| <= m
    {
      if i < |a| {
        assert (a + b)[i] == a[i];
      } else {
        assert (a + b)[i] == b[i - |a|];
      }
    }
  }

  /** Trimming the line being filled leaves at most `m` characters. */
  lemma TrimFits(st: Wrap, m: nat)
    requires FitsWithin(st, m)
    ensures |Trim(st.current)| <= m
  {
    if st.current != [] {
      TrimDropsTrailingSpace(st.current);
    }
  }

  lemma FlushFits(st: Wrap, forced: bool, skipBlank: bool, m: nat)
    requires FitsWithin(st, m)
    ensures Bounded(Flush(st, forced, skipBlank), m)
  {
    TrimFits(st, m);
    AppendBounded(st.lines, [Trim(st.current)], m);
  }

  lemma PlaceFits(st: Wrap, word: string, limit: Positive, skipBlank: bool, m: nat)
    requires FitsWithin(st, m) && limit <= m
    ensures FitsWithin(Place(st, word, limit, skipBlank), m)
  {
    if |word| > limit {
      PlaceForced(st, word, limit, skipBlank);
      FlushFits(st, true, skipBlank, m);
      AppendBounded(Flush(st, true, skipBlank), Chunks(word, limit), m);
    } else if |st.current + word + " "| > limit {
      PlacePush(st, word, limit, skipBlank);
      FlushFits(st, false, skipBlank, m);
    } else {
      PlaceAppend(st, word, limit, skipBlank);
    }
  }

  lemma {:induction false} PlaceAllFits(words: seq<string>, limitOf: string -> Positive, skipBlank: bool, m: nat)
    requires forall k :: 0 <= k < |words| ==> limitOf(words[k]) <= m
    ensures FitsWithin(PlaceAll(words, limitOf, skipBlank), m)
  {
    if words != [] {
      var prefix, last := words[..|words| - 1], words[|words| - 1];
      PlaceAllFits(prefix, limitOf, skipBlank, m);
      PlaceFits(PlaceAll(prefix, limitOf, skipBlank), last, limitOf(last), skipBlank, m);
    }
  }

  /** No line is longer than `m` when no word's limit exceeds `m`; with a
      single limit for every word, no line exceeds that limit. */
  lemma LinesFit(text: string, limitOf: string -> Positive, skipBlank: bool, m: nat)
    requires forall k :: 0 <= k < |Split(text)| ==> limitOf(Split(text)[k]) <= m
    ensures forall i :: 0 <= i < |WrapText(text, limitOf, skipBlank)| ==> |WrapText(text, limitOf, skipBlank)[i]| <= m
  {
    var st := PlaceAll(Split(text), limitOf, skipBlank);
    PlaceAllFits(Split(text), limitOf, skipBlank, m);
    assert Finish(st) == Flush(st, true, true);
    FlushFits(st, true, true, m);
  }

  // ---- Line edges ----

  predicate AllTrimmed(lines: seq<string>) {
    forall i :: 0 <= i < |lines| ==> Trimmed(lines[i])
  }

  lemma NoSpaceTrimmed(s: string)
    requires NoSpace(s)
    ensures Trimmed(s)
  {
  }

  lemma AppendTrimmed(a: seq<string>, b: seq<string>)
    requires AllTrimmed(a) && AllTrimmed(b)
    ensures AllTrimmed(a + b)
  {
    forall i | 0 <= i < |a + b|
      ensures Trimmed((a + b)[i])
    {
      if i < |a| {
        assert (a + b)[i] == a[i];
      } else {
        assert (a + b)[i] == b[i - |a|];
      }
    }
  }

  lemma FlushTrims(st: Wrap, forced: bool, skipBlank: bool)
    requires AllTrimmed(st.lines)
    ensures AllTrimmed(Flush(st, forced, skipBlank))
  {
    TrimIsTrimmed(st.current);
    AppendTrimmed(st.lines, [Trim(st.current)]);
  }

  lemma PlaceTrims(st: Wrap, word: string, limit: Positive, skipBlank: bool)
    requires AllTrimmed(st.lines) && NoSpace(word)
    ensures AllTrimmed(Place(st, word, limit, skipBlank).lines)
  {
    FlushTrims(st, |word| > limit, skipBlank);
    if |word| > limit {
      var pieces := Chunks(word, limit);
      ChunksNoSpace(word, limit);
      forall i | 0 <= i < |pieces|
        ensures Trimmed(pieces[i])
      {
        NoSpaceTrimmed(pieces[i]);
      }
      AppendTrimmed(Flush(st, true, skipBlank), pieces);
    }
  }

  lemma {:induction false} PlaceAllTrims(words: seq<string>, limitOf: string -> Positive, skipBlank: bool)
    requires forall k :: 0 <= k < |words| ==> NoSpace(words[k])
    ensures AllTrimmed(PlaceAll(words, limitOf, skipBlank).lines)
  {
    if words != [] {
      var prefix, last := words[..|words| - 1], words[|words| - 1];
      PlaceAllTrims(prefix, limitOf, skipBlank);
      PlaceTrims(PlaceAll(prefix, limitOf, skipBlank), last, limitOf(last), skipBlank);
    }
  }

  lemma FinishTrims(st: Wrap)
    requires AllTrimmed(st.lines)
    ensures AllTrimmed(Finish(st))
  {
    if |Trim(st.current)| > 0 {
      FlushTrims(st, true, true);
    }
  }

  /** No line starts or ends with white space. */
  lemma LinesTrimmed(text: string, limitOf: string -> Positive, skipBlank: bool)
    ensures AllTrimmed(WrapText(text, limitOf, skipBlank))
  {
    PlaceAllTrims(Split(text), limitOf, skipBlank);
    FinishTrims(PlaceAll(Split(text), limitOf, skipBlank));
  }

  // ---- Content ----

  /** Pushing the line being filled loses none of its characters other
      than white space, and a line that is not pushed has none. */
  lemma PushKeepsText(lines: seq<string>, current: string)
    ensures Strip(Concat(lines + [Trim(current)])) == Strip(Concat(lines)) + Strip(current)
  {
    var t := Trim(current);
    assert (lines + [t])[..|lines|] == lines;
    StripAppend(Concat(lines), t);
    StripTrim(current);
  }

  /** A line that is not pushed has no character other than white space. */
  lemma UnflushedIsBlank(current: string, forced: bool, skipBlank: bool)
    requires !Flushes(current, forced, skipBlank)
    ensures Strip(current) == []
  {
    if skipBlank {
      StripTrim(current);
    }
  }

  lemma FlushKeepsText(st: Wrap, forced: bool, skipBlank: bool)
    ensures Strip(Concat(Flush(st, forced, skipBlank))) == Strip(Concat(st.lines)) + Strip(st.current)
  {
    if Flushes(st.current, forced, skipBlank) {
      PushKeepsText(st.lines, st.current);
    } else {
      UnflushedIsBlank(st.current, forced, skipBlank);
      assert Strip(Concat(st.lines)) + [] == Strip(Concat(st.lines));
    }
  }

  lemma StripSpace()
    ensures Strip(" ") == []
  {
    assert " "[1..] == [];
  }

  /** The pieces and the rest that starts the next line hold the word. */
  lemma CutKeepsText(word: string, limit: Positive)
    ensures Strip(Concat(Chunks(word, limit))) + Strip(Remainder(word, limit) + " ") == Strip(word)
  {
    StripSpace();
    StripAppend(Remainder(word, limit), " ");
    ChunksRebuild(word, limit);
    StripAppend(Concat(Chunks(word, limit)), Remainder(word, limit));
  }

  lemma JoinKeepsText(lines: seq<string>, pieces: seq<string>, rest: string)
    ensures Strip(Concat(lines + pieces)) + Strip(rest) == Strip(Concat(lines)) + (Strip(Concat(pieces)) + Strip(rest))
  {
    ConcatAppend(lines, pieces);
    StripAppend(Concat(lines), Concat(pieces));
  }

  lemma ForcedKeepsText(st: Wrap, word: string, limit: Positive, skipBlank: bool)
    ensures Strip(Concat(Flush(st, true, skipBlank) + Chunks(word, limit))) + Strip(Remainder(word, limit) + " ")
         == Strip(Concat(st.lines)) + Strip(st.current) + Strip(word)
  {
    JoinKeepsText(Flush(st, true, skipBlank), Chunks(word, limit), Remainder(word, limit) + " ");
    CutKeepsText(word, limit);
    FlushKeepsText(st, true, skipBlank);
  }

  lemma PushedKeepsText(st: Wrap, word: string, skipBlank: bool)
    ensures Strip(Concat(Flush(st, false, skipBlank))) + Strip(word + " ")
         == Strip(Concat(st.lines)) + Strip(st.current) + Strip(word)
  {
    StripSpace();
    FlushKeepsText(st, false, skipBlank);
    StripAppend(word, " ");
    assert Strip(word + " ") == Strip(word);
  }

  lemma AppendedKeepsText(st: Wrap, word: string)
    ensures Strip(Concat(st.lines)) + Strip(st.current + word + " ")
         == Strip(Concat(st.lines)) + Strip(st.current) + Strip(word)
  {
    var c, w, done := st.current, word, Strip(Concat(st.lines));
    StripSpace();
    StripAppend(c + w, " ");
    StripAppend(c, w);
    assert Strip(c + w + " ") == Strip(c) + Strip(w);
    SeqAssoc(done, Strip(c), Strip(w));
  }

  lemma PlaceKeepsText(st: Wrap, word: string, limit: Positive, skipBlank: bool)
    ensures var next := Place(st, word, limit, skipBlank);
      Strip(Concat(next.lines)) + Strip(next.current) == Strip(Concat(st.lines)) + Strip(st.current) + Strip(word)
  {
    if |word| > limit {
      PlaceForced(st, word, limit, skipBlank);
      ForcedKeepsText(st, word, limit, skipBlank);
    } else if |st.current + word + " "| > limit {
      PlacePush(st, word, limit, skipBlank);
      PushedKeepsText(st, word, skipBlank);
    } else {
      PlaceAppend(st, word, limit, skipBlank);
      AppendedKeepsText(st, word);
    }
  }

  lemma {:induction false} PlaceAllKeepsText(words: seq<string>, limitOf: string -> Positive, skipBlank: bool)
    ensures var st := PlaceAll(words, limitOf, skipBlank);
      Strip(Concat(st.lines)) + Strip(st.current) == Strip(Concat(words))
  {
    if words == [] {
      assert Strip("") == [];
    } else {
      var prefix, last := words[..|words| - 1], words[|words| - 1];
      PlaceAllKeepsText(prefix, limitOf, skipBlank);
      PlaceKeepsText(PlaceAll(prefix, limitOf, skipBlank), last, limitOf(last), skipBlank);
      StripAppend(Concat(prefix), last);
    }
  }

  /** The lines hold exactly the text's characters other than white space,
      in order: nothing is lost, duplicated or reordered. */
  lemma WrapKeepsText(text: string, limitOf: string -> Positive, skipBlank: bool)
    ensures Strip(Concat(WrapText(text, limitOf, skipBlank))) == Strip(text)
  {
    var st := PlaceAll(Split(text), limitOf, skipBlank);
    PlaceAllKeepsText(Split(text), limitOf, skipBlank);
    SplitKeepsText(text);
    assert Finish(st) == Flush(st, true, true);
    FlushKeepsText(st, true, true);
  }

  // ---- Words that fit stay whole ----

  /** `w` occurs in `s` starting at position `p`. */
  predicate InfixAt(w: string, s: string, p: int) {
    0 <= p <= |s| - |w| && s[p..p + |w|] == w
  }

  /** Line j holds `w` at position p, and `at` characters other than white
      space come before that position in the lines. */
  ghost predicate LineHoldsAt(lines: seq<string>, j: int, p: int, w: string, at: int) {
    && 0 <= j < |lines|
    && InfixAt(w, lines[j], p)
    && |Strip(Concat(lines[..j]))| + |Strip(lines[j][..p])| == at
  }

  /** The same for the line being filled, after all emitted lines. */
  ghost predicate CurrentHoldsAt(st: Wrap, p: int, w: string, at: int) {
    InfixAt(w, st.current, p) && |Strip(Concat(st.lines))| + |Strip(st.current[..p])| == at
  }

  ghost predicate HoldsAt(st: Wrap, w: string, at: int) {
    (exists j, p :: LineHoldsAt(st.lines, j, p, w, at)) || (exists p :: CurrentHoldsAt(st, p, w, at))
  }

  lemma {:induction false} ConcatNoSpace(ws: seq<string>)
    requires forall i :: 0 <= i < |ws| ==> NoSpace(ws[i])
    ensures NoSpace(Concat(ws))
  {
    if ws != [] {
      var front, last := ws[..|ws| - 1], ws[|ws| - 1];
      ConcatNoSpace(front);
      var c := Concat(front);
      forall i | 0 <= i < |c + last|
        ensures !IsSpace((c + last)[i])
      {
        if i < |c| {
          assert (c + last)[i] == c[i];
        } else {
          assert (c + last)[i] == last[i - |c|];
        }
      }
    }
  }

  lemma LinesExtendAt(lines: seq<string>, more: seq<string>, j: int, p: int, w: string, at: int)
    requires LineHoldsAt(lines, j, p, w, at)
    ensures LineHoldsAt(lines + more, j, p, w, at)
  {
    assert (lines + more)[..j] == lines[..j];
    assert (lines + more)[j] == lines[j];
  }

  /** Dropping leading white space moves a word left by what was dropped. */
  lemma TrimStartKeepsAt(w: string, s: string, p: int)
    requires InfixAt(w, s, p) && w != [] && NoSpace(w)
    ensures exists q :: InfixAt(w, TrimStart(s), q) && |Strip(TrimStart(s)[..q])| == |Strip(s[..p])|
  {
    var t := TrimStart(s);
    var d := |s| - |t|;
    assert !IsSpace(s[p]) by {
      assert s[p] == s[p..p + |w|][0];
    }
    var q := p - d;
    assert t[q..q + |w|] == s[p..p + |w|];
    assert s[..p] == s[..d] + t[..q];
    StripAppend(s[..d], t[..q]);
    StripAllSpace(s[..d]);
    assert InfixAt(w, t, q);
  }

  /** Dropping trailing white space leaves a word where it was. */
  lemma TrimEndKeepsAt(w: string, s: string, p: int)
    requires InfixAt(w, s, p) && w != [] && NoSpace(w)
    ensures InfixAt(w, TrimEnd(s), p) && TrimEnd(s)[..p] == s[..p]
  {
    var r := TrimEnd(s);
    assert !IsSpace(s[p + |w| - 1]) by {
      assert s[p + |w| - 1] == s[p..p + |w|][|w| - 1];
    }
    assert r[p..p + |w|] == s[p..p + |w|];
  }

  /** Trimming keeps every word of the line, after the same characters. */
  lemma TrimKeepsAt(w: string, s: string, p: int)
    requires InfixAt(w, s, p) && w != [] && NoSpace(w)
    ensures exists q :: InfixAt(w, Trim(s), q) && |Strip(Trim(s)[..q])| == |Strip(s[..p])|
  {
    var t := TrimStart(s);
    TrimStartKeepsAt(w, s, p);
    var q :| InfixAt(w, t, q) && |Strip(t[..q])| == |Strip(s[..p])|;
    TrimEndKeepsAt(w, t, q);
    assert InfixAt(w, Trim(s), q) && Trim(s)[..q] == t[..q];
  }

  lemma FlushKeepsLineWord(st: Wrap, forced: bool, skipBlank: bool, j: int, p: int, w: string, at: int)
    requires LineHoldsAt(st.lines, j, p, w, at)
    ensures LineHoldsAt(Flush(st, forced, skipBlank), j, p, w, at)
  {
    if Flushes(st.current, forced, skipBlank) {
      LinesExtendAt(st.lines, [Trim(st.current)], j, p, w, at);
    }
  }

  lemma FlushPushesWord(st: Wrap, forced: bool, skipBlank: bool, p: int, w: string, at: int)
    requires CurrentHoldsAt(st, p, w, at) && w != [] && NoSpace(w)
    ensures exists q :: LineHoldsAt(Flush(st, forced, skipBlank), |st.lines|, q, w, at)
  {
    var t := Trim(st.current);
    TrimKeepsAt(w, st.current, p);
    var q :| InfixAt(w, t, q) && |Strip(t[..q])| == |Strip(st.current[..p])|;
    assert |t| > 0 && |st.current| > 0;
    var lines := st.lines + [t];
    assert Flush(st, forced, skipBlank) == lines;
    assert lines[..|st.lines|] == st.lines && lines[|st.lines|] == t;
    assert LineHoldsAt(lines, |st.lines|, q, w, at);
  }

  /** A line that holds a word is pushed, whichever flush rule applies,
      and the word keeps its place in the text. */
  lemma FlushKeepsWordAt(st: Wrap, forced: bool, skipBlank: bool, w: string, at: int)
    requires HoldsAt(st, w, at) && w != [] && NoSpace(w)
    ensures exists j, p :: LineHoldsAt(Flush(st, forced, skipBlank), j, p, w, at)
  {
    if exists j, p :: LineHoldsAt(st.lines, j, p, w, at) {
      var j, p :| LineHoldsAt(st.lines, j, p, w, at);
      FlushKeepsLineWord(st, forced, skipBlank, j, p, w, at);
    } else {
      var p :| CurrentHoldsAt(st, p, w, at);
      FlushPushesWord(st, forced, skipBlank, p, w, at);
    }
  }

  /** Placing a word keeps every word already placed where it was. */
  lemma PlaceKeepsWordAt(st: Wrap, word: string, limit: Positive, skipBlank: bool, w: string, at: int)
    requires HoldsAt(st, w, at) && w != [] && NoSpace(w)
    ensures HoldsAt(Place(st, word, limit, skipBlank), w, at)
  {
    if |word| > limit {
      PlaceForced(st, word, limit, skipBlank);
      FlushKeepsWordAt(st, true, skipBlank, w, at);
      var j, p :| LineHoldsAt(Flush(st, true, skipBlank), j, p, w, at);
      LinesExtendAt(Flush(st, true, skipBlank), Chunks(word, limit), j, p, w, at);
    } else if |st.current + word + " "| > limit {
      PlacePush(st, word, limit, skipBlank);
      FlushKeepsWordAt(st, false, skipBlank, w, at);
    } else {
      PlaceAppend(st, word, limit, skipBlank);
      var next := Place(st, word, limit, skipBlank);
      if !exists j, p :: LineHoldsAt(st.lines, j, p, w, at) {
        var p :| CurrentHoldsAt(st, p, w, at);
        assert next.current[p..p + |w|] == st.current[p..p + |w|];
        assert next.current[..p] == st.current[..p];
        assert CurrentHoldsAt(next, p, w, at);
      }
    }
  }

  /** A word that fits its limit goes whole into the line being filled,
      after all the text placed before it. */
  lemma PlacePutsWordAt(st: Wrap, word: string, limit: Positive, skipBlank: bool, at: int)
    requires 0 < |word| <= limit
    requires |Strip(Concat(st.lines))| + |Strip(st.current)| == at
    ensures HoldsAt(Place(st, word, limit, skipBlank), word, at)
  {
    var next := Place(st, word, limit, skipBlank);
    if |st.current + word + " "| > limit {
      PlacePush(st, word, limit, skipBlank);
      FlushKeepsText(st, false, skipBlank);
      assert next.current[..0] == [];
      assert next.current[0..|word|] == word;
      assert CurrentHoldsAt(next, 0, word, at);
    } else {
      PlaceAppend(st, word, limit, skipBlank);
      var n := |st.current|;
      assert next.current[..n] == st.current;
      assert next.current[n..n + |word|] == word;
      assert CurrentHoldsAt(next, n, word, at);
    }
  }

  lemma {:induction false} PlaceAllHoldsAt(words: seq<string>, limitOf: string -> Positive, skipBlank: bool, k: int)
    requires forall i :: 0 <= i < |words| ==> NoSpace(words[i])
    requires 0 <= k < |words| && 0 < |words[k]| <= limitOf(words[k])
    ensures HoldsAt(PlaceAll(words, limitOf, skipBlank), words[k], |Strip(Concat(words[..k]))|)
  {
    var prefix, last := words[..|words| - 1], words[|words| - 1];
    var st := PlaceAll(prefix, limitOf, skipBlank);
    if k == |words| - 1 {
      assert words[..k] == prefix;
      PlaceAllKeepsText(prefix, limitOf, skipBlank);
      PlacePutsWordAt(st, last, limitOf(last), skipBlank, |Strip(Concat(prefix))|);
    } else {
      assert prefix[k] == words[k];
      assert prefix[..k] == words[..k];
      PlaceAllHoldsAt(prefix, limitOf, skipBlank, k);
      PlaceKeepsWordAt(st, last, limitOf(last), skipBlank, words[k], |Strip(Concat(words[..k]))|);
    }
  }

  /** A word no longer than its limit is never cut: it appears whole in one
      line, at the place where exactly the characters of the words before
      it precede it (with `WrapKeepsText`: it is this word's own
      occurrence, not another copy of the same characters). */
  lemma SmallWordsStayWhole(text: string, limitOf: string -> Positive, skipBlank: bool, k: int)
    requires 0 <= k < |Split(text)| && 0 < |Split(text)[k]| <= limitOf(Split(text)[k])
    ensures exists j, p :: LineHoldsAt(WrapText(text, limitOf, skipBlank), j, p, Split(text)[k], |Concat(Split(text)[..k])|)
  {
    var words := Split(text);
    var st := PlaceAll(words, limitOf, skipBlank);
    var at := |Concat(words[..k])|;
    assert HoldsAt(st, words[k], at) by {
      PlaceAllHoldsAt(words, limitOf, skipBlank, k);
      ConcatNoSpace(words[..k]);
      StripNoSpace(Concat(words[..k]));
    }
    assert WrapText(text, limitOf, skipBlank) == Flush(st, true, true);
    FlushKeepsWordAt(st, true, true, words[k], at);
  }

  // ---- Blank lines ----

  predicate NoneBlank(lines: seq<string>) {
    forall i :: 0 <= i < |lines| ==> lines[i] != []
  }

  lemma {:induction false} PlaceAllNoneBlank(words: seq<string>, limitOf: string -> Positive)
    ensures NoneBlank(PlaceAll(words, limitOf, true).lines)
  {
    if words != [] {
      var prefix, last := words[..|words| - 1], words[|words| - 1];
      PlaceAllNoneBlank(prefix, limitOf);
      var st := PlaceAll(prefix, limitOf, true);
      var flushed := Flush(st, |last| > limitOf(last), true);
      assert NoneBlank(flushed);
      if |last| > limitOf(last) {
        var lines := flushed + Chunks(last, limitOf(last));
        forall i | 0 <= i < |lines|
          ensures lines[i] != []
        {
          if i >= |flushed| {
            assert lines[i] == Chunks(last, limitOf(last))[i - |flushed|];
          }
        }
      }
    }
  }

  lemma FinishNoneBlank(st: Wrap)
    requires NoneBlank(st.lines)
    ensures NoneBlank(Finish(st))
  {
    if |Trim(st.current)| > 0 {
      var lines := st.lines + [Trim(st.current)];
      forall i | 0 <= i < |lines|
        ensures lines[i] != []
      {
        if i < |st.lines| {
          assert lines[i] == st.lines[i];
        }
      }
    }
  }

  /** With the corrected flush, no line is empty. */
  lemma NoBlankLines(text: string, limitOf: string -> Positive)
    ensures NoneBlank(WrapText(text, limitOf, true))
  {
    PlaceAllNoneBlank(Split(text), limitOf);
    FinishNoneBlank(PlaceAll(Split(text), limitOf, true));
  }

  lemma SplitWord(w: string)
    requires NoSpace(w)
    ensures Split(w) == [w]
  {
    var v := WordAt(w);
    assert v == w;
  }

  lemma TrimWordSpace(w: string)
    requires w != [] && NoSpace(w)
    ensures Trim(w + " ") == w
  {
    var s := w + " ";
    assert TrimStart(s) == s;
    assert s[..|s| - 1] == w;
    assert TrimEnd(s) == TrimEnd(w);
  }

  /** The wrap of a lone word exactly as long as its limit: the word does
      not fit with its trailing space, so the empty line is flushed. */
  lemma {:induction false} ExactFitWrap(w: string, limitOf: string -> Positive, skipBlank: bool)
    requires w != [] && NoSpace(w) && limitOf(w) == |w|
    ensures WrapText(w, limitOf, skipBlank) == Flush(Wrap([], ""), false, skipBlank) + [w]
  {
    SplitWord(w);
    TrimWordSpace(w);
    var empty := Wrap([], "");
    assert PlaceAll([w], limitOf, skipBlank) == Place(empty, w, |w|, skipBlank) by {
      assert [w][..0] == [];
    }
    assert |empty.current + w + " "| > |w|;
    assert PlaceAll([w], limitOf, skipBlank) == Wrap(Flush(empty, false, skipBlank), w + " ");
  }

  lemma FlushEmpty()
    ensures Flush(Wrap([], ""), false, false) == [""]
    ensures Flush(Wrap([], ""), false, true) == []
  {
    assert TrimStart("") == "";
    assert Trim("") == "";
  }

  /** As written: a first word exactly as long as its limit pushes the
      still-empty first line, so the result starts with a blank line. */
  lemma ExactFitGivesBlankLine(w: string, limitOf: string -> Positive)
    requires w != [] && NoSpace(w) && limitOf(w) == |w|
    ensures WrapText(w, limitOf, false) == ["", w]
  {
    ExactFitWrap(w, limitOf, false);
    FlushEmpty();
  }

  /** Leading white space makes the first piece of the split empty. */
  lemma SplitLeadingSpace(w: string)
    requires w != [] && NoSpace(w)
    ensures Split(" " + w) == ["", w]
  {
    var t := " " + w;
    assert WordAt(t) == [];
    assert t[0..] == t && t[1..] == w;
    assert TrimStart(t) == TrimStart(w) == w;
    SplitWord(w);
  }

  /** The empty first piece fits any limit and leaves one space in the
      line being filled. */
  lemma EmptyPieceOpens(limitOf: string -> Positive, skipBlank: bool)
    ensures PlaceAll([""], limitOf, skipBlank) == Wrap([], " ")
  {
    assert [""][..0] == [];
  }

  lemma SpaceTrimsEmpty()
    ensures Trim(" ") == ""
  {
    var t := TrimStart(" ");
    assert IsSpace(" "[0]);
    assert t == [];
  }

  /** The empty piece and then a word exactly as long as its limit: the
      line holding one space is pushed, trimmed to "". */
  lemma EmptyPieceThenExactFit(w: string, limitOf: string -> Positive)
    requires w != [] && NoSpace(w) && limitOf(w) == |w|
    ensures PlaceAll(["", w], limitOf, false) == Wrap([""], w + " ")
  {
    EmptyPieceOpens(limitOf, false);
    SpaceTrimsEmpty();
    var st := Wrap([], " ");
    assert PlaceAll(["", w], limitOf, false) == Place(st, w, |w|, false) by {
      assert ["", w][..1] == [""];
    }
    assert |st.current + w + " "| > |w|;
    PlacePush(st, w, |w|, false);
    assert Flush(st, false, false) == [""];
  }

  /** As written: after leading white space, a word exactly as long as its
      limit pushes the line holding only that space, which trims to "". */
  lemma LeadingSpaceGivesBlankLine(w: string, limitOf: string -> Positive)
    requires w != [] && NoSpace(w) && limitOf(w) == |w|
    ensures WrapText(" " + w, limitOf, false) == ["", w]
  {
    SplitLeadingSpace(w);
    EmptyPieceThenExactFit(w, limitOf);
    TrimWordSpace(w);
  }

  /** As written: after leading white space, a word longer than its limit
      also pushes that line, since the forced split tests the untrimmed
      length; the first line is blank. */
  lemma LeadingSpaceBeforeLongWord(w: string, limitOf: string -> Positive)
    requires NoSpace(w) && |w| > limitOf(w)
    ensures |WrapText(" " + w, limitOf, false)| >= 1 && WrapText(" " + w, limitOf, false)[0] == ""
  {
    SplitLeadingSpace(w);
    EmptyPieceOpens(limitOf, false);
    SpaceTrimsEmpty();
    var st := Wrap([], " ");
    assert ["", w][..1] == [""];
    assert PlaceAll(["", w], limitOf, false) == Place(st, w, limitOf(w), false);
    PlaceForced(st, w, limitOf(w), false);
    var lines := [""] + Chunks(w, limitOf(w));
    assert Flush(st, true, false) == [""];
    assert Finish(Place(st, w, limitOf(w), false))[0] == lines[0];
  }

  /** With the corrected flush the same text is the one line `w`. */
  lemma ExactFitCorrected(w: string, limitOf: string -> Positive)
    requires w != [] && NoSpace(w) && limitOf(w) == |w|
    ensures WrapText(w, limitOf, true) == [w]
  {
    ExactFitWrap(w, limitOf, true);
    FlushEmpty();
  }
}
