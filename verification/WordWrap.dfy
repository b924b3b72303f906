/** The help-text wrapper `format_description` of `include/cxxopts.hpp`. */
module WordWrap {
  import opened Wrappers

  /** Lines of text: the last one, one whose break replaces a space, or one whose break cuts the text. */
  datatype Layout = Last(text: string) | Soft(text: string, rest: Layout) | Hard(text: string, rest: Layout)

  /** What a break prints: a newline and `start` blanks. */
  function Break(start: nat): (b: string)
    ensures |b| == start + 1 && b[0] == '\n'
  {
    "\n" + Blanks(start)
  }

  function Blanks(n: nat): (b: string)
    ensures |b| == n
  {
    seq(n, _ => ' ')
  }

  /** The text as it is printed. */
  function Render(lines: Layout, start: nat): string {
    match lines
    case Last(text) => text
    case Soft(text, rest) => text + Break(start) + Render(rest, start)
    case Hard(text, rest) => text + Break(start) + Render(rest, start)
  }

  /** The text that the lines were cut from. */
  function Rejoin(lines: Layout): string {
    match lines
    case Last(text) => text
    case Soft(text, rest) => text + " " + Rejoin(rest)
    case Hard(text, rest) => text + Rejoin(rest)
  }

  /** The last space in desc[lo..hi]. */
  function LastSpace(desc: string, lo: nat, hi: nat): (s: Option<nat>)
    requires lo <= hi <= |desc|
    ensures s.None? ==> ' ' !in desc[lo..hi]
    ensures s.Some? ==> lo <= s.value < hi && desc[s.value] == ' ' && ' ' !in desc[s.value + 1..hi]
    decreases hi
  {
    if lo == hi then None
    else if desc[hi - 1] == ' ' then
      assert desc[hi..hi] == [];
      Some(hi - 1)
    else
      var s := LastSpace(desc, lo, hi - 1);
      assert desc[lo..hi] == desc[lo..hi - 1] + [desc[hi - 1]];
      assert s.Some? ==> desc[s.value + 1..hi] == desc[s.value + 1..hi - 1] + [desc[hi - 1]];
      s
  }

  /** Where the line in progress starts, and the wrapper's idea of the last space. */
  predicate Standing(desc: string, at: nat, startLine: nat, lastSpace: nat) {
    startLine <= at <= |desc| && lastSpace <= startLine && (lastSpace == startLine ==> startLine == at)
  }

  function SpaceOr(desc: string, lo: nat, hi: nat, otherwise: nat): nat
    requires lo <= hi <= |desc|
  {
    match LastSpace(desc, lo, hi)
    case Some(s) => s
    case None => otherwise
  }

  /**
   The wrapper window by window: `size` counts to width + 1 and restarts, so a break is made at the end of every
   window of width + 2 characters. None when the range to append ends before it starts, which `append` rejects.
   */
  function WrapFrom(desc: string, width: nat, at: nat, startLine: nat, lastSpace: nat): Option<Layout>
    requires Standing(desc, at, startLine, lastSpace)
    decreases |desc| - at
  {
    var end := at + width + 2;
    if end > |desc| then Some(Last(desc[startLine..]))
    else
      var s := SpaceOr(desc, at, end, lastSpace);
      if s < startLine then None
      else if s == startLine then Cut(desc[startLine..end], WrapFrom(desc, width, end, end, end))
      else Replaced(desc[startLine..s], WrapFrom(desc, width, end, s + 1, s))
  }

  function Cut(text: string, rest: Option<Layout>): Option<Layout> {
    if rest.None? then None else Some(Hard(text, rest.value))
  }

  function Replaced(text: string, rest: Option<Layout>): Option<Layout> {
    if rest.None? then None else Some(Soft(text, rest.value))
  }

  function Wrap(desc: string, width: nat): Option<Layout> {
    WrapFrom(desc, width, 0, 0, 0)
  }

  /** The printed lines, if the wrapper finishes, after what is printed already. */
  function Printed(before: string, lines: Option<Layout>, start: nat): Option<string> {
    if lines.None? then None else Some(before + Render(lines.value, start))
  }

  /**
   `format_description`, character by character. The text it wraps ends with the default in parentheses exactly when
   the option has one; a one-line text of short words can be read back from what is printed.
   */
  method FormatDescription(description: string, hasDefault: bool, defaultValue: string, start: nat, width: nat)
    returns (formatted: Option<string>)
    ensures var text := if hasDefault then description + " (default: " + defaultValue + ")" else description;
            && formatted == Printed("", Wrap(text, width), start)
            && (ShortWords(text, width) && '\n' !in text ==>
                formatted.Some? && Unwrap(formatted.value, start) == text)
  {
    hide WrapFrom;
    hide Printed;
    hide SpaceOr;
    hide ShortWords;
    hide Unwrap;
    var desc := description;
    if hasDefault {
      desc := desc + " (default: " + defaultValue + ")";
    }
    PrintedReads(desc, width, start);
    var result := "";
    var current, startLine, lastSpace, size := 0, 0, 0, 0;
    ghost var at, before := 0, 0;
    ghost var all := Printed("", Wrap(desc, width), start);
    NoSpaceYet(desc, at);
    while current != |desc|
      invariant at <= current <= |desc| && size == current - at <= width + 1
      invariant Standing(desc, at, startLine, before)
      invariant lastSpace == SpaceOr(desc, at, current, before)
      invariant all == Printed(result, WrapFrom(desc, width, at, startLine, before), start)
      decreases |desc| - current
    {
      NextSpace(desc, at, current, before);
      if desc[current] == ' ' {
        lastSpace := current;
      }
      if size > width {
        WindowPrinted(desc, width, at, startLine, before, start, result);
        if lastSpace == startLine {
          result := result + desc[startLine..current + 1];
          result := result + "\n";
          result := result + Blanks(start);
          startLine := current + 1;
          lastSpace := startLine;
        } else {
          if lastSpace < startLine {
            return None;
          }
          SpaceBound(desc, at, current + 1, before);
          result := result + desc[startLine..lastSpace];
          result := result + "\n";
          result := result + Blanks(start);
          startLine := lastSpace + 1;
        }
        at, before := current + 1, lastSpace;
        NoSpaceYet(desc, at);
        size := 0;
      } else {
        size := size + 1;
      }
      current := current + 1;
    }
    LastLine(desc, width, at, startLine, before, start, result);
    result := result + desc[startLine..current];
    return Some(result);
  }

  lemma NoSpaceYet(desc: string, at: nat)
    requires at <= |desc|
    ensures forall otherwise :: SpaceOr(desc, at, at, otherwise) == otherwise
  {
  }

  lemma NextSpace(desc: string, at: nat, current: nat, otherwise: nat)
    requires at <= current < |desc|
    ensures SpaceOr(desc, at, current + 1, otherwise)
         == if desc[current] == ' ' then current else SpaceOr(desc, at, current, otherwise)
  {
  }

  lemma SpaceBound(desc: string, lo: nat, hi: nat, otherwise: nat)
    requires lo <= hi <= |desc|
    ensures SpaceOr(desc, lo, hi, otherwise) == otherwise || lo <= SpaceOr(desc, lo, hi, otherwise) < hi
  {
  }

  lemma LastLine(desc: string, width: nat, at: nat, startLine: nat, lastSpace: nat, start: nat, result: string)
    requires Standing(desc, at, startLine, lastSpace) && at + width + 2 > |desc|
    ensures Printed(result, WrapFrom(desc, width, at, startLine, lastSpace), start)
         == Some(result + desc[startLine..|desc|])
  {
    assert desc[startLine..] == desc[startLine..|desc|];
  }

  /** The wrapper at a complete window. */
  lemma WrapStep(desc: string, width: nat, at: nat, startLine: nat, lastSpace: nat, s: nat)
    requires Standing(desc, at, startLine, lastSpace) && at + width + 2 <= |desc|
    requires s == SpaceOr(desc, at, at + width + 2, lastSpace)
    ensures s == lastSpace || at <= s < at + width + 2
    ensures s > startLine ==> desc[s] == ' '
    ensures var end := at + width + 2;
            WrapFrom(desc, width, at, startLine, lastSpace) ==
              if s < startLine then None
              else if s == startLine then Cut(desc[startLine..end], WrapFrom(desc, width, end, end, end))
              else Replaced(desc[startLine..s], WrapFrom(desc, width, end, s + 1, s))
  {
    hide LastSpace;
  }

  /** What one complete window adds to the printed text. */
  lemma WindowPrinted(desc: string, width: nat, at: nat, startLine: nat, lastSpace: nat, start: nat, result: string)
    requires Standing(desc, at, startLine, lastSpace) && at + width + 2 <= |desc|
    ensures var end := at + width + 2;
            var s := SpaceOr(desc, at, end, lastSpace);
            Printed(result, WrapFrom(desc, width, at, startLine, lastSpace), start) ==
              if s < startLine then None
              else if s == startLine then
                Printed(result + desc[startLine..end] + "\n" + Blanks(start),
                        WrapFrom(desc, width, end, end, end), start)
              else
                Printed(result + desc[startLine..s] + "\n" + Blanks(start),
                        WrapFrom(desc, width, end, s + 1, s), start)
  {
    hide Printed;
    hide LastSpace;
    hide WrapFrom;
    hide Cut;
    hide Replaced;
    var end := at + width + 2;
    var s := SpaceOr(desc, at, end, lastSpace);
    WrapStep(desc, width, at, startLine, lastSpace, s);
    NothingPrinted(result, start);
    if s == startLine {
      PrintedStep(result, desc[startLine..end], WrapFrom(desc, width, end, end, end), start);
    } else if s > startLine {
      PrintedStep(result, desc[startLine..s], WrapFrom(desc, width, end, s + 1, s), start);
    }
  }

  lemma NothingPrinted(result: string, start: nat)
    ensures Printed(result, None, start) == None
  {
  }

  lemma PrintedStep(result: string, text: string, rest: Option<Layout>, start: nat)
    ensures Printed(result, Cut(text, rest), start) == Printed(result + text + "\n" + Blanks(start), rest, start)
    ensures Printed(result, Replaced(text, rest), start) == Printed(result + text + "\n" + Blanks(start), rest, start)
  {
    if rest.Some? {
      var more := Render(rest.value, start);
      assert result + (text + Break(start) + more) == result + text + "\n" + Blanks(start) + more;
    }
  }

  // ----- Nothing is lost -----

  lemma FinalLine(desc: string, width: nat, at: nat, startLine: nat, lastSpace: nat)
    requires Standing(desc, at, startLine, lastSpace) && at + width + 2 > |desc|
    ensures WrapFrom(desc, width, at, startLine, lastSpace) == Some(Last(desc[startLine..]))
  {
  }

  lemma {:induction false} RejoinFrom(desc: string, width: nat, at: nat, startLine: nat, lastSpace: nat)
    requires Standing(desc, at, startLine, lastSpace) && WrapFrom(desc, width, at, startLine, lastSpace).Some?
    ensures Rejoin(WrapFrom(desc, width, at, startLine, lastSpace).value) == desc[startLine..]
    decreases |desc| - at
  {
    hide LastSpace;
    hide SpaceOr;
    hide WrapFrom;
    var end := at + width + 2;
    if end > |desc| {
      FinalLine(desc, width, at, startLine, lastSpace);
    } else {
      var s := SpaceOr(desc, at, end, lastSpace);
      WrapStep(desc, width, at, startLine, lastSpace, s);
      if s == startLine {
        RejoinFrom(desc, width, end, end, end);
        assert desc[startLine..] == desc[startLine..end] + desc[end..];
      } else {
        RejoinFrom(desc, width, end, s + 1, s);
        assert desc[startLine..] == desc[startLine..s] + " " + desc[s + 1..];
      }
    }
  }

  /** For every text and width: whenever the wrapper finishes, undoing its breaks gives back the text. */
  lemma NothingLost(desc: string, width: nat)
    requires Wrap(desc, width).Some?
    ensures Rejoin(Wrap(desc, width).value) == desc
  {
    RejoinFrom(desc, width, 0, 0, 0);
    assert desc[0..] == desc;
  }

  // ----- Exactly when it finishes -----

  /** Where window k starts. */
  function WindowStart(width: nat, k: nat): nat {
    if k == 0 then 0 else WindowStart(width, k - 1) + width + 2
  }

  /** Window k is complete. */
  predicate HasWindow(desc: string, width: nat, k: nat) {
    WindowStart(width, k) + width + 2 <= |desc|
  }

  function Window(desc: string, width: nat, k: nat): (w: string)
    requires HasWindow(desc, width, k)
    ensures |w| == width + 2
  {
    desc[WindowStart(width, k)..WindowStart(width, k) + width + 2]
  }

  predicate EndsInSpace(w: string) {
    w != [] && w[|w| - 1] == ' '
  }

  /**
   The break after window k replaces a space: the window has one, and not only as its first character with a line
   starting right there, which happens at the front, after a cut, and when the window before ends in a space.
   */
  predicate BreaksSoftly(desc: string, width: nat, k: nat)
    requires HasWindow(desc, width, k)
    decreases k
  {
    var w := Window(desc, width, k);
    var startsLine :=
      k == 0 || !BreaksSoftly(desc, width, k - 1) || EndsInSpace(Window(desc, width, k - 1));
    ' ' in w && (' ' in w[1..] || !startsLine)
  }

  /** A window without a space comes right after a soft break. */
  predicate Stuck(desc: string, width: nat, k: nat) {
    k > 0 && HasWindow(desc, width, k) && ' ' !in Window(desc, width, k) && BreaksSoftly(desc, width, k - 1)
  }

  /** The wrapper's position at the start of window k agrees with the windows before. */
  ghost predicate Agrees(desc: string, width: nat, k: nat, startLine: nat, lastSpace: nat) {
    var at := WindowStart(width, k);
    && Standing(desc, at, startLine, lastSpace)
    && (k == 0 ==> startLine == 0)
    && (k > 0 ==>
          var soft := BreaksSoftly(desc, width, k - 1);
          && (soft <==> lastSpace < startLine)
          && (startLine == at <==> !soft || EndsInSpace(Window(desc, width, k - 1))))
  }

  /** What the last space of a window says about the window. */
  lemma SpaceInWindow(desc: string, width: nat, k: nat, otherwise: nat)
    requires HasWindow(desc, width, k)
    ensures var at, w := WindowStart(width, k), Window(desc, width, k);
            var s := SpaceOr(desc, at, at + width + 2, otherwise);
            if ' ' in w then
              && at <= s < at + width + 2
              && (s > at <==> ' ' in w[1..])
              && (s == at + width + 1 <==> EndsInSpace(w))
            else s == otherwise
  {
    hide LastSpace;
    hide WindowStart;
    var at, w := WindowStart(width, k), Window(desc, width, k);
    var found := LastSpace(desc, at, at + width + 2);
    if found.Some? {
      var i := found.value - at;
      assert desc[found.value + 1..at + width + 2] == w[i + 1..];
      LastSpaceOf(w, i);
    }
  }

  lemma LastSpaceOf(w: string, i: nat)
    requires i < |w| && w[i] == ' ' && ' ' !in w[i + 1..]
    ensures ' ' in w && (i > 0 <==> ' ' in w[1..]) && (i == |w| - 1 <==> EndsInSpace(w))
  {
    if i > 0 {
      assert w[1..][i - 1] == ' ';
    }
    if i < |w| - 1 {
      assert w[i + 1..][|w| - i - 2] == w[|w| - 1];
    }
  }

  lemma WindowOutcome(desc: string, width: nat, k: nat, startLine: nat, lastSpace: nat)
    requires HasWindow(desc, width, k) && Agrees(desc, width, k, startLine, lastSpace)
    ensures var end := WindowStart(width, k) + width + 2;
            var s := SpaceOr(desc, WindowStart(width, k), end, lastSpace);
            && (s < startLine <==> Stuck(desc, width, k))
            && (s == startLine ==> Agrees(desc, width, k + 1, end, end))
            && (s > startLine ==> Agrees(desc, width, k + 1, s + 1, s))
  {
    hide LastSpace;
    hide SpaceOr;
    hide Window;
    hide EndsInSpace;
    SpaceInWindow(desc, width, k, lastSpace);
  }

  lemma {:induction false} FinishesFrom(desc: string, width: nat, k: nat, startLine: nat, lastSpace: nat)
    requires Agrees(desc, width, k, startLine, lastSpace)
    ensures WrapFrom(desc, width, WindowStart(width, k), startLine, lastSpace).None?
       <==> exists j: nat :: k <= j && Stuck(desc, width, j)
    decreases |desc| - WindowStart(width, k)
  {
    hide BreaksSoftly;
    hide LastSpace;
    hide SpaceOr;
    if HasWindow(desc, width, k) {
      WindowOutcome(desc, width, k, startLine, lastSpace);
      var end := WindowStart(width, k) + width + 2;
      var s := SpaceOr(desc, WindowStart(width, k), end, lastSpace);
      if s == startLine {
        FinishesFrom(desc, width, k + 1, end, end);
      } else if s > startLine {
        FinishesFrom(desc, width, k + 1, s + 1, s);
      }
    } else {
      forall j: nat | k <= j ensures !Stuck(desc, width, j) {
        LaterWindow(width, k, j);
      }
    }
  }

  lemma {:induction false} LaterWindow(width: nat, k: nat, j: nat)
    requires k <= j
    ensures WindowStart(width, k) <= WindowStart(width, j)
  {
    if k < j {
      LaterWindow(width, k, j - 1);
    }
  }

  /** The wrapper fails exactly when some window without a space comes right after a soft break. */
  lemma FinishesExactly(desc: string, width: nat)
    ensures Wrap(desc, width).None? <==> exists k: nat :: Stuck(desc, width, k)
  {
    FinishesFrom(desc, width, 0, 0, 0);
  }

  /** A text on which it fails. */
  lemma FailsOnLongWord()
    ensures Wrap("a bcdefgh", 2).None?
  {
    var d := "a bcdefgh";
    assert LastSpace(d, 0, 4) == Some(1);
    assert LastSpace(d, 4, 8) == None;
  }

  // ----- When no word is longer than the width -----

  /** The width + 1 characters from `lo` hold a space. */
  predicate HasSpace(desc: string, lo: nat, width: nat) {
    lo + width + 1 <= |desc| && ' ' in desc[lo..lo + width + 1]
  }

  /** Every width + 1 consecutive characters hold a space. */
  predicate ShortWords(desc: string, width: nat) {
    forall i: nat :: i + width + 1 <= |desc| ==> HasSpace(desc, i, width)
  }

  /** Only spaces are replaced, and no line is longer than 2 * width + 1. */
  predicate Gentle(lines: Layout, width: nat) {
    |lines.text| <= 2 * width + 1 && !lines.Hard? && (lines.Soft? ==> Gentle(lines.rest, width))
  }

  lemma {:induction false} GentleFrom(desc: string, width: nat, at: nat, startLine: nat, lastSpace: nat)
    requires ShortWords(desc, width) && Standing(desc, at, startLine, lastSpace)
    requires at == 0 || lastSpace < startLine
    requires ' ' !in desc[startLine..at]
    ensures var lines := WrapFrom(desc, width, at, startLine, lastSpace);
            lines.Some? && Gentle(lines.value, width)
    decreases |desc| - at
  {
    hide LastSpace;
    hide SpaceOr;
    hide ShortWords;
    hide WrapFrom;
    RunIsShort(desc, width, startLine, at);
    var end := at + width + 2;
    if end > |desc| {
      FinalLine(desc, width, at, startLine, lastSpace);
    } else {
      var s := LastSpaceInWindow(desc, width, at, startLine, lastSpace);
      WrapStep(desc, width, at, startLine, lastSpace, s);
      GentleFrom(desc, width, end, s + 1, s);
    }
  }

  lemma SpaceInRun(desc: string, lo: nat, width: nat, hi: nat)
    requires HasSpace(desc, lo, width) && lo + width + 1 <= hi <= |desc|
    ensures ' ' in desc[lo..hi]
  {
    assert desc[lo..lo + width + 1] == desc[lo..hi][..width + 1];
  }

  lemma RunIsShort(desc: string, width: nat, lo: nat, hi: nat)
    requires ShortWords(desc, width) && lo <= hi <= |desc| && ' ' !in desc[lo..hi]
    ensures hi - lo <= width
  {
    if hi - lo > width {
      SpaceInRun(desc, lo, width, hi);
    }
  }

  lemma LastSpaceInWindow(desc: string, width: nat, at: nat, startLine: nat, lastSpace: nat) returns (s: nat)
    requires ShortWords(desc, width) && Standing(desc, at, startLine, lastSpace) && at + width + 2 <= |desc|
    requires ' ' !in desc[startLine..at]
    ensures s == SpaceOr(desc, at, at + width + 2, lastSpace) && startLine < s < at + width + 2
    ensures ' ' !in desc[s + 1..at + width + 2]
  {
    var end := at + width + 2;
    s := SpaceOr(desc, at, end, lastSpace);
    if LastSpace(desc, at, end).None? {
      RunIsShort(desc, width, at, end);
    } else {
      RunIsShort(desc, width, s + 1, end);
    }
  }

  /**
   When no run of non-space characters exceeds the width, the wrapper finishes, replaces only spaces, and keeps every
   line within 2 * width + 1 characters.
   */
  lemma WrapIsGentle(desc: string, width: nat)
    requires ShortWords(desc, width)
    ensures Wrap(desc, width).Some? && Gentle(Wrap(desc, width).value, width)
  {
    assert desc[0..0] == [];
    GentleFrom(desc, width, 0, 0, 0);
  }

  /** The bound is not the width: it is reached. */
  lemma BoundIsReached()
    ensures ShortWords("a b c d", 1)
    ensures Wrap("a b c d", 1) == Some(Soft("a", Soft("b c", Last("d"))))
  {
    var d := "a b c d";
    forall i: nat | i + 2 <= |d| ensures HasSpace(d, i, 1) {
      assert d[i] == d[i..i + 2][0] && d[i + 1] == d[i..i + 2][1];
    }
    assert LastSpace(d, 0, 3) == Some(1);
    assert LastSpace(d, 3, 6) == Some(5);
    assert d[0..1] == "a" && d[2..5] == "b c" && d[6..] == "d";
    assert WrapFrom(d, 1, 6, 6, 5) == Some(Last("d"));
    assert WrapFrom(d, 1, 3, 2, 1) == Some(Soft("b c", Last("d")));
  }

  // ----- Reading a wrapped text back -----

  /** Puts a space back for every newline with `start` blanks after it. */
  function Unwrap(text: string, start: nat): string {
    if text == [] then []
    else if text[0] == '\n' && start < |text| && text[1..1 + start] == seq(start, _ => ' ') then
      " " + Unwrap(text[1 + start..], start)
    else [text[0]] + Unwrap(text[1..], start)
  }

  lemma {:induction false} UnwrapLine(line: string, rest: string, start: nat)
    requires '\n' !in line
    ensures Unwrap(line + rest, start) == line + Unwrap(rest, start)
  {
    if line == [] {
      assert line + rest == rest;
    } else {
      assert line[0] in line;
      UnwrapLine(line[1..], rest, start);
      assert (line + rest)[0] == line[0] && (line + rest)[1..] == line[1..] + rest;
      assert [line[0]] + (line[1..] + Unwrap(rest, start)) == line + Unwrap(rest, start);
    }
  }

  lemma UnwrapBreak(rest: string, start: nat)
    ensures Unwrap(Break(start) + rest, start) == " " + Unwrap(rest, start)
  {
    assert (Break(start) + rest)[1 + start..] == rest;
    assert (Break(start) + rest)[1..1 + start] == Blanks(start) == seq(start, _ => ' ');
  }

  lemma {:induction false} UnwrapOfRender(lines: Layout, width: nat, start: nat)
    requires Gentle(lines, width) && '\n' !in Rejoin(lines)
    ensures Unwrap(Render(lines, start), start) == Rejoin(lines)
    decreases lines
  {
    hide Unwrap;
    hide Break;
    var text := lines.text;
    if lines.Last? {
      UnwrapLine(text, [], start);
      UnwrapNothing(start);
      assert text + [] == text;
    } else {
      assert forall c :: c in text || c in Rejoin(lines.rest) ==> c in Rejoin(lines);
      var more := Render(lines.rest, start);
      assert text + Break(start) + more == text + (Break(start) + more);
      UnwrapLine(text, Break(start) + more, start);
      UnwrapBreak(more, start);
      UnwrapOfRender(lines.rest, width, start);
      assert text + (" " + Rejoin(lines.rest)) == text + " " + Rejoin(lines.rest);
    }
  }

  lemma UnwrapNothing(start: nat)
    ensures Unwrap([], start) == []
  {
  }

  /** A one-line description of short words can be read back from its wrapped form. */
  lemma WrapRoundTrip(desc: string, width: nat, start: nat)
    requires ShortWords(desc, width) && '\n' !in desc
    ensures Wrap(desc, width).Some? && Unwrap(Render(Wrap(desc, width).value, start), start) == desc
  {
    WrapIsGentle(desc, width);
    NothingLost(desc, width);
    UnwrapOfRender(Wrap(desc, width).value, width, start);
  }

  lemma PrintedReads(desc: string, width: nat, start: nat)
    ensures var printed := Printed("", Wrap(desc, width), start);
            ShortWords(desc, width) && '\n' !in desc ==> printed.Some? && Unwrap(printed.value, start) == desc
  {
    hide ShortWords;
    hide Unwrap;
    if ShortWords(desc, width) && '\n' !in desc {
      WrapRoundTrip(desc, width, start);
      var text := Render(Wrap(desc, width).value, start);
      assert "" + text == text;
    }
  }
}
