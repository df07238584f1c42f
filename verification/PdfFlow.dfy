/** PDFPage: text flowing into a rectangle, line by line, until there is no room left. */
module PdfFlow {
  import opened Text

  datatype Rect = Rect(x: real, y: real, width: real, height: real)

  /** One visible line: its baseline, the text on it and whether a logical line ends there. */
  datatype Line = Line(y: real, text: string, ends: bool)

  /** How many characters of a line the page library puts on one visible line. The first
      argument counts the calls, so that the library may behave differently each time. */
  type Wrapping = (nat, real, string) -> nat

  /** What stays the same while a box is filled. */
  datatype Box = Box(bottom: real, fontSize: real, step: real, wrap: Wrapping)

  function Taken(wrap: Wrapping, call: nat, y: real, line: string): (n: nat)
    ensures n <= |line|
  {
    var n := wrap(call, y, line);
    if n <= |line| then n else |line|
  }

  /** How many visible lines fit below `y`. */
  function Room(b: Box, y: real): nat
    requires b.step > 0.0
  {
    if y - b.fontSize < b.bottom then 0 else ((y - b.fontSize - b.bottom) / b.step).Floor + 1
  }

  lemma StepLeavesLess(b: Box, y: real)
    requires b.step > 0.0 && y - b.fontSize >= b.bottom
    ensures Room(b, y) == Room(b, y - b.step) + 1
  {
    Quotient(y - b.fontSize - b.bottom, b.step);
  }

  lemma Sign(d: real, s: real)
    requires s > 0.0
    ensures (d > 0.0 ==> d * s > 0.0) && (d < 0.0 ==> d * s < 0.0) && (d == 0.0 ==> d * s == 0.0)
  {
  }

  lemma Quotient(a: real, s: real)
    requires s > 0.0 && a >= 0.0
    ensures (a - s) / s == a / s - 1.0 && a / s >= 0.0 && (a >= s <==> a / s >= 1.0)
  {
    var q, r := a / s, (a - s) / s;
    assert q * s == a && r * s == a - s;
    var d, e := q - 1.0 - r, q - 1.0;
    assert d * s == 0.0 && e * s == a - s;
    Sign(d, s);
    Sign(q, s);
    Sign(e, s);
  }

  /** Filling a box: the first of `lines` is what is left of the current logical line. Returns
      the visible lines and the lines that did not fit. */
  function Flow(b: Box, lines: seq<string>, y: real, call: nat): (r: (seq<Line>, seq<string>))
    requires b.step > 0.0
    decreases Room(b, y)
  {
    if lines == [] || y - b.fontSize < b.bottom then ([], lines)
    else
      StepLeavesLess(b, y);
      var n := Taken(b.wrap, call, y - b.fontSize, lines[0]);
      var rest := if n == |lines[0]| then lines[1..] else [lines[0][n..]] + lines[1..];
      var r := Flow(b, rest, y - b.step, call + 1);
      ([Line(y - b.fontSize, lines[0][..n], n == |lines[0]|)] + r.0, r.1)
  }

  /** The lines after taking `n` characters off the first one. */
  function After(line: string, n: nat, more: seq<string>): seq<string>
    requires n <= |line|
  {
    if line[n..] == "" then more else [line[n..]] + more
  }

  /** The first step of filling a box. */
  lemma FlowStep(b: Box, line: string, more: seq<string>, y: real, call: nat)
    requires b.step > 0.0
    ensures y - b.fontSize < b.bottom ==> Flow(b, [line] + more, y, call) == ([], [line] + more)
    ensures y - b.fontSize >= b.bottom ==>
              var n := Taken(b.wrap, call, y - b.fontSize, line);
              var r := Flow(b, After(line, n, more), y - b.step, call + 1);
              Flow(b, [line] + more, y, call) == ([Line(y - b.fontSize, line[..n], line[n..] == "")] + r.0, r.1)
    ensures Flow(b, [], y, call) == ([], [])
  {
    assert ([line] + more)[1..] == more;
  }

  function Glue(printed: seq<Line>): string
  {
    if printed == [] then "" else printed[0].text + Glue(printed[1..])
  }

  // ----- one box -----

  /** The logical lines that visible lines and left over lines are made of. */
  function Rejoin(printed: seq<Line>, left: seq<string>): seq<string>
  {
    if printed == [] then left
    else
      var rest := Rejoin(printed[1..], left);
      if printed[0].ends then [printed[0].text] + rest
      else if rest == [] then [printed[0].text]
      else [printed[0].text + rest[0]] + rest[1..]
  }

  /** Nothing is lost, added or reordered: the visible lines, joined where the library broke a
      line, and then the lines left over are exactly the logical lines of the text. */
  lemma {:induction false} FlowConserves(b: Box, lines: seq<string>, y: real, call: nat)
    requires b.step > 0.0
    ensures var (printed, left) := Flow(b, lines, y, call); Rejoin(printed, left) == lines
    decreases Room(b, y)
  {
    if lines != [] && y - b.fontSize >= b.bottom {
      StepLeavesLess(b, y);
      var n := Taken(b.wrap, call, y - b.fontSize, lines[0]);
      var rest := if n == |lines[0]| then lines[1..] else [lines[0][n..]] + lines[1..];
      FlowConserves(b, rest, y - b.step, call + 1);
      var (printed, left) := Flow(b, rest, y - b.step, call + 1);
      RejoinTaken(Line(y - b.fontSize, lines[0][..n], n == |lines[0]|), n, lines, printed, left);
    }
  }

  lemma RejoinTaken(first: Line, n: nat, lines: seq<string>, printed: seq<Line>, left: seq<string>)
    requires lines != [] && n <= |lines[0]| && first.text == lines[0][..n] && first.ends == (n == |lines[0]|)
    requires Rejoin(printed, left) == if n == |lines[0]| then lines[1..] else [lines[0][n..]] + lines[1..]
    ensures Rejoin([first] + printed, left) == lines
  {
    RejoinFirst(first, printed, left);
    hide Rejoin;
    assert [lines[0]] + lines[1..] == lines;
    assert n == |lines[0]| ==> lines[0][..n] == lines[0];
    if n < |lines[0]| {
      assert lines[0][..n] + lines[0][n..] == lines[0];
      assert ([lines[0][n..]] + lines[1..])[1..] == lines[1..];
    }
  }

  lemma RejoinFirst(first: Line, printed: seq<Line>, left: seq<string>)
    ensures var rest := Rejoin(printed, left);
        Rejoin([first] + printed, left) ==
        if first.ends then [first.text] + rest
        else if rest == [] then [first.text]
        else [first.text + rest[0]] + rest[1..]
  {
    assert ([first] + printed)[1..] == printed;
  }

  /** How many visible lines there are: never more than there is room for, and all the room is
      used when lines are left over. This needs nothing of the library: it may refuse to take
      a single character. */
  lemma {:induction false} FlowFits(b: Box, lines: seq<string>, y: real, call: nat)
    requires b.step > 0.0
    ensures var (printed, left) := Flow(b, lines, y, call);
            |printed| <= Room(b, y) && (left != [] ==> |printed| == Room(b, y))
    decreases Room(b, y)
  {
    if lines != [] && y - b.fontSize >= b.bottom {
      StepLeavesLess(b, y);
      var n := Taken(b.wrap, call, y - b.fontSize, lines[0]);
      FlowFits(b, if n == |lines[0]| then lines[1..] else [lines[0][n..]] + lines[1..], y - b.step, call + 1);
    }
  }

  /** Every visible line is one step below the one before. */
  lemma {:induction false} FlowGoesDown(b: Box, lines: seq<string>, y: real, call: nat, k: nat)
    requires b.step > 0.0 && k < |Flow(b, lines, y, call).0|
    ensures Flow(b, lines, y, call).0[k].y == y - b.fontSize - k as real * b.step
    decreases k
  {
    if k > 0 {
      var n := Taken(b.wrap, call, y - b.fontSize, lines[0]);
      var rest := if n == |lines[0]| then lines[1..] else [lines[0][n..]] + lines[1..];
      StepLeavesLess(b, y);
      FlowGoesDown(b, rest, y - b.step, call + 1, k - 1);
      assert (k - 1) as real * b.step == k as real * b.step - b.step;
    }
  }

  /** Lines that fit leave a box that is at most one step less a line too tall. */
  lemma RoomIsEnough(b: Box, y: real, k: nat)
    requires b.step > 0.0 && 0 < k <= Room(b, y)
    ensures (k - 1) as real * b.step <= y - b.fontSize - b.bottom
    decreases k
  {
    if k > 1 {
      StepLeavesLess(b, y);
      RoomIsEnough(b, y - b.step, k - 1);
      assert (k - 1) as real * b.step == (k - 2) as real * b.step + b.step;
    }
  }

  /** `k` steps below `top`. */
  function Below(top: real, step: real, k: nat): real
  {
    if k == 0 then top else Below(top, step, k - 1) - step
  }

  lemma BelowIsProduct(top: real, step: real, k: nat)
    ensures Below(top, step, k) == top - k as real * step
  {
    if k > 0 {
      BelowIsProduct(top, step, k - 1);
      assert k as real * step == (k - 1) as real * step + step;
    }
  }

  /** What is left of a box of height `top - bottom`: nothing printed leaves it as it was, and
      printed lines overshoot its bottom by at most the step less the font size. */
  lemma HeightLeft(b: Box, lines: seq<string>, top: real)
    requires b.step > 0.0
    ensures var n := |Flow(b, lines, top, 0).0|;
            && Below(top, b.step, n) == top - n as real * b.step
            && (n > 0 ==> Below(top, b.step, n) - b.bottom >= b.fontSize - b.step)
  {
    var n := |Flow(b, lines, top, 0).0|;
    FlowFits(b, lines, top, 0);
    BelowIsProduct(top, b.step, n);
    if n > 0 {
      RoomIsEnough(b, top, n);
      assert n as real * b.step == (n - 1) as real * b.step + b.step;
    }
  }

  // ----- many boxes -----

  lemma {:induction false} GlueConcat(a: seq<Line>, b: seq<Line>)
    ensures Glue(a + b) == Glue(a) + Glue(b)
  {
    if a == [] {
      assert a + b == b;
    } else {
      GlueConcat(a[1..], b);
      assert (a + b)[1..] == a[1..] + b && (a + b)[0] == a[0];
    }
  }

  /** Lines as `explode` gives them. */
  ghost predicate Unbroken(lines: seq<string>)
  {
    forall i :: 0 <= i < |lines| ==> '\n' !in lines[i]
  }

  /** The visible characters, too, are conserved, and what is left over is no longer than before. */
  lemma {:induction false} FlowKeepsCharacters(b: Box, lines: seq<string>, y: real, call: nat)
    requires b.step > 0.0 && Unbroken(lines)
    ensures var (printed, left) := Flow(b, lines, y, call);
            && Visible(Implode(lines)) == Glue(printed) + Visible(Implode(left))
            && |Implode(left)| <= |Implode(lines)|
    decreases Room(b, y)
  {
    hide *;
    if lines == [] || y - b.fontSize < b.bottom {
      FlowEnds(b, lines, y, call);
    } else {
      var line, more := lines[0], lines[1..];
      var n := Taken(b.wrap, call, y - b.fontSize, line);
      assert lines == [line] + more;
      FlowStep(b, line, more, y, call);
      StepLeavesLess(b, y);
      OneLineLess(line, n, more);
      FlowKeepsCharacters(b, After(line, n, more), y - b.step, call + 1);
      var r := Flow(b, After(line, n, more), y - b.step, call + 1);
      GlueCons(Line(y - b.fontSize, line[..n], line[n..] == ""), r.0, Visible(Implode(r.1)));
    }
  }

  lemma FlowEnds(b: Box, lines: seq<string>, y: real, call: nat)
    requires b.step > 0.0 && (lines == [] || y - b.fontSize < b.bottom)
    ensures Flow(b, lines, y, call) == ([], lines) && Visible(Implode(lines)) == Glue([]) + Visible(Implode(lines))
  {
  }

  lemma GlueCons(first: Line, printed: seq<Line>, rest: string)
    ensures Glue([first] + printed) + rest == first.text + (Glue(printed) + rest)
  {
    assert ([first] + printed)[1..] == printed;
    assert first.text + (Glue(printed) + rest) == (first.text + Glue(printed)) + rest;
  }

  /** Taking `n` characters off the first of some lines. */
  lemma OneLineLess(line: string, n: nat, more: seq<string>)
    requires n <= |line| && Unbroken([line] + more)
    ensures var lines := [line] + more;
            && Unbroken(After(line, n, more))
            && Visible(Implode(lines)) == line[..n] + Visible(Implode(After(line, n, more)))
            && |Implode(After(line, n, more))| <= |Implode(lines)|
            && (Implode(lines) != "" && (n > 0 || line == "") ==> |Implode(After(line, n, more))| < |Implode(lines)|)
  {
    hide Visible;
    var lines := [line] + more;
    assert lines[1..] == more && lines[0] == line;
    forall i | 0 <= i < |more| ensures '\n' !in more[i] { assert more[i] == lines[i + 1]; }
    VisibleCons(lines);
    VisibleLine(line);
    if n < |line| {
      var rest := [line[n..]] + more;
      assert rest[1..] == more;
      VisibleCons(rest);
      VisibleLine(line[n..]);
      assert line == line[..n] + line[n..];
    } else {
      assert line[..n] == line;
    }
  }

  /** The library puts at least one character of a non-empty line on a visible line. */
  ghost predicate Progressive(wrap: Wrapping)
  {
    forall call: nat, y, line :: line != "" ==> wrap(call, y, line) >= 1
  }

  datatype Sheet = Sheet(b: Box, top: real)

  ghost predicate Usable(s: Sheet)
  {
    s.b.step > 0.0 && s.top - s.b.fontSize >= s.b.bottom && Progressive(s.b.wrap)
  }

  lemma SheetTakesSome(s: Sheet, text: string)
    requires Usable(s) && text != ""
    ensures s.b.step > 0.0 && |Implode(Flow(s.b, Explode(text), s.top, 0).1)| < |text|
  {
    hide *;
    var lines := Explode(text);
    ImplodeExplode(text);
    ExplodeIsUnbroken(text);
    var line, more := lines[0], lines[1..];
    assert lines == [line] + more;
    FirstIsTaken(s, line);
    var n := Taken(s.b.wrap, 0, s.top - s.b.fontSize, line);
    FlowStep(s.b, line, more, s.top, 0);
    OneLineLess(line, n, more);
    FlowKeepsCharacters(s.b, After(line, n, more), s.top - s.b.step, 1);
  }

  lemma ExplodeIsUnbroken(text: string)
    ensures Unbroken(Explode(text))
  {
  }

  lemma FirstIsTaken(s: Sheet, line: string)
    requires Usable(s)
    ensures s.b.step > 0.0 && s.top - s.b.fontSize >= s.b.bottom
    ensures line == "" || Taken(s.b.wrap, 0, s.top - s.b.fontSize, line) > 0
  {
  }

  /** Drawing what is left over into one sheet after the other, until nothing is left. */
  ghost function Paginate(text: string, sheets: nat -> Sheet, k: nat): seq<Line>
    requires forall i: nat :: Usable(sheets(i))
    decreases |text|
  {
    if text == "" then []
    else
      SheetTakesSome(sheets(k), text);
      var (printed, left) := Flow(sheets(k).b, Explode(text), sheets(k).top, 0);
      printed + Paginate(Implode(left), sheets, k + 1)
  }

  /** Every character of the text is printed exactly once and in order. */
  lemma {:induction false} PaginatePrintsAll(text: string, sheets: nat -> Sheet, k: nat)
    requires forall i: nat :: Usable(sheets(i))
    ensures Glue(Paginate(text, sheets, k)) == Visible(text)
    decreases |text|
  {
    if text != "" {
      SheetTakesSome(sheets(k), text);
      var (printed, left) := Flow(sheets(k).b, Explode(text), sheets(k).top, 0);
      ImplodeExplode(text);
      FlowKeepsCharacters(sheets(k).b, Explode(text), sheets(k).top, 0);
      PaginatePrintsAll(Implode(left), sheets, k + 1);
      GlueConcat(printed, Paginate(Implode(left), sheets, k + 1));
    }
  }

  // ----- what was drawn, measured -----

  /** What `n` lines take of the height. */
  function Height(n: int, lineSpacing: real, fontSize: real): real
  {
    n as real * (lineSpacing * fontSize)
  }

  /** The first line is a font size below the top, and line `k` is `k` times the line spacing below
      the first. */
  ghost predicate Spaced(lines: seq<Line>, top: real, lineSpacing: real, fontSize: real)
  {
    forall k :: 0 <= k < |lines| ==> lines[k].y == top - fontSize - Height(k, lineSpacing, fontSize)
  }

  /** How many lines a box takes: none if it is lower than one line, else one and as many more as
      are left of its height; fewer only if there was no more text. */
  predicate Fits(n: int, limit: real, lineSpacing: real, fontSize: real, more: bool)
    requires lineSpacing * fontSize > 0.0
  {
    FitsApart(n, limit, fontSize, lineSpacing * fontSize, more)
  }

  predicate FitsApart(n: int, limit: real, fontSize: real, distance: real, more: bool)
    requires distance > 0.0
  {
    if limit < fontSize then n == 0
    else 0 <= n <= ((limit - fontSize) / distance).Floor + 1
         && (more ==> n == ((limit - fontSize) / distance).Floor + 1)
  }

  lemma RoomInside(b: Box, top: real, height: real)
    requires b.step > 0.0 && b.bottom == top - height
    ensures Room(b, top) == if height < b.fontSize then 0 else ((height - b.fontSize) / b.step).Floor + 1
  {
    assert top - b.fontSize - b.bottom == height - b.fontSize;
  }

  lemma LineStands(b: Box, lines: seq<string>, top: real, lineSpacing: real, k: nat)
    requires b.step == lineSpacing * b.fontSize > 0.0 && k < |Flow(b, lines, top, 0).0|
    ensures Flow(b, lines, top, 0).0[k].y == top - b.fontSize - Height(k, lineSpacing, b.fontSize)
  {
    hide Flow;
    FlowGoesDown(b, lines, top, 0, k);
  }

  lemma BelowIsHeight(top: real, lineSpacing: real, fontSize: real, n: nat)
    ensures Below(top, lineSpacing * fontSize, n) == top - Height(n, lineSpacing, fontSize)
  {
    hide Below;
    BelowIsProduct(top, lineSpacing * fontSize, n);
  }

  lemma NothingLeft(left: seq<string>)
    ensures left == [] ==> Implode(left) == ""
  {
  }

  lemma FlowFitsIn(b: Box, lines: seq<string>, top: real, height: real)
    requires b.step > 0.0 && b.bottom == top - height
    ensures var r := Flow(b, lines, top, 0); FitsApart(|r.0|, height, b.fontSize, b.step, Implode(r.1) != "")
  {
    hide Flow, Room;
    FlowFits(b, lines, top, 0);
    RoomInside(b, top, height);
    NothingLeft(Flow(b, lines, top, 0).1);
  }

  lemma FitsIs(n: int, limit: real, lineSpacing: real, fontSize: real, distance: real, more: bool)
    requires distance == lineSpacing * fontSize > 0.0 && FitsApart(n, limit, fontSize, distance, more)
    ensures Fits(n, limit, lineSpacing, fontSize, more)
  {
    hide FitsApart;
  }

  /** Where the lines of a box stand, how much of it they take, and how many they are. */
  lemma Measured(b: Box, lines: seq<string>, top: real, height: real, lineSpacing: real, fontSize: real)
    requires b.step == lineSpacing * fontSize > 0.0 && b.fontSize == fontSize && b.bottom == top - height
    ensures var (printed, left) := Flow(b, lines, top, 0);
            && Spaced(printed, top, lineSpacing, fontSize)
            && Below(top, b.step, |printed|) == top - Height(|printed|, lineSpacing, fontSize)
            && Fits(|printed|, height, lineSpacing, fontSize, Implode(left) != "")
  {
    hide Flow, Below, Fits, FitsApart, Height;
    var printed := Flow(b, lines, top, 0).0;
    forall k | 0 <= k < |printed| ensures printed[k].y == top - fontSize - Height(k, lineSpacing, fontSize) {
      LineStands(b, lines, top, lineSpacing, k);
    }
    BelowIsHeight(top, lineSpacing, fontSize, |printed|);
    FlowFitsIn(b, lines, top, height);
    FitsIs(|printed|, height, lineSpacing, fontSize, b.step, Implode(Flow(b, lines, top, 0).1) != "");
  }

  // ----- the page -----

  class PDFPage {
    var fontSize: real
    var lineSpacing: real
    /** the visible lines drawn so far */
    var drawn: seq<Line>

    constructor (fontSize: real, lineSpacing: real)
      ensures this.fontSize == fontSize && this.lineSpacing == lineSpacing && drawn == []
    {
      this.fontSize, this.lineSpacing, drawn := fontSize, lineSpacing, [];
    }

    /** The box a rectangle stands for: a height that is not positive means no limit. */
    ghost function BoxOf(rect: Rect, wrap: Wrapping): Box
      reads this`fontSize, this`lineSpacing
    {
      var height := if rect.height <= 0.0 then 99999999.9 else rect.height;
      Box(rect.y + rect.height - height, fontSize, lineSpacing * fontSize, wrap)
    }

    lemma BoxFacts(rect: Rect, wrap: Wrapping)
      ensures var b := BoxOf(rect, wrap);
              && b.bottom == rect.y + rect.height - (if rect.height <= 0.0 then 99999999.9 else rect.height)
              && b.fontSize == fontSize && b.step == lineSpacing * fontSize && b.wrap == wrap
    {
    }

    /** The library puts the beginning of a line on the page and returns the rest. */
    method AddTextWrap(call: nat, y: real, line: string, wrap: Wrapping) returns (rest: string)
      modifies this`drawn
      ensures var n := Taken(wrap, call, y, line);
              rest == line[n..] && drawn == old(drawn) + [Line(y, line[..n], rest == "")]
    {
      var n := Taken(wrap, call, y, line);
      rest := line[n..];
      drawn := drawn + [Line(y, line[..n], rest == "")];
    }

    /** Draws text into the rectangle; returns what did not fit and the rectangle that is left
        below the printed lines. The first line is one font size below the top of the rectangle,
        and every other one `lineSpacing` font sizes below the one before. */
    method DrawTextInRect(text: string, rect: Rect, wrap: Wrapping) returns (rest: string, rect': Rect)
      requires lineSpacing * fontSize > 0.0
      modifies this`drawn
      ensures var (printed, left) := Flow(BoxOf(rect, wrap), Explode(text), rect.y + rect.height, 0);
              drawn == old(drawn) + printed && rest == Implode(left)
      ensures |drawn| >= |old(drawn)|
      ensures Spaced(drawn[|old(drawn)|..], rect.y + rect.height, lineSpacing, fontSize)
      ensures rect' == if rect.height > 0.0
                       then rect.(height := rect.height - Height(|drawn| - |old(drawn)|, lineSpacing, fontSize)) else rect
      ensures Fits(|drawn| - |old(drawn)|, if rect.height > 0.0 then rect.height else 99999999.9,
                   lineSpacing, fontSize, rest != "")
    {
      hide *;
      BoxFacts(rect, wrap);
      var height := rect.height;
      if height <= 0.0 {
        height := 99999999.9;
      }
      var lines := Explode(text);
      var y := rect.y + rect.height;
      var ymin := y - height;
      var step := lineSpacing * fontSize;
      ghost var b, all, goal := BoxOf(rect, wrap), Flow(BoxOf(rect, wrap), lines, y, 0), drawn;
      goal := drawn + all.0;
      Measured(b, lines, y, height, lineSpacing, fontSize);
      var i, calls := 0, 0;
      Begun(b, lines, y, goal, drawn, step);
      label outer:
      while i < |lines|
        invariant 0 <= i <= |lines| && |drawn| == |old(drawn)| + calls && |goal| == |old(drawn)| + |all.0|
        invariant y == Below(rect.y + rect.height, step, calls)
        invariant OnTheWay(b, lines[i..], y, calls, drawn, goal, all.1)
      {
        var line := lines[i];
        Slices(lines, i, line);
        while true
          invariant |drawn| == |old(drawn)| + calls && y == Below(rect.y + rect.height, step, calls)
          invariant OnTheWay(b, [line] + lines[i + 1..], y, calls, drawn, goal, all.1)
          decreases Room(b, y)
        {
          if y - fontSize < ymin {
            Slices(lines, i, line);
            NoRoom(b, line, lines[i + 1..], y, calls, drawn, goal, all.1);
            lines := lines[i := line];
            break outer;
          }
          StepLeavesLess(b, y);
          OneLine(b, line, lines[i + 1..], y, calls, drawn, goal, all.1, rect.y + rect.height, step);
          line := AddTextWrap(calls, y - fontSize, line, wrap);
          y := y - step;
          calls := calls + 1;
          if line == "" {
            break;
          }
        }
        i := i + 1;
      }
      if i == |lines| {
        AllDone(b, lines, y, calls, drawn, goal, all.1);
      }
      rect' := rect;
      if rect.height > 0.0 {
        rect' := rect.(height := rect.height - (rect.y + rect.height - y));
      }
      rest := Implode(lines[i..]);
      assert drawn == goal && drawn[|old(drawn)|..] == all.0;
    }
  }

  /** With `lines` still to come, the visible lines will be `goal` and `left` will be left. */
  ghost predicate OnTheWay(
    b: Box, lines: seq<string>, y: real, call: nat, drawn: seq<Line>, goal: seq<Line>, left: seq<string>)
    requires b.step > 0.0
  {
    drawn + Flow(b, lines, y, call).0 == goal && Flow(b, lines, y, call).1 == left
  }

  lemma Begun(b: Box, lines: seq<string>, y: real, goal: seq<Line>, drawn: seq<Line>, step: real)
    requires b.step > 0.0 && goal == drawn + Flow(b, lines, y, 0).0
    ensures OnTheWay(b, lines[0..], y, 0, drawn, goal, Flow(b, lines, y, 0).1) && Below(y, step, 0) == y
  {
    assert lines[0..] == lines;
  }

  lemma Slices(lines: seq<string>, i: nat, line: string)
    requires i < |lines|
    ensures lines[i..] == [lines[i]] + lines[i + 1..] && lines[i := line][i..] == [line] + lines[i + 1..]
  {
  }

  lemma NoRoom(
    b: Box, line: string, more: seq<string>, y: real, call: nat, drawn: seq<Line>, goal: seq<Line>, left: seq<string>)
    requires b.step > 0.0 && OnTheWay(b, [line] + more, y, call, drawn, goal, left) && y - b.fontSize < b.bottom
    ensures drawn == goal && left == [line] + more
  {
    FlowStep(b, line, more, y, call);
  }

  lemma OneLine(
    b: Box, line: string, more: seq<string>, y: real, call: nat, drawn: seq<Line>, goal: seq<Line>, left: seq<string>,
    top: real, step: real)
    requires b.step > 0.0 && OnTheWay(b, [line] + more, y, call, drawn, goal, left) && y - b.fontSize >= b.bottom
    ensures var n := Taken(b.wrap, call, y - b.fontSize, line);
            var rest := line[n..];
            OnTheWay(b, if rest == "" then more else [rest] + more, y - b.step, call + 1,
                     drawn + [Line(y - b.fontSize, line[..n], rest == "")], goal, left)
    ensures Below(top, step, call + 1) == Below(top, step, call) - step
  {
    FlowStep(b, line, more, y, call);
    var n := Taken(b.wrap, call, y - b.fontSize, line);
    var r := Flow(b, After(line, n, more), y - b.step, call + 1);
    assert drawn + ([Line(y - b.fontSize, line[..n], line[n..] == "")] + r.0) ==
           (drawn + [Line(y - b.fontSize, line[..n], line[n..] == "")]) + r.0;
  }

  lemma AllDone(
    b: Box, lines: seq<string>, y: real, call: nat, drawn: seq<Line>, goal: seq<Line>, left: seq<string>)
    requires b.step > 0.0 && OnTheWay(b, lines[|lines|..], y, call, drawn, goal, left)
    ensures drawn == goal && left == lines[|lines|..]
  {
    assert lines[|lines|..] == [];
    FlowStep(b, "", [], y, call);
  }
}
