/** Splitting a text at newlines and joining lines again. */
module Text {

  /** `explode("\n", s)` */
  function Explode(s: string): (lines: seq<string>)
    ensures |lines| >= 1
    ensures forall i :: 0 <= i < |lines| ==> '\n' !in lines[i]
  {
    if s == "" then [""]
    else
      var rest := Explode(s[1..]);
      if s[0] == '\n' then [""] + rest else [[s[0]] + rest[0]] + rest[1..]
  }

  /** `implode("\n", lines)` */
  function Implode(lines: seq<string>): string
  {
    if lines == [] then "" else if |lines| == 1 then lines[0] else lines[0] + "\n" + Implode(lines[1..])
  }

  lemma {:induction false} ImplodeExplode(s: string)
    ensures Implode(Explode(s)) == s
  {
    if s != "" {
      var rest := Explode(s[1..]);
      ImplodeExplode(s[1..]);
      if s[0] == '\n' {
        assert Explode(s) == [""] + rest && Explode(s)[1..] == rest;
        assert s == "" + "\n" + s[1..];
      } else {
        var lines := [[s[0]] + rest[0]] + rest[1..];
        assert lines[1..] == rest[1..];
        assert Implode(lines) == [s[0]] + Implode(rest);
      }
    }
  }

  lemma ImplodeCons(lines: seq<string>)
    requires lines != []
    ensures Implode(lines) == lines[0] + if |lines| == 1 then "" else "\n" + Implode(lines[1..])
  {
  }

  /** Splitting gives back lines that have no newline of their own. */
  lemma {:induction false} ExplodeImplode(lines: seq<string>)
    requires lines != [] && forall i :: 0 <= i < |lines| ==> '\n' !in lines[i]
    ensures Explode(Implode(lines)) == lines
    decreases |lines|, |lines[0]|
  {
    var s := Implode(lines);
    if lines[0] == "" {
      if |lines| > 1 {
        assert s == "\n" + Implode(lines[1..]);
        assert s[1..] == Implode(lines[1..]);
        ExplodeImplode(lines[1..]);
      }
    } else {
      var shorter := [lines[0][1..]] + lines[1..];
      assert forall i :: 0 <= i < |shorter| ==> '\n' !in shorter[i];
      ExplodeImplode(shorter);
      assert shorter[1..] == lines[1..] && lines[0] == [lines[0][0]] + lines[0][1..];
      ImplodeCons(lines);
      ImplodeCons(shorter);
      assert s == [lines[0][0]] + Implode(shorter);
      assert s[1..] == Implode(shorter) && s[0] == lines[0][0];
      assert lines[0][0] in lines[0];
      assert lines == [[lines[0][0]] + shorter[0]] + shorter[1..];
    }
  }

  /** A newline between two texts is a line end of the whole. */
  lemma {:induction false} ExplodeAppend(a: string, b: string)
    ensures Explode(a + "\n" + b) == Explode(a) + Explode(b)
  {
    hide Explode;
    if a == "" {
      ExplodeEmptyLine(b);
      assert a + "\n" + b == "\n" + b;
    } else {
      ExplodeAppend(a[1..], b);
      OneMore(a[0], a[1..], b);
      assert [a[0]] + a[1..] == a && [a[0]] + (a[1..] + "\n" + b) == a + "\n" + b;
    }
  }

  lemma ExplodeEmptyLine(b: string)
    ensures Explode("\n" + b) == Explode("") + Explode(b)
  {
    ExplodeCons('\n', b);
  }

  lemma OneMore(c: char, a: string, b: string)
    requires Explode(a + "\n" + b) == Explode(a) + Explode(b)
    ensures Explode([c] + (a + "\n" + b)) == Explode([c] + a) + Explode(b)
  {
    hide Explode;
    ExplodeCons(c, a);
    ExplodeCons(c, a + "\n" + b);
    LongerLine(c, Explode(a), Explode(b));
  }

  lemma LongerLine(c: char, x: seq<string>, y: seq<string>)
    requires x != []
    ensures [[c] + (x + y)[0]] + (x + y)[1..] == ([[c] + x[0]] + x[1..]) + y && [""] + (x + y) == ([""] + x) + y
  {
  }

  lemma ExplodeCons(c: char, s: string)
    ensures Explode([c] + s)
        == if c == '\n' then [""] + Explode(s) else [[c] + Explode(s)[0]] + Explode(s)[1..]
  {
    assert ([c] + s)[0] == c && ([c] + s)[1..] == s;
  }

  /** A text without newline is one line. */
  lemma {:induction false} ExplodeLine(a: string)
    requires '\n' !in a
    ensures Explode(a) == [a]
  {
    if a != "" {
      assert a[0] in a;
      ExplodeLine(a[1..]);
      assert a == [a[0]] + a[1..];
    }
  }

  /** Every character of a line is a character of the text. */
  lemma {:induction false} LinesAreInside(s: string, i: nat)
    requires i < |Explode(s)|
    ensures forall c :: c in Explode(s)[i] ==> c in s
  {
    if s != "" {
      assert forall c :: c in s[1..] ==> c in s;
      if s[0] == '\n' {
        if i > 0 {
          LinesAreInside(s[1..], i - 1);
        }
      } else {
        LinesAreInside(s[1..], i);
      }
    }
  }

  function VisibleChar(c: char): string
  {
    if c == '\n' then "" else [c]
  }

  /** All characters but the newlines. */
  function Visible(s: string): string
  {
    if s == "" then "" else VisibleChar(s[0]) + Visible(s[1..])
  }

  lemma {:induction false} VisibleConcat(a: string, b: string)
    ensures Visible(a + b) == Visible(a) + Visible(b)
  {
    if a == "" {
      assert a + b == b;
    } else {
      VisibleConcat(a[1..], b);
      assert (a + b)[1..] == a[1..] + b && (a + b)[0] == a[0];
    }
  }

  lemma {:induction false} VisibleLine(a: string)
    requires '\n' !in a
    ensures Visible(a) == a
  {
    if a != "" {
      assert a[0] in a;
      VisibleLine(a[1..]);
    }
  }

  lemma VisibleCons(lines: seq<string>)
    requires lines != []
    ensures Visible(Implode(lines)) == Visible(lines[0]) + Visible(Implode(lines[1..]))
  {
    if |lines| > 1 {
      VisibleConcat(lines[0] + "\n", Implode(lines[1..]));
      VisibleConcat(lines[0], "\n");
      assert "\n"[1..] == "";
    }
  }
}
