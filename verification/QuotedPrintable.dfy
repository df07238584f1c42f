/** The decoding that a receiver does of a text part whose header announces quoted-printable:
    section 6.7 of RFC 2045, with LF as line end. */
module QuotedPrintable {
  import opened Text

  function HexValue(c: char): (v: int)
    ensures -1 <= v < 16
  {
    if '0' <= c <= '9' then c as int - '0' as int
    else if 'A' <= c <= 'F' then c as int - 'A' as int + 10
    else if 'a' <= c <= 'f' then c as int - 'a' as int + 10
    else -1
  }

  /** An equals sign and two hexadecimal digits. */
  predicate EscapeAt(s: string, i: nat) {
    i + 2 < |s| && s[i] == '=' && HexValue(s[i + 1]) >= 0 && HexValue(s[i + 2]) >= 0
  }

  /** Every escape stands for one octet; an equals sign without digits stands for itself. */
  function Unescape(s: string): string
  {
    if s == "" then ""
    else if EscapeAt(s, 0) then [(16 * HexValue(s[1]) + HexValue(s[2])) as char] + Unescape(s[3..])
    else [s[0]] + Unescape(s[1..])
  }

  predicate Blank(c: char) {
    c == ' ' || c == '\t'
  }

  /** Blanks at the end of a line were added on the way and are dropped. */
  function Trimmed(line: string): string
  {
    if line != "" && Blank(line[|line| - 1]) then Trimmed(line[..|line| - 1]) else line
  }

  predicate EndsSoft(line: string) {
    line != "" && line[|line| - 1] == '='
  }

  /** A line that ends with an equals sign is continued by the next one. */
  function DecodeLine(line: string, last: bool): string
  {
    var t := Trimmed(line);
    if EndsSoft(t) then Unescape(t[..|t| - 1]) else Unescape(t) + if last then "" else "\n"
  }

  function DecodeLines(lines: seq<string>): string
    requires lines != []
  {
    DecodeLine(lines[0], |lines| == 1) + if |lines| == 1 then "" else DecodeLines(lines[1..])
  }

  function Decode(s: string): string {
    DecodeLines(Explode(s))
  }

  /** Nothing in the line is decoded: no blank at its end, no soft line break, no escape. */
  predicate LiteralLine(line: string) {
    && (line != "" ==> !Blank(line[|line| - 1]))
    && !EndsSoft(line)
    && forall i: nat :: i < |line| ==> !EscapeAt(line, i)
  }

  predicate Literal(s: string) {
    forall i :: 0 <= i < |Explode(s)| ==> LiteralLine(Explode(s)[i])
  }

  /** Unescaping shortens a line by every escape and changes nothing else. */
  lemma {:induction false} UnescapeLength(s: string)
    ensures |Unescape(s)| <= |s|
    ensures (forall i: nat :: i < |s| ==> !EscapeAt(s, i)) ==> Unescape(s) == s
    ensures |Unescape(s)| == |s| ==> forall i: nat :: i < |s| ==> !EscapeAt(s, i)
  {
    if s != "" {
      if EscapeAt(s, 0) {
        UnescapeLength(s[3..]);
      } else {
        UnescapeLength(s[1..]);
        forall i: nat | i < |s[1..]| ensures EscapeAt(s[1..], i) == EscapeAt(s, i + 1) {}
        forall i: nat | 0 < i < |s| ensures EscapeAt(s, i) == EscapeAt(s[1..], i - 1) {}
      }
    }
  }

  lemma {:induction false} TrimmedLength(line: string)
    ensures |Trimmed(line)| <= |line|
    ensures if line != "" && Blank(line[|line| - 1]) then |Trimmed(line)| < |line| else Trimmed(line) == line
  {
    if line != "" && Blank(line[|line| - 1]) {
      TrimmedLength(line[..|line| - 1]);
    }
  }

  lemma LineLength(line: string, last: bool)
    ensures var whole := line + if last then "" else "\n"; var d := DecodeLine(line, last);
        && |d| <= |whole| && (LiteralLine(line) ==> d == whole) && (|d| == |whole| ==> LiteralLine(line))
  {
    hide Trimmed, Unescape, EscapeAt;
    var t := Trimmed(line);
    TrimmedLength(line);
    UnescapeLength(t);
    if EndsSoft(t) {
      UnescapeLength(t[..|t| - 1]);
    }
  }

  lemma {:induction false} LinesLength(lines: seq<string>)
    requires lines != []
    ensures var whole, d := Implode(lines), DecodeLines(lines);
        && |d| <= |whole|
        && ((forall i :: 0 <= i < |lines| ==> LiteralLine(lines[i])) ==> d == whole)
        && (|d| == |whole| ==> forall i :: 0 <= i < |lines| ==> LiteralLine(lines[i]))
  {
    hide DecodeLine, LiteralLine;
    LineLength(lines[0], |lines| == 1);
    ImplodeCons(lines);
    if |lines| > 1 {
      LinesLength(lines[1..]);
    }
  }

  /** A text that was never encoded decodes to itself if and only if it is literal. */
  lemma DecodesToItself(s: string)
    ensures Decode(s) == s <==> Literal(s)
  {
    hide DecodeLines, Explode, LiteralLine;
    LinesLength(Explode(s));
    ImplodeExplode(s);
  }

  /** A newline more at the end changes nothing about that. */
  lemma LiteralWithNewline(s: string)
    ensures Literal(s + "\n") <==> Literal(s)
  {
    hide LiteralLine;
    assert s + "\n" == s + "\n" + "";
    ExplodeAppend(s, "");
    assert Explode("") == [""] && LiteralLine("") by { EmptyIsLiteral(); }
    var lines, more := Explode(s), Explode(s + "\n");
    assert more == lines + [""];
    if Literal(s + "\n") {
      forall i | 0 <= i < |lines| ensures LiteralLine(lines[i]) { assert more[i] == lines[i]; }
    }
  }

  lemma EmptyIsLiteral()
    ensures LiteralLine("")
  {
  }
}
