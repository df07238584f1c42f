/** NSMailDelivery: composing a message of several parts, and what a receiver that follows
    section 5.1.1 of RFC 2046 (with LF as line end) makes of it. */
module Mail {
  import opened Php
  import opened Text
  import Base64
  import QuotedPrintable

  /** A part is a string or an object that has a data representation. */
  datatype Part = TextPart(text: string) | Attachment(data: seq<Base64.Byte>)

  const LINE := 76

  /** A header line. */
  function Field(name: string, value: string): string {
    name + ": " + value
  }

  const ENCODING := "Content-Transfer-Encoding"
  const TYPE := "Content-Type"
  const DISPOSITION := "Content-Disposition"
  const PDF := "application/pdf; charset=UTF-8"
  const PLAIN := "text/plain; charset=ISO-8859-1"
  const NAMED := "attachment; somefile.pdf"

  /** `chunk_split($s, 76, "\n")` */
  function ChunkSplit(s: string): string
  {
    if |s| <= LINE then s + "\n" else s[..LINE] + "\n" + ChunkSplit(s[LINE..])
  }

  function HeaderLines(p: Part): seq<string>
  {
    match p
    case Attachment(_) => [Field(ENCODING, "base64"), Field(TYPE, PDF), Field(DISPOSITION, NAMED)]
    case TextPart(_) => [Field(ENCODING, "quoted-printable"), Field(TYPE, PLAIN)]
  }

  function Ended(lines: seq<string>): string
  {
    if lines == [] then "" else lines[0] + "\n" + Ended(lines[1..])
  }

  function Content(p: Part): string
  {
    match p
    case TextPart(s) => s
    case Attachment(data) => ChunkSplit(Base64.Encode(data))
  }

  /** A part as it stands between two boundary lines: header, empty line, content. */
  function Entity(p: Part): string
  {
    Ended(HeaderLines(p)) + "\n" + Content(p)
  }

  function Delimiter(boundary: string): string {
    "--" + boundary
  }

  /** The message body that the source composes. */
  function Compose(parts: seq<Part>, boundary: string): string
  {
    if parts == [] then "\n" + Delimiter(boundary) + "--"
    else Delimiter(boundary) + "\n" + Entity(parts[0]) + "\n" + Compose(parts[1..], boundary)
  }

  // ----- the receiver -----

  /** The position of the first delimiter line: one that begins with the delimiter. */
  function FirstDelimiter(lines: seq<string>, d: string): (k: nat)
    ensures k <= |lines|
    ensures k < |lines| ==> d <= lines[k]
    ensures forall i :: 0 <= i < k ==> !(d <= lines[i])
  {
    if lines == [] || d <= lines[0] then 0 else 1 + FirstDelimiter(lines[1..], d)
  }

  /** The parts that follow a delimiter line. The newline before a delimiter line belongs to
      the delimiter; a line that begins with the delimiter and two more hyphens ends the message. */
  function Collect(lines: seq<string>, d: string): seq<string>
    decreases |lines|
  {
    var k := FirstDelimiter(lines, d);
    var body := Implode(lines[..k]);
    if k == |lines| || d + "--" <= lines[k] then [body] else [body] + Collect(lines[k + 1..], d)
  }

  function Receive(msg: string, boundary: string): seq<string>
  {
    var lines := Explode(msg);
    var k := FirstDelimiter(lines, "--" + boundary);
    if k == |lines| then [] else Collect(lines[k + 1..], "--" + boundary)
  }

  /** The content of an entity: what follows its first empty line. */
  function ContentOf(entity: string): string
  {
    AfterHeader(Explode(entity))
  }

  function AfterHeader(lines: seq<string>): string
  {
    if lines == [] then "" else if lines[0] == "" then Implode(lines[1..]) else AfterHeader(lines[1..])
  }

  /** What the receiver reads in an attachment: the base64 text without its line ends. */
  function Attached(content: string): seq<Base64.Byte> {
    Base64.Decode(Visible(content))
  }

  type Fields = seq<(string, string)>

  /** The recipients, of which a receiver reads several between commas. */
  function AtCommas(s: string): (items: seq<string>)
    ensures |items| >= 1
  {
    if s == "" then [""]
    else
      var rest := AtCommas(s[1..]);
      if s[0] == ',' then [""] + rest else [[s[0]] + rest[0]] + rest[1..]
  }

  function ColonIn(line: string): (k: nat)
    ensures k <= |line|
    ensures ':' !in line[..k]
    ensures k < |line| ==> line[k] == ':'
  {
    if line == "" || line[0] == ':' then 0 else 1 + ColonIn(line[1..])
  }

  /** A header line without its carriage return, split at the first colon. */
  function Trim(line: string): string {
    if line != "" && line[|line| - 1] == '\r' then line[..|line| - 1] else line
  }

  function SplitField(line: string): (string, string)
  {
    var k := ColonIn(line);
    if k + 2 <= |line| then (line[..k], line[k + 2..]) else (line, "")
  }

  /** The fields up to the empty line that ends a header block. */
  function ReadFields(lines: seq<string>): Fields
  {
    if lines == [] || Trim(lines[0]) == "" then [] else [SplitField(Trim(lines[0]))] + ReadFields(lines[1..])
  }

  /** The value of the first field with a name. */
  function FieldOf(fields: Fields, name: string): Option<string>
  {
    if fields == [] then None else if fields[0].0 == name then Some(fields[0].1) else FieldOf(fields[1..], name)
  }

  /** What the receiver reads in the header of an entity. */
  function HeaderOf(entity: string, name: string): Option<string>
  {
    FieldOf(ReadFields(Explode(entity)), name)
  }

  /** What a receiver takes an entity for: bytes, a text, or something it cannot decode. */
  datatype Taken = Bytes(data: seq<Base64.Byte>) | Words(text: string) | Unknown(content: string)

  /** The receiver decodes the content as the header of the entity says. */
  function Understood(entity: string): Taken
  {
    match HeaderOf(entity, "Content-Transfer-Encoding")
    case Some(encoding) =>
      if encoding == "base64" then Bytes(Attached(ContentOf(entity)))
      else if encoding == "quoted-printable" then Words(QuotedPrintable.Decode(ContentOf(entity)))
      else Unknown(ContentOf(entity))
    case None => Unknown(ContentOf(entity))
  }

  // ----- lines of an entity -----

  /** No line begins with the delimiter. */
  predicate Clean(lines: seq<string>, d: string) {
    forall i :: 0 <= i < |lines| ==> !(d <= lines[i])
  }

  predicate Plain(line: string) {
    '\n' !in line && |line| > 0 && line[0] != '-'
  }

  lemma FieldIsPlain(name: string, value: string)
    requires Plain(name) && '\n' !in value
    ensures Plain(Field(name, value))
  {
    assert Field(name, value)[0] == name[0];
  }

  lemma TextHeaderIsPlain(i: nat)
    requires i < 2
    ensures Plain([Field(ENCODING, "quoted-printable"), Field(TYPE, PLAIN)][i])
  {
    if i == 0 {
      FieldIsPlain(ENCODING, "quoted-printable");
    } else {
      FieldIsPlain(TYPE, PLAIN);
    }
  }

  lemma AttachmentHeaderIsPlain(i: nat)
    requires i < 3
    ensures Plain([Field(ENCODING, "base64"), Field(TYPE, PDF), Field(DISPOSITION, NAMED)][i])
  {
    if i == 0 {
      FieldIsPlain(ENCODING, "base64");
    } else if i == 1 {
      FieldIsPlain(TYPE, PDF);
    } else {
      FieldIsPlain(DISPOSITION, NAMED);
    }
  }

  lemma HeaderIsPlain(p: Part, i: nat)
    requires i < |HeaderLines(p)|
    ensures Plain(HeaderLines(p)[i])
  {
    hide Plain;
    match p
    case TextPart(_) => TextHeaderIsPlain(i);
    case Attachment(_) => AttachmentHeaderIsPlain(i);
  }

  lemma {:induction false} ExplodeEnded(lines: seq<string>, rest: string)
    requires forall i :: 0 <= i < |lines| ==> '\n' !in lines[i]
    ensures Explode(Ended(lines) + rest) == lines + Explode(rest)
  {
    hide Explode;
    if lines == [] {
      assert Ended(lines) + rest == rest;
    } else {
      var tail := Ended(lines[1..]);
      assert lines[0] + "\n" + tail + rest == lines[0] + "\n" + (tail + rest);
      ExplodeAppend(lines[0], tail + rest);
      ExplodeLine(lines[0]);
      ExplodeEnded(lines[1..], rest);
      assert lines == [lines[0]] + lines[1..];
    }
  }

  lemma EntityLines(p: Part)
    ensures Explode(Entity(p)) == HeaderLines(p) + [""] + Explode(Content(p))
  {
    hide Content, HeaderLines;
    forall i | 0 <= i < |HeaderLines(p)| ensures '\n' !in HeaderLines(p)[i] {
      HeaderIsPlain(p, i);
    }
    assert Entity(p) == Ended(HeaderLines(p)) + ("\n" + Content(p));
    ExplodeEnded(HeaderLines(p), "\n" + Content(p));
    assert "\n" + Content(p) == "" + "\n" + Content(p);
    ExplodeAppend("", Content(p));
    ExplodeLine("");
  }

  lemma VisibleNewline(rest: string)
    ensures Visible("\n" + rest) == Visible(rest)
  {
    assert ("\n" + rest)[1..] == rest;
  }

  lemma VisibleEnded(line: string, rest: string)
    requires '\n' !in line
    ensures Visible(line + "\n" + rest) == line + Visible(rest)
  {
    hide Visible;
    assert line + "\n" + rest == line + ("\n" + rest);
    VisibleConcat(line, "\n" + rest);
    VisibleLine(line);
    VisibleNewline(rest);
  }

  lemma {:induction false} ChunksAreSafe(s: string)
    requires forall c :: c in s ==> Base64.Safe(c)
    ensures '-' !in ChunkSplit(s)
    ensures Visible(ChunkSplit(s)) == s
  {
    assert '-' !in s && '\n' !in s;
    if |s| <= LINE {
      VisibleEnded(s, "");
      assert s + "\n" + "" == s + "\n";
    } else {
      var head, rest := s[..LINE], s[LINE..];
      assert s == head + rest;
      assert forall c :: c in rest ==> c in s;
      assert '\n' !in head && '-' !in head;
      ChunksAreSafe(rest);
      VisibleEnded(head, ChunkSplit(rest));
    }
  }

  /** A part disturbs the receiver exactly if it is a string with a line that begins with
      the delimiter; attachments never do. */
  predicate Harmless(p: Part, d: string) {
    p.TextPart? ==> Clean(Explode(p.text), d)
  }

  lemma CleanEntity(p: Part, boundary: string)
    ensures Clean(Explode(Entity(p)), Delimiter(boundary)) <==> Harmless(p, Delimiter(boundary))
  {
    var d := Delimiter(boundary);
    var content := Explode(Content(p));
    var lines := Explode(Entity(p));
    EntityLines(p);
    var h := |HeaderLines(p)|;
    forall i | 0 <= i <= h ensures !(d <= lines[i]) {
      if i < h {
        HeaderIsPlain(p, i);
      }
    }
    forall i | 0 <= i < |content| ensures lines[h + 1 + i] == content[i] {
    }
    if p.Attachment? {
      Base64.EncodingIsSafe(p.data);
      ChunksAreSafe(Base64.Encode(p.data));
      forall i | 0 <= i < |content| ensures !(d <= content[i]) {
        LinesAreInside(Content(p), i);
        assert d[0] == '-';
      }
    }
    if Clean(content, d) {
      forall i | 0 <= i < |lines| ensures !(d <= lines[i]) {
        if i > h {
          assert lines[i] == content[i - h - 1];
        }
      }
    } else {
      var i :| 0 <= i < |content| && d <= content[i];
      assert d <= lines[h + 1 + i];
    }
  }

  // ----- the round trip -----

  lemma {:induction false} FirstDelimiterIn(a: seq<string>, b: seq<string>, d: string)
    ensures Clean(a, d) ==> FirstDelimiter(a + b, d) == |a| + FirstDelimiter(b, d)
    ensures !Clean(a, d) ==> FirstDelimiter(a + b, d) < |a|
  {
    if a == [] {
      assert a + b == b;
    } else {
      assert (a + b)[1..] == a[1..] + b && (a + b)[0] == a[0];
      FirstDelimiterIn(a[1..], b, d);
      assert forall i :: 0 < i < |a| ==> a[i] == a[1..][i - 1];
    }
  }

  /** What should arrive: the parts in order, the last one with one newline more. */
  function Expected(parts: seq<Part>): (r: seq<string>)
    ensures |r| == |parts|
  {
    if parts == [] then []
    else if |parts| == 1 then [Entity(parts[0]) + "\n"]
    else [Entity(parts[0])] + Expected(parts[1..])
  }

  /** Text lines that are cut short do not make up the text. */
  lemma CutShort(s: string, k: nat)
    requires k < |Explode(s)| && s != ""
    ensures Implode(Explode(s)[..k]) != s
    ensures Implode(Explode(s)[..k]) != s + "\n"
  {
    if k > 0 {
      var lines := Explode(s)[..k];
      ExplodeImplode(lines);
      assert s + "\n" == s + "\n" + "";
      ExplodeAppend(s, "");
      assert |Explode(s + "\n")| > |Explode(s)| > |lines|;
    }
  }

  lemma Closing(last: string)
    ensures "" + "\n" + last == "\n" + last
  {
  }

  lemma ClosingLines(boundary: string)
    requires '\n' !in boundary
    ensures Explode(Compose([], boundary)) == ["", Delimiter(boundary) + "--"]
    ensures FirstDelimiter(["", Delimiter(boundary) + "--"], Delimiter(boundary)) == 1
  {
    hide Explode;
    var last := Delimiter(boundary) + "--";
    Closing(last);
    assert Compose([], boundary) == "\n" + last by {
      assert "\n" + Delimiter(boundary) + "--" == "\n" + (Delimiter(boundary) + "--");
    }
    ExplodeAppend("", last);
    ExplodeLine("");
    ExplodeLine(last);
    var k := FirstDelimiter(["", last], Delimiter(boundary));
    assert Delimiter(boundary) <= last;
  }

  /** The text from the first part on. */
  function FromPart(parts: seq<Part>, boundary: string): string
    requires parts != []
  {
    Entity(parts[0]) + "\n" + Compose(parts[1..], boundary)
  }

  lemma ComposeLines(parts: seq<Part>, boundary: string)
    requires parts != [] && '\n' !in boundary
    ensures Explode(Compose(parts, boundary)) == [Delimiter(boundary)] + Explode(FromPart(parts, boundary))
    ensures FirstDelimiter(Explode(Compose(parts, boundary)), Delimiter(boundary)) == 0
  {
    hide Entity;
    var d := Delimiter(boundary);
    assert Compose(parts, boundary) == d + "\n" + FromPart(parts, boundary);
    ExplodeAppend(d, FromPart(parts, boundary));
    ExplodeLine(d);
  }

  lemma LastPart(p: Part, boundary: string)
    requires '\n' !in boundary
    ensures Collect(Explode(FromPart([p], boundary)), Delimiter(boundary)) == Expected([p])
        <==> Harmless(p, Delimiter(boundary))
  {
    hide Entity, Harmless, Delimiter, Explode, Implode;
    var d := Delimiter(boundary);
    var e := Explode(Entity(p));
    var lines := Explode(FromPart([p], boundary));
    assert [p][1..] == [];
    ExplodeAppend(Entity(p), Compose([], boundary));
    ClosingLines(boundary);
    assert lines == e + ["", d + "--"];
    FirstDelimiterIn(e, ["", d + "--"], d);
    CleanEntity(p, boundary);
    var k := FirstDelimiter(lines, d);
    if Clean(e, d) {
      assert lines[..k] == e + [""];
      assert Entity(p) + "\n" == Entity(p) + "\n" + "";
      ExplodeAppend(Entity(p), "");
      ExplodeLine("");
      ImplodeExplode(Entity(p) + "\n");
    } else {
      EntityNotEmpty(p);
      CutShort(Entity(p), k);
      assert lines[..k] == e[..k];
    }
  }

  lemma EntityNotEmpty(p: Part)
    ensures Entity(p) != ""
  {
    hide HeaderLines, Content, Ended;
  }

  lemma OnePart(p: Part, more: string, boundary: string)
    requires '\n' !in boundary
    requires FirstDelimiter(Explode(more), Delimiter(boundary)) == 0
    requires Explode(more)[0] == Delimiter(boundary)
    ensures Harmless(p, Delimiter(boundary)) ==>
        Collect(Explode(Entity(p) + "\n" + more), Delimiter(boundary))
        == [Entity(p)] + Collect(Explode(more)[1..], Delimiter(boundary))
    ensures !Harmless(p, Delimiter(boundary)) ==>
        Collect(Explode(Entity(p) + "\n" + more), Delimiter(boundary))[..1] != [Entity(p)]
  {
    hide Entity, Harmless, Delimiter, Explode, Implode;
    var d := Delimiter(boundary);
    var e := Explode(Entity(p));
    var lines := Explode(Entity(p) + "\n" + more);
    ExplodeAppend(Entity(p), more);
    FirstDelimiterIn(e, Explode(more), d);
    CleanEntity(p, boundary);
    var k := FirstDelimiter(lines, d);
    if Clean(e, d) {
      assert lines[..k] == e;
      assert lines[k] == d && |d| < |d + "--"|;
      assert lines[k + 1..] == Explode(more)[1..];
      ImplodeExplode(Entity(p));
    } else {
      EntityNotEmpty(p);
      CutShort(Entity(p), k);
      assert lines[..k] == e[..k];
      assert Collect(lines, d)[..1] == [Implode(lines[..k])];
    }
  }

  lemma {:induction false} CollectCompose(parts: seq<Part>, boundary: string)
    requires parts != [] && '\n' !in boundary
    ensures Collect(Explode(FromPart(parts, boundary)), Delimiter(boundary)) == Expected(parts)
        <==> forall p :: p in parts ==> Harmless(p, Delimiter(boundary))
  {
    hide Entity, Harmless, Delimiter, Explode, Implode, Collect;
    var d := Delimiter(boundary);
    var rest := parts[1..];
    assert parts == [parts[0]] + rest;
    if rest == [] {
      LastPart(parts[0], boundary);
    } else {
      CollectCompose(rest, boundary);
      ComposeLines(rest, boundary);
      OnePart(parts[0], Compose(rest, boundary), boundary);
      assert Explode(Compose(rest, boundary))[1..] == Explode(FromPart(rest, boundary));
      var got := Collect(Explode(FromPart(parts, boundary)), d);
      assert Expected(parts)[..1] == [Entity(parts[0])] && Expected(parts)[1..] == Expected(rest);
      if Harmless(parts[0], d) {
        assert got[1..] == Collect(Explode(FromPart(rest, boundary)), d);
      }
    }
  }

  /** A receiver splits the message into exactly the composed parts, the last one with one
      newline more, if and only if no string part has a line that begins with the delimiter. */
  lemma MultipartRoundTrip(parts: seq<Part>, boundary: string)
    requires parts != [] && '\n' !in boundary
    ensures Receive(Compose(parts, boundary), boundary) == Expected(parts)
        <==> forall p :: p in parts && p.TextPart? ==> Clean(Explode(p.text), Delimiter(boundary))
  {
    ComposeLines(parts, boundary);
    CollectCompose(parts, boundary);
    var lines := Explode(Compose(parts, boundary));
    assert lines[1..] == Explode(FromPart(parts, boundary));
    assert forall p: Part :: Harmless(p, Delimiter(boundary)) <==> (p.TextPart? ==> Clean(Explode(p.text), Delimiter(boundary)));
  }

  lemma {:induction false} AfterPlainHeader(h: seq<string>, content: seq<string>)
    requires forall i :: 0 <= i < |h| ==> h[i] != ""
    ensures AfterHeader(h + [""] + content) == Implode(content)
  {
    var lines := h + [""] + content;
    if h == [] {
      assert lines[1..] == content;
    } else {
      assert lines[1..] == h[1..] + [""] + content;
      AfterPlainHeader(h[1..], content);
    }
  }

  lemma ContentOfEntity(p: Part)
    ensures ContentOf(Entity(p)) == Content(p)
    ensures ContentOf(Entity(p) + "\n") == Content(p) + "\n"
  {
    hide Entity, Content, HeaderLines, Explode, Implode, AfterHeader;
    var h, c := HeaderLines(p), Explode(Content(p));
    EntityLines(p);
    forall i | 0 <= i < |h| ensures h[i] != "" {
      HeaderIsPlain(p, i);
    }
    AfterPlainHeader(h, c);
    ImplodeExplode(Content(p));
    assert Entity(p) + "\n" == Entity(p) + "\n" + "" && Content(p) + "\n" == Content(p) + "\n" + "";
    ExplodeAppend(Entity(p), "");
    ExplodeAppend(Content(p), "");
    assert h + [""] + c + Explode("") == h + [""] + (c + Explode(""));
    AfterPlainHeader(h, c + Explode(""));
    ImplodeExplode(Content(p) + "\n");
  }

  lemma AttachedIsData(p: Part)
    requires p.Attachment?
    ensures Attached(Content(p)) == p.data && Attached(Content(p) + "\n") == p.data
  {
    hide Visible, Base64.Encode, Base64.Decode, ChunkSplit;
    var s := Base64.Encode(p.data);
    Base64.EncodingIsSafe(p.data);
    ChunksAreSafe(s);
    Base64.DecodeEncode(p.data);
    VisibleConcat(Content(p), "\n");
    assert "\n" == "\n" + "";
    VisibleNewline("");
    VisibleLine("");
    assert s + "" == s;
  }

  /** The header of a part that was received: its encoding, its type and, for an attachment, that it
      is one. */
  predicate Labelled(received: string, p: Part) {
    match p
    case TextPart(_) =>
      && HeaderOf(received, "Content-Transfer-Encoding") == Some("quoted-printable")
      && HeaderOf(received, "Content-Type") == Some("text/plain; charset=ISO-8859-1")
      && HeaderOf(received, "Content-Disposition") == None
    case Attachment(_) =>
      && HeaderOf(received, "Content-Transfer-Encoding") == Some("base64")
      && HeaderOf(received, "Content-Type") == Some("application/pdf; charset=UTF-8")
      && HeaderOf(received, "Content-Disposition") == Some("attachment; somefile.pdf")
  }

  /** The receiver takes a part for what was sent. The newline before the last delimiter is one more
      at the end of the last part. */
  predicate Arrives(received: string, p: Part, last: bool) {
    match p
    case TextPart(s) => Understood(received) == Words(if last then s + "\n" else s)
    case Attachment(data) => Understood(received) == Bytes(data)
  }

  /** The text says of itself what it means: nothing in it looks encoded. */
  predicate Unencoded(p: Part) {
    p.TextPart? ==> QuotedPrintable.Literal(p.text)
  }

  /** Reading the fields of a header and the empty line after them. */
  lemma {:induction false} HeaderReads(fields: Fields, more: seq<string>)
    requires forall f :: f in fields ==> Tidy(f)
    ensures ReadFields(FieldLines(fields) + [""] + more) == fields
  {
    hide Tidy, SplitField, Field;
    if fields == [] {
      assert ([""] + more)[0] == "";
      TrimEmpty();
    } else {
      var line, rest := Field(fields[0].0, fields[0].1), FieldLines(fields[1..]) + [""] + more;
      ReadField(fields[0]);
      HeaderReads(fields[1..], more);
      ReadCons(line, rest);
      assert FieldLines(fields) + [""] + more == [line] + rest;
      assert fields == [fields[0]] + fields[1..];
    }
  }

  function FieldLines(fields: Fields): seq<string>
  {
    if fields == [] then [] else [Field(fields[0].0, fields[0].1)] + FieldLines(fields[1..])
  }

  /** The header of a part. */
  function PartFields(p: Part): Fields
  {
    match p
    case Attachment(_) =>
      [("Content-Transfer-Encoding", "base64"), ("Content-Type", "application/pdf; charset=UTF-8"),
       ("Content-Disposition", "attachment; somefile.pdf")]
    case TextPart(_) =>
      [("Content-Transfer-Encoding", "quoted-printable"), ("Content-Type", "text/plain; charset=ISO-8859-1")]
  }

  lemma FirstLine(f: (string, string), fields: Fields)
    ensures FieldLines([f] + fields) == [Field(f.0, f.1)] + FieldLines(fields)
  {
    assert ([f] + fields)[1..] == fields;
  }

  lemma PartFieldsAre(p: Part)
    ensures HeaderLines(p) == FieldLines(PartFields(p))
  {
    hide Field;
    var f := PartFields(p);
    match p {
      case Attachment(_) =>
        FirstLine(f[2], []);
        FirstLine(f[1], [f[2]]);
        FirstLine(f[0], [f[1], f[2]]);
        assert f == [f[0]] + [f[1], f[2]] && [f[1], f[2]] == [f[1]] + [f[2]] && [f[2]] == [f[2]] + [];
      case TextPart(_) =>
        FirstLine(f[1], []);
        FirstLine(f[0], [f[1]]);
        assert f == [f[0]] + [f[1]] && [f[1]] == [f[1]] + [];
    }
  }

  lemma EncodingsAreTidy()
    ensures Tidy(("Content-Transfer-Encoding", "base64")) && Tidy(("Content-Transfer-Encoding", "quoted-printable"))
  {
  }

  lemma TextTypeIsTidy()
    ensures Tidy(("Content-Type", "text/plain; charset=ISO-8859-1"))
  {
  }

  lemma PdfTypeIsTidy()
    ensures Tidy(("Content-Type", "application/pdf; charset=UTF-8"))
  {
  }

  lemma DispositionIsTidy()
    ensures Tidy(("Content-Disposition", "attachment; somefile.pdf"))
  {
  }

  lemma PartFieldsAreTidy(p: Part)
    ensures forall f :: f in PartFields(p) ==> Tidy(f)
  {
    hide Tidy;
    EncodingsAreTidy();
    TextTypeIsTidy();
    PdfTypeIsTidy();
    DispositionIsTidy();
  }

  lemma EntityHeader(p: Part, received: string, more: seq<string>)
    requires Explode(received) == HeaderLines(p) + [""] + more
    ensures ReadFields(Explode(received)) == PartFields(p) && Labelled(received, p)
  {
    hide Explode, HeaderLines, Tidy, ReadFields;
    PartFieldsAre(p);
    PartFieldsAreTidy(p);
    HeaderReads(PartFields(p), more);
    LabelsRead(p);
  }

  lemma LabelsRead(p: Part)
    ensures p.TextPart? ==> FieldOf(PartFields(p), "Content-Disposition") == None
    ensures FieldOf(PartFields(p), "Content-Transfer-Encoding") == Some(if p.TextPart? then "quoted-printable" else "base64")
    ensures FieldOf(PartFields(p), "Content-Type")
        == Some(if p.TextPart? then "text/plain; charset=ISO-8859-1" else "application/pdf; charset=UTF-8")
    ensures p.Attachment? ==> FieldOf(PartFields(p), "Content-Disposition") == Some("attachment; somefile.pdf")
  {
    NamesDiffer();
    var f := PartFields(p);
    forall n: string ensures FieldOf(f, n) == if f[0].0 == n then Some(f[0].1) else FieldOf(f[1..], n) {
    }
    forall n: string ensures FieldOf(f[1..], n) == if f[1].0 == n then Some(f[1].1) else FieldOf(f[2..], n) {
      assert f[1..][1..] == f[2..];
    }
    forall n: string ensures FieldOf(f[2..], n) == if |f| > 2 && f[2].0 == n then Some(f[2].1) else None {
      assert |f| > 2 ==> f[2..][0] == f[2] && f[2..][1..] == [];
    }
  }

  lemma NamesDiffer()
    ensures "Content-Transfer-Encoding" != "Content-Type" && "Content-Transfer-Encoding" != "Content-Disposition"
    ensures "Content-Type" != "Content-Disposition"
  {
    assert |"Content-Transfer-Encoding"| == 25 && |"Content-Type"| == 12 && |"Content-Disposition"| == 19;
  }

  lemma EntityIsLabelled(p: Part)
    ensures Labelled(Entity(p), p) && Labelled(Entity(p) + "\n", p)
  {
    hide Entity, Labelled, Explode, ReadFields, HeaderLines;
    EntityLines(p);
    EntityHeader(p, Entity(p), Explode(Content(p)));
    assert Entity(p) + "\n" == Entity(p) + "\n" + "";
    ExplodeAppend(Entity(p), "");
    assert HeaderLines(p) + [""] + Explode(Content(p)) + Explode("") == HeaderLines(p) + [""] + (Explode(Content(p)) + Explode(""));
    EntityHeader(p, Entity(p) + "\n", Explode(Content(p)) + Explode(""));
  }

  /** How a labelled part is decoded. */
  lemma LabelDecides(received: string, p: Part)
    requires Labelled(received, p)
    ensures Understood(received) ==
        if p.TextPart? then Words(QuotedPrintable.Decode(ContentOf(received))) else Bytes(Attached(ContentOf(received)))
  {
    hide HeaderOf, ContentOf, Attached, QuotedPrintable.Decode;
    assert "quoted-printable" != "base64" by { assert |"quoted-printable"| == 16 && |"base64"| == 6; }
  }

  lemma {:induction false} ExpectedArrives(parts: seq<Part>, i: nat)
    requires i < |parts|
    ensures Labelled(Expected(parts)[i], parts[i])
    ensures Arrives(Expected(parts)[i], parts[i], i == |parts| - 1) <==> Unencoded(parts[i])
  {
    hide Attached, Entity, ContentOf, QuotedPrintable.Decode, QuotedPrintable.Literal, Understood, Labelled;
    if i > 0 {
      ExpectedArrives(parts[1..], i - 1);
    } else {
      ContentOfEntity(parts[0]);
      EntityIsLabelled(parts[0]);
      LabelDecides(Expected(parts)[0], parts[0]);
      match parts[0] {
        case Attachment(_) => AttachedIsData(parts[0]);
        case TextPart(s) =>
          QuotedPrintable.DecodesToItself(s);
          QuotedPrintable.DecodesToItself(s + "\n");
          QuotedPrintable.LiteralWithNewline(s);
      }
    }
  }

  /** Every part is received under the header that the source gives it, and decoded as that header
      says: the bytes of every attachment arrive from its base64 lines. A string arrives if and only
      if nothing in it looks encoded: its header announces quoted-printable, but it is sent as it is. */
  lemma EveryPartArrives(parts: seq<Part>, boundary: string, i: nat)
    requires '\n' !in boundary && i < |parts|
    requires forall p :: p in parts && p.TextPart? ==> Clean(Explode(p.text), Delimiter(boundary))
    ensures |Receive(Compose(parts, boundary), boundary)| == |parts|
    ensures Labelled(Receive(Compose(parts, boundary), boundary)[i], parts[i])
    ensures Arrives(Receive(Compose(parts, boundary), boundary)[i], parts[i], i == |parts| - 1) <==> Unencoded(parts[i])
  {
    hide Arrives, Unencoded, Labelled;
    MultipartRoundTrip(parts, boundary);
    ExpectedArrives(parts, i);
  }

  const ESCAPED := "a=3D"

  /** The text a=3D arrives as a= and the newline of the last part. */
  lemma EscapeIsLost(boundary: string)
    requires '\n' !in boundary
    ensures var received := Receive(Compose([TextPart(ESCAPED)], boundary), boundary);
        |received| == 1 && Understood(received[0]) == Words("a=" + "\n")
  {
    hide Receive, Compose, ContentOf, Entity, Understood, Labelled;
    var p := TextPart(ESCAPED);
    EscapedDecodes();
    assert Explode(ESCAPED) == [ESCAPED];
    assert Delimiter(boundary)[0] == '-';
    MultipartRoundTrip([p], boundary);
    ContentOfEntity(p);
    EntityIsLabelled(p);
    LabelDecides(Entity(p) + "\n", p);
  }

  lemma EscapedDecodes()
    ensures Explode(ESCAPED) == [ESCAPED]
    ensures QuotedPrintable.Decode(ESCAPED + "\n") == "a=" + "\n"
  {
    hide Explode, QuotedPrintable.DecodeLine;
    ExplodeLine(ESCAPED);
    EmptyLines();
    assert ESCAPED + "\n" == ESCAPED + "\n" + "";
    ExplodeAppend(ESCAPED, "");
    var lines := [ESCAPED, ""];
    assert Explode(ESCAPED + "\n") == lines && lines[1..] == [""];
    EscapedLine();
    assert lines[0] == ESCAPED && QuotedPrintable.DecodeLines(lines[1..]) == "";
    assert QuotedPrintable.DecodeLines(lines) == "a=" + "\n" + "";
  }

  lemma EmptyLines()
    ensures Explode("") == [""] && QuotedPrintable.DecodeLine("", true) == ""
  {
  }

  lemma EscapedLine()
    ensures '\n' !in ESCAPED && QuotedPrintable.DecodeLine(ESCAPED, false) == "a=" + "\n"
  {
    assert QuotedPrintable.EscapeAt("=3D", 0);
    assert ESCAPED[1..] == "=3D" && "=3D"[3..] == "";
    assert QuotedPrintable.Unescape("=3D") == "=";
    assert QuotedPrintable.Unescape(ESCAPED) == "a=";
  }

  // ----- sending -----

  /** Base64 text is sent in lines of 76 characters, the last of them what is left. */
  lemma {:induction false} ChunkLines(s: string)
    requires '\n' !in s
    ensures var lines := Explode(ChunkSplit(s));
        && |lines| >= 2 && lines[|lines| - 1] == "" && |lines[|lines| - 2]| <= 76
        && (s != "" ==> lines[|lines| - 2] != "")
        && forall i :: 0 <= i < |lines| - 2 ==> |lines[i]| == 76
  {
    hide Explode;
    ExplodeLine("");
    if |s| <= LINE {
      assert s + "\n" == s + "\n" + "";
      ExplodeAppend(s, "");
      ExplodeLine(s);
    } else {
      ExplodeAppend(s[..LINE], ChunkSplit(s[LINE..]));
      ExplodeLine(s[..LINE]);
      ChunkLines(s[LINE..]);
      var rest := Explode(ChunkSplit(s[LINE..]));
      var lines := Explode(ChunkSplit(s));
      assert lines == [s[..LINE]] + rest;
      assert forall i :: 0 < i < |lines| ==> lines[i] == rest[i - 1];
    }
  }

  datatype HeaderValue = One(text: string) | Many(items: seq<string>)

  /** `implode(",", items)` */
  function Commas(items: seq<string>): string
  {
    if items == [] then "" else if |items| == 1 then items[0] else items[0] + "," + Commas(items[1..])
  }

  lemma CommasCons(items: seq<string>)
    requires items != []
    ensures Commas(items) == items[0] + if |items| == 1 then "" else "," + Commas(items[1..])
  {
  }

  /** Merged recipients read back one by one. */
  lemma {:induction false} RecipientsRead(items: seq<string>)
    requires items != [] && forall i :: 0 <= i < |items| ==> ',' !in items[i]
    ensures AtCommas(Commas(items)) == items
    decreases |items|, |items[0]|
  {
    var s := Commas(items);
    if items[0] == "" {
      if |items| > 1 {
        assert s == "," + Commas(items[1..]);
        assert s[1..] == Commas(items[1..]);
        RecipientsRead(items[1..]);
      }
    } else {
      var shorter := [items[0][1..]] + items[1..];
      assert forall i :: 0 <= i < |shorter| ==> ',' !in shorter[i];
      RecipientsRead(shorter);
      assert shorter[1..] == items[1..] && items[0] == [items[0][0]] + items[0][1..];
      CommasCons(items);
      CommasCons(shorter);
      assert s == [items[0][0]] + Commas(shorter);
      assert s[1..] == Commas(shorter) && s[0] == items[0][0];
      assert items[0][0] in items[0];
      assert items == [[items[0][0]] + shorter[0]] + shorter[1..];
    }
  }

  function Merged(v: HeaderValue): string
  {
    if v.Many? then Commas(v.items) else v.text
  }

  const TO := "To"
  const SUBJECT := "Subject"
  const FROM := "From"
  const VERSION := "Mime-Version"

  /** The headers that go into the header block: all but the recipients and the subject. */
  function Kept(headers: seq<(string, HeaderValue)>): Fields
  {
    if headers == [] then []
    else (if headers[0].0 == TO || headers[0].0 == SUBJECT then [] else [(headers[0].0, Merged(headers[0].1))])
         + Kept(headers[1..])
  }

  /** Exactly the headers with other keys are kept, and they keep their order. */
  lemma {:induction false} KeptAre(a: seq<(string, HeaderValue)>, b: seq<(string, HeaderValue)>)
    ensures Kept(a + b) == Kept(a) + Kept(b)
    ensures forall i :: 0 <= i < |a| && a[i].0 != "To" && a[i].0 != "Subject" ==> (a[i].0, Merged(a[i].1)) in Kept(a)
    ensures forall f :: f in Kept(a) ==> f.0 != "To" && f.0 != "Subject"
    ensures |Kept(a)| <= |a|
  {
    hide Merged;
    if a == [] {
      assert a + b == b;
    } else {
      assert (a + b)[1..] == a[1..] + b && (a + b)[0] == a[0];
      KeptAre(a[1..], b);
      forall i | 0 <= i < |a| && a[i].0 != "To" && a[i].0 != "Subject"
        ensures (a[i].0, Merged(a[i].1)) in Kept(a)
      {
        if i > 0 {
          assert a[i] == a[1..][i - 1];
        }
      }
    }
  }

  function Crlf(fields: Fields): string
  {
    if fields == [] then "" else Field(fields[0].0, fields[0].1) + "\r\n" + Crlf(fields[1..])
  }

  function Multipart(boundary: string): string
  {
    "multipart/mixed; boundary=" + boundary
  }

  function MimeLines(boundary: string): string
  {
    Field(VERSION, "1.0") + "\n" + Field(TYPE, Multipart(boundary)) + "\n\n"
  }

  /** The fields the sender means to announce. */
  function Announced(sender: string, headers: seq<(string, HeaderValue)>): Fields
  {
    (if sender == "" then [] else [(FROM, sender)]) + Kept(headers)
  }

  datatype Body = Ascii(text: string) | Mime(parts: seq<Part>)

  /** What is handed to `mail`: the composed text, or the sole part of a short list as it is. */
  datatype Payload = Composed(text: string) | Bare(parts: seq<Part>)

  method ComposeMultipart(parts: seq<Part>, boundary: string) returns (msg: string)
    ensures msg == Compose(parts, boundary)
  {
    hide Entity;
    msg := "";
    var i := 0;
    while i < |parts|
      invariant 0 <= i <= |parts|
      invariant msg + Compose(parts[i..], boundary) == Compose(parts, boundary)
    {
      ghost var before := msg;
      msg := msg + "--" + boundary + "\n";
      var part := ComposePart(parts[i]);
      msg := msg + part;
      msg := msg + "\n";
      assert parts[i..][1..] == parts[i + 1..];
      Regroup(before, boundary, part, Compose(parts[i + 1..], boundary));
      i := i + 1;
    }
    var close := "\n--" + boundary + "--";
    assert close == Compose(parts[i..], boundary) by {
      assert "\n--" == "\n" + "--";
      assert close == "\n" + ("--" + boundary) + "--";
    }
    msg := msg + close;
  }

  lemma Regroup(before: string, boundary: string, part: string, rest: string)
    ensures before + "--" + boundary + "\n" + part + "\n" + rest
         == before + (Delimiter(boundary) + "\n" + part + "\n" + rest)
  {
    var a, b := "\n" + part + "\n" + rest, "--" + boundary;
    assert before + "--" + boundary == before + b;
    assert before + "--" + boundary + "\n" + part + "\n" + rest == before + b + a;
    assert Delimiter(boundary) + "\n" + part + "\n" + rest == b + a;
  }

  lemma EndedTwo(a: string, b: string)
    ensures Ended([a, b]) == a + "\n" + (b + "\n")
  {
    assert [a, b][1..] == [b];
    assert Ended([b]) == b + "\n" + "" == b + "\n";
  }

  lemma EndedThree(a: string, b: string, c: string)
    ensures Ended([a, b, c]) == a + "\n" + (b + "\n") + (c + "\n")
  {
    assert [a, b, c][1..] == [b, c];
    EndedTwo(b, c);
  }

  method ComposePart(p: Part) returns (msg: string)
    ensures msg == Entity(p)
  {
    hide Ended, Field, ChunkSplit;
    match p {
      case Attachment(data) =>
        msg := Field(ENCODING, "base64") + "\n";
        msg := msg + (Field(TYPE, PDF) + "\n");
        msg := msg + (Field(DISPOSITION, NAMED) + "\n");
        EndedThree(Field(ENCODING, "base64"), Field(TYPE, PDF), Field(DISPOSITION, NAMED));
        msg := msg + "\n";
        msg := msg + ChunkSplit(Base64.Encode(data));
      case TextPart(s) =>
        msg := Field(ENCODING, "quoted-printable") + "\n";
        msg := msg + (Field(TYPE, PLAIN) + "\n");
        EndedTwo(Field(ENCODING, "quoted-printable"), Field(TYPE, PLAIN));
        msg := msg + "\n";
        msg := msg + s;
    }
  }

  /** The header array has this key first at this place. Keys of an array are unique, so it has it
      nowhere else. */
  ghost predicate HasKey(headers: seq<(string, HeaderValue)>, key: string, i: int) {
    && 0 <= i < |headers| && headers[i].0 == key
    && forall j :: 0 <= j < i ==> headers[j].0 != key
  }

  /** The value that a key of the header array has after merging. */
  function ValueOf(headers: seq<(string, HeaderValue)>, key: string): (r: Option<string>)
  {
    if headers == [] then None
    else if headers[0].0 == key then Some(Merged(headers[0].1))
    else ValueOf(headers[1..], key)
  }

  lemma {:induction false} ValueIsThere(headers: seq<(string, HeaderValue)>, key: string)
    ensures forall i :: HasKey(headers, key, i) ==> ValueOf(headers, key) == Some(Merged(headers[i].1))
    ensures ValueOf(headers, key).Some? ==> exists i :: HasKey(headers, key, i)
  {
    hide Merged;
    if headers != [] && headers[0].0 != key {
      ValueIsThere(headers[1..], key);
      forall i | HasKey(headers, key, i) ensures ValueOf(headers, key) == Some(Merged(headers[i].1)) {
        assert HasKey(headers[1..], key, i - 1);
      }
      if i :| HasKey(headers[1..], key, i) {
        assert HasKey(headers, key, i + 1);
      }
    } else if headers != [] {
      assert HasKey(headers, key, 0);
    }
  }

  /** What becomes of the recipients and the subject. */
  lemma AddressIsThere(headers: seq<(string, HeaderValue)>)
    ensures forall i :: HasKey(headers, "To", i) ==> ValueOf(headers, TO) == Some(Merged(headers[i].1))
    ensures ValueOf(headers, TO).Some? ==> exists i :: HasKey(headers, "To", i)
    ensures forall i :: HasKey(headers, "Subject", i) ==> ValueOf(headers, SUBJECT) == Some(Merged(headers[i].1))
    ensures ValueOf(headers, SUBJECT).Some? ==> exists i :: HasKey(headers, "Subject", i)
  {
    hide ValueOf, Merged, HasKey;
    ValueIsThere(headers, "To");
    ValueIsThere(headers, "Subject");
  }

  /** What is handed to `mail`. */
  datatype Letter = Letter(to: Option<string>, subject: Option<string>, payload: Payload, headers: string)

  lemma CrlfCons(f: (string, string), fields: Fields)
    ensures Crlf([f] + fields) == Field(f.0, f.1) + "\r\n" + Crlf(fields)
  {
    assert ([f] + fields)[1..] == fields;
  }

  lemma KeptFrom(headers: seq<(string, HeaderValue)>, i: nat)
    requires i < |headers|
    ensures Crlf(Kept(headers[i..])) ==
        (if headers[i].0 == TO || headers[i].0 == SUBJECT then ""
         else Field(headers[i].0, Merged(headers[i].1)) + "\r\n") + Crlf(Kept(headers[i + 1..]))
  {
    hide Field, Merged, Crlf;
    var f, rest := (headers[i].0, Merged(headers[i].1)), Kept(headers[i + 1..]);
    assert headers[i..][1..] == headers[i + 1..];
    CrlfCons(f, rest);
    assert [] + rest == rest;
    assert "" + Crlf(rest) == Crlf(rest);
  }

  method ComposeHeaders(sender: string, headers: seq<(string, HeaderValue)>)
    returns (hdrs: string, merged: seq<(string, HeaderValue)>)
    ensures hdrs == Crlf(Announced(sender, headers))
    ensures |merged| == |headers|
    ensures forall i :: 0 <= i < |headers| ==> merged[i] == (headers[i].0, One(Merged(headers[i].1)))
  {
    hide Field, Crlf, Kept;
    hdrs := "";
    ghost var rest := Kept(headers);
    if sender != "" {
      hdrs := hdrs + Field(FROM, sender) + "\r\n";
      CrlfCons((FROM, sender), rest);
    } else {
      assert Announced(sender, headers) == [] + rest == rest;
    }
    merged := headers;
    assert headers[0..] == headers;
    var i := 0;
    while i < |headers|
      invariant 0 <= i <= |headers| == |merged|
      invariant forall j :: 0 <= j < i ==> merged[j] == (headers[j].0, One(Merged(headers[j].1)))
      invariant forall j :: i <= j < |headers| ==> merged[j] == headers[j]
      invariant hdrs + Crlf(Kept(headers[i..])) == Crlf(Announced(sender, headers))
    {
      var key, value := merged[i].0, Merged(merged[i].1);
      merged := merged[i := (key, One(value))];
      KeptFrom(headers, i);
      if key != TO && key != SUBJECT {
        hdrs := hdrs + (Field(key, value) + "\r\n");
      }
      i := i + 1;
    }
    NothingKept(headers[i..]);
  }

  lemma NothingKept(headers: seq<(string, HeaderValue)>)
    requires headers == []
    ensures Crlf(Kept(headers)) == ""
  {
  }

  method Deliver(body: Body, headers: seq<(string, HeaderValue)>, sender: string, boundary: string)
    returns (letter: Letter)
    ensures forall i :: HasKey(headers, "To", i) ==> letter.to == Some(Merged(headers[i].1))
    ensures letter.to.Some? ==> exists i :: HasKey(headers, "To", i)
    ensures forall i :: HasKey(headers, "Subject", i) ==> letter.subject == Some(Merged(headers[i].1))
    ensures letter.subject.Some? ==> exists i :: HasKey(headers, "Subject", i)
    ensures body.Ascii? ==> letter.payload == Composed(body.text) && letter.headers == Crlf(Announced(sender, headers))
    ensures body.Mime? && |body.parts| > 1 ==>
        letter.payload == Composed(Compose(body.parts, boundary))
        && letter.headers == Crlf(Announced(sender, headers)) + MimeLines(boundary)
    ensures body.Mime? && |body.parts| <= 1 ==>
        letter.payload == Bare(body.parts) && letter.headers == Crlf(Announced(sender, headers))
  {
    hide *;
    var hdrs, merged := ComposeHeaders(sender, headers);
    MergedValue(headers, merged, TO);
    MergedValue(headers, merged, SUBJECT);
    AddressIsThere(headers);
    var payload;
    match body {
      case Ascii(text) =>
        payload := Composed(text);
      case Mime(parts) =>
        if |parts| > 1 {
          hdrs := hdrs + MimeLines(boundary);
          var msg := ComposeMultipart(parts, boundary);
          payload := Composed(msg);
        } else {
          payload := Bare(parts);
        }
    }
    letter := Letter(ValueOf(merged, TO), ValueOf(merged, SUBJECT), payload, hdrs);
  }

  lemma {:induction false} MergedValue(headers: seq<(string, HeaderValue)>, merged: seq<(string, HeaderValue)>, key: string)
    requires |merged| == |headers|
    requires forall i :: 0 <= i < |headers| ==> merged[i] == (headers[i].0, One(Merged(headers[i].1)))
    ensures ValueOf(merged, key) == ValueOf(headers, key)
  {
    if headers != [] {
      assert merged[0] == (headers[0].0, One(Merged(headers[0].1)));
      MergedValue(headers[1..], merged[1..], key);
    }
  }

  // ----- reading the header block -----

  /** A field that fits on one line. */
  predicate Tidy(field: (string, string)) {
    && ':' !in field.0 && '\n' !in field.0
    && '\n' !in field.1 && '\r' !in field.1
  }

  lemma {:induction false} ColonAt(name: string, value: string)
    requires ':' !in name
    ensures ColonIn(Field(name, value)) == |name|
  {
    if name != "" {
      assert name[0] in name;
      assert Field(name, value)[1..] == Field(name[1..], value);
      ColonAt(name[1..], value);
    }
  }

  lemma ReadField(field: (string, string))
    requires Tidy(field)
    ensures Trim(Field(field.0, field.1) + "\r") == Field(field.0, field.1)
    ensures Trim(Field(field.0, field.1)) == Field(field.0, field.1) != ""
    ensures SplitField(Field(field.0, field.1)) == field
    ensures '\n' !in Field(field.0, field.1)
  {
    var line := Field(field.0, field.1);
    ColonAt(field.0, field.1);
    assert line[..|field.0|] == field.0 && line[|field.0| + 2..] == field.1;
    assert field.1 != "" ==> line[|line| - 1] == field.1[|field.1| - 1] && field.1[|field.1| - 1] in field.1;
    assert field.1 == "" ==> line[|line| - 1] == ' ';
  }

  /** Every announced header reads back, in order, followed by what comes after. */
  lemma {:induction false} CrlfReads(fields: Fields, more: string)
    requires forall f :: f in fields ==> Tidy(f)
    ensures ReadFields(Explode(Crlf(fields) + more)) == fields + ReadFields(Explode(more))
  {
    hide Explode, SplitField, Trim, Field, Tidy;
    if fields == [] {
      assert Crlf(fields) + more == more;
    } else {
      var line, rest := Field(fields[0].0, fields[0].1), Crlf(fields[1..]) + more;
      ReadField(fields[0]);
      CrlfJoin(line, Crlf(fields[1..]), more);
      ExplodeAppend(line + "\r", rest);
      ExplodeLine(line + "\r");
      CrlfReads(fields[1..], more);
      var lines := Explode(Crlf(fields) + more);
      assert lines == [line + "\r"] + Explode(rest) && lines[1..] == Explode(rest);
      assert fields == [fields[0]] + fields[1..];
    }
  }

  /** Every announced header is a line of its own that ends with a carriage return. */
  lemma {:induction false} CrlfLines(fields: Fields, more: string)
    requires forall f :: f in fields ==> '\n' !in f.0 && '\n' !in f.1
    ensures Explode(Crlf(fields) + more) == ReturnLines(fields) + Explode(more)
  {
    hide Explode;
    if fields == [] {
      assert Crlf(fields) + more == more;
    } else {
      var line, rest := fields[0].0 + ": " + fields[0].1, Crlf(fields[1..]) + more;
      CrlfJoin(line, Crlf(fields[1..]), more);
      ExplodeAppend(line + "\r", rest);
      ExplodeLine(line + "\r");
      CrlfLines(fields[1..], more);
    }
  }

  function ReturnLines(fields: Fields): seq<string>
  {
    if fields == [] then [] else [fields[0].0 + ": " + fields[0].1 + "\r"] + ReturnLines(fields[1..])
  }

  lemma CrlfJoin(line: string, rest: string, more: string)
    ensures line + "\r\n" + rest + more == line + "\r" + "\n" + (rest + more)
  {
    assert "\r\n" == "\r" + "\n";
    assert line + "\r\n" == line + "\r" + "\n";
  }

  lemma MimeLinesRead(boundary: string)
    requires '\n' !in boundary && '\r' !in boundary
    ensures ReadFields(Explode(MimeLines(boundary))) == [(VERSION, "1.0"), (TYPE, Multipart(boundary))]
  {
    hide Explode, SplitField, Trim, Field, Multipart;
    var v, t := Field(VERSION, "1.0"), Field(TYPE, Multipart(boundary));
    MimeFieldsAreTidy(boundary);
    ReadField((VERSION, "1.0"));
    ReadField((TYPE, Multipart(boundary)));
    assert MimeLines(boundary) == v + "\n" + (t + "\n" + ("" + "\n" + ""));
    ExplodeAppend(v, t + "\n" + ("" + "\n" + ""));
    ExplodeAppend(t, "" + "\n" + "");
    ExplodeAppend("", "");
    ExplodeLine(v);
    ExplodeLine(t);
    ExplodeLine("");
    TrimEmpty();
    ReadTwo(v, t);
    assert Explode(MimeLines(boundary)) == [v, t, "", ""];
  }

  lemma ReadCons(line: string, rest: seq<string>)
    requires Trim(line) != ""
    ensures ReadFields([line] + rest) == [SplitField(Trim(line))] + ReadFields(rest)
  {
    hide Trim, SplitField;
    assert ([line] + rest)[1..] == rest;
  }

  lemma ReadTwo(v: string, t: string)
    requires Trim(v) != "" && Trim(t) != "" && Trim("") == ""
    ensures ReadFields([v, t, "", ""]) == [SplitField(Trim(v)), SplitField(Trim(t))]
  {
    hide Trim, SplitField;
    ReadCons(t, ["", ""]);
    ReadCons(v, [t] + ["", ""]);
    assert ReadFields(["", ""]) == [];
    assert [v, t, "", ""] == [v] + ([t] + ["", ""]);
  }

  lemma TrimEmpty()
    ensures Trim("") == ""
  {
  }

  lemma VersionIsTidy()
    ensures Tidy((VERSION, "1.0"))
  {
  }

  lemma MimeFieldsAreTidy(boundary: string)
    requires '\n' !in boundary && '\r' !in boundary
    ensures Tidy((VERSION, "1.0")) && Tidy((TYPE, Multipart(boundary)))
  {
    VersionIsTidy();
    MultipartIsOneLine(boundary);
  }

  lemma MultipartIsOneLine(boundary: string)
    requires '\n' !in boundary && '\r' !in boundary
    ensures '\n' !in Multipart(boundary) && '\r' !in Multipart(boundary)
  {
  }

  /** The receiver of a multipart message reads exactly the announced headers, then the MIME
      version and the boundary. */
  lemma LetterIsRead(parts: seq<Part>, headers: seq<(string, HeaderValue)>, sender: string, boundary: string)
    requires |parts| > 1 && '\n' !in boundary && '\r' !in boundary
    requires forall f :: f in Announced(sender, headers) ==> Tidy(f)
    ensures ReadFields(Explode(Crlf(Announced(sender, headers)) + MimeLines(boundary)))
        == (if sender == "" then [] else [("From", sender)]) + Kept(headers)
           + [("Mime-Version", "1.0"), ("Content-Type", "multipart/mixed; boundary=" + boundary)]
  {
    CrlfReads(Announced(sender, headers), MimeLines(boundary));
    MimeLinesRead(boundary);
  }
}
