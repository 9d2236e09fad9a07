/**
 * The client's multipart/form-data request body (RFC 7578, with the framing
 * of section 5.1 of RFC 2046): one section per text field, then one `File<n>`
 * section per attached file, then the close delimiter.
 *
 * The boundary is a parameter (the client draws a fresh random one for each
 * request) and file contents are given as text.
 */
module Multipart {
  import opened Dicts
  import opened Decimal
  import opened Wrappers

  const CRLF := "\r\n"
  const OCTET_STREAM_HEADER := "Content-type: application/octet-stream"
  const FILE_COUNT_FIELD := "nFileCount"

  /** The value of the request's `Content-Type` header. */
  function ContentType(boundary: string): string {
    "multipart/form-data; boundary=" + boundary
  }

  /** `str.join`: the parts with `sep` between consecutive ones. */
  function Join(sep: string, parts: seq<string>): string {
    if parts == [] then ""
    else if |parts| == 1 then parts[0]
    else parts[0] + sep + Join(sep, parts[1..])
  }

  function DashBoundary(boundary: string): string {
    "--" + boundary
  }

  /** The last line of every body: the dash-boundary followed by `--`. */
  function CloseDelimiter(boundary: string): string {
    "--" + boundary + "--" + CRLF
  }

  function FieldDisposition(name: string): string {
    "Content-disposition: form-data; name=\"" + name + "\""
  }

  /** The header of the `n`-th attached file (numbered from 1). */
  function FileDisposition(n: nat, filename: string): string {
    "Content-disposition: form-data; name=\"File" + NatToString(n) + "\"; filename=\"" + filename + "\""
  }

  /** The section of one text field. */
  function FieldSection(boundary: string, name: string, value: string): string {
    DashBoundary(boundary) + CRLF + FieldDisposition(name) + CRLF + CRLF + value + CRLF
  }

  /** The section of the `n`-th attached file. */
  function FileSection(boundary: string, n: nat, filename: string, contents: string): string {
    DashBoundary(boundary) + CRLF + FileDisposition(n, filename) + CRLF
      + OCTET_STREAM_HEADER + CRLF + CRLF + contents + CRLF
  }

  /** The field sections, in the dictionary's iteration order. */
  function FieldSections(boundary: string, fields: Dict<string>): string {
    if fields == [] then ""
    else
      var last := fields[|fields| - 1];
      FieldSections(boundary, fields[..|fields| - 1]) + FieldSection(boundary, last.0, last.1)
  }

  /** The file sections, in iteration order; the file at position `i` is `File<i+1>`. */
  function FileSections(boundary: string, files: Dict<string>): string {
    if files == [] then ""
    else
      var last := files[|files| - 1];
      FileSections(boundary, files[..|files| - 1]) + FileSection(boundary, |files|, last.0, last.1)
  }

  /** The fields actually encoded: with at least one file, `nFileCount` is set
      to the number of files; without files the fields are left as they are. */
  function WithFileCount(fields: Dict<string>, files: Dict<string>): (r: Dict<string>)
    ensures |files| > 0 ==> Get(r, FILE_COUNT_FIELD) == Some(NatToString(|files|))
    ensures |files| > 0 ==> forall k :: k != FILE_COUNT_FIELD ==> Get(r, k) == Get(fields, k)
    ensures |files| == 0 ==> r == fields
    ensures UniqueKeys(fields) ==> UniqueKeys(r)
  {
    if |files| > 0 then
      PutGet(fields, FILE_COUNT_FIELD, NatToString(|files|));
      PutUnique(fields, FILE_COUNT_FIELD, NatToString(|files|));
      Put(fields, FILE_COUNT_FIELD, NatToString(|files|))
    else fields
  }

  /** The body for already-final fields. */
  function Layout(boundary: string, fields: Dict<string>, files: Dict<string>): string {
    FieldSections(boundary, fields) + FileSections(boundary, files) + CloseDelimiter(boundary)
  }

  /** The body the encoder produces for the given fields and files. */
  function Body(boundary: string, fields: Dict<string>, files: Dict<string>): string {
    Layout(boundary, WithFileCount(fields, files), files)
  }

  /** Every body ends with the close delimiter, and has the sections before it. */
  lemma {:induction false} BodyEnds(boundary: string, fields: Dict<string>, files: Dict<string>)
    ensures var body := Body(boundary, fields, files);
      var close := CloseDelimiter(boundary);
      && |body| >= |close|
      && body[|body| - |close|..] == close
      && body[..|body| - |close|] ==
           FieldSections(boundary, WithFileCount(fields, files)) + FileSections(boundary, files)
  {
    var sections := FieldSections(boundary, WithFileCount(fields, files)) + FileSections(boundary, files);
    var close := CloseDelimiter(boundary);
    assert Body(boundary, fields, files) == sections + close;
  }

  // ---------------------------------------------------------------------
  // The encoder, written as the client writes it: a buffer appended to in
  // two loops, with a running counter for the file slots.

  lemma {:induction false} JoinStep(sep: string, parts: seq<string>)
    requires |parts| >= 2
    ensures Join(sep, parts) == parts[0] + sep + Join(sep, parts[1..])
  {
  }

  lemma {:induction false} JoinFive(sep: string, a: string, b: string, c: string, d: string, e: string)
    ensures Join(sep, [a, b, c, d, e]) == a + sep + b + sep + c + sep + d + sep + e
  {
    JoinStep(sep, [a, b, c, d, e]);
    assert [a, b, c, d, e][1..] == [b, c, d, e];
    JoinStep(sep, [b, c, d, e]);
    assert [b, c, d, e][1..] == [c, d, e];
    JoinStep(sep, [c, d, e]);
    assert [c, d, e][1..] == [d, e];
    JoinStep(sep, [d, e]);
    assert [d, e][1..] == [e];
    assert Join(sep, [e]) == e;
  }

  lemma {:induction false} JoinThree(sep: string, a: string, b: string, c: string)
    ensures Join(sep, [a, b, c]) == a + sep + b + sep + c
  {
    JoinStep(sep, [a, b, c]);
    assert [a, b, c][1..] == [b, c];
    JoinStep(sep, [b, c]);
    assert [b, c][1..] == [c];
    assert Join(sep, [c]) == c;
  }

  /** The pieces the first loop joins for one field make up its section. */
  lemma {:induction false} FieldSectionJoin(boundary: string, name: string, value: string)
    ensures FieldSection(boundary, name, value)
         == Join(CRLF, ["--" + boundary, FieldDisposition(name), "", value, ""])
  {
    var d := "--" + boundary;
    var h := FieldDisposition(name);
    JoinFive(CRLF, d, h, "", value, "");
    assert d + CRLF + h + CRLF + "" + CRLF + value + CRLF + "" == d + CRLF + h + CRLF + CRLF + value + CRLF;
  }

  /** The pieces the second loop writes for file number `n` make up its section. */
  lemma {:induction false} FileSectionJoin(boundary: string, n: nat, filename: string, contents: string)
    ensures FileSection(boundary, n, filename, contents)
         == Join(CRLF, ["--" + boundary, FileDisposition(n, filename), ""])
          + Join(CRLF, [OCTET_STREAM_HEADER, "", ""]) + contents + CRLF
  {
    var d := "--" + boundary;
    var h := FileDisposition(n, filename);
    JoinThree(CRLF, d, h, "");
    JoinThree(CRLF, OCTET_STREAM_HEADER, "", "");
    Regroup(d, h, OCTET_STREAM_HEADER, contents);
  }

  lemma {:induction false} Regroup(d: string, h: string, o: string, c: string)
    ensures d + CRLF + h + CRLF + o + CRLF + CRLF + c + CRLF
         == (d + CRLF + h + CRLF + "") + (o + CRLF + "" + CRLF + "") + c + CRLF
  {
  }

  /** What the first loop appends for one field is that field's section. */
  lemma {:induction false} FieldStep(boundary: string, fields: Dict<string>, i: nat)
    requires i < |fields|
    ensures FieldSections(boundary, fields[..i + 1])
         == FieldSections(boundary, fields[..i])
          + Join(CRLF, ["--" + boundary, FieldDisposition(fields[i].0), "", fields[i].1, ""])
  {
    FieldSectionJoin(boundary, fields[i].0, fields[i].1);
    assert fields[..i + 1][..i] == fields[..i];
  }

  /** What the second loop appends for the file at position `j` is the
      section of file number `j + 1`. */
  lemma {:induction false} FileStep(boundary: string, files: Dict<string>, j: nat)
    requires j < |files|
    ensures FileSections(boundary, files[..j + 1])
         == FileSections(boundary, files[..j]) + FileSection(boundary, j + 1, files[j].0, files[j].1)
  {
    assert files[..j + 1][..j] == files[..j];
  }

  /** Encodes `fields` and `files` with the given boundary and returns the
      content type and the body. */
  method Encode(fields: Dict<string>, files: Dict<string>, boundary: string)
    returns (contentType: string, body: string)
    ensures contentType == ContentType(boundary)
    ensures body == Body(boundary, fields, files)
  {
    var encoded := fields;
    if |files| > 0 {
      encoded := Put(encoded, FILE_COUNT_FIELD, NatToString(|files|));
    }
    assert encoded == WithFileCount(fields, files);
    var buf := "";
    var i := 0;
    while i < |encoded|
      invariant 0 <= i <= |encoded|
      invariant buf == FieldSections(boundary, encoded[..i])
    {
      var (k, v) := encoded[i];
      FieldStep(boundary, encoded, i);
      buf := buf + Join(CRLF, ["--" + boundary, FieldDisposition(k), "", v, ""]);
      i := i + 1;
    }
    assert encoded[..i] == encoded;
    ghost var fieldPart := buf;
    var n := 0;
    var j := 0;
    while j < |files|
      invariant 0 <= j <= |files| && n == j
      invariant buf == fieldPart + FileSections(boundary, files[..j])
    {
      n := n + 1;
      var (f, h) := files[j];
      var header := Join(CRLF, ["--" + boundary, FileDisposition(n, f), ""]);
      var typeLines := Join(CRLF, [OCTET_STREAM_HEADER, "", ""]);
      FileStep(boundary, files, j);
      FileSectionJoin(boundary, n, f, h);
      AppendFour(buf, header, typeLines, h, CRLF);
      buf := buf + header;
      buf := buf + typeLines;
      buf := buf + h;
      buf := buf + CRLF;
      AppendTwo(fieldPart, FileSections(boundary, files[..j]), FileSection(boundary, n, f, h));
      j := j + 1;
    }
    assert files[..j] == files;
    buf := buf + ("--" + boundary + "--" + CRLF);
    contentType := "multipart/form-data; boundary=" + boundary;
    body := buf;
  }

  lemma {:induction false} AppendTwo(x: string, a: string, b: string)
    ensures x + a + b == x + (a + b)
  {
  }

  lemma {:induction false} AppendFour(x: string, a: string, b: string, c: string, d: string)
    ensures x + a + b + c + d == x + (a + b + c + d)
  {
  }

  // ---------------------------------------------------------------------
  // The reference: the framing of section 5.1.1 of RFC 2046. A body is a
  // list of parts, each a block of header lines, an empty line and the
  // content; every part is introduced by the dash-boundary line and the last
  // one is followed by the close delimiter.

  datatype Part = Part(headers: seq<string>, content: string)

  /** The header lines of a part, each ended by CRLF. */
  function HeaderBlock(headers: seq<string>): string {
    if headers == [] then "" else headers[0] + CRLF + HeaderBlock(headers[1..])
  }

  /** A part as it stands between two boundary lines. */
  function PartText(p: Part): string {
    HeaderBlock(p.headers) + CRLF + p.content
  }

  function Encapsulation(boundary: string, p: Part): string {
    DashBoundary(boundary) + CRLF + PartText(p) + CRLF
  }

  function Encapsulations(boundary: string, parts: seq<Part>): string {
    if parts == [] then "" else Encapsulation(boundary, parts[0]) + Encapsulations(boundary, parts[1..])
  }

  function Frame(boundary: string, parts: seq<Part>): string {
    Encapsulations(boundary, parts) + CloseDelimiter(boundary)
  }

  /** A text field is a part with one header that names it. */
  function FieldParts(fields: Dict<string>): seq<Part> {
    seq(|fields|, i requires 0 <= i < |fields| => Part([FieldDisposition(fields[i].0)], fields[i].1))
  }

  /** The file at position `i` is a part named `File<i+1>` that carries its
      filename, the generic binary content type and the contents as given. */
  function FileParts(files: Dict<string>): seq<Part> {
    seq(|files|, i requires 0 <= i < |files| =>
      Part([FileDisposition(i + 1, files[i].0), OCTET_STREAM_HEADER], files[i].1))
  }

  lemma {:induction false} EncapsulationsAppend(boundary: string, ps: seq<Part>, qs: seq<Part>)
    ensures Encapsulations(boundary, ps + qs) == Encapsulations(boundary, ps) + Encapsulations(boundary, qs)
  {
    if ps != [] {
      EncapsulationsAppend(boundary, ps[1..], qs);
      assert (ps + qs)[0] == ps[0];
      assert (ps + qs)[1..] == ps[1..] + qs;
      calc {
        Encapsulations(boundary, ps + qs);
        Encapsulation(boundary, ps[0]) + Encapsulations(boundary, ps[1..] + qs);
        Encapsulation(boundary, ps[0]) + (Encapsulations(boundary, ps[1..]) + Encapsulations(boundary, qs));
        (Encapsulation(boundary, ps[0]) + Encapsulations(boundary, ps[1..])) + Encapsulations(boundary, qs);
      }
    } else {
      assert ps + qs == qs;
    }
  }

  lemma {:induction false} FieldPartsSnoc(fields: Dict<string>)
    requires fields != []
    ensures FieldParts(fields) == FieldParts(fields[..|fields| - 1])
      + [Part([FieldDisposition(fields[|fields| - 1].0)], fields[|fields| - 1].1)]
  {
  }

  lemma {:induction false} FieldPartSection(boundary: string, name: string, value: string)
    ensures Encapsulations(boundary, [Part([FieldDisposition(name)], value)])
         == FieldSection(boundary, name, value)
  {
    var p := Part([FieldDisposition(name)], value);
    assert HeaderBlock(p.headers) == FieldDisposition(name) + CRLF;
    assert Encapsulations(boundary, [p]) == Encapsulation(boundary, p);
  }

  lemma {:induction false} FieldSectionsFrame(boundary: string, fields: Dict<string>)
    ensures FieldSections(boundary, fields) == Encapsulations(boundary, FieldParts(fields))
  {
    if fields != [] {
      var init := fields[..|fields| - 1];
      var last := fields[|fields| - 1];
      FieldSectionsFrame(boundary, init);
      var lastPart := Part([FieldDisposition(last.0)], last.1);
      FieldPartsSnoc(fields);
      EncapsulationsAppend(boundary, FieldParts(init), [lastPart]);
      FieldPartSection(boundary, last.0, last.1);
    }
  }

  lemma {:induction false} FilePartSection(boundary: string, n: nat, filename: string, contents: string)
    ensures Encapsulations(boundary, [Part([FileDisposition(n, filename), OCTET_STREAM_HEADER], contents)])
         == FileSection(boundary, n, filename, contents)
  {
    var h := FileDisposition(n, filename);
    var p := Part([h, OCTET_STREAM_HEADER], contents);
    assert [h, OCTET_STREAM_HEADER][1..] == [OCTET_STREAM_HEADER];
    assert HeaderBlock([OCTET_STREAM_HEADER]) == OCTET_STREAM_HEADER + CRLF;
    assert HeaderBlock(p.headers) == h + CRLF + (OCTET_STREAM_HEADER + CRLF);
    assert Encapsulations(boundary, [p]) == Encapsulation(boundary, p);
  }

  lemma {:induction false} FilePartsSnoc(files: Dict<string>)
    requires files != []
    ensures FileParts(files) == FileParts(files[..|files| - 1])
      + [Part([FileDisposition(|files|, files[|files| - 1].0), OCTET_STREAM_HEADER], files[|files| - 1].1)]
  {
  }

  lemma {:induction false} FileSectionsSnoc(boundary: string, files: Dict<string>)
    requires files != []
    ensures FileSections(boundary, files) == FileSections(boundary, files[..|files| - 1])
      + FileSection(boundary, |files|, files[|files| - 1].0, files[|files| - 1].1)
  {
  }

  lemma {:induction false} FileSectionsFrame(boundary: string, files: Dict<string>)
    ensures FileSections(boundary, files) == Encapsulations(boundary, FileParts(files))
  {
    if files != [] {
      var init := files[..|files| - 1];
      var last := files[|files| - 1];
      FileSectionsFrame(boundary, init);
      var lastPart := Part([FileDisposition(|files|, last.0), OCTET_STREAM_HEADER], last.1);
      FilePartsSnoc(files);
      FileSectionsSnoc(boundary, files);
      EncapsulationsAppend(boundary, FileParts(init), [lastPart]);
      FilePartSection(boundary, |files|, last.0, last.1);
    }
  }

  /** The client's body is the RFC 2046 framing of one part per field, in
      order, followed by one part per file, numbered from 1 in order. */
  lemma {:induction false} LayoutIsFrame(boundary: string, fields: Dict<string>, files: Dict<string>)
    ensures Layout(boundary, fields, files) == Frame(boundary, FieldParts(fields) + FileParts(files))
  {
    FieldSectionsFrame(boundary, fields);
    FileSectionsFrame(boundary, files);
    EncapsulationsAppend(boundary, FieldParts(fields), FileParts(files));
  }
}
