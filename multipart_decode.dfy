/**
 * Reading a multipart/form-data body back: the inverse of the client's
 * encoder. The framing follows section 5.1.1 of RFC 2046: a part ends where
 * the first boundary delimiter (CRLF, two hyphens and the boundary) begins,
 * and its header block ends at the first empty line. The encoder is correct
 * when decoding what it produced gives back every field and every file, in
 * order, as long as the boundary delimiter does not occur inside a part,
 * which is what the RFC asks of the boundary.
 */
module MultipartDecode {
  import opened Wrappers
  import opened Decimal
  import opened Dicts
  import opened Multipart

  // ---------------------------------------------------------------------
  // Searching text

  predicate MatchAt(s: string, i: nat, pat: string) {
    i + |pat| <= |s| && s[i..i + |pat|] == pat
  }

  /** `pat` occurs somewhere in `s`. */
  predicate Occurs(s: string, pat: string) {
    exists i: nat | i <= |s| :: MatchAt(s, i, pat)
  }

  predicate NoCR(s: string) {
    forall i :: 0 <= i < |s| ==> s[i] != '\r'
  }

  /** The position of the first occurrence of `pat` in `s`. */
  function Find(s: string, pat: string): (r: Option<nat>)
    ensures r.Some? ==> MatchAt(s, r.value, pat)
    decreases |s|
  {
    if |s| < |pat| then None
    else if s[..|pat|] == pat then Some(0)
    else
      match Find(s[1..], pat)
      case None => None
      case Some(i) => Some(i + 1)
  }

  /** When the first character of `pat` occurs nowhere else in it, and `pat`
      does not occur in `x`, the first occurrence of `pat` in `x + pat + y`
      is the one right after `x`. */
  lemma {:induction false} FindFirst(x: string, pat: string, y: string)
    requires pat != []
    requires forall k :: 0 < k < |pat| ==> pat[k] != pat[0]
    requires !Occurs(x, pat)
    ensures Find(x + pat + y, pat) == Some(|x|)
  {
    var s := x + pat + y;
    if x == [] {
      assert s == pat + y;
      assert s[..|pat|] == pat;
    } else {
      NoMatchAtStart(x, pat, y);
      NoOccurrenceInTail(x, pat);
      FindFirst(x[1..], pat, y);
      assert s[1..] == x[1..] + pat + y;
    }
  }

  /** Under the conditions of `FindFirst`, a non-empty `x` does not start
      with `pat`. */
  lemma NoMatchAtStart(x: string, pat: string, y: string)
    requires pat != [] && x != []
    requires forall k :: 0 < k < |pat| ==> pat[k] != pat[0]
    requires !Occurs(x, pat)
    ensures (x + pat + y)[..|pat|] != pat
  {
    var s := x + pat + y;
    if |x| >= |pat| {
      assert s[..|pat|] == x[..|pat|];
      assert !MatchAt(x, 0, pat);
    } else {
      assert s[..|pat|][|x|] == pat[0];
      assert pat[|x|] != pat[0];
    }
  }

  lemma NoOccurrenceInTail(x: string, pat: string)
    requires x != [] && !Occurs(x, pat)
    ensures !Occurs(x[1..], pat)
  {
    forall i: nat | MatchAt(x[1..], i, pat) ensures MatchAt(x, i + 1, pat) {
      assert x[1..][i..i + |pat|] == x[i + 1..i + 1 + |pat|];
    }
  }

  /** A prefix without carriage returns cannot hold the start of a pattern
      that begins with one. */
  lemma DropPrefix(x: string, y: string, pat: string)
    requires pat != [] && pat[0] == '\r' && NoCR(x)
    requires Occurs(x + y, pat)
    ensures Occurs(y, pat)
  {
    var s := x + y;
    var i: nat :| i <= |s| && MatchAt(s, i, pat);
    assert i + |pat| <= |s| && s[i..i + |pat|] == pat;
    assert s[i..i + |pat|][0] == s[i];
    assert i >= |x|;
    assert s[i..i + |pat|] == y[i - |x|..i - |x| + |pat|];
    assert MatchAt(y, i - |x|, pat);
  }

  /** A line break in front of `y` adds no occurrence of a pattern that
      begins with a carriage return, unless `y` starts with the pattern's third character. */
  lemma DropLineBreak(y: string, pat: string)
    requires |pat| >= 3 && pat[0] == '\r' && (|y| == 0 || y[0] != pat[2])
    requires Occurs(CRLF + y, pat)
    ensures Occurs(y, pat)
  {
    var s := CRLF + y;
    var i: nat :| i <= |s| && MatchAt(s, i, pat);
    assert i + |pat| <= |s| && s[i..i + |pat|] == pat;
    assert s[i..i + |pat|][0] == s[i];
    assert s[i..i + |pat|][2] == s[i + 2];
    assert s[0] == '\r' && s[1] == '\n' && s[2..] == y;
    assert i >= 2;
    assert s[i..i + |pat|] == y[i - 2..i - 2 + |pat|];
    assert MatchAt(y, i - 2, pat);
  }

  // ---------------------------------------------------------------------
  // Boundaries

  /** The boundary delimiter that ends every part: CRLF, `--`, the boundary. */
  function Delimiter(boundary: string): string {
    CRLF + DashBoundary(boundary)
  }

  /** The boundary characters of section 5.1.1 of RFC 2046 exclude line
      breaks; this is all of that rule the decoder relies on. */
  predicate ValidBoundary(boundary: string) {
    NoCR(boundary)
  }

  lemma DelimiterShape(boundary: string)
    requires ValidBoundary(boundary)
    ensures |Delimiter(boundary)| >= 4 && Delimiter(boundary)[0] == '\r' && Delimiter(boundary)[2] == '-'
    ensures forall k :: 0 < k < |Delimiter(boundary)| ==> Delimiter(boundary)[k] != Delimiter(boundary)[0]
  {
    var d := Delimiter(boundary);
    forall k | 0 < k < |d| ensures d[k] != d[0] {
      if k >= 4 {
        assert d[k] == boundary[k - 4];
      }
    }
  }

  /** A value is safe to place in a part when the delimiter does not occur in
      it, counting the line break that precedes it in the body. */
  predicate SafeValue(boundary: string, value: string) {
    !Occurs(CRLF + value, Delimiter(boundary))
  }

  // ---------------------------------------------------------------------
  // Framing

  /** Splits a body into the texts of its parts: the body begins with the
      dash-boundary; after each dash-boundary comes either `--` and CRLF,
      which ends the body, or CRLF and a part reaching up to the next
      delimiter. */
  function Unframe(boundary: string, s: string): Option<seq<string>>
    decreases |s|
  {
    var dash := DashBoundary(boundary);
    if |s| < |dash| || s[..|dash|] != dash then None
    else
      var rest := s[|dash|..];
      if rest == "--" + CRLF then Some([])
      else if |rest| < 2 || rest[..2] != CRLF then None
      else
        match Find(rest[2..], Delimiter(boundary))
        case None => None
        case Some(i) =>
          match Unframe(boundary, rest[i + 4..])
          case None => None
          case Some(texts) => Some([rest[2..i + 2]] + texts)
  }

  function PartTexts(parts: seq<Part>): (texts: seq<string>)
    ensures |texts| == |parts|
    ensures forall i :: 0 <= i < |parts| ==> texts[i] == PartText(parts[i])
  {
    seq(|parts|, i requires 0 <= i < |parts| => PartText(parts[i]))
  }

  lemma {:induction false} FrameStartsWithDash(boundary: string, parts: seq<Part>)
    ensures |Frame(boundary, parts)| >= |DashBoundary(boundary)|
    ensures Frame(boundary, parts)[..|DashBoundary(boundary)|] == DashBoundary(boundary)
  {
    var dash := DashBoundary(boundary);
    if parts == [] {
      assert Frame(boundary, parts) == dash + ("--" + CRLF);
    } else {
      var tail := CRLF + PartText(parts[0]) + CRLF + Encapsulations(boundary, parts[1..]) + CloseDelimiter(boundary);
      assert Frame(boundary, parts) == dash + tail;
    }
  }

  /** A framed body is the dash-boundary, CRLF, the first part, CRLF and the
      framing of the remaining parts. */
  lemma {:induction false} FrameCons(boundary: string, parts: seq<Part>)
    requires parts != []
    ensures Frame(boundary, parts)
         == DashBoundary(boundary) + CRLF + PartText(parts[0]) + CRLF + Frame(boundary, parts[1..])
  {
  }

  /** Unframing a body whose first part is `text`, given where that part ends. */
  lemma {:induction false} UnframeAt(boundary: string, s: string, text: string, next: string)
    requires |s| >= |DashBoundary(boundary)| && s[..|DashBoundary(boundary)|] == DashBoundary(boundary)
    requires s[|DashBoundary(boundary)|..] == CRLF + text + CRLF + next
    requires Find((CRLF + text + CRLF + next)[2..], Delimiter(boundary)) == Some(|text|)
    requires Unframe(boundary, next).Some?
    ensures Unframe(boundary, s) == Some([text] + Unframe(boundary, next).value)
  {
    var rest := CRLF + text + CRLF + next;
    PartTextBounds(text, next);
    UnframeRest(boundary, s, rest, |text|);
  }

  /** Where `text` and `next` sit in `CRLF text CRLF next`. */
  lemma {:induction false} PartTextBounds(text: string, next: string)
    ensures var rest := CRLF + text + CRLF + next;
      && |rest| >= |text| + 4 && rest[..2] == CRLF && rest != "--" + CRLF
      && rest[|text| + 4..] == next && rest[2..|text| + 2] == text
  {
    var rest := CRLF + text + CRLF + next;
    assert rest[0] == '\r';
  }

  /** One unfolding of `Unframe` after the dash-boundary, for a part ending
      at `i`. */
  lemma {:induction false} UnframeRest(boundary: string, s: string, rest: string, i: nat)
    requires |s| >= |DashBoundary(boundary)| && s[..|DashBoundary(boundary)|] == DashBoundary(boundary)
    requires s[|DashBoundary(boundary)|..] == rest
    requires |rest| >= i + 4 && rest[..2] == CRLF && rest != "--" + CRLF
    requires Find(rest[2..], Delimiter(boundary)) == Some(i)
    requires Unframe(boundary, rest[i + 4..]).Some?
    ensures Unframe(boundary, s) == Some([rest[2..i + 2]] + Unframe(boundary, rest[i + 4..]).value)
  {
  }

  /** Where the first part of `dash-boundary CRLF text CRLF next` ends. */
  lemma {:induction false} StepFacts(boundary: string, text: string, next: string)
    requires ValidBoundary(boundary)
    requires !Occurs(text, Delimiter(boundary))
    requires |next| >= |DashBoundary(boundary)| && next[..|DashBoundary(boundary)|] == DashBoundary(boundary)
    ensures var s := DashBoundary(boundary) + CRLF + text + CRLF + next;
      && |s| >= |DashBoundary(boundary)| && s[..|DashBoundary(boundary)|] == DashBoundary(boundary)
      && s[|DashBoundary(boundary)|..] == CRLF + text + CRLF + next
    ensures Find((CRLF + text + CRLF + next)[2..], Delimiter(boundary)) == Some(|text|)
  {
    var dash := DashBoundary(boundary);
    var s := dash + CRLF + text + CRLF + next;
    var rest := CRLF + text + CRLF + next;
    assert s == dash + rest;
    var after := next[|dash|..];
    assert rest[2..] == text + Delimiter(boundary) + after by {
      assert next == dash + after;
    }
    DelimiterShape(boundary);
    FindFirst(text, Delimiter(boundary), after);
  }

  /** One step of unframing: a part followed by a body that unframes. */
  lemma {:induction false} UnframeStep(boundary: string, text: string, next: string)
    requires ValidBoundary(boundary)
    requires !Occurs(text, Delimiter(boundary))
    requires |next| >= |DashBoundary(boundary)| && next[..|DashBoundary(boundary)|] == DashBoundary(boundary)
    requires Unframe(boundary, next).Some?
    ensures Unframe(boundary, DashBoundary(boundary) + CRLF + text + CRLF + next)
         == Some([text] + Unframe(boundary, next).value)
  {
    StepFacts(boundary, text, next);
    UnframeAt(boundary, DashBoundary(boundary) + CRLF + text + CRLF + next, text, next);
  }

  /** When no part holds the delimiter, unframing a framed body gives back
      the texts of its parts. */
  lemma {:induction false} UnframeFrame(boundary: string, parts: seq<Part>)
    requires ValidBoundary(boundary)
    requires forall i :: 0 <= i < |parts| ==> !Occurs(PartText(parts[i]), Delimiter(boundary))
    ensures Unframe(boundary, Frame(boundary, parts)) == Some(PartTexts(parts))
  {
    var dash := DashBoundary(boundary);
    if parts == [] {
      var s := Frame(boundary, parts);
      assert s == dash + ("--" + CRLF);
      assert s[..|dash|] == dash;
      assert s[|dash|..] == "--" + CRLF;
    } else {
      FrameCons(boundary, parts);
      FrameStartsWithDash(boundary, parts[1..]);
      UnframeFrame(boundary, parts[1..]);
      UnframeStep(boundary, PartText(parts[0]), Frame(boundary, parts[1..]));
      assert PartTexts(parts) == [PartText(parts[0])] + PartTexts(parts[1..]);
    }
  }

  // ---------------------------------------------------------------------
  // Header blocks

  /** Splits a part into its header lines and its content: header lines end
      with CRLF, and the first empty line ends the header block. */
  function SplitHeaders(text: string): Option<Part>
    decreases |text|
  {
    if |text| >= 2 && text[..2] == CRLF then Some(Part([], text[2..]))
    else
      match Find(text, CRLF)
      case None => None
      case Some(i) =>
        match SplitHeaders(text[i + 2..])
        case None => None
        case Some(p) => Some(Part([text[..i]] + p.headers, p.content))
  }

  /** A header line the decoder can read back: not empty, no line break. */
  predicate HeaderLine(h: string) {
    h != [] && NoCR(h)
  }

  /** A pattern cannot occur where its first character does not. */
  lemma FirstCharAbsent(s: string, pat: string)
    requires pat != [] && forall i :: 0 <= i < |s| ==> s[i] != pat[0]
    ensures !Occurs(s, pat)
  {
    forall i: nat | i <= |s| ensures !MatchAt(s, i, pat) {
      if i + |pat| <= |s| {
        assert s[i..i + |pat|][0] == s[i];
      }
    }
  }

  lemma NoCRConcat(a: string, b: string)
    ensures NoCR(a + b) <==> NoCR(a) && NoCR(b)
  {
    if NoCR(a + b) {
      forall i | 0 <= i < |a| ensures a[i] != '\r' {
        assert (a + b)[i] == a[i];
      }
      forall i | 0 <= i < |b| ensures b[i] != '\r' {
        assert (a + b)[|a| + i] == b[i];
      }
    }
    if NoCR(a) && NoCR(b) {
      forall i | 0 <= i < |a + b| ensures (a + b)[i] != '\r' {
        if i >= |a| {
          assert (a + b)[i] == b[i - |a|];
        }
      }
    }
  }

  lemma {:induction false} SplitAt(text: string, h: string, rest: string)
    requires HeaderLine(h) && text == h + CRLF + rest
    requires SplitHeaders(rest).Some?
    ensures SplitHeaders(text)
         == Some(Part([h] + SplitHeaders(rest).value.headers, SplitHeaders(rest).value.content))
  {
    assert text[0] == h[0];
    FirstCharAbsent(h, CRLF);
    FindFirst(h, CRLF, rest);
    assert text[|h| + 2..] == rest;
    assert text[..|h|] == h;
  }

  lemma {:induction false} PartTextCons(p: Part)
    requires p.headers != []
    ensures PartText(p) == p.headers[0] + CRLF + PartText(Part(p.headers[1..], p.content))
  {
  }

  /** Reading back a part's text gives the part, when its header lines are
      readable. */
  lemma {:induction false} SplitHeadersPartText(p: Part)
    requires forall i :: 0 <= i < |p.headers| ==> HeaderLine(p.headers[i])
    ensures SplitHeaders(PartText(p)) == Some(p)
    decreases |p.headers|
  {
    if p.headers == [] {
      assert PartText(p) == CRLF + p.content;
    } else {
      var h := p.headers[0];
      var q := Part(p.headers[1..], p.content);
      assert forall i :: 0 <= i < |q.headers| ==> q.headers[i] == p.headers[i + 1];
      SplitHeadersPartText(q);
      PartTextCons(p);
      SplitAt(PartText(p), h, PartText(q));
      assert [h] + q.headers == p.headers;
    }
  }

  // ---------------------------------------------------------------------
  // Form items

  /** What a form body carries: named text fields and numbered files. */
  datatype FormItem =
    | FieldItem(name: string, value: string)
    | FileItem(slot: nat, filename: string, contents: string)

  const FIELD_PREFIX := "Content-disposition: form-data; name=\""
  const FILE_PREFIX := "Content-disposition: form-data; name=\"File"
  const FILENAME_INFIX := "\"; filename=\""

  /** Reads one part: a part with a single header is a text field named by
      it, a part with a disposition header and the generic binary content-type
      header is a numbered file. */
  function DecodeItem(p: Part): Option<FormItem> {
    if |p.headers| == 1 then
      var h := p.headers[0];
      if |h| > |FIELD_PREFIX| && h[..|FIELD_PREFIX|] == FIELD_PREFIX && h[|h| - 1] == '"' then
        Some(FieldItem(h[|FIELD_PREFIX|..|h| - 1], p.content))
      else None
    else if |p.headers| == 2 && p.headers[1] == OCTET_STREAM_HEADER then
      var h := p.headers[0];
      if |h| > |FILE_PREFIX| && h[..|FILE_PREFIX|] == FILE_PREFIX && h[|h| - 1] == '"' then
        var rest := h[|FILE_PREFIX|..|h| - 1];
        match Find(rest, "\"")
        case None => None
        case Some(i) =>
          var after := rest[i..];
          if |after| >= |FILENAME_INFIX| && after[..|FILENAME_INFIX|] == FILENAME_INFIX then
            match ParseNat(rest[..i])
            case None => None
            case Some(n) => Some(FileItem(n, after[|FILENAME_INFIX|..], p.content))
          else None
      else None
    else None
  }

  lemma {:induction false} DecodeFieldPart(name: string, value: string)
    ensures DecodeItem(Part([FieldDisposition(name)], value)) == Some(FieldItem(name, value))
  {
    var h := FieldDisposition(name);
    assert h == FIELD_PREFIX + name + "\"";
    assert h[..|FIELD_PREFIX|] == FIELD_PREFIX;
    assert h[|FIELD_PREFIX|..|h| - 1] == name;
  }

  lemma {:induction false} FileHeaderShape(n: nat, filename: string)
    ensures var h := FileDisposition(n, filename);
      && |h| > |FILE_PREFIX| && h[..|FILE_PREFIX|] == FILE_PREFIX && h[|h| - 1] == '"'
      && h[|FILE_PREFIX|..|h| - 1] == NatToString(n) + "\"" + (FILENAME_INFIX[1..] + filename)
  {
    var h := FileDisposition(n, filename);
    var digits := NatToString(n);
    assert h == FILE_PREFIX + (digits + FILENAME_INFIX + filename) + "\"";
    assert FILENAME_INFIX == "\"" + FILENAME_INFIX[1..];
    assert h[|FILE_PREFIX|..|h| - 1] == digits + FILENAME_INFIX + filename;
  }

  lemma {:induction false} DecodeFilePart(n: nat, filename: string, contents: string)
    ensures DecodeItem(Part([FileDisposition(n, filename), OCTET_STREAM_HEADER], contents))
         == Some(FileItem(n, filename, contents))
  {
    var h := FileDisposition(n, filename);
    var digits := NatToString(n);
    var tail := FILENAME_INFIX[1..] + filename;
    FileHeaderShape(n, filename);
    var rest := h[|FILE_PREFIX|..|h| - 1];
    assert rest == digits + "\"" + tail;
    FirstCharAbsent(digits, "\"");
    FindFirst(digits, "\"", tail);
    assert rest[..|digits|] == digits;
    assert rest[|digits|..] == "\"" + tail == FILENAME_INFIX + filename;
    ParseNatToString(n);
  }

  /** Reads every part text in order; fails if any part cannot be read. */
  function DecodeTexts(texts: seq<string>): Option<seq<FormItem>> {
    if texts == [] then Some([])
    else
      match SplitHeaders(texts[0])
      case None => None
      case Some(p) =>
        match DecodeItem(p)
        case None => None
        case Some(item) =>
          match DecodeTexts(texts[1..])
          case None => None
          case Some(items) => Some([item] + items)
  }

  /** Decodes a multipart/form-data body written with the given boundary. */
  function DecodeForm(boundary: string, body: string): Option<seq<FormItem>> {
    match Unframe(boundary, body)
    case None => None
    case Some(texts) => DecodeTexts(texts)
  }

  /** The items a body should carry: the fields in order, then the files in
      order, the file at position `i` in slot `i + 1`. */
  function Items(fields: Dict<string>, files: Dict<string>): seq<FormItem> {
    seq(|fields|, i requires 0 <= i < |fields| => FieldItem(fields[i].0, fields[i].1))
      + seq(|files|, i requires 0 <= i < |files| => FileItem(i + 1, files[i].0, files[i].1))
  }

  // ---------------------------------------------------------------------
  // The round trip

  lemma PrefixesHaveNoCR()
    ensures NoCR(FIELD_PREFIX) && NoCR(FILE_PREFIX) && NoCR(FILENAME_INFIX) && NoCR("\"")
    ensures HeaderLine(OCTET_STREAM_HEADER)
  {
  }

  /** A text field's header line is readable when its name has no line break. */
  lemma FieldDispositionLine(name: string)
    requires NoCR(name)
    ensures HeaderLine(FieldDisposition(name))
  {
    PrefixesHaveNoCR();
    NoCRConcat(FIELD_PREFIX, name);
    NoCRConcat(FIELD_PREFIX + name, "\"");
    assert FieldDisposition(name) == FIELD_PREFIX + name + "\"";
  }

  /** A file's header line is readable when its filename has no line break. */
  lemma FileDispositionLine(n: nat, filename: string)
    requires NoCR(filename)
    ensures HeaderLine(FileDisposition(n, filename))
  {
    var digits := NatToString(n);
    PrefixesHaveNoCR();
    assert NoCR(digits);
    NoCRConcat(FILE_PREFIX, digits);
    NoCRConcat(FILE_PREFIX + digits, FILENAME_INFIX);
    NoCRConcat(FILE_PREFIX + digits + FILENAME_INFIX, filename);
    NoCRConcat(FILE_PREFIX + digits + FILENAME_INFIX + filename, "\"");
    assert FileDisposition(n, filename) == FILE_PREFIX + digits + FILENAME_INFIX + filename + "\"";
  }

  /** A field's part holds no delimiter when its value is safe. */
  lemma {:induction false} FieldPartSafe(boundary: string, name: string, value: string)
    requires ValidBoundary(boundary) && NoCR(name) && SafeValue(boundary, value)
    ensures !Occurs(PartText(Part([FieldDisposition(name)], value)), Delimiter(boundary))
  {
    var d := Delimiter(boundary);
    var h := FieldDisposition(name);
    DelimiterShape(boundary);
    FieldDispositionLine(name);
    assert [h][1..] == [];
    assert HeaderBlock([h]) == h + CRLF;
    assert PartText(Part([h], value)) == h + (CRLF + (CRLF + value));
    if Occurs(h + (CRLF + (CRLF + value)), d) {
      DropPrefix(h, CRLF + (CRLF + value), d);
      DropLineBreak(CRLF + value, d);
      assert false;
    }
  }

  /** A file's part holds no delimiter when its contents are safe. */
  lemma {:induction false} FilePartSafe(boundary: string, n: nat, filename: string, contents: string)
    requires ValidBoundary(boundary) && NoCR(filename) && SafeValue(boundary, contents)
    ensures !Occurs(PartText(Part([FileDisposition(n, filename), OCTET_STREAM_HEADER], contents)),
                    Delimiter(boundary))
  {
    var d := Delimiter(boundary);
    var h := FileDisposition(n, filename);
    var o := OCTET_STREAM_HEADER;
    DelimiterShape(boundary);
    FileDispositionLine(n, filename);
    PrefixesHaveNoCR();
    assert [h, o][1..] == [o];
    assert [o][1..] == [];
    assert HeaderBlock([o]) == o + CRLF;
    assert HeaderBlock([h, o]) == h + CRLF + (o + CRLF);
    assert PartText(Part([h, o], contents)) == h + (CRLF + (o + (CRLF + (CRLF + contents))));
    if Occurs(h + (CRLF + (o + (CRLF + (CRLF + contents)))), d) {
      DropPrefix(h, CRLF + (o + (CRLF + (CRLF + contents))), d);
      DropLineBreak(o + (CRLF + (CRLF + contents)), d);
      DropPrefix(o, CRLF + (CRLF + contents), d);
      DropLineBreak(CRLF + contents, d);
      assert false;
    }
  }

  /** Reading back the texts of parts that each decode gives their items. */
  lemma {:induction false} DecodePartTexts(parts: seq<Part>, items: seq<FormItem>)
    requires |parts| == |items|
    requires forall i :: 0 <= i < |parts| ==>
      (forall j :: 0 <= j < |parts[i].headers| ==> HeaderLine(parts[i].headers[j]))
    requires forall i :: 0 <= i < |parts| ==> DecodeItem(parts[i]) == Some(items[i])
    ensures DecodeTexts(PartTexts(parts)) == Some(items)
  {
    if parts != [] {
      SplitHeadersPartText(parts[0]);
      DecodePartTexts(parts[1..], items[1..]);
      assert PartTexts(parts)[1..] == PartTexts(parts[1..]);
      assert items == [items[0]] + items[1..];
    }
  }

  /** What the round trip asks of the encoder's input: names without line
      breaks, values and contents that do not hold the delimiter. */
  ghost predicate Encodable(boundary: string, fields: Dict<string>, files: Dict<string>) {
    && ValidBoundary(boundary)
    && (forall i :: 0 <= i < |fields| ==> NoCR(fields[i].0) && SafeValue(boundary, fields[i].1))
    && (forall i :: 0 <= i < |files| ==> NoCR(files[i].0) && SafeValue(boundary, files[i].1))
  }

  /** Decoding the body laid out for `fields` and `files` gives back every
      field's name and value and every file's slot, filename and contents,
      in order. */
  lemma {:induction false} DecodeLayout(boundary: string, fields: Dict<string>, files: Dict<string>)
    requires Encodable(boundary, fields, files)
    ensures DecodeForm(boundary, Layout(boundary, fields, files)) == Some(Items(fields, files))
  {
    var parts := FieldParts(fields) + FileParts(files);
    var items := Items(fields, files);
    LayoutIsFrame(boundary, fields, files);
    forall i | 0 <= i < |parts|
      ensures !Occurs(PartText(parts[i]), Delimiter(boundary))
      ensures forall j :: 0 <= j < |parts[i].headers| ==> HeaderLine(parts[i].headers[j])
      ensures DecodeItem(parts[i]) == Some(items[i])
    {
      if i < |fields| {
        var (k, v) := fields[i];
        FieldPartSafe(boundary, k, v);
        FieldDispositionLine(k);
        DecodeFieldPart(k, v);
      } else {
        var (f, c) := files[i - |fields|];
        FilePartSafe(boundary, i - |fields| + 1, f, c);
        FileDispositionLine(i - |fields| + 1, f);
        PrefixesHaveNoCR();
        DecodeFilePart(i - |fields| + 1, f, c);
        assert [FileDisposition(i - |fields| + 1, f), OCTET_STREAM_HEADER][1] == OCTET_STREAM_HEADER;
      }
    }
    UnframeFrame(boundary, parts);
    DecodePartTexts(parts, items);
  }

  /** The text of a count is safe in any part. */
  lemma NumeralSafe(boundary: string, n: nat)
    requires ValidBoundary(boundary)
    ensures SafeValue(boundary, NatToString(n))
  {
    var d := Delimiter(boundary);
    var digits := NatToString(n);
    DelimiterShape(boundary);
    if Occurs(CRLF + digits, d) {
      FirstCharAbsent(digits, d);
      assert digits[0] != d[2];
      DropLineBreak(digits, d);
      assert false;
    }
  }

  /** Decoding the body the encoder writes gives back, in order, every field
      (with `nFileCount` when there are files) and every file. */
  lemma {:induction false} DecodeBody(boundary: string, fields: Dict<string>, files: Dict<string>)
    requires Encodable(boundary, fields, files)
    ensures DecodeForm(boundary, Body(boundary, fields, files)) == Some(Items(WithFileCount(fields, files), files))
  {
    var encoded := WithFileCount(fields, files);
    if |files| > 0 {
      var count := (FILE_COUNT_FIELD, NatToString(|files|));
      PutEntries(fields, FILE_COUNT_FIELD, NatToString(|files|));
      NumeralSafe(boundary, |files|);
      assert NoCR(FILE_COUNT_FIELD);
      forall i | 0 <= i < |encoded| ensures NoCR(encoded[i].0) && SafeValue(boundary, encoded[i].1) {
        assert encoded[i] in encoded;
        if encoded[i] != count {
          var j :| 0 <= j < |fields| && fields[j] == encoded[i];
        }
      }
    }
    DecodeLayout(boundary, encoded, files);
  }
}
