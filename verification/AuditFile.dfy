/**
 The audit log as JSON lines in one file: appends of one or many records, and the reader that splits,
 trims and parses.
 */
module AuditFile {
  import opened Common

  /** White space and line ends in JavaScript, the no-break space and the byte order mark included. */
  predicate Blank(c: char) {
    || '\t' <= c <= '\r' || c == ' ' || c == '\U{A0}' || c == '\U{1680}' || '\U{2000}' <= c <= '\U{200A}'
    || c == '\U{2028}' || c == '\U{2029}' || c == '\U{202F}' || c == '\U{205F}' || c == '\U{3000}' || c == '\U{FEFF}'
  }

  /** By code point: the five controls from tab on, space, and the other spaces and line ends. */
  lemma BlankCodes(c: char)
    ensures Blank(c) <==>
            || 9 <= c as int <= 13 || 0x2000 <= c as int <= 0x200A
            || c as int in {0x20, 0xA0, 0x1680, 0x2028, 0x2029, 0x202F, 0x205F, 0x3000, 0xFEFF}
  {
  }

  /** JavaScript's `trim`. */
  function TrimStart(s: string): string {
    if |s| > 0 && Blank(s[0]) then TrimStart(s[1..]) else s
  }

  function TrimEnd(s: string): string {
    if |s| > 0 && Blank(s[|s| - 1]) then TrimEnd(s[..|s| - 1]) else s
  }

  function Trim(s: string): string { TrimEnd(TrimStart(s)) }

  ghost predicate AllBlank(s: string) { forall i :: 0 <= i < |s| ==> Blank(s[i]) }

  lemma {:induction false} TrimStartExact(s: string) returns (lead: string)
    ensures s == lead + TrimStart(s) && AllBlank(lead)
    ensures TrimStart(s) != "" ==> !Blank(TrimStart(s)[0])
  {
    if |s| > 0 && Blank(s[0]) {
      var rest := TrimStartExact(s[1..]);
      lead := s[..1] + rest;
      assert s == s[..1] + s[1..];
    } else {
      lead := "";
    }
  }

  lemma {:induction false} TrimEndExact(s: string) returns (tail: string)
    ensures s == TrimEnd(s) + tail && AllBlank(tail)
    ensures TrimEnd(s) != "" ==> !Blank(TrimEnd(s)[|TrimEnd(s)| - 1]) && TrimEnd(s)[0] == s[0]
  {
    if |s| > 0 && Blank(s[|s| - 1]) {
      var rest := TrimEndExact(s[..|s| - 1]);
      tail := rest + s[|s| - 1..];
      assert s == s[..|s| - 1] + s[|s| - 1..];
    } else {
      tail := "";
    }
  }

  /** Trimming takes blanks off both ends, all of them and nothing else. */
  lemma TrimExact(s: string) returns (lead: string, tail: string)
    ensures s == lead + Trim(s) + tail && AllBlank(lead) && AllBlank(tail)
    ensures Trim(s) != "" ==> !Blank(Trim(s)[0]) && !Blank(Trim(s)[|Trim(s)| - 1])
  {
    lead := TrimStartExact(s);
    tail := TrimEndExact(TrimStart(s));
  }

  /** The lines after one more character: a newline opens a line, anything else extends the last one. */
  function AddChar(lines: seq<string>, ch: char): (r: seq<string>)
    requires |lines| > 0
    ensures |r| > 0
  {
    if ch == '\n' then lines + [""]
    else lines[..|lines| - 1] + [lines[|lines| - 1] + [ch]]
  }

  /** `split("\n")`: the lines between newlines, the last one being what follows the last newline. */
  function Split(content: string): (lines: seq<string>)
    ensures |lines| > 0
  {
    if |content| == 0 then [""] else AddChar(Split(content[..|content| - 1]), content[|content| - 1])
  }

  /**
   A record codec: `JSON.stringify` of an audit record and `JSON.parse`, which rejects some texts. A printed
   record has no newline and begins and ends with a brace.
   */
  datatype Codec<!R> = Codec(encode: R -> string, parse: string -> Option<R>)

  ghost predicate Sound<R(!new)>(c: Codec<R>) {
    forall r ::
      var s := c.encode(r);
      && c.parse(s) == Some(r)
      && |s| > 0 && !Blank(s[0]) && !Blank(s[|s| - 1])
      && forall i :: 0 <= i < |s| ==> s[i] != '\n'
  }

  function ToLine<R>(c: Codec<R>, r: R): string { c.encode(r) + "\n" }

  function ToLines<R>(c: Codec<R>, records: seq<R>): string {
    if |records| == 0 then "" else ToLines(c, records[..|records| - 1]) + ToLine(c, records[|records| - 1])
  }

  /** What one line contributes: nothing if blank or malformed. */
  function ReadLine<R>(c: Codec<R>, line: string): seq<R> {
    var trimmed := Trim(line);
    if trimmed == "" then []
    else
      var r := c.parse(trimmed);
      if r.Some? then [r.value] else []
  }

  function ReadLines<R>(c: Codec<R>, lines: seq<string>): seq<R> {
    if |lines| == 0 then [] else ReadLines(c, lines[..|lines| - 1]) + ReadLine(c, lines[|lines| - 1])
  }

  function Read<R>(c: Codec<R>, content: string): seq<R> { ReadLines(c, Split(content)) }

  // ---- The file -----------------------------------------------------------------------------------

  class LogFile<R(!new)> {
    const codec: Codec<R>
    const sizeOf: string -> nat
    const maxBytes: nat
    var content: string

    constructor (codec: Codec<R>, sizeOf: string -> nat, maxBytes: nat)
      ensures this.codec == codec && this.sizeOf == sizeOf && this.maxBytes == maxBytes && content == ""
    {
      this.codec, this.sizeOf, this.maxBytes, content := codec, sizeOf, maxBytes, "";
    }

    method Insert(r: R) returns (rowsAffected: nat)
      modifies this
      ensures content == old(content) + ToLines(codec, [r]) && rowsAffected == 1
    {
      assert [r][..0] == [] && ToLines(codec, [r]) == ToLines(codec, []) + ToLine(codec, r);
      content := content + ToLine(codec, r);
      rowsAffected := 1;
    }

    /** One append for the whole batch; an empty batch appends nothing. */
    method InsertBatch(records: seq<R>) returns (rowsAffected: nat)
      modifies this
      ensures content == old(content) + ToLines(codec, records) && rowsAffected == |records|
    {
      var text := "";
      for i := 0 to |records|
        invariant text == ToLines(codec, records[..i])
      {
        assert records[..i + 1][..i] == records[..i];
        text := text + ToLine(codec, records[i]);
      }
      assert records[..|records|] == records;
      content := content + text;
      rowsAffected := |records|;
    }

    /** A file over the size cap is skipped as a whole. */
    method ReadJsonLines() returns (records: seq<R>)
      ensures records == if sizeOf(content) > maxBytes then [] else Read(codec, content)
    {
      records := [];
      if sizeOf(content) > maxBytes {
        return;
      }
      var lines := Split(content);
      for i := 0 to |lines|
        invariant records == ReadLines(codec, lines[..i])
      {
        assert lines[..i + 1][..i] == lines[..i];
        var trimmed := Trim(lines[i]);
        if trimmed != "" {
          var parsed := codec.parse(trimmed);
          if parsed.Some? {
            records := records + [parsed.value];
          }
        }
      }
      assert lines[..|lines|] == lines;
    }
  }

  // ---- Reading back what was appended -------------------------------------------------------------

  lemma SplitStep(text: string, ch: char)
    ensures Split(text + [ch]) == AddChar(Split(text), ch)
  {
    assert (text + [ch])[..|text|] == text;
  }

  lemma AddCharConcat(a: seq<string>, b: seq<string>, ch: char)
    requires |b| > 0
    ensures AddChar(a + b, ch) == a + AddChar(b, ch)
  {
  }

  lemma TextExtends(a: string, shorter: string, last: char)
    ensures a + "\n" + (shorter + [last]) == (a + "\n" + shorter) + [last]
  {
  }

  lemma SplitExtends(a: string, shorter: string, last: char)
    requires Split(a + "\n" + shorter) == Split(a) + Split(shorter)
    ensures Split((a + "\n" + shorter) + [last]) == Split(a) + Split(shorter + [last])
  {
    SplitStep(a + "\n" + shorter, last);
    SplitStep(shorter, last);
    AddCharConcat(Split(a), Split(shorter), last);
  }

  lemma SplitAtEnd(a: string)
    ensures Split(a + "\n" + "") == Split(a) + Split("")
  {
    SplitStep(a, '\n');
    assert a + "\n" + "" == a + ['\n'];
  }

  /** A newline separates what comes before it from what comes after it. */
  lemma {:induction false} SplitAtNewline(a: string, b: string)
    ensures Split(a + "\n" + b) == Split(a) + Split(b)
  {
    if |b| == 0 {
      SplitAtEnd(a);
    } else {
      var shorter, last := b[..|b| - 1], b[|b| - 1];
      assert b == shorter + [last];
      SplitAtNewline(a, shorter);
      TextExtends(a, shorter, last);
      SplitExtends(a, shorter, last);
    }
  }

  lemma {:induction false} ReadLinesConcat<R>(c: Codec<R>, a: seq<string>, b: seq<string>)
    ensures ReadLines(c, a + b) == ReadLines(c, a) + ReadLines(c, b)
  {
    if |b| == 0 {
      assert a + b == a;
    } else {
      assert (a + b)[..|a + b| - 1] == a + b[..|b| - 1];
      ReadLinesConcat(c, a, b[..|b| - 1]);
    }
  }

  /** Reading is compositional at newlines, whatever the two sides hold. */
  lemma ReadAtNewline<R>(c: Codec<R>, a: string, b: string)
    ensures Read(c, a + "\n" + b) == Read(c, a) + Read(c, b)
  {
    SplitAtNewline(a, b);
    ReadLinesConcat(c, Split(a), Split(b));
  }

  lemma {:induction false} SplitOneLine(s: string)
    requires forall i :: 0 <= i < |s| ==> s[i] != '\n'
    ensures Split(s) == [s]
  {
    if |s| > 0 {
      SplitOneLine(s[..|s| - 1]);
      assert s == s[..|s| - 1] + [s[|s| - 1]];
    }
  }

  lemma ReadOneLine<R>(c: Codec<R>, line: string)
    requires forall i :: 0 <= i < |line| ==> line[i] != '\n'
    ensures Read(c, line) == ReadLine(c, line)
  {
    SplitOneLine(line);
    assert [line][..0] == [] && ReadLines(c, [line]) == ReadLines(c, []) + ReadLine(c, line);
  }

  lemma ReadRecord<R(!new)>(c: Codec<R>, r: R)
    requires Sound(c)
    ensures Read(c, c.encode(r)) == [r]
  {
    ReadOneLine(c, c.encode(r));
  }

  lemma {:induction false} LinesConcat<R>(c: Codec<R>, a: seq<R>, b: seq<R>)
    ensures ToLines(c, a + b) == ToLines(c, a) + ToLines(c, b)
  {
    if |b| == 0 {
      assert a + b == a;
    } else {
      assert (a + b)[..|a + b| - 1] == a + b[..|b| - 1];
      LinesConcat(c, a, b[..|b| - 1]);
    }
  }

  lemma LinesStep<R>(c: Codec<R>, records: seq<R>, text: string, head: string)
    requires |records| > 0 && head == ToLines(c, records[..|records| - 1]) + c.encode(records[|records| - 1])
    ensures ToLines(c, records) + text == head + "\n" + text
  {
  }

  lemma OneMoreLine<R>(c: Codec<R>, front: seq<R>, last: R, text: string)
    requires Read(c, ToLines(c, front) + c.encode(last)) == front + [last]
    ensures Read(c, ToLines(c, front + [last]) + text) == front + [last] + Read(c, text)
  {
    var records, head := front + [last], ToLines(c, front) + c.encode(last);
    assert records[..|records| - 1] == front;
    LinesStep(c, records, text, head);
    ReadAtNewline(c, head, text);
  }

  /** Complete lines never swallow, and are never swallowed by, what follows them. */
  lemma {:induction false} LinesThenText<R(!new)>(c: Codec<R>, records: seq<R>, text: string)
    requires Sound(c)
    ensures Read(c, ToLines(c, records) + text) == records + Read(c, text)
  {
    if |records| == 0 {
      assert "" + text == text;
    } else {
      var front, last := records[..|records| - 1], records[|records| - 1];
      LinesThenText(c, front, c.encode(last));
      ReadRecord(c, last);
      assert records == front + [last];
      OneMoreLine(c, front, last, text);
    }
  }

  /** Records appended to an empty file come back exactly. */
  lemma RoundTrip<R(!new)>(c: Codec<R>, records: seq<R>)
    requires Sound(c)
    ensures Read(c, ToLines(c, records)) == records
  {
    LinesThenText(c, records, "");
    ReadOneLine(c, "");
    assert ToLines(c, records) + "" == ToLines(c, records);
  }

  function AllLines<R>(c: Codec<R>, batches: seq<seq<R>>): string {
    if |batches| == 0 then "" else AllLines(c, batches[..|batches| - 1]) + ToLines(c, batches[|batches| - 1])
  }

  lemma {:induction false} AppendsAreOneText<R>(c: Codec<R>, batches: seq<seq<R>>)
    ensures AllLines(c, batches) == ToLines(c, Flatten(batches))
  {
    if |batches| > 0 {
      AppendsAreOneText(c, batches[..|batches| - 1]);
      LinesConcat(c, Flatten(batches[..|batches| - 1]), batches[|batches| - 1]);
    }
  }

  /** Any sequence of single and batched appends reads back as the records in order. */
  lemma AppendsReadBack<R(!new)>(c: Codec<R>, batches: seq<seq<R>>)
    requires Sound(c)
    ensures Read(c, AllLines(c, batches)) == Flatten(batches)
  {
    AppendsAreOneText(c, batches);
    RoundTrip(c, Flatten(batches));
  }

  /** With the size cap: the records come back exactly when the file is no larger than the cap, or holds none. */
  lemma ReadBackExact<R(!new)>(c: Codec<R>, batches: seq<seq<R>>, sizeOf: string -> nat, maxBytes: nat)
    requires Sound(c)
    ensures var content := AllLines(c, batches);
            (if sizeOf(content) > maxBytes then [] else Read(c, content)) == Flatten(batches)
            <==> sizeOf(content) <= maxBytes || Flatten(batches) == []
  {
    AppendsReadBack(c, batches);
  }

  lemma GluedText<R>(c: Codec<R>, torn: string, next: R, after: seq<R>)
    ensures torn + ToLines(c, [next] + after) == (torn + c.encode(next)) + "\n" + ToLines(c, after)
  {
    LinesConcat(c, [next], after);
    assert [next][..0] == [] && ToLines(c, [next]) == ToLines(c, []) + ToLine(c, next);
  }

  /**
   A crash in the middle of an append leaves a torn line. Everything before it and everything after the
   next newline is unharmed; the one record whose line is glued to the torn text is read only if the glued
   text happens to parse.
   */
  lemma TornLine<R(!new)>(c: Codec<R>, before: seq<R>, torn: string, next: R, after: seq<R>)
    requires Sound(c) && forall i :: 0 <= i < |torn| ==> torn[i] != '\n'
    ensures Read(c, ToLines(c, before) + torn) == before + ReadLine(c, torn)
    ensures Read(c, ToLines(c, before) + (torn + ToLines(c, [next] + after)))
            == before + (ReadLine(c, torn + c.encode(next)) + after)
  {
    LinesThenText(c, before, torn);
    ReadOneLine(c, torn);
    LinesThenText(c, before, torn + ToLines(c, [next] + after));
    GluedText(c, torn, next, after);
    ReadAtNewline(c, torn + c.encode(next), ToLines(c, after));
    ReadOneLine(c, torn + c.encode(next));
    RoundTrip(c, after);
  }
}
