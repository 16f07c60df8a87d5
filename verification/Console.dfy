/** The console: LF to CRLF expansion on output, line assembly on input. */
module Console {

  const NUL: char := '\0'
  const CR: char := '\r'
  const LF: char := '\n'
  const INPUT_MAX_LEN := 100

  // ------------------------------------------------------------------
  // LF to CRLF expansion
  // ------------------------------------------------------------------

  /** A carriage return before every line feed. */
  function Expanded(text: string): string {
    if text == [] then []
    else
      var c := text[|text| - 1];
      Expanded(text[..|text| - 1]) + if c == LF then [CR, LF] else [c]
  }

  function LineFeeds(text: string): nat {
    if text == [] then 0
    else LineFeeds(text[..|text| - 1]) + if text[|text| - 1] == LF then 1 else 0
  }

  lemma {:induction false} ExpandedLength(text: string)
    ensures |Expanded(text)| == |text| + LineFeeds(text)
  {
    if text != [] {
      ExpandedLength(text[..|text| - 1]);
    }
  }

  /** The length of the C string at the start of a buffer. */
  function StrLen(buffer: seq<char>): (n: nat)
    requires NUL in buffer
    ensures n < |buffer| && buffer[n] == NUL && NUL !in buffer[..n]
  {
    if buffer[0] == NUL then 0
    else
      var n := 1 + StrLen(buffer[1..]);
      assert buffer[..n] == [buffer[0]] + buffer[1..][..n - 1];
      n
  }

  function CString(buffer: seq<char>): string
    requires NUL in buffer
  {
    buffer[..StrLen(buffer)]
  }

  /** First counts the line feeds, then fills a buffer of exactly the size needed. */
  method ReplaceLfWithCrlf(buffer: array<char>) returns (retval: array<char>)
    requires NUL in buffer[..]
    ensures fresh(retval)
    ensures retval[..] == Expanded(CString(buffer[..])) + [NUL]
  {
    var text := CString(buffer[..]);
    var length := StrLen(buffer[..]);
    var count := CountLf(buffer, length);
    ExpandedLength(text);
    retval := new char[count + length + 1];
    var j := 0;
    for i := 0 to length + 1
      invariant j == |Filled(text, i)|
      invariant j <= retval.Length && retval[..j] == Filled(text, i)
    {
      FilledStep(text, i);
      assert buffer[i] == if i < length then text[i] else NUL;
      if buffer[i] == LF {
        retval[j] := CR;
        j := j + 1;
      }
      retval[j] := buffer[i];
      j := j + 1;
    }
    assert text[..length] == text;
    assert retval[..j] == retval[..];
  }

  method CountLf(buffer: array<char>, length: nat) returns (count: nat)
    requires length <= buffer.Length
    ensures count == LineFeeds(buffer[..length])
  {
    count := 0;
    for i := 0 to length
      invariant count == LineFeeds(buffer[..i])
    {
      assert buffer[..i + 1][..i] == buffer[..i];
      if buffer[i] == LF {
        count := count + 1;
      }
    }
  }

  /** What has been written after `i` characters, the terminating NUL being the last one. */
  function Filled(text: string, i: nat): string
    requires i <= |text| + 1
  {
    if i <= |text| then Expanded(text[..i]) else Expanded(text) + [NUL]
  }

  lemma FilledStep(text: string, i: nat)
    requires i <= |text|
    ensures Filled(text, i + 1) ==
            Filled(text, i) + if i == |text| then [NUL] else if text[i] == LF then [CR, LF] else [text[i]]
    ensures |Filled(text, i + 1)| <= |text| + LineFeeds(text) + 1
  {
    if i < |text| {
      assert text[..i + 1][..i] == text[..i];
      ExpandedLength(text[..i + 1]);
      LineFeedsPrefix(text, i + 1);
    } else {
      assert text[..i] == text;
      ExpandedLength(text);
    }
  }

  lemma {:induction false} LineFeedsPrefix(text: string, i: nat)
    requires i <= |text|
    ensures i + LineFeeds(text[..i]) <= |text| + LineFeeds(text)
    decreases |text| - i
  {
    if i == |text| {
      assert text[..i] == text;
    } else {
      assert text[..i + 1][..i] == text[..i];
      LineFeedsPrefix(text, i + 1);
    }
  }

  // ------------------------------------------------------------------
  // Reference: the lines of a text
  // ------------------------------------------------------------------

  function Take(s: string, n: nat): string {
    if |s| <= n then s else s[..n]
  }

  function WithoutCr(s: string): string {
    if s == [] then []
    else WithoutCr(s[..|s| - 1]) + if s[|s| - 1] == CR then [] else [s[|s| - 1]]
  }

  /** The part of a string before its first NUL. */
  function UpToNul(s: string): string {
    if s == [] || s[0] == NUL then [] else [s[0]] + UpToNul(s[1..])
  }

  /** A line as it is delivered: the first 100 characters that are not CR, cut at a NUL. */
  function Delivered(line: string): string {
    UpToNul(Take(WithoutCr(line), INPUT_MAX_LEN))
  }

  /** The completed lines of a text, without their line feeds, and what follows the last of them. */
  function Lines(text: string): (seq<string>, string) {
    if text == [] then ([], [])
    else
      var (done, rest) := Lines(text[..|text| - 1]);
      var c := text[|text| - 1];
      if c == LF then (done + [rest], []) else (done, rest + [c])
  }

  function DeliverAll(lines: seq<string>): seq<string> {
    if lines == [] then [] else DeliverAll(lines[..|lines| - 1]) + [Delivered(lines[|lines| - 1])]
  }

  // ------------------------------------------------------------------
  // The line reader
  // ------------------------------------------------------------------

  /** The characters collected for the current line, and the lines completed so far. */
  datatype Reader = Reader(pending: string, lines: seq<string>)

  function Accept(r: Reader, c: char): Reader {
    if c == LF then Reader([], r.lines + [UpToNul(r.pending)])
    else if c != CR && |r.pending| < INPUT_MAX_LEN then r.(pending := r.pending + [c])
    else r
  }

  function AcceptAll(r: Reader, text: string): Reader {
    if text == [] then r else Accept(AcceptAll(r, text[..|text| - 1]), text[|text| - 1])
  }

  class LineReader {
    const buffer: array<char>
    var ind: nat
    var received: string           // received_data, up to its NUL
    var resets: nat                // how often reset_usb_boot was called
    ghost var lines: seq<string>   // every line copied to received_data

    ghost predicate Valid()
      reads this
    {
      buffer.Length == INPUT_MAX_LEN + 1 && ind <= INPUT_MAX_LEN
    }

    ghost function View(): Reader
      requires Valid()
      reads this, buffer
    {
      Reader(buffer[..ind], lines)
    }

    constructor ()
      ensures Valid() && fresh(buffer) && View() == Reader([], []) && received == "" && resets == 0
    {
      buffer := new char[INPUT_MAX_LEN + 1](_ => NUL);
      ind, received, resets, lines := 0, "", 0, [];
    }

    /** Ends a line: terminates the buffer, compares it with "reset", copies it out. */
    method EndLine()
      requires Valid()
      modifies this, buffer
      ensures Valid() && View() == Accept(old(View()), LF)
      ensures received == lines[|lines| - 1]
      ensures resets == old(resets) + if received == "reset" then 1 else 0
    {
      buffer[ind] := NUL;
      ghost var pending := old(buffer[..ind]);
      assert buffer[..ind + 1] == pending + [NUL];
      var line := CString(buffer[..]);
      LineOfBuffer(buffer[..], pending);
      if line == "reset" {
        resets := resets + 1;
      }
      received := line;
      lines := lines + [line];
      ind := 0;
    }

    /** One chunk from the USB endpoint. */
    method HandleCdcInput(inbuf: seq<char>)
      requires Valid() && |inbuf| <= 64
      modifies this, buffer
      ensures Valid() && View() == AcceptAll(old(View()), inbuf)
    {
      for i := 0 to |inbuf|
        invariant Valid() && View() == AcceptAll(old(View()), inbuf[..i])
      {
        assert inbuf[..i + 1][..i] == inbuf[..i];
        var c := inbuf[i];
        if c == LF {
          EndLine();
        } else if c != CR {
          if ind < INPUT_MAX_LEN {
            buffer[ind] := c;
            ind := ind + 1;
          }
        }
      }
      assert inbuf[..|inbuf|] == inbuf;
    }
  }

  lemma {:induction false} LineOfBuffer(buffer: seq<char>, pending: string)
    requires pending + [NUL] <= buffer
    ensures NUL in buffer && CString(buffer) == UpToNul(pending)
  {
    assert buffer[|pending|] == NUL;
    if pending != [] && pending[0] != NUL {
      assert buffer[0] == pending[0];
      assert pending[1..] + [NUL] <= buffer[1..];
      LineOfBuffer(buffer[1..], pending[1..]);
      assert CString(buffer) == [buffer[0]] + CString(buffer[1..]);
    }
  }

  // ------------------------------------------------------------------
  // What the reader delivers
  // ------------------------------------------------------------------

  lemma {:induction false} AcceptConcat(r: Reader, a: string, b: string)
    ensures AcceptAll(r, a + b) == AcceptAll(AcceptAll(r, a), b)
  {
    if b == [] {
      assert a + b == a;
    } else {
      assert (a + b)[..|a + b| - 1] == a + b[..|b| - 1];
      AcceptConcat(r, a, b[..|b| - 1]);
    }
  }

  function Concat(chunks: seq<string>): string {
    if chunks == [] then [] else Concat(chunks[..|chunks| - 1]) + chunks[|chunks| - 1]
  }

  function AcceptChunks(r: Reader, chunks: seq<string>): Reader {
    if chunks == [] then r else AcceptAll(AcceptChunks(r, chunks[..|chunks| - 1]), chunks[|chunks| - 1])
  }

  /** The chunking does not matter. */
  lemma {:induction false} ChunksDoNotMatter(r: Reader, chunks: seq<string>)
    ensures AcceptChunks(r, chunks) == AcceptAll(r, Concat(chunks))
  {
    if chunks != [] {
      ChunksDoNotMatter(r, chunks[..|chunks| - 1]);
      AcceptConcat(r, Concat(chunks[..|chunks| - 1]), chunks[|chunks| - 1]);
    }
  }

  const EMPTY := Reader([], [])

  /** The reader delivers exactly the lines of the text, each cleaned and cut. */
  lemma {:induction false} ReaderDeliversLines(text: string)
    ensures AcceptAll(EMPTY, text) ==
            Reader(Take(WithoutCr(Lines(text).1), INPUT_MAX_LEN), DeliverAll(Lines(text).0))
  {
    if text != [] {
      var front, c := text[..|text| - 1], text[|text| - 1];
      ReaderDeliversLines(front);
      var (done, rest) := Lines(front);
      if c == LF {
        assert (done + [rest])[..|done|] == done;
      } else {
        assert (rest + [c])[..|rest|] == rest;
      }
    }
  }

  /** The reader cannot tell expanded text from the original. */
  lemma {:induction false} ReaderIgnoresExpansion(r: Reader, text: string)
    ensures AcceptAll(r, Expanded(text)) == AcceptAll(r, text)
  {
    if text != [] {
      var front, c := text[..|text| - 1], text[|text| - 1];
      ReaderIgnoresExpansion(r, front);
      var last := if c == LF then [CR, LF] else [c];
      AcceptConcat(r, Expanded(front), last);
      AcceptLast(AcceptAll(r, front), c);
    }
  }

  lemma AcceptLast(r: Reader, c: char)
    ensures AcceptAll(r, if c == LF then [CR, LF] else [c]) == Accept(r, c)
  {
    assert [c][..0] == [] && [CR, LF][..1] == [CR] && [CR][..0] == [];
    assert AcceptAll(r, []) == r;
    assert AcceptAll(r, [CR]) == r;
  }

  /** Text printed on one side and read, in any chunks, on the other: the same lines arrive. */
  lemma PrintedLinesArrive(text: string, chunks: seq<string>)
    requires Concat(chunks) == Expanded(text)
    ensures AcceptChunks(EMPTY, chunks).lines == DeliverAll(Lines(text).0)
  {
    ChunksDoNotMatter(EMPTY, chunks);
    ReaderIgnoresExpansion(EMPTY, text);
    ReaderDeliversLines(text);
  }

  lemma {:induction false} NoNulKept(s: string)
    requires NUL !in s
    ensures UpToNul(s) == s
  {
    if s != [] {
      NoNulKept(s[1..]);
    }
  }

  lemma {:induction false} WithoutCrChars(s: string)
    ensures forall c | c in WithoutCr(s) :: c in s && c != CR
  {
    if s != [] {
      WithoutCrChars(s[..|s| - 1]);
    }
  }

  /** A line without NUL is delivered as its first 100 characters that are not CR. */
  lemma PlainLineDelivered(line: string)
    requires NUL !in line
    ensures Delivered(line) == Take(WithoutCr(line), 100)
  {
    WithoutCrChars(line);
    NoNulKept(Take(WithoutCr(line), INPUT_MAX_LEN));
  }

  // ------------------------------------------------------------------
  // The shape of expanded text
  // ------------------------------------------------------------------

  lemma WithoutCrSnoc(s: string, c: char)
    ensures WithoutCr(s + [c]) == WithoutCr(s) + if c == CR then [] else [c]
  {
    assert (s + [c])[..|s|] == s;
  }

  /** Each line feed comes right after a carriage return. */
  lemma {:induction false} CrBeforeLf(text: string)
    ensures forall i | 0 <= i < |Expanded(text)| && Expanded(text)[i] == '\n' ::
              i > 0 && Expanded(text)[i - 1] == '\r'
  {
    if text != [] {
      CrBeforeLf(text[..|text| - 1]);
    }
  }

  /** But for carriage returns the expanded text is the text. */
  lemma {:induction false} OnlyCrAdded(text: string)
    ensures WithoutCr(Expanded(text)) == WithoutCr(text)
  {
    if text != [] {
      var front, c := Expanded(text[..|text| - 1]), text[|text| - 1];
      OnlyCrAdded(text[..|text| - 1]);
      if c == LF {
        WithoutCrSnoc(front, CR);
        WithoutCrSnoc(front + [CR], LF);
        assert front + [CR, LF] == front + [CR] + [LF];
      } else {
        WithoutCrSnoc(front, c);
      }
    }
  }
}
