/** externals/httplib/httplib.h: the line reader with a fixed and a growing buffer, and the two body readers
    on top of it. A transport delivers some bytes, cut into reads in any way, and then ends. */
module ChunkedReader {
  import opened Sequences

  /** How the transport ends: the peer closes it, or a read fails. */
  datatype End = Closed | Failed

  class Stream {
    /** The bytes still to be delivered. */
    var rest: string
    const end: End

    constructor (rest: string, end: End)
      ensures this.rest == rest && this.end == end
    {
      this.rest, this.end := rest, end;
    }

    /** `Stream::read`: any positive number of the bytes there are, 0 at a close, negative at a failure. */
    method Read(buffer: array<char>, at: nat, size: nat) returns (n: int)
      requires 0 < size && at + size <= buffer.Length
      modifies this, buffer
      ensures n <= size
      ensures old(rest) != "" ==> n > 0 && old(rest) == buffer[at..at + n] + rest
      ensures old(rest) == "" ==> rest == "" && n == if end.Closed? then 0 else -1
      ensures buffer[..at] == old(buffer[..at])
      ensures n > 0 ==> buffer[at + n..] == old(buffer[at + n..])
      ensures n <= 0 ==> buffer[..] == old(buffer[..])
    {
      if rest == "" {
        return if end.Closed? then 0 else -1;
      }
      var count: nat :| 1 <= count <= size && count <= |rest|;
      for i := 0 to count
        invariant rest == old(rest) && buffer[..at] == old(buffer[..at])
        invariant buffer[at..at + i] == rest[..i]
        invariant buffer[at + i..] == old(buffer[at + i..])
      {
        buffer[at + i] := rest[i];
      }
      rest := rest[count..];
      return count;
    }

    /** A read into a single `char`. */
    method ReadByte() returns (n: int, byte: char)
      modifies this
      ensures old(rest) != "" ==> n == 1 && old(rest) == [byte] + rest
      ensures old(rest) == "" ==> rest == "" && n == if end.Closed? then 0 else -1
    {
      var cell := new char[1];
      n := Read(cell, 0, 1);
      byte := cell[0];
    }
  }

  /** Number of bytes up to and with the first line feed, or of all bytes without one. */
  function LineLength(s: string): (n: nat)
    ensures n <= |s| && (s != "" ==> n > 0)
  {
    if s == "" then 0 else if s[0] == '\n' then 1 else 1 + LineLength(s[1..])
  }

  function Line(s: string): string {
    s[..LineLength(s)]
  }

  function AfterLine(s: string): string {
    s[LineLength(s)..]
  }

  /** A line can be had unless nothing is left, or the transport fails before the line feed. */
  predicate LineOk(s: string, end: End) {
    s != "" && (end.Closed? || '\n' in s)
  }

  /** A line starts with everything before a line feed. */
  lemma {:induction false} LineStarts(text: string, s: string)
    requires '\n' !in text
    ensures LineLength(text + s) == |text| + LineLength(s)
    ensures Line(text + s) == text + Line(s) && AfterLine(text + s) == AfterLine(s)
  {
    if text == "" {
      assert text + s == s;
    } else {
      assert (text + s)[1..] == text[1..] + s;
      LineStarts(text[1..], s);
    }
  }

  lemma LineFails(s: string)
    requires '\n' !in s
    ensures !LineOk(s, Failed) && !LineOk("", Closed) && (s != "" ==> LineOk(s, Closed))
  {
  }

  lemma WholeLine(s: string)
    requires '\n' !in s
    ensures Line(s) == s && AfterLine(s) == ""
  {
    assert s + "" == s;
    LineStarts(s, "");
  }

  lemma LineEnds(text: string, s: string, end: End)
    requires '\n' !in text
    ensures LineOk(text + ['\n'] + s, end)
    ensures Line(text + ['\n'] + s) == text + ['\n'] && AfterLine(text + ['\n'] + s) == s
  {
    assert text + ['\n'] + s == text + (['\n'] + s);
    LineStarts(text, ['\n'] + s);
    assert (text + ['\n'] + s)[|text|] == '\n';
  }

  /** What a C string reader sees: everything before the first NUL. */
  function CString(s: string): (r: string)
    ensures r <= s && '\0' !in r && (|r| < |s| ==> s[|r|] == '\0')
  {
    if s == "" || s[0] == '\0' then "" else [s[0]] + CString(s[1..])
  }

  /** A prefix without NUL that ends at a NUL or at the end is what a C string reader sees. */
  lemma CStringUnique(s: string, r: string)
    requires r <= s && '\0' !in r && (|r| < |s| ==> s[|r|] == '\0')
    ensures CString(s) == r
  {
  }

  class LineReader {
    const strm: Stream
    const fixedBuffer: array<char>
    var fixedBufferUsedSize: nat
    var growableBuffer: string

    ghost predicate Valid() {
      fixedBuffer.Length >= 1
    }

    /** A fixed buffer of one byte is never written, so its terminator must be there from the start: `append`
        asserts it. */
    ghost predicate Terminated()
      requires Valid()
      reads fixedBuffer
    {
      fixedBuffer.Length == 1 ==> fixedBuffer[0] == '\0'
    }

    constructor (strm: Stream, fixedBuffer: array<char>)
      requires fixedBuffer.Length >= 1
      ensures Valid() && this.strm == strm && this.fixedBuffer == fixedBuffer
    {
      this.strm, this.fixedBuffer := strm, fixedBuffer;
      fixedBufferUsedSize, growableBuffer := 0, "";
    }

    /** The two buffers together hold `line`. */
    ghost predicate Holds(line: string)
      requires Valid()
      reads this, fixedBuffer
    {
      && fixedBufferUsedSize < fixedBuffer.Length && Terminated()
      && (growableBuffer == "" ==>
            line == fixedBuffer[..fixedBufferUsedSize] && (line != "" ==> fixedBuffer[fixedBufferUsedSize] == '\0'))
      && (growableBuffer != "" ==> fixedBufferUsedSize == fixedBuffer.Length - 1 && line == growableBuffer)
    }

    /** The text behind `ptr()`, as its readers see it. */
    function Ptr(): string
      reads this, fixedBuffer
    {
      if growableBuffer == "" then CString(fixedBuffer[..]) else CString(growableBuffer)
    }

    lemma PtrIsLine(line: string)
      requires Valid() && Holds(line) && line != ""
      ensures Ptr() == CString(line)
    {
      if growableBuffer == "" {
        CStringUnique(fixedBuffer[..], CString(line));
      }
    }

    lemma HoldsTerminated(line: string)
      requires Valid() && Holds(line)
      ensures Terminated()
    {
    }

    method Append(c: char, ghost line: string)
      requires Valid() && Holds(line)
      modifies this, fixedBuffer
      ensures Holds(line + [c])
    {
      if fixedBufferUsedSize < fixedBuffer.Length - 1 {
        fixedBuffer[fixedBufferUsedSize] := c;
        fixedBufferUsedSize := fixedBufferUsedSize + 1;
        fixedBuffer[fixedBufferUsedSize] := '\0';
      } else {
        if growableBuffer == "" {
          assert fixedBuffer[fixedBufferUsedSize] == '\0';
          growableBuffer := fixedBuffer[..fixedBufferUsedSize];
        }
        growableBuffer := growableBuffer + [c];
      }
    }

    method Clear()
      requires Valid() && Terminated()
      modifies this
      ensures Holds("")
    {
      fixedBufferUsedSize := 0;
      growableBuffer := "";
    }

    /** The reader yields exactly the next line, whatever its length. */
    method GetLine() returns (ok: bool)
      requires Valid() && Terminated()
      modifies this, strm, fixedBuffer
      ensures ok == LineOk(old(strm.rest), strm.end)
      ensures ok ==> Ptr() == CString(Line(old(strm.rest)))
      ensures strm.rest == AfterLine(old(strm.rest)) && Terminated()
    {
      hide *;
      Clear();
      ghost var line := "";
      var i := 0;
      while true
        invariant Holds(line) && old(strm.rest) == line + strm.rest && '\n' !in line && i == |line|
        decreases |strm.rest|
      {
        LineFails(line);
        WholeLine(line);
        assert line + "" == line;
        HoldsTerminated(line);
        var n, byte := strm.ReadByte();
        if n < 0 {
          return false;
        } else if n == 0 {
          if i == 0 {
            return false;
          }
          PtrIsLine(line);
          return true;
        }
        Append(byte, line);
        Associative(line, [byte], strm.rest);
        if byte == '\n' {
          PtrIsLine(line + ['\n']);
          HoldsTerminated(line + ['\n']);
          LineEnds(line, strm.rest, strm.end);
          return true;
        }
        line := line + [byte];
        i := i + 1;
      }
    }
  }

  function Zeros(n: nat): string {
    seq(n, i => '\0')
  }

  /** `read_content_with_length`: the next `len` bytes, or what there is followed by zeros. */
  method ReadContentWithLength(strm: Stream, len: nat) returns (ok: bool, out: string)
    modifies strm
    ensures ok == (|old(strm.rest)| >= len)
    ensures ok ==> out == old(strm.rest)[..len] && strm.rest == old(strm.rest)[len..]
    ensures !ok ==> strm.rest == "" && out == old(strm.rest) + Zeros(len - |old(strm.rest)|)
  {
    var buffer := new char[len](i => '\0');
    var r: nat := 0;
    while r < len
      invariant r <= len && old(strm.rest) == buffer[..r] + strm.rest
      invariant buffer[r..] == Zeros(len - r)
    {
      r, ok := ReadMore(strm, buffer, r);
      if !ok {
        return false, buffer[..];
      }
    }
    assert buffer[..r] == buffer[..];
    return true, buffer[..];
  }

  method ReadMore(strm: Stream, buffer: array<char>, r: nat) returns (r': nat, ok: bool)
    requires r < buffer.Length && buffer[r..] == Zeros(buffer.Length - r)
    modifies strm, buffer
    ensures ok == (old(strm.rest) != "")
    ensures ok ==> r < r' <= buffer.Length && old(buffer[..r] + strm.rest) == buffer[..r'] + strm.rest
    ensures ok ==> buffer[r'..] == Zeros(buffer.Length - r')
    ensures !ok ==> strm.rest == "" && buffer[..] == old(buffer[..r]) + Zeros(buffer.Length - r)
  {
    ghost var done := buffer[..r];
    var n := strm.Read(buffer, r, buffer.Length - r);
    if n <= 0 {
      assert buffer[..] == buffer[..r] + buffer[r..];
      return r, false;
    }
    r' := r + n;
    assert buffer[..r'] == done + buffer[r..r'];
    Associative(done, buffer[r..r'], strm.rest);
    assert buffer[r'..] == old(buffer[r..])[n..];
    return r', true;
  }

  // `std::stoi` in base 16 (std::strtol underneath), on a C string

  predicate IsHexDigit(c: char) {
    '0' <= c <= '9' || 'a' <= c <= 'f' || 'A' <= c <= 'F'
  }

  function Digit(c: char): (d: nat)
    requires IsHexDigit(c)
    ensures d < 16
  {
    if c <= '9' then (c - '0') as nat else if 'a' <= c then (c - 'a') as nat + 10 else (c - 'A') as nat + 10
  }

  predicate IsHex(s: string) {
    forall i | 0 <= i < |s| :: IsHexDigit(s[i])
  }

  function HexValue(s: string): nat
    requires IsHex(s)
  {
    if s == "" then 0 else 16 * HexValue(s[..|s| - 1]) + Digit(s[|s| - 1])
  }

  predicate IsSpace(c: char) {
    c == ' ' || '\t' <= c <= '\r'
  }

  function SkipSpace(s: string): string {
    if s != "" && IsSpace(s[0]) then SkipSpace(s[1..]) else s
  }

  /** The longest prefix of hexadecimal digits. */
  function HexPrefix(s: string): (r: string)
    ensures r <= s && IsHex(r) && (|r| < |s| ==> !IsHexDigit(s[|r|]))
  {
    if s == "" || !IsHexDigit(s[0]) then "" else [s[0]] + HexPrefix(s[1..])
  }

  const INT_LIMIT: int := 0x8000_0000

  datatype Number = Value(value: int) | InvalidArgument | OutOfRange

  function Stoi16(s: string): Number {
    var t := SkipSpace(s);
    var negative := t != "" && t[0] == '-';
    var u := if t != "" && (t[0] == '-' || t[0] == '+') then t[1..] else t;
    var digits :=
      HexPrefix(if |u| > 2 && u[0] == '0' && (u[1] == 'x' || u[1] == 'X') && IsHexDigit(u[2]) then u[2..] else u);
    if digits == "" then
      InvalidArgument
    else
      var value: int := if negative then -(HexValue(digits) as int) else HexValue(digits);
      if -INT_LIMIT <= value < INT_LIMIT then Value(value) else OutOfRange
  }

  /** How `read_content_chunked` ends: it returns, or an exception of `std::stoi` leaves it. */
  datatype Outcome = Returned(ok: bool) | Thrown

  /** The outcome, what `out` holds then, and the bytes not read. */
  datatype Reading = Reading(outcome: Outcome, out: string, rest: string)

  const CRLF: string := "\r\n"

  /** What reading the bytes `s` amounts to, starting at a size line. */
  function FromSize(s: string, end: End, out: string): Reading
    decreases |s|
  {
    if !LineOk(s, end) then
      Reading(Returned(false), out, AfterLine(s))
    else
      match Stoi16(CString(Line(s)))
      case Value(size) => WithSize(size, AfterLine(s), end, out)
      case _ => Reading(Thrown, out, AfterLine(s))
  }

  /** The same once the size is known. */
  function WithSize(size: int, s: string, end: End, out: string): Reading
    decreases |s|
  {
    if size < 0 then
      Reading(Returned(true), out, s)
    else if size == 0 then
      Reading(Returned(LineOk(s, end) && CString(Line(s)) == CRLF), out, AfterLine(s))
    else if |s| < size then
      Reading(Returned(false), out, "")
    else if !LineOk(s[size..], end) then
      Reading(Returned(false), out, AfterLine(s[size..]))
    else if CString(Line(s[size..])) != CRLF then
      Reading(Returned(true), out, AfterLine(s[size..]))
    else
      FromSize(AfterLine(s[size..]), end, out + s[..size])
  }

  /** However the transport cuts its reads, the result depends only on the bytes it delivers and its end. */
  method ReadContentChunked(strm: Stream, body: string) returns (outcome: Outcome, out: string)
    modifies strm
    ensures Reading(outcome, out, strm.rest) == FromSize(old(strm.rest), strm.end, body)
  {
    out := body;
    var buf := new char[16];
    var reader := new LineReader(strm, buf);
    var ok := reader.GetLine();
    if !ok {
      return Returned(false), out;
    }
    var number := Stoi16(reader.Ptr());
    if !number.Value? {
      return Thrown, out;
    }
    var chunkLen := number.value;
    while chunkLen > 0
      invariant WithSize(chunkLen, strm.rest, strm.end, out) == FromSize(old(strm.rest), strm.end, body)
      invariant fresh(reader) && fresh(buf) && reader.Valid() && reader.strm == strm && reader.fixedBuffer == buf
      decreases |strm.rest|
    {
      var chunk;
      ok, chunk := ReadContentWithLength(strm, chunkLen);
      if !ok {
        return Returned(false), out;
      }
      ok := reader.GetLine();
      if !ok {
        return Returned(false), out;
      }
      if reader.Ptr() != CRLF {
        return Returned(true), out;
      }
      out := out + chunk;
      ok := reader.GetLine();
      if !ok {
        return Returned(false), out;
      }
      number := Stoi16(reader.Ptr());
      if !number.Value? {
        return Thrown, out;
      }
      chunkLen := number.value;
    }
    if chunkLen == 0 {
      ok := reader.GetLine();
      if !ok || reader.Ptr() != CRLF {
        return Returned(false), out;
      }
    }
    return Returned(true), out;
  }
}
