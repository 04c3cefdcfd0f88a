/** Chunked bodies as section 4.1 of RFC 7230 defines them (without trailers), and what
    `read_content_chunked` makes of them and of their truncations. */
module ChunkedBody {
  import opened ChunkedReader
  import opened Sequences

  const LOWER: string := "0123456789abcdef"
  const UPPER: string := "0123456789ABCDEF"

  /** The text spells the number in base 16, in digits of either case and with any number of leading zeros. */
  predicate Spells(s: string, n: nat) {
    if s == "" then n == 0
    else (s[|s| - 1] == LOWER[n % 16] || s[|s| - 1] == UPPER[n % 16]) && Spells(s[..|s| - 1], n / 16)
  }

  /** A chunk: the spelling of its size, its extension with the leading semicolon, and its data. */
  datatype Chunk = Chunk(size: string, extension: string, data: string)

  predicate ValidSizeLine(size: string, n: nat, extension: string) {
    && size != "" && Spells(size, n)
    && (extension != "" ==> extension[0] == ';') && '\n' !in extension
  }

  predicate ValidChunk(c: Chunk) {
    ValidSizeLine(c.size, |c.data|, c.extension) && c.data != ""
  }

  predicate ValidChunks(chunks: seq<Chunk>) {
    forall i | 0 <= i < |chunks| :: ValidChunk(chunks[i])
  }

  predicate ValidLast(zeros: string, extension: string) {
    ValidSizeLine(zeros, 0, extension)
  }

  function SizeLine(size: string, extension: string): string {
    size + extension + CRLF
  }

  function EncodeChunk(c: Chunk): string {
    SizeLine(c.size, c.extension) + (c.data + CRLF)
  }

  function Body(chunks: seq<Chunk>, zeros: string, extension: string): string {
    if chunks == [] then SizeLine(zeros, extension) + CRLF
    else EncodeChunk(chunks[0]) + Body(chunks[1..], zeros, extension)
  }

  function Data(chunks: seq<Chunk>): string {
    if chunks == [] then "" else chunks[0].data + Data(chunks[1..])
  }

  /** Number of leading chunks whose size an `int` can hold. */
  function Fitting(chunks: seq<Chunk>): (n: nat)
    ensures n <= |chunks|
    ensures forall i | 0 <= i < n :: |chunks[i].data| < INT_LIMIT
    ensures n < |chunks| ==> |chunks[n].data| >= INT_LIMIT
  {
    if chunks == [] || |chunks[0].data| >= INT_LIMIT then 0 else 1 + Fitting(chunks[1..])
  }

  // ---- numbers -----------------------------------------------------------------------------

  lemma DigitIs(c: char, d: nat)
    requires d < 16
    ensures c == LOWER[d] || c == UPPER[d] <==> IsHexDigit(c) && Digit(c) == d
  {
  }

  lemma DigitCharacters(c: char)
    ensures IsHexDigit(c) <==> c in LOWER + UPPER
  {
    if IsHexDigit(c) {
      DigitIs(c, Digit(c));
      assert LOWER[Digit(c)] in LOWER && UPPER[Digit(c)] in UPPER;
    }
    forall d: nat | d < 16 ensures IsHexDigit(LOWER[d]) && IsHexDigit(UPPER[d]) {
      DigitIs(LOWER[d], d);
      DigitIs(UPPER[d], d);
    }
  }

  /** The digits are read as the number they spell, and as no other. */
  lemma {:induction false} SpellsExactly(s: string, n: nat)
    ensures Spells(s, n) <==> IsHex(s) && HexValue(s) == n
  {
    hide Digit, IsHexDigit;
    if s != "" {
      var init, last := s[..|s| - 1], s[|s| - 1];
      DigitIs(last, n % 16);
      SpellsExactly(init, n / 16);
      if IsHex(s) {
        assert IsHex(init) && IsHexDigit(last);
        OneQuotient(HexValue(init), Digit(last), n);
      } else {
        assert !IsHexDigit(last) || !IsHex(init);
      }
    }
  }

  lemma OneQuotient(q: nat, r: nat, n: nat)
    requires r < 16
    ensures 16 * q + r == n <==> q == n / 16 && r == n % 16
  {
  }

  /** Every number has a spelling. */
  lemma {:induction false} EveryNumberIsSpelled(n: nat) returns (s: string)
    ensures s != "" && Spells(s, n)
  {
    var init := "";
    if n >= 16 {
      init := EveryNumberIsSpelled(n / 16);
    }
    s := init + [LOWER[n % 16]];
    assert s[..|s| - 1] == init;
  }

  lemma HexPrefixUnique(s: string, r: string)
    requires r <= s && IsHex(r) && (|r| < |s| ==> !IsHexDigit(s[|r|]))
    ensures HexPrefix(s) == r
  {
  }

  function InRange(value: nat): Number {
    if value < INT_LIMIT then Value(value) else OutOfRange
  }

  lemma StoiPlain(s: string)
    requires s != "" && IsHexDigit(s[0]) && (|s| > 1 ==> s[1] != 'x' && s[1] != 'X')
    ensures Stoi16(s) == InRange(HexValue(HexPrefix(s)))
  {
    hide HexValue, HexPrefix;
    assert SkipSpace(s) == s;
    assert HexPrefix(s) != "";
  }

  /** Digits followed by the end, a semicolon or a carriage return are read as the number they spell. */
  lemma StoiReads(size: string, n: nat, t: string)
    requires size != "" && Spells(size, n) && (t != "" ==> t[0] == ';' || t[0] == '\r')
    ensures Stoi16(CString(size + t)) == InRange(n)
  {
    hide Stoi16, HexValue, Spells;
    SpellsExactly(size, n);
    CStringStarts(size, t);
    var s := size + CString(t);
    assert s[0] == size[0] && (|size| > 1 ==> s[1] == size[1]);
    assert |size| < |s| ==> s[|size|] == t[0];
    StoiPlain(s);
    HexPrefixUnique(s, size);
  }

  const SPACES: string := " \t\n\U{B}\U{C}\r"

  lemma {:induction false} SpaceSkipped(spaces: string, s: string)
    requires (forall i | 0 <= i < |spaces| :: spaces[i] in SPACES) && (s != "" ==> s[0] !in SPACES)
    ensures SkipSpace(spaces + s) == s
  {
    if spaces == "" {
      assert spaces + s == s;
    } else {
      assert (spaces + s)[1..] == spaces[1..] + s && spaces[0] in SPACES;
      SpaceSkipped(spaces[1..], s);
    }
  }

  /** `std::stoi` in general: white space, a sign, "0x", digits, and something that is no digit. The digits "0" before
      an 'x' and a digit are themselves part of a prefix. */
  lemma StoiReadsNumber(spaces: string, sign: string, prefix: string, digits: string, n: nat, t: string)
    requires forall i | 0 <= i < |spaces| :: spaces[i] in SPACES
    requires sign in {"", "+", "-"} && prefix in {"", "0x", "0X"} && digits != "" && Spells(digits, n)
    requires t != "" ==> t[0] !in LOWER + UPPER
    requires prefix == "" && digits == "0" && |t| > 1 && t[0] in {'x', 'X'} ==> t[1] !in LOWER + UPPER
    ensures var value: int := if sign == "-" then -(n as int) else n;
            Stoi16(spaces + (sign + (prefix + (digits + t))))
            == if -INT_LIMIT <= value < INT_LIMIT then Value(value) else OutOfRange
  {
    hide HexValue, Spells, SkipSpace, Stoi16, HexPrefix, IsHexDigit;
    SpellsExactly(digits, n);
    var d := digits + t;
    var u := prefix + d;
    NumberPrefix(digits, t);
    NoDigit(d[0]);
    assert u[0] !in SPACES && u[0] != '-' && u[0] != '+' && u[|prefix|..] == d;
    assert Prefixed(u) <==> prefix != "" by {
      if prefix == "" {
        assert u == d;
        NoPrefix(digits, t);
      } else {
        assert u[2] == d[0];
      }
    }
    assert sign != "" ==> (sign + u)[0] == sign[0];
    assert sign == "" ==> sign + u == u;
    SpaceSkipped(spaces, sign + u);
    StoiUnfolds(spaces + (sign + u), sign, u, digits);
  }

  predicate Prefixed(u: string) {
    |u| > 2 && u[0] == '0' && (u[1] == 'x' || u[1] == 'X') && IsHexDigit(u[2])
  }

  lemma StoiUnfolds(s: string, sign: string, u: string, digits: string)
    requires sign in {"", "+", "-"} && u != "" && u[0] != '-' && u[0] != '+' && SkipSpace(s) == sign + u
    requires IsHex(digits) && digits != "" && HexPrefix(if Prefixed(u) then u[2..] else u) == digits
    ensures var value: int := if sign == "-" then -(HexValue(digits) as int) else HexValue(digits);
            Stoi16(s) == if -INT_LIMIT <= value < INT_LIMIT then Value(value) else OutOfRange
  {
    hide HexValue, SkipSpace, HexPrefix, IsHexDigit;
    var t := sign + u;
    assert t[|sign|..] == u && t[0] == if sign == "" then u[0] else sign[0];
  }

  /** Without a digit after white space and sign there is no number. */
  lemma StoiRefuses(spaces: string, sign: string, t: string)
    requires (forall i | 0 <= i < |spaces| :: spaces[i] in SPACES) && sign in {"", "+", "-"}
    requires t != "" ==> t[0] !in LOWER + UPPER
    requires sign == "" && t != "" ==> t[0] !in SPACES && t[0] != '+' && t[0] != '-'
    ensures Stoi16(spaces + (sign + t)) == InvalidArgument
  {
    hide SkipSpace, IsHexDigit;
    var u := sign + t;
    assert u[|sign|..] == t && (u != "" ==> u[0] == if sign == "" then t[0] else sign[0]);
    SpaceSkipped(spaces, u);
    if t != "" {
      DigitCharacters(t[0]);
    }
    HexPrefixUnique(t, "");
    DigitCharacters('0');
  }

  lemma NumberPrefix(digits: string, t: string)
    requires digits != "" && IsHex(digits) && (t != "" ==> t[0] !in LOWER + UPPER)
    ensures (digits + t)[0] == digits[0] && IsHexDigit(digits[0]) && HexPrefix(digits + t) == digits
  {
    hide IsHexDigit;
    if t != "" {
      DigitCharacters(t[0]);
      assert (digits + t)[|digits|] == t[0];
    }
    HexPrefixUnique(digits + t, digits);
  }

  lemma NoPrefix(digits: string, t: string)
    requires digits != "" && IsHex(digits) && (t != "" ==> t[0] !in LOWER + UPPER)
    requires digits == "0" && |t| > 1 && t[0] in {'x', 'X'} ==> t[1] !in LOWER + UPPER
    ensures !Prefixed(digits + t)
  {
    if |digits| > 1 {
      assert IsHexDigit(digits[1]);
    } else if |t| > 1 {
      DigitCharacters(t[1]);
      assert digits[0] == '0' ==> digits == "0";
    }
  }

  /** A digit is neither white space nor a sign. */
  lemma NoDigit(c: char)
    ensures IsHexDigit(c) ==> c !in SPACES && c != '-' && c != '+'
  {
  }

  lemma {:induction false} CStringStarts(size: string, t: string)
    requires IsHex(size)
    ensures CString(size + t) == size + CString(t)
  {
    if size == "" {
      assert size + t == t;
    } else {
      assert IsHexDigit(size[0]);
      assert (size + t)[1..] == size[1..] + t;
      CStringStarts(size[1..], t);
    }
  }

  /** A size line is read as its value. */
  lemma SizeLineRead(size: string, n: nat, extension: string, s: string, end: End, out: string)
    requires ValidSizeLine(size, n, extension)
    ensures FromSize(SizeLine(size, extension) + s, end, out)
            == if n < INT_LIMIT then WithSize(n, s, end, out) else Reading(Thrown, out, s)
  {
    hide Stoi16, HexValue, WithSize, Spells;
    SpellsExactly(size, n);
    var text := size + extension + "\r";
    assert SizeLine(size, extension) == text + "\n";
    assert '\n' !in size by { assert !IsHexDigit('\n'); }
    LineEnds(text, s, end);
    assert SizeLine(size, extension) == size + (extension + CRLF);
    StoiReads(size, n, extension + CRLF);
  }

  /** A negative size ends the body: it is accepted as it is. */
  lemma NegativeSizeEnds(digits: string, n: nat, s: string, end: End, out: string)
    requires digits != "" && Spells(digits, n) && 0 < n <= INT_LIMIT
    ensures FromSize("-" + digits + CRLF + s, end, out) == Reading(Returned(true), out, s)
  {
    hide Stoi16, HexValue, Spells, CString;
    SpellsExactly(digits, n);
    var text := "-" + digits + "\r";
    assert '\n' !in digits by { assert !IsHexDigit('\n'); }
    assert "-" + digits + CRLF + s == text + "\n" + s;
    LineEnds(text, s, end);
    assert text + "\n" == "-" + (digits + CRLF);
    assert CString("-" + (digits + CRLF)) == "-" + (digits + CRLF) by {
      MinusRead(digits + CRLF);
      CStringStarts(digits, CRLF);
      CStringUnique(CRLF, CRLF);
    }
    assert CRLF[0] !in LOWER + UPPER;
    StoiReadsNumber("", "-", "", digits, n, CRLF);
    assert "" + ("-" + ("" + (digits + CRLF))) == "-" + (digits + CRLF);
  }

  lemma MinusRead(s: string)
    ensures CString("-" + s) == "-" + CString(s)
  {
    assert ("-" + s)[1..] == s;
  }

  lemma CrlfRead(s: string, end: End)
    ensures LineOk(CRLF + s, end) && CString(Line(CRLF + s)) == CRLF && AfterLine(CRLF + s) == s
  {
    LineEnds("\r", s, end);
    assert CRLF == "\r" + "\n";
    CStringUnique(CRLF, CRLF);
  }

  /** A chunk is read as its data. */
  lemma ChunkRead(c: Chunk, s: string, end: End, out: string)
    requires ValidChunk(c) && |c.data| < INT_LIMIT
    ensures FromSize(EncodeChunk(c) + s, end, out) == FromSize(s, end, out + c.data)
  {
    hide Spells;
    var t := c.data + (CRLF + s);
    assert EncodeChunk(c) + s == SizeLine(c.size, c.extension) + t;
    SizeLineRead(c.size, |c.data|, c.extension, t, end, out);
    assert t[|c.data|..] == CRLF + s && t[..|c.data|] == c.data;
    CrlfRead(s, end);
  }

  /** Data that is followed by a line other than CRLF is dropped, and the body is accepted as it is up to there. */
  lemma BadTerminatorEnds(c: Chunk, t: string, end: End, out: string)
    requires ValidChunk(c) && |c.data| < INT_LIMIT && LineOk(t, end) && CString(Line(t)) != CRLF
    ensures FromSize(SizeLine(c.size, c.extension) + (c.data + t), end, out)
            == Reading(Returned(true), out, AfterLine(t))
  {
    hide Spells, FromSize, CString, LineLength;
    SizeLineRead(c.size, |c.data|, c.extension, c.data + t, end, out);
    assert (c.data + t)[|c.data|..] == t;
  }

  /** A last chunk that is followed by a line other than CRLF, as a trailer field is, is refused. */
  lemma TrailerRefused(zeros: string, extension: string, t: string, end: End, out: string)
    requires ValidLast(zeros, extension) && LineOk(t, end) && CString(Line(t)) != CRLF
    ensures FromSize(SizeLine(zeros, extension) + t, end, out) == Reading(Returned(false), out, AfterLine(t))
  {
    hide Spells, FromSize, CString, LineLength;
    SizeLineRead(zeros, 0, extension, t, end, out);
  }

  /** Chunks that fit are read as their data, whatever follows; the first one that does not fit throws. */
  lemma {:induction false} ChunksRead(
      chunks: seq<Chunk>, zeros: string, extension: string, s: string, end: End, out: string)
    requires ValidChunks(chunks) && ValidLast(zeros, extension)
    ensures
      FromSize(Body(chunks, zeros, extension) + s, end, out)
      == if Fitting(chunks) == |chunks| then Reading(Returned(true), out + Data(chunks), s)
         else Reading(Thrown, out + Data(chunks[..Fitting(chunks)]), AfterBig(chunks, zeros, extension) + s)
  {
    hide FromSize, WithSize, EncodeChunk, SizeLine, HexValue, Spells;
    if chunks == [] {
      LastRead(zeros, extension, s, end, out);
      assert out + Data(chunks) == out;
    } else {
      var c, b := chunks[0], Body(chunks[1..], zeros, extension);
      Associative(EncodeChunk(c), b, s);
      if |c.data| < INT_LIMIT {
        ChunkRead(c, b + s, end, out);
        ChunksRead(chunks[1..], zeros, extension, s, end, out + c.data);
        Associative(out, c.data, Data(chunks[1..]));
        var n := Fitting(chunks[1..]);
        assert chunks[..n + 1][1..] == chunks[1..][..n];
        Associative(out, c.data, Data(chunks[1..][..n]));
      } else {
        BigRead(c, b, s, end, out);
        assert out + Data(chunks[..0]) == out;
      }
    }
  }

  lemma LastRead(zeros: string, extension: string, s: string, end: End, out: string)
    requires ValidLast(zeros, extension)
    ensures FromSize(Body([], zeros, extension) + s, end, out) == Reading(Returned(true), out, s)
  {
    hide FromSize, Spells;
    Associative(SizeLine(zeros, extension), CRLF, s);
    SizeLineRead(zeros, 0, extension, CRLF + s, end, out);
    CrlfRead(s, end);
  }

  lemma BigRead(c: Chunk, b: string, s: string, end: End, out: string)
    requires ValidChunk(c) && |c.data| >= INT_LIMIT
    ensures FromSize(EncodeChunk(c) + (b + s), end, out) == Reading(Thrown, out, c.data + CRLF + b + s)
  {
    hide FromSize, WithSize, Spells;
    var t := c.data + CRLF + b + s;
    assert EncodeChunk(c) + (b + s) == SizeLine(c.size, c.extension) + t;
    SizeLineRead(c.size, |c.data|, c.extension, t, end, out);
  }

  /** The body from the data of the first chunk that does not fit. */
  function AfterBig(chunks: seq<Chunk>, zeros: string, extension: string): string
    requires Fitting(chunks) < |chunks|
  {
    if |chunks[0].data| >= INT_LIMIT then chunks[0].data + CRLF + Body(chunks[1..], zeros, extension)
    else AfterBig(chunks[1..], zeros, extension)
  }

  /** A well-formed body followed by anything is read as the data of its chunks, and nothing more is taken
      from the transport, if and only if every chunk is shorter than 2^31 bytes. */
  lemma BodyReadsBackExactly(
      chunks: seq<Chunk>, zeros: string, extension: string, s: string, end: End, out: string)
    requires ValidChunks(chunks) && ValidLast(zeros, extension)
    ensures
      (FromSize(Body(chunks, zeros, extension) + s, end, out) == Reading(Returned(true), out + Data(chunks), s))
      <==> (forall i | 0 <= i < |chunks| :: |chunks[i].data| < INT_LIMIT)
  {
    ChunksRead(chunks, zeros, extension, s, end, out);
  }

  // ---- bodies that the transport cuts short --------------------------------------------------

  lemma {:induction false} HexPrefixValue(size: string, n: nat)
    requires IsHex(size) && n <= |size|
    ensures HexValue(size[..n]) <= HexValue(size)
  {
    if n == |size| {
      assert size[..n] == size;
    } else {
      HexPrefixValue(size[..|size| - 1], n);
      assert size[..|size| - 1][..n] == size[..n];
    }
  }

  /** Bytes that end inside a size line are never accepted; they are refused if the size fits. */
  lemma SizeLineCut(size: string, value: nat, extension: string, n: nat, end: End, out: string)
    requires ValidSizeLine(size, value, extension) && n < |SizeLine(size, extension)|
    ensures var outcome := FromSize(SizeLine(size, extension)[..n], end, out).outcome;
            outcome != Returned(true) && (value < INT_LIMIT ==> outcome == Returned(false))
  {
    hide Stoi16, HexValue, CString, LineLength, Spells;
    SpellsExactly(size, value);
    var p, m := SizeLine(size, extension)[..n], if n <= |size| then n else |size|;
    var t := (extension + CRLF)[..n - m];
    assert p == size[..m] + t;
    assert '\n' !in p by { assert !IsHexDigit('\n'); }
    WholeLine(p);
    if LineOk(p, end) {
      SpellsExactly(size[..m], HexValue(size[..m]));
      if m > 0 {
        StoiReads(size[..m], HexValue(size[..m]), t);
      }
      HexPrefixValue(size, m);
      NothingLeft(HexValue(size[..m]), end, out);
    }
  }

  lemma NothingLeft(size: nat, end: End, out: string)
    ensures WithSize(size, "", end, out).outcome == Returned(false)
  {
  }

  /** Bytes that end inside a chunk are accepted exactly when its size fits, they end between the carriage return and
      the line feed after the data, and the transport is closed there: then the chunk is dropped without an error. */
  lemma ChunkCut(c: Chunk, n: nat, end: End, out: string)
    requires ValidChunk(c) && n < |EncodeChunk(c)|
    ensures var outcome := FromSize(EncodeChunk(c)[..n], end, out).outcome;
            && (outcome == Returned(true) <==> end.Closed? && |c.data| < INT_LIMIT && n == |EncodeChunk(c)| - 1)
            && (|c.data| < INT_LIMIT ==> outcome.Returned?)
  {
    hide FromSize, HexValue, CString, LineLength, Spells;
    var line := SizeLine(c.size, c.extension);
    if n < |line| {
      assert EncodeChunk(c)[..n] == line[..n];
      SizeLineCut(c.size, |c.data|, c.extension, n, end, out);
    } else {
      var t := (c.data + CRLF)[..n - |line|];
      assert EncodeChunk(c)[..n] == line + t;
      SizeLineRead(c.size, |c.data|, c.extension, t, end, out);
      if |t| >= |c.data| {
        assert t[|c.data|..] == if |t| == |c.data| then "" else "\r";
        WholeLine("\r");
        CStringUnique("\r", "\r");
      }
    }
  }

  /** Bytes that end anywhere behind the beginning of a chunk that does not fit are never accepted. */
  lemma BigChunkCut(c: Chunk, b: string, n: nat, end: End, out: string)
    requires ValidChunk(c) && |c.data| >= INT_LIMIT && n <= |EncodeChunk(c) + b|
    ensures FromSize((EncodeChunk(c) + b)[..n], end, out).outcome != Returned(true)
  {
    hide FromSize, HexValue, Spells;
    var line := SizeLine(c.size, c.extension);
    if n < |line| {
      assert (EncodeChunk(c) + b)[..n] == line[..n];
      SizeLineCut(c.size, |c.data|, c.extension, n, end, out);
    } else {
      var t := (c.data + CRLF + b)[..n - |line|];
      assert (EncodeChunk(c) + b)[..n] == line + t;
      SizeLineRead(c.size, |c.data|, c.extension, t, end, out);
    }
  }

  /** The cut falls between the carriage return and the line feed after some chunk's data. */
  predicate CutAfterReturn(chunks: seq<Chunk>, n: int) {
    chunks != [] && (n == |EncodeChunk(chunks[0])| - 1 || CutAfterReturn(chunks[1..], n - |EncodeChunk(chunks[0])|))
  }

  lemma {:induction false} NoEarlyCut(chunks: seq<Chunk>, n: int)
    requires n < 0
    ensures !CutAfterReturn(chunks, n)
  {
    if chunks != [] {
      NoEarlyCut(chunks[1..], n - |EncodeChunk(chunks[0])|);
    }
  }

  lemma LastCut(zeros: string, extension: string, n: nat, end: End, out: string)
    requires ValidLast(zeros, extension) && n < |Body([], zeros, extension)|
    ensures FromSize(Body([], zeros, extension)[..n], end, out).outcome == Returned(false)
  {
    hide FromSize, HexValue, CString, LineLength, Spells;
    var line := SizeLine(zeros, extension);
    if n < |line| {
      assert Body([], zeros, extension)[..n] == line[..n];
      SizeLineCut(zeros, 0, extension, n, end, out);
    } else {
      var t := CRLF[..n - |line|];
      assert Body([], zeros, extension)[..n] == line + t;
      SizeLineRead(zeros, 0, extension, t, end, out);
      assert t == "" || t == "\r";
      WholeLine("\r");
      CStringUnique("\r", "\r");
    }
  }

  /** A body that is cut short is accepted if and only if the transport closes between the carriage return and the
      line feed after the data of some chunk, and that chunk and all before it fit. If all chunks fit, it is refused
      otherwise. */
  lemma {:induction false} TruncationAcceptedExactly(
      chunks: seq<Chunk>, zeros: string, extension: string, n: nat, end: End, out: string)
    requires ValidChunks(chunks) && ValidLast(zeros, extension)
    requires n < |Body(chunks, zeros, extension)|
    ensures var outcome := FromSize(Body(chunks, zeros, extension)[..n], end, out).outcome;
            && (outcome == Returned(true) <==> end.Closed? && CutAfterReturn(chunks[..Fitting(chunks)], n))
            && (Fitting(chunks) == |chunks| ==> outcome.Returned?)
    decreases |chunks|
  {
    hide FromSize, WithSize, EncodeChunk, HexValue, Spells;
    if chunks == [] {
      LastCut(zeros, extension, n, end, out);
    } else {
      var c, b := chunks[0], Body(chunks[1..], zeros, extension);
      var size, fitting := |EncodeChunk(c)|, chunks[..Fitting(chunks)];
      if |c.data| >= INT_LIMIT {
        BigChunkCut(c, b, n, end, out);
      } else {
        assert fitting[1..] == chunks[1..][..Fitting(chunks[1..])];
        if n < size {
          assert Body(chunks, zeros, extension)[..n] == EncodeChunk(c)[..n];
          ChunkCut(c, n, end, out);
          NoEarlyCut(fitting[1..], n - size);
        } else {
          assert Body(chunks, zeros, extension)[..n] == EncodeChunk(c) + b[..n - size];
          ChunkRead(c, b[..n - size], end, out);
          TruncationAcceptedExactly(chunks[1..], zeros, extension, n - size, end, out + c.data);
          assert n != size - 1;
        }
      }
    }
  }
}
