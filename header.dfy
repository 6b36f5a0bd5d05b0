/** `EdmHeader`: the boundary scan, the per-line checksum, the tokenizer and the
    registration and alarm decoders of a JPI EDM file header. */
module EdmHeader {
  import opened Outcomes
  import opened Text
  import opened Numbers
  import opened Records

  // ---------------------------------------------------------------------------
  // Header boundary

  /** Byte `i` is an LF whose next byte is not `$`: the window `[i, i + 1]`
      that `windows(2).find` looks for. */
  predicate IsTerminator(bytes: seq<Byte>, i: nat)
  {
    i + 1 < |bytes| && bytes[i] == LF && bytes[i + 1] != DOLLAR
  }

  /** The first terminator at or after `from`. */
  function FindTerminator(bytes: seq<Byte>, from: nat): (r: Option<nat>)
    requires from <= |bytes|
    ensures r.Some? ==> from <= r.value && IsTerminator(bytes, r.value)
    ensures r.Some? ==> forall j :: from <= j < r.value ==> !IsTerminator(bytes, j)
    ensures r.None? ==> forall j :: from <= j ==> !IsTerminator(bytes, j)
    decreases |bytes| - from
  {
    if from + 1 >= |bytes| then None
    else if IsTerminator(bytes, from) then Some(from)
    else FindTerminator(bytes, from + 1)
  }

  /** Where the ASCII header ends: the least terminator of the whole buffer. */
  function HeaderEnd(bytes: seq<Byte>): (r: Option<nat>)
    ensures r.Some? ==> IsTerminator(bytes, r.value) && forall j :: 0 <= j < r.value ==> !IsTerminator(bytes, j)
    ensures r.None? <==> forall j :: 0 <= j ==> !IsTerminator(bytes, j)
  {
    FindTerminator(bytes, 0)
  }

  /** The header before a terminator never ends in LF, and each of its LFs is
      followed by `$`. */
  lemma HeaderShape(bytes: seq<Byte>)
    requires HeaderEnd(bytes).Some?
    ensures var h := bytes[..HeaderEnd(bytes).value];
            (h == [] || h[|h| - 1] != LF)
            && forall j :: 0 <= j < |h| && h[j] == LF ==> j + 1 < |h| && h[j + 1] == DOLLAR
  {
    var e := HeaderEnd(bytes).value;
    var h := bytes[..e];
    if h != [] {
      assert !IsTerminator(bytes, e - 1);
      assert bytes[e] != DOLLAR;
    }
    forall j | 0 <= j < |h| && h[j] == LF ensures j + 1 < |h| && h[j + 1] == DOLLAR {
      assert !IsTerminator(bytes, j);
      assert j + 1 != e;
    }
  }

  /** An empty buffer has no header, nor has one whose only LF is its last byte. */
  lemma NoTerminatorAtEnd(s: seq<Byte>)
    requires LF !in s
    ensures HeaderEnd([]) == None
    ensures HeaderEnd(s + [LF]) == None
  {
    var bytes := s + [LF];
    forall j | 0 <= j ensures !IsTerminator(bytes, j) {
      if j + 1 < |bytes| { assert bytes[j] == s[j]; }
    }
  }

  /** A buffer made only of `$`-led header lines, each closed by an LF, has no
      header: no LF in it is followed by a byte other than `$`. */
  lemma AllHeaderLinesNoTerminator(ls: seq<seq<Byte>>)
    requires ls != []
    requires forall i :: 0 <= i < |ls| ==> ls[i] != [] && ls[i][0] == DOLLAR && LF !in ls[i]
    ensures HeaderEnd(JoinLines(ls) + [LF]) == None
  {
    NoTerminatorInLines(ls, [LF]);
  }

  /** Lines that each start with `$`, then LF and a byte other than `$`: the
      header ends at that LF, whatever the number of lines and whatever follows. */
  lemma HeaderEndAfterLines(ls: seq<seq<Byte>>, b: Byte, body: seq<Byte>)
    requires ls != []
    requires forall i :: 0 <= i < |ls| ==> ls[i] != [] && ls[i][0] == DOLLAR && LF !in ls[i]
    requires b != DOLLAR
    ensures HeaderEnd(JoinLines(ls) + [LF, b] + body) == Some(|JoinLines(ls)|)
  {
    var bytes := JoinLines(ls) + [LF, b] + body;
    NoTerminatorInLines(ls, [LF, b] + body);
    assert bytes == JoinLines(ls) + ([LF, b] + body);
    assert IsTerminator(bytes, |JoinLines(ls)|);
  }

  lemma NoTerminatorInLines(ls: seq<seq<Byte>>, tail: seq<Byte>)
    requires ls != []
    requires forall i :: 0 <= i < |ls| ==> ls[i] != [] && ls[i][0] == DOLLAR && LF !in ls[i]
    ensures forall j :: 0 <= j < |JoinLines(ls)| ==> !IsTerminator(JoinLines(ls) + tail, j)
  {
    JoinLinesDollarAfterLF(ls);
    var h := JoinLines(ls);
    var s := h + tail;
    forall j | 0 <= j < |h| ensures !IsTerminator(s, j) {
      assert s[j] == h[j];
      if h[j] == LF { assert s[j + 1] == h[j + 1]; }
    }
  }

  // ---------------------------------------------------------------------------
  // Checksum

  /** XOR of all bytes, folded from the left starting at 0. */
  function XorFold(s: seq<Byte>): Byte
  {
    if s == [] then 0 else XorFold(s[..|s| - 1]) ^ s[|s| - 1]
  }

  lemma {:induction false} XorFoldAppend(a: seq<Byte>, b: seq<Byte>)
    ensures XorFold(a + b) == XorFold(a) ^ XorFold(b)
    decreases |b|
  {
    if b == [] {
      assert a + b == a;
    } else {
      var b' := b[..|b| - 1];
      assert (a + b)[..|a + b| - 1] == a + b';
      XorFoldAppend(a, b');
    }
  }

  /** Replacing one byte changes the fold by the XOR of the old and new byte. */
  lemma XorFoldReplace(s: seq<Byte>, j: nat, b: Byte)
    requires j < |s|
    ensures XorFold(s[j := b]) == XorFold(s) ^ s[j] ^ b
  {
    var pre, post := s[..j], s[j + 1..];
    assert s == pre + [s[j]] + post;
    assert s[j := b] == pre + [b] + post;
    XorFoldAppend(pre + [s[j]], post);
    XorFoldAppend(pre + [b], post);
    XorFoldSnoc(pre, s[j]);
    XorFoldSnoc(pre, b);
    XorSwap(XorFold(pre), XorFold(post), s[j], b);
  }

  lemma XorFoldSnoc(s: seq<Byte>, x: Byte)
    ensures XorFold(s + [x]) == XorFold(s) ^ x
  {
    assert (s + [x])[..|s|] == s;
  }

  lemma XorSwap(x: Byte, y: Byte, c: Byte, b: Byte)
    ensures (x ^ b) ^ y == ((x ^ c) ^ y) ^ c ^ b
  {
  }

  /** `EdmHeader::checksum`: split at the first `*`, read the rest as a
      hexadecimal `u8`, and compare it with the XOR of the payload bytes after
      the first one. Each `expect`, and the out-of-range `[1..]` of an empty
      payload, is an error. */
  function Checksum(line: seq<Byte>): (r: Result<bool>)
    ensures r.Err? && r.error == MissingChecksumDelimiter <==> STAR !in line
    ensures r.Err? ==> r.error in {MissingChecksumDelimiter, InvalidChecksumDigits, EmptyChecksumPayload}
    ensures r.Ok? ==> |line| >= 3 && line[0] != STAR
  {
    match SplitOnce(line, STAR)
    case None => Err(MissingChecksumDelimiter)
    case Some((value, suffix)) =>
      match ParseHexU8(suffix)
      case None => Err(InvalidChecksumDigits)
      case Some(checksum) =>
        if value == [] then Err(EmptyChecksumPayload)
        else Ok(XorFold(value[1..]) == checksum)
  }

  /** What `checksum` computes, read off the line itself: with `k` the first
      `*`, the XOR of `line[1..k]` compared with the hexadecimal `u8` after it. */
  lemma ChecksumMeaning(line: seq<Byte>)
    requires STAR in line
    ensures var k := IndexOf(line, STAR).value;
            var c := ParseHexU8(line[k + 1..]);
            && (c.None? ==> Checksum(line) == Err(InvalidChecksumDigits))
            && (c.Some? && k == 0 ==> Checksum(line) == Err(EmptyChecksumPayload))
            && (c.Some? && k > 0 ==> Checksum(line) == Ok(XorFold(line[1..k]) == c.value))
  {
    var k := IndexOf(line, STAR).value;
    SplitAtIndex(line, STAR);
    ChecksumOfParts(line[..k], line[k + 1..]);
    assert k > 0 ==> line[..k][1..] == line[1..k];
  }

  /** The checksum of `value * suffix`, where the payload holds no `*`, in the
      order the source can fail: the suffix is read before the payload is sliced. */
  lemma ChecksumOfParts(value: seq<Byte>, suffix: seq<Byte>)
    requires STAR !in value
    ensures ParseHexU8(suffix).None? ==> Checksum(value + [STAR] + suffix) == Err(InvalidChecksumDigits)
    ensures ParseHexU8(suffix).Some? && value == [] ==> Checksum(value + [STAR] + suffix) == Err(EmptyChecksumPayload)
    ensures ParseHexU8(suffix).Some? && value != [] ==>
              Checksum(value + [STAR] + suffix) == Ok(XorFold(value[1..]) == ParseHexU8(suffix).value)
  {
    SplitOnceAt(value, suffix, STAR);
  }

  /** A line a writer seals with the XOR of its payload, as two hex digits, checks. */
  lemma SealedLineChecks(payload: seq<Byte>)
    requires STAR !in payload
    ensures Checksum([DOLLAR] + payload + [STAR] + Hex2(XorFold(payload))) == Ok(true)
  {
    SealedLineCheckable(payload, XorFold(payload));
  }

  /** Any other two-digit checksum fails on the same payload. */
  lemma WrongChecksumFails(payload: seq<Byte>, c: Byte)
    requires STAR !in payload && c != XorFold(payload)
    ensures Checksum([DOLLAR] + payload + [STAR] + Hex2(c)) == Ok(false)
  {
    SealedLineCheckable(payload, c);
  }

  /** Changing one payload byte after the first, to anything but `*`, turns a
      passing checksum into a failing one. */
  lemma ChecksumSensitive(value: seq<Byte>, suffix: seq<Byte>, j: nat, b: Byte)
    requires STAR !in value && 0 < j < |value|
    requires Checksum(value + [STAR] + suffix) == Ok(true)
    requires b != value[j] && b != STAR
    ensures Checksum(value[j := b] + [STAR] + suffix) == Ok(false)
  {
    var c := ParseHexU8(suffix);
    var value' := value[j := b];
    assert STAR !in value' by {
      forall i | 0 <= i < |value'| ensures value'[i] != STAR {
        if i != j { assert value'[i] == value[i]; }
      }
    }
    assert c.Some? && XorFold(value[1..]) == c.value by { ChecksumOfParts(value, suffix); }
    assert XorFold(value'[1..]) != c.value by { PayloadChanged(value, j, b); }
    ChecksumOfParts(value', suffix);
  }

  /** Replacing a byte by a different one changes the fold. */
  lemma XorFoldChanged(s: seq<Byte>, k: nat, b: Byte)
    requires k < |s| && b != s[k]
    ensures XorFold(s[k := b]) != XorFold(s)
  {
    XorFoldReplace(s, k, b);
    XorChanges(XorFold(s), s[k], b);
  }

  lemma PayloadChanged(value: seq<Byte>, j: nat, b: Byte)
    requires 0 < j < |value| && b != value[j]
    ensures XorFold(value[j := b][1..]) != XorFold(value[1..])
  {
    var payload := value[1..];
    assert value[j := b][1..] == payload[j - 1 := b];
    XorFoldChanged(payload, j - 1, b);
  }

  lemma XorChanges(x: Byte, a: Byte, b: Byte)
    requires a != b
    ensures x ^ a ^ b != x
  {
  }

  // ---------------------------------------------------------------------------
  // Parse: boundary, text check and checksum pass

  /** Every byte is ASCII, so the header is text whose characters are its bytes. */
  predicate IsAscii(s: seq<Byte>)
  {
    forall i :: 0 <= i < |s| ==> s[i] < 0x80
  }

  /** Collecting the checksum of each line in order: the first line whose
      checksum panics stops the pass with that error. */
  function CollectChecks(results: seq<Result<bool>>): (r: Result<seq<bool>>)
    ensures r.Ok? <==> forall i :: 0 <= i < |results| ==> results[i].Ok?
    ensures r.Ok? ==> |r.value| == |results| && forall i :: 0 <= i < |results| ==> r.value[i] == results[i].value
    ensures r.Err? ==> exists i :: 0 <= i < |results| && results[i] == Err(r.error)
                                   && forall j :: 0 <= j < i ==> results[j].Ok?
  {
    if results == [] then Ok([])
    else match results[0]
      case Err(e) => Err(e)
      case Ok(valid) =>
        var tail := results[1..];
        match CollectChecks(tail)
        case Err(e) =>
          var i :| 0 <= i < |tail| && tail[i] == Err(e) && forall j :: 0 <= j < i ==> tail[j].Ok?;
          assert results[i + 1] == Err(e);
          assert forall j :: 1 <= j <= i ==> results[j] == tail[j - 1];
          Err(e)
        case Ok(rest) =>
          assert forall j :: 1 <= j < |results| ==> results[j] == tail[j - 1];
          Ok([valid] + rest)
  }

  /** The checksum of every line, in order. */
  function CheckLines(lines: seq<seq<Byte>>): (r: seq<Result<bool>>)
    ensures |r| == |lines| && forall i :: 0 <= i < |lines| ==> r[i] == Checksum(lines[i])
  {
    seq(|lines|, i requires 0 <= i < |lines| => Checksum(lines[i]))
  }

  /** `EdmHeader::parse`: the bytes before the first terminator, once they are
      known to be text and every line has passed through the checksum. The
      checksum results are dropped. */
  function Parse(bytes: seq<Byte>): (r: Result<seq<Byte>>)
    ensures r.Ok? ==> HeaderEnd(bytes).Some? && r.value == bytes[..HeaderEnd(bytes).value]
    ensures r == Err(NoHeaderTerminator) <==> HeaderEnd(bytes).None?
  {
    match HeaderEnd(bytes)
    case None => Err(NoHeaderTerminator)
    case Some(end) =>
      var header := bytes[..end];
      if !IsAscii(header) then Err(InvalidEncoding)
      else match CollectChecks(CheckLines(Lines(header)))
        case Err(e) => Err(e)
        case Ok(_) => Ok(header)
  }

  /** Parsing succeeds exactly when the header is found, is text, and no line
      makes the checksum fail outright; whether a line's checksum matches
      plays no part. */
  lemma ParseIgnoresChecksumResults(bytes: seq<Byte>)
    ensures Parse(bytes).Ok? <==>
              HeaderEnd(bytes).Some?
              && IsAscii(bytes[..HeaderEnd(bytes).value])
              && forall i :: 0 <= i < |Lines(bytes[..HeaderEnd(bytes).value])| ==>
                   Checksum(Lines(bytes[..HeaderEnd(bytes).value])[i]).Ok?
  {
    if HeaderEnd(bytes).Some? {
      var h := bytes[..HeaderEnd(bytes).value];
      ChecksPassIff(Lines(h));
      assert Parse(bytes).Ok? <==> IsAscii(h) && CollectChecks(CheckLines(Lines(h))).Ok?;
    }
  }

  lemma ChecksPassIff(ls: seq<seq<Byte>>)
    ensures CollectChecks(CheckLines(ls)).Ok? <==> forall i :: 0 <= i < |ls| ==> Checksum(ls[i]).Ok?
  {
    var rs := CheckLines(ls);
    assert forall i :: 0 <= i < |ls| ==> rs[i] == Checksum(ls[i]);
  }

  /** Every line of a parsed header can be tokenized and has a tag character:
      it holds a `*` and at least three bytes. */
  lemma ParsedLinesWellFormed(bytes: seq<Byte>)
    requires Parse(bytes).Ok?
    ensures forall i :: 0 <= i < |Lines(Parse(bytes).value)| ==>
              STAR in Lines(Parse(bytes).value)[i] && |Lines(Parse(bytes).value)[i]| >= 3
  {
    ParseIgnoresChecksumResults(bytes);
    var ls := Lines(Parse(bytes).value);
    forall i | 0 <= i < |ls| ensures STAR in ls[i] && |ls[i]| >= 3 {
      assert Checksum(ls[i]).Ok?;
    }
  }

  /** A parsed header has no line starting with anything but `$`, save its first. */
  lemma ParsedLaterLinesStartWithDollar(bytes: seq<Byte>)
    requires Parse(bytes).Ok?
    ensures forall i :: 1 <= i < |Lines(Parse(bytes).value)| ==>
              Lines(Parse(bytes).value)[i][0] == DOLLAR
  {
    HeaderShape(bytes);
    LaterLinesStartWithDollar(Parse(bytes).value);
  }

  /** A header of `$` lines that each pass through the checksum, followed by
      LF and a byte other than `$`, parses to exactly those lines. */
  lemma ParseOfLines(ls: seq<seq<Byte>>, b: Byte, body: seq<Byte>)
    requires ls != []
    requires forall i :: 0 <= i < |ls| ==> ls[i] != [] && ls[i][0] == DOLLAR && LF !in ls[i]
    requires forall i :: 0 <= i < |ls| - 1 ==> !EndsWithCR(ls[i])
    requires IsAscii(JoinLines(ls)) && b != DOLLAR
    requires forall i :: 0 <= i < |ls| ==> Checksum(ls[i]).Ok?
    ensures Parse(JoinLines(ls) + [LF, b] + body) == Ok(JoinLines(ls))
    ensures Lines(Parse(JoinLines(ls) + [LF, b] + body).value) == ls
  {
    var bytes := JoinLines(ls) + [LF, b] + body;
    HeaderEndAfterLines(ls, b, body);
    assert bytes[..|JoinLines(ls)|] == JoinLines(ls);
    LinesOfJoin(ls);
    ParseIgnoresChecksumResults(bytes);
  }

  /** A header line whose checksum does not match is still accepted. */
  lemma MismatchedLineParses(payload: seq<Byte>, c: Byte, b: Byte, body: seq<Byte>)
    requires STAR !in payload && LF !in payload
    requires IsAscii(payload) && c != XorFold(payload) && b != DOLLAR
    ensures var line := [DOLLAR] + payload + [STAR] + Hex2(c);
            Checksum(line) == Ok(false) && Parse(line + [LF, b] + body) == Ok(line)
  {
    WrongChecksumFails(payload, c);
    SealedLineParses(payload, c, b, body);
  }

  /** A file whose header is one `$payload*hh` line, whatever the checksum
      byte, parses to exactly that line. */
  lemma SealedLineParses(payload: seq<Byte>, c: Byte, b: Byte, body: seq<Byte>)
    requires STAR !in payload && LF !in payload && IsAscii(payload) && b != DOLLAR
    ensures var line := [DOLLAR] + payload + [STAR] + Hex2(c);
            Parse(line + [LF, b] + body) == Ok(line) && Lines(line) == [line]
  {
    var line := [DOLLAR] + payload + [STAR] + Hex2(c);
    SealedLineCheckable(payload, c);
    SealedLineShape(payload, c);
    assert JoinLines([line]) == line;
    ParseOfLines([line], b, body);
  }

  /** The checksum of a `$payload*hh` line can always be computed. */
  lemma SealedLineCheckable(payload: seq<Byte>, c: Byte)
    requires STAR !in payload
    ensures Checksum([DOLLAR] + payload + [STAR] + Hex2(c)) == Ok(XorFold(payload) == c)
  {
    ParseHex2(c);
    assert STAR !in [DOLLAR] + payload;
    ChecksumOfParts([DOLLAR] + payload, Hex2(c));
    assert ([DOLLAR] + payload)[1..] == payload;
  }

  lemma SealedLineShape(payload: seq<Byte>, c: Byte)
    requires LF !in payload && IsAscii(payload)
    ensures var line := [DOLLAR] + payload + [STAR] + Hex2(c);
            line[0] == DOLLAR && LF !in line && IsAscii(line)
  {
    var line := [DOLLAR] + payload + [STAR] + Hex2(c);
    Hex2Ascii(c);
    forall i | 0 <= i < |line| ensures line[i] < 0x80 && line[i] != LF {
      if 1 <= i <= |payload| { assert line[i] == payload[i - 1]; }
      else if i > |payload| + 1 { assert line[i] == Hex2(c)[i - |payload| - 2]; }
    }
  }

  /** A checksum followed by CR is not a hexadecimal number. */
  lemma TrailingCRRejected(value: seq<Byte>, suffix: seq<Byte>)
    requires STAR !in value
    ensures Checksum(value + [STAR] + suffix + [CR]) == Err(InvalidChecksumDigits)
  {
    var s := suffix + [CR];
    assert value + [STAR] + suffix + [CR] == value + [STAR] + s;
    ChecksumOfParts(value, s);
    assert DigitValue(CR, 16).None?;
  }

  /** With CRLF line ends, only the LF before the binary data ends the header,
      so its last line keeps its CR and parsing fails. */
  lemma CrlfHeaderRejected(payload: seq<Byte>, c: Byte, b: Byte, body: seq<Byte>)
    requires STAR !in payload && LF !in payload && IsAscii(payload) && b != DOLLAR
    ensures Parse([DOLLAR] + payload + [STAR] + Hex2(c) + [CR, LF, b] + body) == Err(InvalidChecksumDigits)
  {
    var sealed := [DOLLAR] + payload + [STAR] + Hex2(c);
    CrlfSplit(sealed, b, body);
    SealedLineShape(payload, c);
    CRLineShape(sealed);
    assert STAR !in [DOLLAR] + payload;
    TrailingCRRejected([DOLLAR] + payload, Hex2(c));
    ParseOfFailingLine(sealed + [CR], b, body);
  }

  lemma CrlfSplit(sealed: seq<Byte>, b: Byte, body: seq<Byte>)
    ensures sealed + [CR, LF, b] + body == sealed + [CR] + [LF, b] + body
  {
  }

  lemma CRLineShape(sealed: seq<Byte>)
    requires sealed != [] && sealed[0] == DOLLAR && LF !in sealed && IsAscii(sealed)
    ensures var line := sealed + [CR];
            line[0] == DOLLAR && LF !in line && IsAscii(line)
  {
    var line := sealed + [CR];
    assert forall i :: 0 <= i < |sealed| ==> line[i] == sealed[i];
  }

  /** A header of one line whose checksum fails outright fails with its error. */
  lemma ParseOfFailingLine(line: seq<Byte>, b: Byte, body: seq<Byte>)
    requires line != [] && line[0] == DOLLAR && LF !in line && IsAscii(line) && b != DOLLAR
    requires Checksum(line).Err?
    ensures Parse(line + [LF, b] + body) == Err(Checksum(line).error)
  {
    assert JoinLines([line]) == line;
    HeaderEndAfterLines([line], b, body);
    var bytes := line + [LF, b] + body;
    assert bytes[..|line|] == line;
    assert Lines(line) == [line];
    assert CheckLines([line]) == [Checksum(line)];
  }

  // ---------------------------------------------------------------------------
  // Tokenizer

  function TrimAll(parts: seq<seq<Byte>>): (r: seq<seq<Byte>>)
    ensures |r| == |parts| && forall i :: 0 <= i < |parts| ==> r[i] == Trim(parts[i])
  {
    seq(|parts|, i requires 0 <= i < |parts| => Trim(parts[i]))
  }

  /** `process_header_clean`: drop everything from the first `*`, split on `,`,
      drop the first segment and trim the others. */
  function Clean(line: seq<Byte>): (r: Result<seq<seq<Byte>>>)
    ensures r.Ok? <==> STAR in line
    ensures r.Err? ==> r.error == MissingChecksumDelimiter
    ensures r.Ok? ==> |r.value| == Count(SplitOnce(line, STAR).value.0, COMMA)
  {
    match SplitOnce(line, STAR)
    case None => Err(MissingChecksumDelimiter)
    case Some((data, _)) =>
      SplitCount(data, COMMA);
      Ok(TrimAll(Split(data, COMMA)[1..]))
  }

  /** A line `head,seg1,...,segN*suffix` yields the trimmed segments, in order,
      empty and repeated ones included; `head` is never a token. */
  lemma CleanOfParts(head: seq<Byte>, segs: seq<seq<Byte>>, suffix: seq<Byte>)
    requires COMMA !in head && STAR !in head
    requires forall i :: 0 <= i < |segs| ==> COMMA !in segs[i] && STAR !in segs[i]
    ensures Clean(head + Prefixed(segs, COMMA) + [STAR] + suffix) == Ok(TrimAll(segs))
  {
    var data := head + Prefixed(segs, COMMA);
    NotInPrefixed(segs, COMMA, STAR);
    SplitOnceAt(data, suffix, STAR);
    var parts := [head] + segs;
    assert parts[1..] == segs;
    assert Join(parts, COMMA) == data;
    SplitJoin(parts, COMMA);
  }

  /** `process_header_rego`: the token of a line with exactly one token. */
  function Registration(line: seq<Byte>): (r: Result<Option<seq<Byte>>>)
    ensures r.Ok? <==> STAR in line
    ensures r.Ok? ==> (r.value.Some? <==> |Clean(line).value| == 1)
    ensures r.Ok? && r.value.Some? ==> Clean(line).value == [r.value.value]
  {
    var tokens :- Clean(line);
    if |tokens| == 1 then Ok(Some(tokens[0])) else Ok(None)
  }

  /** `$U,<tail number>*<checksum>` registers the trimmed tail number. */
  lemma RegistrationOfLine(tag: seq<Byte>, reg: seq<Byte>, suffix: seq<Byte>)
    requires COMMA !in tag && STAR !in tag && COMMA !in reg && STAR !in reg
    ensures Registration(tag + [COMMA] + reg + [STAR] + suffix) == Ok(Some(Trim(reg)))
  {
    CleanOfSingleToken(tag, reg, suffix);
  }

  /** A line with one comma before its `*` cleans into that single trimmed token. */
  lemma CleanOfSingleToken(tag: seq<Byte>, reg: seq<Byte>, suffix: seq<Byte>)
    requires COMMA !in tag && STAR !in tag && COMMA !in reg && STAR !in reg
    ensures Clean(tag + [COMMA] + reg + [STAR] + suffix) == Ok([Trim(reg)])
  {
    var segs := [reg];
    assert forall i :: 0 <= i < |segs| ==> segs[i] == reg;
    PrefixedSingle(tag, reg, suffix);
    CleanOfParts(tag, segs, suffix);
    TrimAllSingle(reg);
  }

  lemma TrimAllSingle(reg: seq<Byte>)
    ensures TrimAll([reg]) == [Trim(reg)]
  {
  }

  lemma PrefixedSingle(tag: seq<Byte>, reg: seq<Byte>, suffix: seq<Byte>)
    ensures tag + [COMMA] + reg + [STAR] + suffix == tag + Prefixed([reg], COMMA) + [STAR] + suffix
  {
    var none: seq<seq<Byte>> := [];
    assert [reg][1..] == none;
    assert Prefixed([reg], COMMA) == [COMMA] + reg;
  }

  // ---------------------------------------------------------------------------
  // Alarms

  /** The number type the source parses a token into. */
  datatype Slot = FloatSlot | IntSlot

  /** `max_volts`, `min_volts` are `f64` divided by ten; the six others are `i32`. */
  const ALARM_SLOTS: seq<Slot> := [FloatSlot, FloatSlot, IntSlot, IntSlot, IntSlot, IntSlot, IntSlot, IntSlot]

  datatype Reading = Scaled(volts: Decimal) | Whole(n: int)

  /** `.parse::<f64>()? / 10.0` or `.parse::<i32>()` of one token. */
  function ReadSlot(slot: Slot, token: seq<Byte>): (r: Option<Reading>)
    ensures r.Some? ==> (slot == FloatSlot <==> r.value.Scaled?)
  {
    match slot
    case FloatSlot => (match ParseF64(token) case None => None case Some(d) => Some(Scaled(Tenth(d))))
    case IntSlot => (match ParseI32(token) case None => None case Some(n) => Some(Whole(n)))
  }

  /** The chain of `alarms_itr.next()?` steps over the tokens the iterator
      has not yet yielded, one step per slot: running out of tokens gives
      `Ok(None)` and a token that does not parse is an error, whichever comes
      first. */
  function ReadSlots(tokens: seq<seq<Byte>>, slots: seq<Slot>): (r: Result<Option<seq<Reading>>>)
    ensures r.Err? ==> r.error == UnparseableNumericToken
    ensures r.Err? <==> exists i :: 0 <= i < |tokens| && i < |slots| && ReadSlot(slots[i], tokens[i]).None?
    ensures r.Ok? ==> (r.value.None? <==> |slots| > |tokens|)
    ensures r.Ok? && r.value.Some? ==>
              |r.value.value| == |slots|
              && forall i :: 0 <= i < |slots| ==> ReadSlot(slots[i], tokens[i]) == Some(r.value.value[i])
    decreases |slots|
  {
    if slots == [] then Ok(Some([]))
    else if tokens == [] then Ok(None)
    else match ReadSlot(slots[0], tokens[0])
      case None => Err(UnparseableNumericToken)
      case Some(v) =>
        var rest := ReadSlots(tokens[1..], slots[1..]);
        FailureShifts(tokens, slots);
        match rest
        case Err(e) => Err(e)
        case Ok(None) => Ok(None)
        case Ok(Some(vs)) =>
          ReadingsCons(tokens, slots, v, vs);
          Ok(Some([v] + vs))
  }

  /** Past a first token that parses, a failing token is one of the rest. */
  lemma FailureShifts(tokens: seq<seq<Byte>>, slots: seq<Slot>)
    requires |tokens| > 0 && |slots| > 0 && ReadSlot(slots[0], tokens[0]).Some?
    ensures (exists i :: 0 <= i < |tokens| && i < |slots| && ReadSlot(slots[i], tokens[i]).None?)
        <==> (exists i :: 0 <= i < |tokens| - 1 && i < |slots| - 1 && ReadSlot(slots[1..][i], tokens[1..][i]).None?)
  {
    if i :| 0 <= i < |tokens| && i < |slots| && ReadSlot(slots[i], tokens[i]).None? {
      ShiftedSlot(tokens, slots, i);
    }
    if i :| 0 <= i < |tokens| - 1 && i < |slots| - 1 && ReadSlot(slots[1..][i], tokens[1..][i]).None? {
      ShiftedSlot(tokens, slots, i + 1);
    }
  }

  lemma ShiftedSlot(tokens: seq<seq<Byte>>, slots: seq<Slot>, i: nat)
    requires 0 < i < |tokens| && i < |slots|
    ensures slots[1..][i - 1] == slots[i] && tokens[1..][i - 1] == tokens[i]
  {
  }

  /** The readings of the first slot and of the rest, together. */
  lemma ReadingsCons(tokens: seq<seq<Byte>>, slots: seq<Slot>, v: Reading, vs: seq<Reading>)
    requires 0 < |slots| <= |tokens| && ReadSlot(slots[0], tokens[0]) == Some(v) && |vs| == |slots| - 1
    requires forall i :: 0 <= i < |slots| - 1 ==> ReadSlot(slots[1..][i], tokens[1..][i]) == Some(vs[i])
    ensures forall i :: 0 <= i < |slots| ==> ReadSlot(slots[i], tokens[i]) == Some(([v] + vs)[i])
  {
    var all := [v] + vs;
    assert all[0] == v;
    forall i | 0 < i < |slots| ensures ReadSlot(slots[i], tokens[i]) == Some(all[i]) {
      ShiftedSlot(tokens, slots, i);
      assert all[i] == vs[i - 1];
    }
  }

  /** Whether token `i` of an alarm line parses as the number type of its field. */
  predicate AlarmTokenParses(i: nat, token: seq<Byte>)
  {
    if i < 2 then ParseF64(token).Some? else ParseI32(token).Some?
  }

  /** The alarm record from the tokens of an `A` line. */
  function AlarmsFromTokens(tokens: seq<seq<Byte>>): (r: Result<Option<Alarms>>)
    ensures r.Err? ==> r.error == UnparseableNumericToken
    ensures r.Err? <==> exists i :: 0 <= i < |tokens| && i < 8 && !AlarmTokenParses(i, tokens[i])
    ensures r.Ok? ==> (r.value.None? <==> |tokens| < 8)
    ensures r.Ok? && r.value.Some? ==>
              var a := r.value.value;
              && a.maxVolts == Tenth(ParseF64(tokens[0]).value)
              && a.minVolts == Tenth(ParseF64(tokens[1]).value)
              && Some(a.maxEgtSpread) == ParseI32(tokens[2])
              && Some(a.maxCht) == ParseI32(tokens[3])
              && Some(a.maxChtCoolRate) == ParseI32(tokens[4])
              && Some(a.maxEgt) == ParseI32(tokens[5])
              && Some(a.maxOilTemp) == ParseI32(tokens[6])
              && Some(a.minOilTemp) == ParseI32(tokens[7])
  {
    var readings := ReadSlots(tokens, ALARM_SLOTS);
    SlotsMatchFields(tokens);
    if readings.Err? then Err(readings.error)
    else match readings.value
      case None => Ok(None)
      case Some(rs) =>
        ReadingsOfFields(tokens, rs);
        Ok(Some(Alarms(
          maxVolts := rs[0].volts,
          minVolts := rs[1].volts,
          maxEgtSpread := rs[2].n,
          maxCht := rs[3].n,
          maxChtCoolRate := rs[4].n,
          maxEgt := rs[5].n,
          maxOilTemp := rs[6].n,
          minOilTemp := rs[7].n)))
  }

  /** Slot `i` reads a token exactly when field `i` parses it. */
  lemma SlotOfField(i: nat, t: seq<Byte>)
    requires i < 8
    ensures ReadSlot(ALARM_SLOTS[i], t).None? <==> !AlarmTokenParses(i, t)
    ensures i < 2 && ReadSlot(ALARM_SLOTS[i], t).Some? ==> ReadSlot(ALARM_SLOTS[i], t).value == Scaled(Tenth(ParseF64(t).value))
    ensures i >= 2 && ReadSlot(ALARM_SLOTS[i], t).Some? ==> ReadSlot(ALARM_SLOTS[i], t).value == Whole(ParseI32(t).value)
  {
  }

  lemma SlotsMatchFields(tokens: seq<seq<Byte>>)
    ensures ReadSlots(tokens, ALARM_SLOTS).Err? <==> exists i :: 0 <= i < |tokens| && i < 8 && !AlarmTokenParses(i, tokens[i])
  {
    if ReadSlots(tokens, ALARM_SLOTS).Err? {
      var i :| 0 <= i < |tokens| && i < |ALARM_SLOTS| && ReadSlot(ALARM_SLOTS[i], tokens[i]).None?;
      SlotOfField(i, tokens[i]);
    } else {
      forall i | 0 <= i < |tokens| && i < 8 ensures AlarmTokenParses(i, tokens[i]) {
        SlotOfField(i, tokens[i]);
      }
    }
  }

  lemma ReadingsOfFields(tokens: seq<seq<Byte>>, rs: seq<Reading>)
    requires ReadSlots(tokens, ALARM_SLOTS) == Ok(Some(rs))
    ensures |rs| == 8 && |tokens| >= 8
    ensures rs[0] == Scaled(Tenth(ParseF64(tokens[0]).value)) && rs[1] == Scaled(Tenth(ParseF64(tokens[1]).value))
    ensures forall k :: 2 <= k < 8 ==> rs[k].Whole? && ParseI32(tokens[k]) == Some(rs[k].n)
  {
    ReadingAt(tokens, rs, 0);
    ReadingAt(tokens, rs, 1);
    forall k | 2 <= k < 8 ensures rs[k].Whole? && ParseI32(tokens[k]) == Some(rs[k].n) {
      ReadingAt(tokens, rs, k);
    }
  }

  lemma ReadingAt(tokens: seq<seq<Byte>>, rs: seq<Reading>, k: nat)
    requires ReadSlots(tokens, ALARM_SLOTS) == Ok(Some(rs)) && k < 8
    ensures |rs| == 8 && |tokens| >= 8
    ensures k < 2 ==> rs[k] == Scaled(Tenth(ParseF64(tokens[k]).value))
    ensures k >= 2 ==> rs[k].Whole? && ParseI32(tokens[k]) == Some(rs[k].n)
  {
    assert ReadSlot(ALARM_SLOTS[k], tokens[k]) == Some(rs[k]);
    SlotOfField(k, tokens[k]);
  }

  /** Tokens after the eighth play no part. */
  lemma AlarmsIgnoreExtraTokens(tokens: seq<seq<Byte>>)
    requires |tokens| >= 8
    ensures AlarmsFromTokens(tokens) == AlarmsFromTokens(tokens[..8])
  {
    var short := tokens[..8];
    assert forall i :: 0 <= i < 8 ==> short[i] == tokens[i];
  }

  /** `process_header_alarms`. */
  function DecodeAlarms(line: seq<Byte>): (r: Result<Option<Alarms>>)
    ensures STAR !in line ==> r == Err(MissingChecksumDelimiter)
    ensures STAR in line ==> r == AlarmsFromTokens(Clean(line).value)
  {
    var tokens :- Clean(line);
    AlarmsFromTokens(tokens)
  }
}
