/** `EdmHeader::data`: the header lines, in order, dispatched on their tag
    character into one `HeaderData` record. */
module Aggregator {
  import opened Outcomes
  import opened Text
  import opened Numbers
  import opened Records
  import opened EdmHeader

  const TAG_REGISTRATION: Byte := 0x55  // 'U'
  const TAG_ALARMS: Byte := 0x41        // 'A'

  /** The line has a second character and it is `tag`. */
  predicate Tagged(line: seq<Byte>, tag: Byte)
  {
    |line| >= 2 && line[1] == tag
  }

  /** The error a line raises when it is dispatched, whatever the record so far:
      no second character, a registration line without `*`, or an alarm line
      the alarm decoder rejects. */
  function LineFailure(line: seq<Byte>): (r: Option<FormatError>)
    ensures r.Some? ==> r.value in {EmptyTagLine, MissingChecksumDelimiter, UnparseableNumericToken}
    ensures r.Some? && STAR in line && |line| >= 2 ==> Tagged(line, TAG_ALARMS) && r.value == UnparseableNumericToken
    ensures |line| < 2 ==> r == Some(EmptyTagLine)
    ensures Tagged(line, TAG_REGISTRATION) ==> (r.Some? <==> STAR !in line)
    ensures Tagged(line, TAG_ALARMS) ==> (r.Some? <==> DecodeAlarms(line).Err?)
    ensures Tagged(line, TAG_ALARMS) && r.Some? ==> r.value == DecodeAlarms(line).error
    ensures |line| >= 2 && !Tagged(line, TAG_REGISTRATION) && !Tagged(line, TAG_ALARMS) ==> r.None?
  {
    if |line| < 2 then Some(EmptyTagLine)
    else if line[1] == TAG_REGISTRATION then
      (if STAR in line then None else Some(MissingChecksumDelimiter))
    else if line[1] == TAG_ALARMS then
      (match DecodeAlarms(line) case Err(e) => Some(e) case Ok(_) => None)
    else None
  }

  /** One turn of the `for line in headers.lines()` loop. */
  function ApplyLine(hd: HeaderData, line: seq<Byte>): (r: Result<HeaderData>)
    ensures r.Err? <==> LineFailure(line).Some?
    ensures r.Err? ==> r.error == LineFailure(line).value
    ensures r.Ok? ==> r.value.fuel == hd.fuel && r.value.downloadTime == hd.downloadTime
                      && r.value.protocolVersion == hd.protocolVersion && r.value.features == hd.features
    ensures r.Ok? ==> r.value.registration == (if Tagged(line, TAG_REGISTRATION) then Registration(line).value else hd.registration)
    ensures r.Ok? ==> r.value.alarms == (if Tagged(line, TAG_ALARMS) then DecodeAlarms(line).value else hd.alarms)
  {
    if |line| < 2 then Err(EmptyTagLine)
    else if line[1] == TAG_REGISTRATION then
      var registration :- Registration(line);
      Ok(hd.(registration := registration))
    else if line[1] == TAG_ALARMS then
      var alarms :- DecodeAlarms(line);
      Ok(hd.(alarms := alarms))
    else Ok(hd)
  }

  /** The whole loop over `lines`, starting from `hd`. */
  function ApplyLines(hd: HeaderData, lines: seq<seq<Byte>>): (r: Result<HeaderData>)
    ensures r.Ok? && UndecodedFieldsUnset(hd) ==> UndecodedFieldsUnset(r.value)
    decreases |lines|
  {
    if lines == [] then Ok(hd)
    else
      match ApplyLine(hd, lines[0])
      case Err(e) => Err(e)
      case Ok(next) => ApplyLines(next, lines[1..])
  }

  /** The loop succeeds exactly when no line fails, and otherwise fails with
      the error of the first line that does. */
  lemma {:induction false} ApplyLinesOutcome(hd: HeaderData, lines: seq<seq<Byte>>)
    ensures ApplyLines(hd, lines).Ok? <==> forall i :: 0 <= i < |lines| ==> LineFailure(lines[i]).None?
    ensures ApplyLines(hd, lines).Err? ==>
              exists i :: 0 <= i < |lines| && LineFailure(lines[i]) == Some(ApplyLines(hd, lines).error)
                          && forall j :: 0 <= j < i ==> LineFailure(lines[j]).None?
    decreases |lines|
  {
    if lines != [] {
      match ApplyLine(hd, lines[0])
      case Err(e) =>
        assert LineFailure(lines[0]) == Some(e);
      case Ok(next) =>
        ApplyLinesOutcome(next, lines[1..]);
        FailuresOfTail(LineFailure, lines);
    }
  }

  /** The failures of `lines` under `fail` are the first line's and, shifted
      by one, its tail's. */
  lemma FailuresOfTail(fail: seq<Byte> -> Option<FormatError>, lines: seq<seq<Byte>>)
    requires lines != [] && fail(lines[0]).None?
    ensures (forall i :: 0 <= i < |lines| ==> fail(lines[i]).None?)
            <==> (forall i :: 0 <= i < |lines[1..]| ==> fail(lines[1..][i]).None?)
    ensures forall e :: (exists i :: 0 <= i < |lines[1..]| && fail(lines[1..][i]) == Some(e)
                                     && forall j :: 0 <= j < i ==> fail(lines[1..][j]).None?)
                        ==> (exists i :: 0 <= i < |lines| && fail(lines[i]) == Some(e)
                                         && forall j :: 0 <= j < i ==> fail(lines[j]).None?)
  {
    var tail := lines[1..];
    assert forall j :: 1 <= j < |lines| ==> lines[j] == tail[j - 1];
    forall e | exists i :: 0 <= i < |tail| && fail(tail[i]) == Some(e)
                           && forall j :: 0 <= j < i ==> fail(tail[j]).None?
      ensures exists i :: 0 <= i < |lines| && fail(lines[i]) == Some(e)
                          && forall j :: 0 <= j < i ==> fail(lines[j]).None?
    {
      var i :| 0 <= i < |tail| && fail(tail[i]) == Some(e)
               && forall j :: 0 <= j < i ==> fail(tail[j]).None?;
      assert fail(lines[i + 1]) == Some(e);
    }
  }

  /** `EdmHeader::data` on a file's bytes, as a function: parse, then fold the
      lines into the default record. */
  function Decode(fileStream: seq<Byte>): (r: Result<HeaderData>)
    ensures Parse(fileStream).Err? ==> r == Err(Parse(fileStream).error)
    ensures r.Ok? ==> UndecodedFieldsUnset(r.value)
  {
    var header :- Parse(fileStream);
    ApplyLines(EMPTY_HEADER, Lines(header))
  }

  /** `EdmHeader::data`, with its loop and its mutable record. */
  method Data(fileStream: seq<Byte>) returns (r: Result<HeaderData>)
    ensures r == Decode(fileStream)
  {
    var parsed := Parse(fileStream);
    if parsed.Err? {
      return Err(parsed.error);
    }
    var lines := Lines(parsed.value);
    var headerData := EMPTY_HEADER;
    var i := 0;
    while i < |lines|
      invariant 0 <= i <= |lines|
      invariant ApplyLines(headerData, lines[i..]) == Decode(fileStream)
    {
      assert lines[i..][1..] == lines[i + 1..];
      match ApplyLine(headerData, lines[i]) {
        case Err(e) =>
          return Err(e);
        case Ok(next) =>
          headerData := next;
      }
      i := i + 1;
    }
    return Ok(headerData);
  }

  // ---------------------------------------------------------------------------
  // Properties of the fold

  /** The last line carrying `tag`, if any. */
  function LastTagged(lines: seq<seq<Byte>>, tag: Byte): (r: Option<nat>)
    ensures r.Some? ==> r.value < |lines| && Tagged(lines[r.value], tag)
                        && forall j :: r.value < j < |lines| ==> !Tagged(lines[j], tag)
    ensures r.None? ==> forall j :: 0 <= j < |lines| ==> !Tagged(lines[j], tag)
  {
    if lines == [] then None
    else if Tagged(lines[|lines| - 1], tag) then Some(|lines| - 1)
    else LastTagged(lines[..|lines| - 1], tag)
  }

  /** Last write wins: after a successful fold, the registration is the one
      read from the last `U` line and the alarms the ones read from the last `A`
      line; a field no line sets keeps its starting value. */
  lemma LastWriteWins(hd: HeaderData, lines: seq<seq<Byte>>)
    requires ApplyLines(hd, lines).Ok?
    ensures var out := ApplyLines(hd, lines).value;
            && (match LastTagged(lines, TAG_REGISTRATION)
                case None => out.registration == hd.registration
                case Some(i) => Registration(lines[i]) == Ok(out.registration))
            && (match LastTagged(lines, TAG_ALARMS)
                case None => out.alarms == hd.alarms
                case Some(i) => DecodeAlarms(lines[i]) == Ok(out.alarms))
  {
    LastRegistrationWins(hd, lines);
    LastAlarmsWin(hd, lines);
  }

  lemma {:induction false} LastRegistrationWins(hd: HeaderData, lines: seq<seq<Byte>>)
    requires ApplyLines(hd, lines).Ok?
    ensures var out := ApplyLines(hd, lines).value;
            match LastTagged(lines, TAG_REGISTRATION)
            case None => out.registration == hd.registration
            case Some(i) => Registration(lines[i]) == Ok(out.registration)
    decreases |lines|
  {
    if lines != [] {
      var init, last := lines[..|lines| - 1], lines[|lines| - 1];
      var mid := ApplyLinesSnoc(hd, lines);
      if !Tagged(last, TAG_REGISTRATION) {
        LastRegistrationWins(hd, init);
      }
    }
  }

  lemma {:induction false} LastAlarmsWin(hd: HeaderData, lines: seq<seq<Byte>>)
    requires ApplyLines(hd, lines).Ok?
    ensures var out := ApplyLines(hd, lines).value;
            match LastTagged(lines, TAG_ALARMS)
            case None => out.alarms == hd.alarms
            case Some(i) => DecodeAlarms(lines[i]) == Ok(out.alarms)
    decreases |lines|
  {
    if lines != [] {
      var init, last := lines[..|lines| - 1], lines[|lines| - 1];
      var mid := ApplyLinesSnoc(hd, lines);
      if !Tagged(last, TAG_ALARMS) {
        LastAlarmsWin(hd, init);
      }
    }
  }

  /** The fold up to the last line, and the last step. */
  lemma ApplyLinesSnoc(hd: HeaderData, lines: seq<seq<Byte>>) returns (mid: HeaderData)
    requires lines != [] && ApplyLines(hd, lines).Ok?
    ensures ApplyLines(hd, lines[..|lines| - 1]) == Ok(mid)
    ensures ApplyLine(mid, lines[|lines| - 1]) == ApplyLines(hd, lines)
  {
    var init, last := lines[..|lines| - 1], lines[|lines| - 1];
    SnocOf(lines);
    ApplyLinesLast(hd, init, last);
    mid := ApplyLines(hd, init).value;
  }

  lemma SnocOf(lines: seq<seq<Byte>>)
    requires lines != []
    ensures lines == lines[..|lines| - 1] + [lines[|lines| - 1]]
  {
  }

  /** The loop over `init` and one more line. */
  lemma ApplyLinesLast(hd: HeaderData, init: seq<seq<Byte>>, last: seq<Byte>)
    ensures ApplyLines(hd, init + [last]) == (match ApplyLines(hd, init)
                                              case Err(e) => Err(e)
                                              case Ok(mid) => ApplyLine(mid, last))
  {
    ApplyLinesAppend(hd, init, [last]);
    if ApplyLines(hd, init).Ok? {
      ApplyLinesSingle(ApplyLines(hd, init).value, last);
    }
  }

  /** The loop over one line is that line's step. */
  lemma ApplyLinesSingle(hd: HeaderData, line: seq<Byte>)
    ensures ApplyLines(hd, [line]) == ApplyLine(hd, line)
  {
    var none: seq<seq<Byte>> := [];
    assert [line][1..] == none;
  }

  /** Splitting the lines splits the fold. */
  lemma {:induction false} ApplyLinesAppend(hd: HeaderData, a: seq<seq<Byte>>, b: seq<seq<Byte>>)
    ensures ApplyLines(hd, a + b) == (match ApplyLines(hd, a)
                                      case Err(e) => Err(e)
                                      case Ok(mid) => ApplyLines(mid, b))
    decreases |a|
  {
    if a == [] {
      assert a + b == b;
    } else {
      assert (a + b)[0] == a[0] && (a + b)[1..] == a[1..] + b;
      match ApplyLine(hd, a[0])
      case Err(_) =>
      case Ok(next) => ApplyLinesAppend(next, a[1..], b);
    }
  }

  /** A registration line and an alarm line that both decode can be swapped. */
  lemma SwapRegistrationAndAlarms(hd: HeaderData, u: seq<Byte>, a: seq<Byte>)
    requires Tagged(u, TAG_REGISTRATION) && Tagged(a, TAG_ALARMS)
    requires LineFailure(u).None? && LineFailure(a).None?
    ensures ApplyLines(hd, [u, a]) == ApplyLines(hd, [a, u])
  {
    assert [u, a][1..] == [a] && [a, u][1..] == [u];
    assert [a][1..] == [] && [u][1..] == [];
  }

  /** Lines whose tag is neither `U` nor `A` leave the record as it was. */
  lemma {:induction false} UnknownTagsIgnored(hd: HeaderData, lines: seq<seq<Byte>>)
    requires forall i :: 0 <= i < |lines| ==>
               |lines[i]| >= 2 && !Tagged(lines[i], TAG_REGISTRATION) && !Tagged(lines[i], TAG_ALARMS)
    ensures ApplyLines(hd, lines) == Ok(hd)
    decreases |lines|
  {
    if lines != [] {
      assert ApplyLine(hd, lines[0]) == Ok(hd);
      UnknownTagsIgnored(hd, lines[1..]);
    }
  }

  /** Lines that each hold a `*` and a tag can only fail on an alarm line
      with a token that is not a number of its field's type among its first eight. */
  lemma FailureOfTokenizableLines(hd: HeaderData, lines: seq<seq<Byte>>)
    requires forall i :: 0 <= i < |lines| ==> STAR in lines[i] && |lines[i]| >= 2
    requires ApplyLines(hd, lines).Err?
    ensures ApplyLines(hd, lines).error == UnparseableNumericToken
    ensures exists i :: 0 <= i < |lines| && Tagged(lines[i], TAG_ALARMS) && STAR in lines[i]
                        && AlarmsFromTokens(Clean(lines[i]).value).Err?
  {
    var r := ApplyLines(hd, lines);
    ApplyLinesOutcome(hd, lines);
    var i :| 0 <= i < |lines| && LineFailure(lines[i]) == Some(r.error);
    assert STAR in lines[i] && |lines[i]| >= 2;
    assert DecodeAlarms(lines[i]) == AlarmsFromTokens(Clean(lines[i]).value);
  }

  /** Once the header has parsed, every line holds a `*` and a tag, so the
      only way the rest can fail is an alarm line with a token that is not a
      number of its field's type among its first eight. */
  lemma DispatchAfterParse(fileStream: seq<Byte>)
    requires Parse(fileStream).Ok? && Decode(fileStream).Err?
    ensures Decode(fileStream).error == UnparseableNumericToken
    ensures var lines := Lines(Parse(fileStream).value);
            exists i :: 0 <= i < |lines| && Tagged(lines[i], TAG_ALARMS) && STAR in lines[i]
                        && AlarmsFromTokens(Clean(lines[i]).value).Err?
  {
    var lines := Lines(Parse(fileStream).value);
    ParsedLinesWellFormed(fileStream);
    DecodeOfParsed(fileStream);
    FailureOfTokenizableLines(EMPTY_HEADER, lines);
  }

  lemma DecodeOfParsed(fileStream: seq<Byte>)
    requires Parse(fileStream).Ok?
    ensures Decode(fileStream) == ApplyLines(EMPTY_HEADER, Lines(Parse(fileStream).value))
  {
  }
}
