/** Worked headers: a registration line, an alarm line with its eight
    thresholds, a truncated alarm line and a line whose checksum is wrong. */
module Scenarios {
  import opened Outcomes
  import opened Text
  import opened Numbers
  import opened Records
  import opened EdmHeader
  import opened Aggregator

  /** Decimal renderings of the numbers, one token each. */
  function Tokens(ns: seq<nat>): (r: seq<seq<Byte>>)
    ensures |r| == |ns| && forall i :: 0 <= i < |ns| ==> r[i] == Render(ns[i])
  {
    seq(|ns|, i requires 0 <= i < |ns| => Render(ns[i]))
  }

  /** Digits are never whitespace, so a rendering is its own trim. */
  lemma TrimRender(n: nat)
    ensures Trim(Render(n)) == Render(n)
  {
    var r := Render(n);
    assert DigitValue(r[0], 10).Some? && DigitValue(r[|r| - 1], 10).Some?;
  }

  /** Rendered in-range numbers parse back as integers, and the first two also
      as decimals of scale zero. */
  lemma TokensParse(ns: seq<nat>)
    requires forall i :: 0 <= i < |ns| ==> ns[i] <= I32_MAX
    ensures forall i :: 0 <= i < |ns| ==> ParseI32(Tokens(ns)[i]) == Some(ns[i] as int)
    ensures forall i :: 0 <= i < |ns| && i < 2 ==> ParseF64(Tokens(ns)[i]) == Some(Decimal(ns[i], 0))
  {
    var t := Tokens(ns);
    forall i | 0 <= i < |ns| ensures ParseI32(t[i]) == Some(ns[i] as int) {
      ParseI32Render(ns[i]);
    }
    forall i | 0 <= i < |ns| && i < 2 ensures ParseF64(t[i]) == Some(Decimal(ns[i], 0)) {
      ParseF64OfInteger(t[i]);
    }
  }

  /** Every one of the first eight rendered numbers parses in its slot. */
  lemma TokensParseInSlots(ns: seq<nat>)
    requires forall i :: 0 <= i < |ns| ==> ns[i] <= I32_MAX
    ensures forall i :: 0 <= i < |ns| && i < 8 ==> AlarmTokenParses(i, Tokens(ns)[i])
  {
    TokensParse(ns);
  }

  /** Eight or more in-range numbers give the alarm record of their first eight,
      the two voltages scaled by a tenth. */
  lemma AlarmsOfNumbers(ns: seq<nat>)
    requires |ns| >= 8 && forall i :: 0 <= i < |ns| ==> ns[i] <= I32_MAX
    ensures AlarmsFromTokens(Tokens(ns)) == Ok(Some(Alarms(
              maxVolts := Decimal(ns[0], 1), minVolts := Decimal(ns[1], 1),
              maxEgtSpread := ns[2], maxCht := ns[3], maxChtCoolRate := ns[4],
              maxEgt := ns[5], maxOilTemp := ns[6], minOilTemp := ns[7])))
  {
    var t := Tokens(ns);
    TokensParseInSlots(ns);
    TokensParse(ns);
    var r := AlarmsFromTokens(t);
    assert r.Ok? && r.value.Some?;
    var a := r.value.value;
    assert a.maxVolts == Tenth(Decimal(ns[0], 0));
    assert a.minVolts == Tenth(Decimal(ns[1], 0));
  }

  /** Fewer than eight numbers leave the alarm record unset, without error. */
  lemma TruncatedAlarmsUnset(ns: seq<nat>)
    requires |ns| < 8 && forall i :: 0 <= i < |ns| ==> ns[i] <= I32_MAX
    ensures AlarmsFromTokens(Tokens(ns)) == Ok(None)
  {
    TokensParseInSlots(ns);
  }

  /** `$A,<n1>,...,<nk>*<checksum>`, whatever the checksum text. */
  function AlarmLine(ns: seq<nat>, suffix: seq<Byte>): seq<Byte>
  {
    [DOLLAR, TAG_ALARMS] + Prefixed(Tokens(ns), COMMA) + [STAR] + suffix
  }

  lemma CleanAlarmLine(ns: seq<nat>, suffix: seq<Byte>)
    ensures Clean(AlarmLine(ns, suffix)) == Ok(Tokens(ns))
  {
    var t := Tokens(ns);
    forall i | 0 <= i < |t| ensures COMMA !in t[i] && STAR !in t[i] && Trim(t[i]) == t[i] {
      TrimRender(ns[i]);
      forall k | 0 <= k < |t[i]| ensures t[i][k] != COMMA && t[i][k] != STAR {
        assert DigitValue(t[i][k], 10).Some?;
      }
    }
    CleanOfParts([DOLLAR, TAG_ALARMS], t, suffix);
    assert TrimAll(t) == t;
  }

  lemma DecodeAlarmLine(ns: seq<nat>, suffix: seq<Byte>)
    ensures DecodeAlarms(AlarmLine(ns, suffix)) == AlarmsFromTokens(Tokens(ns))
  {
    CleanAlarmLine(ns, suffix);
  }

  /** An alarm line of eight or more in-range numbers decodes, whatever its
      checksum text, into the first eight in order. */
  lemma AlarmLineDecodes(ns: seq<nat>, suffix: seq<Byte>)
    requires |ns| >= 8 && forall i :: 0 <= i < |ns| ==> ns[i] <= I32_MAX
    ensures DecodeAlarms(AlarmLine(ns, suffix)) == Ok(Some(Alarms(
              maxVolts := Decimal(ns[0], 1), minVolts := Decimal(ns[1], 1),
              maxEgtSpread := ns[2], maxCht := ns[3], maxChtCoolRate := ns[4],
              maxEgt := ns[5], maxOilTemp := ns[6], minOilTemp := ns[7])))
  {
    DecodeAlarmLine(ns, suffix);
    AlarmsOfNumbers(ns);
  }

  /** An alarm line of fewer than eight in-range numbers leaves the record unset. */
  lemma TruncatedAlarmLineDecodes(ns: seq<nat>, suffix: seq<Byte>)
    requires |ns| < 8 && forall i :: 0 <= i < |ns| ==> ns[i] <= I32_MAX
    ensures DecodeAlarms(AlarmLine(ns, suffix)) == Ok(None)
  {
    DecodeAlarmLine(ns, suffix);
    TruncatedAlarmsUnset(ns);
  }

  /** The alarm line `$A,135,115,35,420,15,1650,50,240*..`: 13.5 V and 11.5 V. */
  lemma AlarmLineScenario(suffix: seq<Byte>)
    ensures DecodeAlarms(AlarmLine([135, 115, 35, 420, 15, 1650, 50, 240], suffix)) == Ok(Some(Alarms(
              maxVolts := Decimal(135, 1), minVolts := Decimal(115, 1),
              maxEgtSpread := 35, maxCht := 420, maxChtCoolRate := 15,
              maxEgt := 1650, maxOilTemp := 50, minOilTemp := 240)))
  {
    AlarmLineDecodes([135, 115, 35, 420, 15, 1650, 50, 240], suffix);
  }

  /** The alarm line `$A,135,115,35,420,15*..` has five thresholds only. */
  lemma TruncatedAlarmLineScenario(suffix: seq<Byte>)
    ensures DecodeAlarms(AlarmLine([135, 115, 35, 420, 15], suffix)) == Ok(None)
  {
    TruncatedAlarmLineDecodes([135, 115, 35, 420, 15], suffix);
  }

  /** `$U,<reg>*<two hex digits of c>`. */
  function RegistrationLine(reg: seq<Byte>, c: Byte): seq<Byte>
  {
    [DOLLAR, TAG_REGISTRATION, COMMA] + reg + [STAR] + Hex2(c)
  }

  /** A file whose header is one registration line decodes to a record holding
      just that registration, whatever checksum the line carries. */
  lemma RegistrationFileDecodes(reg: seq<Byte>, c: Byte, b: Byte, body: seq<Byte>)
    requires LF !in reg && STAR !in reg && COMMA !in reg && IsAscii(reg) && Trim(reg) == reg
    requires b != DOLLAR
    ensures Decode(RegistrationLine(reg, c) + [LF, b] + body) == Ok(EMPTY_HEADER.(registration := Some(reg)))
  {
    var line := RegistrationLine(reg, c);
    RegistrationLineParses(reg, c, b, body);
    DecodeOfParsed(line + [LF, b] + body);
    ApplyRegistrationLine(reg, c);
  }

  lemma RegistrationLineParses(reg: seq<Byte>, c: Byte, b: Byte, body: seq<Byte>)
    requires LF !in reg && STAR !in reg && IsAscii(reg) && b != DOLLAR
    ensures Parse(RegistrationLine(reg, c) + [LF, b] + body) == Ok(RegistrationLine(reg, c))
    ensures Lines(RegistrationLine(reg, c)) == [RegistrationLine(reg, c)]
  {
    var payload := [TAG_REGISTRATION, COMMA] + reg;
    RegistrationPayload(reg, c);
    SealedLineParses(payload, c, b, body);
  }

  lemma RegistrationPayload(reg: seq<Byte>, c: Byte)
    requires LF !in reg && STAR !in reg && IsAscii(reg)
    ensures var payload := [TAG_REGISTRATION, COMMA] + reg;
            && RegistrationLine(reg, c) == [DOLLAR] + payload + [STAR] + Hex2(c)
            && STAR !in payload && LF !in payload && IsAscii(payload)
  {
    var payload := [TAG_REGISTRATION, COMMA] + reg;
    forall i | 2 <= i < |payload| ensures payload[i] == reg[i - 2] {}
  }

  lemma ApplyRegistrationLine(reg: seq<Byte>, c: Byte)
    requires STAR !in reg && COMMA !in reg && Trim(reg) == reg
    ensures ApplyLines(EMPTY_HEADER, [RegistrationLine(reg, c)]) == Ok(EMPTY_HEADER.(registration := Some(reg)))
  {
    RegistrationOfRegistrationLine(reg, c);
    ApplyRegistration(RegistrationLine(reg, c), reg);
  }

  lemma RegistrationOfRegistrationLine(reg: seq<Byte>, c: Byte)
    requires STAR !in reg && COMMA !in reg && Trim(reg) == reg
    ensures var line := RegistrationLine(reg, c);
            |line| >= 2 && line[1] == TAG_REGISTRATION && Registration(line) == Ok(Some(reg))
  {
    var suffix := Hex2(c);
    RegistrationLineSplit(reg, suffix);
    RegistrationOfLine([DOLLAR, TAG_REGISTRATION], reg, suffix);
  }

  lemma RegistrationLineSplit(reg: seq<Byte>, suffix: seq<Byte>)
    ensures var line := [DOLLAR, TAG_REGISTRATION, COMMA] + reg + [STAR] + suffix;
            line == [DOLLAR, TAG_REGISTRATION] + [COMMA] + reg + [STAR] + suffix
            && |line| >= 2 && line[1] == TAG_REGISTRATION
  {
  }

  lemma ApplyRegistration(line: seq<Byte>, reg: seq<Byte>)
    requires |line| >= 2 && line[1] == TAG_REGISTRATION && Registration(line) == Ok(Some(reg))
    ensures ApplyLines(EMPTY_HEADER, [line]) == Ok(EMPTY_HEADER.(registration := Some(reg)))
  {
    ApplyLinesSingle(EMPTY_HEADER, line);
  }

  /** `N354DT` */
  const TAIL_NUMBER: seq<Byte> := [0x4E, 0x33, 0x35, 0x34, 0x44, 0x54]

  /** The XOR of `U,N354DT` is 0x15. */
  lemma TailNumberChecksum()
    ensures XorFold([TAG_REGISTRATION, COMMA] + TAIL_NUMBER) == 0x15
  {
    var p := [TAG_REGISTRATION, COMMA] + TAIL_NUMBER;
    assert p[..0] == [];
    XorFoldSnoc(p[..0], p[0]);
    assert p[..0] + [p[0]] == p[..1];
    XorFoldSnoc(p[..1], p[1]);
    assert p[..1] + [p[1]] == p[..2];
    XorFoldSnoc(p[..2], p[2]);
    assert p[..2] + [p[2]] == p[..3];
    XorFoldSnoc(p[..3], p[3]);
    assert p[..3] + [p[3]] == p[..4];
    XorFoldSnoc(p[..4], p[4]);
    assert p[..4] + [p[4]] == p[..5];
    XorFoldSnoc(p[..5], p[5]);
    assert p[..5] + [p[5]] == p[..6];
    XorFoldSnoc(p[..6], p[6]);
    assert p[..6] + [p[6]] == p[..7];
    XorFoldSnoc(p[..7], p[7]);
    assert p[..7] + [p[7]] == p[..8];
    assert p[..8] == p;
  }

  lemma TailNumberIsPlain()
    ensures LF !in TAIL_NUMBER && STAR !in TAIL_NUMBER && COMMA !in TAIL_NUMBER
    ensures IsAscii(TAIL_NUMBER) && Trim(TAIL_NUMBER) == TAIL_NUMBER
  {
    var t := TAIL_NUMBER;
    assert !IsWhitespace(t[0]) && !IsWhitespace(t[|t| - 1]);
  }

  /** `$U,N354DT*15` checks, and a file that starts with it registers `N354DT`. */
  lemma RegistrationScenario(body: seq<Byte>)
    ensures RegistrationLine(TAIL_NUMBER, 0x15) == [DOLLAR, 0x55, COMMA, 0x4E, 0x33, 0x35, 0x34, 0x44, 0x54, STAR, 0x31, 0x35]
    ensures Checksum(RegistrationLine(TAIL_NUMBER, 0x15)) == Ok(true)
    ensures Decode(RegistrationLine(TAIL_NUMBER, 0x15) + [LF, 0x00] + body) == Ok(EMPTY_HEADER.(registration := Some(TAIL_NUMBER)))
  {
    RegistrationLineBytes();
    RegistrationLineChecks();
    TailNumberIsPlain();
    RegistrationFileDecodes(TAIL_NUMBER, 0x15, 0x00, body);
  }

  lemma RegistrationLineBytes()
    ensures RegistrationLine(TAIL_NUMBER, 0x15) == [DOLLAR, 0x55, COMMA, 0x4E, 0x33, 0x35, 0x34, 0x44, 0x54, STAR, 0x31, 0x35]
  {
    assert Hex2(0x15) == [0x31, 0x35];
  }

  lemma RegistrationLineChecks()
    ensures Checksum(RegistrationLine(TAIL_NUMBER, 0x15)) == Ok(true)
    ensures Checksum(RegistrationLine(TAIL_NUMBER, 0x16)) == Ok(false)
  {
    var payload := [TAG_REGISTRATION, COMMA] + TAIL_NUMBER;
    TailNumberChecksum();
    TailNumberIsPlain();
    assert STAR !in payload;
    assert RegistrationLine(TAIL_NUMBER, 0x15) == [DOLLAR] + payload + [STAR] + Hex2(XorFold(payload));
    assert RegistrationLine(TAIL_NUMBER, 0x16) == [DOLLAR] + payload + [STAR] + Hex2(0x16);
    SealedLineChecks(payload);
    WrongChecksumFails(payload, 0x16);
  }

  /** `$U,N354DT*16` fails its checksum, yet the file decodes just the same. */
  lemma WrongChecksumScenario(body: seq<Byte>)
    ensures Checksum(RegistrationLine(TAIL_NUMBER, 0x16)) == Ok(false)
    ensures Decode(RegistrationLine(TAIL_NUMBER, 0x16) + [LF, 0x00] + body) == Ok(EMPTY_HEADER.(registration := Some(TAIL_NUMBER)))
  {
    RegistrationLineChecks();
    TailNumberIsPlain();
    RegistrationFileDecodes(TAIL_NUMBER, 0x16, 0x00, body);
  }
}
