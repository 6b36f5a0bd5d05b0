/** Byte-string operations the header decoder borrows from Rust's `str` and
    slice APIs: `split_once`, `split`, `trim` and `lines`, on ASCII bytes. */
module Text {
  import opened Outcomes

  type Byte = bv8

  const LF: Byte := 0x0A
  const CR: Byte := 0x0D
  const DOLLAR: Byte := 0x24  // EdmHeader::START
  const STAR: Byte := 0x2A    // EdmHeader::END
  const COMMA: Byte := 0x2C   // EdmHeader::DELIM

  /** Position of the first `d` in `s`. */
  function IndexOf(s: seq<Byte>, d: Byte): (r: Option<nat>)
    ensures r.Some? ==> r.value < |s| && s[r.value] == d && d !in s[..r.value]
    ensures r.None? <==> d !in s
  {
    if |s| == 0 then None
    else if s[0] == d then Some(0)
    else match IndexOf(s[1..], d)
      case None => None
      case Some(k) =>
        assert s[1..][..k] == s[1..k + 1];
        Some(k + 1)
  }

  /** `str::split_once`: the text before and after the first `d`. */
  function SplitOnce(s: seq<Byte>, d: Byte): (r: Option<(seq<Byte>, seq<Byte>)>)
    ensures r.None? <==> d !in s
    ensures r.Some? ==> s == r.value.0 + [d] + r.value.1 && d !in r.value.0
  {
    match IndexOf(s, d)
    case None => None
    case Some(k) =>
      assert s == s[..k] + [d] + s[k + 1..];
      Some((s[..k], s[k + 1..]))
  }

  /** A sequence holding `d` is the part before its first `d`, `d`, and the rest. */
  lemma SplitAtIndex(s: seq<Byte>, d: Byte)
    requires d in s
    ensures var k := IndexOf(s, d).value;
            s == s[..k] + [d] + s[k + 1..] && d !in s[..k]
  {
  }

  /** The decomposition at the first `d` is the only one whose left part is `d`-free. */
  lemma SplitOnceAt(a: seq<Byte>, b: seq<Byte>, d: Byte)
    requires d !in a
    ensures SplitOnce(a + [d] + b, d) == Some((a, b))
  {
    var s := a + [d] + b;
    assert s[|a|] == d;
    assert s[..|a|] == a;
    var k := IndexOf(s, d).value;
    assert s[..k] == a;
    assert s[k + 1..] == b;
  }

  /** Number of occurrences of `d` in `s`. */
  function Count(s: seq<Byte>, d: Byte): (n: nat)
    ensures n <= |s|
    ensures n == 0 <==> d !in s
  {
    if s == [] then 0 else (if s[0] == d then 1 else 0) + Count(s[1..], d)
  }

  lemma {:induction false} CountConcat(a: seq<Byte>, b: seq<Byte>, d: Byte)
    ensures Count(a + b, d) == Count(a, d) + Count(b, d)
  {
    if a != [] {
      assert (a + b)[1..] == a[1..] + b;
      CountConcat(a[1..], b, d);
    } else {
      assert a + b == b;
    }
  }

  /** Each segment preceded by `d`: the text after the first segment of a join. */
  function Prefixed(segs: seq<seq<Byte>>, d: Byte): seq<Byte>
  {
    if segs == [] then [] else [d] + segs[0] + Prefixed(segs[1..], d)
  }

  lemma {:induction false} NotInPrefixed(segs: seq<seq<Byte>>, d: Byte, x: Byte)
    requires x != d
    requires forall i :: 0 <= i < |segs| ==> x !in segs[i]
    ensures x !in Prefixed(segs, d)
  {
    if segs != [] {
      NotInPrefixed(segs[1..], d, x);
    }
  }

  /** The parts separated by `d`, the inverse of `Split`. */
  function Join(parts: seq<seq<Byte>>, d: Byte): seq<Byte>
    requires |parts| >= 1
  {
    parts[0] + Prefixed(parts[1..], d)
  }

  /** `str::split` on a single byte: every maximal `d`-free run, empty ones included. */
  function Split(s: seq<Byte>, d: Byte): (r: seq<seq<Byte>>)
    ensures forall i :: 0 <= i < |r| ==> d !in r[i]
    ensures |r| >= 1 && Join(r, d) == s
    decreases |s|
  {
    match SplitOnce(s, d)
    case None => [s]
    case Some((head, tail)) =>
      var rest := Split(tail, d);
      JoinCons(head, rest, d);
      [head] + rest
  }

  lemma JoinCons(head: seq<Byte>, rest: seq<seq<Byte>>, d: Byte)
    requires |rest| >= 1
    ensures Join([head] + rest, d) == head + [d] + Join(rest, d)
  {
    assert ([head] + rest)[1..] == rest;
    assert Prefixed(rest, d) == [d] + rest[0] + Prefixed(rest[1..], d);
  }

  /** `split` yields one more segment than there are delimiters. */
  lemma {:induction false} SplitCount(s: seq<Byte>, d: Byte)
    ensures |Split(s, d)| == Count(s, d) + 1
    decreases |s|
  {
    match SplitOnce(s, d)
    case None =>
    case Some((head, tail)) =>
      SplitCount(tail, d);
      CountConcat(head + [d], tail, d);
      CountConcat(head, [d], d);
      assert Split(s, d) == [head] + Split(tail, d);
  }

  /** Splitting a join of `d`-free parts gives the parts back. */
  lemma {:induction false} SplitJoin(parts: seq<seq<Byte>>, d: Byte)
    requires |parts| >= 1
    requires forall i :: 0 <= i < |parts| ==> d !in parts[i]
    ensures Split(Join(parts, d), d) == parts
    decreases |parts|
  {
    if |parts| == 1 {
      assert Join(parts, d) == parts[0];
    } else {
      var tail := parts[1..];
      assert parts == [parts[0]] + tail;
      JoinCons(parts[0], tail, d);
      SplitOnceAt(parts[0], Join(tail, d), d);
      SplitJoin(tail, d);
      assert parts == [parts[0]] + tail;
    }
  }

  /** `char::is_whitespace` restricted to ASCII: tab, LF, VT, FF, CR and space. */
  predicate IsWhitespace(b: Byte)
  {
    b == 0x20 || 0x09 <= b <= 0x0D
  }

  /** `str::trim_start`. */
  function TrimStart(s: seq<Byte>): (r: seq<Byte>)
    ensures |r| <= |s| && r == s[|s| - |r|..]
    ensures forall k :: 0 <= k < |s| - |r| ==> IsWhitespace(s[k])
    ensures r != [] ==> !IsWhitespace(r[0])
  {
    if s != [] && IsWhitespace(s[0]) then TrimStart(s[1..]) else s
  }

  /** `str::trim_end`. */
  function TrimEnd(s: seq<Byte>): (r: seq<Byte>)
    ensures |r| <= |s| && r == s[..|r|]
    ensures forall k :: |r| <= k < |s| ==> IsWhitespace(s[k])
    ensures r != [] ==> !IsWhitespace(r[|r| - 1])
  {
    if s != [] && IsWhitespace(s[|s| - 1]) then TrimEnd(s[..|s| - 1]) else s
  }

  /** `str::trim`: `s` without its leading and trailing whitespace. */
  function Trim(s: seq<Byte>): (r: seq<Byte>)
    ensures |r| <= |s|
    ensures r != [] ==> !IsWhitespace(r[0]) && !IsWhitespace(r[|r| - 1])
    ensures (s != [] && !IsWhitespace(s[0]) && !IsWhitespace(s[|s| - 1])) ==> r == s
    ensures forall k :: 0 <= k < |s| && !IsWhitespace(s[k]) ==> r != []
  {
    TrimEnd(TrimStart(s))
  }

  /** Trimming only cuts whitespace from the two ends: what is left is a slice of `s`. */
  lemma TrimIsSlice(s: seq<Byte>) returns (i: nat)
    ensures i + |Trim(s)| <= |s| && Trim(s) == s[i..i + |Trim(s)|]
    ensures forall k :: 0 <= k < i ==> IsWhitespace(s[k])
    ensures forall k :: i + |Trim(s)| <= k < |s| ==> IsWhitespace(s[k])
  {
    var t := TrimStart(s);
    i := |s| - |t|;
    var r := TrimEnd(t);
    assert Trim(s) == r;
    assert r == s[i..i + |r|];
    forall k | i + |r| <= k < |s| ensures IsWhitespace(s[k]) {
      assert s[k] == t[k - i];
    }
  }

  lemma TrimIdempotent(s: seq<Byte>)
    ensures Trim(Trim(s)) == Trim(s)
  {
  }

  predicate EndsWithCR(line: seq<Byte>)
  {
    line != [] && line[|line| - 1] == CR
  }

  /** Drops one trailing CR, as `lines()` does before an LF. */
  function StripCR(line: seq<Byte>): (r: seq<Byte>)
    ensures EndsWithCR(line) ==> line == r + [CR]
    ensures !EndsWithCR(line) ==> r == line
  {
    if line != [] && line[|line| - 1] == CR then line[..|line| - 1] else line
  }

  /** `str::lines`: split at every LF, drop a CR that precedes an LF, and yield
      no empty line after a final LF. */
  function Lines(s: seq<Byte>): (r: seq<seq<Byte>>)
    ensures forall i :: 0 <= i < |r| ==> LF !in r[i]
    ensures s == [] <==> r == []
    decreases |s|
  {
    if s == [] then []
    else match SplitOnce(s, LF)
      case None => [s]
      case Some((line, rest)) => [StripCR(line)] + Lines(rest)
  }

  /** Lines joined by LF, with no final LF. */
  function JoinLines(lines: seq<seq<Byte>>): seq<Byte>
  {
    if lines == [] then [] else Join(lines, LF)
  }

  /** `lines()` recovers the lines of a join, provided no line holds an LF, no
      LF-terminated line ends in CR and the last line is not empty. */
  lemma {:induction false} LinesOfJoin(ls: seq<seq<Byte>>)
    requires ls != [] && ls[|ls| - 1] != []
    requires forall i :: 0 <= i < |ls| ==> LF !in ls[i]
    requires forall i :: 0 <= i < |ls| - 1 ==> !EndsWithCR(ls[i])
    ensures Lines(JoinLines(ls)) == ls
    decreases |ls|
  {
    if |ls| == 1 {
      assert JoinLines(ls) == ls[0];
    } else {
      var tail := ls[1..];
      assert ls == [ls[0]] + tail;
      JoinCons(ls[0], tail, LF);
      SplitOnceAt(ls[0], JoinLines(tail), LF);
      LinesOfJoin(tail);
      assert ls == [ls[0]] + tail;
    }
  }

  /** Joining LF-free lines that each start with `$` puts a `$` after every LF. */
  lemma {:induction false} JoinLinesDollarAfterLF(ls: seq<seq<Byte>>)
    requires forall i :: 0 <= i < |ls| ==> ls[i] != [] && ls[i][0] == DOLLAR && LF !in ls[i]
    ensures var s := JoinLines(ls);
            forall j :: 0 <= j < |s| && s[j] == LF ==> j + 1 < |s| && s[j + 1] == DOLLAR
    decreases |ls|
  {
    if |ls| == 1 {
      assert JoinLines(ls) == ls[0];
    } else if |ls| > 1 {
      var tail := ls[1..];
      assert ls == [ls[0]] + tail;
      JoinCons(ls[0], tail, LF);
      JoinLinesDollarAfterLF(tail);
      var s, t := JoinLines(ls), JoinLines(tail);
      assert s == ls[0] + [LF] + t;
      assert t != [] && t[0] == DOLLAR by { assert t == tail[0] + Prefixed(tail[1..], LF); }
      forall j | 0 <= j < |s| && s[j] == LF ensures j + 1 < |s| && s[j + 1] == DOLLAR {
        if j > |ls[0]| {
          assert s[j] == t[j - |ls[0]| - 1];
          assert j + 1 < |s| && s[j + 1] == t[j - |ls[0]|];
        }
      }
    }
  }

  /** When every LF of `s` is followed by `$`, every line after the first starts with `$`. */
  lemma {:induction false} LaterLinesStartWithDollar(s: seq<Byte>)
    requires forall j :: 0 <= j < |s| && s[j] == LF ==> j + 1 < |s| && s[j + 1] == DOLLAR
    ensures forall i :: 1 <= i < |Lines(s)| ==> Lines(s)[i] != [] && Lines(s)[i][0] == DOLLAR
    decreases |s|
  {
    if LF in s {
      var k := IndexOf(s, LF).value;
      var line, rest := s[..k], s[k + 1..];
      assert s == line + [LF] + rest;
      LinesCons(line, rest);
      DollarAfterLF(s, line, rest);
      LaterLinesStartWithDollar(rest);
      FirstLineStartsWith(rest);
      var lr := Lines(rest);
      assert StartWithDollar(lr) by {
        forall i | 0 <= i < |lr| ensures lr[i] != [] && lr[i][0] == DOLLAR {
          if i == 0 { assert lr[0] == Lines(rest)[0]; }
        }
      }
      TailsStartWithDollar(StripCR(line), lr);
    } else if s != [] {
      assert SplitOnce(s, LF).None?;
    }
  }

  predicate StartWithDollar(ls: seq<seq<Byte>>)
  {
    forall i :: 0 <= i < |ls| ==> ls[i] != [] && ls[i][0] == DOLLAR
  }

  lemma TailsStartWithDollar(x: seq<Byte>, ls: seq<seq<Byte>>)
    requires StartWithDollar(ls)
    ensures forall i :: 1 <= i < |[x] + ls| ==> ([x] + ls)[i] != [] && ([x] + ls)[i][0] == DOLLAR
  {
    forall i | 1 <= i < |[x] + ls| ensures ([x] + ls)[i] != [] && ([x] + ls)[i][0] == DOLLAR {
      assert ([x] + ls)[i] == ls[i - 1];
    }
  }

  /** The first line and the lines of what follows its LF. */
  lemma LinesCons(line: seq<Byte>, rest: seq<Byte>)
    requires LF !in line
    ensures Lines(line + [LF] + rest) == [StripCR(line)] + Lines(rest)
  {
    SplitOnceAt(line, rest, LF);
  }

  lemma DollarAfterLF(s: seq<Byte>, line: seq<Byte>, rest: seq<Byte>)
    requires forall j :: 0 <= j < |s| && s[j] == LF ==> j + 1 < |s| && s[j + 1] == DOLLAR
    requires s == line + [LF] + rest
    ensures rest != [] && rest[0] == DOLLAR
    ensures forall j :: 0 <= j < |rest| && rest[j] == LF ==> j + 1 < |rest| && rest[j + 1] == DOLLAR
  {
    assert s[|line|] == LF;
    forall j | 0 <= j < |rest| ensures rest[j] == s[|line| + 1 + j] {}
  }

  /** A text that starts with a byte other than LF and CR has a first line that starts with it. */
  lemma FirstLineStartsWith(s: seq<Byte>)
    requires s != [] && s[0] != LF && s[0] != CR
    ensures Lines(s) != [] && Lines(s)[0] != [] && Lines(s)[0][0] == s[0]
  {
    if SplitOnce(s, LF).Some? {
      var (line, rest) := SplitOnce(s, LF).value;
      assert line != [];
      assert StripCR(line)[0] == line[0];
    }
  }
}
