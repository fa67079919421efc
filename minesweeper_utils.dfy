/** The two string helpers of the game's utility class: `splitString` and `convertTime`
    (Test/MinesweeperUtils.h). */
module MinesweeperUtils {

  datatype Option<T> = None | Some(value: T)

  // ---------------------------------------------------------------------------------------------
  // Searching for the splitter

  /** `sep` occurs in `s` starting at index `i`. */
  predicate OccursAt(s: string, sep: string, i: int) {
    0 <= i && i + |sep| <= |s| && s[i..i + |sep|] == sep
  }

  /** `sep` occurs nowhere in `s`. */
  ghost predicate Free(s: string, sep: string) {
    forall k :: !OccursAt(s, sep, k)
  }

  /** `std::string::find` from index `i` on: the first occurrence at or after `i`, if any. */
  function FindFrom(s: string, sep: string, i: nat): (r: Option<nat>)
    decreases |s| - i
    ensures r.Some? ==> i <= r.value && OccursAt(s, sep, r.value)
    ensures r.Some? ==> forall k | i <= k < r.value :: !OccursAt(s, sep, k)
    ensures r.None? ==> forall k | i <= k :: !OccursAt(s, sep, k)
  {
    if i + |sep| > |s| then None
    else if s[i..i + |sep|] == sep then Some(i)
    else FindFrom(s, sep, i + 1)
  }

  /** `std::string::find`: the first occurrence of `sep` in `s`, or `None` for `npos`. */
  function Find(s: string, sep: string): (r: Option<nat>)
    ensures r.Some? ==> OccursAt(s, sep, r.value) && forall k | 0 <= k < r.value :: !OccursAt(s, sep, k)
    ensures r.None? ==> Free(s, sep)
  {
    FindFrom(s, sep, 0)
  }

  // ---------------------------------------------------------------------------------------------
  // splitString

  /** The pieces `splitString` returns: cut at the first occurrence, drop the splitter, go on with
      the rest; a non-empty final remainder is the last piece, an empty one is dropped. The splitter
      must not be empty: `find` of an empty string always answers 0 and the loop would never end. */
  function Split(s: string, sep: string): (pieces: seq<string>)
    requires |sep| > 0
    decreases |s|
  {
    match Find(s, sep)
    case None => if |s| == 0 then [] else [s]
    case Some(i) => [s[..i]] + Split(s[i + |sep|..], sep)
  }

  /** The loop of `splitString`: `result` grows by one piece per occurrence found, `str` is cut down
      to what follows the splitter. */
  method SplitString(str: string, splitter: string) returns (result: seq<string>)
    requires |splitter| > 0
    ensures result == Split(str, splitter)
  {
    result := [];
    var rest := str;
    var found := Find(rest, splitter);
    while found.Some?
      invariant found == Find(rest, splitter)
      invariant result + Split(rest, splitter) == Split(str, splitter)
      decreases |rest|
    {
      var i := found.value;
      assert Split(rest, splitter) == [rest[..i]] + Split(rest[i + |splitter|..], splitter);
      result := result + [rest[..i]];
      rest := rest[i + |splitter|..];
      found := Find(rest, splitter);
    }
    if |rest| != 0 {
      result := result + [rest];
    }
  }

  /** The pieces put back together with the splitter between consecutive ones. */
  function Join(pieces: seq<string>, sep: string): (s: string)
    ensures |pieces| == 1 ==> s == pieces[0]
  {
    if |pieces| == 0 then []
    else if |pieces| == 1 then pieces[0]
    else pieces[0] + sep + Join(pieces[1..], sep)
  }

  /** The scan's last cut ends exactly at the end of `s`, so the empty remainder after it is
      dropped and that splitter is lost. */
  predicate LastCutAtEnd(s: string, sep: string)
    requires |sep| > 0
    decreases |s|
  {
    match Find(s, sep)
    case None => false
    case Some(i) => i + |sep| == |s| || LastCutAtEnd(s[i + |sep|..], sep)
  }

  /** The empty string splits into no pieces at all; any other string into at least one. */
  lemma {:induction false} SplitNonEmpty(s: string, sep: string)
    requires |sep| > 0
    ensures |Split(s, sep)| > 0 <==> |s| > 0
  {
    if |s| == 0 {
      assert FindFrom(s, sep, 0) == None;
    }
  }

  /** Joining a piece in front of at least one more puts the splitter between them. */
  lemma {:induction false} JoinCons(p: string, ps: seq<string>, sep: string)
    requires |ps| > 0
    ensures Join([p] + ps, sep) == p + sep + Join(ps, sep)
  {
    assert ([p] + ps)[1..] == ps;
  }

  /** No piece contains the splitter: each piece ends before the first occurrence in what was
      left of the input. */
  lemma {:induction false} SplitPiecesFree(s: string, sep: string)
    requires |sep| > 0
    ensures forall p | p in Split(s, sep) :: Free(p, sep)
    decreases |s|
  {
    match Find(s, sep)
    case None =>
    case Some(i) =>
      SplitPiecesFree(s[i + |sep|..], sep);
      forall k ensures !OccursAt(s[..i], sep, k) {
        if OccursAt(s[..i], sep, k) {
          assert s[..i][k..k + |sep|] == s[k..k + |sep|];
          assert OccursAt(s, sep, k);
        }
      }
  }

  /** Joining the pieces with the splitter gives the input back, except that the splitter the
      last cut consumed is lost when nothing follows it. */
  lemma {:induction false} SplitJoin(s: string, sep: string)
    requires |sep| > 0
    ensures Join(Split(s, sep), sep) + (if LastCutAtEnd(s, sep) then sep else []) == s
    decreases |s|
  {
    if Find(s, sep).Some? {
      var i := Find(s, sep).value;
      var head, rest := s[..i], s[i + |sep|..];
      CutAt(s, sep, i);
      SplitNonEmpty(rest, sep);
      if rest != [] {
        SplitJoin(rest, sep);
        JoinCons(head, Split(rest, sep), sep);
      }
    }
  }

  /** One step of the scan: the piece before the first occurrence, then the pieces of the rest. */
  lemma {:induction false} CutAt(s: string, sep: string, i: nat)
    requires |sep| > 0 && Find(s, sep) == Some(i)
    ensures i + |sep| <= |s| && s == s[..i] + sep + s[i + |sep|..]
    ensures Split(s, sep) == [s[..i]] + Split(s[i + |sep|..], sep)
    ensures LastCutAtEnd(s, sep) == (s[i + |sep|..] == [] || LastCutAtEnd(s[i + |sep|..], sep))
  {
    assert s[i..i + |sep|] == sep;
  }

  /** Only a string that ends with the splitter can lose one: without a trailing splitter the
      round trip is exact. */
  lemma {:induction false} LastCutEndsWithSplitter(s: string, sep: string)
    requires |sep| > 0 && LastCutAtEnd(s, sep)
    ensures OccursAt(s, sep, |s| - |sep|)
    decreases |s|
  {
    match Find(s, sep)
    case None =>
    case Some(i) =>
      if i + |sep| != |s| {
        var rest := s[i + |sep|..];
        LastCutEndsWithSplitter(rest, sep);
        assert s[|s| - |sep|..] == rest[|rest| - |sep|..];
      }
  }

  /** A leading splitter yields an empty first piece, which is kept. */
  lemma {:induction false} LeadingSplitter(t: string, sep: string)
    requires |sep| > 0
    ensures Split(sep + t, sep) == [[]] + Split(t, sep)
  {
    var s := sep + t;
    assert OccursAt(s, sep, 0) by { assert s[0..|sep|] == sep; }
    assert Find(s, sep) == Some(0);
    assert s[|sep|..] == t;
  }

  /** A string whose only occurrence of the splitter is at its very end splits into one piece:
      the trailing splitter is dropped. */
  lemma {:induction false} TrailingSplitter(t: string, sep: string)
    requires |sep| > 0
    requires forall k | 0 <= k < |t| :: !OccursAt(t + sep, sep, k)
    ensures Split(t + sep, sep) == [t]
    ensures LastCutAtEnd(t + sep, sep)
  {
    var s := t + sep;
    assert OccursAt(s, sep, |t|) by { assert s[|t|..|t| + |sep|] == sep; }
    assert Find(s, sep) == Some(|t|);
    assert s[|t| + |sep|..] == [];
    assert s[..|t|] == t;
    SplitNonEmpty([], sep);
  }

  // ---------------------------------------------------------------------------------------------
  // convertTime

  /** C++ `/` on `long`: the quotient truncated toward zero. */
  function TruncDiv(a: int, b: int): (q: int)
    requires b > 0
    ensures a >= 0 ==> q >= 0
    ensures a < 0 ==> q <= 0
  {
    if a >= 0 then a / b else -((-a) / b)
  }

  /** C++ `%` on `long`: the remainder that goes with the truncated quotient, with the sign of `a`. */
  function TruncMod(a: int, b: int): (r: int)
    requires b > 0
    ensures a == TruncDiv(a, b) * b + r
    ensures a >= 0 ==> 0 <= r < b
    ensures a < 0 ==> -b < r <= 0
  {
    if a >= 0 then a % b else -((-a) % b)
  }

  /** Hours, minutes and seconds as `convertTime` computes them. */
  datatype Clock = Clock(h: int, m: int, s: int)

  function TimeParts(seconds: int): (c: Clock)
    ensures c.h * 3600 + c.m * 60 + c.s == seconds
    ensures seconds >= 0 ==> 0 <= c.s < 60 && 0 <= c.m < 60 && 0 <= c.h
  {
    var minutes := TruncDiv(seconds, 60);
    Clock(TruncDiv(minutes, 60), TruncMod(minutes, 60), TruncMod(seconds, 60))
  }

  /** For a non-negative duration the parts are a proper clock reading of it. */
  lemma {:induction false} TimePartsOfDuration(seconds: int)
    requires seconds >= 0
    ensures var c := TimeParts(seconds);
            0 <= c.s < 60 && 0 <= c.m < 60 && 0 <= c.h &&
            c.h * 3600 + c.m * 60 + c.s == seconds
  {
  }

  /** The parts always add back up to the input; a negative input gives parts that are all <= 0,
      because C++ division truncates toward zero. */
  lemma {:induction false} TimePartsSum(seconds: int)
    ensures var c := TimeParts(seconds);
            c.h * 3600 + c.m * 60 + c.s == seconds
    ensures seconds < 0 ==> var c := TimeParts(seconds); -60 < c.s <= 0 && -60 < c.m <= 0 && c.h <= 0
  {
  }

  /** `to_string` of a non-negative number: its decimal digits, most significant first. */
  function NatDigits(n: nat): (r: string)
    decreases n
    ensures 0 < |r|
    ensures forall k | 0 <= k < |r| :: IsDigit(r[k])
    ensures r[0] == '0' ==> n == 0
  {
    if n < 10 then [Digit(n)] else NatDigits(n / 10) + [Digit(n % 10)]
  }

  predicate IsDigit(c: char) {
    '0' <= c <= '9'
  }

  function Digit(d: nat): (c: char)
    requires d < 10
    ensures IsDigit(c)
  {
    (d + '0' as int) as char
  }

  /** The value of a string of decimal digits, most significant first. */
  function DigitsValue(s: string): int
  {
    if |s| == 0 then 0 else DigitsValue(s[..|s| - 1]) * 10 + (s[|s| - 1] as int - '0' as int)
  }

  /** The decimal text reads back as the number it was made from. */
  lemma {:induction false} DigitsRoundTrip(n: nat)
    ensures DigitsValue(NatDigits(n)) == n
    decreases n
  {
    if n >= 10 {
      DigitsRoundTrip(n / 10);
      var r := NatDigits(n);
      assert r[..|r| - 1] == NatDigits(n / 10);
    }
  }

  /** `to_string` of a `long`: a minus sign before the digits of a negative number. */
  function IntString(n: int): (r: string)
    ensures n >= 0 ==> r == NatDigits(n)
    ensures n < 0 ==> r == "-" + NatDigits(-n)
  {
    if n < 0 then "-" + NatDigits(-n) else NatDigits(n)
  }

  /** The text `convertTime` returns: hours, "h", minutes, "m", seconds, "s", without padding. */
  function ConvertTime(seconds: int): (r: string)
    ensures var c := TimeParts(seconds);
            r == IntString(c.h) + "h" + IntString(c.m) + "m" + IntString(c.s) + "s"
    ensures seconds >= 0 ==> forall k | 0 <= k < |r| :: r[k] != '-'
  {
    ClockText(TimeParts(seconds))
  }

  function ClockText(c: Clock): string
  {
    IntString(c.h) + (['h'] + (IntString(c.m) + (['m'] + (IntString(c.s) + ['s']))))
  }

  /** The longest run of digits at the front of `s`, and what follows it. */
  function TakeDigits(s: string): (string, string)
  {
    if |s| > 0 && IsDigit(s[0]) then
      var t := TakeDigits(s[1..]);
      ([s[0]] + t.0, t.1)
    else ([], s)
  }

  /** The run and the rest make up the string again; the run is all digits and the rest does not
      start with one. */
  lemma {:induction false} TakeDigitsSplits(s: string)
    ensures var r := TakeDigits(s); r.0 + r.1 == s
    ensures var r := TakeDigits(s); forall k | 0 <= k < |r.0| :: IsDigit(r.0[k])
    ensures var r := TakeDigits(s); |r.1| > 0 ==> !IsDigit(r.1[0])
    decreases |s|
  {
    if |s| > 0 && IsDigit(s[0]) {
      TakeDigitsSplits(s[1..]);
      var t := TakeDigits(s[1..]);
      assert [s[0]] + t.0 + t.1 == [s[0]] + (t.0 + t.1);
      assert s == [s[0]] + s[1..];
    }
  }

  /** One number of the clock text: the value of its digits, and what follows its unit letter. */
  function ParseUnit(t: string, unit: char): Option<(int, string)>
  {
    var r := TakeDigits(t);
    if |r.0| == 0 || |r.1| == 0 || r.1[0] != unit then None
    else Some((DigitsValue(r.0), r.1[1..]))
  }

  /** Reading a duration back from the text `ConvertTime` writes for a non-negative input. */
  function ParseTime(t: string): Option<int>
  {
    var h := ParseUnit(t, 'h');
    if h.None? then None else
    var m := ParseUnit(h.value.1, 'm');
    if m.None? then None else
    var s := ParseUnit(m.value.1, 's');
    if s.None? || s.value.1 != [] then None
    else Some(h.value.0 * 3600 + m.value.0 * 60 + s.value.0)
  }

  /** Digits followed by a non-digit split exactly at the boundary. */
  lemma {:induction false} TakeDigitsOf(d: string, rest: string)
    requires forall k | 0 <= k < |d| :: IsDigit(d[k])
    requires |rest| > 0 && !IsDigit(rest[0])
    ensures TakeDigits(d + rest) == (d, rest)
    decreases |d|
  {
    if |d| > 0 {
      assert IsDigit((d + rest)[0]);
      assert (d + rest)[1..] == d[1..] + rest;
      TakeDigitsOf(d[1..], rest);
      assert [d[0]] + d[1..] == d;
    } else {
      assert d + rest == rest;
    }
  }

  /** A run of digits followed by its unit letter reads back as the run's value. */
  lemma {:induction false} ParseUnitOf(d: string, unit: char, rest: string)
    requires 0 < |d| && forall k | 0 <= k < |d| :: IsDigit(d[k])
    requires !IsDigit(unit)
    ensures ParseUnit(d + ([unit] + rest), unit) == Some((DigitsValue(d), rest))
  {
    TakeDigitsOf(d, [unit] + rest);
    assert ([unit] + rest)[1..] == rest;
  }

  /** The last number of the clock text, with nothing after its unit letter. */
  lemma {:induction false} ParseLastUnit(d: string, unit: char)
    requires 0 < |d| && forall k | 0 <= k < |d| :: IsDigit(d[k])
    requires !IsDigit(unit)
    ensures ParseUnit(d + [unit], unit) == Some((DigitsValue(d), []))
  {
    var none: string := [];
    ParseUnitOf(d, unit, none);
    assert d + [unit] == d + ([unit] + none);
  }

  /** A clock text of digit runs reads back as the duration the runs add up to. */
  lemma {:induction false} ParseClockText(hd: string, md: string, sd: string, t: string)
    requires 0 < |hd| && forall k | 0 <= k < |hd| :: IsDigit(hd[k])
    requires 0 < |md| && forall k | 0 <= k < |md| :: IsDigit(md[k])
    requires 0 < |sd| && forall k | 0 <= k < |sd| :: IsDigit(sd[k])
    requires t == hd + (['h'] + (md + (['m'] + (sd + ['s']))))
    ensures ParseTime(t) == Some(DigitsValue(hd) * 3600 + DigitsValue(md) * 60 + DigitsValue(sd))
  {
    var r1, r2 := md + (['m'] + (sd + ['s'])), sd + ['s'];
    ParseUnitOf(hd, 'h', r1);
    ParseUnitOf(md, 'm', r2);
    ParseLastUnit(sd, 's');
    ParseTimeOf(t, r1, r2, DigitsValue(hd), DigitsValue(md), DigitsValue(sd));
  }

  /** The clock text parses unit by unit. */
  lemma {:induction false} ParseTimeOf(t: string, r1: string, r2: string, h: int, m: int, s: int)
    requires ParseUnit(t, 'h') == Some((h, r1))
    requires ParseUnit(r1, 'm') == Some((m, r2))
    requires ParseUnit(r2, 's') == Some((s, []))
    ensures ParseTime(t) == Some(h * 3600 + m * 60 + s)
  {
  }

  /** A clock of non-negative parts reads back from its text. */
  lemma {:induction false} ClockRoundTrip(c: Clock)
    requires c.h >= 0 && c.m >= 0 && c.s >= 0
    ensures ParseTime(ClockText(c)) == Some(c.h * 3600 + c.m * 60 + c.s)
  {
    ParseClockText(NatDigits(c.h), NatDigits(c.m), NatDigits(c.s), ClockText(c));
    DigitsRoundTrip(c.h);
    DigitsRoundTrip(c.m);
    DigitsRoundTrip(c.s);
  }

  /** `convertTime`'s text of a non-negative duration reads back as that duration. */
  lemma {:induction false} ConvertTimeRoundTrip(seconds: int)
    requires seconds >= 0
    ensures ParseTime(ConvertTime(seconds)) == Some(seconds)
  {
    TimePartsOfDuration(seconds);
    ClockRoundTrip(TimeParts(seconds));
  }
}
