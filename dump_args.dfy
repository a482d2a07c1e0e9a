/** The argument loop of dump: the flags it sets and how it reads `--since` and `--prefix`. */
module DumpArgs {
  import opened CString
  import opened Decimal
  import opened MetricsItem

  /** isspace in the C locale. */
  predicate IsSpace(c: char)
  {
    c == ' ' || c == '\t' || c == '\n' || c == '\U{B}' || c == '\U{C}' || c == '\r'
  }

  /** The leading white space strtoll skips. */
  function DropSpaces(s: string): (t: string)
    ensures |t| <= |s|
    ensures t == [] || !IsSpace(t[0])
    ensures s != [] && !IsSpace(s[0]) ==> t == s
    decreases |s|
  {
    if s != [] && IsSpace(s[0]) then DropSpaces(s[1..]) else s
  }

  function ClampInt64(v: int): (r: int)
    ensures MinInt64 <= r <= MaxInt64
    ensures MinInt64 <= v <= MaxInt64 ==> r == v
    ensures v > MaxInt64 ==> r == MaxInt64
    ensures v < MinInt64 ==> r == MinInt64
  {
    if v > MaxInt64 then MaxInt64 else if v < MinInt64 then MinInt64 else v
  }

  /** Text strtoll reads to its end: an optional sign and then one or more digits. */
  predicate Numeral(t: string)
  {
    (t != [] && AllDigits(t))
    || (|t| > 1 && (t[0] == '-' || t[0] == '+') && AllDigits(t[1..]))
  }

  /** strtoll(p, &endp, 10) as dump uses it: a value only when some digits were read and
      they run to the end of the C string (endp != p and *endp == '\0'). Out-of-range
      numerals saturate, as strtoll does. */
  function StrToLL(s: string): (r: Option<int>)
    ensures r.Some? ==> MinInt64 <= r.value <= MaxInt64
  {
    var t := DropSpaces(CStr(s));
    var signed := t != [] && (t[0] == '-' || t[0] == '+');
    var body := if signed then t[1..] else t;
    if body != [] && AllDigits(body) then
      Some(ClampInt64(if signed && t[0] == '-' then -(DigitsValue(body) as int) else DigitsValue(body)))
    else
      None
  }

  /** strtoll yields a value exactly for the text that, after its leading blanks and up to
      its first NUL, is a numeral: endp moved and stopped at the end. */
  lemma StrToLLReadsNumerals(s: string)
    ensures StrToLL(s).Some? <==> Numeral(DropSpaces(CStr(s)))
  {
  }

  /** `--since X`: 0 (no bound) for unreadable text or 0; X < 0 is relative to now; X > 0 is
      seconds since the Unix epoch. Signed overflow of the product is not modelled. */
  function ParseSince(value: string, now: int): (sinceNs: int)
    ensures sinceNs != 0 ==> Numeral(DropSpaces(CStr(value)))
  {
    StrToLLReadsNumerals(value);
    match StrToLL(value)
    case None => 0
    case Some(sec) =>
      if sec == 0 then 0
      else if sec < 0 then now + sec * NanosPerSecond
      else sec * NanosPerSecond
  }

  /** The value strtoll reads from a numeral after its leading blanks and before its first
      NUL: the digits' value, negated after a minus sign, saturated to int64. */
  lemma StrToLLValue(s: string)
    requires Numeral(DropSpaces(CStr(s)))
    ensures var t := DropSpaces(CStr(s));
      var d := if t[0] == '-' || t[0] == '+' then t[1..] else t;
      AllDigits(d)
      && StrToLL(s) == Some(ClampInt64(if t[0] == '-' then -(DigitsValue(d) as int) else DigitsValue(d)))
  {
  }

  /** A numeral, bare or after a minus sign, is left alone by c_str() and by the blank skipping. */
  lemma NumeralText(d: string)
    requires d != [] && AllDigits(d)
    ensures CStr(d) == d && DropSpaces(d) == d
    ensures CStr("-" + d) == "-" + d && DropSpaces("-" + d) == "-" + d
  {
  }

  /** strtoll reads a plain numeral, with or without a minus sign, saturating past the int64 range. */
  lemma StrToLLOfDigits(d: string)
    requires d != [] && AllDigits(d)
    ensures StrToLL(d) == Some(ClampInt64(DigitsValue(d)))
    ensures StrToLL("-" + d) == Some(ClampInt64(-(DigitsValue(d) as int)))
  {
    NumeralText(d);
    assert ("-" + d)[1..] == d;
  }

  lemma StrToLLOfDecimal(n: nat)
    ensures StrToLL(NatToDecimal(n)) == Some(ClampInt64(n))
    ensures StrToLL("-" + NatToDecimal(n)) == Some(ClampInt64(-(n as int)))
  {
    DecimalRoundTrip(n);
    StrToLLOfDigits(NatToDecimal(n));
  }

  /** A numeral of seconds reads as that many seconds after the epoch, and with a minus sign
      as that many seconds before now; numerals past the int64 range saturate. */
  lemma SinceOfDecimal(n: nat, now: int)
    requires n > 0
    ensures ParseSince(NatToDecimal(n), now) == (if n > MaxInt64 then MaxInt64 else n) * NanosPerSecond
    ensures n <= MaxInt64 ==> ParseSince("-" + NatToDecimal(n), now) == now - n * NanosPerSecond
  {
    StrToLLOfDecimal(n);
  }

  /** Text that is not, after its leading blanks and up to its first NUL, a signed or
      unsigned run of digits is not read, and sets no bound. */
  lemma SinceOfNonNumeral(value: string, now: int)
    requires !Numeral(DropSpaces(CStr(value)))
    ensures StrToLL(value) == None && ParseSince(value, now) == 0
  {
    StrToLLReadsNumerals(value);
  }

  /** A numeral whose digits are all zeros, with or without a sign, sets no bound. */
  lemma SinceOfZero(value: string, now: int)
    requires var t := DropSpaces(CStr(value));
      Numeral(t) && forall k :: 0 <= k < |t| && IsDigit(t[k]) ==> t[k] == '0'
    ensures StrToLL(value) == Some(0) && ParseSince(value, now) == 0
  {
    var t := DropSpaces(CStr(value));
    var signed := t[0] == '-' || t[0] == '+';
    var body := if signed then t[1..] else t;
    assert AllDigits(body);
    forall k | 0 <= k < |body|
      ensures body[k] == '0'
    {
      if signed {
        assert body[k] == t[k + 1] && IsDigit(t[k + 1]);
      } else {
        assert IsDigit(t[k]);
      }
    }
    ZerosValue(body);
    assert StrToLL(value) == Some(ClampInt64(0));
  }

  /** strtoll stops at a trailing blank, so "60 " is not read. */
  lemma SinceOfTrailingBlank(now: int)
    ensures ParseSince("60 ", now) == 0
  {
    assert !IsDigit("60 "[2]);
    SinceOfNonNumeral("60 ", now);
  }

  /** strtoll stops at a sign among the digits and at a doubled sign. */
  lemma SinceOfMisplacedSign(now: int)
    ensures ParseSince("1-2", now) == 0 && ParseSince("--5", now) == 0
  {
    assert ParseSince("1-2", now) == 0 by {
      assert !IsDigit("1-2"[1]);
      SinceOfNonNumeral("1-2", now);
    }
    assert ParseSince("--5", now) == 0 by {
      assert !IsDigit("--5"[1]);
      SinceOfNonNumeral("--5", now);
    }
  }

  /** Texts with no digit to read: a sign alone, and no text at all. */
  lemma SinceOfEmptyExamples(now: int)
    ensures ParseSince("-", now) == 0 && ParseSince("+", now) == 0
    ensures ParseSince("", now) == 0
  {
    SinceOfNonNumeral("-", now);
    SinceOfNonNumeral("+", now);
    SinceOfNonNumeral("", now);
  }

  /** Zero written bare, with a minus sign, or with a plus sign and a leading zero. */
  lemma SinceOfZeroExamples(now: int)
    ensures ParseSince("0", now) == 0 && ParseSince("-0", now) == 0 && ParseSince("+00", now) == 0
  {
    SinceOfZero("0", now);
    assert CStr("-0") == "-0" && DropSpaces("-0") == "-0";
    assert "-0"[1..] == "0";
    SinceOfZero("-0", now);
    assert CStr("+00") == "+00" && DropSpaces("+00") == "+00";
    assert "+00"[1..] == "00";
    SinceOfZero("+00", now);
  }

  /** Text holding anything besides blanks, signs and digits before its first NUL reads as 0. */
  lemma SinceOfBadText(value: string, now: int, k: nat)
    requires k < |CStr(value)|
    requires var c := CStr(value)[k]; !IsSpace(c) && c != '-' && c != '+' && !IsDigit(c)
    ensures ParseSince(value, now) == 0
  {
    var c := CStr(value);
    var t := DropSpaces(c);
    var off := |c| - |t|;
    DroppedAreSpaces(c);
    assert k >= off;
    assert t[k - off] == c[k];
    var signed := t != [] && (t[0] == '-' || t[0] == '+');
    var body := if signed then t[1..] else t;
    assert !(signed && k == off);
    var j := if signed then k - off - 1 else k - off;
    assert body[j] == c[k];
    assert !AllDigits(body);
  }

  /** DropSpaces removes white space from the front and keeps the rest as it is. */
  lemma {:induction false} DroppedAreSpaces(s: string)
    ensures DropSpaces(s) == s[|s| - |DropSpaces(s)|..]
    ensures forall k :: 0 <= k < |s| - |DropSpaces(s)| ==> IsSpace(s[k])
    decreases |s|
  {
    if s != [] && IsSpace(s[0]) {
      DroppedAreSpaces(s[1..]);
      assert forall k :: 1 <= k < |s| ==> s[k] == s[1..][k - 1];
      assert s[1..][|s[1..]| - |DropSpaces(s)|..] == s[|s| - |DropSpaces(s)|..];
    }
  }

  /** The options dump has read. */
  datatype DumpOptions = DumpOptions(
    all: bool, clear: bool, heap: bool, help: bool, unreachable: bool,
    sinceNs: int, prefix: string)

  const NoOptions: DumpOptions := DumpOptions(false, false, false, false, false, 0, "")

  /** The loop over dump's arguments, word by word. `--help` ends it; `--prefix` and `--since`
      take the next word as their value, and do nothing when there is none; unknown words are
      skipped. */
  function Parse(args: seq<string>, acc: DumpOptions, now: int): (r: DumpOptions)
    ensures acc.help ==> r.help
    ensures r.help ==> acc.help || "--help" in args
    decreases |args|
  {
    if args == [] then acc
    else if args[0] == "--all" then Parse(args[1..], acc.(all := true), now)
    else if args[0] == "--clear" then Parse(args[1..], acc.(clear := true), now)
    else if args[0] == "--heap" then Parse(args[1..], acc.(heap := true), now)
    else if args[0] == "--help" then acc.(help := true)
    else if args[0] == "--prefix" then
      if |args| > 1 then Parse(args[2..], acc.(prefix := CStr(args[1])), now) else acc
    else if args[0] == "--since" then
      if |args| > 1 then Parse(args[2..], acc.(sinceNs := ParseSince(args[1], now)), now) else acc
    else if args[0] == "--unreachable" then Parse(args[1..], acc.(unreachable := true), now)
    else Parse(args[1..], acc, now)
  }

  /** An argument list the loop reads to its end: no `--help`, no option left without its value. */
  predicate Closed(args: seq<string>)
    decreases |args|
  {
    if args == [] then true
    else if args[0] == "--help" then false
    else if args[0] == "--prefix" || args[0] == "--since" then |args| > 1 && Closed(args[2..])
    else Closed(args[1..])
  }

  /** Arguments are read left to right: a closed list hands its options on to what follows. */
  lemma {:induction false} ParseAppend(a: seq<string>, b: seq<string>, acc: DumpOptions, now: int)
    requires Closed(a)
    ensures Parse(a + b, acc, now) == Parse(b, Parse(a, acc, now), now)
    decreases |a|
  {
    if a == [] {
      assert a + b == b;
    } else {
      assert (a + b)[0] == a[0];
      if a[0] == "--prefix" || a[0] == "--since" {
        assert (a + b)[1] == a[1] && (a + b)[2..] == a[2..] + b;
        ParseAppend(a[2..], b, if a[0] == "--prefix" then acc.(prefix := CStr(a[1]))
                                else acc.(sinceNs := ParseSince(a[1], now)), now);
      } else {
        assert (a + b)[1..] == a[1..] + b;
        var next := if a[0] == "--all" then acc.(all := true)
                    else if a[0] == "--clear" then acc.(clear := true)
                    else if a[0] == "--heap" then acc.(heap := true)
                    else if a[0] == "--unreachable" then acc.(unreachable := true)
                    else acc;
        ParseAppend(a[1..], b, next, now);
      }
    }
  }

  /** The last `--since` and `--prefix` win. */
  lemma LastValueWins(a: seq<string>, v: string, acc: DumpOptions, now: int)
    requires Closed(a)
    ensures Parse(a + ["--since", v], acc, now).sinceNs == ParseSince(v, now)
    ensures Parse(a + ["--prefix", v], acc, now).prefix == CStr(v)
  {
    ParseAppend(a, ["--since", v], acc, now);
    ParseAppend(a, ["--prefix", v], acc, now);
  }

  /** `--help` stops the loop: nothing after it is read. */
  lemma HelpStops(a: seq<string>, b: seq<string>, acc: DumpOptions, now: int)
    requires Closed(a)
    ensures Parse(a + ["--help"] + b, acc, now) == Parse(a, acc, now).(help := true)
  {
    assert a + ["--help"] + b == a + (["--help"] + b);
    ParseAppend(a, ["--help"] + b, acc, now);
  }

  /** A flag once set is never cleared by later arguments. */
  lemma {:induction false} FlagsStay(args: seq<string>, acc: DumpOptions, now: int)
    ensures acc.clear ==> Parse(args, acc, now).clear
    ensures acc.all ==> Parse(args, acc, now).all
    ensures acc.heap ==> Parse(args, acc, now).heap
    ensures acc.unreachable ==> Parse(args, acc, now).unreachable
    decreases |args|
  {
    if args != [] && args[0] != "--help" {
      if args[0] == "--prefix" || args[0] == "--since" {
        if |args| > 1 {
          FlagsStay(args[2..], if args[0] == "--prefix" then acc.(prefix := CStr(args[1]))
                               else acc.(sinceNs := ParseSince(args[1], now)), now);
        }
      } else {
        var next := if args[0] == "--all" then acc.(all := true)
                    else if args[0] == "--clear" then acc.(clear := true)
                    else if args[0] == "--heap" then acc.(heap := true)
                    else if args[0] == "--unreachable" then acc.(unreachable := true)
                    else acc;
        FlagsStay(args[1..], next, now);
      }
    }
  }

  /** Parse seen from position `i` of the argument list. */
  lemma ParseAt(args: seq<string>, i: nat, acc: DumpOptions, now: int)
    requires i < |args|
    ensures var a := args[i];
      Parse(args[i..], acc, now) ==
        if a == "--all" then Parse(args[i + 1..], acc.(all := true), now)
        else if a == "--clear" then Parse(args[i + 1..], acc.(clear := true), now)
        else if a == "--heap" then Parse(args[i + 1..], acc.(heap := true), now)
        else if a == "--help" then acc.(help := true)
        else if a == "--prefix" then
          (if i + 1 < |args| then Parse(args[i + 2..], acc.(prefix := CStr(args[i + 1])), now) else acc)
        else if a == "--since" then
          (if i + 1 < |args| then Parse(args[i + 2..], acc.(sinceNs := ParseSince(args[i + 1], now)), now) else acc)
        else if a == "--unreachable" then Parse(args[i + 1..], acc.(unreachable := true), now)
        else Parse(args[i + 1..], acc, now)
  {
  }

  /** dump's argument loop. */
  method ParseDumpArgs(args: seq<string>, now: int) returns (opts: DumpOptions)
    ensures opts == Parse(args, NoOptions, now)
  {
    opts := NoOptions;
    ghost var goal := Parse(args, NoOptions, now);
    var n := |args|;
    var i := 0;
    while i < n
      invariant 0 <= i <= n + 1
      invariant i <= n ==> Parse(args[i..], opts, now) == goal
      invariant i > n ==> opts == goal
      decreases n + 1 - i
    {
      ParseAt(args, i, opts, now);
      if args[i] == "--all" {
        opts := opts.(all := true);
      } else if args[i] == "--clear" {
        opts := opts.(clear := true);
      } else if args[i] == "--heap" {
        opts := opts.(heap := true);
      } else if args[i] == "--help" {
        opts := opts.(help := true);
        return;
      } else if args[i] == "--prefix" {
        i := i + 1;
        if i < n {
          opts := opts.(prefix := CStr(args[i]));
        }
      } else if args[i] == "--since" {
        i := i + 1;
        if i < n {
          opts := opts.(sinceNs := ParseSince(args[i], now));
        }
      } else if args[i] == "--unreachable" {
        opts := opts.(unreachable := true);
      }
      i := i + 1;
    }
    if i == n {
      assert args[i..] == [];
    }
  }
}
