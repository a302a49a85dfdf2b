/** The command-line helpers of the matrix-multiply host program:
    stringRemoveDelimiter, checkCmdLineFlag and getCmdLineArgumentInt.
    A C string is the sequence of its bytes before the terminating NUL,
    each byte written as the char of the same code (below 256), so a
    multi-byte UTF-8 character is several chars here as it is several
    bytes to strlen; reading one position past the end yields that NUL. The C library
    routines the helpers call (strlen, strchr, strncasecmp, atoi) are given
    as functions with their C-locale meaning. */
module CmdLine {
  import opened Options

  const Nul: char := '\0'

  /** One byte of a C string, as the char of the same code. */
  predicate IsByte(ch: char)
  {
    ch as int < 256
  }

  /** A NUL-terminated byte string, without its terminator. */
  type CStr = s: seq<char> | Nul !in s && forall k :: 0 <= k < |s| ==> IsByte(s[k])

  /** The character at position k, the terminator at or past the end. */
  function At(s: seq<char>, k: nat): char
  {
    if k < |s| then s[k] else Nul
  }

  /** tolower in the C locale. */
  function Lower(ch: char): char
  {
    if 'A' <= ch <= 'Z' then (ch as int + 32) as char else ch
  }

  /** strncasecmp(x, y, n) == 0: the first n characters agree up to case,
      where the comparison stops early at a terminator both strings share. */
  predicate NoCaseEqual(x: seq<char>, y: seq<char>, n: nat)
  {
    forall k :: 0 <= k < n ==> Lower(At(x, k)) == Lower(At(y, k))
  }

  /** Only the terminator lowers to the terminator. */
  lemma LowerNul(ch: char)
    ensures Lower(ch) == Nul <==> ch == Nul
  {
  }

  /** Against a string of n characters, strncasecmp over n characters is a
      case-insensitive prefix test. */
  lemma {:induction false} NoCasePrefix(x: CStr, y: CStr, n: nat)
    requires n == |y|
    ensures NoCaseEqual(x, y, n) <==> n <= |x| && forall k :: 0 <= k < n ==> Lower(x[k]) == Lower(y[k])
  {
    if |x| < n {
      LowerNul(y[|x|]);
      assert Lower(At(x, |x|)) != Lower(At(y, |x|));
    } else {
      assert forall k :: 0 <= k < n ==> At(x, k) == x[k] && At(y, k) == y[k];
    }
  }

  /** The length of the run of delimiters at the start of s. */
  function LeadingRun(delimiter: char, s: seq<char>): (n: nat)
    ensures n <= |s|
    ensures forall k :: 0 <= k < n ==> s[k] == delimiter
    ensures n < |s| ==> s[n] != delimiter
  {
    if |s| == 0 || s[0] != delimiter then 0 else 1 + LeadingRun(delimiter, s[1..])
  }

  /** What stringRemoveDelimiter returns: the length of the leading run of
      delimiters, or 0 when that run reaches the last character. */
  function Stripped(delimiter: char, s: seq<char>): (start: nat)
  {
    var run := LeadingRun(delimiter, s);
    if run >= |s| - 1 then 0 else run
  }

  /** The result is 0 or the length of a leading run of delimiters that
      stops before the last character, followed by a non-delimiter. */
  lemma StrippedBounds(delimiter: char, s: seq<char>)
    ensures var start := Stripped(delimiter, s);
      (start == 0 || start < |s| - 1)
      && (forall k :: 0 <= k < start ==> s[k] == delimiter)
      && (start > 0 ==> s[start] != delimiter)
  {
  }

  /** stringRemoveDelimiter: skips the leading delimiters by advancing a
      counter. The counter stops at the terminator at the latest, since the
      delimiter is not NUL. */
  method StringRemoveDelimiter(delimiter: char, s: CStr) returns (start: nat)
    requires delimiter != Nul
    ensures start == Stripped(delimiter, s)
  {
    var stringStart := 0;
    while At(s, stringStart) == delimiter
      invariant stringStart <= |s|
      invariant forall k :: 0 <= k < stringStart ==> s[k] == delimiter
      decreases |s| - stringStart
    {
      stringStart := stringStart + 1;
    }
    if stringStart >= |s| - 1 {
      return 0;
    }
    return stringStart;
  }

  /** A short flag never loses its dash: with one byte after any
      number of dashes, the run reaches the last character and nothing is
      stripped. */
  lemma ShortFlagKeepsDash(dashes: nat, ch: char)
    requires IsByte(ch) && ch != '-'
    ensures Stripped('-', seq(dashes, _ => '-') + [ch]) == 0
  {
    var s := seq(dashes, _ => '-') + [ch];
    assert s[dashes] == ch;
    assert forall k :: 0 <= k < dashes ==> s[k] == '-';
  }

  /** A run of dashes before a longer name is stripped in full. */
  lemma DashesStripped(dashes: nat, name: seq<char>)
    requires |name| >= 2 && name[0] != '-'
    ensures Stripped('-', seq(dashes, _ => '-') + name) == dashes
  {
    var s := seq(dashes, _ => '-') + name;
    assert s[dashes] == name[0];
    assert forall k :: 0 <= k < dashes ==> s[k] == '-';
  }

  /** strchr(s, c) - s when c occurs, strlen(s) otherwise: the position of
      the first c. */
  function FirstIndex(s: seq<char>, c: char): (r: nat)
    ensures r <= |s|
    ensures forall k :: 0 <= k < r ==> s[k] != c
    ensures r < |s| ==> s[r] == c
  {
    if |s| == 0 || s[0] == c then 0 else 1 + FirstIndex(s[1..], c)
  }

  /** An argument after stringRemoveDelimiter('-', ...). */
  function Argument(a: seq<char>): seq<char>
  {
    var start := Stripped('-', a);
    StrippedBounds('-', a);
    a[start..]
  }

  /** The test checkCmdLineFlag applies to one argument: its name, the text
      before the first '=', has the length of ref and equals ref up to
      case. */
  predicate FlagMatches(a: seq<char>, ref: seq<char>)
  {
    var arg := Argument(a);
    FirstIndex(arg, '=') == |ref| && NoCaseEqual(arg, ref, |ref|)
  }

  /** What checkCmdLineFlag answers: some argument after the program name
      passes the test. */
  predicate FlagSet(argv: seq<CStr>, ref: seq<char>)
  {
    exists k :: 1 <= k < |argv| && FlagMatches(argv[k], ref)
  }

  /** checkCmdLineFlag: scans argv[1 ..] and remembers whether any argument
      names the flag. */
  method CheckCmdLineFlag(argv: seq<CStr>, ref: CStr) returns (found: bool)
    ensures found == FlagSet(argv, ref)
  {
    found := false;
    if |argv| >= 1 {
      var i := 1;
      while i < |argv|
        invariant 1 <= i <= |argv|
        invariant found <==> exists k :: 1 <= k < i && FlagMatches(argv[k], ref)
      {
        var start := StringRemoveDelimiter('-', argv[i]);
        StrippedBounds('-', argv[i]);
        var arg := argv[i][start..];
        var argLength := FirstIndex(arg, '=');
        var length := |ref|;
        if length == argLength && NoCaseEqual(arg, ref, length) {
          found := true;
        }
        i := i + 1;
      }
    }
  }

  /** A name of the arguments: at least two characters, not starting with
      a dash, without '='. */
  predicate LongName(ref: seq<char>)
  {
    |ref| >= 2 && ref[0] != '-' && '=' !in ref
  }

  /** The flag's name matches itself after any number of dashes, and with
      a value after '='. */
  lemma FlagNamed(ref: CStr, dashes: nat, tail: seq<char>)
    requires LongName(ref)
    requires tail == [] || tail[0] == '='
    ensures FlagMatches(seq(dashes, _ => '-') + ref + tail, ref)
  {
    var a := seq(dashes, _ => '-') + ref + tail;
    DashesStripped(dashes, ref + tail);
    assert seq(dashes, _ => '-') + (ref + tail) == a;
    var arg := Argument(a);
    assert arg == ref + tail;
    assert forall k :: 0 <= k < |ref| ==> arg[k] == ref[k];
    assert |ref| < |arg| ==> arg[|ref|] == '=';
  }

  /** The test ignores case: names that agree up to case match the same
      arguments. */
  lemma FlagIgnoresCase(a: seq<char>, ref: seq<char>, other: seq<char>)
    requires |other| == |ref| && forall k :: 0 <= k < |ref| ==> Lower(other[k]) == Lower(ref[k])
    ensures FlagMatches(a, ref) <==> FlagMatches(a, other)
  {
    var arg := Argument(a);
    assert forall k :: 0 <= k < |ref| ==> Lower(At(ref, k)) == Lower(At(other, k));
  }

  /** The program name argv[0] is never examined. */
  lemma FlagSkipsProgramName(p: CStr, p2: CStr, rest: seq<CStr>, ref: seq<char>)
    ensures FlagSet([p] + rest, ref) == FlagSet([p2] + rest, ref)
  {
    var a, b := [p] + rest, [p2] + rest;
    assert forall k :: 1 <= k < |a| ==> a[k] == b[k];
  }

  /** A one-byte flag written with dashes is never recognised: after
      "-?" the name is "-?", not "?". */
  lemma ShortFlagMissed(dashes: nat, ch: char)
    requires IsByte(ch) && ch != '-' && ch != '='
    ensures !FlagMatches(seq(dashes, _ => '-') + [ch], [ch]) || dashes == 0
  {
    var a := seq(dashes, _ => '-') + [ch];
    ShortFlagKeepsDash(dashes, ch);
    if dashes > 0 {
      assert Argument(a) == a && At(a, 0) == '-';
      assert Lower(At(a, 0)) != Lower(At([ch], 0));
    }
  }

  /** A name of one non-ASCII character is several bytes, so its dash is
      stripped: "-é" in UTF-8 (2D C3 A9) names the flag "é" (C3 A9). */
  lemma Utf8NameStripped()
    ensures Stripped('-', ['-', '\U{00C3}', '\U{00A9}']) == 1
    ensures FlagMatches(['-', '\U{00C3}', '\U{00A9}'], ['\U{00C3}', '\U{00A9}'])
  {
    FlagNamed(['\U{00C3}', '\U{00A9}'], 1, []);
    assert seq(1, _ => '-') + ['\U{00C3}', '\U{00A9}'] + [] == ['-', '\U{00C3}', '\U{00A9}'];
  }

  /** isspace in the C locale. */
  predicate IsSpace(ch: char)
  {
    ch == ' ' || ch == '\t' || ch == '\n' || ch == '\U{000B}' || ch == '\U{000C}' || ch == '\r'
  }

  predicate IsDigit(ch: char)
  {
    '0' <= ch <= '9'
  }

  /** Length of the leading run of characters satisfying the test. */
  function SpaceRun(s: seq<char>): (n: nat)
    ensures n <= |s|
    ensures forall k :: 0 <= k < n ==> IsSpace(s[k])
    ensures n < |s| ==> !IsSpace(s[n])
  {
    if |s| == 0 || !IsSpace(s[0]) then 0 else 1 + SpaceRun(s[1..])
  }

  function DigitRun(s: seq<char>): (n: nat)
    ensures n <= |s|
    ensures forall k :: 0 <= k < n ==> IsDigit(s[k])
    ensures n < |s| ==> !IsDigit(s[n])
  {
    if |s| == 0 || !IsDigit(s[0]) then 0 else 1 + DigitRun(s[1..])
  }

  /** The value of a string of decimal digits, read left to right. */
  function DecimalValue(d: seq<char>): int
  {
    if |d| == 0 then 0 else 10 * DecimalValue(d[..|d| - 1]) + (d[|d| - 1] as int - '0' as int)
  }

  /** atoi: leading white space, an optional sign, then the longest run of
      digits; no digits give 0. */
  function Atoi(s: seq<char>): int
  {
    var t := s[SpaceRun(s)..];
    if |t| > 0 && (t[0] == '-' || t[0] == '+') then
      var u := t[1..];
      var v := DecimalValue(u[..DigitRun(u)]);
      if t[0] == '-' then -v else v
    else DecimalValue(t[..DigitRun(t)])
  }

  /** The decimal rendering of n, without leading zeros. */
  function Decimal(n: nat): (d: seq<char>)
    ensures |d| > 0 && forall k :: 0 <= k < |d| ==> IsDigit(d[k])
  {
    var last := ['0' + (n % 10) as char];
    if n < 10 then last else Decimal(n / 10) + last
  }

  /** Reading back a decimal rendering gives the number. */
  lemma {:induction false} DecimalValueOf(n: nat)
    ensures DecimalValue(Decimal(n)) == n
  {
    var d := Decimal(n);
    if n >= 10 {
      DecimalValueOf(n / 10);
      assert d[..|d| - 1] == Decimal(n / 10);
    }
  }

  /** atoi reads back what a decimal rendering writes, with its sign. */
  lemma AtoiDecimal(n: nat)
    ensures Atoi(Decimal(n)) == n
    ensures Atoi(['-'] + Decimal(n)) == -(n as int)
  {
    DecimalValueOf(n);
    AtoiDigits(Decimal(n));
    AtoiNegative(Decimal(n));
  }

  /** A non-empty run of digits reads as its decimal value. */
  lemma AtoiDigits(d: seq<char>)
    requires |d| > 0 && forall k :: 0 <= k < |d| ==> IsDigit(d[k])
    ensures Atoi(d) == DecimalValue(d)
  {
    assert SpaceRun(d) == 0 && d[0..] == d;
    assert DigitRun(d) == |d| && d[..|d|] == d;
  }

  /** A minus sign before a run of digits negates its value. */
  lemma AtoiNegative(d: seq<char>)
    requires |d| > 0 && forall k :: 0 <= k < |d| ==> IsDigit(d[k])
    ensures Atoi(['-'] + d) == -DecimalValue(d)
  {
    var m := ['-'] + d;
    assert SpaceRun(m) == 0 && m[0..] == m && m[1..] == d;
    assert DigitRun(d) == |d| && d[..|d|] == d;
  }

  /** The test getCmdLineArgumentInt applies to one argument: it starts
      with ref, up to case. Unlike the flag test this is a prefix test. */
  predicate ArgMatches(a: seq<char>, ref: seq<char>)
  {
    NoCaseEqual(Argument(a), ref, |ref|)
  }

  /** The value getCmdLineArgumentInt reads from a matching argument: 0
      when the argument is the name alone, otherwise atoi of the text after
      the name, past one '=' when there is one. */
  function ArgValue(a: seq<char>, ref: seq<char>): int
  {
    var arg := Argument(a);
    var length := |ref|;
    if length + 1 <= |arg| then
      var autoInc := if arg[length] == '=' then 1 else 0;
      Atoi(arg[length + autoInc..])
    else 0
  }

  /** The value of the last of argv[1 .. n - 1] that matches, if any. */
  function LastArgument(argv: seq<CStr>, ref: seq<char>, n: nat): Option<int>
    requires n <= |argv|
  {
    if n <= 1 then None
    else if ArgMatches(argv[n - 1], ref) then Some(ArgValue(argv[n - 1], ref))
    else LastArgument(argv, ref, n - 1)
  }

  /** What getCmdLineArgumentInt answers: the value of the last matching
      argument, 0 when none matches. */
  function ArgumentInt(argv: seq<CStr>, ref: seq<char>): int
  {
    match LastArgument(argv, ref, |argv|)
    case None => 0
    case Some(v) => v
  }

  /** getCmdLineArgumentInt: scans argv[1 ..], and every matching argument
      overwrites the value found so far. */
  method GetCmdLineArgumentInt(argv: seq<CStr>, ref: CStr) returns (result: int)
    ensures result == ArgumentInt(argv, ref)
  {
    var found := false;
    var value := -1;
    if |argv| >= 1 {
      var i := 1;
      while i < |argv|
        invariant 1 <= i <= |argv|
        invariant found <==> LastArgument(argv, ref, i).Some?
        invariant found ==> value == LastArgument(argv, ref, i).value
      {
        LastArgumentStep(argv, ref, i);
        var matches, v := ScanArgument(argv[i], ref);
        if matches {
          value := v;
          found := true;
        }
        i := i + 1;
      }
    }
    if found {
      return value;
    } else {
      return 0;
    }
  }

  /** The body of the getCmdLineArgumentInt loop for one argument: whether
      it starts with ref, and then the value it gives. */
  method ScanArgument(a: CStr, ref: CStr) returns (matches: bool, value: int)
    ensures matches == ArgMatches(a, ref)
    ensures matches ==> value == ArgValue(a, ref)
  {
    var start := StringRemoveDelimiter('-', a);
    StrippedBounds('-', a);
    var arg := a[start..];
    var length := |ref|;
    matches := NoCaseEqual(arg, ref, length);
    value := 0;
    if matches {
      if length + 1 <= |arg| {
        var autoInc := if arg[length] == '=' then 1 else 0;
        value := Atoi(arg[length + autoInc..]);
      } else {
        value := 0;
      }
    }
  }

  /** One more argument: it decides the answer when it matches. */
  lemma LastArgumentStep(argv: seq<CStr>, ref: seq<char>, i: nat)
    requires 1 <= i < |argv|
    ensures LastArgument(argv, ref, i + 1)
         == if ArgMatches(argv[i], ref) then Some(ArgValue(argv[i], ref)) else LastArgument(argv, ref, i)
  {
  }

  /** With no matching argument after the program name the answer is 0. */
  lemma {:induction false} NoArgumentIsZero(argv: seq<CStr>, ref: seq<char>, n: nat)
    requires n <= |argv| && forall k :: 1 <= k < n ==> !ArgMatches(argv[k], ref)
    ensures LastArgument(argv, ref, n) == None
  {
    if n > 1 {
      NoArgumentIsZero(argv, ref, n - 1);
    }
  }

  /** The last matching argument wins: appending a matching argument makes
      its value the answer, appending any other leaves the answer. */
  lemma LastArgumentWins(argv: seq<CStr>, a: CStr, ref: seq<char>)
    requires |argv| >= 1
    ensures ArgMatches(a, ref) ==> ArgumentInt(argv + [a], ref) == ArgValue(a, ref)
    ensures !ArgMatches(a, ref) ==> ArgumentInt(argv + [a], ref) == ArgumentInt(argv, ref)
  {
    var b := argv + [a];
    assert b[|b| - 1] == a;
    if !ArgMatches(a, ref) {
      LastArgumentPrefix(argv, b, ref, |argv|);
    }
  }

  /** LastArgument only looks at the first n arguments. */
  lemma {:induction false} LastArgumentPrefix(argv: seq<CStr>, longer: seq<CStr>, ref: seq<char>, n: nat)
    requires n <= |argv| <= |longer| && argv == longer[..|argv|]
    ensures LastArgument(longer, ref, n) == LastArgument(argv, ref, n)
  {
    if n > 1 {
      assert longer[n - 1] == argv[n - 1];
      LastArgumentPrefix(argv, longer, ref, n - 1);
    }
  }

  /** Reading back a number: after "-name=" the decimal rendering of n
      gives n, and after "-name=-" it gives -n. */
  lemma ArgumentReadsNumber(ref: CStr, n: nat)
    requires LongName(ref)
    ensures ArgValue(['-'] + ref + ['='] + Decimal(n), ref) == n
    ensures ArgValue(['-'] + ref + ['=', '-'] + Decimal(n), ref) == -(n as int)
  {
    AtoiDecimal(n);
    ValueAfterName(ref, Decimal(n));
    NegativeAfterName(ref, Decimal(n));
  }

  /** "-name=-" followed by v is "-name=" followed by "-" and v. */
  lemma NegativeAfterName(ref: seq<char>, d: seq<char>)
    requires LongName(ref)
    ensures ArgValue(['-'] + ref + ['=', '-'] + d, ref) == Atoi(['-'] + d)
  {
    assert ['-'] + ref + ['=', '-'] + d == ['-'] + ref + ['='] + (['-'] + d);
    ValueAfterName(ref, ['-'] + d);
  }

  /** After "-name=" the value is atoi of the rest. */
  lemma ValueAfterName(ref: seq<char>, v: seq<char>)
    requires LongName(ref) && v != []
    ensures ArgValue(['-'] + ref + ['='] + v, ref) == Atoi(v)
  {
    var a := ['-'] + ref + ['='] + v;
    DashesStripped(1, ref + ['='] + v);
    assert seq(1, _ => '-') + (ref + ['='] + v) == a;
    assert Argument(a) == ref + ['='] + v;
    assert (ref + ['='] + v)[|ref| + 1..] == v;
  }

  /** The name alone, "-name", gives 0. */
  lemma NameAloneIsZero(ref: seq<char>)
    requires LongName(ref)
    ensures ArgMatches(['-'] + ref, ref) && ArgValue(['-'] + ref, ref) == 0
  {
    DashesStripped(1, ref);
    assert seq(1, _ => '-') + ref == ['-'] + ref;
    assert Argument(['-'] + ref) == ref;
  }

  /** The test is by prefix: "-name" followed by anything matches name. */
  lemma PrefixMatches(ref: seq<char>, tail: seq<char>)
    requires LongName(ref)
    ensures ArgMatches(['-'] + ref + tail, ref)
  {
    var a := ['-'] + ref + tail;
    DashesStripped(1, ref + tail);
    assert seq(1, _ => '-') + (ref + tail) == a;
    assert Argument(a) == ref + tail;
  }
}
