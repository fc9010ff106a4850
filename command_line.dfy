/** The argument parser of the shredder's `main`: every argument that starts with '-' is
    a group of one-letter flags, every other argument names a path to shred.  The
    arguments here are argv[1..]; the program name is not among them. */
module CommandLine {

  import opened Wrappers

  /** The options the parser sets (the globals of shred.cpp:723-731). */
  datatype Config = Config(overwriteCount: int, recursive: bool, keepFiles: bool, verbose: bool,
                           followSymlinks: bool, secureMode: bool, dryRun: bool, verify: bool, internal: bool)

  /** The values the options start with: three passes, verification on, everything else off. */
  const Defaults: Config := Config(3, false, false, false, false, false, false, true, false)

  /** The flag letters the parser accepts (shred.cpp:735). */
  const ValidFlags: string := "nrkvfsdchi"

  /** The letters that only switch an option on (or, for 'c', verification off). */
  predicate IsSwitch(flag: char)
  {
    flag == 'r' || flag == 'k' || flag == 'v' || flag == 'f' || flag == 's' || flag == 'd' || flag == 'c' || flag == 'i'
  }

  predicate IsValidFlag(flag: char)
  {
    flag == 'n' || flag == 'h' || IsSwitch(flag)
  }

  /** The letters the parse accepts are exactly those of ValidFlags. */
  lemma ValidFlagLetters(flag: char)
    ensures IsValidFlag(flag) <==> flag in ValidFlags
  {
    if IsValidFlag(flag) {
      var k := if flag == 'n' then 0 else if flag == 'r' then 1 else if flag == 'k' then 2
               else if flag == 'v' then 3 else if flag == 'f' then 4 else if flag == 's' then 5
               else if flag == 'd' then 6 else if flag == 'c' then 7 else if flag == 'h' then 8 else 9;
      assert ValidFlags[k] == flag;
    }
  }

  /** The outcome of parsing: a run over a non-empty list of paths, an early exit with a
      status code, or termination by an exception std::stoi throws and nobody catches. */
  datatype Parsed = Run(config: Config, files: seq<string>) | Exit(code: int) | Aborted

  // ---------------------------------------------------------------------------
  // std::stoi

  const IntMin: int := -0x8000_0000
  const IntMax: int := 0x7FFF_FFFF

  /** The characters std::isspace accepts in the C locale. */
  predicate IsSpace(ch: char)
  {
    ch == ' ' || ch == '\t' || ch == '\n' || ch == '\U{B}' || ch == '\U{C}' || ch == '\r'
  }

  predicate IsDigit(ch: char)
  {
    '0' <= ch <= '9'
  }

  /** s without its leading white space. */
  function SkipSpaces(s: string): string
  {
    if s != [] && IsSpace(s[0]) then SkipSpaces(s[1..]) else s
  }

  /** What SkipSpaces leaves is a suffix of s that starts with no white space. */
  lemma {:induction false} SkipSpacesSuffix(s: string)
    ensures var t := SkipSpaces(s); |t| <= |s| && t == s[|s| - |t|..] && (t != [] ==> !IsSpace(t[0]))
  {
    if s != [] && IsSpace(s[0]) {
      SkipSpacesSuffix(s[1..]);
    }
  }

  /** The longest prefix of s made of decimal digits. */
  function DigitPrefix(s: string): (d: string)
    ensures forall k :: 0 <= k < |d| ==> IsDigit(d[k])
  {
    if s != [] && IsDigit(s[0]) then [s[0]] + DigitPrefix(s[1..]) else []
  }

  function DigitValue(ch: char): nat
    requires IsDigit(ch)
  {
    ch as int - '0' as int
  }

  /** The number a string of decimal digits denotes. */
  function DigitsValue(d: string): nat
    requires forall k :: 0 <= k < |d| ==> IsDigit(d[k])
  {
    if d == [] then 0 else DigitsValue(d[..|d| - 1]) * 10 + DigitValue(d[|d| - 1])
  }

  /** std::stoi: leading white space, an optional sign, then the longest run of decimal
      digits, of which there must be at least one; what follows is ignored.  None stands
      for the exception it throws: invalid_argument when there is no digit, out_of_range
      when the value does not fit an int. */
  function Stoi(s: string): Option<int>
  {
    SignedNumber(SkipSpaces(s))
  }

  function SignedNumber(t: string): Option<int>
  {
    if t != [] && t[0] == '-' then Magnitude(t[1..], true)
    else if t != [] && t[0] == '+' then Magnitude(t[1..], false)
    else Magnitude(t, false)
  }

  function Magnitude(body: string, negative: bool): Option<int>
  {
    var d := DigitPrefix(body);
    if d == [] then None
    else InRange(if negative then -(DigitsValue(d) as int) else DigitsValue(d))
  }

  /** The values an int holds; anything else is out_of_range. */
  function InRange(v: int): Option<int>
  {
    if IntMin <= v <= IntMax then Some(v) else None
  }

  /** The decimal spelling of n, without leading zeros. */
  function Decimal(n: nat): (s: string)
    ensures s != [] && forall k :: 0 <= k < |s| ==> IsDigit(s[k])
  {
    (if n < 10 then [] else Decimal(n / 10)) + [('0' as int + n % 10) as char]
  }

  lemma {:induction false} DecimalValue(n: nat)
    ensures DigitsValue(Decimal(n)) == n
  {
    var s := Decimal(n);
    assert s[..|s| - 1] == if n < 10 then [] else Decimal(n / 10);
    if n >= 10 {
      DecimalValue(n / 10);
    }
  }

  lemma {:induction false} DigitPrefixOf(d: string, rest: string)
    requires forall k :: 0 <= k < |d| ==> IsDigit(d[k])
    requires rest == [] || !IsDigit(rest[0])
    ensures DigitPrefix(d + rest) == d
    decreases |d|
  {
    if d != [] {
      assert (d + rest)[1..] == d[1..] + rest;
      DigitPrefixOf(d[1..], rest);
      assert [d[0]] + d[1..] == d;
    } else {
      assert d + rest == rest;
    }
  }

  /** std::stoi on a run of digits with something that is not a digit after it. */
  lemma StoiDigits(d: string, rest: string)
    requires d != [] && forall k :: 0 <= k < |d| ==> IsDigit(d[k])
    requires rest == [] || !IsDigit(rest[0])
    ensures Stoi(d + rest) == InRange(DigitsValue(d))
  {
    var t := d + rest;
    assert t[0] == d[0];
    assert SkipSpaces(t) == t;
    DigitPrefixOf(d, rest);
  }

  /** std::stoi on a minus sign and a run of digits. */
  lemma StoiNegative(d: string)
    requires d != [] && forall k :: 0 <= k < |d| ==> IsDigit(d[k])
    ensures Stoi("-" + d) == InRange(-(DigitsValue(d) as int))
  {
    var t := "-" + d;
    assert t[0] == '-' && t[1..] == d;
    assert SkipSpaces(t) == t;
    assert Stoi(t) == Magnitude(d, true);
    DigitPrefixOf(d, []);
    assert d + [] == d;
    MagnitudeOfDigits(d, true);
  }

  lemma MagnitudeOfDigits(d: string, negative: bool)
    requires d != [] && DigitPrefix(d) == d
    ensures Magnitude(d, negative) == InRange(if negative then -(DigitsValue(d) as int) else DigitsValue(d))
  {
  }

  /** std::stoi reads back the decimal spelling of any int: of a non-negative one, with
      anything that does not start with a digit after it, and of a negative one. */
  lemma StoiDecimal(n: nat, rest: string)
    requires rest == [] || !IsDigit(rest[0])
    ensures n <= IntMax ==> Stoi(Decimal(n) + rest) == Some(n)
    ensures n <= -IntMin ==> Stoi("-" + Decimal(n)) == Some(-(n as int))
  {
    var d := Decimal(n);
    DecimalValue(n);
    assert DigitsValue(d) == n;
    if n <= IntMax {
      StoiDigits(d, rest);
      assert InRange(n) == Some(n);
    }
    if n <= -IntMin {
      StoiNegative(d);
      assert InRange(-(n as int)) == Some(-(n as int));
    }
  }

  /** std::stoi fails on a string with no digit at all. */
  lemma StoiNeedsDigit(s: string)
    requires forall k :: 0 <= k < |s| ==> !IsDigit(s[k])
    ensures Stoi(s) == None
  {
    var t := SkipSpaces(s);
    SkipSpacesSuffix(s);
    var body := if t != [] && (t[0] == '-' || t[0] == '+') then t[1..] else t;
    if body != [] {
      assert body[0] == s[|s| - |body|];
    }
  }

  // ---------------------------------------------------------------------------
  // The parse, as a function of the arguments

  predicate IsFlagGroup(arg: string)
  {
    |arg| > 0 && arg[0] == '-'
  }

  /** The effect of one of the flags that only switch an option. */
  function SetFlag(c: Config, flag: char): Config
  {
    match flag
    case 'r' => c.(recursive := true)
    case 'k' => c.(keepFiles := true)
    case 'v' => c.(verbose := true)
    case 'f' => c.(followSymlinks := true)
    case 's' => c.(secureMode := true)
    case 'd' => c.(dryRun := true)
    case 'c' => c.(verify := false)
    case 'i' => c.(internal := true)
    case _ => c
  }

  /** Parsing from argument i on, with the options c and the paths `files` gathered so far. */
  function ParseFrom(args: seq<string>, i: nat, c: Config, files: seq<string>): Parsed
    requires i <= |args|
    decreases |args| - i, 1, 0
  {
    if i == |args| then
      if files == [] then Exit(1) else Run(c, files)
    else if IsFlagGroup(args[i]) then ParseFlags(args, i, 1, c, files)
    else ParseFrom(args, i + 1, c, files + [args[i]])
  }

  /** Parsing the flag group args[i] from its character j on. */
  function ParseFlags(args: seq<string>, i: nat, j: nat, c: Config, files: seq<string>): Parsed
    requires i < |args| && 1 <= j <= |args[i]|
    decreases |args| - i, 0, |args[i]| - j
  {
    var arg := args[i];
    if j == |arg| then ParseFrom(args, i + 1, c, files)
    else
      var flag := arg[j];
      if !IsValidFlag(flag) then Exit(1)
      else if flag == 'h' then Exit(2)
      else if flag == 'n' then
        if |arg| > j + 1 then
          match Stoi(arg[j + 1..])
          case None => Aborted
          case Some(v) => ParseFrom(args, i + 1, c.(overwriteCount := v), files)
        else if i + 1 < |args| then
          match Stoi(args[i + 1])
          case None => Aborted
          case Some(v) => ParseFrom(args, i + 2, c.(overwriteCount := v), files)
        else Exit(1)
      else ParseFlags(args, i, j + 1, SetFlag(c, flag), files)
  }

  function Parse(args: seq<string>): Parsed
  {
    ParseFrom(args, 0, Defaults, [])
  }

  // ---------------------------------------------------------------------------
  // The parse loop of main

  /** The loop of main over argv (shred.cpp:1079-1115): i walks the arguments, j the
      characters of a flag group; -n takes the rest of its group or the next argument. */
  method ParseCommandLine(args: seq<string>) returns (r: Parsed)
    ensures r == Parse(args)
  {
    var config := Defaults;
    var files: seq<string> := [];
    var i := 0;
    while i < |args|
      invariant i <= |args|
      invariant Parse(args) == ParseFrom(args, i, config, files)
      decreases |args| - i
    {
      var arg := args[i];
      if IsFlagGroup(arg) {
        ghost var first := i;
        var j := 1;
        while j < |arg|
          invariant 1 <= j <= |arg| && first <= i < |args| && i <= first + 1
          invariant arg == args[first]
          invariant j < |arg| ==> i == first && Parse(args) == ParseFlags(args, first, j, config, files)
          invariant j == |arg| ==> Parse(args) == ParseFrom(args, i + 1, config, files)
          decreases |arg| - j
        {
          var flag := arg[j];
          if !IsValidFlag(flag) {
            return Exit(1);
          }
          if flag == 'h' {
            return Exit(2);
          } else if flag == 'n' {
            if |arg| > j + 1 {
              var count := Stoi(arg[j + 1..]);
              if count.None? {
                return Aborted;
              }
              config := config.(overwriteCount := count.value);
            } else if i + 1 < |args| {
              i := i + 1;
              var count := Stoi(args[i]);
              if count.None? {
                return Aborted;
              }
              config := config.(overwriteCount := count.value);
            } else {
              return Exit(1);
            }
            j := |arg|;
          } else {
            config := SetFlag(config, flag);
            j := j + 1;
          }
        }
      } else {
        files := files + [arg];
      }
      i := i + 1;
    }
    if files == [] {
      return Exit(1);
    }
    return Run(config, files);
  }

  // ---------------------------------------------------------------------------
  // Properties of the parse

  /** -h exits with 2 and a letter outside ValidFlags with 1, wherever they occur in the
      flag group the parse has reached; -n with nothing after it exits with 1. */
  lemma FlagExits(args: seq<string>, i: nat, j: nat, c: Config, files: seq<string>)
    requires i < |args| && 1 <= j < |args[i]|
    ensures args[i][j] == 'h' ==> ParseFlags(args, i, j, c, files) == Exit(2)
    ensures !IsValidFlag(args[i][j]) ==> ParseFlags(args, i, j, c, files) == Exit(1)
    ensures args[i][j] == 'n' && j + 1 == |args[i]| && i + 1 == |args| ==> ParseFlags(args, i, j, c, files) == Exit(1)
  {
  }

  /** Arguments that are all paths parse to a run with the default options over exactly
      those paths, in order; no argument at all exits with 1. */
  lemma {:induction false} PlainArguments(args: seq<string>, i: nat, files: seq<string>)
    requires i <= |args|
    requires forall k :: i <= k < |args| ==> !IsFlagGroup(args[k])
    ensures ParseFrom(args, i, Defaults, files) ==
            if files + args[i..] == [] then Exit(1) else Run(Defaults, files + args[i..])
    decreases |args| - i
  {
    if i < |args| {
      PlainArguments(args, i + 1, files + [args[i]]);
      assert files + [args[i]] + args[i + 1..] == files + args[i..];
    } else {
      assert files + args[i..] == files;
    }
  }

  lemma ParseOfPaths(args: seq<string>)
    requires forall k :: 0 <= k < |args| ==> !IsFlagGroup(args[k])
    ensures Parse(args) == if args == [] then Exit(1) else Run(Defaults, args)
  {
    PlainArguments(args, 0, []);
    assert args[0..] == args;
  }

  /** A run always has at least one path, and each of them is an argument that is not a
      flag group. */
  lemma {:induction false} RunFilesFrom(args: seq<string>, i: nat, c: Config, files: seq<string>)
    requires i <= |args|
    requires forall f :: f in files ==> f in args && !IsFlagGroup(f)
    ensures var r := ParseFrom(args, i, c, files);
      r.Run? ==> r.files != [] && forall f :: f in r.files ==> f in args && !IsFlagGroup(f)
    decreases |args| - i, 1, 0
  {
    if i < |args| {
      if IsFlagGroup(args[i]) {
        RunFilesFlags(args, i, 1, c, files);
      } else {
        RunFilesFrom(args, i + 1, c, files + [args[i]]);
      }
    }
  }

  lemma {:induction false} RunFilesFlags(args: seq<string>, i: nat, j: nat, c: Config, files: seq<string>)
    requires i < |args| && 1 <= j <= |args[i]|
    requires forall f :: f in files ==> f in args && !IsFlagGroup(f)
    ensures var r := ParseFlags(args, i, j, c, files);
      r.Run? ==> r.files != [] && forall f :: f in r.files ==> f in args && !IsFlagGroup(f)
    decreases |args| - i, 0, |args[i]| - j
  {
    var arg := args[i];
    if j == |arg| {
      RunFilesFrom(args, i + 1, c, files);
    } else {
      var flag := arg[j];
      if IsValidFlag(flag) && flag != 'h' {
        if flag == 'n' {
          if |arg| > j + 1 {
            var count := Stoi(arg[j + 1..]);
            if count.Some? {
              RunFilesFrom(args, i + 1, c.(overwriteCount := count.value), files);
            }
          } else if i + 1 < |args| {
            var count := Stoi(args[i + 1]);
            if count.Some? {
              RunFilesFrom(args, i + 2, c.(overwriteCount := count.value), files);
            }
          }
        } else {
          RunFilesFlags(args, i, j + 1, SetFlag(c, flag), files);
        }
      }
    }
  }

  lemma RunFiles(args: seq<string>)
    ensures Parse(args).Run? ==>
      Parse(args).files != [] && forall f :: f in Parse(args).files ==> f in args && !IsFlagGroup(f)
  {
    RunFilesFrom(args, 0, Defaults, []);
  }

  /** What is parsed from argument i on depends only on the arguments from i on. */
  lemma {:induction false} FromSuffix(args: seq<string>, i: nat, c: Config, files: seq<string>)
    requires i <= |args|
    ensures ParseFrom(args, i, c, files) == ParseFrom(args[i..], 0, c, files)
    decreases |args| - i, 1, 0
  {
    var tail := args[i..];
    if i < |args| {
      assert tail[0] == args[i];
      if IsFlagGroup(args[i]) {
        FlagsSuffix(args, i, 1, c, files);
      } else {
        FromSuffix(args, i + 1, c, files + [args[i]]);
        FromSuffix(tail, 1, c, files + [args[i]]);
        assert tail[1..] == args[i + 1..];
      }
    }
  }

  lemma {:induction false} FlagsSuffix(args: seq<string>, i: nat, j: nat, c: Config, files: seq<string>)
    requires i < |args| && 1 <= j <= |args[i]|
    ensures ParseFlags(args, i, j, c, files) == ParseFlags(args[i..], 0, j, c, files)
    decreases |args| - i, 0, |args[i]| - j
  {
    var arg := args[i];
    var tail := args[i..];
    assert tail[0] == arg;
    if j == |arg| {
      FromSuffix(args, i + 1, c, files);
      FromSuffix(tail, 1, c, files);
      assert tail[1..] == args[i + 1..];
    } else {
      var flag := arg[j];
      if IsValidFlag(flag) && flag != 'h' {
        if flag == 'n' {
          if |arg| > j + 1 {
            var count := Stoi(arg[j + 1..]);
            if count.Some? {
              FromSuffix(args, i + 1, c.(overwriteCount := count.value), files);
              FromSuffix(tail, 1, c.(overwriteCount := count.value), files);
              assert tail[1..] == args[i + 1..];
            }
          } else if i + 1 < |args| {
            assert tail[1] == args[i + 1];
            var count := Stoi(args[i + 1]);
            if count.Some? {
              FromSuffix(args, i + 2, c.(overwriteCount := count.value), files);
              FromSuffix(tail, 2, c.(overwriteCount := count.value), files);
              assert tail[2..] == args[i + 2..];
            }
          }
        } else {
          FlagsSuffix(args, i, j + 1, SetFlag(c, flag), files);
        }
      }
    }
  }

  /** The two spellings of the pass count: "-n5" and "-n" "5" parse alike, whatever
      follows them. */
  lemma CountSpellings(v: string, rest: seq<string>)
    requires v != []
    ensures Parse(["-n" + v] + rest) == Parse(["-n", v] + rest)
  {
    var joined := ["-n" + v] + rest;
    var split := ["-n", v] + rest;
    var arg := "-n" + v;
    assert joined[0] == arg && arg[0] == '-' && arg[1] == 'n' && arg[2..] == v;
    assert Parse(joined) == ParseFlags(joined, 0, 1, Defaults, []);
    assert split[0] == "-n" && split[1] == v;
    assert Parse(split) == ParseFlags(split, 0, 1, Defaults, []);
    match Stoi(v)
    case None =>
    case Some(count) =>
      FromSuffix(joined, 1, Defaults.(overwriteCount := count), []);
      FromSuffix(split, 2, Defaults.(overwriteCount := count), []);
      assert joined[1..] == rest && split[2..] == rest;
  }

  /** A flag group made of switch letters only. */
  predicate IsSwitchGroup(arg: string)
  {
    IsFlagGroup(arg) && forall k :: 1 <= k < |arg| ==> IsSwitch(arg[k])
  }

  /** The arguments that are not flag groups, in order. */
  function Paths(args: seq<string>): seq<string>
  {
    if args == [] then [] else (if IsFlagGroup(args[0]) then [] else [args[0]]) + Paths(args[1..])
  }

  /** The options after the switch letters of arg from its j-th character on. */
  function GroupSwitches(c: Config, arg: string, j: nat): Config
    decreases |arg| - j
  {
    if j >= |arg| then c else GroupSwitches(SetFlag(c, arg[j]), arg, j + 1)
  }

  /** The options the flag groups of args set, group by group and letter by letter. */
  function Switches(c: Config, args: seq<string>): Config
    decreases |args|
  {
    if args == [] then c
    else Switches(if IsFlagGroup(args[0]) then GroupSwitches(c, args[0], 1) else c, args[1..])
  }

  /** A group of switches sets its options letter by letter and the parse goes on with the
      next argument. */
  lemma {:induction false} SwitchGroupFlags(args: seq<string>, i: nat, j: nat, c: Config, files: seq<string>)
    requires i < |args| && 1 <= j <= |args[i]| && IsSwitchGroup(args[i])
    ensures ParseFlags(args, i, j, c, files) == ParseFrom(args, i + 1, GroupSwitches(c, args[i], j), files)
    decreases |args[i]| - j
  {
    if j < |args[i]| {
      SwitchGroupFlags(args, i, j + 1, SetFlag(c, args[i][j]), files);
    }
  }

  /** From argument i on, with only switch groups among the flags, the paths are the
      remaining arguments that are not flag groups, in order, and the options are those the
      switches set. */
  lemma {:induction false} SwitchesFrom(args: seq<string>, i: nat, c: Config, files: seq<string>)
    requires i <= |args|
    requires forall k :: i <= k < |args| ==> !IsFlagGroup(args[k]) || IsSwitchGroup(args[k])
    ensures ParseFrom(args, i, c, files) ==
            if files + Paths(args[i..]) == [] then Exit(1) else Run(Switches(c, args[i..]), files + Paths(args[i..]))
    decreases |args| - i
  {
    var rest := args[i..];
    if i == |args| {
      assert rest == [] && files + [] == files;
    } else {
      assert rest[0] == args[i] && rest[1..] == args[i + 1..];
      if IsFlagGroup(args[i]) {
        SwitchGroupFlags(args, i, 1, c, files);
        SwitchesFrom(args, i + 1, GroupSwitches(c, args[i], 1), files);
        assert Paths(rest) == [] + Paths(args[i + 1..]);
      } else {
        SwitchesFrom(args, i + 1, c, files + [args[i]]);
        assert Paths(rest) == [args[i]] + Paths(args[i + 1..]);
        assert files + [args[i]] + Paths(args[i + 1..]) == files + Paths(rest);
      }
    }
  }

  /** A command line whose flags are all switches: every argument that is not a flag group
      is a path, in order, the options are those its switches set, and without a path the
      parse exits with 1.  For instance "-r" "a" "-k" "b" runs over "a" and "b". */
  lemma SwitchesOnly(args: seq<string>)
    requires forall k :: 0 <= k < |args| ==> !IsFlagGroup(args[k]) || IsSwitchGroup(args[k])
    ensures Parse(args) == if Paths(args) == [] then Exit(1) else Run(Switches(Defaults, args), Paths(args))
  {
    SwitchesFrom(args, 0, Defaults, []);
    assert args[0..] == args && [] + Paths(args) == Paths(args);
  }

  /** "-n" followed by v sets the pass count to std::stoi(v), or terminates when std::stoi
      throws; v is not a path, and the parse goes on with the argument after it. */
  lemma CountArgument(v: string, rest: seq<string>)
    ensures Parse(["-n", v] + rest) ==
            match Stoi(v)
            case None => Aborted
            case Some(n) => ParseFrom(rest, 0, Defaults.(overwriteCount := n), [])
  {
    var args := ["-n", v] + rest;
    assert args[0] == "-n" && args[1] == v && args[2..] == rest;
    assert Parse(args) == ParseFlags(args, 0, 1, Defaults, []);
    if Stoi(v).Some? {
      FromSuffix(args, 2, Defaults.(overwriteCount := Stoi(v).value), []);
    }
  }

  /** A switch letter sets its option and the parse goes on with the next letter. */
  lemma SwitchStep(args: seq<string>, i: nat, j: nat, c: Config, files: seq<string>)
    requires i < |args| && 1 <= j < |args[i]| && IsSwitch(args[i][j])
    ensures ParseFlags(args, i, j, c, files) == ParseFlags(args, i, j + 1, SetFlag(c, args[i][j]), files)
  {
  }

  /** Two switches in one group act as they do in two groups: "-rk" is "-r" "-k". */
  lemma GroupedSwitches(a: char, b: char, rest: seq<string>)
    requires IsSwitch(a) && IsSwitch(b)
    ensures Parse(["-" + [a, b]] + rest) == Parse(["-" + [a], "-" + [b]] + rest)
  {
    var grouped := ["-" + [a, b]] + rest;
    var apart := ["-" + [a], "-" + [b]] + rest;
    var ca := SetFlag(Defaults, a);
    var c := SetFlag(ca, b);
    var group := "-" + [a, b];
    assert grouped[0] == group && group[0] == '-' && group[1] == a && group[2] == b;
    SwitchStep(grouped, 0, 1, Defaults, []);
    SwitchStep(grouped, 0, 2, ca, []);
    assert Parse(grouped) == ParseFrom(grouped, 1, c, []);
    assert apart[0] == "-" + [a] && apart[1] == "-" + [b];
    SwitchStep(apart, 0, 1, Defaults, []);
    SwitchStep(apart, 1, 1, ca, []);
    assert Parse(apart) == ParseFrom(apart, 2, c, []);
    FromSuffix(grouped, 1, c, []);
    FromSuffix(apart, 2, c, []);
    assert grouped[1..] == rest && apart[2..] == rest;
  }
}
