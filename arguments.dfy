/**
 * ArgParser from argparser.h. The parser fills its option map and positional
 * list once, in its constructor, and afterwards only answers const queries,
 * so the parsed state is a value: ParseArgs builds it, the queries are
 * functions over it.
 */
module Arguments {
  import opened Wrappers

  /** The parsed command line: option map, positionals in order, program name. */
  datatype ArgParser = ArgParser(arguments: map<string, string>, positionalArgs: seq<string>, programName: string)

  /** What scanning a run of arguments yields: options and positionals. */
  datatype Scanned = Scanned(options: map<string, string>, positionals: seq<string>)

  /** arg.substr(0, 2) == "--": the argument names an option. */
  predicate IsOption(arg: string)
  {
    |arg| >= 2 && arg[..2] == "--"
  }

  /** argv[i + 1][0] != '-': the next argument may be taken as the option's value. */
  predicate TakesAsValue(next: string)
  {
    next == [] || next[0] != '-'
  }

  /** The arguments scanned after `before`; later occurrences of a key win. */
  function Then(before: Scanned, after: Scanned): Scanned
  {
    Scanned(before.options + after.options, before.positionals + after.positionals)
  }

  /**
   * Reference reading of a run of arguments, first argument first: an option
   * takes the next argument as its value when that one may be a value, and
   * "" otherwise; anything else is positional.
   */
  function Scan(args: seq<string>): Scanned
    decreases |args|
  {
    if args == [] then Scanned(map[], [])
    else if IsOption(args[0]) then
      if |args| > 1 && TakesAsValue(args[1]) then
        Then(Scanned(map[args[0][2..] := args[1]], []), Scan(args[2..]))
      else
        Then(Scanned(map[args[0][2..] := ""], []), Scan(args[1..]))
    else
      Then(Scanned(map[], [args[0]]), Scan(args[1..]))
  }

  /** Recording one option after what was scanned so far. */
  lemma RecordOption(done: Scanned, key: string, value: string, rest: Scanned)
    ensures Then(done, Then(Scanned(map[key := value], []), rest))
         == Then(Scanned(done.options[key := value], done.positionals), rest)
  {
    assert done.options + map[key := value] == done.options[key := value];
    assert done.options + (map[key := value] + rest.options) == (done.options + map[key := value]) + rest.options;
    assert done.positionals + ([] + rest.positionals) == done.positionals + rest.positionals;
  }

  /** Recording one positional after what was scanned so far. */
  lemma RecordPositional(done: Scanned, arg: string, rest: Scanned)
    ensures Then(done, Then(Scanned(map[], [arg]), rest))
         == Then(Scanned(done.options, done.positionals + [arg]), rest)
  {
    assert done.options + (map[] + rest.options) == done.options + rest.options;
    assert done.positionals + ([arg] + rest.positionals) == (done.positionals + [arg]) + rest.positionals;
  }

  /** One step of the scan, by case. */
  lemma ScanStep(args: seq<string>)
    requires args != []
    ensures IsOption(args[0]) && |args| > 1 && TakesAsValue(args[1]) ==>
      Scan(args) == Then(Scanned(map[args[0][2..] := args[1]], []), Scan(args[2..]))
    ensures IsOption(args[0]) && !(|args| > 1 && TakesAsValue(args[1])) ==>
      Scan(args) == Then(Scanned(map[args[0][2..] := ""], []), Scan(args[1..]))
    ensures !IsOption(args[0]) ==> Scan(args) == Then(Scanned(map[], [args[0]]), Scan(args[1..]))
  {
  }

  /**
   * parseArgs(argc, argv): argv[0] is the program name; the rest is scanned
   * left to right into the option map and the positional list.
   */
  method ParseArgs(argv: seq<string>) returns (p: ArgParser)
    requires |argv| >= 1
    ensures p.programName == argv[0]
    ensures Scanned(p.arguments, p.positionalArgs) == Scan(argv[1..])
  {
    var arguments: map<string, string> := map[];
    var positionals: seq<string> := [];
    var i := 1;
    assert Then(Scanned(arguments, positionals), Scan(argv[1..])) == Scan(argv[1..]) by {
      assert map[] + Scan(argv[1..]).options == Scan(argv[1..]).options;
      assert [] + Scan(argv[1..]).positionals == Scan(argv[1..]).positionals;
    }
    while i < |argv|
      invariant 1 <= i <= |argv|
      invariant Then(Scanned(arguments, positionals), Scan(argv[i..])) == Scan(argv[1..])
    {
      var arg := argv[i];
      ghost var done := Scanned(arguments, positionals);
      ScanStep(argv[i..]);
      if IsOption(arg) {
        var key := arg[2..];
        if i + 1 < |argv| && TakesAsValue(argv[i + 1]) {
          assert argv[i..][2..] == argv[i + 2..];
          RecordOption(done, key, argv[i + 1], Scan(argv[i + 2..]));
          arguments := arguments[key := argv[i + 1]];
          i := i + 1;
        } else {
          assert argv[i..][1..] == argv[i + 1..];
          RecordOption(done, key, "", Scan(argv[i + 1..]));
          arguments := arguments[key := ""];
        }
      } else {
        assert argv[i..][1..] == argv[i + 1..];
        RecordPositional(done, arg, Scan(argv[i + 1..]));
        positionals := positionals + [arg];
      }
      i := i + 1;
    }
    assert Then(Scanned(arguments, positionals), Scan([])) == Scanned(arguments, positionals) by {
      assert arguments + map[] == arguments;
      assert positionals + [] == positionals;
    }
    assert argv[i..] == [];
    p := ArgParser(arguments, positionals, argv[0]);
  }

  /** The parser the constructor builds from argv. */
  function FromArgv(argv: seq<string>): (p: ArgParser)
    requires |argv| >= 1
    ensures p.programName == argv[0]
    ensures p.positionalArgs == FreeArguments(argv[1..], 0)
  {
    var r := Scan(argv[1..]);
    ScanPositionals(argv[1..]);
    ArgParser(r.options, r.positionals, argv[0])
  }

  // ---------------------------------------------------------------- properties of the scan

  /** A key is present exactly when "--key" occurs among the arguments. */
  lemma {:induction false} ScanKeys(args: seq<string>, key: string)
    ensures key in Scan(args).options <==> exists i :: 0 <= i < |args| && args[i] == "--" + key
    decreases |args|
  {
    if args != [] {
      var a := args[0];
      assert a == "--" + key <==> IsOption(a) && a[2..] == key by {
        if a == "--" + key { assert a[..2] == "--" && a[2..] == key; }
        if IsOption(a) && a[2..] == key { assert a == a[..2] + a[2..]; }
      }
      if IsOption(a) && |args| > 1 && TakesAsValue(args[1]) {
        ScanKeys(args[2..], key);
        assert args[1] != "--" + key;
        SplitExists2(args, key);
      } else {
        ScanKeys(args[1..], key);
        SplitExists1(args, key);
      }
    }
  }

  lemma SplitExists1(args: seq<string>, key: string)
    requires args != []
    ensures (exists i :: 0 <= i < |args| && args[i] == "--" + key) <==>
            args[0] == "--" + key || exists i :: 0 <= i < |args[1..]| && args[1..][i] == "--" + key
  {
    if exists i :: 0 <= i < |args| && args[i] == "--" + key {
      var i :| 0 <= i < |args| && args[i] == "--" + key;
      if i > 0 { assert args[1..][i - 1] == "--" + key; }
    }
    if exists i :: 0 <= i < |args[1..]| && args[1..][i] == "--" + key {
      var i :| 0 <= i < |args[1..]| && args[1..][i] == "--" + key;
      assert args[i + 1] == "--" + key;
    }
  }

  lemma SplitExists2(args: seq<string>, key: string)
    requires |args| > 1 && args[1] != "--" + key
    ensures (exists i :: 0 <= i < |args| && args[i] == "--" + key) <==>
            args[0] == "--" + key || exists i :: 0 <= i < |args[2..]| && args[2..][i] == "--" + key
  {
    if exists i :: 0 <= i < |args| && args[i] == "--" + key {
      var i :| 0 <= i < |args| && args[i] == "--" + key;
      if i > 1 { assert args[2..][i - 2] == "--" + key; }
    }
    if exists i :: 0 <= i < |args[2..]| && args[2..][i] == "--" + key {
      var i :| 0 <= i < |args[2..]| && args[2..][i] == "--" + key;
      assert args[i + 2] == "--" + key;
    }
  }

  /** The value of the last occurrence of "--key": the next argument when it may be a value, else "". */
  lemma {:induction false} ScanLastValue(args: seq<string>, i: nat, key: string)
    requires i < |args| && args[i] == "--" + key
    requires forall j :: i < j < |args| ==> args[j] != "--" + key
    ensures key in Scan(args).options
    ensures Scan(args).options[key] == if i + 1 < |args| && TakesAsValue(args[i + 1]) then args[i + 1] else ""
    decreases |args|
  {
    var a := args[0];
    ScanStep(args);
    var k := if IsOption(a) && |args| > 1 && TakesAsValue(args[1]) then 2 else 1;
    var rest := args[k..];
    if i == 0 {
      assert IsOption(a) && a[2..] == key by { assert a[..2] == "--" && a[2..] == key; }
      forall j | 0 <= j < |rest|
        ensures rest[j] != "--" + key
      {
        assert rest[j] == args[j + k];
      }
      ScanKeys(rest, key);
    } else {
      if k == 2 {
        assert i != 1 by {
          assert TakesAsValue(args[1]);
          assert ("--" + key)[0] == '-';
        }
      }
      forall j | i - k < j < |rest|
        ensures rest[j] != "--" + key
      {
        assert rest[j] == args[j + k];
      }
      ScanLastValue(rest, i - k, key);
      assert rest[i - k] == args[i];
      if i - k + 1 < |rest| {
        assert rest[i - k + 1] == args[i + 1];
      }
    }
  }

  /** Argument i is taken as the value of the option just before it. */
  predicate ClaimedAsValue(args: seq<string>, i: nat)
    requires i < |args|
  {
    i > 0 && IsOption(args[i - 1]) && TakesAsValue(args[i])
  }

  /** The arguments from index i on that neither name an option nor serve as an option's value, in order. */
  function FreeArguments(args: seq<string>, i: nat): seq<string>
    requires i <= |args|
    decreases |args| - i
  {
    if i == |args| then []
    else if !IsOption(args[i]) && !ClaimedAsValue(args, i) then [args[i]] + FreeArguments(args, i + 1)
    else FreeArguments(args, i + 1)
  }

  /**
   * The positionals are exactly the arguments that are neither options nor
   * an option's value, in command-line order.
   */
  lemma ScanPositionals(args: seq<string>)
    ensures Scan(args).positionals == FreeArguments(args, 0)
    ensures forall x :: x in Scan(args).positionals ==> x in args && !IsOption(x)
  {
    assert args[0..] == args;
    ScanFreeFrom(args, 0);
    FreeArgumentsAreArguments(args, 0);
  }

  /** From an index that is not an option's value, the scan of the rest yields the free arguments. */
  lemma {:induction false} ScanFreeFrom(args: seq<string>, k: nat)
    requires k <= |args|
    requires k < |args| ==> !ClaimedAsValue(args, k)
    ensures Scan(args[k..]).positionals == FreeArguments(args, k)
    decreases |args| - k
  {
    if k < |args| {
      var rest := args[k..];
      ScanStep(rest);
      if IsOption(args[k]) && k + 1 < |args| && TakesAsValue(args[k + 1]) {
        assert rest[2..] == args[k + 2..];
        assert ClaimedAsValue(args, k + 1);
        assert k + 2 < |args| ==> !ClaimedAsValue(args, k + 2) by {
          assert !IsOption(args[k + 1]) by {
            if |args[k + 1]| >= 2 { assert args[k + 1][..2][0] == args[k + 1][0]; }
          }
        }
        ScanFreeFrom(args, k + 2);
      } else {
        assert rest[1..] == args[k + 1..];
        ScanFreeFrom(args, k + 1);
      }
    }
  }

  lemma {:induction false} FreeArgumentsAreArguments(args: seq<string>, k: nat)
    requires k <= |args|
    ensures forall x :: x in FreeArguments(args, k) ==> x in args && !IsOption(x)
    decreases |args| - k
  {
    if k < |args| {
      FreeArgumentsAreArguments(args, k + 1);
    }
  }

  /** With options mixed in: "--a x y" keeps only "y"; "--a -x y" keeps "-x" and "y". */
  lemma MixedPositionals()
    ensures Scan(["--a", "x", "y"]).positionals == ["y"]
    ensures Scan(["--a", "-x", "y"]).positionals == ["-x", "y"]
  {
    ScanPositionals(["--a", "x", "y"]);
    ScanPositionals(["--a", "-x", "y"]);
    assert "--a"[..2] == "--";
    assert "x"[0] == 'x' && "y"[0] == 'y' && "-x"[0] == '-';
    assert !IsOption("x") && !IsOption("y");
    assert !IsOption("-x") by { assert "-x"[..2][1] == 'x'; }
  }

  /** Without any option, every argument is positional, in the order given. */
  lemma {:induction false} ScanWithoutOptions(args: seq<string>)
    requires forall i :: 0 <= i < |args| ==> !IsOption(args[i])
    ensures Scan(args) == Scanned(map[], args)
    decreases |args|
  {
    if args != [] {
      ScanStep(args);
      ScanWithoutOptions(args[1..]);
      assert [args[0]] + args[1..] == args;
    }
  }

  /** A dash-led argument is never an option's value: "--warmup -5" leaves "-5" positional. */
  lemma NegativeAfterOption()
    ensures Scan(["--warmup", "-5", "ls"]) == Scanned(map["warmup" := ""], ["-5", "ls"])
  {
    ScanStep(["--warmup", "-5", "ls"]);
    assert "-5"[..2][1] == '5';
    assert "ls"[..2][0] == 'l';
    assert ["--warmup", "-5", "ls"][1..] == ["-5", "ls"];
    ScanWithoutOptions(["-5", "ls"]);
  }

  /** "--shell echo hi" takes "echo" as the shell option's value. */
  lemma ShellTakesNextWord()
    ensures Scan(["--shell", "echo", "hi"]) == Scanned(map["shell" := "echo"], ["hi"])
  {
    ScanStep(["--shell", "echo", "hi"]);
    assert "hi"[..2][0] == 'h';
    assert ["--shell", "echo", "hi"][2..] == ["hi"];
    ScanWithoutOptions(["hi"]);
  }

  // ---------------------------------------------------------------- queries

  /** has(key): the key was given, so get() returns its stored value rather than a default. */
  predicate Has(p: ArgParser, key: string)
  {
    key in p.arguments
  }

  /** get(key, defaultValue) */
  function Get(p: ArgParser, key: string, defaultValue: string): (r: string)
    ensures !Has(p, key) ==> r == defaultValue
    ensures Has(p, key) ==> r == p.arguments[key]
  {
    if key in p.arguments then p.arguments[key] else defaultValue
  }

  /** has(key) is observable through get alone: exactly when get ignores its default. */
  lemma HasIffGetIgnoresDefault(p: ArgParser, key: string)
    ensures Has(p, key) <==> Get(p, key, "") == Get(p, key, "-")
  {
    if !Has(p, key) {
      assert ""[..] != "-" by { assert |""| != |"-"|; }
    }
  }

  /** has(key) after parsing argv: "--key" occurs after the program name. */
  lemma HasFromArgv(argv: seq<string>, key: string)
    requires |argv| >= 1
    ensures Has(FromArgv(argv), key) <==> exists i :: 1 <= i < |argv| && argv[i] == "--" + key
  {
    var args := argv[1..];
    ScanKeys(args, key);
    if exists i :: 0 <= i < |args| && args[i] == "--" + key {
      var i :| 0 <= i < |args| && args[i] == "--" + key;
      assert argv[i + 1] == args[i];
    }
    if exists i :: 1 <= i < |argv| && argv[i] == "--" + key {
      var i :| 1 <= i < |argv| && argv[i] == "--" + key;
      assert args[i - 1] == argv[i];
    }
  }

  // ---------------------------------------------------------------- strtol, base 10

  /** isspace in the C locale: space, \t, \n, \v, \f, \r. */
  predicate IsSpace(c: char)
  {
    c == ' ' || '\t' <= c <= '\r'
  }

  predicate IsDigit(c: char)
  {
    '0' <= c <= '9'
  }

  predicate AllDigits(d: string)
  {
    forall i :: 0 <= i < |d| ==> IsDigit(d[i])
  }

  /** What strtol skips before the number. */
  function SkipSpaces(s: string): (r: string)
    ensures |r| <= |s| && r == s[|s| - |r|..]
    ensures r == [] || !IsSpace(r[0])
    ensures forall i :: 0 <= i < |s| - |r| ==> IsSpace(s[i])
  {
    if s != [] && IsSpace(s[0]) then SkipSpaces(s[1..]) else s
  }

  /** The value of a digit string, most significant digit first. */
  function DigitsValue(d: string): (v: nat)
    requires AllDigits(d)
  {
    if d == [] then 0 else DigitsValue(d[..|d| - 1]) * 10 + (d[|d| - 1] as int - '0' as int)
  }

  /**
   * strtol(s, &end, 10) accepted by the *end == '\0' and end != s test:
   * leading white space, an optional sign, at least one digit, and nothing after.
   */
  function ParseLong(s: string): (r: Option<int>)
    ensures r.Some? ==> s != [] && IsDigit(s[|s| - 1])
  {
    var t := SkipSpaces(s);
    EndsInDigit(s, t, ParseSigned(t));
    ParseSigned(t)
  }

  /** Plain digits, with no sign and no space, are a number. */
  lemma DigitsAccepted(s: string)
    requires s != [] && AllDigits(s)
    ensures ParseLong(s).Some?
  {
    var t := SkipSpaces(s);
    var c := s[0];
    assert IsDigit(c);
    assert t == s by { assert !IsSpace(c); }
    UnsignedParses(s, c);
  }

  lemma UnsignedParses(s: string, c: char)
    requires s != [] && c == s[0] && c != '+' && c != '-' && AllDigits(s)
    ensures ParseSigned(s).Some?
  {
  }

  /** Whatever parses ends in a digit of the original text. */
  lemma EndsInDigit(s: string, t: string, r: Option<int>)
    requires t == SkipSpaces(s) && r == ParseSigned(t)
    ensures r.Some? ==> s != [] && IsDigit(s[|s| - 1])
  {
    if r.Some? {
      assert t != [] && IsDigit(t[|t| - 1]);
      SuffixLast(s, t);
    }
  }

  /** An optional sign and at least one digit, filling the whole string. */
  function ParseSigned(t: string): (r: Option<int>)
    ensures r.Some? ==> t != [] && IsDigit(t[|t| - 1])
  {
    var negative := t != [] && t[0] == '-';
    var digits := if t != [] && (t[0] == '+' || t[0] == '-') then t[1..] else t;
    if digits != [] && AllDigits(digits) then
      var magnitude: int := DigitsValue(digits);
      Some(if negative then -magnitude else magnitude)
    else None
  }

  /** Decimal digits of n, no leading zeros. */
  function Decimal(n: nat): (d: string)
    ensures d != [] && AllDigits(d)
    ensures DigitsValue(d) == n
  {
    if n < 10 then ['0' + n as char]
    else
      var d := Decimal(n / 10) + ['0' + (n % 10) as char];
      assert d[..|d| - 1] == Decimal(n / 10);
      d
  }

  /** The integer as a user would type it. */
  function FormatInt(n: int): string
  {
    if n < 0 then "-" + Decimal(-n) else Decimal(n)
  }

  /** Every integer the user writes in decimal is read back as itself. */
  lemma ParseFormatted(n: int)
    ensures ParseLong(FormatInt(n)) == Some(n)
  {
    var s := FormatInt(n);
    assert !IsSpace(s[0]) by { assert s[0] == '-' || IsDigit(s[0]); }
    assert SkipSpaces(s) == s;
    if n < 0 {
      assert s[1..] == Decimal(-n);
    }
  }

  lemma ParseFormattedAll()
    ensures forall n :: ParseLong(FormatInt(n)) == Some(n)
  {
    forall n ensures ParseLong(FormatInt(n)) == Some(n) {
      ParseFormatted(n);
    }
  }

  /** strtol skips leading white space. */
  lemma ParseSkipsSpaces(c: char, s: string)
    requires IsSpace(c)
    ensures ParseLong([c] + s) == ParseLong(s)
  {
    assert ([c] + s)[1..] == s;
    assert SkipSpaces([c] + s) == SkipSpaces(s);
  }

  /** The empty string, a lone sign and trailing garbage are all rejected. */
  lemma ParseRejects()
    ensures ParseLong("") == None
    ensures ParseLong("-") == None && ParseLong("+") == None
    ensures ParseLong("12a") == None && ParseLong("5 ") == None
  {
    NoDigitAtEnd("");
    NoDigitAtEnd("-");
    NoDigitAtEnd("+");
    NoDigitAtEnd("12a");
    NoDigitAtEnd("5 ");
  }

  /** Text that does not end in a digit is no number. */
  lemma NoDigitAtEnd(s: string)
    requires s == [] || !IsDigit(s[|s| - 1])
    ensures ParseLong(s) == None
  {
  }

  /** A character that is not a digit after the first one, with no space before it, makes the text no number. */
  lemma NonDigitRejected(s: string, k: nat)
    requires 0 < k < |s| && !IsSpace(s[0]) && !IsDigit(s[k])
    ensures ParseLong(s) == None
  {
    assert SkipSpaces(s) == s;
    var digits := if s[0] == '+' || s[0] == '-' then s[1..] else s;
    var j := if s[0] == '+' || s[0] == '-' then k - 1 else k;
    assert digits[j] == s[k];
  }

  lemma SuffixLast(s: string, t: string)
    requires t != [] && |t| <= |s| && t == s[|s| - |t|..]
    ensures t[|t| - 1] == s[|s| - 1]
  {
  }

  /** getInt(key, defaultValue) */
  function GetInt(p: ArgParser, key: string, defaultValue: int): (r: int)
    ensures !Has(p, key) ==> r == defaultValue
    ensures Has(p, key) && ParseLong(p.arguments[key]) == None ==> r == defaultValue
    ensures forall n :: Has(p, key) && p.arguments[key] == FormatInt(n) ==> r == n
  {
    ParseFormattedAll();
    if key !in p.arguments then defaultValue
    else
      match ParseLong(p.arguments[key])
      case None => defaultValue
      case Some(v) => v
  }

  /**
   * getIntSafe(key, outValue, defaultValue): the success flag and the value
   * outValue holds afterwards (it keeps its old value on failure).
   */
  function GetIntSafe(p: ArgParser, key: string, outValue: int, defaultValue: int): (r: (bool, int))
    ensures !Has(p, key) ==> r == (true, defaultValue)
    ensures Has(p, key) && ParseLong(p.arguments[key]) == None ==> r == (false, outValue)
    ensures forall n :: Has(p, key) && p.arguments[key] == FormatInt(n) ==> r == (true, n)
    ensures r.0 ==> r.1 == GetInt(p, key, defaultValue)
  {
    ParseFormattedAll();
    if key !in p.arguments then (true, defaultValue)
    else
      match ParseLong(p.arguments[key])
      case None => (false, outValue)
      case Some(v) => (true, v)
  }

  /** A present count option holds a well-formed integer of at least `least`. */
  predicate CountAtLeast(p: ArgParser, key: string, least: int)
  {
    Has(p, key) ==> ParseLong(p.arguments[key]).Some? && ParseLong(p.arguments[key]).value >= least
  }

  /** validate(), the checks in the order the source makes them. */
  function Validate(p: ArgParser): (ok: bool)
    ensures ok <==> p.positionalArgs != []
                    && CountAtLeast(p, "warmup", 0)
                    && CountAtLeast(p, "iterations", 1)
                    && (Has(p, "output") ==> p.arguments["output"] in {"json", "text"})
  {
    if p.positionalArgs == [] then false
    else if Has(p, "warmup") && (var (found, warmup) := GetIntSafe(p, "warmup", 0, 0); !found || warmup < 0) then false
    else if Has(p, "iterations") && (var (found, iterations) := GetIntSafe(p, "iterations", 0, 0); !found || iterations <= 0) then false
    else if Has(p, "output") && Get(p, "output", "") != "json" && Get(p, "output", "") != "text" then false
    else true
  }

  /** "--warmup -5" is refused as a malformed value, before the sign could be checked. */
  lemma NegativeWarmupIsMalformed()
    ensures !Validate(FromArgv(["vajra", "--warmup", "-5", "ls"]))
  {
    var argv := ["vajra", "--warmup", "-5", "ls"];
    assert argv[1..] == ["--warmup", "-5", "ls"];
    NegativeAfterOption();
    MalformedWarmup(FromArgv(argv));
  }

  /** An empty warmup value fails validate. */
  lemma MalformedWarmup(p: ArgParser)
    requires p.arguments == map["warmup" := ""]
    ensures !Validate(p)
  {
    var warmup := "warmup";
    assert Has(p, warmup) && p.arguments[warmup] == "";
    assert ParseLong("") == None by {
      ParseRejects();
    }
    MalformedCountRefused(p, warmup);
  }

  /** A present warmup or iterations value that is not a well-formed integer fails validate. */
  lemma MalformedCountRefused(p: ArgParser, key: string)
    requires key == "warmup" || key == "iterations"
    requires Has(p, key) && ParseLong(p.arguments[key]) == None
    ensures !Validate(p)
  {
    assert !CountAtLeast(p, key, if key == "warmup" then 0 else 1);
  }

  /** Zero iterations are refused; a bare command with defaults is accepted. */
  lemma ValidateExamples()
    ensures !Validate(FromArgv(["vajra", "--iterations", "0", "ls"]))
    ensures Validate(FromArgv(["vajra", "ls"]))
  {
    ZeroIterationsRefused(["vajra", "--iterations", "0", "ls"]);
    BareCommandAccepted(["vajra", "ls"]);
  }

  lemma ZeroIterationsRefused(argv: seq<string>)
    requires argv == ["vajra", "--iterations", "0", "ls"]
    ensures !Validate(FromArgv(argv))
  {
    var args := argv[1..];
    assert args == ["--iterations", "0", "ls"];
    ScanStep(args);
    assert args[2..] == ["ls"];
    assert "ls"[..2][0] == 'l';
    ScanWithoutOptions(["ls"]);
    assert FromArgv(argv).arguments == map["iterations" := "0"];
    assert "0" == FormatInt(0);
    ParseFormatted(0);
  }

  lemma BareCommandAccepted(argv: seq<string>)
    requires argv == ["vajra", "ls"]
    ensures Validate(FromArgv(argv))
  {
    assert argv[1..] == ["ls"];
    assert "ls"[..2][0] == 'l';
    ScanWithoutOptions(["ls"]);
  }
}
