/** The pure helpers of the standalone VM's command-line parsing
    (runtime/bin/main_options.cc): port/address extraction, `--option`
    matching, the filter for debugging flags forwarded to the VM, and the
    consistency rules applied once every argument has been read. */
module MainOptions {
  import opened Wrappers
  import opened CStrings

  predicate IsDigit(c: char) { '0' <= c <= '9' }

  /** `isspace` in the C locale. */
  predicate IsSpace(c: char) {
    c == ' ' || c == '\t' || c == '\n' || c == '\U{000B}' || c == '\U{000C}' || c == '\r'
  }

  function DigitValue(c: char): (d: nat)
    requires IsDigit(c)
    ensures d < 10
  {
    c as int - '0' as int
  }

  /** The value of the longest run of digits at the start of `s`, and its length. */
  function DigitsPrefix(s: string, acc: nat): (r: (nat, nat))
    ensures r.1 <= |s|
    ensures forall i :: 0 <= i < r.1 ==> IsDigit(s[i])
    ensures r.1 < |s| ==> !IsDigit(s[r.1])
    decreases |s|
  {
    if |s| == 0 || !IsDigit(s[0]) then (acc, 0)
    else
      var rest := DigitsPrefix(s[1..], acc * 10 + DigitValue(s[0]));
      (rest.0, rest.1 + 1)
  }

  /** One past the largest C `int` (INT_MAX + 1). */
  const IntLimit: int := 0x8000_0000

  /** `atoi`: leading white space, an optional sign, then as many decimal
      digits as follow; no digits reads as 0. The result is unbounded here:
      for a numeral past the range of `int` C leaves `atoi` undefined. */
  function Atoi(s: string): int {
    if |s| > 0 && IsSpace(s[0]) then Atoi(s[1..])
    else if |s| > 0 && s[0] == '-' then 0 - DigitsPrefix(s[1..], 0).0 as int
    else if |s| > 0 && s[0] == '+' then DigitsPrefix(s[1..], 0).0
    else DigitsPrefix(s, 0).0
  }

  /** The decimal numeral of `n`, most significant digit first. */
  function Decimal(n: nat): (r: string)
    ensures |r| > 0 && forall i :: 0 <= i < |r| ==> IsDigit(r[i])
  {
    if n < 10 then [('0' as int + n) as char]
    else Decimal(n / 10) + [('0' as int + n % 10) as char]
  }

  /** The value of a string of digits. */
  function DigitsValue(s: string): nat
    requires forall i :: 0 <= i < |s| ==> IsDigit(s[i])
  {
    if |s| == 0 then 0 else DigitsValue(s[..|s| - 1]) * 10 + DigitValue(s[|s| - 1])
  }

  lemma {:induction false} DecimalValue(n: nat)
    ensures DigitsValue(Decimal(n)) == n
  {
    if n >= 10 {
      DecimalValue(n / 10);
      var d := Decimal(n);
      assert d[..|d| - 1] == Decimal(n / 10);
    }
  }

  /** The digits of `d` accumulated onto `acc` from the front, the way the
      digit loop of `atoi` reads them. */
  function Accumulate(d: string, acc: nat): nat
    requires forall i :: 0 <= i < |d| ==> IsDigit(d[i])
    decreases |d|
  {
    if |d| == 0 then acc else Accumulate(d[1..], acc * 10 + DigitValue(d[0]))
  }

  /** Reading a run of digits followed by something else reads exactly the
      run. */
  lemma {:induction false} DigitsPrefixOfDigits(d: string, rest: string, acc: nat)
    requires forall i :: 0 <= i < |d| ==> IsDigit(d[i])
    requires |rest| == 0 || !IsDigit(rest[0])
    ensures DigitsPrefix(d + rest, acc) == (Accumulate(d, acc), |d|)
    decreases |d|
  {
    if |d| == 0 {
      assert d + rest == rest;
    } else {
      var s := d + rest;
      var acc' := acc * 10 + DigitValue(d[0]);
      assert s[1..] == d[1..] + rest;
      assert s[0] == d[0] && IsDigit(s[0]);
      DigitsPrefixOfDigits(d[1..], rest, acc');
      assert DigitsPrefix(s, acc) == (DigitsPrefix(s[1..], acc').0, DigitsPrefix(s[1..], acc').1 + 1);
      assert Accumulate(d, acc) == Accumulate(d[1..], acc');
    }
  }

  /** One more digit at the end multiplies the value by ten and adds it. */
  lemma {:induction false} AccumulateSnoc(d: string, c: char, acc: nat)
    requires forall i :: 0 <= i < |d| ==> IsDigit(d[i])
    requires IsDigit(c)
    ensures Accumulate(d + [c], acc) == Accumulate(d, acc) * 10 + DigitValue(c)
    decreases |d|
  {
    if |d| == 0 {
      assert d + [c] == [c];
      assert [c][1..] == [];
    } else {
      assert (d + [c])[1..] == d[1..] + [c];
      assert (d + [c])[0] == d[0];
      AccumulateSnoc(d[1..], c, acc * 10 + DigitValue(d[0]));
    }
  }

  /** Read from the front starting at 0, or from the back: the same value. */
  lemma {:induction false} AccumulateValue(d: string)
    requires forall i :: 0 <= i < |d| ==> IsDigit(d[i])
    ensures Accumulate(d, 0) == DigitsValue(d)
    decreases |d|
  {
    if |d| > 0 {
      var front := d[..|d| - 1];
      AccumulateValue(front);
      assert front + [d[|d| - 1]] == d;
      AccumulateSnoc(front, d[|d| - 1], 0);
    }
  }

  /** `atoi` reads back the decimal numeral of a natural number that fits
      its `int` result; past INT_MAX `atoi` is undefined. */
  lemma AtoiDecimal(n: nat, rest: string)
    requires n < IntLimit
    requires |rest| == 0 || !IsDigit(rest[0])
    ensures Atoi(Decimal(n) + rest) == n
  {
    var d := Decimal(n);
    DigitsPrefixOfDigits(d, rest, 0);
    AccumulateValue(d);
    DecimalValue(n);
    assert (d + rest)[0] == d[0];
  }

  /** The index of the first '/' in `s`, as `strstr(s, "/")` finds it. */
  function FindSlash(s: string): (r: Option<nat>)
    ensures r.Some? ==> r.value < |s| && s[r.value] == '/' && '/' !in s[..r.value]
    ensures r.None? ==> '/' !in s
  {
    if |s| == 0 then None
    else if s[0] == '/' then Some(0)
    else
      match FindSlash(s[1..])
      case None => None
      case Some(i) =>
        assert s[..i + 1] == [s[0]] + s[1..][..i];
        Some(i + 1)
  }

  datatype Endpoint = Endpoint(port: int, ip: string)

  /** Options::ExtractPortAndAddress: "" keeps both defaults; otherwise the
      value must start with '=' or ':', the port is `atoi` of the rest, and
      the address is whatever follows the first '/', if there is one. None is
      the `false` return. */
  function ExtractPortAndAddress(value: CString, defaultPort: int, defaultIp: string): (r: Option<Endpoint>)
    ensures value == "" ==> r == Some(Endpoint(defaultPort, defaultIp))
    ensures value != "" && value[0] != '=' && value[0] != ':' ==> r.None?
    ensures value != "" && (value[0] == '=' || value[0] == ':') ==>
              r.Some? && r.value.port == Atoi(value[1..]) &&
              r.value.ip == match FindSlash(value)
                            case None => defaultIp
                            case Some(i) => value[i + 1..]
  {
    if |value| == 0 then Some(Endpoint(defaultPort, defaultIp))
    else if value[0] != '=' && value[0] != ':' then None
    else
      var port := Atoi(value[1..]);
      match FindSlash(value)
      case None => Some(Endpoint(port, defaultIp))
      case Some(i) => Some(Endpoint(port, value[i + 1..]))
  }

  /** ":<port>/<ip>" and "=<port>/<ip>" give back the port and the address,
      and ":<port>" alone keeps the default address, for any port the `int`
      that `atoi` returns can hold. */
  lemma ExtractPortAndAddressRoundTrip(sep: char, port: nat, ip: CString, defaultPort: int, defaultIp: string)
    requires port < IntLimit
    requires sep == ':' || sep == '='
    ensures ExtractPortAndAddress([sep] + Decimal(port) + "/" + ip, defaultPort, defaultIp)
            == Some(Endpoint(port, ip))
    ensures ExtractPortAndAddress([sep] + Decimal(port), defaultPort, defaultIp)
            == Some(Endpoint(port, defaultIp))
  {
    var d := Decimal(port);
    var v := [sep] + d + "/" + ip;
    assert v[1..] == d + ("/" + ip);
    AtoiDecimal(port, "/" + ip);
    assert FindSlash(v) == Some(|d| + 1) by {
      assert v[|d| + 1] == '/';
      assert v[..|d| + 1] == [sep] + d;
      SlashFree([sep] + d);
      FindSlashFirst(v, |d| + 1);
    }
    assert v[|d| + 2..] == ip;
    var w := [sep] + d;
    assert w[1..] == d + [];
    AtoiDecimal(port, []);
    SlashFree(w);
  }

  lemma SlashFree(s: string)
    requires forall i :: 1 <= i < |s| ==> IsDigit(s[i])
    requires |s| > 0 ==> s[0] != '/'
    ensures '/' !in s
  {
  }

  /** FindSlash returns the position of the first slash. */
  lemma FindSlashFirst(s: string, i: nat)
    requires i < |s| && s[i] == '/' && '/' !in s[..i]
    ensures FindSlash(s) == Some(i)
  {
    assert s[i] in s;
  }

  /** `arg` names `option` in the normalised sense: it is "--" followed by
      the option, where a '_' in the argument stands for '-'. Anything may
      follow the option. */
  predicate Names(arg: CString, option: CString) {
    |arg| >= |option| + 2 && arg[0] == '-' && arg[1] == '-' &&
    forall i :: 0 <= i < |option| ==> DashForUnderscore(arg[i + 2]) == option[i]
  }

  function DashForUnderscore(c: char): char { if c == '_' then '-' else c }

  /** IsOption: checks the two leading dashes, then walks the option's
      characters against the argument's until the option ends, failing as
      soon as the argument ends or a character differs. */
  method IsOption(arg: CString, option: CString) returns (r: bool)
    ensures r <==> Names(arg, option)
  {
    if |arg| < 1 || arg[0] != '-' || |arg| < 2 || arg[1] != '-' {
      return false;
    }
    var i := 0;
    while i < |option|
      invariant 0 <= i <= |option|
      invariant |arg| >= i + 2
      invariant forall j :: 0 <= j < i ==> DashForUnderscore(arg[j + 2]) == option[j]
    {
      if i + 2 == |arg| {
        return false;
      }
      if DashForUnderscore(arg[i + 2]) != option[i] {
        return false;
      }
      i := i + 1;
    }
    return true;
  }

  /** An argument spelled with underscores names the same options as the
      one spelled with dashes. */
  lemma NamesIgnoresUnderscores(arg: CString, arg2: CString, option: CString)
    requires |arg| == |arg2|
    requires forall i :: 0 <= i < |arg| ==> DashForUnderscore(arg[i]) == DashForUnderscore(arg2[i])
    requires |arg| >= 2 ==> arg[..2] == arg2[..2]
    ensures Names(arg, option) <==> Names(arg2, option)
  {
    if Names(arg, option) {
      assert arg2[0] == arg[..2][0] && arg2[1] == arg[..2][1];
    }
    if Names(arg2, option) {
      assert arg[0] == arg2[..2][0] && arg[1] == arg2[..2][1];
    }
  }

  /** The VM flags `dart run` forwards, in the order they are tried. */
  const DebugOptions: seq<string> := [
    "--enable-asserts",
    "--pause-isolates-on-exit",
    "--no-pause-isolates-on-exit",
    "--pause-isolates-on-start",
    "--no-pause-isolates-on-start",
    "--pause-isolates-on-unhandled-exception",
    "--no-pause-isolates-on-unhandled-exception",
    "--warn-on-pause-with-no-debugger",
    "--no-warn-on-pause-with-no-debugger",
    "--timeline-streams",
    "--timeline-recorder",
    "--enable-experiment"
  ]

  /** `strncmp(name, arg, strlen(name)) == 0`: `name` is a prefix of `arg`
      (a shorter `arg` differs at its terminating NUL). */
  predicate StartsWith(arg: string, name: string) {
    |name| <= |arg| && arg[..|name|] == name
  }

  /** The first of `names` that `arg` starts with, tried in order. */
  function FirstMatch(names: seq<string>, arg: CString): (r: Option<nat>)
    ensures r.Some? ==> r.value < |names| && StartsWith(arg, names[r.value])
    ensures r.Some? ==> forall j :: 0 <= j < r.value ==> !StartsWith(arg, names[j])
    ensures r.None? <==> forall j :: 0 <= j < |names| ==> !StartsWith(arg, names[j])
  {
    if |names| == 0 then None
    else if StartsWith(arg, names[0]) then Some(0)
    else
      match FirstMatch(names[1..], arg)
      case None => None
      case Some(k) => Some(k + 1)
  }

  /** Options::ProcessVMDebuggingOptions: an argument beginning with one of
      the forwarded flags is appended to the VM options and reported as
      handled; any other argument leaves them alone. */
  function ProcessVMDebuggingOptions(arg: CString, vmOptions: seq<CString>): (r: (bool, seq<CString>))
    ensures r.0 <==> exists j :: 0 <= j < |DebugOptions| && StartsWith(arg, DebugOptions[j])
    ensures r.1 == if r.0 then vmOptions + [arg] else vmOptions
  {
    match FirstMatch(DebugOptions, arg)
    case Some(_) => (true, vmOptions + [arg])
    case None => (false, vmOptions)
  }

  /** The flags are matched as prefixes, so a flag with a value attached
      is forwarded whole. */
  lemma ForwardsFlagWithValue(value: CString, vmOptions: seq<CString>)
    ensures ProcessVMDebuggingOptions("--enable-experiment=" + value, vmOptions)
            == (true, vmOptions + ["--enable-experiment=" + value])
  {
    var arg := "--enable-experiment=" + value;
    assert arg[..|DebugOptions[11]|] == DebugOptions[11];
  }

  /** Every forwarded flag is a double-dash flag of at least sixteen
      characters, so nothing shorter or without the dashes is forwarded. */
  lemma ForwardedArgumentsAreLongFlags(arg: CString, vmOptions: seq<CString>)
    requires ProcessVMDebuggingOptions(arg, vmOptions).0
    ensures |arg| >= 16 && arg[0] == '-' && arg[1] == '-'
  {
    var j :| 0 <= j < |DebugOptions| && StartsWith(arg, DebugOptions[j]);
    DebugOptionsShape(j);
    assert arg[0] == arg[..|DebugOptions[j]|][0] && arg[1] == arg[..|DebugOptions[j]|][1];
  }

  lemma DebugOptionsShape(j: int)
    requires 0 <= j < |DebugOptions|
    ensures |DebugOptions[j]| >= 16 && DebugOptions[j][0] == '-' && DebugOptions[j][1] == '-'
  {
  }

  datatype SnapshotKind = None_ | Kernel | AppJIT

  /** The options that the consistency rules read; absent options are None. */
  datatype ParsedOptions = ParsedOptions(
    snapshotDepsFilename: Option<CString>,
    depfile: Option<CString>,
    packagesFile: Option<CString>,
    genSnapshotKind: SnapshotKind,
    snapshotFilename: Option<CString>,
    depfileOutputFilename: Option<CString>)

  /** The diagnostics ParseArguments prints before returning false. */
  datatype OptionsError =
    | BothDepfiles            // Specify only one of --depfile and --snapshot_depfile
    | EmptyPackagesFile       // Empty package file name specified.
    | SnapshotNeedsFilename   // Generating a snapshot requires a filename (--snapshot).
    | DepfileNeedsOutput      // Generating a depfile requires an output filename
    | SnapshotAndRunSnapshot  // Specifying an option to generate a snapshot and run using a snapshot is invalid.

  /** The checks at the end of Options::ParseArguments, in order: the
      snapshot depfile alias is folded into the depfile, and `--snapshot`
      without a kind selects a kernel snapshot. */
  function CheckConsistency(o: ParsedOptions, runAppSnapshot: bool): (r: Result<ParsedOptions, OptionsError>)
    ensures r.Ok? ==> WellFormed(r.value, runAppSnapshot)
    ensures r.Ok? ==> r.value.packagesFile == o.packagesFile &&
                      r.value.snapshotFilename == o.snapshotFilename &&
                      r.value.depfileOutputFilename == o.depfileOutputFilename
    ensures r.Ok? ==> r.value.depfile == (if o.snapshotDepsFilename.Some? then o.snapshotDepsFilename else o.depfile)
    ensures r.Ok? && o.genSnapshotKind != None_ ==> r.value.genSnapshotKind == o.genSnapshotKind && !runAppSnapshot
    ensures r == Err(BothDepfiles) <==> o.snapshotDepsFilename.Some? && o.depfile.Some?
  {
    if o.snapshotDepsFilename.Some? && o.depfile.Some? then Err(BothDepfiles)
    else
      var depfile := if o.snapshotDepsFilename.Some? then o.snapshotDepsFilename else o.depfile;
      var o1 := o.(depfile := depfile, snapshotDepsFilename := None);
      if o1.packagesFile.Some? && |o1.packagesFile.value| == 0 then Err(EmptyPackagesFile)
      else if o1.genSnapshotKind != None_ && o1.snapshotFilename.None? then Err(SnapshotNeedsFilename)
      else if o1.genSnapshotKind == None_ && o1.depfile.Some? && o1.snapshotFilename.None?
              && o1.depfileOutputFilename.None? then Err(DepfileNeedsOutput)
      else if o1.genSnapshotKind != None_ && runAppSnapshot then Err(SnapshotAndRunSnapshot)
      else if o1.snapshotFilename.Some? && o1.genSnapshotKind == None_ then Ok(o1.(genSnapshotKind := Kernel))
      else Ok(o1)
  }

  /** What a successful parse guarantees to the rest of the launcher. */
  predicate WellFormed(o: ParsedOptions, runAppSnapshot: bool) {
    && o.snapshotDepsFilename.None?
    && (o.packagesFile.Some? ==> |o.packagesFile.value| > 0)
    && (o.genSnapshotKind != None_ <==> o.snapshotFilename.Some?)
    && (o.depfile.Some? ==> o.snapshotFilename.Some? || o.depfileOutputFilename.Some?)
  }

  /** The checks accept exactly the options that can be made well formed by
      folding the alias and defaulting the kind. */
  lemma CheckConsistencyAccepts(o: ParsedOptions, runAppSnapshot: bool)
    ensures CheckConsistency(o, runAppSnapshot).Ok? <==>
            && !(o.snapshotDepsFilename.Some? && o.depfile.Some?)
            && (o.packagesFile.Some? ==> |o.packagesFile.value| > 0)
            && (o.genSnapshotKind != None_ ==> o.snapshotFilename.Some?)
            && ((o.depfile.Some? || o.snapshotDepsFilename.Some?) ==>
                  o.snapshotFilename.Some? || o.depfileOutputFilename.Some?)
            && !(o.genSnapshotKind != None_ && runAppSnapshot)
  {
  }

  /** The generate-and-run check reads the kind before `--snapshot` selects
      the kernel default, so a bare `--snapshot` is accepted while running
      from an app snapshot, and leaves a snapshot kind set. */
  lemma SnapshotDefaultAfterRunCheck(file: CString)
    ensures var o := ParsedOptions(None, None, None, None_, Some(file), None);
            CheckConsistency(o, true) == Ok(o.(genSnapshotKind := Kernel))
  {
  }

  /** Options that pass the checks pass them again unchanged, except in the
      one case above: a snapshot file named while running from an app
      snapshot, whose defaulted kind the second pass rejects. */
  lemma CheckConsistencyIdempotent(o: ParsedOptions, runAppSnapshot: bool)
    requires CheckConsistency(o, runAppSnapshot).Ok?
    ensures CheckConsistency(CheckConsistency(o, runAppSnapshot).value, runAppSnapshot)
            == CheckConsistency(o, runAppSnapshot)
            <==> !(runAppSnapshot && o.snapshotFilename.Some?)
  {
  }
}
