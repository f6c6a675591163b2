/**
  The capture helper's start-up (Capture/main.cpp, main): its options, the
  check that they suffice, where it writes its log, and the environment it
  hands the game in hook mode.

  argv[1..] is read as a sequence of tokens: "--target" and "--memname"
  take the following argument when there is one, "--hook" and "--desktop"
  are flags, and every other argument (a value flag with nothing after it
  included) is ignored.  Strings stand for the program's ANSI byte strings:
  each character is one byte.
 */
module CaptureOptions {
  import opened Text

  datatype Options = Options(target: string, memName: string, hook: bool, desktop: bool)

  const Defaults: Options := Options("", "", false, false)

  datatype Token = TargetToken(value: string) | MemNameToken(value: string) | HookToken | DesktopToken
                 | Ignored(arg: string)

  function Tokens(args: seq<string>): seq<Token>
    decreases |args|
  {
    if args == [] then []
    else if args[0] == "--target" && |args| > 1 then [TargetToken(args[1])] + Tokens(args[2..])
    else if args[0] == "--memname" && |args| > 1 then [MemNameToken(args[1])] + Tokens(args[2..])
    else if args[0] == "--hook" then [HookToken] + Tokens(args[1..])
    else if args[0] == "--desktop" then [DesktopToken] + Tokens(args[1..])
    else [Ignored(args[0])] + Tokens(args[1..])
  }

  /** The arguments a token was read from. */
  function Words(t: Token): seq<string> {
    match t
    case TargetToken(v) => ["--target", v]
    case MemNameToken(v) => ["--memname", v]
    case HookToken => ["--hook"]
    case DesktopToken => ["--desktop"]
    case Ignored(a) => [a]
  }

  function Flatten(ts: seq<Token>): seq<string> {
    if ts == [] then [] else Words(ts[0]) + Flatten(ts[1..])
  }

  /** Tokenising loses nothing: every argument belongs to exactly one token, in order. */
  lemma {:induction false} TokensFlatten(args: seq<string>)
    ensures Flatten(Tokens(args)) == args
    decreases |args|
  {
    if args != [] {
      var ts := Tokens(args);
      if (args[0] == "--target" || args[0] == "--memname") && |args| > 1 {
        TokensFlatten(args[2..]);
        assert ts[1..] == Tokens(args[2..]);
        assert args == [args[0], args[1]] + args[2..];
      } else {
        TokensFlatten(args[1..]);
        assert ts[1..] == Tokens(args[1..]);
        assert args == [args[0]] + args[1..];
      }
    }
  }

  /** A value flag as the last argument has nothing to take and is ignored. */
  lemma DanglingFlagIgnored(flag: string)
    ensures Tokens([flag]) == [if flag == "--hook" then HookToken
                               else if flag == "--desktop" then DesktopToken
                               else Ignored(flag)]
  {
  }

  function ApplyToken(o: Options, t: Token): Options {
    match t
    case TargetToken(v) => o.(target := v)
    case MemNameToken(v) => o.(memName := v)
    case HookToken => o.(hook := true)
    case DesktopToken => o.(desktop := true)
    case Ignored(_) => o
  }

  /** The options after reading the tokens in order. */
  function Apply(o: Options, ts: seq<Token>): Options
    decreases |ts|
  {
    if ts == [] then o else Apply(ApplyToken(o, ts[0]), ts[1..])
  }

  /** The options main builds from its argv; argv[0], the program, is not read. */
  function Parse(argv: seq<string>): Options
    requires |argv| >= 1
  {
    Apply(Defaults, Tokens(argv[1..]))
  }

  /** The value of the last target token, or d when there is none. */
  function LastTarget(ts: seq<Token>, d: string): string {
    if ts == [] then d
    else if ts[|ts| - 1].TargetToken? then ts[|ts| - 1].value
    else LastTarget(ts[..|ts| - 1], d)
  }

  /** The value of the last memname token, or d when there is none. */
  function LastMemName(ts: seq<Token>, d: string): string {
    if ts == [] then d
    else if ts[|ts| - 1].MemNameToken? then ts[|ts| - 1].value
    else LastMemName(ts[..|ts| - 1], d)
  }

  lemma {:induction false} ApplySnoc(o: Options, ts: seq<Token>, t: Token)
    ensures Apply(o, ts + [t]) == ApplyToken(Apply(o, ts), t)
    decreases |ts|
  {
    if ts == [] {
      assert [] + [t] == [t];
    } else {
      assert (ts + [t])[1..] == ts[1..] + [t];
      ApplySnoc(ApplyToken(o, ts[0]), ts[1..], t);
    }
  }

  /**
    A later occurrence overrides an earlier one: the target and the mapping
    name are the values of the last such tokens, and each flag is set exactly
    when its token occurs.
   */
  lemma {:induction false} ApplyLastWins(o: Options, ts: seq<Token>)
    ensures Apply(o, ts).target == LastTarget(ts, o.target)
    ensures Apply(o, ts).memName == LastMemName(ts, o.memName)
    ensures Apply(o, ts).hook == (o.hook || HookToken in ts)
    ensures Apply(o, ts).desktop == (o.desktop || DesktopToken in ts)
    decreases |ts|
  {
    if ts != [] {
      var front := ts[..|ts| - 1];
      var t := ts[|ts| - 1];
      assert ts == front + [t];
      ApplySnoc(o, front, t);
      ApplyLastWins(o, front);
      assert HookToken in ts <==> HookToken in front || t == HookToken;
      assert DesktopToken in ts <==> DesktopToken in front || t == DesktopToken;
    }
  }

  /** The options let the helper run: a mapping name, and a target unless the desktop is captured. */
  predicate Usable(o: Options) {
    o.memName != [] && (o.target != [] || o.desktop)
  }

  /** main's exit status after reading its options: 1 for a usage error, 0 to carry on. */
  function StartStatus(argv: seq<string>): (code: int)
    requires |argv| >= 1
    ensures code == 1 || code == 0
    ensures code == 1 <==> !Usable(Parse(argv))
  {
    if !Usable(Parse(argv)) then 1 else 0
  }

  /** Without a --memname argument the helper always stops with status 1. */
  lemma {:induction false} NoMemNameFails(argv: seq<string>)
    requires |argv| >= 1
    requires "--memname" !in argv[1..]
    ensures StartStatus(argv) == 1
  {
    var ts := Tokens(argv[1..]);
    TokensFlatten(argv[1..]);
    ApplyLastWins(Defaults, ts);
    NoMemNameToken(ts);
  }

  /** A memname token comes from a "--memname" argument. */
  lemma {:induction false} NoMemNameToken(ts: seq<Token>)
    requires "--memname" !in Flatten(ts)
    ensures LastMemName(ts, "") == ""
    decreases |ts|
  {
    if ts != [] {
      FlattenSnoc(ts[..|ts| - 1], ts[|ts| - 1]);
      assert ts == ts[..|ts| - 1] + [ts[|ts| - 1]];
      assert "--memname" !in Words(ts[|ts| - 1]);
      NoMemNameToken(ts[..|ts| - 1]);
    }
  }

  lemma {:induction false} FlattenSnoc(ts: seq<Token>, t: Token)
    ensures Flatten(ts + [t]) == Flatten(ts) + Words(t)
    decreases |ts|
  {
    if ts == [] {
      assert [] + [t] == [t];
    } else {
      assert (ts + [t])[1..] == ts[1..] + [t];
      FlattenSnoc(ts[1..], t);
    }
  }

  /** The for-loop over argv in main. */
  method ParseArgs(argv: seq<string>) returns (o: Options)
    requires |argv| >= 1
    ensures o == Parse(argv)
  {
    var targetName, memName, hookMode, desktopMode := "", "", false, false;
    var i := 1;
    while i < |argv|
      invariant 1 <= i <= |argv|
      invariant Apply(Options(targetName, memName, hookMode, desktopMode), Tokens(argv[i..])) == Parse(argv)
      decreases |argv| - i
    {
      var arg := argv[i];
      ghost var before := Options(targetName, memName, hookMode, desktopMode);
      if arg == "--target" && i + 1 < |argv| {
        i := i + 1;
        targetName := argv[i];
        assert argv[i - 1..][2..] == argv[i + 1..];
      } else if arg == "--memname" && i + 1 < |argv| {
        i := i + 1;
        memName := argv[i];
        assert argv[i - 1..][2..] == argv[i + 1..];
      } else if arg == "--hook" {
        hookMode := true;
        assert argv[i..][1..] == argv[i + 1..];
      } else if arg == "--desktop" {
        desktopMode := true;
        assert argv[i..][1..] == argv[i + 1..];
      } else {
        assert argv[i..][1..] == argv[i + 1..];
      }
      i := i + 1;
    }
    o := Options(targetName, memName, hookMode, desktopMode);
  }

  const LogFileName: string := "\\GraphicsCapture.log"

  /**
    The log file's path: the executable's directory (everything before the
    last '\\' or '/'), or "." when the path has no separator, followed by
    "\\GraphicsCapture.log".
   */
  function LogPath(exePath: string): (r: string)
    ensures EndsWith(r, LogFileName)
    ensures var dir := r[..|r| - |LogFileName|];
            if LastSep(exePath) < 0 then dir == "."
            else StartsWith(exePath, dir) && |dir| < |exePath| && IsSep(exePath[|dir|]) &&
                 forall j :: |dir| < j < |exePath| ==> !IsSep(exePath[j])
  {
    var k := LastSep(exePath);
    var dir := if k >= 0 then exePath[..k] else ".";
    var r := dir + LogFileName;
    assert r[..|r| - |LogFileName|] == dir;
    assert r[|r| - |LogFileName|..] == LogFileName;
    r
  }

  // ---- Hook mode: the environment handed to the game ----

  const MemNameVar: string := "CAPTURE_MEMNAME="
  const LogPathVar: string := "CAPTURE_LOGPATH="

  /** The block main builds, as the bytes CreateProcessA receives (c_str adds one more NUL). */
  function EnvBlockBytes(memName: string, logPath: string): string {
    MemNameVar + memName + "\0" + LogPathVar + logPath + "\0" + "\0"
  }

  /** CreateProcess creation flags. */
  const CreateSuspended: bv32 := 0x0000_0004
  const CreateUnicodeEnvironment: bv32 := 0x0000_0400

  /** The flags main passes, and the flags an ANSI block needs. */
  const HookFlagsAsWritten: bv32 := CreateSuspended | CreateUnicodeEnvironment
  const HookFlags: bv32 := CreateSuspended

  function Codes(s: string): (r: seq<int>)
    ensures |r| == |s| && forall j :: 0 <= j < |s| ==> r[j] == s[j] as int
  {
    if s == [] then [] else [s[0] as int] + Codes(s[1..])
  }

  /** The units of a block read as UTF-16, least significant byte first; an odd last byte is dropped. */
  function Utf16Units(b: string): seq<int>
    decreases |b|
  {
    if |b| < 2 then [] else [b[0] as int + 256 * (b[1] as int)] + Utf16Units(b[2..])
  }

  /** Index of the first zero unit, or |u|. */
  function FirstZero(u: seq<int>): (k: nat)
    ensures k <= |u| && (k < |u| ==> u[k] == 0)
    ensures forall j :: 0 <= j < k ==> u[j] != 0
  {
    if u == [] || u[0] == 0 then 0 else 1 + FirstZero(u[1..])
  }

  /** The variables of an environment block: zero-terminated entries up to the empty one. */
  function Variables(u: seq<int>): seq<seq<int>>
    decreases |u|
  {
    var k := FirstZero(u);
    if k == 0 then []
    else if k == |u| then [u]
    else [u[..k]] + Variables(u[k + 1..])
  }

  /** The variables the game process sees, for the given creation flags. */
  function ChildVariables(block: string, flags: bv32): seq<seq<int>> {
    if flags & CreateUnicodeEnvironment != 0 then Variables(Utf16Units(block)) else Variables(Codes(block))
  }

  lemma ZeroFree(s: string)
    requires '\0' !in s
    ensures forall j :: 0 <= j < |Codes(s)| ==> Codes(s)[j] != 0
  {
    forall j | 0 <= j < |s| ensures Codes(s)[j] != 0 {
      assert s[j] in s;
    }
  }

  lemma FirstZeroAfter(x: seq<int>, rest: seq<int>)
    requires forall j :: 0 <= j < |x| ==> x[j] != 0
    ensures FirstZero(x + [0] + rest) == |x|
  {
    var u := x + [0] + rest;
    assert u[|x|] == 0;
    assert forall j :: 0 <= j < |x| ==> u[j] == x[j];
  }

  lemma CodesConcat(a: string, b: string)
    ensures Codes(a + b) == Codes(a) + Codes(b)
  {
    var l, r := Codes(a + b), Codes(a) + Codes(b);
    forall j | 0 <= j < |l|
      ensures l[j] == r[j]
    {
      if j < |a| {
        assert (a + b)[j] == a[j];
      } else {
        assert (a + b)[j] == b[j - |a|];
      }
    }
  }

  /** One entry is read off the front of a block. */
  lemma VariablesStep(x: seq<int>, rest: seq<int>)
    requires x != []
    requires forall j :: 0 <= j < |x| ==> x[j] != 0
    ensures Variables(x + [0] + rest) == [x] + Variables(rest)
  {
    var u := x + [0] + rest;
    FirstZeroAfter(x, rest);
    assert u[..|x|] == x;
    assert u[|x| + 1..] == rest;
  }

  /** Two zero-free, non-empty entries followed by the terminating empty entry. */
  lemma TwoVariables(ca: seq<int>, cb: seq<int>)
    requires ca != [] && cb != []
    requires forall j :: 0 <= j < |ca| ==> ca[j] != 0
    requires forall j :: 0 <= j < |cb| ==> cb[j] != 0
    ensures Variables(ca + [0] + (cb + [0] + [0])) == [ca, cb]
  {
    VariablesStep(ca, cb + [0] + [0]);
    VariablesStep(cb, [0]);
    assert Variables([0]) == [];
  }

  lemma EnvBlockCodes(a: string, b: string)
    ensures Codes(a + "\0" + b + "\0" + "\0") == Codes(a) + [0] + (Codes(b) + [0] + [0])
  {
    var zz := "\0" + "\0";
    var u := "\0" + (b + zz);
    EnvBlockShape(a, b);
    CodesConcat(a, u);
    CodesConcat("\0", b + zz);
    CodesConcat(b, zz);
    assert Codes(zz) == [0] + [0];
    assert Codes("\0") == [0];
    IntsShape(Codes(a), Codes(b));
  }

  lemma EnvBlockShape(a: string, b: string)
    ensures a + "\0" + b + "\0" + "\0" == a + ("\0" + (b + ("\0" + "\0")))
  {
  }

  lemma IntsShape(x: seq<int>, y: seq<int>)
    ensures x + ([0] + (y + ([0] + [0]))) == x + [0] + (y + [0] + [0])
  {
  }


  /**
    Read as ANSI (flags without CREATE_UNICODE_ENVIRONMENT), the game sees
    exactly the two variables, for any mapping name and log path without NUL.
   */
  lemma HookEnvironment(memName: string, logPath: string)
    requires '\0' !in memName && '\0' !in logPath
    ensures ChildVariables(EnvBlockBytes(memName, logPath), HookFlags) ==
            [Codes(MemNameVar + memName), Codes(LogPathVar + logPath)]
  {
    var a := MemNameVar + memName;
    var b := LogPathVar + logPath;
    assert '\0' !in a && '\0' !in b;
    assert HookFlags & CreateUnicodeEnvironment == 0;
    assert EnvBlockBytes(memName, logPath) == a + "\0" + b + "\0" + "\0";
    EnvBlockCodes(a, b);
    ZeroFree(a);
    ZeroFree(b);
    TwoVariables(Codes(a), Codes(b));
  }

  /**
    With the flags as written the ANSI block is read as UTF-16: its first
    unit pairs the bytes 'C' and 'A', so the first variable the game sees
    starts with U+4143 instead of "CAPTURE_MEMNAME=".
   */
  lemma HookEnvironmentAsWritten(memName: string, logPath: string)
    ensures var vars := ChildVariables(EnvBlockBytes(memName, logPath), HookFlagsAsWritten);
            vars != [] && vars[0] != [] && vars[0][0] == 0x4143 && vars[0][0] != 'C' as int
  {
    var block := EnvBlockBytes(memName, logPath);
    assert HookFlagsAsWritten & CreateUnicodeEnvironment != 0;
    assert block[0] == 'C' && block[1] == 'A';
    var u := Utf16Units(block);
    assert u[0] == 0x4143;
  }
}
