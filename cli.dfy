/*
 * The `runserver` argument rewriting of the command-line entry point
 * (src/django_quik/cli.py): Django's development server is moved to the
 * port 8001 on the host the user gave to runserver, and the user's host and
 * port are returned as Django Quik's own address.
 *
 * `sys.argv` is an object whose list the rewriting changes in place, and
 * which it may extend by one element.
 */
module Cli {
  import opened Text

  /** 127.0.0.1, the loopback address, written as its four groups. */
  const LoopbackGroups: seq<string> := ["127", "0", "0", "1"]
  const DefaultHost: string := Join(LoopbackGroups, ".")

  /** Django Quik's default port, and the port Django's server is moved to (DJANGO_PROXY_PORT). */
  const DefaultQuikPort: nat := 8000
  const DefaultProxyPort: nat := 8001

  /** The address `manage.py runserver` is given when it names none: 127.0.0.1:8001. */
  const DefaultProxyAddress: string := DefaultHost + ":" + NatToString(DefaultProxyPort)

  /**
   * A port as the rewriting returns it: the text after the colon of the
   * user's address, or a number (the default, or a port that went through
   * the swap).
   */
  datatype Port = PortNumber(n: int) | PortText(text: string)

  /** The numeric value of a port: `int(...)` of its text. */
  function PortValue(p: Port): Option<int>
  {
    match p
    case PortNumber(n) => Some(n)
    case PortText(t) => ParseInt(t)
  }

  /** What override_run_server_args returns: host, Django Quik's port, Django's port. */
  datatype Binding = Binding(host: string, quikPort: Port, djangoPort: int)

  const Defaults := Binding(DefaultHost, PortNumber(DefaultQuikPort), DefaultProxyPort)

  // ---------------------------------------------------------------------------
  // The address pattern ^\d{1,3}(\.\d{1,3}){3}:\d{1,5}$
  // ---------------------------------------------------------------------------

  /** Between `lo` and `hi` ASCII digits. */
  predicate DigitRun(s: string, lo: nat, hi: nat)
  {
    lo <= |s| <= hi && AllDigits(s)
  }

  /** Four dot-separated groups of one to three digits. */
  predicate DottedQuad(s: string)
  {
    var groups := Split(s, ".");
    |groups| == 4 && forall k :: 0 <= k < 4 ==> DigitRun(groups[k], 1, 3)
  }

  /** The whole text is a dotted quad, a colon, and one to five digits. */
  predicate StrictAddress(t: string)
  {
    var parts := Split(t, ":");
    |parts| == 2 && DottedQuad(parts[0]) && DigitRun(parts[1], 1, 5)
  }

  /**
   * `re.match` of the address pattern: `$` also matches right before a
   * final newline, so an address followed by one LF matches too.
   */
  predicate IsAddress(arg: string)
  {
    StrictAddress(arg) || (|arg| > 0 && arg[|arg| - 1] == '\n' && StrictAddress(arg[..|arg| - 1]))
  }

  /** `host, quik_serve_port = bind_address.split(':')`. */
  function HostOf(arg: string): string
  {
    Split(arg, ":")[0]
  }

  function PortOf(arg: string): string
  {
    var parts := Split(arg, ":");
    if |parts| >= 2 then parts[1] else ""
  }

  /** `f'{host}:{port}'`: the argument naming the address Django's server is moved to. */
  function Rebound(arg: string, port: nat): string
  {
    HostOf(arg) + ":" + NatToString(port)
  }

  /** The index of the last address among the arguments from position 2 on. */
  function LastAddress(args: seq<string>): (r: Option<nat>)
    ensures r.Some? ==> 2 <= r.value < |args|
  {
    if |args| <= 2 then None
    else if IsAddress(args[|args| - 1]) then Some(|args| - 1)
    else LastAddress(args[..|args| - 1])
  }

  /** The last address is an address, and no argument after it is one. */
  lemma {:induction false} LastAddressSpec(args: seq<string>)
    ensures var r := LastAddress(args);
            (r.Some? ==> IsAddress(args[r.value]) && forall j :: r.value < j < |args| ==> !IsAddress(args[j])) &&
            (r.None? ==> forall j :: 2 <= j < |args| ==> !IsAddress(args[j]))
  {
    if |args| > 2 && !IsAddress(args[|args| - 1]) {
      var prefix := args[..|args| - 1];
      LastAddressSpec(prefix);
      assert forall j :: 0 <= j < |prefix| ==> prefix[j] == args[j];
    }
  }

  /** Looking at one more argument: it is the last address if it is one. */
  lemma LastAddressStep(args: seq<string>, i: nat)
    requires 2 <= i < |args|
    ensures LastAddress(args[..i + 1]) == if IsAddress(args[i]) then Some(i) else LastAddress(args[..i])
  {
    assert args[..i + 1][..i] == args[..i];
  }

  /**
   * Four groups of one to three digits joined by dots, a colon and one to
   * five digits make an address, which splits back into host and port.
   */
  lemma AddressOf(groups: seq<string>, port: string)
    requires |groups| == 4 && forall k :: 0 <= k < 4 ==> DigitRun(groups[k], 1, 3)
    requires DigitRun(port, 1, 5)
    ensures var host := Join(groups, ".");
            IsAddress(host + ":" + port) && Split(host + ":" + port, ":") == [host, port]
  {
    var host := Join(groups, ".");
    forall k | 0 <= k < 4 ensures '.' !in groups[k] && ':' !in groups[k] {
      DigitsStripped(groups[k]);
    }
    SplitJoin(groups, ".");
    JoinFree(groups, ".", ':');
    DigitsStripped(port);
    SplitJoin([host, port], ":");
    assert Join([host, port], ":") == host + ":" + port;
  }

  /** A character absent from the pieces and the separator is absent from their join. */
  lemma {:induction false} JoinFree(parts: seq<string>, sep: string, c: char)
    requires c !in sep && forall k :: 0 <= k < |parts| ==> c !in parts[k]
    ensures c !in Join(parts, sep)
    decreases |parts|
  {
    if |parts| > 1 {
      JoinFree(parts[1..], sep, c);
    }
  }

  /** The two pieces of a strict address, around its one colon, hold no colon. */
  lemma StrictPieces(t: string)
    requires StrictAddress(t)
    ensures var parts := Split(t, ":");
            ':' !in parts[0] && ':' !in parts[1] && t == parts[0] + ":" + parts[1]
  {
    var parts := Split(t, ":");
    SplitPiecesFree(t, ":");
    FindChar(parts[0], ':');
    FindChar(parts[1], ':');
    JoinSplit(t, ":");
  }

  /** An address followed by a newline splits like the address, the newline staying on the port. */
  lemma SplitNewline(t: string)
    requires StrictAddress(t)
    ensures var parts := Split(t, ":");
            Split(t + "\n", ":") == [parts[0], parts[1] + "\n"]
  {
    var parts := Split(t, ":");
    StrictPieces(t);
    var port := parts[1] + "\n";
    assert ':' !in port;
    SplitJoin([parts[0], port], ":");
    assert Join([parts[0], port], ":") == t + "\n";
  }

  /** The host of an address is a dotted quad. */
  lemma HostOfAddress(arg: string)
    requires IsAddress(arg)
    ensures DottedQuad(HostOf(arg))
  {
    if !StrictAddress(arg) {
      var t := arg[..|arg| - 1];
      assert arg == t + "\n";
      SplitNewline(t);
    }
  }

  /** `int(...)` of a run of digits followed by a newline: the newline is stripped. */
  lemma ParseIntNewline(digits: string)
    requires |digits| > 0 && AllDigits(digits)
    ensures ParseInt(digits + "\n") == Some(DigitsValue(digits))
  {
    var s := digits + "\n";
    DigitsStripped(digits);
    assert !IsSpace(s[0]);
    assert TrimLeft(s) == s;
    assert s[..|s| - 1] == digits;
    assert TrimRight(digits) == digits;
    assert Strip(s) == digits;
  }

  /** The port of an address is a number. */
  lemma PortOfAddress(arg: string)
    requires IsAddress(arg)
    ensures ParseInt(PortOf(arg)).Some?
  {
    if StrictAddress(arg) {
      ParseIntDigits(Split(arg, ":")[1]);
    } else {
      var t := arg[..|arg| - 1];
      assert arg == t + "\n";
      SplitNewline(t);
      ParseIntNewline(Split(t, ":")[1]);
    }
  }

  /** Both default ports are written with four digits. */
  lemma DefaultPortsText()
    ensures |NatToString(DefaultQuikPort)| == 4 && |NatToString(DefaultProxyPort)| == 4
  {
    assert NatToString(800) == NatToString(80) + "0";
    assert NatToString(80) == NatToString(8) + "0";
  }

  lemma DefaultProxyAddressParts()
    ensures IsAddress(DefaultProxyAddress)
    ensures HostOf(DefaultProxyAddress) == DefaultHost
    ensures PortOf(DefaultProxyAddress) == NatToString(DefaultProxyPort)
  {
    var g := LoopbackGroups;
    assert DigitRun(g[0], 1, 3) && DigitRun(g[1], 1, 3) && DigitRun(g[2], 1, 3) && DigitRun(g[3], 1, 3);
    DefaultPortsText();
    AddressOf(g, NatToString(DefaultProxyPort));
  }

  /**
   * An argument rewritten to a default port stays an address with the same
   * host and the new port, and rewriting it again changes nothing.
   */
  lemma ReboundPort(arg: string, port: nat)
    requires IsAddress(arg) && (port == DefaultQuikPort || port == DefaultProxyPort)
    ensures IsAddress(Rebound(arg, port)) && HostOf(Rebound(arg, port)) == HostOf(arg)
    ensures ParseInt(PortOf(Rebound(arg, port))) == Some(port as int)
    ensures Rebound(Rebound(arg, port), port) == Rebound(arg, port)
  {
    var host := HostOf(arg);
    HostOfAddress(arg);
    var groups := Split(host, ".");
    JoinSplit(host, ".");
    DefaultPortsText();
    AddressOf(groups, NatToString(port));
    ParseIntNatToString(port);
  }

  // ---------------------------------------------------------------------------
  // Rewriting the address arguments
  // ---------------------------------------------------------------------------

  /** The new text of one address argument: as the code writes it, or corrected. */
  function RewriteAddress(arg: string, corrected: bool): string
  {
    if corrected then ReboundCorrected(arg) else ReboundAsWritten(arg)
  }

  /** Every address from position 2 on rewritten, everything else kept. */
  function RewriteAddresses(args: seq<string>, corrected: bool): (r: seq<string>)
    ensures |r| == |args|
  {
    seq(|args|, i requires 0 <= i < |args| => if i >= 2 && IsAddress(args[i]) then RewriteAddress(args[i], corrected) else args[i])
  }

  /** The arguments once the loop has rewritten those before index `i`. */
  function RewrittenUpTo(args: seq<string>, i: nat, corrected: bool): (r: seq<string>)
    requires i <= |args|
    ensures |r| == |args|
  {
    RewriteAddresses(args, corrected)[..i] + args[i..]
  }

  /** The loop reads argument `i` as the user gave it, and rewriting it advances the prefix. */
  lemma RewrittenUpToStep(args: seq<string>, i: nat, corrected: bool)
    requires i < |args|
    ensures RewrittenUpTo(args, i, corrected)[i] == args[i]
    ensures RewrittenUpTo(args, i + 1, corrected) ==
              RewrittenUpTo(args, i, corrected)[i := RewriteAddresses(args, corrected)[i]]
  {
    var t := RewriteAddresses(args, corrected);
    assert (t[..i] + args[i..])[i] == args[i];
    assert t[..i + 1] + args[i + 1..] == (t[..i] + args[i..])[i := t[i]];
  }

  /** Once the loop has passed every argument, all addresses are rewritten. */
  lemma RewrittenAll(args: seq<string>, corrected: bool)
    ensures RewrittenUpTo(args, |args|, corrected) == RewriteAddresses(args, corrected)
  {
    assert RewriteAddresses(args, corrected)[..|args|] == RewriteAddresses(args, corrected);
    assert args[|args|..] == [];
  }

  /**
   * One address argument: its host and port become Django Quik's, the ports
   * swap when they are equal, and the argument is rewritten to the Django
   * port. The swap exchanges equal values, so the Django port never changes.
   */
  method BindAddress(arg: string, djangoPort: int) returns (host: string, quikPort: Port, newDjangoPort: int, rebound: string)
    requires djangoPort >= 0
    ensures host == HostOf(arg) && newDjangoPort == djangoPort
    ensures quikPort == if ParseInt(PortOf(arg)) == Some(djangoPort) then PortNumber(djangoPort) else PortText(PortOf(arg))
    ensures rebound == Rebound(arg, djangoPort)
  {
    host, quikPort, newDjangoPort := HostOf(arg), PortText(PortOf(arg)), djangoPort;
    if ParseInt(PortOf(arg)) == Some(djangoPort) {
      quikPort, newDjangoPort := PortNumber(djangoPort), ParseInt(PortOf(arg)).value;
    }
    rebound := host + ":" + NatToString(newDjangoPort);
  }

  // ---------------------------------------------------------------------------
  // override_run_server_args, as written
  // ---------------------------------------------------------------------------

  /**
   * Django Quik's port for an address: its text, or, when it equals
   * the Django port, that port as a number (the "swap" of two equal values).
   */
  function QuikPortAsWritten(arg: string): Port
  {
    if ParseInt(PortOf(arg)) == Some(DefaultProxyPort as int) then PortNumber(DefaultProxyPort) else PortText(PortOf(arg))
  }

  /** An address argument, pointed at Django's port 8001. */
  function ReboundAsWritten(arg: string): string
  {
    Rebound(arg, DefaultProxyPort)
  }

  /** What override_run_server_args returns for an argument list. */
  function BindingAsWritten(args: seq<string>): Binding
  {
    if |args| == 2 then Defaults
    else match LastAddress(args)
      case None => Defaults
      case Some(i) => Binding(HostOf(args[i]), QuikPortAsWritten(args[i]), DefaultProxyPort)
  }

  /** What the argument list becomes. */
  function ArgsAsWritten(args: seq<string>): seq<string>
  {
    if |args| == 2 then args + [DefaultProxyAddress]
    else RewriteAddresses(args, false)
  }

  /** `sys.argv`. */
  class SysArgv {
    var args: seq<string>

    constructor (args: seq<string>)
      ensures this.args == args
    {
      this.args := args;
    }
  }

  /** The binding once the loop has looked at the arguments before index `i`. */
  function BindingUpTo(args: seq<string>, i: nat): Binding
    requires 2 <= i <= |args|
  {
    match LastAddress(args[..i])
    case None => Defaults
    case Some(k) => Binding(HostOf(args[k]), QuikPortAsWritten(args[k]), DefaultProxyPort)
  }

  /** One turn of the loop: a matching argument decides the binding, any other leaves it. */
  lemma BindingUpToStep(args: seq<string>, i: nat)
    requires 2 <= i < |args|
    ensures BindingUpTo(args, i + 1) ==
              if IsAddress(args[i]) then Binding(HostOf(args[i]), QuikPortAsWritten(args[i]), DefaultProxyPort)
              else BindingUpTo(args, i)
  {
    LastAddressStep(args, i);
    if !IsAddress(args[i]) && LastAddress(args[..i]).Some? {
      var k := LastAddress(args[..i]).value;
      assert args[..i + 1][k] == args[..i][k] == args[k];
    }
  }

  /** One turn of the loop: an address argument is rebound and gives its host and port to the binding. */
  method RebindAt(argv: SysArgv, ghost original: seq<string>, i: nat, binding: Binding) returns (next: Binding)
    requires 2 <= i < |original| == |argv.args|
    requires argv.args == RewrittenUpTo(original, i, false) && binding == BindingUpTo(original, i)
    modifies argv
    ensures argv.args == RewrittenUpTo(original, i + 1, false) && next == BindingUpTo(original, i + 1)
  {
    BindingUpToStep(original, i);
    RewrittenUpToStep(original, i, false);
    var arg := argv.args[i];
    next := binding;
    if IsAddress(arg) {
      var host, quikPort, djangoPort, rebound := BindAddress(arg, binding.djangoPort);
      next := Binding(host, quikPort, djangoPort);
      argv.args := argv.args[i := rebound];
    }
  }


  /** The three cases of the rewriting: two arguments, fewer, more. */
  lemma OverrideCases(args: seq<string>)
    ensures |args| == 2 ==> ArgsAsWritten(args) == args + [DefaultProxyAddress] && BindingAsWritten(args) == Defaults
    ensures |args| < 2 ==> ArgsAsWritten(args) == args && BindingAsWritten(args) == Defaults
    ensures |args| > 2 ==> ArgsAsWritten(args) == RewrittenUpTo(args, |args|, false) && BindingAsWritten(args) == BindingUpTo(args, |args|)
    ensures |args| > 2 ==> RewrittenUpTo(args, 2, false) == args && BindingUpTo(args, 2) == Defaults
  {
    if |args| < 2 {
      assert RewriteAddresses(args, false) == args;
    } else if |args| > 2 {
      RewrittenAll(args, false);
      assert args[..|args|] == args;
      var t := RewriteAddresses(args, false);
      assert t[..2] == args[..2] by {
        assert t[0] == args[0] && t[1] == args[1];
      }
      assert args[..2] + args[2..] == args;
    }
  }

  /**
   * `override_run_server_args`: with only `manage.py runserver`, append the
   * default Django address; otherwise point every address argument at the
   * Django port, keeping its host, and return the host and port of the last
   * one as Django Quik's.
   */
  method OverrideRunServerArgs(argv: SysArgv) returns (binding: Binding)
    modifies argv
    ensures argv.args == ArgsAsWritten(old(argv.args))
    ensures binding == BindingAsWritten(old(argv.args))
  {
    ghost var original := argv.args;
    OverrideCases(original);
    binding := Defaults;
    if |argv.args| == 2 {
      // no address given: Django's server gets the default one
      argv.args := argv.args + [DefaultProxyAddress];
      return;
    }
    if |argv.args| < 2 {
      // range(2, len(sys.argv)) is empty
      return;
    }
    var i := 2;
    while i < |argv.args|
      invariant 2 <= i <= |original| == |argv.args|
      invariant argv.args == RewrittenUpTo(original, i, false)
      invariant binding == BindingUpTo(original, i)
    {
      binding := RebindAt(argv, original, i, binding);
      i := i + 1;
    }
  }



  /**
   * The list keeps its length, unless it had two elements, when the address
   * of Django's port on the loopback host is appended.
   */
  lemma ArgsAsWrittenAppends(args: seq<string>)
    requires |args| == 2
    ensures exists a :: (ArgsAsWritten(args) == args + [a] && IsAddress(a) &&
              HostOf(a) == DefaultHost && ParseInt(PortOf(a)) == Some(DefaultProxyPort as int))
  {
    DefaultProxyAddressParts();
    ParseIntNatToString(DefaultProxyPort);
    assert ArgsAsWritten(args) == args + [DefaultProxyAddress];
  }

  /**
   * Otherwise the rewriting only touches address arguments from position 2
   * on: every other argument is unchanged, and every address keeps its host
   * and is pointed at port 8001.
   */
  lemma ArgsAsWrittenRewrites(args: seq<string>, i: nat)
    requires |args| != 2 && i < |args|
    ensures |ArgsAsWritten(args)| == |args|
    ensures i < 2 || !IsAddress(args[i]) ==> ArgsAsWritten(args)[i] == args[i]
    ensures 2 <= i && IsAddress(args[i]) ==>
              IsAddress(ArgsAsWritten(args)[i]) && HostOf(ArgsAsWritten(args)[i]) == HostOf(args[i]) &&
              ParseInt(PortOf(ArgsAsWritten(args)[i])) == Some(DefaultProxyPort as int)
  {
    if 2 <= i && IsAddress(args[i]) {
      var r := ArgsAsWritten(args)[i];
      assert r == ReboundAsWritten(args[i]);
      ReboundPort(args[i], DefaultProxyPort);
    }
  }

  /** Rewriting is idempotent: a second pass over a rewritten list changes nothing. */
  lemma ArgsAsWrittenIdempotent(args: seq<string>)
    requires |args| != 2
    ensures ArgsAsWritten(ArgsAsWritten(args)) == ArgsAsWritten(args)
  {
    var once := ArgsAsWritten(args);
    var twice := ArgsAsWritten(once);
    forall i | 0 <= i < |args| ensures twice[i] == once[i] {
      if 2 <= i && IsAddress(args[i]) {
        assert once[i] == ReboundAsWritten(args[i]);
        ReboundPort(args[i], DefaultProxyPort);
        assert twice[i] == ReboundAsWritten(once[i]);
      } else {
        assert once[i] == args[i];
      }
    }
  }

  /** With no address among the arguments, the defaults are returned. */
  lemma NoAddressDefaults(args: seq<string>)
    requires forall j :: 2 <= j < |args| ==> !IsAddress(args[j])
    ensures BindingAsWritten(args) == Defaults
  {
    LastAddressSpec(args);
  }

  /**
   * The host and Django Quik's port come from the last address argument, and
   * that port has that argument's numeric value.
   */
  lemma BindingFromLastAddress(args: seq<string>, i: nat)
    requires 2 <= i < |args| && IsAddress(args[i])
    requires forall j :: i < j < |args| ==> !IsAddress(args[j])
    ensures BindingAsWritten(args).host == HostOf(args[i])
    ensures PortValue(BindingAsWritten(args).quikPort) == ParseInt(PortOf(args[i]))
    ensures ParseInt(PortOf(args[i])).Some?
  {
    LastAddressSpec(args);
    assert LastAddress(args) == Some(i);
    PortOfAddress(args[i]);
  }

  /**
   * The swap exchanges two equal values: whatever the arguments, Django's
   * server is bound to port 8001.
   */
  lemma DjangoPortFixed(args: seq<string>)
    ensures BindingAsWritten(args).djangoPort == DefaultProxyPort
  {
  }

  /**
   * A user who asks for port 8001 gets back the same port, 8001, as Django
   * Quik's port and as Django's: `manage.py runserver 127.0.0.1:8001`.
   */
  lemma SamePortReturned()
    ensures var b := BindingAsWritten(["manage.py", "runserver", DefaultProxyAddress]);
            PortValue(b.quikPort) == Some(DefaultProxyPort as int) && b.djangoPort == DefaultProxyPort
  {
    var args := ["manage.py", "runserver", DefaultProxyAddress];
    DefaultProxyAddressParts();
    assert LastAddress(args) == Some(2);
    ParseIntNatToString(DefaultProxyPort);
  }

  // ---------------------------------------------------------------------------
  // override_run_server_args, as intended
  // ---------------------------------------------------------------------------

  /**
   * The port Django's server is moved to for an address: 8001, unless the
   * user asked for that one, when the two ports really swap and Django's
   * server takes Django Quik's default port, 8000.
   */
  function DjangoPortFor(arg: string): nat
  {
    if ParseInt(PortOf(arg)) == Some(DefaultProxyPort as int) then DefaultQuikPort else DefaultProxyPort
  }

  function ReboundCorrected(arg: string): string
  {
    Rebound(arg, DjangoPortFor(arg))
  }

  function BindingCorrected(args: seq<string>): Binding
  {
    if |args| == 2 then Defaults
    else match LastAddress(args)
      case None => Defaults
      case Some(i) => Binding(HostOf(args[i]), PortText(PortOf(args[i])), DjangoPortFor(args[i]))
  }

  function ArgsCorrected(args: seq<string>): seq<string>
  {
    if |args| == 2 then args + [DefaultProxyAddress]
    else RewriteAddresses(args, true)
  }

  /** The corrected binding once the loop has looked at the arguments before index `i`. */
  function CorrectedUpTo(args: seq<string>, i: nat): Binding
    requires 2 <= i <= |args|
  {
    match LastAddress(args[..i])
    case None => Defaults
    case Some(k) => Binding(HostOf(args[k]), PortText(PortOf(args[k])), DjangoPortFor(args[k]))
  }

  lemma CorrectedUpToStep(args: seq<string>, i: nat)
    requires 2 <= i < |args|
    ensures CorrectedUpTo(args, i + 1) ==
              if IsAddress(args[i]) then Binding(HostOf(args[i]), PortText(PortOf(args[i])), DjangoPortFor(args[i]))
              else CorrectedUpTo(args, i)
  {
    LastAddressStep(args, i);
    if !IsAddress(args[i]) && LastAddress(args[..i]).Some? {
      var k := LastAddress(args[..i]).value;
      assert args[..i + 1][k] == args[..i][k] == args[k];
    }
  }

  /** One address argument, with a swap that exchanges the two ports. */
  method BindAddressCorrected(arg: string) returns (host: string, quikPort: Port, djangoPort: nat, rebound: string)
    ensures host == HostOf(arg) && quikPort == PortText(PortOf(arg))
    ensures djangoPort == DjangoPortFor(arg) && rebound == ReboundCorrected(arg)
  {
    host, quikPort, djangoPort := HostOf(arg), PortText(PortOf(arg)), DefaultProxyPort;
    if ParseInt(PortOf(arg)) == Some(djangoPort as int) {
      djangoPort := DefaultQuikPort;
    }
    rebound := host + ":" + NatToString(djangoPort);
  }

  /** One turn of the corrected loop. */
  method RebindAtCorrected(argv: SysArgv, ghost original: seq<string>, i: nat, binding: Binding) returns (next: Binding)
    requires 2 <= i < |original| == |argv.args|
    requires argv.args == RewrittenUpTo(original, i, true) && binding == CorrectedUpTo(original, i)
    modifies argv
    ensures argv.args == RewrittenUpTo(original, i + 1, true) && next == CorrectedUpTo(original, i + 1)
  {
    CorrectedUpToStep(original, i);
    RewrittenUpToStep(original, i, true);
    var arg := argv.args[i];
    next := binding;
    if IsAddress(arg) {
      var host, quikPort, djangoPort, rebound := BindAddressCorrected(arg);
      next := Binding(host, quikPort, djangoPort);
      argv.args := argv.args[i := rebound];
    }
  }


  /** The same three cases for the corrected rewriting. */
  lemma OverrideCasesCorrected(args: seq<string>)
    ensures |args| == 2 ==> ArgsCorrected(args) == args + [DefaultProxyAddress] && BindingCorrected(args) == Defaults
    ensures |args| < 2 ==> ArgsCorrected(args) == args && BindingCorrected(args) == Defaults
    ensures |args| > 2 ==> ArgsCorrected(args) == RewrittenUpTo(args, |args|, true) && BindingCorrected(args) == CorrectedUpTo(args, |args|)
    ensures |args| > 2 ==> RewrittenUpTo(args, 2, true) == args && CorrectedUpTo(args, 2) == Defaults
  {
    if |args| < 2 {
      assert RewriteAddresses(args, true) == args;
    } else if |args| > 2 {
      RewrittenAll(args, true);
      assert args[..|args|] == args;
      var t := RewriteAddresses(args, true);
      assert t[..2] == args[..2] by {
        assert t[0] == args[0] && t[1] == args[1];
      }
      assert args[..2] + args[2..] == args;
    }
  }

  /** override_run_server_args with a swap that exchanges the two ports. */
  method OverrideRunServerArgsCorrected(argv: SysArgv) returns (binding: Binding)
    modifies argv
    ensures argv.args == ArgsCorrected(old(argv.args))
    ensures binding == BindingCorrected(old(argv.args))
  {
    ghost var original := argv.args;
    OverrideCasesCorrected(original);
    binding := Defaults;
    if |argv.args| == 2 {
      // no address given: Django's server gets the default one
      argv.args := argv.args + [DefaultProxyAddress];
      return;
    }
    if |argv.args| < 2 {
      // range(2, len(sys.argv)) is empty
      return;
    }
    var i := 2;
    while i < |argv.args|
      invariant 2 <= i <= |original| == |argv.args|
      invariant argv.args == RewrittenUpTo(original, i, true)
      invariant binding == CorrectedUpTo(original, i)
    {
      binding := RebindAtCorrected(argv, original, i, binding);
      i := i + 1;
    }
  }



  /**
   * With the corrected swap, the two returned ports always differ: Django
   * Quik's port is never the port Django's server is moved to.
   */
  lemma CorrectedPortsDiffer(args: seq<string>)
    ensures var b := BindingCorrected(args);
            PortValue(b.quikPort).Some? && PortValue(b.quikPort).value != b.djangoPort
  {
    LastAddressSpec(args);
    if |args| != 2 && LastAddress(args).Some? {
      PortOfAddress(args[LastAddress(args).value]);
    }
  }

  /** Every rewritten argument's port differs from the port the user wrote in it. */
  lemma CorrectedArgPortsDiffer(args: seq<string>, i: nat)
    requires |args| != 2 && 2 <= i < |args| && IsAddress(args[i])
    ensures IsAddress(ArgsCorrected(args)[i]) && HostOf(ArgsCorrected(args)[i]) == HostOf(args[i])
    ensures ParseInt(PortOf(ArgsCorrected(args)[i])) != ParseInt(PortOf(args[i]))
  {
    assert ArgsCorrected(args)[i] == ReboundCorrected(args[i]);
    ReboundPort(args[i], DjangoPortFor(args[i]));
  }
}
