/**
 Reading the managed SSH configuration back: what a client finds in it for a host.
 */
module SshLookup {
  import opened Text
  import opened TextFacts
  import opened ShellQuote
  import opened SshConfig

  // ---------------------------------------------------------------------------
  // The reader
  // ---------------------------------------------------------------------------

  /** The value that a line gives to a keyword. */
  function ValueOf(line: string, keyword: string): Option<string> {
    if keyword + " " <= TrimStart(line) then Some(TrimStart(line)[|keyword| + 1..]) else None
  }

  /** The first value counts. */
  function SettingIn(lines: seq<string>, keyword: string): Option<string> {
    if lines == [] then None
    else if ValueOf(lines[0], keyword).Some? then ValueOf(lines[0], keyword)
    else SettingIn(lines[1..], keyword)
  }

  /** The lines from the first own head line up to the next head line. */
  function Section(lines: seq<string>, own: LineTest, head: LineTest): seq<string> {
    var start := FirstFrom(lines, 0, own);
    lines[start..SectionEnd(lines, start, head)]
  }

  /** What a configuration says about a host. */
  function Setting(text: string, host: string, keyword: string): Option<string> {
    SettingIn(Section(Lines(text), Naming(host), IsHostLine), keyword)
  }

  /** The value of a flag among arguments that come as flags and values in turn. */
  function FlagValue(args: seq<string>, flag: string): Option<string> {
    if |args| < 2 then None else if args[0] == flag then Some(args[1]) else FlagValue(args[2..], flag)
  }

  /** The value of a flag in a command line, as the shell reads it, after the program and its subcommand. */
  function FlagIn(command: string, flag: string): Option<string> {
    var lexed := ShellWords(command);
    if lexed.NotPlain? || |lexed.words| < 2 then None else FlagValue(lexed.words[2..], flag)
  }

  /** What a client reads about one host, keyword by keyword. */
  function Reading(text: string, host: string): string -> Option<string> {
    keyword => Setting(text, host, keyword)
  }

  // ---------------------------------------------------------------------------
  // Host lines
  // ---------------------------------------------------------------------------

  /** A host line is `Host`, a space and anything, after any whitespace. */
  lemma HostLinesAre(indent: string, rest: string)
    requires Blank(indent)
    ensures IsHostLine(indent + "Host " + rest)
    ensures forall host :: HostLineMatches(indent + "Host " + rest, host) <==> host in Tokens(rest)
  {
    var line := "Host " + rest;
    TrimStartOfIndented(indent, line);
    assert indent + "Host " + rest == indent + line;
    assert line[|"Host "|..] == rest;
  }

  // ---------------------------------------------------------------------------
  // Sections of a laid-out table
  // ---------------------------------------------------------------------------

  /** The first entry of a name. */
  function Entry(table: seq<Install>, name: string): (e: Option<Install>)
    ensures e.Some? ==> e.value in table && e.value.name == name
    ensures e.None? ==> forall x | x in table :: x.name != name
  {
    if table == [] then None
    else if table[0].name == name then Some(table[0])
    else Entry(table[1..], name)
  }

  lemma SectionSkips(pre: seq<string>, rest: seq<string>, own: LineTest, head: LineTest)
    requires forall i | 0 <= i < |pre| :: !own(pre[i])
    ensures Section(pre + rest, own, head) == Section(rest, own, head)
  {
    var start := FirstFrom(rest, 0, own);
    OwnLineSkips(pre, rest, own);
    SectionEndSkips(pre, rest, start, head);
    SliceSkips(pre, rest, start, SectionEnd(rest, start, head));
  }

  lemma SliceSkips<T>(pre: seq<T>, rest: seq<T>, from: nat, until: nat)
    requires from <= until <= |rest|
    ensures (pre + rest)[|pre| + from..|pre| + until] == rest[from..until]
  {
  }

  /** A section at the front runs to the next head line. */
  lemma SectionFirst(first: seq<string>, after: seq<string>, own: LineTest, head: LineTest)
    requires IsSection(first, own, head)
    requires !head("") && (after == [] || (|after| >= 2 && after[0] == "" && head(after[1])))
    ensures Section(first + after, own, head) == first + after[..if after == [] then 0 else 1]
  {
    var lines := first + after;
    var end := if after == [] then |first| else |first| + 1;
    assert lines[0] == first[0];
    assert after != [] ==> lines[|first|] == after[0] && lines[end] == after[1];
    assert forall i | 1 <= i < end :: !head(lines[i]);
    FirstFromPast(lines, 1, end, head);
    assert lines[0..end] == first + after[..end - |first|];
  }

  lemma {:induction false} SettingInAppend(a: seq<string>, b: seq<string>, keyword: string)
    ensures SettingIn(a + b, keyword)
         == if SettingIn(a, keyword).Some? then SettingIn(a, keyword) else SettingIn(b, keyword)
  {
    if a == [] {
      assert a + b == b;
    } else {
      assert (a + b)[1..] == a[1..] + b;
      SettingInAppend(a[1..], b, keyword);
    }
  }

  lemma NothingInBlank(keyword: string)
    ensures SettingIn([""], keyword) == None
  {
    assert SettingIn([""][1..], keyword) == None;
  }

  /** In a laid-out table a name's section says what its entry's block says. */
  lemma {:induction false} SettingInBlocks(layout: Layout, table: seq<Install>, name: string, keyword: string)
    requires forall x | x in table :: Recognises(layout, x, name)
    ensures var section := Section(Blocks(layout, table), layout.own(name), layout.head);
            var entry := Entry(table, name);
            SettingIn(section, keyword) == if entry.Some? then SettingIn(layout.block(entry.value), keyword) else None
  {
    if table != [] {
      var first, rest := layout.block(table[0]), Blocks(layout, table[1..]);
      assert Recognises(layout, table[0], name);
      if table[0].name == name {
        FirstBlock(layout, table, name, keyword);
      } else if |table| == 1 {
        assert Blocks(layout, table) == first + [];
        SectionSkips(first, [], layout.own(name), layout.head);
      } else {
        SettingInBlocks(layout, table[1..], name, keyword);
        Regroup(first, [""], rest);
        SectionSkips(first + [""], rest, layout.own(name), layout.head);
      }
    }
  }

  lemma FirstBlock(layout: Layout, table: seq<Install>, name: string, keyword: string)
    requires table != [] && table[0].name == name && forall x | x in table :: Recognises(layout, x, name)
    ensures SettingIn(Section(Blocks(layout, table), layout.own(name), layout.head), keyword)
         == SettingIn(layout.block(table[0]), keyword)
  {
    var first, rest := layout.block(table[0]), Blocks(layout, table[1..]);
    var after := if |table| == 1 then [] else [""] + rest;
    assert Recognises(layout, table[0], name);
    if |table| > 1 {
      assert Recognises(layout, table[1], name);
      assert rest[0] == layout.block(table[1])[0];
      assert after[..1] == [""];
    }
    SectionFirst(first, after, layout.own(name), layout.head);
    SettingInAppend(first, after[..if after == [] then 0 else 1], keyword);
    NothingInBlank(keyword);
  }

  // ---------------------------------------------------------------------------
  // The block of an install
  // ---------------------------------------------------------------------------

  predicate IsWord(s: string) {
    s != "" && NoWhitespace(s)
  }

  lemma ValueAfterIndent(indent: string, keyword: string, value: string, other: string)
    requires Blank(indent) && IsWord(keyword) && IsWord(other)
    ensures ValueOf(indent + (keyword + " " + value), other) == if keyword == other then Some(value) else None
  {
    var option := keyword + " " + value;
    assert keyword[0] in keyword;
    TrimStartOfIndented(indent, option);
    assert option[|keyword|] == ' ' && option[..|keyword|] == keyword && option[|keyword| + 1..] == value;
    if other + " " <= option {
      assert other == option[..|other|] && option[|other|] == ' ';
      SpacesAlign(keyword, other, option);
    }
  }

  lemma SpacesAlign(a: string, b: string, s: string)
    requires NoWhitespace(a) && NoWhitespace(b) && a <= s && b <= s
    requires |a| < |s| && |b| < |s| && s[|a|] == ' ' && s[|b|] == ' '
    ensures a == b
  {
    assert ' ' !in a && ' ' !in b;
    assert forall k | 0 <= k < |a| :: s[k] == a[k] && a[k] != ' ';
    assert forall k | 0 <= k < |b| :: s[k] == b[k] && b[k] != ' ';
    assert |a| == |b|;
  }

  function IndentPairs(pairs: seq<(string, string)>): (lines: seq<string>)
    ensures |lines| == |pairs| && forall k | 0 <= k < |pairs| :: lines[k] == Indented(pairs[k].0 + " " + pairs[k].1)
  {
    seq(|pairs|, k requires 0 <= k < |pairs| => Indented(pairs[k].0 + " " + pairs[k].1))
  }

  /** Keywords with their values, looked up in order. */
  lemma {:induction false} SettingInPairs(pairs: seq<(string, string)>, k: nat)
    requires k < |pairs| && forall j | 0 <= j < |pairs| :: IsWord(pairs[j].0)
    requires forall j | 0 <= j < k :: pairs[j].0 != pairs[k].0
    ensures SettingIn(IndentPairs(pairs), pairs[k].0) == Some(pairs[k].1)
  {
    ValueAfterIndent("    ", pairs[0].0, pairs[0].1, pairs[k].0);
    if k > 0 {
      assert IndentPairs(pairs)[1..] == IndentPairs(pairs[1..]);
      SettingInPairs(pairs[1..], k - 1);
    }
  }

  /** The settings of a sandbox's host, in order. */
  function HostSettings(command: string): seq<(string, string)> {
    [("User", "sandbox"), ("StrictHostKeyChecking", "no"), ("UserKnownHostsFile", "/dev/null"),
     ("GlobalKnownHostsFile", "/dev/null"), ("LogLevel", "ERROR"), ("ProxyCommand", command)]
  }

  lemma OptionTexts()
    ensures OPTIONS[0] == "User" + " " + "sandbox" && OPTIONS[1] == "StrictHostKeyChecking" + " " + "no"
    ensures OPTIONS[2] == "UserKnownHostsFile" + " " + "/dev/null"
    ensures OPTIONS[3] == "GlobalKnownHostsFile" + " " + "/dev/null"
    ensures OPTIONS[4] == "LogLevel" + " " + "ERROR"
  {
  }

  lemma BlockIsSettings(exe: string, i: Install)
    ensures Block(exe, OPTIONS, i) == [HostLine(i.name)] + IndentPairs(HostSettings(ProxyCommand(exe, i)))
  {
    OptionTexts();
    var block, lines := Block(exe, OPTIONS, i), IndentPairs(HostSettings(ProxyCommand(exe, i)));
    assert "ProxyCommand " + ProxyCommand(exe, i) == "ProxyCommand" + " " + ProxyCommand(exe, i);
    forall k | 0 <= k < 6 ensures block[k + 1] == lines[k] {
    }
  }

  lemma LettersAreWord(s: string)
    requires s != "" && forall k | 0 <= k < |s| :: 'A' <= s[k] <= 'z'
    ensures IsWord(s)
  {
  }

  lemma SettingsAreWords(command: string)
    ensures forall k | 0 <= k < 6 :: IsWord(HostSettings(command)[k].0) && HostSettings(command)[k].0[0] != 'H'
    ensures forall j, k | 0 <= j < k < 6 :: HostSettings(command)[j].0 != HostSettings(command)[k].0
  {
    var s := HostSettings(command);
    LettersAreWord("User");
    LettersAreWord("StrictHostKeyChecking");
    LettersAreWord("UserKnownHostsFile");
    LettersAreWord("GlobalKnownHostsFile");
    LettersAreWord("LogLevel");
    LettersAreWord("ProxyCommand");
    assert |s[0].0| == 4 && |s[1].0| == 21 && |s[2].0| == 18 && |s[3].0| == 20 && |s[4].0| == 8 && |s[5].0| == 12;
  }

  lemma BlockSays(exe: string, i: Install, k: nat)
    requires k < 6
    ensures var settings := HostSettings(ProxyCommand(exe, i));
            SettingIn(Block(exe, OPTIONS, i), settings[k].0) == Some(settings[k].1)
  {
    var settings := HostSettings(ProxyCommand(exe, i));
    BlockIsSettings(exe, i);
    SettingsAreWords(ProxyCommand(exe, i));
    SettingInPairs(settings, k);
    HeadLineSays(i.name, settings[k].0);
    assert ([HostLine(i.name)] + IndentPairs(settings))[1..] == IndentPairs(settings);
  }

  lemma HeadLineSays(name: string, keyword: string)
    requires IsWord(keyword) && keyword[0] != 'H'
    ensures ValueOf(HostLine(name), keyword) == None
  {
    LettersAreWord("Host");
    assert HostLine(name) == "" + ("Host" + " " + HostAlias(name));
    assert "Host"[0] == 'H';
    ValueAfterIndent("", "Host", HostAlias(name), keyword);
  }

  // ---------------------------------------------------------------------------
  // The proxy command
  // ---------------------------------------------------------------------------

  /** A name that the shell reads as it stands. */
  predicate IsSafeWord(s: string) {
    s != "" && forall c | c in s :: IsSafe(c)
  }

  lemma JoinedCons(a: string, rest: seq<string>)
    requires rest != []
    ensures JoinWith([a] + rest, " ") == a + " " + JoinWith(rest, " ")
  {
    assert ([a] + rest)[1..] == rest;
  }

  lemma JoinedSix(a: string, b: string, c: string, d: string, e: string, f: string)
    ensures JoinWith([a, b, c, d, e, f], " ")
         == a + " " + (b + " " + (c + " " + (d + " " + (e + " " + f))))
  {
    JoinedCons(e, [f]);
    JoinedCons(d, [e, f]);
    JoinedCons(c, [d, e, f]);
    JoinedCons(b, [c, d, e, f]);
    JoinedCons(a, [b, c, d, e, f]);
    assert [e] + [f] == [e, f] && [d] + [e, f] == [d, e, f] && [c] + [d, e, f] == [c, d, e, f];
    assert [b] + [c, d, e, f] == [b, c, d, e, f] && [a] + [b, c, d, e, f] == [a, b, c, d, e, f];
  }

  lemma EscapedSafe(s: string)
    requires IsSafeWord(s)
    ensures ShellEscape(s) == s
  {
  }

  function ProxyArgs(exe: string, i: Install): seq<string> {
    [exe, "ssh-proxy", "--gateway-name", i.gateway, "--name", i.name]
  }

  lemma ProxyArgsEscaped(exe: string, i: Install)
    requires IsSafeWord(i.gateway) && IsSafeWord(i.name)
    ensures Escaped(ProxyArgs(exe, i)) == [ShellEscape(exe), "ssh-proxy", "--gateway-name", i.gateway, "--name", i.name]
  {
    FlagIsSafe("ssh-proxy");
    FlagIsSafe("--gateway-name");
    FlagIsSafe("--name");
    EscapedSix(exe, "ssh-proxy", "--gateway-name", i.gateway, "--name", i.name);
  }

  lemma EscapedSix(a: string, b: string, c: string, d: string, e: string, f: string)
    requires IsSafeWord(b) && IsSafeWord(c) && IsSafeWord(d) && IsSafeWord(e) && IsSafeWord(f)
    ensures Escaped([a, b, c, d, e, f]) == [ShellEscape(a), b, c, d, e, f]
  {
    EscapedSafe(b);
    EscapedSafe(c);
    EscapedSafe(d);
    EscapedSafe(e);
    EscapedSafe(f);
  }

  lemma FlagIsSafe(s: string)
    requires s != "" && forall k | 0 <= k < |s| :: 'a' <= s[k] <= 'z' || s[k] == '-'
    ensures IsSafeWord(s)
  {
  }

  lemma ProxyCommandIsCommandLine(exe: string, i: Install)
    requires IsSafeWord(i.gateway) && IsSafeWord(i.name)
    ensures ProxyCommand(exe, i) == CommandLine(ProxyArgs(exe, i))
  {
    ProxyArgsEscaped(exe, i);
    JoinedSix(ShellEscape(exe), "ssh-proxy", "--gateway-name", i.gateway, "--name", i.name);
    SixWords(ShellEscape(exe), i.gateway, i.name);
  }

  lemma SixWords(x: string, gateway: string, name: string)
    ensures x + " ssh-proxy --gateway-name " + gateway + " --name " + name
         == x + " " + ("ssh-proxy" + " " + ("--gateway-name" + " " + (gateway + " " + ("--name" + " " + name))))
  {
    assert " ssh-proxy --gateway-name " == " " + ("ssh-proxy" + (" " + ("--gateway-name" + " ")));
    assert " --name " == " " + ("--name" + " ");
  }

  /** The shell reads the proxy command as the executable with its arguments. */
  lemma ProxyWords(exe: string, i: Install)
    requires IsSafeWord(i.gateway) && IsSafeWord(i.name)
    ensures ShellWords(ProxyCommand(exe, i)) == Words([exe, "ssh-proxy", "--gateway-name", i.gateway, "--name", i.name])
  {
    ProxyCommandIsCommandLine(exe, i);
    QuotingRoundTrip(ProxyArgs(exe, i));
  }

  // ---------------------------------------------------------------------------
  // Over runs
  // ---------------------------------------------------------------------------

  lemma {:induction false} NamedIffInstalled(installs: seq<Install>, name: string)
    ensures name in FirstNames(installs) <==> LastGateway(installs, name).Some?
  {
    if installs != [] {
      NamedIffInstalled(installs[..|installs| - 1], name);
    }
  }

  /** The table's entry of a name is its last install. */
  lemma EntryIsLast(installs: seq<Install>, name: string)
    ensures var entry, last := Entry(PutAll(installs), name), LastGateway(installs, name);
            if last.None? then entry == None else entry == Some(Install(last.value, name))
  {
    TableIsMap(installs);
    NamedIffInstalled(installs, name);
    var table := PutAll(installs);
    assert forall k | 0 <= k < |table| :: Names(table)[k] == table[k].name && table[k] in table;
    if Entry(table, name).Some? {
      var k :| 0 <= k < |table| && table[k] == Entry(table, name).value;
      assert Names(table)[k] == name;
    }
  }

  lemma ManagedSays(exe: string, installs: seq<Install>, name: string, keyword: string)
    requires forall x | x in installs :: Installable(exe, x)
    ensures var entry := Entry(PutAll(installs), name);
            Setting(ManagedFile(Managed(exe), installs), "openshell-" + name, keyword)
            == if entry.Some? then SettingIn(Block(exe, OPTIONS, entry.value), keyword) else None
  {
    var layout, table := Managed(exe), PutAll(installs);
    ManagedFileIsTable(exe, installs);
    TableUsable(exe, installs);
    ReadBack(layout, table);
    assert forall x | x in table :: Recognises(layout, x, name);
    SettingInBlocks(layout, table, name, keyword);
    assert HostAlias(name) == "openshell-" + name;
  }

  lemma InstalledSays(exe: string, installs: seq<Install>, name: string, k: nat)
    requires k < 6 && LastGateway(installs, name).Some? && forall x | x in installs :: Installable(exe, x)
    ensures var settings := HostSettings(ProxyCommand(exe, Install(LastGateway(installs, name).value, name)));
            Reading(ManagedFile(Managed(exe), installs), "openshell-" + name)(settings[k].0) == Some(settings[k].1)
  {
    var i := Install(LastGateway(installs, name).value, name);
    EntryIsLast(installs, name);
    ManagedSays(exe, installs, name, HostSettings(ProxyCommand(exe, i))[k].0);
    BlockSays(exe, i, k);
  }

  lemma UnknownSaysNothing(exe: string, installs: seq<Install>, name: string, keyword: string)
    requires LastGateway(installs, name).None? && forall x | x in installs :: Installable(exe, x)
    ensures Reading(ManagedFile(Managed(exe), installs), "openshell-" + name)(keyword) == None
  {
    EntryIsLast(installs, name);
    ManagedSays(exe, installs, name, keyword);
  }

  /**
   After any installs into an empty managed file, a client that looks up a sandbox's host finds exactly the
   settings of its last install; and it finds nothing for a name that was never installed.
   */
  lemma LookUpFindsLastInstall(exe: string, installs: seq<Install>, name: string)
    requires forall x | x in installs :: Installable(exe, x)
    ensures var says := Reading(ManagedFile(Managed(exe), installs), "openshell-" + name);
            match LastGateway(installs, name)
            case None => forall keyword :: says(keyword) == None
            case Some(gateway) =>
              && says("User") == Some("sandbox")
              && says("StrictHostKeyChecking") == Some("no")
              && says("UserKnownHostsFile") == Some("/dev/null")
              && says("GlobalKnownHostsFile") == Some("/dev/null")
              && says("LogLevel") == Some("ERROR")
              && says("ProxyCommand") == Some(ShellEscape(exe) + " ssh-proxy --gateway-name " + gateway + " --name " + name)
  {
    if LastGateway(installs, name).None? {
      forall keyword ensures Reading(ManagedFile(Managed(exe), installs), "openshell-" + name)(keyword) == None {
        UnknownSaysNothing(exe, installs, name, keyword);
      }
    } else {
      InstalledSays(exe, installs, name, 0);
      InstalledSays(exe, installs, name, 1);
      InstalledSays(exe, installs, name, 2);
      InstalledSays(exe, installs, name, 3);
      InstalledSays(exe, installs, name, 4);
      InstalledSays(exe, installs, name, 5);
    }
  }

  lemma FlagsFound(exe: string, i: Install)
    requires IsSafeWord(i.gateway) && IsSafeWord(i.name)
    ensures FlagIn(ProxyCommand(exe, i), "--gateway-name") == Some(i.gateway)
    ensures FlagIn(ProxyCommand(exe, i), "--name") == Some(i.name)
  {
    ProxyWords(exe, i);
    var words := [exe, "ssh-proxy", "--gateway-name", i.gateway, "--name", i.name];
    assert words[2..] == ["--gateway-name", i.gateway, "--name", i.name];
    assert words[2..][2..] == ["--name", i.name];
    assert |"--gateway-name"| != |"--name"|;
    assert FlagValue(words[2..], "--name") == FlagValue(["--name", i.name], "--name");
  }

  /**
   From the managed text alone, after any installs of safely named sandboxes on safely named gateways: the
   gateway that a sandbox's host is reached through is the one installed last, and the sandbox is itself.
   */
  lemma GatewayReadBack(exe: string, installs: seq<Install>, name: string)
    requires forall x | x in installs :: Installable(exe, x) && IsSafeWord(x.gateway) && IsSafeWord(x.name)
    ensures var command := Reading(ManagedFile(Managed(exe), installs), "openshell-" + name)("ProxyCommand");
            if command.None? then LastGateway(installs, name) == None
            else && LastGateway(installs, name) == FlagIn(command.value, "--gateway-name")
                 && FlagIn(command.value, "--name") == Some(name)
  {
    if LastGateway(installs, name).Some? {
      var i := Install(LastGateway(installs, name).value, name);
      LastIsInstalled(installs, name);
      InstalledSays(exe, installs, name, 5);
      FlagsFound(exe, i);
    } else {
      UnknownSaysNothing(exe, installs, name, "ProxyCommand");
    }
  }

  lemma {:induction false} LastIsInstalled(installs: seq<Install>, name: string)
    requires LastGateway(installs, name).Some?
    ensures Install(LastGateway(installs, name).value, name) in installs
  {
    if installs[|installs| - 1].name != name {
      LastIsInstalled(installs[..|installs| - 1], name);
    } else {
      assert installs[|installs| - 1] == Install(LastGateway(installs, name).value, name);
    }
  }
}
