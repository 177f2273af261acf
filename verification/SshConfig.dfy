/**
 The managed SSH configuration: a list of lines that behaves as a map from sandbox name to gateway.
 */
module SshConfig {
  import opened Text
  import opened ShellQuote

  // ---------------------------------------------------------------------------
  // Replacing one section of a line list
  // ---------------------------------------------------------------------------

  /** A property of lines. */
  type LineTest = string -> bool

  /** The lines with a blank one added unless they are none or already end in one. */
  function Padded(lines: seq<string>): seq<string> {
    if lines != [] && lines[|lines| - 1] != "" then lines + [""] else lines
  }

  /** The block between the lines before and after it, set off by blank lines. */
  function Splice(before: seq<string>, block: seq<string>, after: seq<string>): seq<string> {
    Padded(before) + block + (if after == [] then [] else [""] + after)
  }

  /** Where a section ends: at the next head line after its own. */
  function SectionEnd(lines: seq<string>, start: nat, head: LineTest): (end: nat)
    requires start <= |lines|
    ensures start <= end <= |lines|
  {
    if start == |lines| then start else FirstFrom(lines, start + 1, head)
  }

  /** The lines on either side of a section. */
  datatype Parts = Parts(before: seq<string>, after: seq<string>)

  /** What surrounds the section whose head line satisfies `own`, if there is one. */
  function Around(lines: seq<string>, own: LineTest, head: LineTest): Parts {
    var start := FirstFrom(lines, 0, own);
    Parts(lines[..start], lines[SectionEnd(lines, start, head)..])
  }

  /** Replace that section, or add one at the end. */
  function Upsert(lines: seq<string>, own: LineTest, head: LineTest, block: seq<string>): seq<string> {
    var parts := Around(lines, own, head);
    Splice(parts.before, block, parts.after)
  }

  /** Only head lines are anyone's own, and a blank line is not a head line. */
  ghost predicate Tests(own: LineTest, head: LineTest) {
    !head("") && forall line :: own(line) ==> head(line)
  }

  /** The block begins with its own head line and has no other head line. */
  ghost predicate IsSection(block: seq<string>, own: LineTest, head: LineTest) {
    && block != [] && own(block[0]) && head(block[0])
    && forall i | 0 < i < |block| :: !head(block[i])
  }

  /** The two places, however they were found. */
  lemma AroundAt(lines: seq<string>, own: LineTest, head: LineTest, start: nat, end: nat)
    requires start <= end <= |lines|
    requires forall i | 0 <= i < start :: !own(lines[i])
    requires if start == |lines| then end == start
             else own(lines[start]) && start < end && (end < |lines| ==> head(lines[end]))
    requires forall i | start < i < end :: !head(lines[i])
    ensures Around(lines, own, head) == Parts(lines[..start], lines[end..])
  {
    FirstFromPast(lines, 0, start, own);
    if start < |lines| {
      FirstFromPast(lines, start + 1, end, head);
    }
  }

  /** Upserting is idempotent, on every list of lines. */
  lemma UpsertTwice(lines: seq<string>, own: LineTest, head: LineTest, block: seq<string>)
    requires Tests(own, head) && IsSection(block, own, head)
    ensures Upsert(Upsert(lines, own, head, block), own, head, block) == Upsert(lines, own, head, block)
  {
    var start := FirstFrom(lines, 0, own);
    var end := SectionEnd(lines, start, head);
    FirstFromIsFirst(lines, 0, own);
    if start < |lines| {
      FirstFromIsFirst(lines, start + 1, head);
    }
    var before := Padded(lines[..start]);
    var after := if end == |lines| then [] else [""] + lines[end..];
    assert after != [] ==> after[1] == lines[end];
    SpliceOver(before, block, after, own, head, block);
  }

  /** A section between a padded part and a later section is replaced where it stands. */
  lemma SpliceOver(before: seq<string>, was: seq<string>, after: seq<string>, own: LineTest, head: LineTest, block: seq<string>)
    requires IsSection(was, own, head) && before == Padded(before)
    requires forall i | 0 <= i < |before| :: !own(before[i])
    requires !head("") && (after == [] || (|after| >= 2 && after[0] == "" && head(after[1])))
    ensures Upsert(before + was + after, own, head, block) == before + block + after
  {
    var lines := before + was + after;
    var start, next := |before|, |before| + |was|;
    var end := if after == [] then next else next + 1;
    assert lines[start] == was[0] && lines[..start] == before;
    assert forall i | start < i < next :: lines[i] == was[i - start];
    if after != [] {
      assert lines[next] == after[0] && lines[end] == after[1];
      assert [""] + lines[end..] == after;
    }
    AroundAt(lines, own, head, start, end);
  }

  /** The tests do not look at a carriage return at the end of a line. */
  ghost predicate IgnoresCr(test: LineTest) {
    forall line :: test(StripCr(line)) == test(line)
  }

  /** The lines that upserting keeps. */
  function KeptLines(lines: seq<string>, own: LineTest, head: LineTest): seq<string> {
    Around(lines, own, head).before + Around(lines, own, head).after
  }

  lemma StripCrsAppend(a: seq<string>, b: seq<string>)
    ensures StripCrs(a + b) == StripCrs(a) + StripCrs(b)
  {
  }

  lemma StripCrsFixed(lines: seq<string>)
    ensures StripCrs(lines) == lines <==> NoneEndsInCr(lines)
  {
    if NoneEndsInCr(lines) {
      assert forall i | 0 <= i < |lines| :: lines[i] in lines;
    }
    if x :| x in lines && EndsInCr(x) {
      var i :| 0 <= i < |lines| && lines[i] == x;
      assert StripCrs(lines)[i] != lines[i];
    }
  }

  /** Upserting again after reading the lines back changes nothing exactly if no kept line loses anything. */
  lemma UpsertReadBack(lines: seq<string>, own: LineTest, head: LineTest, block: seq<string>)
    requires Tests(own, head) && IsSection(block, own, head) && IgnoresCr(own) && IgnoresCr(head)
    ensures var out := Upsert(lines, own, head, block);
            Upsert(StripCrs(out), own, head, block) == out <==> NoneEndsInCr(KeptLines(lines, own, head))
  {
    var start := FirstFrom(lines, 0, own);
    var end := SectionEnd(lines, start, head);
    FirstFromIsFirst(lines, 0, own);
    if start < |lines| {
      FirstFromIsFirst(lines, start + 1, head);
    }
    var before := Padded(lines[..start]);
    var after := if end == |lines| then [] else [""] + lines[end..];
    assert after != [] ==> after[1] == lines[end];
    ReadBackAround(before, block, after, own, head);
    assert NoneEndsInCr(before) <==> NoneEndsInCr(lines[..start]);
    assert NoneEndsInCr(after) <==> NoneEndsInCr(lines[end..]);
    NoneEndsInCrAppend(lines[..start], lines[end..]);
  }

  lemma NoneEndsInCrAppend(a: seq<string>, b: seq<string>)
    ensures NoneEndsInCr(a + b) <==> NoneEndsInCr(a) && NoneEndsInCr(b)
  {
    assert forall x :: x in a + b <==> x in a || x in b;
  }

  lemma ReadBackAround(before: seq<string>, block: seq<string>, after: seq<string>, own: LineTest, head: LineTest)
    requires IsSection(block, own, head) && IgnoresCr(own) && IgnoresCr(head) && before == Padded(before)
    requires forall i | 0 <= i < |before| :: !own(before[i])
    requires !head("") && (after == [] || (|after| >= 2 && after[0] == "" && head(after[1])))
    ensures var out := before + block + after;
            Upsert(StripCrs(out), own, head, block) == out <==> NoneEndsInCr(before) && NoneEndsInCr(after)
  {
    StripCrsAppend(before + block, after);
    StripCrsAppend(before, block);
    SpliceOver(StripCrs(before), StripCrs(block), StripCrs(after), own, head, block);
    SameAround(StripCrs(before), StripCrs(after), before, after, block);
    StripCrsFixed(before);
    StripCrsFixed(after);
  }

  lemma SameAround<T>(a: seq<T>, b: seq<T>, c: seq<T>, d: seq<T>, block: seq<T>)
    requires |a| == |c| && |b| == |d|
    ensures a + block + b == c + block + d <==> a == c && b == d
  {
    var x, y := a + block + b, c + block + d;
    assert x[..|a|] == a && y[..|c|] == c && x[|a| + |block|..] == b && y[|c| + |block|..] == d;
  }

  /** Foreign lines that end in a blank one are passed over. */
  lemma UpsertSkips(pre: seq<string>, rest: seq<string>, own: LineTest, head: LineTest, block: seq<string>)
    requires pre != [] && pre[|pre| - 1] == "" && forall i | 0 <= i < |pre| :: !own(pre[i])
    ensures Upsert(pre + rest, own, head, block) == pre + Upsert(rest, own, head, block)
  {
    AroundSkips(pre, rest, own, head);
    var parts := Around(rest, own, head);
    SpliceSkips(pre, parts.before, block, parts.after);
  }

  lemma AroundSkips(pre: seq<string>, rest: seq<string>, own: LineTest, head: LineTest)
    requires forall i | 0 <= i < |pre| :: !own(pre[i])
    ensures Around(pre + rest, own, head) == var parts := Around(rest, own, head); parts.(before := pre + parts.before)
  {
    var start := FirstFrom(rest, 0, own);
    OwnLineSkips(pre, rest, own);
    SectionEndSkips(pre, rest, start, head);
  }

  lemma OwnLineSkips(pre: seq<string>, rest: seq<string>, own: LineTest)
    requires forall i | 0 <= i < |pre| :: !own(pre[i])
    ensures FirstFrom(pre + rest, 0, own) == |pre| + FirstFrom(rest, 0, own)
  {
    FirstFromSkips(pre, rest, 0, own);
    FirstFromPast(pre + rest, 0, |pre|, own);
  }

  lemma SectionEndSkips(pre: seq<string>, rest: seq<string>, start: nat, head: LineTest)
    requires start <= |rest|
    ensures SectionEnd(pre + rest, |pre| + start, head) == |pre| + SectionEnd(rest, start, head)
  {
    if start < |rest| {
      FirstFromSkips(pre, rest, start + 1, head);
    }
  }

  lemma SpliceSkips(pre: seq<string>, before: seq<string>, block: seq<string>, after: seq<string>)
    requires pre != [] && pre[|pre| - 1] == ""
    ensures Splice(pre + before, block, after) == pre + Splice(before, block, after)
  {
    assert Padded(pre + before) == pre + Padded(before);
  }

  method UpsertSection(lines: seq<string>, own: LineTest, head: LineTest, block: seq<string>) returns (out: seq<string>)
    requires Tests(own, head)
    ensures out == Upsert(lines, own, head, block)
  {
    var start := FirstFrom(lines, 0, own);
    var end := |lines|;
    if start < |lines| {
      end := FirstFrom(lines, start + 1, head);
      FirstFromIsFirst(lines, start + 1, head);
    }
    assert Around(lines, own, head) == Parts(lines[..start], lines[end..]);
    out := lines[..start];
    if out != [] && out[|out| - 1] != "" {
      out := out + [""];
    }
    assert out == Padded(lines[..start]);
    out := out + block;
    if end < |lines| && lines[end] != "" {
      out := out + [""];
      Regroup(Padded(lines[..start]) + block, [""], lines[end..]);
    }
    out := out + lines[end..];
  }

  // ---------------------------------------------------------------------------
  // Host blocks
  // ---------------------------------------------------------------------------

  predicate IsHostLine(line: string) {
    "Host " <= TrimStart(line)
  }

  predicate HostLineMatches(line: string, alias: string) {
    IsHostLine(line) && alias in Tokens(TrimStart(line)[|"Host "|..])
  }

  function Naming(alias: string): LineTest {
    line => HostLineMatches(line, alias)
  }

  function UpsertText(contents: string, alias: string, block: string): string {
    Render(Upsert(Lines(contents), Naming(alias), IsHostLine, Lines(block)))
  }

  lemma HostTests(alias: string)
    ensures Tests(Naming(alias), IsHostLine)
  {
  }

  method UpsertHostBlock(contents: string, alias: string, block: string) returns (rendered: string)
    ensures rendered == UpsertText(contents, alias, block)
  {
    HostTests(alias);
    var out := UpsertSection(Lines(contents), Naming(alias), IsHostLine, Lines(block));
    rendered := JoinWith(out, "\n");
    if rendered != [] {
      rendered := rendered + "\n";
    }
  }

  /** The same for the host blocks of a configuration. */
  lemma UpsertHostIdempotent(lines: seq<string>, alias: string, block: seq<string>)
    requires IsSection(block, Naming(alias), IsHostLine)
    ensures Upsert(Upsert(lines, Naming(alias), IsHostLine, block), Naming(alias), IsHostLine, block)
         == Upsert(lines, Naming(alias), IsHostLine, block)
  {
    HostTests(alias);
    UpsertTwice(lines, Naming(alias), IsHostLine, block);
  }

  lemma HostTestsIgnoreCr(alias: string)
    ensures IgnoresCr(Naming(alias)) && IgnoresCr(IsHostLine)
  {
    forall line ensures IsHostLine(StripCr(line)) == IsHostLine(line)
                && HostLineMatches(StripCr(line), alias) == HostLineMatches(line, alias) {
      var s := TrimStart(StripCr(line));
      TrimIgnoresCr(line);
      PrefixIgnoresCr("Host ", s);
      if IsHostLine(line) && TrimStart(line) != s {
        assert (s + "\r")[|"Host "|..] == s[|"Host "|..] + "\r";
        TokensIgnoreCr(s[|"Host "|..]);
      }
    }
  }

  /** Line lists with a line that is not blank are told apart by their texts. */
  lemma RenderInjective(a: seq<string>, b: seq<string>)
    requires forall x | x in a + b :: '\n' !in x
    requires (exists x :: x in a && x != "") && (exists x :: x in b && x != "")
    ensures Render(a) == Render(b) <==> a == b
  {
    assert forall x | x in a :: x in a + b;
    assert forall x | x in b :: x in a + b;
    SplitOfJoin(a, '\n');
    SplitOfJoin(b, '\n');
    RenderNotBlank(a);
    RenderNotBlank(b);
    var x, y := JoinWith(a, "\n"), JoinWith(b, "\n");
    assert (x + "\n")[..|x + "\n"| - 1] == x && (y + "\n")[..|y + "\n"| - 1] == y;
  }

  lemma RenderNotBlank(lines: seq<string>)
    requires exists x :: x in lines && x != ""
    ensures Render(lines) == JoinWith(lines, "\n") + "\n"
  {
    if |lines| == 1 {
      assert lines == [lines[0]];
    }
  }

  /** The lines that upserting a host block keeps. */
  function KeptOf(contents: string, alias: string): seq<string> {
    KeptLines(Lines(contents), Naming(alias), IsHostLine)
  }

  /**
   On texts: upserting twice is upserting once if and only if no line outside the replaced block ends
   in a carriage return once its line ending is off, since each reading drops one more.
   */
  lemma UpsertTextIdempotent(contents: string, alias: string, block: string)
    requires IsSection(Lines(block), Naming(alias), IsHostLine)
    ensures UpsertText(UpsertText(contents, alias, block), alias, block) == UpsertText(contents, alias, block) <==>
              NoneEndsInCr(KeptOf(contents, alias))
  {
    HostTests(alias);
    HostTestsIgnoreCr(alias);
    UpsertReadBack(Lines(contents), Naming(alias), IsHostLine, Lines(block));
    UpsertedText(Lines(contents), Naming(alias), IsHostLine, Lines(block));
  }

  lemma UpsertedText(lines: seq<string>, own: LineTest, head: LineTest, block: seq<string>)
    requires Tests(own, head) && IsSection(block, own, head)
    requires forall x | x in lines :: '\n' !in x
    requires forall x | x in block :: '\n' !in x
    ensures var out := Upsert(lines, own, head, block);
            && Lines(Render(out)) == StripCrs(out)
            && (Render(Upsert(StripCrs(out), own, head, block)) == Render(out) <==>
                Upsert(StripCrs(out), own, head, block) == out)
  {
    var out := Upsert(lines, own, head, block);
    UpsertReadable(lines, own, head, block);
    LinesOfRender(out);
    assert forall x | x in StripCrs(out) :: '\n' !in x;
    UpsertReadable(StripCrs(out), own, head, block);
    RenderInjective(Upsert(StripCrs(out), own, head, block), out);
  }

  lemma UpsertReadable(lines: seq<string>, own: LineTest, head: LineTest, block: seq<string>)
    requires Tests(own, head) && IsSection(block, own, head)
    requires forall x | x in lines :: '\n' !in x
    requires forall x | x in block :: '\n' !in x
    ensures var out := Upsert(lines, own, head, block);
            && (forall x | x in out :: '\n' !in x)
            && block[0] in out && block[0] != "" && out != [""]
  {
    var parts := Around(lines, own, head);
    var out := Splice(parts.before, block, parts.after);
    assert out[|Padded(parts.before)|] == block[0];
  }

  /** Foreign text that loses a carriage return with every upsert. */
  lemma UpsertTextDrifts(alias: string, block: string)
    requires IsSection(Lines(block), Naming(alias), IsHostLine)
    ensures UpsertText(UpsertText("x\r\r\n", alias, block), alias, block) != UpsertText("x\r\r\n", alias, block)
  {
    var line := "x\r";
    assert "x\r\r\n" == line + "\r" + "\n" + "";
    LinesCons(line + "\r", "");
    assert StripCr(line + "\r") == line;
    assert !IsHostLine(line);
    KeepsForeignLine("x\r\r\n", line, alias);
    UpsertTextIdempotent("x\r\r\n", alias, block);
  }

  lemma KeepsForeignLine(contents: string, line: string, alias: string)
    requires Lines(contents) == [line] && !IsHostLine(line)
    ensures line in KeptOf(contents, alias)
  {
    AroundAt([line], Naming(alias), IsHostLine, 1, 1);
    assert [line][..1] == [line];
  }

  // ---------------------------------------------------------------------------
  // A line list as a map
  // ---------------------------------------------------------------------------

  datatype Install = Install(gateway: string, name: string)

  /** How installs are laid out in lines and recognised again. */
  datatype Layout = Layout(block: Install -> seq<string>, own: string -> LineTest, head: LineTest)

  /** Each entry's block is a section of its own name and of no other. */
  ghost predicate Recognises(layout: Layout, i: Install, name: string) {
    && Tests(layout.own(name), layout.head)
    && IsSection(layout.block(i), layout.own(i.name), layout.head)
    && layout.block(i)[|layout.block(i)| - 1] != ""
    && (layout.own(name)(layout.block(i)[0]) ==> name == i.name)
  }

  /** One block per entry, separated by one blank line. */
  function Blocks(layout: Layout, table: seq<Install>): seq<string> {
    if table == [] then []
    else layout.block(table[0]) + (if |table| == 1 then [] else [""] + Blocks(layout, table[1..]))
  }

  /** Replace the entry of that name where it stands, or add one at the end. */
  function Put(table: seq<Install>, i: Install): seq<Install> {
    if table == [] then [i]
    else if table[0].name == i.name then [i] + table[1..]
    else [table[0]] + Put(table[1..], i)
  }

  /** Upserting a block into the laid-out table is putting its entry into the table. */
  lemma {:induction false} UpsertIsPut(layout: Layout, table: seq<Install>, i: Install)
    requires forall x | x in table :: Recognises(layout, x, i.name)
    ensures Upsert(Blocks(layout, table), layout.own(i.name), layout.head, layout.block(i)) == Blocks(layout, Put(table, i))
  {
    if table == [] {
      AroundAt([], layout.own(i.name), layout.head, 0, 0);
      assert Blocks(layout, [i]) == layout.block(i);
    } else if table[0].name == i.name {
      UpsertFirst(layout, table, i);
    } else {
      assert Recognises(layout, table[0], i.name);
      if |table| == 1 {
        UpsertSecond(layout, table[0], i);
        assert table == [table[0]] && Put(table, i) == [table[0], i];
      } else {
        UpsertIsPut(layout, table[1..], i);
        UpsertLater(layout, table, i);
        assert Put(table, i)[1..] == Put(table[1..], i);
      }
    }
  }

  lemma UpsertSecond(layout: Layout, x: Install, i: Install)
    requires Recognises(layout, x, i.name) && x.name != i.name
    ensures Upsert(Blocks(layout, [x]), layout.own(i.name), layout.head, layout.block(i)) == Blocks(layout, [x, i])
  {
    var first, block := layout.block(x), layout.block(i);
    assert Blocks(layout, [x]) == first;
    AroundAt(first, layout.own(i.name), layout.head, |first|, |first|);
    assert first[..|first|] == first;
    assert [x, i][1..] == [i] && Blocks(layout, [i]) == block;
    assert first + [""] + block == first + ([""] + block);
  }

  lemma UpsertLater(layout: Layout, table: seq<Install>, i: Install)
    requires |table| > 1 && Recognises(layout, table[0], i.name) && table[0].name != i.name
    ensures Upsert(Blocks(layout, table), layout.own(i.name), layout.head, layout.block(i))
         == layout.block(table[0]) + ([""] + Upsert(Blocks(layout, table[1..]), layout.own(i.name), layout.head, layout.block(i)))
  {
    var first, rest := layout.block(table[0]), Blocks(layout, table[1..]);
    Regroup(first, [""], rest);
    UpsertSkips(first + [""], rest, layout.own(i.name), layout.head, layout.block(i));
    Regroup(first, [""], Upsert(rest, layout.own(i.name), layout.head, layout.block(i)));
  }

  lemma UpsertFirst(layout: Layout, table: seq<Install>, i: Install)
    requires table != [] && table[0].name == i.name
    requires forall x | x in table :: Recognises(layout, x, i.name)
    ensures Upsert(Blocks(layout, table), layout.own(i.name), layout.head, layout.block(i)) == Blocks(layout, [i] + table[1..])
  {
    var rest := Blocks(layout, table[1..]);
    var after := if |table| == 1 then [] else [""] + rest;
    assert Recognises(layout, table[0], i.name);
    if |table| > 1 {
      assert Recognises(layout, table[1], i.name);
      assert rest[0] == layout.block(table[1])[0];
    }
    UpsertOnly(layout.block(table[0]), after, layout.own(i.name), layout.head, layout.block(i));
    assert ([i] + table[1..])[1..] == table[1..];
  }

  /** Replacing a section at the very front. */
  lemma UpsertOnly(first: seq<string>, after: seq<string>, own: LineTest, head: LineTest, block: seq<string>)
    requires IsSection(first, own, head)
    requires !head("") && (after == [] || (|after| >= 2 && after[0] == "" && head(after[1])))
    ensures Upsert(first + after, own, head, block) == block + after
  {
    assert [] + first == first && [] + block == block;
    SpliceOver([], first, after, own, head, block);
  }

  function PutAll(installs: seq<Install>): seq<Install> {
    if installs == [] then [] else Put(PutAll(installs[..|installs| - 1]), installs[|installs| - 1])
  }

  lemma {:induction false} PutMembers(table: seq<Install>, i: Install)
    ensures forall x | x in Put(table, i) :: x == i || x in table
  {
    if table != [] {
      PutMembers(table[1..], i);
    }
  }

  /** The distinct names, in the order they were first installed. */
  function FirstNames(installs: seq<Install>): seq<string> {
    if installs == [] then [] else
      var names, name := FirstNames(installs[..|installs| - 1]), installs[|installs| - 1].name;
      if name in names then names else names + [name]
  }

  /** The gateway of the last install of a name. */
  function LastGateway(installs: seq<Install>, name: string): Option<string> {
    if installs == [] then None
    else if installs[|installs| - 1].name == name then Some(installs[|installs| - 1].gateway)
    else LastGateway(installs[..|installs| - 1], name)
  }

  function Names(table: seq<Install>): (names: seq<string>)
    ensures |names| == |table| && forall k | 0 <= k < |table| :: names[k] == table[k].name
  {
    seq(|table|, k requires 0 <= k < |table| => table[k].name)
  }

  lemma {:induction false} PutNew(table: seq<Install>, i: Install)
    requires forall k | 0 <= k < |table| :: table[k].name != i.name
    ensures Put(table, i) == table + [i]
  {
    if table != [] {
      PutNew(table[1..], i);
    }
  }

  lemma {:induction false} PutExisting(table: seq<Install>, i: Install, k: nat)
    requires k < |table| && table[k].name == i.name
    requires forall j | 0 <= j < k :: table[j].name != i.name
    ensures Put(table, i) == table[k := i]
  {
    if k == 0 {
      assert [i] + table[1..] == table[0 := i];
    } else {
      PutExisting(table[1..], i, k - 1);
      assert [table[0]] + table[1..][k - 1 := i] == table[k := i];
    }
  }

  /** One entry per distinct name, in first-install order, with the gateway installed last. */
  lemma {:induction false} TableIsMap(installs: seq<Install>)
    ensures Names(PutAll(installs)) == FirstNames(installs)
    ensures Distinct(FirstNames(installs))
    ensures forall x | x in PutAll(installs) :: LastGateway(installs, x.name) == Some(x.gateway)
  {
    if installs != [] {
      var init, last := installs[..|installs| - 1], installs[|installs| - 1];
      TableIsMap(init);
      PutKeepsNames(PutAll(init), last);
    }
  }

  lemma PutKeepsNames(table: seq<Install>, i: Install)
    requires Distinct(Names(table))
    ensures Names(Put(table, i)) == if i.name in Names(table) then Names(table) else Names(table) + [i.name]
    ensures Distinct(Names(Put(table, i)))
    ensures forall x | x in Put(table, i) :: x == i || (x in table && x.name != i.name)
  {
    if i.name in Names(table) {
      var k :| 0 <= k < |table| && Names(table)[k] == i.name;
      ReplacedTable(table, i, k);
    } else {
      AddedTable(table, i);
    }
  }

  lemma ReplacedTable(table: seq<Install>, i: Install, k: nat)
    requires Distinct(Names(table)) && k < |table| && table[k].name == i.name
    ensures Names(Put(table, i)) == Names(table)
    ensures forall x | x in Put(table, i) :: x == i || (x in table && x.name != i.name)
  {
    forall j | 0 <= j < |table| && j != k ensures table[j].name != i.name {
      assert Names(table)[j] != Names(table)[k];
    }
    PutExisting(table, i, k);
    assert Names(table[k := i]) == Names(table);
  }

  lemma AddedTable(table: seq<Install>, i: Install)
    requires Distinct(Names(table)) && i.name !in Names(table)
    ensures Names(Put(table, i)) == Names(table) + [i.name]
    ensures Distinct(Names(Put(table, i)))
    ensures forall x | x in Put(table, i) :: x == i || (x in table && x.name != i.name)
  {
    forall j | 0 <= j < |table| ensures table[j].name != i.name {
      assert Names(table)[j] in Names(table);
    }
    PutNew(table, i);
    assert Names(table + [i]) == Names(table) + [i.name];
  }

  // ---------------------------------------------------------------------------
  // The text of a managed file
  // ---------------------------------------------------------------------------

  /** Every line followed by a newline. */
  function Terminated(lines: seq<string>): string {
    if lines == [] then "" else lines[0] + "\n" + Terminated(lines[1..])
  }

  predicate CleanLine(line: string) {
    '\n' !in line && StripCr(line) == line
  }

  lemma {:induction false} LinesOfTerminated(lines: seq<string>)
    requires forall line | line in lines :: CleanLine(line)
    ensures Lines(Terminated(lines)) == lines
  {
    if lines != [] {
      assert CleanLine(lines[0]);
      LinesOfTerminated(lines[1..]);
      LinesCons(lines[0], Terminated(lines[1..]));
    }
  }

  /** The lines of the entry's block survive being written and read. */
  ghost predicate Printable(layout: Layout, i: Install) {
    forall k | 0 <= k < |layout.block(i)| :: CleanLine(layout.block(i)[k])
  }

  ghost predicate Usable(layout: Layout, i: Install) {
    Printable(layout, i) && forall name :: Recognises(layout, i, name)
  }

  /** The file's text after installing one entry. */
  function InstallInto(layout: Layout, contents: string, i: Install): string {
    Render(Upsert(Lines(contents), layout.own(i.name), layout.head, Lines(Terminated(layout.block(i)))))
  }

  /** The file's text after a sequence of installs into an empty file. */
  function ManagedFile(layout: Layout, installs: seq<Install>): string {
    if installs == [] then ""
    else InstallInto(layout, ManagedFile(layout, installs[..|installs| - 1]), installs[|installs| - 1])
  }

  lemma {:induction false} BlocksClean(layout: Layout, table: seq<Install>)
    requires forall x | x in table :: Usable(layout, x)
    ensures Blocks(layout, table) != [""]
    ensures forall line | line in Blocks(layout, table) :: CleanLine(line)
  {
    if table != [] {
      assert Usable(layout, table[0]) && Recognises(layout, table[0], table[0].name);
      BlocksClean(layout, table[1..]);
      var first := layout.block(table[0]);
      assert Blocks(layout, table)[0] == first[0] && first[0] != "";
    }
  }

  lemma ReadBack(layout: Layout, table: seq<Install>)
    requires forall x | x in table :: Usable(layout, x)
    ensures Lines(Render(Blocks(layout, table))) == Blocks(layout, table)
  {
    var lines := Blocks(layout, table);
    BlocksClean(layout, table);
    LinesOfRender(lines);
    assert forall k | 0 <= k < |lines| :: lines[k] in lines;
    assert StripCrs(lines) == lines;
  }

  lemma {:induction false} FileIsTable(layout: Layout, installs: seq<Install>)
    requires forall x | x in installs :: Usable(layout, x)
    ensures forall x | x in PutAll(installs) :: x in installs
    ensures ManagedFile(layout, installs) == Render(Blocks(layout, PutAll(installs)))
  {
    if installs != [] {
      var init, last := installs[..|installs| - 1], installs[|installs| - 1];
      var table := PutAll(init);
      assert forall x | x in init :: x in installs;
      FileIsTable(layout, init);
      PutMembers(table, last);
      ReadBack(layout, table);
      assert Usable(layout, last);
      assert forall x | x in table :: Usable(layout, x) && Recognises(layout, x, last.name);
      LinesOfTerminated(layout.block(last));
      UpsertIsPut(layout, table, last);
    }
  }

  // ---------------------------------------------------------------------------
  // The blocks that are installed
  // ---------------------------------------------------------------------------

  function HostAlias(name: string): string {
    "openshell-" + name
  }

  function Indented(option: string): string {
    "    " + option
  }

  function ProxyCommand(exe: string, i: Install): string {
    ShellEscape(exe) + " ssh-proxy --gateway-name " + i.gateway + " --name " + i.name
  }

  function HostLine(name: string): string {
    "Host " + HostAlias(name)
  }

  function ProxyLine(exe: string, i: Install): string {
    Indented("ProxyCommand " + ProxyCommand(exe, i))
  }

  const OPTIONS := [
    "User sandbox",
    "StrictHostKeyChecking no",
    "UserKnownHostsFile /dev/null",
    "GlobalKnownHostsFile /dev/null",
    "LogLevel ERROR"
  ]

  function IndentAll(options: seq<string>): (lines: seq<string>)
    ensures |lines| == |options| && forall k | 0 <= k < |options| :: lines[k] == Indented(options[k])
  {
    seq(|options|, k requires 0 <= k < |options| => Indented(options[k]))
  }

  function Block(exe: string, options: seq<string>, i: Install): seq<string> {
    [HostLine(i.name)] + IndentAll(options) + [ProxyLine(exe, i)]
  }

  function RenderSshConfig(exe: string, i: Install): string {
    Terminated(Block(exe, OPTIONS, i))
  }

  /** A name without whitespace, and nothing that would break a line. */
  ghost predicate Installable(exe: string, i: Install) {
    NoWhitespace(i.name) && '\n' !in i.gateway && '\n' !in exe
  }

  /** An option that stays one line and is not taken for a host line. */
  predicate IsOption(option: string) {
    option != [] && !IsWhitespace(option[0]) && option[0] != 'H' && CleanLine(option)
  }

  lemma OptionsAreOptions()
    ensures forall k | 0 <= k < |OPTIONS| :: IsOption(OPTIONS[k])
  {
  }

  lemma IndentedIsNotHost(option: string)
    requires option != [] && !IsWhitespace(option[0]) && option[0] != 'H'
    ensures !IsHostLine(Indented(option))
    ensures CleanLine(option) ==> CleanLine(Indented(option))
  {
    assert "    " + option == " " + (" " + (" " + (" " + option)));
    assert TrimStart(option) == option;
    TrimStartSpace(option);
    TrimStartSpace(" " + option);
    TrimStartSpace(" " + (" " + option));
    TrimStartSpace(" " + (" " + (" " + option)));
  }

  lemma TrimStartSpace(s: string)
    ensures TrimStart(" " + s) == TrimStart(s)
  {
    assert (" " + s)[1..] == s;
  }

  lemma {:induction false} ReplaceQuotesKeepsLine(s: string)
    requires '\n' !in s
    ensures '\n' !in ReplaceQuotes(s)
  {
    if s != [] {
      assert s[0] in s;
      ReplaceQuotesKeepsLine(s[1..]);
    }
  }

  lemma CleanTail(prefix: string, name: string)
    requires prefix != [] && prefix[|prefix| - 1] != '\r' && NoWhitespace(name) && '\n' !in prefix
    ensures CleanLine(prefix + name)
  {
    if name != [] {
      assert name[|name| - 1] in name;
    }
  }

  lemma HostLineClean(name: string)
    requires NoWhitespace(name)
    ensures CleanLine(HostLine(name))
  {
    CleanTail("Host openshell-", name);
    assert "Host openshell-" + name == HostLine(name);
  }

  lemma HostLineOfAlias(alias: string)
    requires alias != [] && NoWhitespace(alias)
    ensures IsHostLine("Host " + alias)
    ensures forall other :: HostLineMatches("Host " + alias, other) <==> other == alias
  {
    var line := "Host " + alias;
    assert TrimStart(line) == line && line[|"Host "|..] == alias;
    TokensOfWord(alias);
  }

  lemma HostLineNamesIt(name: string, other: string)
    requires NoWhitespace(name)
    ensures IsHostLine(HostLine(name))
    ensures HostLineMatches(HostLine(name), HostAlias(other)) <==> name == other
  {
    HostLineOfAlias(HostAlias(name));
    assert HostAlias(name)[|"openshell-"|..] == name && HostAlias(other)[|"openshell-"|..] == other;
  }

  lemma CleanAppend(prefix: string, line: string)
    requires line != [] && CleanLine(line) && '\n' !in prefix
    ensures CleanLine(prefix + line)
  {
  }

  lemma ProxyCommandClean(exe: string, i: Install)
    requires Installable(exe, i)
    ensures CleanLine(ProxyCommand(exe, i))
  {
    ReplaceQuotesKeepsLine(exe);
    assert '\n' !in ShellEscape(exe);
    CleanTail(ShellEscape(exe) + " ssh-proxy --gateway-name " + i.gateway + " --name ", i.name);
  }

  lemma ProxyLineClean(exe: string, i: Install)
    ensures !IsHostLine(ProxyLine(exe, i)) && ProxyLine(exe, i) != ""
    ensures Installable(exe, i) ==> CleanLine(ProxyLine(exe, i))
  {
    var command := ProxyCommand(exe, i);
    if Installable(exe, i) {
      ProxyCommandClean(exe, i);
      CleanAppend("ProxyCommand ", command);
    }
    IndentedIsNotHost("ProxyCommand " + command);
  }

  /** The lines of a block after its host line. */
  lemma BlockBody(exe: string, options: seq<string>, i: Install, k: nat)
    requires forall j | 0 <= j < |options| :: IsOption(options[j])
    requires 0 < k < |Block(exe, options, i)|
    ensures !IsHostLine(Block(exe, options, i)[k])
    ensures Installable(exe, i) ==> CleanLine(Block(exe, options, i)[k])
  {
    if k <= |options| {
      assert Block(exe, options, i)[k] == Indented(options[k - 1]);
      IndentedIsNotHost(options[k - 1]);
    } else {
      ProxyLineClean(exe, i);
    }
  }

  function Layouts(exe: string, options: seq<string>): Layout {
    Layout(i => Block(exe, options, i), name => Naming(HostAlias(name)), IsHostLine)
  }

  lemma BlocksRecognised(exe: string, options: seq<string>, i: Install, name: string)
    requires NoWhitespace(i.name) && forall j | 0 <= j < |options| :: IsOption(options[j])
    ensures Recognises(Layouts(exe, options), i, name)
    ensures Installable(exe, i) ==> Printable(Layouts(exe, options), i)
  {
    var b := Block(exe, options, i);
    HostTests(HostAlias(name));
    HostLineClean(i.name);
    HostLineNamesIt(i.name, i.name);
    HostLineNamesIt(i.name, name);
    ProxyLineClean(exe, i);
    forall k | 0 < k < |b| ensures !IsHostLine(b[k]) && (Installable(exe, i) ==> CleanLine(b[k])) {
      BlockBody(exe, options, i, k);
    }
  }

  /** The layout of the blocks that are installed. */
  function Managed(exe: string): Layout {
    Layouts(exe, OPTIONS)
  }

  /** After any installs into an empty managed file its text is the table, one block per entry. */
  lemma ManagedFileIsTable(exe: string, installs: seq<Install>)
    requires forall x | x in installs :: Installable(exe, x)
    ensures ManagedFile(Managed(exe), installs) == Render(Blocks(Managed(exe), PutAll(installs)))
  {
    InstallsUsable(exe, installs);
    FileIsTable(Managed(exe), installs);
  }

  lemma InstallsUsable(exe: string, installs: seq<Install>)
    requires forall x | x in installs :: Installable(exe, x)
    ensures forall x | x in installs :: Usable(Managed(exe), x)
  {
    OptionsAreOptions();
    forall x | x in installs ensures Usable(Managed(exe), x) {
      BlocksRecognised(exe, OPTIONS, x, x.name);
      forall name ensures Recognises(Managed(exe), x, name) {
        BlocksRecognised(exe, OPTIONS, x, name);
      }
    }
  }

  lemma TableUsable(exe: string, installs: seq<Install>)
    requires forall x | x in installs :: Installable(exe, x)
    ensures forall x | x in PutAll(installs) :: Usable(Managed(exe), x)
  {
    InstallsUsable(exe, installs);
    FileIsTable(Managed(exe), installs);
  }

  /** One install is one step of the managed file. */
  lemma InstallStep(exe: string, contents: string, i: Install)
    ensures UpsertText(contents, HostAlias(i.name), RenderSshConfig(exe, i)) == InstallInto(Managed(exe), contents, i)
  {
  }
}
