/**
 Validation of a policy's identity and filesystem paths, and lexical path normalization.
 */
module PolicyPaths {
  import opened Text
  import opened Policy

  // ---------------------------------------------------------------------------
  // Paths
  // ---------------------------------------------------------------------------

  datatype Component = RootDir | CurDir | ParentDir | Normal(name: string)

  predicate HasRoot(path: string) {
    path != [] && path[0] == '/'
  }

  /** A piece between slashes that stands for itself: neither empty nor a dot. */
  predicate IsName(piece: string) {
    piece != "" && piece != "."
  }

  function NamesIn(pieces: seq<string>): (names: seq<string>)
    ensures forall x | x in names :: x in pieces && IsName(x)
  {
    if pieces == [] then []
    else (if IsName(pieces[0]) then [pieces[0]] else []) + NamesIn(pieces[1..])
  }

  /** The pieces of a path that stand for themselves, in order. */
  function Names(path: string): seq<string> {
    NamesIn(SplitOn(path, '/'))
  }

  function NameComponents(names: seq<string>): (r: seq<Component>)
    ensures |r| == |names|
    ensures forall i | 0 <= i < |names| :: r[i] == if names[i] == ".." then ParentDir else Normal(names[i])
  {
    seq(|names|, i requires 0 <= i < |names| => if names[i] == ".." then ParentDir else Normal(names[i]))
  }

  /** `Path::components`: a dot counts only at the start of a relative path. */
  function Components(path: string): seq<Component> {
    (if HasRoot(path) then [RootDir] else if SplitOn(path, '/')[0] == "." then [CurDir] else [])
    + NameComponents(Names(path))
  }

  /** The components other than a leading dot. */
  function Lasting(path: string): seq<Component> {
    (if HasRoot(path) then [RootDir] else []) + NameComponents(Names(path))
  }

  /** `PathBuf::push` of one component's text */
  function Push(buffer: string, part: string): string {
    if HasRoot(part) then part else Separated(buffer) + part
  }

  /** The buffer with the separator that a further relative part needs. */
  function Separated(buffer: string): string {
    if buffer != [] && buffer[|buffer| - 1] != '/' then buffer + "/" else buffer
  }

  function Pushed(buffer: string, c: Component): string {
    match c
    case RootDir => Push(buffer, "/")
    case CurDir => buffer
    case ParentDir => Push(buffer, "..")
    case Normal(name) => Push(buffer, name)
  }

  function PushAll(buffer: string, components: seq<Component>): string
    decreases components
  {
    if components == [] then buffer else PushAll(Pushed(buffer, components[0]), components[1..])
  }

  /** What normalization gives, in one formula: the root if there is one, and the names joined. */
  function NormalForm(path: string): string {
    (if HasRoot(path) then "/" else "") + JoinWith(Names(path), "/")
  }

  method NormalizePath(path: string) returns (normalized: string)
    ensures normalized == NormalForm(path)
  {
    normalized := "";
    var components := Components(path);
    var i := 0;
    while i < |components|
      invariant 0 <= i <= |components|
      invariant PushAll(normalized, components[i..]) == PushAll("", components)
    {
      assert components[i..][1..] == components[i + 1..];
      match components[i] {
        case RootDir => normalized := Push(normalized, "/");
        case CurDir =>
        case ParentDir => normalized := Push(normalized, "..");
        case Normal(name) => normalized := Push(normalized, name);
      }
      i := i + 1;
    }
    PushedComponents(path);
  }

  predicate PlainNames(names: seq<string>) {
    forall i | 0 <= i < |names| :: IsName(names[i]) && '/' !in names[i]
  }

  lemma NamesArePlain(path: string)
    ensures PlainNames(Names(path))
  {
    SplitLacks(path, '/');
    var names, pieces := Names(path), SplitOn(path, '/');
    forall i | 0 <= i < |names| ensures IsName(names[i]) && '/' !in names[i] {
      assert names[i] in names;
      var j :| 0 <= j < |pieces| && pieces[j] == names[i];
    }
  }

  /** Pushing names one by one joins them with slashes. */
  lemma {:induction false} PushNames(buffer: string, names: seq<string>)
    requires PlainNames(names)
    ensures PushAll(buffer, NameComponents(names))
         == if names == [] then buffer else Separated(buffer) + JoinWith(names, "/")
    decreases names
  {
    if names != [] {
      var rest := names[1..];
      var next := Separated(buffer) + names[0];
      PushName(buffer, names[0]);
      assert NameComponents(names)[1..] == NameComponents(rest);
      assert Pushed(buffer, NameComponents(names)[0]) == next;
      PushNames(next, rest);
      Regroup(Separated(buffer), names[0] + "/", JoinWith(rest, "/"));
      Regroup(Separated(buffer), names[0], "/");
    }
  }

  lemma PushName(buffer: string, name: string)
    requires IsName(name) && '/' !in name
    ensures Push(buffer, name) == Separated(buffer) + name
    ensures Separated(Separated(buffer) + name) == Separated(buffer) + name + "/"
  {
    assert name[|name| - 1] in name && name[0] in name;
  }

  lemma PushedComponents(path: string)
    ensures PushAll("", Components(path)) == NormalForm(path)
  {
    var names, components := Names(path), Components(path);
    NamesArePlain(path);
    if HasRoot(path) {
      assert components[1..] == NameComponents(names);
      PushNames("/", names);
      assert "/" + "" == "/";
    } else {
      if SplitOn(path, '/')[0] == "." {
        assert components[1..] == NameComponents(names);
      } else {
        assert components == NameComponents(names);
      }
      PushNames("", names);
      assert "" + JoinWith(names, "/") == JoinWith(names, "/");
    }
  }

  // ---------------------------------------------------------------------------
  // Laws of normalization
  // ---------------------------------------------------------------------------

  lemma {:induction false} NamesInPlain(names: seq<string>)
    requires PlainNames(names)
    ensures NamesIn(names) == names
  {
    if names != [] {
      NamesInPlain(names[1..]);
      assert names == [names[0]] + names[1..];
    }
  }

  lemma NamesOfJoined(names: seq<string>)
    requires PlainNames(names)
    ensures Names(JoinWith(names, "/")) == names
    ensures !HasRoot(JoinWith(names, "/"))
  {
    if names == [] {
      assert SplitOn("", '/') == [""];
    } else {
      assert forall x | x in names :: '/' !in x;
      SplitOfJoin(names, '/');
      NamesInPlain(names);
      assert IsName(names[0]) && JoinWith(names, "/")[0] == names[0][0] && names[0][0] in names[0];
    }
  }

  lemma NamesAfterRoot(rest: string)
    ensures Names("/" + rest) == Names(rest)
  {
    assert "/" + rest == "" + ['/'] + rest;
    SplitOnAppend("", '/', rest);
    assert ([""] + SplitOn(rest, '/'))[1..] == SplitOn(rest, '/');
  }

  /** Normalization keeps the root and every component but a leading dot, and their order. */
  lemma NormalizationKeepsComponents(path: string)
    ensures HasRoot(NormalForm(path)) == HasRoot(path)
    ensures Names(NormalForm(path)) == Names(path)
    ensures Components(NormalForm(path)) == Lasting(path)
  {
    var names := Names(path);
    NamesArePlain(path);
    NamesOfJoined(names);
    if HasRoot(path) {
      NamesAfterRoot(JoinWith(names, "/"));
    } else {
      assert NormalForm(path) == JoinWith(names, "/");
      if names == [] {
        assert SplitOn("", '/') == [""];
      } else {
        assert forall x | x in names :: '/' !in x;
        SplitOfJoin(names, '/');
        assert IsName(names[0]);
      }
    }
  }

  lemma NormalizationIdempotent(path: string)
    ensures NormalForm(NormalForm(path)) == NormalForm(path)
  {
    NormalizationKeepsComponents(path);
  }

  lemma {:induction false} NamesJoinShorter(pieces: seq<string>)
    ensures |JoinWith(NamesIn(pieces), "/")| <= |JoinWith(pieces, "/")|
  {
    if pieces != [] {
      var names := NamesIn(pieces[1..]);
      NamesJoinShorter(pieces[1..]);
      assert |pieces| == 1 ==> names == [];
      assert |JoinWith(pieces, "/")| == |pieces[0]| + (if |pieces| == 1 then 0 else 1 + |JoinWith(pieces[1..], "/")|);
      if IsName(pieces[0]) {
        assert ([pieces[0]] + names)[1..] == names;
        assert |JoinWith([pieces[0]] + names, "/")| == |pieces[0]| + (if names == [] then 0 else 1 + |JoinWith(names, "/")|);
      } else {
        assert [] + names == names;
      }
    }
  }

  lemma NormalizationShortens(path: string)
    ensures |NormalForm(path)| <= |path|
  {
    if HasRoot(path) {
      var rest := path[1..];
      assert path == "/" + rest;
      NamesAfterRoot(rest);
      NamesJoinShorter(SplitOn(rest, '/'));
      JoinOfSplit(rest, '/');
    } else {
      NamesJoinShorter(SplitOn(path, '/'));
      JoinOfSplit(path, '/');
    }
  }

  // ---------------------------------------------------------------------------
  // Validation
  // ---------------------------------------------------------------------------

  const MAX_FILESYSTEM_PATHS := 256
  const MAX_PATH_LENGTH := 4096

  datatype Field = RunAsUser | RunAsGroup

  datatype Violation =
    | InvalidProcessIdentity(field: Field, value: string)
    | PathTraversal(path: string)
    | RelativePath(path: string)
    | OverlyBroadPath(path: string)
    | FieldTooLong(path: string, length: nat)
    | TooManyPaths(count: nat)

  /** `str::len`: bytes of the UTF-8 encoding */
  function ByteLength(s: string): nat {
    if s == [] then 0 else
      var n := s[0] as int;
      (if n < 0x80 then 1 else if n < 0x800 then 2 else if n < 0x1_0000 then 3 else 4) + ByteLength(s[1..])
  }

  lemma {:induction false} ByteLengthAppend(a: string, b: string)
    ensures ByteLength(a + b) == ByteLength(a) + ByteLength(b)
  {
    if a == [] {
      assert a + b == b;
    } else {
      assert (a + b)[1..] == a[1..] + b;
      ByteLengthAppend(a[1..], b);
    }
  }

  /** Bytes are counted character by character, as section 3 of RFC 3629 encodes them. */
  lemma ByteLengthOf(c: char)
    ensures var n := c as int;
            && (n <= 0x7F ==> ByteLength([c]) == 1)
            && (0x80 <= n <= 0x7FF ==> ByteLength([c]) == 2)
            && (0x800 <= n <= 0xFFFF ==> ByteLength([c]) == 3)
            && (0x1_0000 <= n <= 0x10_FFFF ==> ByteLength([c]) == 4)
  {
    assert [c][1..] == "";
  }

  predicate Climbs(path: string) {
    ParentDir in Components(path)
  }

  /** A path that may be granted: short enough, absolute and without a parent component. */
  predicate SafePath(path: string) {
    ByteLength(path) <= MAX_PATH_LENGTH && HasRoot(path) && !Climbs(path)
  }

  predicate OnlySlashes(path: string) {
    TrimEndOf(path, '/') == ""
  }

  predicate SafeIdentity(process: Option<Process>) {
    process.None? || process.value == Process(SANDBOX, SANDBOX)
  }

  predicate SafeFilesystem(fs: Filesystem) {
    && |fs.readOnly| + |fs.readWrite| <= MAX_FILESYSTEM_PATHS
    && (forall i | 0 <= i < |fs.readOnly| :: SafePath(fs.readOnly[i]))
    && (forall i | 0 <= i < |fs.readWrite| :: SafePath(fs.readWrite[i]) && !OnlySlashes(fs.readWrite[i]))
  }

  predicate Safe(p: SandboxPolicy) {
    SafeIdentity(p.process) && (p.filesystem.Some? ==> SafeFilesystem(p.filesystem.value))
  }

  /** What a violation claims about a policy. */
  predicate IsReal(p: SandboxPolicy, v: Violation) {
    if v.InvalidProcessIdentity? then
      && p.process.Some? && v.value != SANDBOX
      && v.value == if v.field.RunAsUser? then p.process.value.runAsUser else p.process.value.runAsGroup
    else p.filesystem.Some? && IsRealIn(p.filesystem.value, v)
  }

  predicate IsRealIn(fs: Filesystem, v: Violation) {
    match v
    case InvalidProcessIdentity(_, _) => false
    case TooManyPaths(count) => count == |fs.readOnly| + |fs.readWrite| > MAX_FILESYSTEM_PATHS
    case OverlyBroadPath(path) => path in fs.readWrite && OnlySlashes(path)
    case _ => v.path in fs.readOnly + fs.readWrite && IsPathViolation(v, v.path)
  }

  /** The form of a path is only looked at when it is not too long. */
  predicate IsPathViolation(v: Violation, path: string) {
    if ByteLength(path) > MAX_PATH_LENGTH then v == FieldTooLong(path, ByteLength(path))
    else (!HasRoot(path) && v == RelativePath(path)) || (Climbs(path) && v == PathTraversal(path))
  }

  /** What is wrong with the form of one path, in the order it is noticed. */
  function Faults(path: string): seq<Violation> {
    if ByteLength(path) > MAX_PATH_LENGTH then [FieldTooLong(path, ByteLength(path))]
    else (if HasRoot(path) then [] else [RelativePath(path)]) + (if Climbs(path) then [PathTraversal(path)] else [])
  }

  function Broad(path: string): seq<Violation> {
    if OnlySlashes(path) then [OverlyBroadPath(path)] else []
  }

  /** What is wrong with each path in turn. */
  function Gather(paths: seq<string>, of: string -> seq<Violation>): seq<Violation> {
    if paths == [] then [] else Gather(paths[..|paths| - 1], of) + of(paths[|paths| - 1])
  }

  lemma GatherStep(paths: seq<string>, k: nat, of: string -> seq<Violation>)
    requires k < |paths|
    ensures Gather(paths[..k + 1], of) == Gather(paths[..k], of) + of(paths[k])
  {
    assert paths[..k + 1][..k] == paths[..k];
  }

  lemma {:induction false} InGather(paths: seq<string>, of: string -> seq<Violation>, v: Violation)
    ensures v in Gather(paths, of) <==> exists i | 0 <= i < |paths| :: v in of(paths[i])
  {
    if paths != [] {
      var init := paths[..|paths| - 1];
      InGather(init, of, v);
      assert forall i | 0 <= i < |init| :: paths[i] == init[i];
    }
  }

  /** The list for a policy's paths: their number, the form of every path, then the breadth of the writable ones. */
  function ListedIn(fs: Filesystem): seq<Violation> {
    var total := |fs.readOnly| + |fs.readWrite|;
    (if total > MAX_FILESYSTEM_PATHS then [TooManyPaths(total)] else [])
    + Gather(fs.readOnly + fs.readWrite, Faults) + Gather(fs.readWrite, Broad)
  }

  function ListedFor(process: Process): seq<Violation> {
    (if process.runAsUser == SANDBOX then [] else [InvalidProcessIdentity(RunAsUser, process.runAsUser)])
    + (if process.runAsGroup == SANDBOX then [] else [InvalidProcessIdentity(RunAsGroup, process.runAsGroup)])
  }

  lemma ListedInIsReal(fs: Filesystem, v: Violation)
    ensures v in ListedIn(fs) <==> IsRealIn(fs, v)
  {
    var paths := fs.readOnly + fs.readWrite;
    FaultsAreReal(paths, v);
    BroadAreReal(fs.readWrite, v);
  }

  lemma BroadAreReal(paths: seq<string>, v: Violation)
    ensures v in Gather(paths, Broad) <==> v.OverlyBroadPath? && v.path in paths && OnlySlashes(v.path)
  {
    InGather(paths, Broad, v);
    if i :| 0 <= i < |paths| && v in Broad(paths[i]) {
      assert v.path == paths[i];
    }
    if v.OverlyBroadPath? && v.path in paths && OnlySlashes(v.path) {
      var i :| 0 <= i < |paths| && paths[i] == v.path;
      assert v in Broad(paths[i]);
    }
  }

  lemma FaultIs(path: string, v: Violation)
    ensures v in Faults(path) <==> IsPathViolation(v, path)
    ensures v in Faults(path) ==> (v.FieldTooLong? || v.RelativePath? || v.PathTraversal?) && v.path == path
  {
  }

  /** The faults of a path, one by one; of a path that is too long nothing else is said. */
  lemma FaultsExactly(path: string)
    ensures ByteLength(path) > 4096 ==> Faults(path) == [FieldTooLong(path, ByteLength(path))]
    ensures ByteLength(path) <= 4096 ==>
              && (RelativePath(path) in Faults(path) <==> !("/" <= path))
              && (PathTraversal(path) in Faults(path) <==> ".." in SplitOn(path, '/'))
              && |Faults(path)| == (if "/" <= path then 0 else 1) + (if ".." in SplitOn(path, '/') then 1 else 0)
  {
    ClimbsIff(path);
  }

  lemma FaultsAreReal(paths: seq<string>, v: Violation)
    ensures v in Gather(paths, Faults) <==>
              (v.FieldTooLong? || v.RelativePath? || v.PathTraversal?) && v.path in paths && IsPathViolation(v, v.path)
  {
    InGather(paths, Faults, v);
    if i :| 0 <= i < |paths| && v in Faults(paths[i]) {
      FaultIs(paths[i], v);
    }
    if (v.FieldTooLong? || v.RelativePath? || v.PathTraversal?) && v.path in paths && IsPathViolation(v, v.path) {
      var i :| 0 <= i < |paths| && paths[i] == v.path;
      FaultIs(paths[i], v);
    }
  }

  /** The list in full: what is in it, how often, and in which order. */
  function Listed(p: SandboxPolicy): seq<Violation> {
    (if p.process.Some? then ListedFor(p.process.value) else [])
    + (if p.filesystem.Some? then ListedIn(p.filesystem.value) else [])
  }

  lemma ListedIsReal(p: SandboxPolicy)
    ensures forall v :: v in Listed(p) <==> IsReal(p, v)
  {
    forall v ensures v in Listed(p) <==> IsReal(p, v) {
      if p.process.Some? {
        ListedForIsReal(p.process.value, v);
      }
      if p.filesystem.Some? {
        ListedInIsReal(p.filesystem.value, v);
        InvalidIdentityElsewhere(p.filesystem.value, v);
      }
    }
  }

  lemma ListedForIsReal(process: Process, v: Violation)
    ensures v in ListedFor(process) <==>
              && v.InvalidProcessIdentity? && v.value != SANDBOX
              && v.value == if v.field.RunAsUser? then process.runAsUser else process.runAsGroup
  {
  }

  lemma InvalidIdentityElsewhere(fs: Filesystem, v: Violation)
    ensures v.InvalidProcessIdentity? ==> !IsRealIn(fs, v)
  {
  }

  /** Lists exactly the violations there are, one for every path at fault, in the order of the checks. */
  method ValidateSandboxPolicy(policy: SandboxPolicy) returns (violations: seq<Violation>)
    ensures violations == Listed(policy)
    ensures forall v :: v in violations <==> IsReal(policy, v)
  {
    ListedIsReal(policy);
    violations := [];
    if policy.process.Some? {
      var process := policy.process.value;
      if process.runAsUser != SANDBOX {
        violations := violations + [InvalidProcessIdentity(RunAsUser, process.runAsUser)];
      }
      if process.runAsGroup != SANDBOX {
        violations := violations + [InvalidProcessIdentity(RunAsGroup, process.runAsGroup)];
      }
    }
    if policy.filesystem.Some? {
      var found := ValidateFilesystem(policy.filesystem.value);
      violations := violations + found;
    }
  }

  method ValidateFilesystem(fs: Filesystem) returns (violations: seq<Violation>)
    ensures violations == ListedIn(fs)
  {
    violations := [];
    var totalPaths := |fs.readOnly| + |fs.readWrite|;
    if totalPaths > MAX_FILESYSTEM_PATHS {
      violations := violations + [TooManyPaths(totalPaths)];
    }
    var found := ValidatePaths(fs.readOnly + fs.readWrite);
    var broad := ValidateBreadth(fs.readWrite);
    violations := violations + found + broad;
  }

  method ValidatePaths(paths: seq<string>) returns (violations: seq<Violation>)
    ensures violations == Gather(paths, Faults)
  {
    violations := [];
    for k := 0 to |paths|
      invariant violations == Gather(paths[..k], Faults)
    {
      var path := paths[k];
      GatherStep(paths, k, Faults);
      if ByteLength(path) > MAX_PATH_LENGTH {
        violations := violations + [FieldTooLong(path, ByteLength(path))];
        continue;
      }
      if !HasRoot(path) {
        violations := violations + [RelativePath(path)];
      }
      if Climbs(path) {
        violations := violations + [PathTraversal(path)];
      }
    }
    assert paths[..|paths|] == paths;
  }

  method ValidateBreadth(paths: seq<string>) returns (violations: seq<Violation>)
    ensures violations == Gather(paths, Broad)
  {
    violations := [];
    for k := 0 to |paths|
      invariant violations == Gather(paths[..k], Broad)
    {
      GatherStep(paths, k, Broad);
      if OnlySlashes(paths[k]) {
        violations := violations + [OverlyBroadPath(paths[k])];
      }
    }
    assert paths[..|paths|] == paths;
  }

  /** There is nothing to list exactly for a safe policy. */
  lemma NoViolationIffSafe(p: SandboxPolicy)
    ensures (forall v :: !IsReal(p, v)) <==> Safe(p)
  {
    if !SafeIdentity(p.process) {
      var process := p.process.value;
      if process.runAsUser != SANDBOX {
        assert IsReal(p, InvalidProcessIdentity(RunAsUser, process.runAsUser));
      } else {
        assert IsReal(p, InvalidProcessIdentity(RunAsGroup, process.runAsGroup));
      }
    }
    if p.filesystem.Some? {
      NoViolationIffSafeIn(p.filesystem.value);
      if v :| IsRealIn(p.filesystem.value, v) {
        assert IsReal(p, v);
      }
    }
  }

  /** Short enough, absolute, and with no piece that is two dots. */
  predicate Grantable(path: string) {
    ByteLength(path) <= 4096 && "/" <= path && ".." !in SplitOn(path, '/')
  }

  predicate HasMoreThanSlashes(path: string) {
    exists k | 0 <= k < |path| :: path[k] != '/'
  }

  /** Safety without the checks' own terms. */
  lemma SafeMeans(p: SandboxPolicy)
    ensures Safe(p) <==>
              && (p.process.Some? ==> p.process.value.runAsUser == "sandbox" && p.process.value.runAsGroup == "sandbox")
              && (p.filesystem.Some? ==>
                    var fs := p.filesystem.value;
                    && |fs.readOnly| + |fs.readWrite| <= 256
                    && (forall i | 0 <= i < |fs.readOnly| :: Grantable(fs.readOnly[i]))
                    && (forall i | 0 <= i < |fs.readWrite| ::
                          Grantable(fs.readWrite[i]) && HasMoreThanSlashes(fs.readWrite[i])))
  {
    forall path ensures SafePath(path) <==> Grantable(path) {
      ClimbsIff(path);
    }
    forall path ensures OnlySlashes(path) <==> !HasMoreThanSlashes(path) {
      OnlySlashesMeans(path);
    }
  }

  /** A path climbs exactly if one of its pieces is two dots. */
  lemma ClimbsIff(path: string)
    ensures Climbs(path) <==> ".." in SplitOn(path, '/')
  {
    var names := Names(path);
    NameIn(SplitOn(path, '/'), "..");
    if ".." in names {
      var k :| 0 <= k < |names| && names[k] == "..";
      assert NameComponents(names)[k] == ParentDir;
      assert ParentDir in NameComponents(names);
    }
    if ParentDir in NameComponents(names) {
      var k :| 0 <= k < |names| && NameComponents(names)[k] == ParentDir;
      assert names[k] == "..";
    }
  }

  lemma {:induction false} NameIn(pieces: seq<string>, name: string)
    requires IsName(name)
    ensures name in NamesIn(pieces) <==> name in pieces
  {
    if pieces != [] {
      NameIn(pieces[1..], name);
      assert pieces == [pieces[0]] + pieces[1..];
    }
  }

  lemma NoViolationIffSafeIn(fs: Filesystem)
    ensures (forall v :: !IsRealIn(fs, v)) <==> SafeFilesystem(fs)
  {
    if SafeFilesystem(fs) {
      forall v ensures !IsRealIn(fs, v) {
      }
    } else if |fs.readOnly| + |fs.readWrite| > MAX_FILESYSTEM_PATHS {
      assert IsRealIn(fs, TooManyPaths(|fs.readOnly| + |fs.readWrite|));
    } else if i :| 0 <= i < |fs.readWrite| && OnlySlashes(fs.readWrite[i]) {
      assert IsRealIn(fs, OverlyBroadPath(fs.readWrite[i]));
    } else {
      var paths := fs.readOnly + fs.readWrite;
      SafeBoth(fs.readOnly, fs.readWrite);
      var i :| 0 <= i < |paths| && !SafePath(paths[i]);
      UnsafePathListed(fs, paths[i]);
    }
  }

  lemma UnsafePathListed(fs: Filesystem, path: string)
    requires path in fs.readOnly + fs.readWrite && !SafePath(path)
    ensures exists v :: IsRealIn(fs, v)
  {
    if ByteLength(path) > MAX_PATH_LENGTH {
      assert IsRealIn(fs, FieldTooLong(path, ByteLength(path)));
    } else if !HasRoot(path) {
      assert IsRealIn(fs, RelativePath(path));
    } else {
      assert IsRealIn(fs, PathTraversal(path));
    }
  }

  lemma SafeBoth(a: seq<string>, b: seq<string>)
    ensures (forall i | 0 <= i < |a + b| :: SafePath((a + b)[i]))
       <==> (forall i | 0 <= i < |a| :: SafePath(a[i])) && (forall i | 0 <= i < |b| :: SafePath(b[i]))
  {
    assert forall i | 0 <= i < |a| :: a[i] == (a + b)[i];
    assert forall i | 0 <= i < |b| :: b[i] == (a + b)[|a| + i];
  }

  /** The verdicts on a path's form are those on its normal form. */
  lemma VerdictsUnchanged(path: string)
    ensures HasRoot(NormalForm(path)) == HasRoot(path) && Climbs(NormalForm(path)) == Climbs(path)
  {
    NormalizationKeepsComponents(path);
    var names := NameComponents(Names(path));
    assert Climbs(path) <==> ParentDir in names;
    assert Climbs(NormalForm(path)) <==> ParentDir in names;
  }

  predicate AllSlashes(path: string) {
    forall i | 0 <= i < |path| :: path[i] == '/'
  }

  predicate AllEmpty(pieces: seq<string>) {
    forall piece | piece in pieces :: piece == ""
  }

  lemma {:induction false} OnlySlashesMeans(path: string)
    ensures OnlySlashes(path) <==> AllSlashes(path)
  {
    if path != [] && path[|path| - 1] == '/' {
      OnlySlashesMeans(path[..|path| - 1]);
    }
  }

  /** For a rooted path in normal form, the breadth check says exactly whether it names anything. */
  lemma BreadthOfNormalForm(path: string)
    requires HasRoot(path)
    ensures OnlySlashes(NormalForm(path)) <==> Names(path) == []
  {
    var names := Names(path);
    OnlySlashesMeans(NormalForm(path));
    if names != [] {
      NamesArePlain(path);
      assert IsName(names[0]) && names[0][0] in names[0];
      assert NormalForm(path)[1] == names[0][0];
    }
  }

  /** A read-write path in normal form that passes is absolute, never climbs and names something. */
  lemma AcceptedReadWritePath(path: string)
    requires SafePath(NormalForm(path)) && !OnlySlashes(NormalForm(path))
    ensures HasRoot(path) && !Climbs(path)
    ensures Names(path) != [] && forall c | c in Components(NormalForm(path))[1..] :: c.Normal?
  {
    VerdictsUnchanged(path);
    BreadthOfNormalForm(path);
    NormalizationKeepsComponents(path);
    var components := Components(NormalForm(path));
    forall c | c in components[1..] ensures c.Normal? {
      assert components[1..] == NameComponents(Names(path));
      assert c in components;
    }
  }

  /** Without normalizing first the root slips through: this path passes and names nothing. */
  lemma RootInDisguise()
    ensures SafePath("/.") && !OnlySlashes("/.") && Names("/.") == [] && NormalForm("/.") == "/"
  {
    SplitOnAppend(".", '/', "");
    SplitOnAppend("", '/', ".");
    assert "" + ['/'] + "." == "/.";
    assert ([""] + ["."])[1..] == ["."] && ["."][1..] == [];
    assert NamesIn(["."]) == [];
    assert Names("/.") == [];
    OnlySlashesMeans("/.");
    assert "/."[1..] == "." && "."[1..] == "" && ByteLength(".") == 1;
    assert Components("/.") == [RootDir];
  }

  lemma {:induction false} SlashesAreEmptyPieces(s: string)
    ensures AllSlashes(s) <==> AllEmpty(SplitOn(s, '/'))
  {
    if s != [] {
      var pieces, rest := SplitOn(s, '/'), SplitOn(s[1..], '/');
      SlashesAreEmptyPieces(s[1..]);
      if s[0] == '/' {
        assert AllEmpty(pieces) <==> AllEmpty(rest) by {
          assert forall piece :: piece in pieces <==> piece == "" || piece in rest;
        }
        assert AllSlashes(s) <==> AllSlashes(s[1..]) by {
          assert forall i | 0 < i < |s| :: s[i] == s[1..][i - 1];
          assert forall i | 0 <= i < |s[1..]| :: s[1..][i] == s[i + 1];
        }
      } else {
        assert pieces[0] == [s[0]] + rest[0] && pieces[0] != "" && pieces[0] in pieces;
      }
    }
  }

  lemma {:induction false} NoNames(pieces: seq<string>)
    ensures NamesIn(pieces) == [] <==> forall piece | piece in pieces :: !IsName(piece)
  {
    if pieces != [] {
      NoNames(pieces[1..]);
      assert pieces == [pieces[0]] + pieces[1..];
    }
  }

  /** Exactly when the breadth check on a path as given misses that it names nothing: it has a dot. */
  lemma BreadthCheckExact(path: string)
    ensures OnlySlashes(path) <==> Names(path) == [] && "." !in SplitOn(path, '/')
  {
    OnlySlashesMeans(path);
    SlashesAreEmptyPieces(path);
    EmptyPieces(SplitOn(path, '/'));
  }

  lemma EmptyPieces(pieces: seq<string>)
    ensures AllEmpty(pieces) <==> NamesIn(pieces) == [] && "." !in pieces
  {
    NoNames(pieces);
    if NamesIn(pieces) == [] && "." !in pieces {
      assert forall piece | piece in pieces :: !IsName(piece);
    }
    if AllEmpty(pieces) {
      assert "." !in pieces;
      assert forall piece | piece in pieces :: !IsName(piece);
    }
  }

  /** A saved and reloaded policy has the violations it had, once the identity is filled in. */
  lemma ReloadKeepsVerdict(p: SandboxPolicy)
    ensures forall v :: IsReal(WithIdentity(Normalized(p)), v) == IsReal(WithIdentity(p), v)
  {
  }
}
