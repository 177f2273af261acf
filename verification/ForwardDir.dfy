/**
 The directory of forward PID files, whose file names are the index.
 */
module ForwardDir {
  import opened Text
  import opened Decimal
  import opened ForwardSpec

  const MAX_PID := 0xFFFF_FFFF
  const EXTENSION := ".pid"

  // ---------------------------------------------------------------------------
  // File names
  // ---------------------------------------------------------------------------

  function Stem(name: string, port: nat): string {
    name + "-" + Print(port)
  }

  function FileName(name: string, port: nat): string {
    Stem(name, port) + EXTENSION
  }

  function StripSuffix(s: string, suffix: string): Option<string> {
    if |s| >= |suffix| && s[|s| - |suffix|..] == suffix then Some(s[..|s| - |suffix|]) else None
  }

  /** The reading of the lister: the port follows the last dash. */
  function Decode(file: string): Option<(string, nat)> {
    var stem := StripSuffix(file, EXTENSION);
    if stem.None? || '-' !in stem.value then None else
      var dash := LastIndexOf(stem.value, '-');
      var port := Parse(stem.value[dash + 1..], MAX_PORT);
      if port.None? then None else Some((stem.value[..dash], port.value))
  }

  /** The reading of the search by port: the suffix is given. */
  function OwnerOf(file: string, port: nat): Option<string> {
    var name := StripSuffix(file, "-" + Print(port) + EXTENSION);
    if name == Some("") then None else name
  }

  /** The reading of the stop by name: the prefix is given. */
  function PortFor(file: string, name: string): Option<nat> {
    var prefix := name + "-";
    if !(prefix <= file) then None else
      var port := StripSuffix(file[|prefix|..], EXTENSION);
      if port.None? then None else Parse(port.value, MAX_PORT)
  }

  /** The name of a pair's file, as it stands in the directory. */
  lemma FileNameIs(name: string, port: nat)
    ensures FileName(name, port) == name + "-" + Print(port) + ".pid"
  {
  }

  lemma StripSuffixOf(a: string, suffix: string)
    ensures StripSuffix(a + suffix, suffix) == Some(a)
  {
  }

  lemma StemDash(name: string, port: nat)
    ensures '-' in Stem(name, port) && LastIndexOf(Stem(name, port), '-') == |name|
    ensures Stem(name, port)[..|name|] == name && Stem(name, port)[|name| + 1..] == Print(port)
  {
    var stem := Stem(name, port);
    assert stem[|name| + 1..] == Print(port);
    assert '-' !in Print(port);
    LastIndexOfUnique(stem, '-', |name|);
  }

  /** The lister reads every written name back. */
  lemma DecodeFileName(name: string, port: nat)
    requires port <= MAX_PORT
    ensures Decode(FileName(name, port)) == Some((name, port))
  {
    StripSuffixOf(Stem(name, port), EXTENSION);
    StemDash(name, port);
    ParseOfPrint(port, MAX_PORT);
  }

  lemma FileNameInjective(m: string, p: nat, n: string, q: nat)
    requires p <= MAX_PORT && q <= MAX_PORT && FileName(m, p) == FileName(n, q)
    ensures m == n && p == q
  {
    DecodeFileName(m, p);
    DecodeFileName(n, q);
  }

  /** The search by port agrees with the lister, whatever dashes and digits the names contain. */
  lemma OwnerOfFileName(name: string, p: nat, q: nat)
    requires name != "" && p <= MAX_PORT && q <= MAX_PORT
    ensures OwnerOf(FileName(name, p), q) == if p == q then Some(name) else None
  {
    var file, suffix := FileName(name, p), "-" + Print(q) + EXTENSION;
    var stripped := StripSuffix(file, suffix);
    if stripped.Some? {
      var owner := stripped.value;
      assert file == owner + suffix;
      assert owner + suffix == FileName(owner, q) by { FileNameSuffix(owner, q); }
      FileNameInjective(name, p, owner, q);
    } else if p == q {
      FileNameSuffix(name, p);
      StripSuffixOf(name, suffix);
    }
  }

  /** A file without a name before its port belongs to nobody, and one with another extension is no PID file. */
  lemma ForeignFiles(file: string, name: string, port: nat)
    requires port <= MAX_PORT
    ensures OwnerOf("-" + Print(port) + ".pid", port) == None
    ensures StripSuffix(file, ".pid") == None ==> Decode(file) == None && OwnerOf(file, port) == None && PortFor(file, name) == None
  {
    var suffix := "-" + Print(port) + ".pid";
    assert suffix[0..] == suffix && suffix[..0] == "";
    if StripSuffix(file, ".pid") == None {
      NoExtension(file, "-" + Print(port), ".pid");
      if name + "-" <= file {
        ShorterNoExtension(file, |name + "-"|, ".pid");
      }
    }
  }

  lemma NoExtension(file: string, before: string, extension: string)
    requires StripSuffix(file, extension) == None
    ensures StripSuffix(file, before + extension) == None
  {
    if |file| >= |before + extension| {
      assert file[|file| - |before + extension|..][|before|..] == file[|file| - |extension|..];
      assert (before + extension)[|before|..] == extension;
    }
  }

  lemma ShorterNoExtension(file: string, from: nat, extension: string)
    requires from <= |file| && StripSuffix(file, extension) == None
    ensures StripSuffix(file[from..], extension) == None
  {
    if |file| - from >= |extension| {
      assert file[from..][|file| - from - |extension|..] == file[|file| - |extension|..];
    }
  }

  lemma FileNameSuffix(name: string, port: nat)
    ensures FileName(name, port) == name + ("-" + Print(port) + EXTENSION)
  {
    Regroup(name, "-" + Print(port), EXTENSION);
    Regroup(name, "-", Print(port));
  }

  /** After a shorter prefix a dash is left over, so no port follows. */
  lemma NameExtends(stem: string, dash: nat, from: nat)
    requires from <= dash < |stem| && stem[dash] == '-'
    ensures Parse(stem[from..], MAX_PORT) == None
  {
    assert stem[from..][dash - from] == '-';
    ParseRejects(stem[from..], MAX_PORT, '-');
  }

  /** The dashes of a file name are those of its stem, up to the last. */
  lemma NoDashLater(stem: string, dash: nat)
    requires dash < |stem| && '-' !in stem[dash + 1..]
    ensures forall k | dash < k < |stem + EXTENSION| :: (stem + EXTENSION)[k] != '-'
  {
    var file := stem + EXTENSION;
    forall k | dash < k < |file| ensures file[k] != '-' {
      if k < |stem| {
        assert stem[k] == stem[dash + 1..][k - dash - 1];
      } else {
        assert '-' !in EXTENSION && EXTENSION[k - |stem|] in EXTENSION;
      }
    }
  }

  lemma PortForStem(stem: string, dash: nat, other: string)
    requires dash < |stem| && stem[dash] == '-' && '-' !in stem[dash + 1..]
    ensures PortFor(stem + EXTENSION, other) == if other == stem[..dash] then Parse(stem[dash + 1..], MAX_PORT) else None
  {
    var file, prefix := stem + EXTENSION, other + "-";
    assert other == stem[..dash] ==> prefix == stem[..dash + 1];
    if prefix <= file {
      var n := |other|;
      assert file[n] == prefix[n] == '-' && other == prefix[..n] == file[..n];
      NoDashLater(stem, dash);
      assert n <= dash;
      assert file[n + 1..] == stem[n + 1..] + EXTENSION;
      StripSuffixOf(stem[n + 1..], EXTENSION);
      if n < dash {
        NameExtends(stem, dash, n + 1);
      }
    }
  }

  /** The stop by name picks exactly the files of that name, even among names that extend it. */
  lemma PortForFileName(name: string, p: nat, other: string)
    requires p <= MAX_PORT
    ensures PortFor(FileName(name, p), other) == if name == other then Some(p) else None
  {
    StemDash(name, p);
    assert '-' !in Print(p);
    PortForStem(Stem(name, p), |name|, other);
    ParseOfPrint(p, MAX_PORT);
  }

  // ---------------------------------------------------------------------------
  // File contents
  // ---------------------------------------------------------------------------

  datatype Record = Record(pid: nat, sandboxId: string, bindAddr: string)

  /** A record as it is read; old files lack the later fields. */
  datatype PidRecord = PidRecord(pid: nat, sandboxId: Option<string>, bindAddr: Option<string>)

  function AsRead(r: Record): PidRecord {
    PidRecord(r.pid, Some(r.sandboxId), Some(r.bindAddr))
  }

  function Contents(r: Record): string {
    Print(r.pid) + "\t" + (r.sandboxId + "\t" + r.bindAddr)
  }

  function ReadRecord(contents: string): Option<PidRecord> {
    var parts := SplitOn(contents, '\t');
    var pid := Parse(Trim(parts[0]), MAX_PID);
    if pid.None? then None else
      Some(PidRecord(pid.value,
                     if |parts| > 1 then Some(parts[1]) else None,
                     if |parts| > 2 then Some(Trim(parts[2])) else None))
  }

  /** The text of a record: its fields, set off by tabs. */
  lemma ContentsAre(r: Record)
    ensures Contents(r) == Print(r.pid) + "\t" + r.sandboxId + "\t" + r.bindAddr
  {
    Regroup(Print(r.pid) + "\t", r.sandboxId + "\t", r.bindAddr);
    Regroup(Print(r.pid) + "\t", r.sandboxId, "\t");
  }

  /** Fields that survive being written: no tabs, and an address without surrounding whitespace. */
  predicate Writable(r: Record) {
    r.pid <= MAX_PID && '\t' !in r.sandboxId && '\t' !in r.bindAddr && Trim(r.bindAddr) == r.bindAddr
  }

  lemma ReadOfContents(r: Record)
    requires Writable(r)
    ensures ReadRecord(Contents(r)) == Some(AsRead(r))
  {
    var digits := Print(r.pid);
    assert '\t' !in digits;
    SplitOnAppend(digits, '\t', r.sandboxId + "\t" + r.bindAddr);
    SplitOnAppend(r.sandboxId, '\t', r.bindAddr);
    SplitOnAppend(r.bindAddr, '\t', "");
    TrimOfDigits(digits);
    ParseOfPrint(r.pid, MAX_PID);
  }

  lemma TrimOfDigits(digits: string)
    requires digits != [] && forall c | c in digits :: IsDigit(c)
    ensures Trim(digits) == digits
  {
    assert digits[0] in digits && digits[|digits| - 1] in digits;
  }

  // ---------------------------------------------------------------------------
  // The directory as a map
  // ---------------------------------------------------------------------------

  type Key = (string, nat)
  type Table = map<Key, Record>
  type Files = map<string, string>

  predicate GoodKey(key: Key) {
    key.0 != "" && '/' !in key.0 && key.1 <= MAX_PORT
  }

  function FileOf(key: Key): string {
    FileName(key.0, key.1)
  }

  /** The files are exactly the images of the table's pairs, for any way of naming and writing them. */
  ghost predicate Encodes(file: Key -> string, write: Record -> string, files: Files, table: Table) {
    && (forall key | key in table :: file(key) in files && files[file(key)] == write(table[key]))
    && (forall f | f in files :: exists key :: key in table && f == file(key))
  }

  /** No other pair of the table has the file of this one. */
  ghost predicate Apart(file: Key -> string, table: Table, key: Key) {
    forall k | k in table && file(k) == file(key) :: k == key
  }

  lemma EncodesPut(file: Key -> string, write: Record -> string, files: Files, table: Table, key: Key, r: Record)
    requires Apart(file, table, key) && Encodes(file, write, files, table)
    ensures Encodes(file, write, files[file(key) := write(r)], table[key := r])
  {
    var files', table' := files[file(key) := write(r)], table[key := r];
    forall f | f in files' ensures exists k :: k in table' && f == file(k) {
      if f == file(key) {
        assert key in table';
      } else {
        var k :| k in table && f == file(k);
        assert k in table';
      }
    }
  }

  lemma EncodesRemove(file: Key -> string, write: Record -> string, files: Files, table: Table, key: Key)
    requires Apart(file, table, key) && Encodes(file, write, files, table)
    ensures Encodes(file, write, files - {file(key)}, table - {key})
  {
    var files', table' := files - {file(key)}, table - {key};
    forall f | f in files' ensures exists k :: k in table' && f == file(k) {
      var k :| k in table && f == file(k);
      assert k in table';
    }
  }

  ghost predicate GoodTable(table: Table) {
    forall key | key in table :: GoodKey(key) && Writable(table[key])
  }

  lemma KeysApart(table: Table, key: Key)
    requires GoodTable(table) && GoodKey(key)
    ensures Apart(FileOf, table, key)
  {
    forall k | k in table && FileOf(k) == FileOf(key) ensures k == key {
      FileNameInjective(k.0, k.1, key.0, key.1);
    }
  }

  /** The files are exactly those of the table's pairs, with their records. */
  ghost predicate Represents(files: Files, table: Table) {
    GoodTable(table) && Encodes(FileOf, Contents, files, table)
  }

  lemma WriteRefines(files: Files, table: Table, key: Key, r: Record)
    requires Represents(files, table) && GoodKey(key) && Writable(r)
    ensures Represents(files[FileOf(key) := Contents(r)], table[key := r])
  {
    KeysApart(table, key);
    EncodesPut(FileOf, Contents, files, table, key, r);
  }

  lemma RemoveRefines(files: Files, table: Table, key: Key)
    requires Represents(files, table) && GoodKey(key)
    ensures Represents(files - {FileOf(key)}, table - {key})
  {
    KeysApart(table, key);
    EncodesRemove(FileOf, Contents, files, table, key);
  }

  lemma ReadRefines(files: Files, table: Table, key: Key)
    requires Represents(files, table) && GoodKey(key)
    ensures FileOf(key) in files <==> key in table
    ensures key in table ==>
              ReadRecord(files[FileOf(key)]) == Some(AsRead(table[key]))
  {
    if FileOf(key) in files {
      var k :| k in table && FileOf(key) == FileOf(k);
      FileNameInjective(k.0, k.1, key.0, key.1);
    }
    if key in table {
      ReadOfContents(table[key]);
    }
  }

  /** A listing has every file once. */
  ghost predicate IsListing(listing: seq<string>, files: Files) {
    && Distinct(listing)
    && (forall f :: f in listing <==> f in files)
  }

  /** The pair of a listed file. */
  lemma KeyOfFile(files: Files, table: Table, file: string) returns (key: Key)
    requires Represents(files, table) && file in files
    ensures key in table && GoodKey(key) && file == FileOf(key)
  {
    key :| key in table && file == FileOf(key);
  }

  lemma FileOfKey(files: Files, table: Table, listing: seq<string>, key: Key) returns (i: nat)
    requires Represents(files, table) && IsListing(listing, files) && key in table
    ensures GoodKey(key) && i < |listing| && listing[i] == FileOf(key)
  {
    assert FileOf(key) in listing;
    i :| 0 <= i < |listing| && listing[i] == FileOf(key);
  }

  function Owners(listing: seq<string>, port: nat): (r: seq<Option<string>>)
    ensures |r| == |listing| && forall i | 0 <= i < |listing| :: r[i] == OwnerOf(listing[i], port)
  {
    seq(|listing|, i requires 0 <= i < |listing| => OwnerOf(listing[i], port))
  }

  /** The search by port finds exactly the names that the table has for the port. */
  lemma OwnersRefine(files: Files, table: Table, listing: seq<string>, port: nat)
    requires Represents(files, table) && IsListing(listing, files) && port <= MAX_PORT
    ensures forall name :: Some(name) in Owners(listing, port) <==> (name, port) in table
  {
    forall name ensures Some(name) in Owners(listing, port) <==> (name, port) in table {
      if Some(name) in Owners(listing, port) {
        var i :| 0 <= i < |listing| && Owners(listing, port)[i] == Some(name);
        assert listing[i] in listing;
        var key := KeyOfFile(files, table, listing[i]);
        OwnerOfFileName(key.0, key.1, port);
      }
      if (name, port) in table {
        var i := FileOfKey(files, table, listing, (name, port));
        OwnerOfFileName(name, port, port);
        assert Owners(listing, port)[i] == Some(name);
      }
    }
  }

  function Ports(listing: seq<string>, name: string): (r: seq<Option<nat>>)
    ensures |r| == |listing| && forall i | 0 <= i < |listing| :: r[i] == PortFor(listing[i], name)
  {
    seq(|listing|, i requires 0 <= i < |listing| => PortFor(listing[i], name))
  }

  /** The stop by name picks exactly the ports that the table has for the name, each once. */
  lemma PortsRefine(files: Files, table: Table, listing: seq<string>, name: string)
    requires Represents(files, table) && IsListing(listing, files)
    ensures forall port :: Some(port) in Ports(listing, name) <==> (name, port) in table
    ensures Once(Ports(listing, name))
  {
    var ports := Ports(listing, name);
    forall port ensures Some(port) in ports <==> (name, port) in table {
      if Some(port) in ports {
        var i :| 0 <= i < |listing| && ports[i] == Some(port);
        PortRefines(files, table, listing[i], name);
      }
      if (name, port) in table {
        var i := FileOfKey(files, table, listing, (name, port));
        PortForFileName(name, port, name);
        assert ports[i] == Some(port);
      }
    }
    forall i, j | 0 <= i < j < |listing| && ports[i].Some? ensures ports[i] != ports[j] {
      if ports[i] == ports[j] {
        PortRefines(files, table, listing[i], name);
        PortRefines(files, table, listing[j], name);
      }
    }
  }

  lemma PortRefines(files: Files, table: Table, file: string, name: string)
    requires Represents(files, table) && file in files && PortFor(file, name).Some?
    ensures var key := (name, PortFor(file, name).value); key in table && file == FileOf(key)
  {
    var key := KeyOfFile(files, table, file);
    PortForFileName(key.0, key.1, name);
  }

  function Decoded(listing: seq<string>): (r: seq<Option<Key>>)
    ensures |r| == |listing| && forall i | 0 <= i < |listing| :: r[i] == Decode(listing[i])
  {
    seq(|listing|, i requires 0 <= i < |listing| => Decode(listing[i]))
  }

  /** The lister reads exactly the pairs of the table, each once. */
  lemma DecodedRefines(files: Files, table: Table, listing: seq<string>)
    requires Represents(files, table) && IsListing(listing, files)
    ensures forall i | 0 <= i < |listing| :: Decoded(listing)[i].Some? && Decoded(listing)[i].value in table
    ensures Distinct(Decoded(listing))
    ensures forall key | key in table :: Some(key) in Decoded(listing)
  {
    var decoded := Decoded(listing);
    forall i | 0 <= i < |listing| ensures decoded[i].Some? && decoded[i].value in table {
      DecodeRefines(files, table, listing[i]);
    }
    forall i, j | 0 <= i < j < |listing| ensures decoded[i] != decoded[j] {
      assert listing[i] in listing && listing[j] in listing;
      DecodedApart(files, table, listing[i], listing[j]);
    }
    forall key | key in table ensures Some(key) in decoded {
      DecodedCovers(files, table, listing, key);
    }
  }

  lemma DecodedCovers(files: Files, table: Table, listing: seq<string>, key: Key)
    requires Represents(files, table) && IsListing(listing, files) && key in table
    ensures Some(key) in Decoded(listing)
  {
    var i := FileOfKey(files, table, listing, key);
    DecodeFileName(key.0, key.1);
    assert Decoded(listing)[i] == Some(key);
  }

  lemma DecodedApart(files: Files, table: Table, f: string, g: string)
    requires Represents(files, table) && f in files && g in files && f != g
    ensures Decode(f) != Decode(g)
  {
    DecodeRefines(files, table, f);
    DecodeRefines(files, table, g);
  }

  lemma DecodeRefines(files: Files, table: Table, file: string)
    requires Represents(files, table) && file in files
    ensures Decode(file).Some? && Decode(file).value in table && file == FileOf(Decode(file).value)
  {
    var key := KeyOfFile(files, table, file);
    DecodeFileName(key.0, key.1);
  }

  // ---------------------------------------------------------------------------
  // The operations
  // ---------------------------------------------------------------------------

  /**
   What the system says: which processes are alive, which are the forward looked for, and of which pairs
   the file can be removed.
   */
  datatype Processes = Processes(alive: nat -> bool, matches: (nat, nat, Option<string>) -> bool, removes: Key -> bool)

  datatype ForwardInfo = ForwardInfo(sandbox: string, port: nat, pid: nat, alive: bool, bindAddr: string)

  /** Whether stopping this pair's process counts as having stopped a forward. */
  predicate Stops(r: Record, port: nat, ps: Processes) {
    ps.alive(r.pid) ==> ps.matches(r.pid, port, Some(r.sandboxId))
  }

  class PidDirectory {
    var files: Files

    constructor ()
      ensures files == map[] && Represents(files, map[])
    {
      files := map[];
    }

    /** A later write for the same pair replaces the earlier one. */
    method WriteForwardPid(name: string, port: nat, r: Record, ghost table: Table)
      requires Represents(files, table) && GoodKey((name, port)) && Writable(r)
      modifies this
      ensures Represents(files, table[(name, port) := r])
    {
      WriteRefines(files, table, (name, port), r);
      files := files[FileName(name, port) := Contents(r)];
    }

    method ReadForwardPid(name: string, port: nat, ghost table: Table) returns (r: Option<PidRecord>)
      requires Represents(files, table) && GoodKey((name, port))
      ensures (name, port) !in table ==> r == None
      ensures (name, port) in table ==> r == Some(AsRead(table[(name, port)]))
    {
      ReadRefines(files, table, (name, port));
      var file := FileName(name, port);
      r := if file in files then ReadRecord(files[file]) else None;
    }

    /** The directory's entries, in some order. */
    method ReadDir() returns (listing: seq<string>)
      ensures IsListing(listing, files)
    {
      listing := [];
      var left := files.Keys;
      while left != {}
        invariant left <= files.Keys
        invariant forall f :: f in listing <==> f in files && f !in left
        invariant Distinct(listing)
        decreases |left|
      {
        var f :| f in left;
        left := left - {f};
        listing := listing + [f];
      }
    }

    /** What the search by port reads in each entry. */
    method ScanOwners(port: nat, ghost table: Table) returns (owners: seq<Option<string>>)
      requires Represents(files, table) && port <= MAX_PORT
      ensures forall name :: Some(name) in owners <==> (name, port) in table
    {
      var listing := ReadDir();
      OwnersRefine(files, table, listing, port);
      owners := Owners(listing, port);
    }

    /** Some owner of the port, in whatever order the directory is read. */
    method FindForwardByPort(port: nat, ghost table: Table) returns (owner: Option<string>)
      requires Represents(files, table) && port <= MAX_PORT
      ensures owner.Some? ==> (owner.value, port) in table
      ensures owner.None? ==> forall name :: (name, port) !in table
    {
      var owners := ScanOwners(port, table);
      owner := FirstOwner(owners);
    }

    /**
     Stop one forward; its file goes if it can be removed, whether or not the process was the expected
     one.  A failed removal changes neither the answer nor anything else.
     */
    method StopForward(name: string, port: nat, ps: Processes, ghost table: Table) returns (stopped: bool)
      requires Represents(files, table) && GoodKey((name, port))
      modifies this
      ensures Represents(files, Removed(table, (name, port), ps))
      ensures stopped <==>
                && (name, port) in table
                && var r := table[(name, port)]; ps.alive(r.pid) ==> ps.matches(r.pid, port, Some(r.sandboxId))
    {
      var record := ReadForwardPid(name, port, table);
      if record.None? {
        assert table - {(name, port)} == table;
        return false;
      }
      var pid := record.value.pid;
      stopped := !ps.alive(pid) || ps.matches(pid, port, record.value.sandboxId);
      RemoveFile(name, port, ps, table);
    }

    /** `let _ = remove_file` */
    method RemoveFile(name: string, port: nat, ps: Processes, ghost table: Table)
      requires Represents(files, table) && GoodKey((name, port))
      modifies this
      ensures Represents(files, Removed(table, (name, port), ps))
    {
      if ps.removes((name, port)) {
        RemoveRefines(files, table, (name, port));
        files := files - {FileName(name, port)};
      }
    }

    /** Stop every forward of one sandbox: exactly the pairs of that name go whose files can be removed. */
    method StopForwardsForSandbox(name: string, ps: Processes, ghost table: Table) returns (stopped: seq<nat>)
      requires Represents(files, table) && name != "" && '/' !in name
      modifies this
      ensures Represents(files, Others(table, name, ps))
      ensures forall port :: port in stopped <==> (name, port) in table && Stops(table[(name, port)], port, ps)
      ensures Distinct(stopped)
    {
      var ports := ScanPorts(name, table);
      stopped := StopPorts(name, ports, ps, table);
      AllExcept(table, name, ports, ps);
    }

    /** What the stop by name reads in each entry. */
    method ScanPorts(name: string, ghost table: Table) returns (ports: seq<Option<nat>>)
      requires Represents(files, table)
      ensures forall port :: Some(port) in ports <==> (name, port) in table
      ensures Once(ports)
    {
      var listing := ReadDir();
      PortsRefine(files, table, listing, name);
      ports := Ports(listing, name);
    }

    method StopPorts(name: string, ports: seq<Option<nat>>, ps: Processes, ghost table: Table) returns (stopped: seq<nat>)
      requires Represents(files, table) && name != "" && '/' !in name
      requires Once(ports) && forall i | 0 <= i < |ports| && ports[i].Some? :: ports[i].value <= MAX_PORT
      modifies this
      ensures Represents(files, Except(table, name, ports, ps))
      ensures forall port :: port in stopped <==>
                Some(port) in ports && IsStopped(name, Some(port), ps, table)
      ensures Distinct(stopped)
    {
      stopped := [];
      ExceptNone(table, name, ps);
      for i := 0 to |ports|
        invariant Represents(files, Except(table, name, ports[..i], ps))
        invariant stopped == StoppedPorts(name, ports[..i], ps, table)
      {
        assert ports[..i + 1] == ports[..i] + [ports[i]];
        StoppedStep(name, ports[..i], ports[i], ps, table);
        var ok := StopEntry(name, ports[..i], ports[i], ps, table);
        if ok {
          stopped := stopped + [ports[i].value];
        }
      }
      assert ports[..|ports|] == ports;
      StoppedExactly(name, ports, ps, table);
    }

    /** One entry of the listing, after those before it. */
    method StopEntry(name: string, ghost before: seq<Option<nat>>, port: Option<nat>, ps: Processes, ghost table: Table)
        returns (ok: bool)
      requires Represents(files, Except(table, name, before, ps)) && name != "" && '/' !in name
      requires port.Some? ==> port !in before && port.value <= MAX_PORT
      modifies this
      ensures Represents(files, Except(table, name, before + [port], ps))
      ensures ok <==> IsStopped(name, port, ps, table)
    {
      ExceptStep(table, name, before, port, ps);
      if port.None? {
        return false;
      }
      StillThere(table, name, before, port.value, ps);
      ok := StopForward(name, port.value, ps, Except(table, name, before, ps));
    }

    /** Every pair once, sorted by sandbox and port. */
    method ListForwards(ps: Processes, ghost table: Table) returns (forwards: seq<ForwardInfo>)
      requires Represents(files, table)
      ensures forall info :: multiset(forwards)[info] == if Describes(info, ps, table) then 1 else 0
      ensures Sorted(forwards)
    {
      var pairs := ScanPairs(table);
      var found := DescribeAll(pairs, ps);
      DescribedRefines(files, table, pairs, ps);
      ListedOnce(found, pairs, ps, table);
      forwards := SortForwards(found);
    }

    /** What the lister reads in each entry. */
    method ScanPairs(ghost table: Table) returns (pairs: seq<Option<Key>>)
      requires Represents(files, table)
      ensures forall i | 0 <= i < |pairs| :: pairs[i].Some? && pairs[i].value in table
      ensures Distinct(pairs)
      ensures forall key | key in table :: Some(key) in pairs
    {
      var listing := ReadDir();
      DecodedRefines(files, table, listing);
      pairs := Decoded(listing);
    }

    /** One entry per pair whose file can be read. */
    method DescribeAll(pairs: seq<Option<Key>>, ps: Processes) returns (found: seq<ForwardInfo>)
      ensures found == Described(pairs, Describing(files, ps))
    {
      found := [];
      for i := 0 to |pairs|
        invariant found == Described(pairs[..i], Describing(files, ps))
      {
        assert pairs[..i + 1][..i] == pairs[..i];
        if pairs[i].Some? {
          var info := Describing(files, ps)(pairs[i].value);
          if info.Some? {
            found := found + [info.value];
          }
        }
      }
      assert pairs[..|pairs|] == pairs;
    }
  }

  /** What the lister makes of the file of a pair, if it can read it. */
  function DescribeFile(files: Files, key: Key, ps: Processes): Option<ForwardInfo> {
    if FileOf(key) !in files then None else
      var record := ReadRecord(files[FileOf(key)]);
      if record.None? then None else
        var bindAddr := if record.value.bindAddr.Some? then record.value.bindAddr.value else DEFAULT_BIND_ADDR;
        Some(ForwardInfo(key.0, key.1, record.value.pid, ps.alive(record.value.pid), bindAddr))
  }

  function Describing(files: Files, ps: Processes): Key -> Option<ForwardInfo> {
    key => DescribeFile(files, key, ps)
  }

  /** The descriptions there are of the pairs there are, in order. */
  function Described(pairs: seq<Option<Key>>, describe: Key -> Option<ForwardInfo>): seq<ForwardInfo> {
    if pairs == [] then [] else
      var before, last := Described(pairs[..|pairs| - 1], describe), pairs[|pairs| - 1];
      if last.Some? && describe(last.value).Some? then before + [describe(last.value).value] else before
  }

  lemma {:induction false} DescribedEach(pairs: seq<Option<Key>>, describe: Key -> Option<ForwardInfo>)
    requires forall i | 0 <= i < |pairs| :: pairs[i].Some? && describe(pairs[i].value).Some?
    ensures |Described(pairs, describe)| == |pairs|
    ensures forall i | 0 <= i < |pairs| :: Some(Described(pairs, describe)[i]) == describe(pairs[i].value)
  {
    if pairs != [] {
      DescribedEach(pairs[..|pairs| - 1], describe);
    }
  }

  lemma DescribeRefines(files: Files, table: Table, key: Key, ps: Processes)
    requires Represents(files, table) && key in table
    ensures DescribeFile(files, key, ps) == Some(InfoOf(key, ps, table))
  {
    assert GoodKey(key);
    ReadRefines(files, table, key);
  }

  lemma DescribedRefines(files: Files, table: Table, pairs: seq<Option<Key>>, ps: Processes)
    requires Represents(files, table)
    requires forall i | 0 <= i < |pairs| :: pairs[i].Some? && pairs[i].value in table
    ensures var found := Described(pairs, Describing(files, ps));
            |found| == |pairs| && forall i | 0 <= i < |pairs| :: found[i] == InfoOf(pairs[i].value, ps, table)
  {
    forall i | 0 <= i < |pairs|
      ensures Describing(files, ps)(pairs[i].value) == Some(InfoOf(pairs[i].value, ps, table))
    {
      DescribeRefines(files, table, pairs[i].value, ps);
    }
    DescribedEach(pairs, Describing(files, ps));
  }

  /** No port occurs twice. */
  ghost predicate Once(ports: seq<Option<nat>>) {
    forall i, j | 0 <= i < j < |ports| && ports[i].Some? :: ports[i] != ports[j]
  }

  method FirstOwner(owners: seq<Option<string>>) returns (owner: Option<string>)
    ensures owner.Some? ==> owner in owners
    ensures owner.None? ==> forall name :: Some(name) !in owners
  {
    for i := 0 to |owners|
      invariant forall j | 0 <= j < i :: owners[j] == None
    {
      if owners[i].Some? {
        return owners[i];
      }
    }
    owner := None;
  }

  ghost predicate IsStopped(name: string, port: Option<nat>, ps: Processes, table: Table) {
    port.Some? && (name, port.value) in table && Stops(table[(name, port.value)], port.value, ps)
  }

  /** The ports whose stop counts, in order. */
  ghost function StoppedPorts(name: string, ports: seq<Option<nat>>, ps: Processes, table: Table): seq<nat> {
    if ports == [] then [] else
      var last := ports[|ports| - 1];
      StoppedPorts(name, ports[..|ports| - 1], ps, table) + (if IsStopped(name, last, ps, table) then [last.value] else [])
  }

  lemma StoppedStep(name: string, ports: seq<Option<nat>>, port: Option<nat>, ps: Processes, table: Table)
    ensures StoppedPorts(name, ports + [port], ps, table)
         == StoppedPorts(name, ports, ps, table) + (if IsStopped(name, port, ps, table) then [port.value] else [])
  {
    assert (ports + [port])[..|ports|] == ports;
  }

  lemma {:induction false} StoppedExactly(name: string, ports: seq<Option<nat>>, ps: Processes, table: Table)
    requires Once(ports)
    ensures forall port :: port in StoppedPorts(name, ports, ps, table) <==>
              Some(port) in ports && IsStopped(name, Some(port), ps, table)
    ensures Distinct(StoppedPorts(name, ports, ps, table))
  {
    if ports != [] {
      var init, last := ports[..|ports| - 1], ports[|ports| - 1];
      StoppedExactly(name, init, ps, table);
      assert ports == init + [last];
      assert last.Some? ==> last !in init;
      assert last.Some? ==> last.value !in StoppedPorts(name, init, ps, table);
      if last.Some? {
        DistinctAppend(StoppedPorts(name, init, ps, table), [last.value]);
      }
    }
  }

  lemma StillThere(table: Table, name: string, ports: seq<Option<nat>>, port: nat, ps: Processes)
    requires Some(port) !in ports
    ensures (name, port) in Except(table, name, ports, ps) <==> (name, port) in table
    ensures (name, port) in table ==> Except(table, name, ports, ps)[(name, port)] == table[(name, port)]
  {
  }

  lemma ExceptNone(table: Table, name: string, ps: Processes)
    ensures Except(table, name, [], ps) == table
  {
  }

  /** The table without this pair, if its file can be removed. */
  ghost function Removed(table: Table, key: Key, ps: Processes): Table {
    if ps.removes(key) then table - {key} else table
  }

  /** The table without the removable pairs of one name and these ports. */
  ghost function Except(table: Table, name: string, ports: seq<Option<nat>>, ps: Processes): Table {
    map key | key in table && !(key.0 == name && Some(key.1) in ports && ps.removes(key)) :: table[key]
  }

  lemma ExceptStep(table: Table, name: string, ports: seq<Option<nat>>, port: Option<nat>, ps: Processes)
    ensures Except(table, name, ports + [port], ps)
         == if port.Some? then Removed(Except(table, name, ports, ps), (name, port.value), ps) else Except(table, name, ports, ps)
  {
    assert forall p: nat :: Some(p) in ports + [port] <==> Some(p) in ports || Some(p) == port;
  }

  lemma AllExcept(table: Table, name: string, ports: seq<Option<nat>>, ps: Processes)
    requires forall port :: Some(port) in ports <==> (name, port) in table
    ensures Except(table, name, ports, ps) == Others(table, name, ps)
  {
    forall key | key in table && key.0 == name ensures Some(key.1) in ports {
      assert key == (name, key.1);
    }
  }

  /** The table without the removable pairs of one name. */
  ghost function Others(table: Table, name: string, ps: Processes): Table {
    map key | key in table && !(key.0 == name && ps.removes(key)) :: table[key]
  }

  /** The entry of the listing for a pair of the table. */
  ghost predicate Describes(info: ForwardInfo, ps: Processes, table: Table) {
    var key := (info.sandbox, info.port);
    && key in table
    && info.pid == table[key].pid && info.bindAddr == table[key].bindAddr
    && info.alive == ps.alive(info.pid)
  }

  ghost function InfoOf(key: Key, ps: Processes, table: Table): ForwardInfo
    requires key in table
  {
    ForwardInfo(key.0, key.1, table[key].pid, ps.alive(table[key].pid), table[key].bindAddr)
  }

  lemma ListedOnce(found: seq<ForwardInfo>, keys: seq<Option<Key>>, ps: Processes, table: Table)
    requires |found| == |keys|
    requires forall i | 0 <= i < |keys| ::
               keys[i].Some? && keys[i].value in table && found[i] == InfoOf(keys[i].value, ps, table)
    requires Distinct(keys)
    requires forall key | key in table :: Some(key) in keys
    ensures forall info :: multiset(found)[info] == if Describes(info, ps, table) then 1 else 0
  {
    forall i, j | 0 <= i < j < |found| ensures found[i] != found[j] {
      assert keys[i] != keys[j];
    }
    forall info ensures multiset(found)[info] == if Describes(info, ps, table) then 1 else 0 {
      if Describes(info, ps, table) {
        var i :| 0 <= i < |keys| && keys[i] == Some((info.sandbox, info.port));
        assert found[i] == info;
      }
      if info in found {
        var i :| 0 <= i < |found| && found[i] == info;
        assert Describes(info, ps, table);
      }
      OccursOnce(found, info);
    }
  }

  lemma {:induction false} OccursOnce(found: seq<ForwardInfo>, info: ForwardInfo)
    requires Distinct(found)
    ensures multiset(found)[info] == if info in found then 1 else 0
  {
    if found != [] {
      var init := found[..|found| - 1];
      OccursOnce(init, info);
      assert found == init + [found[|found| - 1]];
    }
  }

  // ---------------------------------------------------------------------------
  // The order of the listing
  // ---------------------------------------------------------------------------

  predicate LexLeq(a: string, b: string) {
    a == [] || (b != [] && (a[0] < b[0] || (a[0] == b[0] && LexLeq(a[1..], b[1..]))))
  }

  predicate InfoLeq(x: ForwardInfo, y: ForwardInfo) {
    if x.sandbox == y.sandbox then x.port <= y.port else LexLeq(x.sandbox, y.sandbox)
  }

  ghost predicate Sorted(infos: seq<ForwardInfo>) {
    forall i, j | 0 <= i < j < |infos| :: InfoLeq(infos[i], infos[j])
  }

  /** One text comes before another if it begins it, or is smaller where they first differ. */
  lemma {:induction false} LexMeans(a: string, b: string)
    ensures LexLeq(a, b) <==> a <= b || exists k | 0 <= k < |a| && k < |b| :: a[..k] == b[..k] && a[k] < b[k]
  {
    if a != [] && b != [] {
      var x, y := a[1..], b[1..];
      LexMeans(x, y);
      assert a == [a[0]] + x && b == [b[0]] + y;
      if a[0] < b[0] {
        assert a[..0] == b[..0];
      } else if a[0] == b[0] {
        assert x <= y <==> a <= b;
        if k :| 0 <= k < |x| && k < |y| && x[..k] == y[..k] && x[k] < y[k] {
          assert a[..k + 1] == [a[0]] + x[..k] && b[..k + 1] == [b[0]] + y[..k];
          assert a[k + 1] < b[k + 1];
        }
        if k :| 0 <= k < |a| && k < |b| && a[..k] == b[..k] && a[k] < b[k] {
          assert a[..k][1..] == x[..k - 1] && b[..k][1..] == y[..k - 1];
          assert x[k - 1] < y[k - 1];
        }
      } else {
        assert forall k | 0 < k < |a| && k < |b| :: a[..k][0] == a[0] && b[..k][0] == b[0];
      }
    }
  }

  lemma {:induction false} LexTotal(a: string, b: string)
    ensures LexLeq(a, b) || LexLeq(b, a)
    ensures LexLeq(a, b) && LexLeq(b, a) ==> a == b
  {
    if a != [] && b != [] {
      LexTotal(a[1..], b[1..]);
      assert a == [a[0]] + a[1..] && b == [b[0]] + b[1..];
    }
  }

  lemma {:induction false} LexTransitive(a: string, b: string, c: string)
    requires LexLeq(a, b) && LexLeq(b, c)
    ensures LexLeq(a, c)
  {
    if a != [] && a[0] == b[0] && b[0] == c[0] {
      LexTransitive(a[1..], b[1..], c[1..]);
    }
  }

  lemma InfoTotal(x: ForwardInfo, y: ForwardInfo)
    ensures InfoLeq(x, y) || InfoLeq(y, x)
  {
    LexTotal(x.sandbox, y.sandbox);
  }

  lemma InfoTransitive(x: ForwardInfo, y: ForwardInfo, z: ForwardInfo)
    requires InfoLeq(x, y) && InfoLeq(y, z)
    ensures InfoLeq(x, z)
  {
    if x.sandbox == z.sandbox && x.sandbox != y.sandbox {
      LexTotal(x.sandbox, y.sandbox);
    } else if x.sandbox != y.sandbox && y.sandbox != z.sandbox {
      LexTransitive(x.sandbox, y.sandbox, z.sandbox);
    }
  }

  function Insert(x: ForwardInfo, infos: seq<ForwardInfo>): (r: seq<ForwardInfo>)
    ensures multiset(r) == multiset(infos) + multiset{x}
  {
    if infos == [] || InfoLeq(x, infos[0]) then [x] + infos
    else
      assert infos == [infos[0]] + infos[1..];
      [infos[0]] + Insert(x, infos[1..])
  }

  lemma {:induction false} InsertSorted(x: ForwardInfo, infos: seq<ForwardInfo>)
    requires Sorted(infos)
    ensures Sorted(Insert(x, infos))
  {
    if infos != [] {
      var first := infos[0];
      if InfoLeq(x, first) {
        forall j | 0 <= j < |infos| ensures InfoLeq(x, infos[j]) {
          if j > 0 {
            InfoTransitive(x, first, infos[j]);
          }
        }
      } else {
        var rest := Insert(x, infos[1..]);
        InsertSorted(x, infos[1..]);
        InfoTotal(x, first);
        forall j | 0 <= j < |rest| ensures InfoLeq(first, rest[j]) {
          assert rest[j] in multiset(rest);
          if rest[j] != x {
            assert rest[j] in multiset(infos[1..]);
            var i :| 0 <= i < |infos[1..]| && infos[1..][i] == rest[j];
            assert infos[i + 1] == rest[j];
          }
        }
      }
    }
  }

  method SortForwards(infos: seq<ForwardInfo>) returns (sorted: seq<ForwardInfo>)
    ensures multiset(sorted) == multiset(infos) && Sorted(sorted)
  {
    sorted := [];
    for k := 0 to |infos|
      invariant multiset(sorted) == multiset(infos[..k]) && Sorted(sorted)
    {
      InsertSorted(infos[k], sorted);
      sorted := Insert(infos[k], sorted);
      assert infos[..k + 1] == infos[..k] + [infos[k]];
    }
    assert infos[..|infos|] == infos;
  }

  // ---------------------------------------------------------------------------
  // Whole runs
  // ---------------------------------------------------------------------------

  /** A write, a stop of one forward, or a stop of all forwards of a sandbox. */
  datatype Action = Write(key: Key, record: Record) | Stop(stopped: Key, ps: Processes) | StopAll(name: string, ps: Processes)

  predicate GoodAction(a: Action) {
    match a
    case Write(key, r) => GoodKey(key) && Writable(r)
    case Stop(key, _) => GoodKey(key)
    case StopAll(name, _) => name != "" && '/' !in name
  }

  ghost function TableAfter(table: Table, actions: seq<Action>): Table {
    if actions == [] then table else
      var before := TableAfter(table, actions[..|actions| - 1]);
      match actions[|actions| - 1]
      case Write(key, r) => before[key := r]
      case Stop(key, ps) => Removed(before, key, ps)
      case StopAll(name, ps) => Others(before, name, ps)
  }

  /** After any writes and stops, each as the system stands then, the directory holds exactly the table they leave. */
  method RunActions(dir: PidDirectory, actions: seq<Action>)
    requires dir.files == map[] && forall a | a in actions :: GoodAction(a)
    modifies dir
    ensures Represents(dir.files, TableAfter(map[], actions))
  {
    for k := 0 to |actions|
      invariant Represents(dir.files, TableAfter(map[], actions[..k]))
    {
      assert actions[..k + 1][..k] == actions[..k];
      ghost var table := TableAfter(map[], actions[..k]);
      assert GoodAction(actions[k]);
      match actions[k] {
        case Write(key, r) =>
          dir.WriteForwardPid(key.0, key.1, r, table);
        case Stop(key, ps) =>
          var _ := dir.StopForward(key.0, key.1, ps, table);
        case StopAll(name, ps) =>
          var _ := dir.StopForwardsForSandbox(name, ps, table);
      }
    }
    assert actions[..|actions|] == actions;
  }
}
