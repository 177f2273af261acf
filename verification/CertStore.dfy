/**
 Replacing the CLI's certificate directory: write a temporary directory, move the current one aside,
 move the new one in, drop the old one.  Any operation may fail or be cut short by a crash.
 */
module CertStore {
  import opened Text

  datatype PkiBundle = PkiBundle(caCert: string, caKey: string, serverCert: string, serverKey: string,
                                 clientCert: string, clientKey: string)

  /** A directory's files by name. */
  type Files = map<string, string>

  const CA_CRT := "ca.crt"
  const TLS_CRT := "tls.crt"
  const TLS_KEY := "tls.key"

  function BundleFiles(b: PkiBundle): Files {
    map[CA_CRT := b.caCert, TLS_CRT := b.clientCert, TLS_KEY := b.clientKey]
  }

  /** The three files are there and none is empty. */
  predicate Complete(f: Files) {
    forall name | name in [CA_CRT, TLS_CRT, TLS_KEY] :: name in f && f[name] != ""
  }

  lemma CompleteBundle(b: PkiBundle)
    ensures Complete(BundleFiles(b)) <==> b.caCert != "" && b.clientCert != "" && b.clientKey != ""
  {
    var f := BundleFiles(b);
    assert |CA_CRT| == 6 && CA_CRT[0] == 'c' && TLS_CRT[0] == 't' && TLS_CRT[4] == 'c' && TLS_KEY[4] == 'k';
    assert f[CA_CRT] == b.caCert && f[TLS_CRT] == b.clientCert && f[TLS_KEY] == b.clientKey;
    assert CA_CRT in [CA_CRT, TLS_CRT, TLS_KEY] && TLS_CRT in [CA_CRT, TLS_CRT, TLS_KEY] && TLS_KEY in [CA_CRT, TLS_CRT, TLS_KEY];
  }

  /** The operations of one call; none happens twice. */
  datatype Op =
    | RemoveTemp | CreateTemp | WriteCa | WriteCert | WriteKey | RestrictKey | StatFiles
    | RemoveBackup | MoveAside | MoveIn | MoveBack | RestrictTarget | DropBackup

  /**
   How an operation goes.  A removal that does not finish leaves the files `kept`; a write that does
   not finish leaves `torn`; a create or move that does not succeed has no effect, except that a
   failing create may leave the empty directory behind.
   */
  datatype Fate =
    | Succeeds
    | Fails(kept: set<string>, torn: Option<string>, left: bool)
    | Crashes(kept: set<string>, torn: Option<string>, left: bool)

  type Env = Op -> Fate

  datatype Outcome = Done | Failed | Crashed

  function Stop(f: Fate): Outcome {
    if f.Crashes? then Crashed else if f.Fails? then Failed else Done
  }

  function Shrink(f: Files, kept: set<string>): (g: Files)
    ensures forall name | name in g :: name in f && g[name] == f[name]
  {
    map name | name in f && name in kept :: f[name]
  }

  /** A slot of the swap: no directory, or a directory with files. */
  type Slot = Option<Files>

  predicate Intact(s: Slot) {
    s.Some? && Complete(s.value)
  }

  /** The directories of one gateway. */
  class CertDirs {
    var temp: Slot
    var target: Slot
    var backup: Slot

    constructor ()
      ensures temp == None && target == None && backup == None && Safe()
    {
      temp, target, backup := None, None, None;
    }

    /**
     What every instant of every run keeps: the target, when present, is complete; and the backup is
     damaged only while a complete target exists.
     */
    ghost predicate Safe()
      reads this
    {
      && (target.Some? ==> Complete(target.value))
      && (backup.Some? && !Complete(backup.value) ==> target.Some?)
    }

    /** A complete bundle can be recovered from the target or the backup. */
    ghost predicate Recoverable()
      reads this
    {
      Intact(target) || Intact(backup)
    }

    method RemoveDir(slot: Slot, fate: Fate) returns (slot': Slot, o: Outcome)
      requires slot.Some?
      ensures o == Stop(fate)
      ensures fate.Succeeds? ==> slot' == None
      ensures !fate.Succeeds? ==> slot' == Some(Shrink(slot.value, fate.kept))
    {
      o := Stop(fate);
      slot' := if fate.Succeeds? then None else Some(Shrink(slot.value, fate.kept));
    }

    method WriteTemp(name: string, contents: string, fate: Fate) returns (o: Outcome)
      requires temp.Some?
      modifies this`temp
      ensures o == Stop(fate) && temp.Some?
      ensures fate.Succeeds? ==> temp.value == old(temp.value)[name := contents]
    {
      o := Stop(fate);
      if fate.Succeeds? {
        temp := Some(temp.value[name := contents]);
      } else if fate.torn.Some? {
        temp := Some(temp.value[name := fate.torn.value]);
      }
    }

    /** Fill the temporary directory; the target and the backup are not touched. */
    method PrepareTemp(b: PkiBundle, env: Env) returns (o: Outcome)
      modifies this`temp
      ensures o.Done? ==> temp == Some(BundleFiles(b)) && Complete(BundleFiles(b))
      ensures o.Done? ==> temp == Some(map["ca.crt" := b.caCert, "tls.crt" := b.clientCert, "tls.key" := b.clientKey])
      ensures o.Done? <==>
                && Complete(BundleFiles(b))
                && (old(temp).Some? ==> env(RemoveTemp).Succeeds?) && env(CreateTemp).Succeeds?
                && env(WriteCa).Succeeds? && env(WriteCert).Succeeds? && env(WriteKey).Succeeds?
                && env(RestrictKey).Succeeds? && env(StatFiles).Succeeds?
    {
      if temp.Some? {
        temp, o := RemoveDir(temp, env(RemoveTemp));
        if !o.Done? { return; }
      }
      o := Stop(env(CreateTemp));
      if o.Done? || env(CreateTemp).left { temp := Some(map[]); }
      if !o.Done? { return; }
      o := WriteTemp(CA_CRT, b.caCert, env(WriteCa));
      if !o.Done? { return; }
      o := WriteTemp(TLS_CRT, b.clientCert, env(WriteCert));
      if !o.Done? { return; }
      o := WriteTemp(TLS_KEY, b.clientKey, env(WriteKey));
      if !o.Done? { return; }
      o := Stop(env(RestrictKey));
      if !o.Done? { return; }
      assert temp.value == BundleFiles(b);
      o := ValidateBundleDir(temp.value, env(StatFiles));
    }

    method ValidateBundleDir(f: Files, fate: Fate) returns (o: Outcome)
      ensures o.Done? <==> fate.Succeeds? && Complete(f)
      ensures o.Done? ==>
                && "ca.crt" in f && f["ca.crt"] != "" && "tls.crt" in f && f["tls.crt"] != ""
                && "tls.key" in f && f["tls.key"] != ""
      ensures o.Crashed? <==> fate.Crashes?
    {
      o := Stop(fate);
      var names := [CA_CRT, TLS_CRT, TLS_KEY];
      var i := 0;
      while i < |names| && o.Done?
        invariant 0 <= i <= |names|
        invariant o.Crashed? <==> fate.Crashes?
        invariant o.Done? <==> fate.Succeeds? && forall j | 0 <= j < i :: names[j] in f && f[names[j]] != ""
      {
        if names[i] !in f || f[names[i]] == "" {
          o := Failed;
        }
        i := i + 1;
      }
    }

    /**
     One call.  Whatever happens, the invariant is kept and nothing recoverable is lost: the bundle
     that was the target is still the target or the backup, unless the new one has replaced it; and
     with no target, a complete backup stays.  A normal return leaves exactly the new bundle, with no
     temporary directory and no trace of the replaced target: the authority's certificate and the
     client's own certificate and key, none of them empty, and nothing of the server's.
     */
    method StorePkiBundle(b: PkiBundle, env: Env) returns (o: Outcome)
      requires Safe()
      modifies this
      ensures Safe()
      ensures old(Recoverable()) ==> Recoverable()
      ensures old(target.Some?) ==> target == old(target) || target == Some(BundleFiles(b)) || (target == None && backup == old(target))
      ensures old(target == None) ==> (target == None || target == Some(BundleFiles(b))) && backup == old(backup)
      ensures o.Done? ==> target == Some(BundleFiles(b)) && Complete(BundleFiles(b)) && temp == None
                          && backup == (if old(target.Some?) then None else old(backup))
      ensures o.Done? ==>
                && target == Some(map["ca.crt" := b.caCert, "tls.crt" := b.clientCert, "tls.key" := b.clientKey])
                && b.caCert != "" && b.clientCert != "" && b.clientKey != ""
      ensures o.Failed? && target == None && old(target.Some?) ==> !env(MoveIn).Succeeds? && !env(MoveBack).Succeeds?
      ensures o.Done? <==>
                && b.caCert != "" && b.clientCert != "" && b.clientKey != ""
                && (old(temp).Some? ==> env(RemoveTemp).Succeeds?) && env(CreateTemp).Succeeds?
                && env(WriteCa).Succeeds? && env(WriteCert).Succeeds? && env(WriteKey).Succeeds?
                && env(RestrictKey).Succeeds? && env(StatFiles).Succeeds?
                && (old(target).Some? && old(backup).Some? ==> env(RemoveBackup).Succeeds?)
                && (old(target).Some? ==> env(MoveAside).Succeeds? && env(DropBackup).Succeeds?)
                && env(MoveIn).Succeeds? && env(RestrictTarget).Succeeds?
      ensures b.caCert == "" || b.clientCert == "" || b.clientKey == "" ==> target == old(target) && backup == old(backup)
    {
      CompleteBundle(b);
      o := PrepareTemp(b, env);
      if !o.Done? { return; }

      var hadBackup := target.Some?;
      if hadBackup {
        if backup.Some? {
          backup, o := RemoveDir(backup, env(RemoveBackup));
          if !o.Done? { return; }
        }
        o := Stop(env(MoveAside));
        if !o.Done? { return; }
        backup, target := target, None;
      }

      o := Stop(env(MoveIn));
      if o.Crashed? { return; }
      if o.Failed? {
        if hadBackup {
          // The result of moving the old directory back is discarded.
          if env(MoveBack).Crashes? { return Crashed; }
          if env(MoveBack).Succeeds? { target, backup := backup, None; }
        }
        return;
      }
      target, temp := temp, None;

      o := Stop(env(RestrictTarget));
      if !o.Done? { return; }

      if hadBackup {
        backup, o := RemoveDir(backup, env(DropBackup));
      }
    }
  }

  /** One attempt of a run: the bundle to install and how its operations go. */
  datatype Attempt = Attempt(bundle: PkiBundle, env: Env)

  ghost predicate Offered(f: Files, attempts: seq<Attempt>) {
    exists i | 0 <= i < |attempts| :: f == BundleFiles(attempts[i].bundle)
  }

  /**
   Any run of calls on fresh directories, each failing or crashing anywhere.  The target is always
   absent or one of the bundles offered, and so is the backup whenever the target is absent; and from
   the first normal return on, a complete bundle can always be recovered.
   */
  method RunAttempts(dirs: CertDirs, attempts: seq<Attempt>) returns (outcomes: seq<Outcome>)
    requires dirs.temp == None && dirs.target == None && dirs.backup == None
    modifies dirs
    ensures |outcomes| == |attempts|
    ensures dirs.Safe()
    ensures dirs.target.Some? ==> Complete(dirs.target.value) && Offered(dirs.target.value, attempts)
    ensures dirs.target == None && dirs.backup.Some? ==> Offered(dirs.backup.value, attempts)
    ensures Done in outcomes ==> dirs.Recoverable()
    ensures outcomes != [] && outcomes[|outcomes| - 1].Done? ==>
              dirs.target == Some(BundleFiles(attempts[|attempts| - 1].bundle))
  {
    outcomes := [];
    for i := 0 to |attempts|
      invariant |outcomes| == i
      invariant dirs.Safe()
      invariant Done in outcomes ==> dirs.Recoverable()
      invariant dirs.target.Some? ==> Offered(dirs.target.value, attempts)
      invariant dirs.target == None && dirs.backup.Some? ==> Offered(dirs.backup.value, attempts)
      invariant i > 0 && outcomes[i - 1].Done? ==> dirs.target == Some(BundleFiles(attempts[i - 1].bundle))
    {
      var o := dirs.StorePkiBundle(attempts[i].bundle, attempts[i].env);
      outcomes := outcomes + [o];
    }
  }
}
