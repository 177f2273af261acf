/**
 The gateway's TLS secrets: reuse them if they can all be read, otherwise generate a new set and
 apply its three secrets one after the other.
 */
module Pki {
  import opened Text
  import opened CertStore

  const PEM_MARKER := "-----BEGIN "

  predicate IsPem(s: string) {
    Contains(s, PEM_MARKER)
  }

  /** A text counts as PEM exactly if the opening of a PEM document occurs in it. */
  lemma PemHasOpening(s: string)
    ensures IsPem(s) <==> exists before, after :: s == before + "-----BEGIN " + after
  {
    ContainsMeans(s, PEM_MARKER);
  }

  /** What `generate_pki` yields: five PEM documents besides the authority's key. */
  predicate IsGenerated(b: PkiBundle) {
    IsPem(b.caCert) && IsPem(b.serverCert) && IsPem(b.serverKey) && IsPem(b.clientCert) && IsPem(b.clientKey)
  }

  datatype ServerTls = ServerTls(cert: string, key: string)
  datatype ClientTls = ClientTls(cert: string, key: string, ca: string)

  /** The three secrets of the namespace. */
  datatype Secrets = Secrets(serverTls: Option<ServerTls>, clientCa: Option<string>, clientTls: Option<ClientTls>)

  const NO_SECRETS := Secrets(None, None, None)

  function ServerSecret(b: PkiBundle): Option<ServerTls> {
    Some(ServerTls(b.serverCert, b.serverKey))
  }

  function ClientSecret(b: PkiBundle): Option<ClientTls> {
    Some(ClientTls(b.clientCert, b.clientKey, b.caCert))
  }

  /** The secrets after the first `n` of the three ordered applies. */
  function Applied(s: Secrets, b: PkiBundle, n: nat): Secrets {
    Secrets(if n >= 1 then ServerSecret(b) else s.serverTls,
            if n >= 2 then Some(b.caCert) else s.clientCa,
            if n >= 3 then ClientSecret(b) else s.clientTls)
  }

  /** All three secrets are those of one bundle. */
  predicate Holds(s: Secrets, b: PkiBundle) {
    s == Secrets(ServerSecret(b), Some(b.caCert), ClientSecret(b))
  }

  /** What can be recovered of a bundle from its secrets: all but the authority's key. */
  function Stored(b: PkiBundle): PkiBundle {
    b.(caKey := "")
  }

  function Load(s: Secrets): Option<PkiBundle> {
    if s.serverTls.Some? && s.clientCa.Some? && s.clientTls.Some?
       && IsPem(s.serverTls.value.cert) && IsPem(s.serverTls.value.key) && IsPem(s.clientCa.value)
       && IsPem(s.clientTls.value.cert) && IsPem(s.clientTls.value.key) && IsPem(s.clientTls.value.ca)
    then Some(PkiBundle(s.clientCa.value, "", s.serverTls.value.cert, s.serverTls.value.key,
                        s.clientTls.value.cert, s.clientTls.value.key))
    else None
  }

  /** The secrets can be loaded exactly if all six documents are there and are PEM. */
  lemma LoadableExactly(s: Secrets)
    ensures Load(s).Some? <==>
              && s.serverTls.Some? && IsPem(s.serverTls.value.cert) && IsPem(s.serverTls.value.key)
              && s.clientCa.Some? && IsPem(s.clientCa.value)
              && s.clientTls.Some? && IsPem(s.clientTls.value.cert) && IsPem(s.clientTls.value.key) && IsPem(s.clientTls.value.ca)
  {
  }

  /**
   One deploy attempt, as far as the secrets go: the bundle it would generate, how many of its applies
   succeed before it stops, and whether its reads tell the truth (an untruthful one fails).
   */
  datatype Attempt = Attempt(bundle: PkiBundle, applies: nat, truthful: bool)

  function Reconciled(s: Secrets, a: Attempt): Secrets {
    if a.truthful && Load(s).Some? then s else Applied(s, a.bundle, a.applies)
  }

  function AfterAttempts(s: Secrets, attempts: seq<Attempt>): Secrets {
    if attempts == [] then s
    else Reconciled(AfterAttempts(s, attempts[..|attempts| - 1]), attempts[|attempts| - 1])
  }

  lemma HeldLoads(s: Secrets, b: PkiBundle)
    requires Holds(s, b) && IsGenerated(b)
    ensures Load(s) == Some(Stored(b))
  {
  }

  /** The last secret is absent, or all three are those of one attempt. */
  ghost predicate Unmixed(s: Secrets, attempts: seq<Attempt>) {
    s.clientTls == None || exists i | 0 <= i < |attempts| :: Holds(s, attempts[i].bundle)
  }

  lemma {:induction false} AttemptsKeepUnmixed(attempts: seq<Attempt>)
    requires forall a | a in attempts :: IsGenerated(a.bundle) && a.truthful
    ensures Unmixed(AfterAttempts(NO_SECRETS, attempts), attempts)
  {
    if attempts != [] {
      var init, last := attempts[..|attempts| - 1], attempts[|attempts| - 1];
      AttemptsKeepUnmixed(init);
      var s := AfterAttempts(NO_SECRETS, init);
      var s' := AfterAttempts(NO_SECRETS, attempts);
      if s.clientTls.Some? {
        var i :| 0 <= i < |init| && Holds(s, init[i].bundle);
        assert attempts[i] == init[i] && attempts[i] in attempts;
        HeldLoads(s, init[i].bundle);
        assert Holds(s', attempts[i].bundle);
      } else if last.applies >= 3 {
        assert Holds(s', attempts[|attempts| - 1].bundle);
      }
    }
  }

  /**
   Secrets are never mixed: from none, after any attempts that each stop after any of the applies,
   whatever can be loaded is the bundle of one attempt, in every field.
   */
  lemma NeverMixed(attempts: seq<Attempt>)
    requires forall a | a in attempts :: IsGenerated(a.bundle) && a.truthful
    ensures var s := AfterAttempts(NO_SECRETS, attempts);
            Load(s).Some? ==>
              exists i | 0 <= i < |attempts| ::
                var b := attempts[i].bundle;
                && s.serverTls == Some(ServerTls(b.serverCert, b.serverKey))
                && s.clientCa == Some(b.caCert)
                && s.clientTls == Some(ClientTls(b.clientCert, b.clientKey, b.caCert))
                && Load(s) == Some(PkiBundle(b.caCert, "", b.serverCert, b.serverKey, b.clientCert, b.clientKey))
  {
    AttemptsKeepUnmixed(attempts);
    var s := AfterAttempts(NO_SECRETS, attempts);
    if Load(s).Some? {
      var i :| 0 <= i < |attempts| && Holds(s, attempts[i].bundle);
      assert attempts[i] in attempts;
      HeldLoads(s, attempts[i].bundle);
    }
  }

  /** Once loadable, the secrets are left alone by every later attempt. */
  lemma {:induction false} LoadableIsFinal(s: Secrets, attempts: seq<Attempt>)
    requires Load(s).Some? && forall a | a in attempts :: a.truthful
    ensures AfterAttempts(s, attempts) == s
  {
    if attempts != [] {
      LoadableIsFinal(s, attempts[..|attempts| - 1]);
    }
  }

  /** Every field of one bundle differs from that field of the other. */
  predicate Unrelated(a: PkiBundle, b: PkiBundle) {
    && a.caCert != b.caCert && a.serverCert != b.serverCert && a.serverKey != b.serverKey
    && a.clientCert != b.clientCert && a.clientKey != b.clientKey
  }

  /**
   Why the reads must be truthful, exactly.  On a complete set, an attempt leaves the secrets of one
   bundle if and only if it could read them, or applied none or all of its own.
   */
  lemma MixedExactlyAfterFailedRead(b: PkiBundle, a: Attempt)
    requires IsGenerated(b) && IsGenerated(a.bundle) && Unrelated(b, a.bundle)
    ensures var s := Reconciled(Applied(NO_SECRETS, b, 3), a);
            && Load(s).Some?
            && (Load(s) == Some(Stored(b)) || Load(s) == Some(Stored(a.bundle))
                <==> a.truthful || a.applies == 0 || a.applies >= 3)
  {
    HeldLoads(Applied(NO_SECRETS, b, 3), b);
  }

  // ---------------------------------------------------------------------------
  // Runs with any reads
  // ---------------------------------------------------------------------------

  /** How many of the three secrets an attempt writes. */
  function Written(s: Secrets, a: Attempt): nat {
    if a.truthful && Load(s).Some? then 0 else if a.applies < 3 then a.applies else 3
  }

  /** How many the attempt at place `i` of a run writes. */
  function WrittenAt(attempts: seq<Attempt>, i: nat): nat
    requires i < |attempts|
  {
    Written(AfterAttempts(NO_SECRETS, attempts[..i]), attempts[i])
  }

  /** The place of the last attempt of a run that wrote anything. */
  function LastWriter(attempts: seq<Attempt>): (i: Option<nat>)
    ensures i.Some? ==> i.value < |attempts|
  {
    if attempts == [] then None
    else if WrittenAt(attempts, |attempts| - 1) > 0 then Some(|attempts| - 1)
    else LastWriter(attempts[..|attempts| - 1])
  }

  /** What a run leaves in terms of its last writer: the first secret is always its own, the third only if it wrote all. */
  ghost predicate LeftBy(s: Secrets, attempts: seq<Attempt>) {
    var last := LastWriter(attempts);
    if last == None then s == NO_SECRETS else
      var i := last.value;
      && s.serverTls == ServerSecret(attempts[i].bundle)
      && (WrittenAt(attempts, i) == 3 ==> Holds(s, attempts[i].bundle))
      && (WrittenAt(attempts, i) != 3 && s.clientTls.Some? ==> ClientFromEarlier(s, attempts, i))
  }

  ghost predicate ClientFromEarlier(s: Secrets, attempts: seq<Attempt>, i: nat)
    requires i <= |attempts|
  {
    exists j | 0 <= j < i :: s.clientTls == ClientSecret(attempts[j].bundle)
  }

  lemma {:induction false} RunsLeave(attempts: seq<Attempt>)
    ensures LeftBy(AfterAttempts(NO_SECRETS, attempts), attempts)
  {
    if attempts != [] {
      var n := |attempts| - 1;
      var init := attempts[..n];
      RunsLeave(init);
      var s, s' := AfterAttempts(NO_SECRETS, init), AfterAttempts(NO_SECRETS, attempts);
      assert s' == Reconciled(s, attempts[n]);
      assert forall j | 0 <= j < n :: attempts[j] == init[j] && attempts[..j] == init[..j];
      assert forall j | 0 <= j < n :: WrittenAt(attempts, j) == WrittenAt(init, j);
      if WrittenAt(attempts, n) == 0 {
        assert s' == s;
      } else {
        assert s'.serverTls == ServerSecret(attempts[n].bundle);
      }
    }
  }

  ghost predicate PairwiseUnrelated(attempts: seq<Attempt>) {
    forall i, j | 0 <= i < j < |attempts| :: Unrelated(attempts[i].bundle, attempts[j].bundle)
  }

  /**
   For runs with any reads, truthful or not: what loads is one attempt's bundle if and only if the last
   attempt that wrote anything wrote all three secrets.
   */
  lemma MixedExactlyAfterPartialWrite(attempts: seq<Attempt>)
    requires forall a | a in attempts :: IsGenerated(a.bundle)
    requires PairwiseUnrelated(attempts)
    ensures var loaded, last := Load(AfterAttempts(NO_SECRETS, attempts)), LastWriter(attempts);
            loaded.Some? ==>
              && last.Some?
              && ((exists i | 0 <= i < |attempts| :: loaded == Some(Stored(attempts[i].bundle)))
                  <==> WrittenAt(attempts, last.value) == 3)
  {
    var s, last := AfterAttempts(NO_SECRETS, attempts), LastWriter(attempts);
    RunsLeave(attempts);
    if Load(s).Some? {
      LoadedFields(s);
      if WrittenAt(attempts, last.value) == 3 {
        assert attempts[last.value] in attempts;
        HeldLoads(s, attempts[last.value].bundle);
      } else {
        EarlierClientMixes(s, attempts, last.value);
      }
    }
  }

  lemma LoadedFields(s: Secrets)
    requires Load(s).Some?
    ensures s.serverTls.Some? && s.clientTls.Some?
    ensures Load(s).value.serverCert == s.serverTls.value.cert && Load(s).value.clientCert == s.clientTls.value.cert
  {
  }

  lemma EarlierClientMixes(s: Secrets, attempts: seq<Attempt>, k: nat)
    requires PairwiseUnrelated(attempts) && k < |attempts| && Load(s).Some?
    requires s.serverTls == ServerSecret(attempts[k].bundle) && ClientFromEarlier(s, attempts, k)
    ensures forall i | 0 <= i < |attempts| :: Load(s) != Some(Stored(attempts[i].bundle))
  {
    LoadedFields(s);
    var loaded := Load(s).value;
    var j :| 0 <= j < k && s.clientTls == ClientSecret(attempts[j].bundle);
    forall i | 0 <= i < |attempts| ensures loaded != Stored(attempts[i].bundle) {
      assert Unrelated(attempts[j].bundle, attempts[k].bundle);
      if i < k {
        assert Unrelated(attempts[i].bundle, attempts[k].bundle);
      } else if k < i {
        assert Unrelated(attempts[k].bundle, attempts[i].bundle);
      }
    }
  }

  /** A mixed set, left by an attempt that could not read and stopped early, stays mixed for good. */
  lemma MixedForGood(a: PkiBundle, b: PkiBundle, later: seq<Attempt>)
    requires IsGenerated(a) && IsGenerated(b) && Unrelated(a, b) && forall x | x in later :: x.truthful
    ensures var mixed := Applied(Applied(NO_SECRETS, a, 3), b, 1);
            && AfterAttempts(NO_SECRETS, [Attempt.Attempt(a, 3, true), Attempt.Attempt(b, 1, false)]) == mixed
            && AfterAttempts(mixed, later) == mixed
            && Load(mixed).Some? && Load(mixed) != Some(Stored(a)) && Load(mixed) != Some(Stored(b))
  {
    var first, second := Attempt.Attempt(a, 3, true), Attempt.Attempt(b, 1, false);
    assert [first, second][..1] == [first] && [first][..0] == [];
    assert AfterAttempts(NO_SECRETS, [first]) == Applied(NO_SECRETS, a, 3);
    LoadableIsFinal(Applied(Applied(NO_SECRETS, a, 3), b, 1), later);
  }

  // ---------------------------------------------------------------------------
  // The deploy's own order: secrets first, then the CLI's copy
  // ---------------------------------------------------------------------------

  class Cluster {
    var secrets: Secrets

    constructor ()
      ensures secrets == NO_SECRETS
    {
      secrets := NO_SECRETS;
    }

    /** Apply the three secrets in order, as far as the applies succeed. */
    method CreateTlsSecrets(b: PkiBundle, applies: nat) returns (ok: bool)
      modifies this
      ensures secrets == Applied(old(secrets), b, applies)
      ensures ok <==> applies >= 3
      ensures ok ==>
                && secrets.serverTls == Some(ServerTls(b.serverCert, b.serverKey))
                && secrets.clientCa == Some(b.caCert)
                && secrets.clientTls == Some(ClientTls(b.clientCert, b.clientKey, b.caCert))
    {
      if applies < 1 { return false; }
      secrets := secrets.(serverTls := ServerSecret(b));
      if applies < 2 { return false; }
      secrets := secrets.(clientCa := Some(b.caCert));
      if applies < 3 { return false; }
      secrets := secrets.(clientTls := ClientSecret(b));
      return true;
    }

    /** The bundle to hand to the CLI and whether it is new; nothing if an apply failed. */
    method ReconcilePki(a: Attempt) returns (bundle: Option<PkiBundle>, rotated: bool)
      modifies this
      ensures secrets == Reconciled(old(secrets), a)
      ensures rotated <==> bundle.Some? && !(a.truthful && old(Load(secrets).Some?))
      ensures bundle.Some? && IsGenerated(a.bundle) ==> Load(secrets) == Some(Stored(bundle.value))
      ensures bundle == None <==> a.applies < 3 && !(a.truthful && old(Load(secrets).Some?))
    {
      if a.truthful && Load(secrets).Some? {
        return Load(secrets), false;
      }
      var ok := CreateTlsSecrets(a.bundle, a.applies);
      if !ok {
        return None, false;
      }
      return Some(a.bundle), true;
    }
  }

  /**
   Reconcile, restart the workload if it must pick up new secrets, then store the CLI's copy.  When
   all of it succeeds the CLI's directory holds exactly what the cluster's secrets say.
   `restarts` says that the restart succeeds, or that there was no workload to restart.
   */
  method DeployPki(cluster: Cluster, dirs: CertDirs, a: Attempt, restarts: bool, env: Env) returns (o: Outcome)
    requires dirs.Safe() && IsGenerated(a.bundle)
    modifies cluster, dirs
    ensures dirs.Safe()
    ensures cluster.secrets == Reconciled(old(cluster.secrets), a)
    ensures o.Done? ==>
              var s := cluster.secrets;
              && s.serverTls.Some? && s.clientCa.Some? && s.clientTls.Some?
              && dirs.target == Some(map["ca.crt" := s.clientCa.value,
                                         "tls.crt" := s.clientTls.value.cert, "tls.key" := s.clientTls.value.key])
    ensures !restarts && cluster.secrets != old(cluster.secrets) ==> dirs.target == old(dirs.target)
  {
    var bundle, rotated := cluster.ReconcilePki(a);
    if bundle == None { return Failed; }
    if rotated && !restarts { return Failed; }
    o := dirs.StorePkiBundle(bundle.value, env);
    assert BundleFiles(bundle.value) == BundleFiles(Stored(bundle.value));
  }
}
