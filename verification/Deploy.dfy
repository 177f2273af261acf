/**
 The deploy lifecycle over an abstract Docker daemon: resume what exists or start afresh, and clean up
 after a failure.  Every request to the daemon may fail, and a failing one may have taken effect.
 */
module Deploy {
  import opened Text

  /** How the daemon answers.  `conflict` is its 409, `busy` a port still held from before. */
  datatype Response = Good | Bad(conflict: bool, busy: bool, applied: bool)

  /** When a request that several operations share is made. */
  datatype When = Recreating | Networking(attempt: nat) | Attaching | CleaningUp

  datatype Request =
    | InspectVolume | InspectContainer | PullImage
    | InspectNetwork(when: When) | RemoveNetwork(when: When) | CreateNetwork(attempt: nat)
    | InspectVolumeAgain | CreateVolume | ListContainers
    | InspectContainerAgain | InspectImage | StopStale | RemoveStale | InspectAttachments | Connect | CreateContainer
    | Start(attempt: nat)
    | WorkloadExists | ReconcileSecrets | RestartWorkload | StoreBundle | HandshakeSecret | PushImages | AwaitReady
    | StoreMetadata
    | Disconnect(network: nat, when: When) | StopContainer(when: When)
    | RemoveContainer(when: When) | RemoveVolume(when: When)

  type Daemon = Request -> Response

  /** A request that fails has had no effect. */
  ghost predicate FailsCleanly(daemon: Daemon) {
    forall q :: daemon(q).Bad? ==> !daemon(q).applied
  }

  /** The requests that are made once the container has been started. */
  predicate ComesAfterStart(q: Request) {
    || q.WorkloadExists? || q.ReconcileSecrets? || q.RestartWorkload? || q.StoreBundle?
    || q.HandshakeSecret? || q.PushImages? || q.AwaitReady? || q.StoreMetadata?
  }

  /** All of those succeed. */
  ghost predicate Finishes(daemon: Daemon) {
    forall q | ComesAfterStart(q) :: daemon(q).Good?
  }

  /** Every request before those succeeds. */
  ghost predicate GoodUntilStarted(daemon: Daemon) {
    forall q | !ComesAfterStart(q) :: daemon(q).Good?
  }

  /** The first try to create the network that does not meet a conflict, and it succeeds. */
  ghost predicate MadeAt(daemon: Daemon, k: nat) {
    && daemon(CreateNetwork(k)).Good?
    && forall j | 0 <= j < k :: daemon(CreateNetwork(j)).Bad? && daemon(CreateNetwork(j)).conflict
  }

  /** The first start that does not find the port busy, and it ends well. */
  ghost predicate StartedAt(daemon: Daemon, k: nat) {
    Starts(daemon(Start(k))) && forall j | 0 <= j < k :: PortBusy(daemon(Start(j)))
  }

  /** A start that ends the retries well: it worked, or the container was running already. */
  predicate Starts(answer: Response) {
    answer.Good? || answer.conflict
  }

  /** The answer makes a further try worthwhile: the port is still held. */
  predicate PortBusy(answer: Response) {
    answer.Bad? && !answer.conflict && answer.busy
  }

  /** A container, with the identities of the networks it is attached to. */
  datatype Container = Container(image: nat, running: bool, networks: set<nat>)

  /** The container has lost at most attachments. */
  predicate Detached(was: Option<Container>, now: Option<Container>) {
    if was == None then now == None
    else && now.Some? && now.value.networks <= was.value.networks
         && now.value.image == was.value.image && now.value.running == was.value.running
  }

  /** The container has lost at most attachments, or has been stopped besides. */
  predicate WoundDown(was: Option<Container>, now: Option<Container>) {
    Detached(was, now) || (was.Some? && Detached(Some(was.value.(running := false)), now))
  }

  /** What ended a deploy before it began to guard its resources. */
  datatype Stage = Checking | Destroying | Pulling | SettingUpNetwork | SettingUpVolume | CheckingPorts

  datatype Result = Deployed | Stopped(stage: Stage) | RolledBack(cleanedUp: bool)

  const NETWORK_ATTEMPTS := 5
  const START_ATTEMPTS := 5

  /** The resources of one gateway.  Volumes and networks are known by identity. */
  class Docker {
    var container: Option<Container>
    var volume: Option<nat>
    var network: Option<nat>
    var nextId: nat

    constructor ()
      ensures container == None && volume == None && network == None && Valid()
    {
      container, volume, network, nextId := None, None, None, 0;
    }

    ghost predicate Valid()
      reads this
    {
      && (volume.Some? ==> volume.value < nextId)
      && (network.Some? ==> network.value < nextId)
      && (container.Some? ==> forall n | n in container.value.networks :: n < nextId)
    }

    predicate Empty()
      reads this
    {
      container == None && volume == None && network == None
    }

    /** Take the container off a network; the answer is not looked at. */
    method DisconnectFrom(daemon: Daemon, id: nat, when: When)
      modifies this`container
      ensures Detached(old(container), container)
      ensures container.Some? ==> container.value.networks + {id} == old(container.value.networks) + {id}
      ensures container.Some? && daemon(Disconnect(id, when)).Good? ==> id !in container.value.networks
    {
      var answer := daemon(Disconnect(id, when));
      if container.Some? && (answer.Good? || answer.applied) {
        container := Some(container.value.(networks := container.value.networks - {id}));
      }
    }

    method ForceRemoveNetwork(daemon: Daemon, when: When) returns (ok: bool)
      modifies this`network, this`container
      ensures ok <==> daemon(InspectNetwork(when)).Good? && (old(network) == None || daemon(RemoveNetwork(when)).Good?)
      ensures ok ==> network == None
      ensures network == old(network) || network == None
      ensures Detached(old(container), container)
      ensures old(network).Some? && container.Some? && daemon(InspectNetwork(when)).Good? ==>
                daemon(Disconnect(old(network).value, when)).Bad? || old(network).value !in container.value.networks
    {
      if daemon(InspectNetwork(when)).Bad? { return false; }
      if network == None { return true; }
      DisconnectFrom(daemon, network.value, when);
      var answer := daemon(RemoveNetwork(when));
      if answer.Good? || answer.applied { network := None; }
      return answer.Good?;
    }

    /** Always a new network: one that is there is removed first. */
    method EnsureNetwork(daemon: Daemon) returns (ok: bool)
      requires Valid()
      modifies this`network, this`nextId, this`container
      ensures Valid() && nextId >= old(nextId)
      ensures ok ==> network.Some? && network.value >= old(nextId)
      ensures ok ==> exists k | 0 <= k < 5 :: MadeAt(daemon, k)
      ensures (forall when :: daemon(InspectNetwork(when)).Good? && daemon(RemoveNetwork(when)).Good?) ==>
                (ok <==> exists k | 0 <= k < 5 :: MadeAt(daemon, k))
      ensures !ok && FailsCleanly(daemon) && old(network) == None ==> network == None
      ensures Detached(old(container), container)
    {
      ok := ForceRemoveNetwork(daemon, Networking(0));
      if !ok { return; }
      for attempt := 0 to NETWORK_ATTEMPTS
        invariant Valid() && nextId >= old(nextId)
        invariant Detached(old(container), container)
        invariant forall j | 0 <= j < attempt :: daemon(CreateNetwork(j)).Bad? && daemon(CreateNetwork(j)).conflict
        invariant FailsCleanly(daemon) && old(network) == None ==> network == None
      {
        if attempt > 0 {
          ok := ForceRemoveNetwork(daemon, Networking(attempt));
          if !ok { return; }
        }
        var answer := daemon(CreateNetwork(attempt));
        if answer.Good? || answer.applied {
          network, nextId := Some(nextId), nextId + 1;
        }
        if answer.Good? {
          assert MadeAt(daemon, attempt);
          return true;
        }
        if !answer.conflict { return false; }
      }
      return false;
    }

    /**
     Take the container off every network and attach it to the present one.  What it stays attached to
     besides is only what it could not be taken off.
     */
    method ReconcileNetwork(daemon: Daemon) returns (ok: bool)
      requires container.Some?
      modifies this`container
      ensures container.Some? && container.value.image == old(container.value.image)
      ensures container.value.running == old(container.value.running)
      ensures ok <==> daemon(InspectAttachments).Good? && daemon(Connect).Good? && network.Some?
      ensures ok ==> Attached(daemon)
      ensures network.Some? ==> container.value.networks <= old(container.value.networks) + {network.value}
      ensures network == None ==> container.value.networks <= old(container.value.networks)
    {
      if daemon(InspectAttachments).Bad? { return false; }
      var todo := container.value.networks;
      while todo != {}
        invariant Detached(old(container), container)
        invariant todo <= old(container.value.networks)
        invariant forall n | n in container.value.networks :: n in todo || daemon(Disconnect(n, Attaching)).Bad?
        decreases todo
      {
        var id :| id in todo;
        DisconnectFrom(daemon, id, Attaching);
        todo := todo - {id};
      }
      var answer := daemon(Connect);
      if network.Some? && (answer.Good? || answer.applied) {
        container := Some(container.value.(networks := container.value.networks + {network.value}));
      }
      return network.Some? && answer.Good?;
    }

    /** The container is on the network there is, and otherwise only on what it could not be taken off. */
    ghost predicate Attached(daemon: Daemon)
      reads this
    {
      && container.Some? && network.Some?
      && network.value in container.value.networks
      && forall n | n in container.value.networks :: n == network.value || daemon(Disconnect(n, Attaching)).Bad?
    }

    method EnsureVolume(daemon: Daemon) returns (ok: bool)
      requires Valid()
      modifies this`volume, this`nextId
      ensures Valid() && nextId >= old(nextId)
      ensures old(volume).Some? ==> volume == old(volume)
      ensures volume.Some? && old(volume) == None ==> volume.value >= old(nextId)
      ensures ok <==> daemon(InspectVolumeAgain).Good? && (old(volume).Some? || daemon(CreateVolume).Good?)
      ensures ok ==> volume.Some?
      ensures !ok && FailsCleanly(daemon) ==> volume == old(volume)
    {
      if daemon(InspectVolumeAgain).Bad? { return false; }
      if volume.Some? { return true; }
      var answer := daemon(CreateVolume);
      if answer.Good? || answer.applied {
        volume, nextId := Some(nextId), nextId + 1;
      }
      return answer.Good?;
    }

    /**
     Reuse the container when resuming or when its image is still the wanted one; else make it anew.
     Either way it ends up on the present network.
     */
    method EnsureContainer(daemon: Daemon, image: nat, resume: bool) returns (ok: bool)
      requires Valid()
      modifies this`container
      ensures Valid()
      ensures ok ==> container.Some? && (network.Some? ==> Attached(daemon))
      ensures ok <==>
                && daemon(InspectContainerAgain).Good?
                && if old(Reuses(daemon, image, resume))
                   then daemon(InspectAttachments).Good? && daemon(Connect).Good? && network.Some?
                   else (old(container).Some? ==> daemon(RemoveStale).Good?) && daemon(CreateContainer).Good?
      ensures ok && !old(Reuses(daemon, image, resume)) ==>
                container == Some(Container(image, false, if network.Some? then {network.value} else {}))
      ensures ok && old(Reuses(daemon, image, resume)) ==>
                container.value.image == old(container).value.image && container.value.running == old(container).value.running
      ensures ok && !resume ==> container.value.image == image
      ensures container.Some? && !old(Reuses(daemon, image, resume)) && daemon(InspectContainerAgain).Good? ==>
                daemon(StopStale).Bad? || !container.value.running
    {
      if daemon(InspectContainerAgain).Bad? { return false; }
      if container.Some? {
        var reuse := resume || (daemon(InspectImage).Good? && container.value.image == image);
        if reuse {
          ok := ReconcileNetwork(daemon);
          return;
        }
        Halt(daemon(StopStale));
        var answer := daemon(RemoveStale);
        if answer.Good? || answer.applied { container := None; }
        if answer.Bad? { return false; }
      }
      var answer := daemon(CreateContainer);
      if answer.Good? || answer.applied {
        container := Some(Container(image, false, if network.Some? then {network.value} else {}));
      }
      return answer.Good?;
    }

    /** There is a container, and it is to be resumed or has the wanted image already. */
    predicate Reuses(daemon: Daemon, image: nat, resume: bool)
      reads this
    {
      container.Some? && (resume || (daemon(InspectImage).Good? && container.value.image == image))
    }

    /** Stop the container; a failure is passed over. */
    method Halt(answer: Response)
      modifies this`container
      ensures WoundDown(old(container), container)
      ensures container.Some? && answer.Good? ==> !container.value.running
      ensures container.Some? ==> container.value.networks == old(container.value.networks)
    {
      if container.Some? && (answer.Good? || answer.applied) {
        container := Some(container.value.(running := false));
      }
    }

    method StartContainer(daemon: Daemon) returns (ok: bool)
      requires container.Some?
      modifies this`container
      ensures container == old(container) || container == Some(old(container.value).(running := true))
      ensures ok ==> container.value.running
      ensures ok <==> exists k | 0 <= k < 5 :: StartedAt(daemon, k)
    {
      for attempt := 0 to START_ATTEMPTS
        invariant container == old(container) || container == Some(old(container.value).(running := true))
        invariant attempt < START_ATTEMPTS
        invariant forall j | 0 <= j < attempt :: PortBusy(daemon(Start(j)))
      {
        var answer := daemon(Start(attempt));
        // A conflict means that it is running already.
        if answer.Good? || answer.conflict || answer.applied {
          container := Some(container.value.(running := true));
        }
        if answer.Good? || answer.conflict {
          assert StartedAt(daemon, attempt);
          return true;
        }
        if !(attempt + 1 < START_ATTEMPTS && answer.busy) {
          return false;
        }
      }
      assert false;
    }

    /** Take the container off the network, stop it and remove it; only the removal must succeed. */
    method RemoveGatewayContainer(daemon: Daemon, when: When) returns (ok: bool)
      modifies this`container
      ensures ok <==> daemon(RemoveContainer(when)).Good?
      ensures ok ==> container == None
      ensures container.Some? && daemon(StopContainer(when)).Good? ==> !container.value.running
      ensures container.Some? && network.Some? && daemon(Disconnect(network.value, when)).Good? ==>
                network.value !in container.value.networks
      ensures container == None || WoundDown(old(container), container)
    {
      if network.Some? { DisconnectFrom(daemon, network.value, when); }
      Halt(daemon(StopContainer(when)));
      var answer := daemon(RemoveContainer(when));
      if answer.Good? || answer.applied { container := None; }
      return answer.Good?;
    }

    /** Remove container, volume and network; stops at the first removal that fails. */
    method DestroyResources(daemon: Daemon, when: When) returns (ok: bool)
      requires Valid()
      modifies this`container, this`volume, this`network
      ensures Valid()
      ensures ok <==>
                && daemon(RemoveContainer(when)).Good? && daemon(RemoveVolume(when)).Good?
                && daemon(InspectNetwork(when)).Good? && (old(network) == None || daemon(RemoveNetwork(when)).Good?)
      ensures ok ==> Empty()
      ensures volume == old(volume) || volume == None
      ensures network == old(network) || network == None
      ensures container == None || WoundDown(old(container), container)
      ensures container.Some? ==> volume == old(volume) && network == old(network)
    {
      ok := RemoveGatewayContainer(daemon, when);
      if !ok { return; }
      var answer := daemon(RemoveVolume(when));
      if answer.Good? || answer.applied { volume := None; }
      if answer.Bad? { return false; }
      ok := ForceRemoveNetwork(daemon, when);
    }

    /** Remove container and network, and leave the volume. */
    method CleanupContainer(daemon: Daemon, when: When) returns (ok: bool)
      requires Valid()
      modifies this`container, this`network
      ensures Valid()
      ensures ok <==>
                && daemon(RemoveContainer(when)).Good?
                && daemon(InspectNetwork(when)).Good? && (old(network) == None || daemon(RemoveNetwork(when)).Good?)
      ensures ok ==> container == None && network == None
      ensures network == old(network) || network == None
      ensures container == None || WoundDown(old(container), container)
    {
      ok := RemoveGatewayContainer(daemon, when);
      if !ok { return; }
      ok := ForceRemoveNetwork(daemon, when);
    }

    /**
     The guarded part: from the container on, until the gateway is ready and recorded.  A restart that is
     not needed and a push that is not wanted count as answered well.
     */
    method BringUp(daemon: Daemon, image: nat, resume: bool) returns (ok: bool)
      requires Valid()
      modifies this`container
      ensures Valid()
      ensures ok ==> container.Some? && container.value.running && (network.Some? ==> Attached(daemon))
      ensures ok ==> container.value.image == if resume && old(container).Some? then old(container).value.image else image
      ensures ok ==>
                && daemon(WorkloadExists).Good? && daemon(ReconcileSecrets).Good? && daemon(RestartWorkload).Good?
                && daemon(StoreBundle).Good? && daemon(HandshakeSecret).Good? && daemon(PushImages).Good?
                && daemon(AwaitReady).Good? && daemon(StoreMetadata).Good?
      ensures ok ==> exists k | 0 <= k < 5 :: StartedAt(daemon, k)
      ensures GoodUntilStarted(daemon) && network.Some? ==>
                (ok <==> Finishes(daemon))
    {
      ok := EnsureContainer(daemon, image, resume);
      if !ok { return; }
      assert GoodUntilStarted(daemon) ==> StartedAt(daemon, 0);
      ok := StartContainer(daemon);
      if !ok { return; }
      if daemon(WorkloadExists).Bad? { return false; }
      if daemon(ReconcileSecrets).Bad? { return false; }
      if daemon(RestartWorkload).Bad? { return false; }
      if daemon(StoreBundle).Bad? { return false; }
      if daemon(HandshakeSecret).Bad? { return false; }
      if daemon(PushImages).Bad? { return false; }
      if daemon(AwaitReady).Bad? { return false; }
      if daemon(StoreMetadata).Bad? { return false; }
    }

    /**
     Bring the gateway up, or clean up: everything after a fresh start, all but the volume after a resume.
     The cleanup succeeds exactly if its own requests do.
     */
    method BringUpOrCleanUp(daemon: Daemon, image: nat, resume: bool) returns (r: Result)
      requires Valid() && volume.Some? && network.Some?
      modifies this`container, this`volume, this`network
      ensures Valid()
      ensures r.Deployed? || r.RolledBack?
      ensures r.Deployed? ==> volume == old(volume) && network == old(network) && container.Some? && container.value.running
      ensures r.Deployed? ==> Attached(daemon)
      ensures r.Deployed? ==> container.value.image == if resume && old(container).Some? then old(container).value.image else image
      ensures r.Deployed? ==>
                && daemon(WorkloadExists).Good? && daemon(ReconcileSecrets).Good? && daemon(RestartWorkload).Good?
                && daemon(StoreBundle).Good? && daemon(HandshakeSecret).Good? && daemon(PushImages).Good?
                && daemon(AwaitReady).Good? && daemon(StoreMetadata).Good?
      ensures GoodUntilStarted(daemon) ==>
                r == if Finishes(daemon) then Deployed else RolledBack(true)
      ensures resume ==> volume == old(volume)
      ensures volume == old(volume) || volume == None
      ensures r == RolledBack(true) ==> container == None && network == None && (volume == None <==> !resume)
      ensures r.RolledBack? ==>
                (r.cleanedUp <==>
                   && daemon(RemoveContainer(CleaningUp)).Good? && (resume || daemon(RemoveVolume(CleaningUp)).Good?)
                   && daemon(InspectNetwork(CleaningUp)).Good? && daemon(RemoveNetwork(CleaningUp)).Good?)
    {
      var ok := BringUp(daemon, image, resume);
      if ok { return Deployed; }
      if resume {
        ok := CleanupContainer(daemon, CleaningUp);
      } else {
        ok := DestroyResources(daemon, CleaningUp);
      }
      return RolledBack(ok);
    }

    /** Make the network anew and the volume if there is none, and look at the port; or say where that stopped. */
    method SetUp(daemon: Daemon, conflictingPorts: bool) returns (stopped: Option<Stage>)
      requires Valid()
      modifies this`container, this`volume, this`network, this`nextId
      ensures Valid() && nextId >= old(nextId) && Detached(old(container), container)
      ensures old(volume).Some? ==> volume == old(volume)
      ensures volume.Some? && old(volume) == None ==> volume.value >= old(nextId)
      ensures stopped.Some? ==>
                stopped.value.SettingUpNetwork? || stopped.value.SettingUpVolume? || stopped.value.CheckingPorts?
      ensures stopped == None || stopped == Some(CheckingPorts) ==> volume.Some? && network.Some?
      ensures stopped == Some(SettingUpNetwork) ==> volume == old(volume)
      ensures stopped == Some(SettingUpNetwork) && FailsCleanly(daemon) && old(network) == None ==> network == None
      ensures stopped == Some(SettingUpVolume) && FailsCleanly(daemon) ==> volume == old(volume)
      ensures stopped != Some(SettingUpNetwork) ==> network.Some? && network.value >= old(nextId)
      ensures conflictingPorts ==> stopped.Some?
      ensures stopped == None ==> daemon(ListContainers).Good? && daemon(InspectVolumeAgain).Good?
      ensures stopped == Some(CheckingPorts) ==> conflictingPorts || daemon(ListContainers).Bad?
      ensures GoodUntilStarted(daemon) ==> stopped == if conflictingPorts then Some(CheckingPorts) else None
    {
      assert GoodUntilStarted(daemon) ==> MadeAt(daemon, 0);
      var ok := EnsureNetwork(daemon);
      if !ok { return Some(SettingUpNetwork); }
      ok := EnsureVolume(daemon);
      if !ok { return Some(SettingUpVolume); }
      if daemon(ListContainers).Bad? || conflictingPorts { return Some(CheckingPorts); }
      return None;
    }

    /** A deploy with this state behind it starts afresh: on request, or for want of anything to resume. */
    predicate StartsAfresh(recreate: bool)
      reads this
    {
      recreate || (container == None && volume == None)
    }

    /** Decide whether to resume, clear the way for a fresh start if asked to, and fetch the image if one is needed. */
    method Prepare(daemon: Daemon, recreate: bool) returns (stopped: Option<Stage>, resume: bool)
      requires Valid()
      modifies this`container, this`volume, this`network
      ensures Valid()
      ensures stopped.Some? ==> stopped.value.Checking? || stopped.value.Destroying? || stopped.value.Pulling?
      ensures stopped == Some(Checking) <==> daemon(InspectVolume).Bad? || daemon(InspectContainer).Bad?
      ensures stopped == Some(Destroying) ==> recreate && !(old(container) == None && old(volume) == None)
      ensures stopped == Some(Pulling) ==> daemon(PullImage).Bad? && (recreate || old(container) == None)
      ensures stopped == None ==> daemon(PullImage).Good? || !(recreate || old(container) == None)
      ensures stopped == None ==> (resume <==> !old(StartsAfresh(recreate)))
      ensures stopped == None && !resume ==> container == None && volume == None
      ensures !recreate || stopped == Some(Checking) || old(Empty()) ==>
                container == old(container) && volume == old(volume) && network == old(network)
      ensures volume == old(volume) || volume == None
      ensures GoodUntilStarted(daemon) ==> stopped == None
    {
      // Is there anything to resume?
      if daemon(InspectVolume).Bad? || daemon(InspectContainer).Bad? { return Some(Checking), false; }
      resume := false;
      var resumeContainerExists := false;
      if container.Some? || volume.Some? {
        if recreate {
          var ok := DestroyResources(daemon, Recreating);
          if !ok { return Some(Destroying), false; }
        } else {
          resume, resumeContainerExists := true, container.Some?;
        }
      }
      var needImage := !resume || !resumeContainerExists;
      if needImage && daemon(PullImage).Bad? { return Some(Pulling), resume; }
      return None, resume;
    }

    /**
     One deploy.  Without `recreate` a volume that exists is kept, whatever fails.  A failure that is
     cleaned up leaves nothing of a fresh deploy, and nothing but the volume of a resumed one.  A deploy
     that succeeds runs its container on a network made by this deploy, a container that was there being
     moved over as it is; with `recreate` the container and the volume are new as well.

     What stops before the guarded part is not cleaned up.  On an empty daemon a stop at volume set-up
     leaves the network, and one at the port check the volume as well; the earlier stops leave nothing,
     if failing requests have no effect.  If every request up to the start succeeds, that happens exactly
     for a port conflict; and otherwise the deploy succeeds exactly if all eight requests after the start
     do, and is rolled back if one of them fails.
     */
    method Deploy(daemon: Daemon, image: nat, conflictingPorts: bool, recreate: bool) returns (r: Result)
      requires Valid()
      modifies this
      ensures Valid() && nextId >= old(nextId)
      ensures !recreate && old(volume).Some? ==> volume == old(volume)
      ensures volume.Some? ==> volume == old(volume) || volume.value >= old(nextId)
      ensures r.Deployed? ==> container.Some? && container.value.running && volume.Some? && Attached(daemon)
      ensures r.Deployed? ==> network.value >= old(nextId) && !conflictingPorts
      ensures r.Deployed? ==>
                container.value.image == if !recreate && old(container).Some? then old(container).value.image else image
      ensures r.Deployed? && recreate ==> volume.value >= old(nextId)
      ensures r == RolledBack(true) ==> container == None && network == None
      ensures r == RolledBack(true) ==> (volume == None <==> old(StartsAfresh(recreate)))
      ensures r.RolledBack? && !old(StartsAfresh(recreate)) ==> volume.Some?
      ensures r.Stopped? && (r.stage.Checking? || (r.stage.Pulling? && !recreate)) ==>
                container == old(container) && volume == old(volume) && network == old(network)
      ensures r.Stopped? && !recreate ==> Detached(old(container), container)
      ensures r == Stopped(SettingUpVolume) ==> network.Some?
      ensures r == Stopped(CheckingPorts) ==> volume.Some? && network.Some?
      ensures old(Empty()) && r.Stopped? ==> container == None
      ensures old(Empty()) && r.Stopped? && FailsCleanly(daemon) ==>
                (Empty() <==> !r.stage.SettingUpVolume? && !r.stage.CheckingPorts?)
      ensures r.Deployed? ==>
                && daemon(WorkloadExists).Good? && daemon(ReconcileSecrets).Good? && daemon(RestartWorkload).Good?
                && daemon(StoreBundle).Good? && daemon(HandshakeSecret).Good? && daemon(PushImages).Good?
                && daemon(AwaitReady).Good? && daemon(StoreMetadata).Good?
      ensures GoodUntilStarted(daemon) ==>
                r == if conflictingPorts then Stopped(CheckingPorts)
                     else if Finishes(daemon) then Deployed else RolledBack(true)
      ensures r == Stopped(Checking) <==> daemon(InspectVolume).Bad? || daemon(InspectContainer).Bad?
      ensures r == Stopped(Pulling) ==> daemon(PullImage).Bad? && (recreate || old(container) == None)
      ensures r.Deployed? || r.RolledBack? || r == Stopped(CheckingPorts) ==>
                daemon(PullImage).Good? || !(recreate || old(container) == None)
      ensures r.Deployed? || r.RolledBack? ==> daemon(ListContainers).Good? && !conflictingPorts
      ensures r == Stopped(Destroying) ==> recreate && !(old(container) == None && old(volume) == None)
      ensures r.RolledBack? ==>
                (r.cleanedUp <==>
                   && daemon(RemoveContainer(CleaningUp)).Good?
                   && (old(StartsAfresh(recreate)) ==> daemon(RemoveVolume(CleaningUp)).Good?)
                   && daemon(InspectNetwork(CleaningUp)).Good? && daemon(RemoveNetwork(CleaningUp)).Good?)
    {
      var stopped, resume := Prepare(daemon, recreate);
      if stopped.Some? { return Stopped(stopped.value); }
      stopped := SetUp(daemon, conflictingPorts);
      if stopped.Some? { return Stopped(stopped.value); }
      r := BringUpOrCleanUp(daemon, image, resume);
    }
  }

  /** With every request answered well, a taken port still leaves a volume and a network behind on an empty daemon. */
  method PortConflictLeavesResources(docker: Docker, daemon: Daemon, image: nat) returns (r: Result)
    requires docker.Valid() && docker.Empty() && forall q :: daemon(q).Good?
    modifies docker
    ensures r == Stopped(CheckingPorts)
    ensures docker.container == None && docker.volume.Some? && docker.network.Some?
  {
    r := docker.Deploy(daemon, image, true, false);
  }

  /** A fresh deploy whose gateway does not become ready is rolled back to nothing. */
  method UnreadyGatewayRolledBack(docker: Docker, daemon: Daemon, image: nat) returns (r: Result)
    requires docker.Valid() && docker.Empty() && daemon(AwaitReady).Bad?
    requires forall q | q != AwaitReady :: daemon(q).Good?
    modifies docker
    ensures r == RolledBack(true) && docker.Empty()
  {
    r := docker.Deploy(daemon, image, false, false);
  }

  /** What a deploy meets: the daemon's answers, the image it wants, and whether its port is taken. */
  datatype Attempt = Attempt(daemon: Daemon, image: nat, conflictingPorts: bool)

  /**
   Any run of deploys without `recreate`: from the moment a volume exists before a deploy, every later
   deploy leaves that same volume in place.
   */
  method RunDeploys(docker: Docker, attempts: seq<Attempt>) returns (volumes: seq<Option<nat>>, results: seq<Result>)
    requires docker.Valid()
    modifies docker
    ensures |volumes| == |attempts| + 1 && |results| == |attempts|
    ensures volumes[0] == old(docker.volume) && volumes[|attempts|] == docker.volume
    ensures forall i, j | 0 <= i <= j <= |attempts| :: volumes[i].Some? ==> volumes[j] == volumes[i]
    ensures forall i | 0 <= i < |attempts| && results[i].Deployed? :: volumes[i + 1].Some?
  {
    volumes, results := [docker.volume], [];
    for k := 0 to |attempts|
      invariant docker.Valid()
      invariant |volumes| == k + 1 && |results| == k
      invariant volumes[0] == old(docker.volume) && volumes[k] == docker.volume
      invariant forall i, j | 0 <= i <= j <= k :: volumes[i].Some? ==> volumes[j] == volumes[i]
      invariant forall i | 0 <= i < k && results[i].Deployed? :: volumes[i + 1].Some?
    {
      var a := attempts[k];
      var r := docker.Deploy(a.daemon, a.image, a.conflictingPorts, false);
      volumes, results := volumes + [docker.volume], results + [r];
    }
  }

}
