/**
 Frozen file selections and the peer's locks on them (src/clipboard/files.rs).

 The server announces a file table, the peer acknowledges it, and a lock must bind the table
 the peer had in view when it asked.  Messages travel in two FIFO channels, following sections
 2.2.3.1, 2.2.3.2, 2.2.4.1 and 2.2.4.2 of MS-RDPECLIP.  The wire carries no table identities:
 what an acknowledgement answers and what a lock means is ghost knowledge of the channels.
 */
module FileLocks {
  import opened Regions

  const MAX_LOCKED_SELECTIONS: nat := 100
  const U64_MAX: nat := 0xffff_ffff_ffff_ffff

  datatype FrozenFile = FrozenFile(path: string, device: nat, inode: nat)
  type Table = seq<FrozenFile>

  class FrozenSelection {
    var generation: nat
    var streamEnabled: bool
    var hugeFiles: bool
    var entries: Option<Table>
    var lockEnabled: bool
    /** None once the counter has overflowed. */
    var pendingAnnouncements: Option<nat>
    var announced: Option<Table>
    var confirmed: Option<Table>
    var locked: map<nat, Table>

    constructor ()
      ensures generation == 0 && !streamEnabled && !hugeFiles && entries == None && !lockEnabled
      ensures pendingAnnouncements == Some(0) && announced == None && confirmed == None && locked == map[]
    {
      generation, streamEnabled, hugeFiles, entries, lockEnabled := 0, false, false, None, false;
      pendingAnnouncements, announced, confirmed, locked := Some(0), None, None, map[];
    }

    method Announce(files: bool)
      modifies this`pendingAnnouncements, this`confirmed, this`announced
      ensures confirmed == None
      ensures announced == if files then entries else None
      ensures pendingAnnouncements == OneMore(old(pendingAnnouncements))
    {
      if pendingAnnouncements.Some? {
        pendingAnnouncements :=
          if pendingAnnouncements.value >= U64_MAX then None else Some(pendingAnnouncements.value + 1);
      }
      confirmed := None;
      announced := if files then entries else None;
    }

    method FormatListResponse(ok: bool)
      modifies this`pendingAnnouncements, this`confirmed
      ensures old(pendingAnnouncements).None? || old(pendingAnnouncements) == Some(0) ==>
                pendingAnnouncements == old(pendingAnnouncements) && confirmed == old(confirmed)
      ensures old(pendingAnnouncements).Some? && old(pendingAnnouncements).value > 0 ==>
                && pendingAnnouncements == Some(old(pendingAnnouncements).value - 1)
                && confirmed == if old(pendingAnnouncements) == Some(1) && ok then announced else old(confirmed)
    {
      if pendingAnnouncements.Some? {
        if pendingAnnouncements.value == 0 {
          return;
        }
        pendingAnnouncements := Some(pendingAnnouncements.value - 1);
        if pendingAnnouncements.value == 0 && ok {
          confirmed := announced;
        }
      }
    }

    method SetFileCapabilities(stream: bool, huge: bool)
      modifies this`generation, this`entries, this`locked, this`confirmed, this`announced, this`streamEnabled, this`hugeFiles
      ensures streamEnabled == stream && hugeFiles == huge
      ensures if old(streamEnabled) != stream || old(hugeFiles) != huge
              then entries == None && locked == map[] && confirmed == None && announced == None &&
                   generation == NextGeneration(old(generation))
              else entries == old(entries) && locked == old(locked) && confirmed == old(confirmed) &&
                   announced == old(announced) && generation == old(generation)
    {
      if streamEnabled != stream || hugeFiles != huge {
        generation := NextGeneration(generation);
        entries := None;
        locked := map[];
        confirmed := None;
        announced := None;
      }
      streamEnabled := stream;
      hugeFiles := huge;
    }

    method SetLockCapability(enabled: bool)
      modifies this`lockEnabled, this`locked, this`confirmed
      ensures lockEnabled == enabled
      ensures locked == if enabled then old(locked) else map[]
      ensures confirmed == if enabled then old(confirmed) else None
    {
      lockEnabled := enabled;
      if !enabled {
        locked := map[];
        confirmed := None;
      }
    }

    /** Binds the confirmed table, unless the id is held already or too many ids are. */
    method LockSelection(id: nat) returns (accepted: bool)
      modifies this`locked
      ensures accepted <==> streamEnabled && lockEnabled && id !in old(locked) &&
                            |old(locked)| < MAX_LOCKED_SELECTIONS && confirmed.Some?
      ensures locked == if accepted then old(locked)[id := confirmed.value] else old(locked)
    {
      accepted := false;
      if !streamEnabled || !lockEnabled || id in locked || |locked| >= MAX_LOCKED_SELECTIONS {
        return;
      }
      if confirmed.Some? {
        locked := locked[id := confirmed.value];
        accepted := true;
      }
    }

    method UnlockSelection(id: nat)
      modifies this`locked
      ensures locked == old(locked) - {id}
    {
      locked := locked - {id};
    }

    /** The file a read request names: through a held lock, or in the current selection. */
    method SelectedFile(dataId: Option<nat>, index: nat) returns (file: Option<FrozenFile>)
      ensures file == Resolve(if dataId.None? then entries
                              else if lockEnabled && dataId.value in locked then Some(locked[dataId.value])
                              else None,
                              index, streamEnabled)
    {
      if !streamEnabled {
        return None;
      }
      var table: Option<Table> := None;
      if dataId.Some? {
        if lockEnabled && dataId.value in locked {
          table := Some(locked[dataId.value]);
        }
      } else {
        table := entries;
      }
      if table.Some? && index < |table.value| {
        return Some(table.value[index]);
      }
      return None;
    }

    method ClearSelection()
      modifies this`generation, this`entries
      ensures generation == NextGeneration(old(generation)) && entries == None
    {
      generation := NextGeneration(generation);
      entries := None;
    }
  }

  /** `checked_add(1)`, and None from then on. */
  function OneMore(count: Option<nat>): Option<nat> {
    if count.None? || count.value >= U64_MAX then None else Some(count.value + 1)
  }

  /** An answer takes one announcement off, as long as there is one. */
  function OneLess(count: Option<nat>): Option<nat> {
    if count.None? || count.value == 0 then count else Some(count.value - 1)
  }

  function Resolve(table: Option<Table>, index: nat, enabled: bool): Option<FrozenFile> {
    if enabled && table.Some? && index < |table.value| then Some(table.value[index]) else None
  }

  /** `u64::wrapping_add(1)`. */
  function NextGeneration(g: nat): nat { (g + 1) % (U64_MAX + 1) }

  // ----- the channels

  /** A message from the peer, with what it means to the peer. */
  datatype PeerMessage =
    | Ack(ok: bool, answered: Option<Table>)
    | Lock(id: nat, inView: Option<Table>)
    | Unlock(id: nat)

  ghost function Acks(queue: seq<PeerMessage>): nat {
    if queue == [] then 0 else (if queue[0].Ack? then 1 else 0) + Acks(queue[1..])
  }

  /** The table in the peer's view after it sent the messages of `queue`. */
  ghost function ViewAfter(view: Option<Table>, queue: seq<PeerMessage>): Option<Table>
    decreases |queue|
  {
    if queue == [] then view
    else ViewAfter(if queue[0].Ack? && queue[0].ok then queue[0].answered else view, queue[1..])
  }

  /** Every lock in the queue means the table the peer had acknowledged last when it sent the lock. */
  ghost predicate LocksMeanView(view: Option<Table>, queue: seq<PeerMessage>)
    decreases |queue|
  {
    queue == [] ||
    ((queue[0].Lock? ==> queue[0].inView == view) &&
     LocksMeanView(if queue[0].Ack? && queue[0].ok then queue[0].answered else view, queue[1..]))
  }

  /** The table of the announcement sent last, if it has not been answered for good yet. */
  ghost function LastUnanswered(toServer: seq<PeerMessage>, toPeer: seq<Option<Table>>): Option<Table>
    requires Acks(toServer) + |toPeer| > 0
  {
    if toPeer != [] then toPeer[|toPeer| - 1] else LastAnswered(toServer)
  }

  ghost function LastAnswered(queue: seq<PeerMessage>): Option<Table>
    requires Acks(queue) > 0
  {
    if Acks(queue[1..]) > 0 then LastAnswered(queue[1..]) else queue[0].answered
  }

  lemma {:induction false} AppendMessage(view: Option<Table>, queue: seq<PeerMessage>, m: PeerMessage)
    ensures Acks(queue + [m]) == Acks(queue) + (if m.Ack? then 1 else 0)
    ensures ViewAfter(view, queue + [m]) ==
            if m.Ack? && m.ok then m.answered else ViewAfter(view, queue)
    ensures LocksMeanView(view, queue + [m]) <==>
            LocksMeanView(view, queue) && (m.Lock? ==> m.inView == ViewAfter(view, queue))
    ensures m.Ack? ==> LastAnswered(queue + [m]) == m.answered
    ensures !m.Ack? && Acks(queue) > 0 ==> LastAnswered(queue + [m]) == LastAnswered(queue)
    decreases |queue|
  {
    if queue == [] {
      assert [m][1..] == [];
    } else {
      var next := if queue[0].Ack? && queue[0].ok then queue[0].answered else view;
      assert (queue + [m])[1..] == queue[1..] + [m];
      AppendMessage(next, queue[1..], m);
    }
  }

  lemma PopMessage(view: Option<Table>, queue: seq<PeerMessage>)
    requires queue != []
    ensures Acks(queue) == (if queue[0].Ack? then 1 else 0) + Acks(queue[1..])
    ensures Acks(queue[1..]) > 0 ==> LastAnswered(queue) == LastAnswered(queue[1..])
    ensures queue[0].Ack? && Acks(queue[1..]) == 0 ==> LastAnswered(queue) == queue[0].answered
    ensures LocksMeanView(view, queue) ==>
              && (queue[0].Lock? ==> queue[0].inView == view)
              && LocksMeanView(if queue[0].Ack? && queue[0].ok then queue[0].answered else view, queue[1..])
    ensures ViewAfter(view, queue) ==
            ViewAfter(if queue[0].Ack? && queue[0].ok then queue[0].answered else view, queue[1..])
  {
  }

  /** One session: the server's selection, the peer and the channels between them. */
  class Link {
    const files: FrozenSelection
    var toPeer: seq<Option<Table>>
    var toServer: seq<PeerMessage>
    /** The peer's own record: the table it acknowledged last. */
    var view: Option<Table>
    /** The peer's view as far as the server has received its acknowledgements. */
    ghost var received: Option<Table>
    /** For each id held: the table in the peer's view when it sent the lock. */
    ghost var granted: map<nat, Table>

    ghost function InFlight(): nat
      reads this
    {
      Acks(toServer) + |toPeer|
    }

    ghost predicate CountsAnnouncements()
      reads this, files
    {
      && (files.pendingAnnouncements.None? ==> files.confirmed == None)
      && (files.pendingAnnouncements.Some? ==> files.pendingAnnouncements.value >= InFlight())
      && (files.pendingAnnouncements == Some(InFlight()) && InFlight() > 0 && files.announced.Some? ==>
            LastUnanswered(toServer, toPeer) == files.announced)
    }

    ghost predicate ConfirmsTheView()
      reads this, files
    {
      files.confirmed.Some? ==>
        files.pendingAnnouncements == Some(0) && files.announced == files.confirmed && received == files.confirmed
    }

    ghost predicate Valid()
      reads this, files
    {
      && CountsAnnouncements()
      && ConfirmsTheView()
      && LocksMeanView(received, toServer)
      && view == ViewAfter(received, toServer)
      && files.locked == granted
      && |granted| <= MAX_LOCKED_SELECTIONS
    }

    constructor ()
      ensures Valid() && fresh(files) && toPeer == [] && toServer == [] && granted == map[]
    {
      files := new FrozenSelection();
      toPeer, toServer, view, received, granted := [], [], None, None, map[];
    }

    /** The selection counts and sends one announcement while it is locked. */
    method Announce(isFile: bool, sent: bool)
      requires Valid()
      modifies this`toPeer, files`pendingAnnouncements, files`confirmed, files`announced
      ensures Valid()
      ensures toPeer == if sent then old(toPeer) + [if isFile then files.entries else None] else old(toPeer)
      ensures files.announced == (if isFile then files.entries else None) && files.confirmed == None
      ensures files.pendingAnnouncements == OneMore(old(files.pendingAnnouncements))
    {
      files.Announce(isFile);
      if sent {
        toPeer := toPeer + [if isFile then files.entries else None];
      }
    }

    method AnnounceFileFormats(sent: bool)
      requires Valid()
      modifies this`toPeer, files`pendingAnnouncements, files`confirmed, files`announced
      ensures Valid()
      ensures if files.streamEnabled && files.entries.Some?
              then && files.announced == files.entries && files.confirmed == None
                   && files.pendingAnnouncements == OneMore(old(files.pendingAnnouncements))
                   && toPeer == if sent then old(toPeer) + [files.entries] else old(toPeer)
              else && files.announced == old(files.announced) && files.confirmed == old(files.confirmed)
                   && files.pendingAnnouncements == old(files.pendingAnnouncements) && toPeer == old(toPeer)
    {
      if files.streamEnabled && files.entries.Some? {
        Announce(true, sent);
      }
    }

    /** A finished walk is published only if nothing newer invalidated it. */
    method PublishSelection(generation: nat, frozen: Table, sent: bool)
      requires Valid()
      modifies this`toPeer, files`entries, files`pendingAnnouncements, files`confirmed, files`announced
      ensures Valid()
      ensures if files.streamEnabled && files.generation == generation
              then files.entries == (if frozen == [] then None else Some(frozen))
              else files.entries == old(files.entries) && toPeer == old(toPeer)
      ensures if files.streamEnabled && files.generation == generation && frozen != []
              then && files.announced == Some(frozen) && files.confirmed == None
                   && files.pendingAnnouncements == OneMore(old(files.pendingAnnouncements))
                   && toPeer == if sent then old(toPeer) + [Some(frozen)] else old(toPeer)
              else && files.announced == old(files.announced) && files.confirmed == old(files.confirmed)
                   && files.pendingAnnouncements == old(files.pendingAnnouncements) && toPeer == old(toPeer)
    {
      if !files.streamEnabled || files.generation != generation {
        return;
      }
      files.entries := if frozen == [] then None else Some(frozen);
      if frozen != [] {
        Announce(true, sent);
      }
    }

    /** The peer takes the next announcement and answers it. */
    method PeerAnswers(ok: bool)
      requires Valid() && toPeer != []
      modifies this`toPeer, this`toServer, this`view
      ensures Valid()
      ensures toServer == old(toServer) + [Ack(ok, old(toPeer)[0])] && toPeer == old(toPeer)[1..]
      ensures view == if ok then old(toPeer)[0] else old(view)
    {
      AppendMessage(received, toServer, Ack(ok, toPeer[0]));
      toServer := toServer + [Ack(ok, toPeer[0])];
      if ok {
        view := toPeer[0];
      }
      toPeer := toPeer[1..];
    }

    /** The peer locks what it has in view. */
    method PeerLocks(id: nat)
      requires Valid()
      modifies this`toServer
      ensures Valid()
      ensures toServer == old(toServer) + [Lock(id, view)]
    {
      AppendMessage(received, toServer, Lock(id, view));
      toServer := toServer + [Lock(id, view)];
    }

    method PeerUnlocks(id: nat)
      requires Valid()
      modifies this`toServer
      ensures Valid() && toServer == old(toServer) + [Unlock(id)]
    {
      AppendMessage(received, toServer, Unlock(id));
      toServer := toServer + [Unlock(id)];
    }

    method ReceiveAck()
      requires Valid() && toServer != [] && toServer[0].Ack?
      modifies this`toServer, this`received, files`pendingAnnouncements, files`confirmed
      ensures Valid() && toServer == old(toServer)[1..]
      ensures files.confirmed == if old(files.pendingAnnouncements) == Some(1) && old(toServer)[0].ok then files.announced else old(files.confirmed)
      ensures files.pendingAnnouncements == OneLess(old(files.pendingAnnouncements))
    {
      PopMessage(received, toServer);
      files.FormatListResponse(toServer[0].ok);
      if toServer[0].ok {
        received := toServer[0].answered;
      }
      toServer := toServer[1..];
    }

    method ReceiveLock()
      requires Valid() && toServer != [] && toServer[0].Lock?
      modifies this`toServer, this`granted, files`locked
      ensures Valid() && toServer == old(toServer)[1..]
      ensures var id, inView := old(toServer)[0].id, old(toServer)[0].inView;
              if files.streamEnabled && files.lockEnabled && id !in old(files.locked) &&
                 |old(files.locked)| < MAX_LOCKED_SELECTIONS && files.confirmed.Some?
              then inView.Some? && files.locked == old(files.locked)[id := inView.value]
              else files.locked == old(files.locked)
    {
      PopMessage(received, toServer);
      var accepted := files.LockSelection(toServer[0].id);
      if accepted {
        granted := granted[toServer[0].id := toServer[0].inView.value];
      }
      toServer := toServer[1..];
    }

    method ReceiveUnlock()
      requires Valid() && toServer != [] && toServer[0].Unlock?
      modifies this`toServer, this`granted, files`locked
      ensures Valid() && toServer == old(toServer)[1..] && files.locked == old(files.locked) - {old(toServer)[0].id}
    {
      PopMessage(received, toServer);
      files.UnlockSelection(toServer[0].id);
      granted := granted - {toServer[0].id};
      toServer := toServer[1..];
    }

    /**
     The server takes the next message.  A lock it accepts binds exactly the table that the
     peer had in view when it sent the lock; nothing but an unlock releases an id.
     */
    method ServerReceives()
      requires Valid() && toServer != []
      modifies this`toServer, this`received, this`granted
      modifies files`pendingAnnouncements, files`confirmed, files`locked
      ensures Valid() && toServer == old(toServer)[1..]
      ensures match old(toServer)[0]
              case Ack(ok, _) =>
                && files.locked == old(files.locked)
                && files.pendingAnnouncements == OneLess(old(files.pendingAnnouncements))
                && files.confirmed == if ok && old(files.pendingAnnouncements) == Some(1) then files.announced else old(files.confirmed)
              case Lock(id, inView) =>
                if files.streamEnabled && files.lockEnabled && id !in old(files.locked) &&
                   |old(files.locked)| < MAX_LOCKED_SELECTIONS && old(files.confirmed).Some?
                then inView.Some? && files.locked == old(files.locked)[id := inView.value]
                else files.locked == old(files.locked)
              case Unlock(id) => files.locked == old(files.locked) - {id}
    {
      match toServer[0]
      case Ack(_, _) => ReceiveAck();
      case Lock(_, _) => ReceiveLock();
      case Unlock(_) => ReceiveUnlock();
    }

    method SetFileCapabilities(stream: bool, huge: bool)
      requires Valid()
      modifies this`granted, files
      ensures Valid()
      ensures files.streamEnabled == stream && files.hugeFiles == huge
      ensures if old(files.streamEnabled) == stream && old(files.hugeFiles) == huge
              then files.locked == old(files.locked) && files.entries == old(files.entries) && files.generation == old(files.generation)
              else files.locked == map[] && files.entries == None && files.confirmed == None && files.announced == None &&
                   files.generation == NextGeneration(old(files.generation))
    {
      files.SetFileCapabilities(stream, huge);
      granted := files.locked;
    }

    method SetLockCapability(enabled: bool)
      requires Valid()
      modifies this`granted, files`lockEnabled, files`locked, files`confirmed
      ensures Valid()
      ensures files.locked == if enabled then old(files.locked) else map[]
    {
      files.SetLockCapability(enabled);
      granted := files.locked;
    }

    method ClearSelection()
      requires Valid()
      modifies files`generation, files`entries
      ensures Valid() && files.entries == None && files.generation == NextGeneration(old(files.generation))
    {
      files.ClearSelection();
    }

    /** A read request: a held id names the file the peer saw when it locked. */
    method Request(dataId: Option<nat>, index: nat) returns (file: Option<FrozenFile>)
      requires Valid()
      ensures dataId.Some? && files.lockEnabled ==>
                file == Resolve(if dataId.value in granted then Some(granted[dataId.value]) else None, index, files.streamEnabled)
      ensures dataId.Some? && !files.lockEnabled ==> file == None
      ensures dataId.None? ==> file == Resolve(files.entries, index, files.streamEnabled)
    {
      file := files.SelectedFile(dataId, index);
    }
  }

  /** The protocol does grant locks: an announced table that is acknowledged can be locked. */
  method AnnouncedTableCanBeLocked(link: Link, id: nat, table: Table)
    requires link.Valid() && link.toPeer == [] && link.toServer == []
    requires link.files.pendingAnnouncements == Some(0)
    requires link.files.streamEnabled && link.files.lockEnabled && link.files.entries == Some(table)
    requires id !in link.files.locked && |link.files.locked| < MAX_LOCKED_SELECTIONS
    modifies link, link.files
    ensures link.Valid() && link.files.locked == old(link.files.locked)[id := table]
  {
    link.Announce(true, true);
    link.PeerAnswers(true);
    link.ServerReceives();
    link.PeerLocks(id);
    link.ServerReceives();
  }

  /** A finished walk that nothing newer invalidated is announced, and once acknowledged it can be locked. */
  method PublishedTableCanBeLocked(link: Link, id: nat, frozen: Table, generation: nat)
    requires link.Valid() && link.toPeer == [] && link.toServer == []
    requires link.files.pendingAnnouncements == Some(0) && link.files.generation == generation && frozen != []
    requires link.files.streamEnabled && link.files.lockEnabled
    requires id !in link.files.locked && |link.files.locked| < MAX_LOCKED_SELECTIONS
    modifies link, link.files
    ensures link.Valid() && link.files.locked == old(link.files.locked)[id := frozen] && link.files.entries == Some(frozen)
  {
    link.PublishSelection(generation, frozen, true);
    link.PeerAnswers(true);
    link.ServerReceives();
    link.PeerLocks(id);
    link.ServerReceives();
  }

  /** A walk that took so long that its selection was cleared, or the capabilities changed, changes nothing. */
  method StaleWalkIsDropped(link: Link, frozen: Table, sent: bool)
    requires link.Valid()
    modifies link, link.files
    ensures link.Valid() && link.files.entries == None && link.toPeer == old(link.toPeer)
  {
    var generation := link.files.generation;
    link.ClearSelection();
    link.PublishSelection(generation, frozen, sent);
  }

  datatype LinkEvent =
    | Announcement(isFile: bool, sent: bool)
    | FileAnnouncement(sent: bool)
    | Publication(generation: nat, frozen: Table, sent: bool)
    | PeerAnswer(ok: bool)
    | PeerLock(id: nat)
    | PeerUnlock(id: nat)
    | Reception
    | FileCapabilities(stream: bool, huge: bool)
    | LockCapability(enabled: bool)
    | Clearing

  /** What an event does to the queue of messages to the server. */
  ghost predicate Queued(e: LinkEvent, before: seq<PeerMessage>, after: seq<PeerMessage>) {
    match e
    case PeerAnswer(ok) => after == before || exists table :: after == before + [Ack(ok, table)]
    case PeerLock(id) => exists inView :: after == before + [Lock(id, inView)]
    case PeerUnlock(id) => after == before + [Unlock(id)]
    case Reception => after == if before == [] then [] else before[1..]
    case _ => after == before
  }

  /**
   What an event does to the tables that are bound.  Receiving a lock binds its id, if it is free, to the table
   that the peer had in view; receiving an unlock releases its id; withdrawn capabilities release all.
   */
  ghost predicate Bound(e: LinkEvent, queue: seq<PeerMessage>, before: map<nat, Table>, after: map<nat, Table>) {
    match e
    case Reception =>
      if queue == [] || queue[0].Ack? then after == before
      else if queue[0].Unlock? then after == before - {queue[0].id}
      else after == before ||
           (queue[0].id !in before && |before| < 100 && queue[0].inView.Some? && after == before[queue[0].id := queue[0].inView.value])
    case FileCapabilities(_, _) => after == before || after == map[]
    case LockCapability(enabled) => after == if enabled then before else map[]
    case _ => after == before
  }

  /** One event; events that need a message are ignored while there is none. */
  method Apply(link: Link, e: LinkEvent)
    requires link.Valid()
    modifies link, link.files
    ensures link.Valid()
    ensures Queued(e, old(link.toServer), link.toServer)
    ensures Bound(e, old(link.toServer), old(link.granted), link.granted)
  {
    match e
    case Announcement(isFile, sent) => link.Announce(isFile, sent);
    case FileAnnouncement(sent) => link.AnnounceFileFormats(sent);
    case Publication(generation, frozen, sent) => link.PublishSelection(generation, frozen, sent);
    case PeerAnswer(ok) => if link.toPeer != [] { link.PeerAnswers(ok); }
    case PeerLock(id) => link.PeerLocks(id);
    case PeerUnlock(id) => link.PeerUnlocks(id);
    case Reception => if link.toServer != [] { link.ServerReceives(); }
    case FileCapabilities(stream, huge) => link.SetFileCapabilities(stream, huge);
    case LockCapability(enabled) => link.SetLockCapability(enabled);
    case Clearing => link.ClearSelection();
  }

  /** The queue and the bound tables after each of the events, the first entries being those before all. */
  ghost predicate Traced(events: seq<LinkEvent>, queues: seq<seq<PeerMessage>>, held: seq<map<nat, Table>>) {
    && |queues| == |held| == |events| + 1 && queues[0] == [] && held[0] == map[]
    && forall k :: 0 <= k < |events| ==> Queued(events[k], queues[k], queues[k + 1]) && Bound(events[k], queues[k], held[k], held[k + 1])
  }

  lemma TracedOn(events: seq<LinkEvent>, queues: seq<seq<PeerMessage>>, held: seq<map<nat, Table>>, e: LinkEvent,
                 queue: seq<PeerMessage>, tables: map<nat, Table>)
    requires Traced(events, queues, held)
    requires Queued(e, queues[|events|], queue) && Bound(e, queues[|events|], held[|events|], tables)
    ensures Traced(events + [e], queues + [queue], held + [tables])
  {
    hide Queued, Bound;
  }

  /**
   In any run, an id is bound only by a lock that the server receives, to the table that the peer had in
   view when it sent it; it stays bound, to that table, until the peer unlocks it or capabilities are
   withdrawn; and at most 100 ids are held.
   */
  method Run(events: seq<LinkEvent>) returns (link: Link, ghost queues: seq<seq<PeerMessage>>, ghost held: seq<map<nat, Table>>)
    ensures link.Valid() && Traced(events, queues, held)
    ensures link.toServer == queues[|events|] && link.files.locked == held[|events|]
    ensures |link.files.locked| <= 100
  {
    hide Queued, Bound;
    link := new Link();
    queues, held := [[]], [map[]];
    var k := 0;
    while k < |events|
      invariant 0 <= k <= |events|
      invariant link.Valid() && fresh(link) && fresh(link.files)
      invariant Traced(events[..k], queues, held) && link.toServer == queues[k] && link.granted == held[k]
    {
      Apply(link, events[k]);
      TracedOn(events[..k], queues, held, events[k], link.toServer, link.granted);
      assert events[..k + 1] == events[..k] + [events[k]];
      queues, held := queues + [link.toServer], held + [link.granted];
      k := k + 1;
    }
    assert events[..k] == events;
  }
}
