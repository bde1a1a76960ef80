// RecursiWatcherService: registers every directory of the users' repository
// with a watch service, turns each batch of watch events into fileCreated /
// fileDeleted notifications, and hands each notification to every listener.

module Watcher {
  import opened Wrappers
  import opened FsModel
  import opened Paths
  import opened RepoObjUtils

  type WatchKey = nat

  /** A registered IFileListener, by identity. */
  type ListenerId = nat

  datatype EventKind = EntryCreate | EntryDelete | EntryModify | Overflow

  /** A watch event: its kind and the name it concerns in the watched directory. */
  datatype WatchEvent = WatchEvent(kind: EventKind, context: string)

  datatype FileEvent = Created(file: Path) | Deleted(file: Path)

  /** One listener call and how it ended. */
  datatype Call = Call(listener: ListenerId, outcome: Outcome)

  /** One fileCreated / fileDeleted: the user its log lines name and the
      listener calls in the order the listener set was iterated. */
  datatype Dispatch = Dispatch(event: FileEvent, user: string, calls: seq<Call>)

  /** rootFolder.relativize(file).getName(0): the user directory an event
      happened in. */
  function UserOf(root: Path, file: Path): string {
    Names(Relativize(root, file))[0]
  }

  /** The file events of a sequence of dispatches, in order. */
  function Events(ds: seq<Dispatch>): (r: seq<FileEvent>)
    ensures |r| == |ds|
  {
    if ds == [] then [] else Events(ds[..|ds| - 1]) + [ds[|ds| - 1].event]
  }

  /** What handling the event `e` of the watched directory `dir` hands to
      the listeners, and how it ends: OVERFLOW is dropped, an event on a
      directory first registers that directory (which fails on a tree that
      cannot be listed), CREATE and DELETE are dispatched and any other
      kind raises UnsupportedOperationException. */
  ghost function Step(t: Tree, dir: Path, e: WatchEvent): (seq<FileEvent>, Outcome) {
    if e.kind.Overflow? then ([], Done)
    else
      var p := dir + [e.context];
      if IsDir(t, p) && !ReadableDirs(t, p) then ([], Failed(Runtime))
      else match e.kind
        case EntryCreate => ([Created(p)], Done)
        case EntryDelete => ([Deleted(p)], Done)
        case _ => ([], Failed(UnsupportedOperation))
  }

  /** What a batch hands to the listeners, event by event until the first
      exception, and how it ends. */
  ghost function Plan(t: Tree, dir: Path, events: seq<WatchEvent>): (seq<FileEvent>, Outcome)
    decreases |events|
  {
    if events == [] then ([], Done)
    else
      var s := Step(t, dir, events[0]);
      if s.1.Failed? then s
      else
        var rest := Plan(t, dir, events[1..]);
        (s.0 + rest.0, rest.1)
  }

  /** The notifications a batch is meant to give: one per CREATE or DELETE
      event, in order, for the entry the event names. */
  function Intended(dir: Path, events: seq<WatchEvent>): seq<FileEvent>
    decreases |events|
  {
    if events == [] then []
    else
      var e := events[0];
      var p := dir + [e.context];
      match e.kind
      case EntryCreate => [Created(p)] + Intended(dir, events[1..])
      case EntryDelete => [Deleted(p)] + Intended(dir, events[1..])
      case _ => Intended(dir, events[1..])
  }

  /** A batch the watcher can handle to the end: only CREATE, DELETE and
      OVERFLOW events, and every directory they name can be listed. */
  ghost predicate Handleable(t: Tree, dir: Path, events: seq<WatchEvent>) {
    forall j :: 0 <= j < |events| && !events[j].kind.Overflow? ==>
      (events[j].kind.EntryCreate? || events[j].kind.EntryDelete?)
      && (IsDir(t, dir + [events[j].context]) ==> ReadableDirs(t, dir + [events[j].context]))
  }

  /** The batch without its OVERFLOW events. */
  function DropOverflow(events: seq<WatchEvent>): (r: seq<WatchEvent>)
    ensures forall j :: 0 <= j < |r| ==> !r[j].kind.Overflow?
    decreases |events|
  {
    if events == [] then []
    else if events[0].kind.Overflow? then DropOverflow(events[1..])
    else [events[0]] + DropOverflow(events[1..])
  }

  /** `calls` calls every listener of `ls` exactly once, with `e`, and
      records what `respond` says that listener does. */
  predicate CallsEach(calls: seq<Call>, ls: set<ListenerId>, e: FileEvent,
                      respond: (ListenerId, FileEvent) -> Outcome) {
    |calls| == |ls|
    && (forall i :: 0 <= i < |calls| ==> calls[i].listener in ls && calls[i].outcome == respond(calls[i].listener, e))
    && (forall i, j :: 0 <= i < j < |calls| ==> calls[i].listener != calls[j].listener)
    && Called(calls) == ls
  }

  /** The listeners `calls` calls. */
  function Called(calls: seq<Call>): (r: set<ListenerId>)
    ensures forall i :: 0 <= i < |calls| ==> calls[i].listener in r
    ensures forall l :: l in r ==> exists i :: 0 <= i < |calls| && calls[i].listener == l
  {
    if calls == [] then {} else Called(calls[..|calls| - 1]) + {calls[|calls| - 1].listener}
  }

  /** The loop over the listener set: each listener is called once, in the
      set's iteration order (left open), and what it does is recorded. */
  method CallEach(ls: set<ListenerId>, e: FileEvent, respond: (ListenerId, FileEvent) -> Outcome)
    returns (calls: seq<Call>)
    ensures CallsEach(calls, ls, e, respond)
  {
    calls := [];
    var rest := ls;
    while rest != {}
      invariant rest <= ls
      invariant |calls| + |rest| == |ls|
      invariant CallsEach(calls, ls - rest, e, respond)
      decreases |rest|
    {
      var l :| l in rest;
      TakeOne(ls, rest, l);
      CallsEachStep(calls, ls - rest, l, e, respond);
      calls := calls + [Call(l, respond(l, e))];
      rest := rest - {l};
    }
    assert ls - rest == ls;
  }

  /** Moving `l` from the listeners still to call to those called. */
  lemma TakeOne<T>(ls: set<T>, rest: set<T>, l: T)
    requires rest <= ls && l in rest
    ensures l !in ls - rest && ls - (rest - {l}) == (ls - rest) + {l}
    ensures |rest - {l}| == |rest| - 1
  {
  }

  /** Calling one more listener, not yet called, keeps every listener
      called exactly once. */
  lemma CallsEachStep(calls: seq<Call>, done: set<ListenerId>, l: ListenerId, e: FileEvent,
                      respond: (ListenerId, FileEvent) -> Outcome)
    requires CallsEach(calls, done, e, respond) && l !in done
    ensures CallsEach(calls + [Call(l, respond(l, e))], done + {l}, e, respond)
  {
    var next := calls + [Call(l, respond(l, e))];
    assert next[..|next| - 1] == calls;
    assert Called(next) == done + {l};
    assert |done + {l}| == |done| + 1;
    forall i | 0 <= i < |next|
      ensures next[i].listener in done + {l} && next[i].outcome == respond(next[i].listener, e)
    {
      if i < |calls| {
        assert next[i] == calls[i];
      }
    }
    forall i, j | 0 <= i < j < |next|
      ensures next[i].listener != next[j].listener
    {
      assert next[i] == calls[i] && calls[i].listener in done;
      if j < |calls| {
        assert next[j] == calls[j];
      }
    }
  }

  /** Every directory of `t` at or below `p` is in `dirs`. */
  ghost predicate Covers(t: Tree, dirs: set<Path>, p: Path) {
    forall x :: x in t && p <= x && t[x].kind.Directory? ==> x in dirs
  }

  /** The dispatch `d` names the user of its file, relative to `root`, and
      calls every listener of `ls` once. */
  predicate Delivered(d: Dispatch, root: Path, ls: set<ListenerId>, respond: (ListenerId, FileEvent) -> Outcome) {
    d.user == UserOf(root, d.event.file) && CallsEach(d.calls, ls, d.event, respond)
  }

  /** Every dispatch of `ds` is delivered. */
  predicate AllDelivered(ds: seq<Dispatch>, root: Path, ls: set<ListenerId>, respond: (ListenerId, FileEvent) -> Outcome) {
    forall d :: d in ds ==> Delivered(d, root, ls, respond)
  }

  /** `m1` keeps every entry of `m0`: registrations are never dropped or
      rebound. */
  ghost predicate Extends<K, V>(m0: map<K, V>, m1: map<K, V>) {
    forall k :: k in m0 ==> k in m1 && m1[k] == m0[k]
  }

  class RecursiWatcherService {
    /** The users' repository. */
    const rootFolder: Path
    const disk: FileSystem
    /** What each listener does with a notification; the listeners' own
        code is not part of the watcher. */
    const respond: (ListenerId, FileEvent) -> Outcome
    /** The watch service's registrations: registering a directory again
        gives back its key. */
    var registered: map<Path, WatchKey>
    var nextKey: WatchKey
    /** The `keys` map of the event loop: which directory a key watches. */
    var keys: map<WatchKey, Path>
    var listeners: set<ListenerId>
    /** Every fileCreated / fileDeleted so far, in order. */
    var dispatched: seq<Dispatch>

    ghost predicate Valid()
      reads this, disk
    {
      disk.Valid()
      && (forall d :: d in registered ==> registered[d] in keys && keys[registered[d]] == d)
      && (forall k :: k in keys ==> k < nextKey)
    }

    /** Every directory at or below `p` is registered; by Valid(), the key
        of each maps back to it. */
    ghost predicate Watched(p: Path)
      reads this, disk
    {
      Covers(disk.nodes, registered.Keys, p)
    }

    /** A watched directory has a key in `keys` that maps to it. */
    lemma WatchedHasKey(p: Path, x: Path)
      requires Valid() && Watched(p) && x in disk.nodes && p <= x && disk.nodes[x].kind.Directory?
      ensures x in registered && registered[x] in keys && keys[registered[x]] == x
    {
    }

    constructor (rootFolder: Path, disk: FileSystem, respond: (ListenerId, FileEvent) -> Outcome)
      requires disk.Valid()
      ensures Valid() && this.rootFolder == rootFolder && this.disk == disk && this.respond == respond
      ensures keys == map[] && registered == map[] && listeners == {} && dispatched == []
    {
      this.rootFolder := rootFolder;
      this.disk := disk;
      this.respond := respond;
      registered := map[];
      nextKey := 0;
      keys := map[];
      listeners := {};
      dispatched := [];
    }

    /** dir.register(watcher, ...) followed by keys.put(watchKey, dir). */
    method RegisterDirectory(dir: Path)
      requires Valid()
      modifies this
      ensures Valid()
      ensures dir in registered && registered[dir] in keys && keys[registered[dir]] == dir
      ensures Extends(old(keys), keys)
      ensures forall k :: k in keys && k !in old(keys) ==> keys[k] == dir
      ensures Extends(old(registered), registered)
      ensures registered.Keys == old(registered).Keys + {dir}
      ensures listeners == old(listeners) && dispatched == old(dispatched)
    {
      var key;
      if dir in registered {
        key := registered[dir];
      } else {
        key := nextKey;
        nextKey := nextKey + 1;
        registered := registered[dir := key];
      }
      keys := keys[key := dir];
    }

    /** The `register` consumer: the path must be an existing directory;
        then Files.walkFileTree registers every directory it reaches. A
        directory that cannot be listed makes the walk throw, which ends as
        a RuntimeException; the directories registered before stay. */
    method Register(p: Path) returns (r: Outcome)
      requires Valid()
      modifies this
      ensures Valid()
      ensures r.Done? <==> IsDir(disk.nodes, p) && ReadableDirs(disk.nodes, p)
      ensures r.Failed? ==> r.error == Runtime
      ensures r.Done? ==> Watched(p)
      ensures !IsDir(disk.nodes, p) ==> keys == old(keys) && registered == old(registered)
      ensures Extends(old(keys), keys)
      ensures forall k :: k in keys && k !in old(keys) ==> p <= keys[k] && IsDir(disk.nodes, keys[k])
      ensures Extends(old(registered), registered)
      ensures listeners == old(listeners) && dispatched == old(dispatched)
    {
      if p !in disk.nodes || !disk.nodes[p].kind.Directory? {
        return Failed(Runtime);
      }
      var walked := WalkFrom(p);
      if walked.Failed? {
        return Failed(Runtime);
      }
      return Done;
    }

    /** The walk from the entry `q`: a directory that cannot be listed goes
        to visitFileFailed, which rethrows; a directory is registered in
        preVisitDirectory and its entries are walked; anything else is a
        visitFile that does nothing. */
    method WalkFrom(q: Path) returns (r: Outcome)
      requires Valid() && q in disk.nodes
      modifies this
      ensures Valid()
      ensures r.Done? <==> ReadableDirs(disk.nodes, q)
      ensures r.Failed? ==> r.error == AccessDenied
      ensures r.Done? ==> Watched(q)
      ensures Extends(old(keys), keys)
      ensures forall k :: k in keys && k !in old(keys) ==> q <= keys[k] && IsDir(disk.nodes, keys[k])
      ensures Extends(old(registered), registered)
      ensures listeners == old(listeners) && dispatched == old(dispatched)
      decreases |Subtree(disk.nodes, q)|, 1
    {
      var node := disk.nodes[q];
      if !node.kind.Directory? {
        LeafHasNoSubtree(disk.nodes, q);
        forall x | x in disk.nodes && q <= x
          ensures x == q
        {
          assert !(q < x);
        }
        return Done;
      }
      if !node.perm.read {
        return Failed(AccessDenied);
      }
      RegisterDirectory(q);
      r := WalkEntries(q);
    }

    /** The entries of the registered directory `q`, in the order the
        listing gives them; the first failure ends the walk. */
    method WalkEntries(q: Path) returns (r: Outcome)
      requires Valid() && IsDir(disk.nodes, q) && disk.nodes[q].perm.read
      requires q in registered
      modifies this
      ensures Valid()
      ensures r.Done? <==> ReadableDirs(disk.nodes, q)
      ensures r.Failed? ==> r.error == AccessDenied
      ensures r.Done? ==> Watched(q)
      ensures Extends(old(keys), keys)
      ensures forall k :: k in keys && k !in old(keys) ==> q <= keys[k] && IsDir(disk.nodes, keys[k])
      ensures Extends(old(registered), registered)
      ensures listeners == old(listeners) && dispatched == old(dispatched)
      decreases |Subtree(disk.nodes, q)|, 0
    {
      var t := disk.nodes;
      var pending := Children(t, q);
      while pending != {}
        invariant Valid() && q in registered
        invariant pending <= Children(t, q)
        invariant forall c :: c in Children(t, q) && c !in pending ==> ReadableDirs(t, c) && Covers(t, registered.Keys, c)
        invariant Extends(old(keys), keys)
        invariant forall k :: k in keys && k !in old(keys) ==> q <= keys[k] && IsDir(t, keys[k])
        invariant Extends(old(registered), registered)
        invariant listeners == old(listeners) && dispatched == old(dispatched)
        decreases |pending|
      {
        var c :| c in pending;
        ChildSubtreeSmaller(t, t, q, c);
        ghost var keys0, reg0 := keys, registered;
        r := WalkFrom(c);
        ExtendsTrans(old(keys), keys0, keys);
        ExtendsTrans(old(registered), reg0, registered);
        NewKeysUnder(t, old(keys), keys0, keys, q, c);
        if r.Failed? {
          ChildNotReadable(t, q, c);
          return;
        }
        ExtendsKeys(reg0, registered);
        ChildWalked(t, q, pending, c, reg0.Keys, registered.Keys);
        pending := pending - {c};
      }
      ChildrenReadable(t, q);
      CoveredByChildren(t, registered.Keys, q);
      return Done;
    }

    /** registerListener: the listeners form a set. */
    method RegisterListener(l: ListenerId)
      modifies this
      ensures listeners == old(listeners) + {l}
      ensures l in old(listeners) ==> listeners == old(listeners)
      ensures keys == old(keys) && registered == old(registered) && nextKey == old(nextKey)
      ensures dispatched == old(dispatched)
    {
      listeners := listeners + {l};
    }

    /** The body of fileCreated and fileDeleted: every listener is called;
        an exception from one is caught and logged with the user's name. */
    method Notify(e: FileEvent)
      modifies this
      ensures |dispatched| == |old(dispatched)| + 1 && dispatched[..|old(dispatched)|] == old(dispatched)
      ensures dispatched[|old(dispatched)|].event == e && Delivered(dispatched[|old(dispatched)|], rootFolder, listeners, respond)
      ensures keys == old(keys) && registered == old(registered) && nextKey == old(nextKey)
      ensures listeners == old(listeners)
    {
      var user := UserOf(rootFolder, e.file);
      var calls := CallEach(listeners, e, respond);
      dispatched := dispatched + [Dispatch(e, user, calls)];
    }

    method FileCreated(file: Path)
      modifies this
      ensures |dispatched| == |old(dispatched)| + 1 && dispatched[..|old(dispatched)|] == old(dispatched)
      ensures dispatched[|old(dispatched)|].event == Created(file) && Delivered(dispatched[|old(dispatched)|], rootFolder, listeners, respond)
      ensures keys == old(keys) && registered == old(registered) && nextKey == old(nextKey)
      ensures listeners == old(listeners)
    {
      Notify(Created(file));
    }

    method FileDeleted(file: Path)
      modifies this
      ensures |dispatched| == |old(dispatched)| + 1 && dispatched[..|old(dispatched)|] == old(dispatched)
      ensures dispatched[|old(dispatched)|].event == Deleted(file) && Delivered(dispatched[|old(dispatched)|], rootFolder, listeners, respond)
      ensures keys == old(keys) && registered == old(registered) && nextKey == old(nextKey)
      ensures listeners == old(listeners)
    {
      Notify(Deleted(file));
    }

    /** startRecursiveWatcher, up to the event loop: the root is registered. */
    method StartRecursiveWatcher() returns (r: Outcome)
      requires Valid()
      modifies this
      ensures Valid()
      ensures r.Done? <==> IsDir(disk.nodes, rootFolder) && ReadableDirs(disk.nodes, rootFolder)
      ensures r.Failed? ==> r.error == Runtime
      ensures r.Done? ==> Watched(rootFolder)
      ensures listeners == old(listeners) && dispatched == old(dispatched)
    {
      r := Register(rootFolder);
    }

    /** One event of a batch of the watched directory `dir`. */
    method HandleEvent(dir: Path, e: WatchEvent) returns (r: Outcome)
      requires Valid()
      modifies this
      ensures Valid()
      ensures r == Step(disk.nodes, dir, e).1
      ensures |old(dispatched)| <= |dispatched| && dispatched[..|old(dispatched)|] == old(dispatched)
      ensures Events(dispatched[|old(dispatched)|..]) == Step(disk.nodes, dir, e).0
      ensures AllDelivered(dispatched[|old(dispatched)|..], rootFolder, listeners, respond)
      ensures r.Done? && !e.kind.Overflow? && IsDir(disk.nodes, dir + [e.context]) ==> Watched(dir + [e.context])
      ensures Extends(old(keys), keys)
      ensures Extends(old(registered), registered)
      ensures listeners == old(listeners)
    {
      if e.kind.Overflow? {
        return Done;
      }
      var absPath := dir + [e.context];
      if absPath in disk.nodes && disk.nodes[absPath].kind.Directory? {
        var reg := Register(absPath);
        if reg.Failed? {
          return reg;
        }
      }
      r := DispatchEvent(e.kind, absPath);
    }

    /** The CREATE / DELETE switch of the event loop: a CREATE is a
        fileCreated, a DELETE a fileDeleted, any other kind raises
        UnsupportedOperationException. */
    method DispatchEvent(kind: EventKind, file: Path) returns (r: Outcome)
      requires !kind.Overflow?
      modifies this
      ensures r.Done? <==> kind.EntryCreate? || kind.EntryDelete?
      ensures r.Failed? ==> r.error == UnsupportedOperation && dispatched == old(dispatched)
      ensures |old(dispatched)| <= |dispatched| && dispatched[..|old(dispatched)|] == old(dispatched)
      ensures Events(dispatched[|old(dispatched)|..])
              == (if kind.EntryCreate? then [Created(file)] else if kind.EntryDelete? then [Deleted(file)] else [])
      ensures AllDelivered(dispatched[|old(dispatched)|..], rootFolder, listeners, respond)
      ensures keys == old(keys) && registered == old(registered) && nextKey == old(nextKey)
      ensures listeners == old(listeners)
    {
      if kind.EntryCreate? {
        FileCreated(file);
      } else if kind.EntryDelete? {
        FileDeleted(file);
      } else {
        assert dispatched[|dispatched|..] == [];
        return Failed(UnsupportedOperation);
      }
      var n := |old(dispatched)|;
      assert dispatched[n..] == [dispatched[n]];
      EventsAppend([], dispatched[n]);
      return Done;
    }

    /** One turn of the event loop for a key taken from the watch service:
        an unknown key is skipped; otherwise its events are handled in
        order until the first exception. The key's reset, whose answer the
        loop ignores, is not modelled. */
    method ProcessKey(key: WatchKey, events: seq<WatchEvent>) returns (r: Outcome)
      requires Valid()
      modifies this
      ensures Valid()
      ensures key !in old(keys) ==>
                r == Done && keys == old(keys) && registered == old(registered) && dispatched == old(dispatched)
      ensures key in old(keys) ==>
                r == Plan(disk.nodes, old(keys)[key], events).1
                && |old(dispatched)| <= |dispatched| && dispatched[..|old(dispatched)|] == old(dispatched)
                && Events(dispatched[|old(dispatched)|..]) == Plan(disk.nodes, old(keys)[key], events).0
                && AllDelivered(dispatched[|old(dispatched)|..], rootFolder, listeners, respond)
      ensures key in old(keys) && r.Done? ==>
                forall j :: 0 <= j < |events| && !events[j].kind.Overflow?
                            && IsDir(disk.nodes, old(keys)[key] + [events[j].context]) ==>
                  Watched(old(keys)[key] + [events[j].context])
      ensures Extends(old(keys), keys)
      ensures Extends(old(registered), registered)
      ensures listeners == old(listeners)
    {
      if key !in keys {
        return Done;
      }
      r := HandleEvents(keys[key], events);
    }

    /** The events of one key, in order, until the first exception. */
    method HandleEvents(dir: Path, events: seq<WatchEvent>) returns (r: Outcome)
      requires Valid()
      modifies this
      ensures Valid()
      ensures r == Plan(disk.nodes, dir, events).1
      ensures |old(dispatched)| <= |dispatched| && dispatched[..|old(dispatched)|] == old(dispatched)
      ensures Events(dispatched[|old(dispatched)|..]) == Plan(disk.nodes, dir, events).0
      ensures AllDelivered(dispatched[|old(dispatched)|..], rootFolder, listeners, respond)
      ensures r.Done? ==>
                forall j :: 0 <= j < |events| && !events[j].kind.Overflow? && IsDir(disk.nodes, dir + [events[j].context]) ==>
                  Watched(dir + [events[j].context])
      ensures Extends(old(keys), keys)
      ensures Extends(old(registered), registered)
      ensures listeners == old(listeners)
    {
      var t := disk.nodes;
      ghost var ls, n0 := listeners, |dispatched|;
      var i := 0;
      r := Done;
      while i < |events|
        invariant 0 <= i <= |events|
        invariant Valid() && listeners == ls && r == Done
        invariant n0 <= |dispatched| && dispatched[..n0] == old(dispatched)
        invariant Events(dispatched[n0..]) + Plan(t, dir, events[i..]).0 == Plan(t, dir, events).0
        invariant Plan(t, dir, events[i..]).1 == Plan(t, dir, events).1
        invariant AllDelivered(dispatched[n0..], rootFolder, ls, respond)
        invariant forall j :: 0 <= j < i && !events[j].kind.Overflow? && IsDir(t, dir + [events[j].context]) ==>
                    Covers(t, registered.Keys, dir + [events[j].context])
        invariant Extends(old(keys), keys)
        invariant Extends(old(registered), registered)
      {
        ghost var before, regBefore := dispatched, registered;
        r := HandleEvent(dir, events[i]);
        PrefixKept(old(dispatched), before, dispatched, n0);
        PlanAdvance(t, dir, events, i, dispatched, n0, |before|);
        DeliveredSplit(dispatched, n0, |before|, rootFolder, ls, respond);
        if r.Failed? {
          return;
        }
        ExtendsKeys(regBefore, registered);
        HandledCovered(t, dir, events, i, regBefore.Keys, registered.Keys);
        i := i + 1;
      }
      assert events[i..] == [];
      assert Plan(t, dir, events[i..]) == ([], Done);
    }
  }

  // ---------------------------------------------------------------------
  // Lemmas

  /** One more child of `q` walked: the walked children stay readable and
      covered as the registrations grow. */
  lemma ChildWalked(t: Tree, q: Path, pending: set<Path>, c: Path, reg0: set<Path>, reg1: set<Path>)
    requires c in pending && pending <= Children(t, q) && reg0 <= reg1
    requires forall c' :: c' in Children(t, q) && c' !in pending ==> ReadableDirs(t, c') && Covers(t, reg0, c')
    requires ReadableDirs(t, c) && Covers(t, reg1, c)
    ensures forall c' :: c' in Children(t, q) && c' !in pending - {c} ==> ReadableDirs(t, c') && Covers(t, reg1, c')
  {
    forall c' | c' in Children(t, q) && c' !in pending - {c}
      ensures ReadableDirs(t, c') && Covers(t, reg1, c')
    {
      if c' != c {
        CoversGrow(t, reg0, reg1, c');
      }
    }
  }

  lemma ExtendsKeys<K, V>(m0: map<K, V>, m1: map<K, V>)
    requires Extends(m0, m1)
    ensures m0.Keys <= m1.Keys
  {
  }

  lemma ExtendsTrans<K, V>(m0: map<K, V>, m1: map<K, V>, m2: map<K, V>)
    requires Extends(m0, m1) && Extends(m1, m2)
    ensures Extends(m0, m2)
  {
  }

  lemma EventsAppend(ds: seq<Dispatch>, d: Dispatch)
    ensures Events(ds + [d]) == Events(ds) + [d.event]
  {
    assert (ds + [d])[..|ds|] == ds;
  }

  lemma {:induction false} EventsSplit(a: seq<Dispatch>, b: seq<Dispatch>)
    ensures Events(a + b) == Events(a) + Events(b)
    decreases |b|
  {
    if b == [] {
      assert a + b == a;
    } else {
      var last := b[|b| - 1];
      var front := b[..|b| - 1];
      assert b == front + [last];
      assert a + b == (a + front) + [last];
      EventsSplit(a, front);
      EventsAppend(a + front, last);
      EventsAppend(front, last);
    }
  }

  /** Splitting the dispatches at `j` keeps their delivery. */
  /** Growing the dispatches twice keeps the first `n0`, and the middle
      part is what the first growth added. */
  lemma PrefixKept(ds0: seq<Dispatch>, ds1: seq<Dispatch>, ds2: seq<Dispatch>, n0: nat)
    requires n0 <= |ds1| <= |ds2| && ds1[..n0] == ds0 && ds2[..|ds1|] == ds1
    ensures ds2[..n0] == ds0 && ds2[n0..|ds1|] == ds1[n0..]
  {
    assert ds2[..n0] == ds2[..|ds1|][..n0];
    assert ds2[n0..|ds1|] == ds2[..|ds1|][n0..];
  }

  /** The directories of the first `i` events stay covered as the
      registrations grow, and the `i`-th one is covered too. */
  lemma HandledCovered(t: Tree, dir: Path, events: seq<WatchEvent>, i: nat, reg0: set<Path>, reg1: set<Path>)
    requires i < |events| && reg0 <= reg1
    requires forall j :: 0 <= j < i && !events[j].kind.Overflow? && IsDir(t, dir + [events[j].context]) ==>
               Covers(t, reg0, dir + [events[j].context])
    requires !events[i].kind.Overflow? && IsDir(t, dir + [events[i].context]) ==> Covers(t, reg1, dir + [events[i].context])
    ensures forall j :: 0 <= j < i + 1 && !events[j].kind.Overflow? && IsDir(t, dir + [events[j].context]) ==>
              Covers(t, reg1, dir + [events[j].context])
  {
    forall j | 0 <= j < i && !events[j].kind.Overflow? && IsDir(t, dir + [events[j].context])
      ensures Covers(t, reg1, dir + [events[j].context])
    {
      CoversGrow(t, reg0, reg1, dir + [events[j].context]);
    }
  }

  lemma DeliveredSplit(ds: seq<Dispatch>, i: nat, j: nat, root: Path, ls: set<ListenerId>,
                       respond: (ListenerId, FileEvent) -> Outcome)
    requires i <= j <= |ds|
    requires AllDelivered(ds[i..j], root, ls, respond) && AllDelivered(ds[j..], root, ls, respond)
    ensures AllDelivered(ds[i..], root, ls, respond)
  {
    assert ds[i..] == ds[i..j] + ds[j..];
  }

  /** One more event handled: when it fails, the handled part is the whole
      plan; otherwise the plan of the rest follows what has been handled. */
  lemma PlanAdvance(t: Tree, dir: Path, events: seq<WatchEvent>, i: nat, ds: seq<Dispatch>, n0: nat, b: nat)
    requires i < |events| && n0 <= b <= |ds|
    requires Events(ds[n0..b]) + Plan(t, dir, events[i..]).0 == Plan(t, dir, events).0
    requires Plan(t, dir, events[i..]).1 == Plan(t, dir, events).1
    requires Events(ds[b..]) == Step(t, dir, events[i]).0
    ensures Step(t, dir, events[i]).1.Failed? ==>
              Events(ds[n0..]) == Plan(t, dir, events).0 && Step(t, dir, events[i]).1 == Plan(t, dir, events).1
    ensures Step(t, dir, events[i]).1.Done? ==>
              Events(ds[n0..]) + Plan(t, dir, events[i + 1..]).0 == Plan(t, dir, events).0
              && Plan(t, dir, events[i + 1..]).1 == Plan(t, dir, events).1
  {
    EventsAt(ds, n0, b);
    PlanUnfold(t, dir, events, i);
    ResumeAfter(Events(ds[n0..b]), Events(ds[n0..]), Plan(t, dir, events[i..]), Step(t, dir, events[i]),
                Plan(t, dir, events[i + 1..]), Plan(t, dir, events));
  }

  /** The bookkeeping of PlanAdvance on plain values: `before` and the plan
      from `i` make up the whole plan, and `upTo` is `before` and the step. */
  lemma ResumeAfter(before: seq<FileEvent>, upTo: seq<FileEvent>, from: (seq<FileEvent>, Outcome),
                    step: (seq<FileEvent>, Outcome), next: (seq<FileEvent>, Outcome), whole: (seq<FileEvent>, Outcome))
    requires before + from.0 == whole.0 && from.1 == whole.1 && upTo == before + step.0
    requires from == if step.1.Failed? then step else (step.0 + next.0, next.1)
    ensures step.1.Failed? ==> upTo == whole.0 && step.1 == whole.1
    ensures step.1.Done? ==> upTo + next.0 == whole.0 && next.1 == whole.1
  {
    if step.1.Done? {
      assert before + step.0 + next.0 == before + (step.0 + next.0);
    }
  }

  /** The events of `ds` from `n0` are those up to `b` followed by those from `b`. */
  lemma EventsAt(ds: seq<Dispatch>, n0: nat, b: nat)
    requires n0 <= b <= |ds|
    ensures Events(ds[n0..]) == Events(ds[n0..b]) + Events(ds[b..])
  {
    assert ds[n0..] == ds[n0..b] + ds[b..];
    EventsSplit(ds[n0..b], ds[b..]);
  }

  /** Registering more directories keeps a covered tree covered. */
  /** The keys a walk from the child `c` of `q` adds lie below `q`, as do
      those added before it. */
  lemma NewKeysUnder(t: Tree, k0: map<WatchKey, Path>, k1: map<WatchKey, Path>, k2: map<WatchKey, Path>, q: Path, c: Path)
    requires c in Children(t, q) && Extends(k1, k2)
    requires forall k :: k in k1 && k !in k0 ==> q <= k1[k] && IsDir(t, k1[k])
    requires forall k :: k in k2 && k !in k1 ==> c <= k2[k] && IsDir(t, k2[k])
    ensures forall k :: k in k2 && k !in k0 ==> q <= k2[k] && IsDir(t, k2[k])
  {
    assert q <= c;
  }

  lemma CoversGrow(t: Tree, a: set<Path>, b: set<Path>, p: Path)
    requires a <= b && Covers(t, a, p)
    ensures Covers(t, b, p)
  {
  }

  lemma PlanUnfold(t: Tree, dir: Path, events: seq<WatchEvent>, i: nat)
    requires i < |events|
    ensures var s := Step(t, dir, events[i]);
            Plan(t, dir, events[i..])
            == if s.1.Failed? then s else (s.0 + Plan(t, dir, events[i + 1..]).0, Plan(t, dir, events[i + 1..]).1)
  {
    assert events[i..][0] == events[i] && events[i..][1..] == events[i + 1..];
  }

  /** A directory is covered once it and each of its children are. */
  lemma CoveredByChildren(t: Tree, dirs: set<Path>, q: Path)
    requires WellFormed(t) && q in dirs
    requires forall c :: c in Children(t, q) ==> Covers(t, dirs, c)
    ensures Covers(t, dirs, q)
  {
    forall x | x in t && q <= x && t[x].kind.Directory?
      ensures x in dirs
    {
      if x != q {
        UnderSomeChild(t, q, x);
      }
    }
  }

  /** A child with an unreadable directory below it makes its parent's
      tree unreadable. */
  lemma ChildNotReadable(t: Tree, q: Path, c: Path)
    requires c in Children(t, q) && !ReadableDirs(t, c)
    ensures !ReadableDirs(t, q)
  {
    var x :| x in t && c <= x && t[x].kind.Directory? && !t[x].perm.read;
    assert q <= c;
    assert q <= x;
  }

  /** A readable directory whose children's trees can all be listed can be
      listed as a whole. */
  lemma ChildrenReadable(t: Tree, q: Path)
    requires WellFormed(t) && q in t && t[q].perm.read
    requires forall c :: c in Children(t, q) ==> ReadableDirs(t, c)
    ensures ReadableDirs(t, q)
  {
    forall x | x in t && q <= x && t[x].kind.Directory?
      ensures t[x].perm.read
    {
      if x != q {
        UnderSomeChild(t, q, x);
      }
    }
  }

  /** relativize(root, file).getName(0): the first name below the root,
      the empty name for the root itself, and ".." outside it. */
  lemma UserOfCases(root: Path, file: Path)
    ensures root < file ==> UserOf(root, file) == file[|root|]
    ensures UserOf(root, root) == ""
    ensures !(root <= file) ==> UserOf(root, file) == ParentName
  {
    if root <= file {
      RelativizeBelow(root, file);
    } else {
      RelativizeOutside(root, file);
    }
    RelativizeBelow(root, root);
  }

  /** OVERFLOW events play no part in what a batch does. */
  lemma {:induction false} PlanIgnoresOverflow(t: Tree, dir: Path, events: seq<WatchEvent>)
    ensures Plan(t, dir, events) == Plan(t, dir, DropOverflow(events))
    decreases |events|
  {
    if events != [] {
      PlanIgnoresOverflow(t, dir, events[1..]);
      var rest := Plan(t, dir, events[1..]);
      if events[0].kind.Overflow? {
        assert [] + rest.0 == rest.0;
        assert DropOverflow(events) == DropOverflow(events[1..]);
      } else {
        var d := [events[0]] + DropOverflow(events[1..]);
        assert DropOverflow(events) == d;
        assert d[0] == events[0] && d[1..] == DropOverflow(events[1..]);
      }
    }
  }

  /** A batch is handled to the end exactly when it is handleable, and then
      the listeners hear of every CREATE and DELETE in order. */
  lemma {:induction false} PlanComplete(t: Tree, dir: Path, events: seq<WatchEvent>)
    ensures Plan(t, dir, events).1 == Done <==> Handleable(t, dir, events)
    ensures Handleable(t, dir, events) ==> Plan(t, dir, events).0 == Intended(dir, events)
    decreases |events|
  {
    if events != [] {
      PlanComplete(t, dir, events[1..]);
      var e := events[0];
      var p := dir + [e.context];
      if Handleable(t, dir, events) {
        forall j | 0 <= j < |events[1..]| && !events[1..][j].kind.Overflow?
          ensures (events[1..][j].kind.EntryCreate? || events[1..][j].kind.EntryDelete?)
                  && (IsDir(t, dir + [events[1..][j].context]) ==> ReadableDirs(t, dir + [events[1..][j].context]))
        {
          assert events[1..][j] == events[j + 1];
        }
      } else {
        var j :| 0 <= j < |events| && !events[j].kind.Overflow? &&
                 !((events[j].kind.EntryCreate? || events[j].kind.EntryDelete?)
                   && (IsDir(t, dir + [events[j].context]) ==> ReadableDirs(t, dir + [events[j].context])));
        if j > 0 {
          assert events[1..][j - 1] == events[j];
        }
      }
    }
  }

  /** Every notification a batch gives is about an entry of the watched
      directory. */
  lemma {:induction false} PlanStaysInDirectory(t: Tree, dir: Path, events: seq<WatchEvent>)
    ensures forall x :: x in Plan(t, dir, events).0 ==> x.file != [] && Dirname(x.file) == dir
    decreases |events|
  {
    if events != [] {
      PlanStaysInDirectory(t, dir, events[1..]);
      assert Dirname(dir + [events[0].context]) == dir;
    }
  }
}
