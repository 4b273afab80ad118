/** Open handles over whole runs of callbacks, calls that were given up and run late included: which
    handles still lead to the node they were opened or created on
    (crates/netfilum-client/src/mount.rs, crates/netfilum-client/src/rpc_client.rs). */
module Tracking {
  import opened Wrappers
  import opened Protocol
  import opened Paths
  import opened FileTree
  import opened ServerSpec
  import opened ServerInvariant
  import opened Runs
  import opened ClientSpec
  import opened Handles
  import FileLaws
  import Laws = MountLaws

  // The disk and the open handles; the requests whose connection was lost before the server read
  // them, which may still be run; and what the client can keep book of: the requests it gave up on,
  // for whatever reason, and the handles those or other requests may have cut loose.
  datatype Mount = Mount(
    fs: Fs,
    handles: map<nat, Handle>,
    pending: seq<Request>,
    givenUp: set<Request>,
    doubted: set<nat>)

  function NewMount(fs: Fs): Mount {
    Mount(fs, map[], [], {}, {})
  }

  // One callback of the mounted file system. `Through` is any other request: a read, a write, a
  // resize, a query, a change of attributes.
  datatype Callback =
    | OpenAs(h: nat, fileName: string)
    | CreateAs(h: nat, fileName: string, createOptions: u32, fileAttributes: u32, allocationSize: u64)
    | RenameTo(h: nat, newFileName: string, replace: bool)
    | SetDelete(h: nat, delete: bool)
    | Cleanup(h: nat, deleteFlag: bool)
    | Through(request: Request)

  // A callback, with what its connection does; or a pending request run at last.
  datatype Event =
    | Called(callback: Callback, env: Env, link: Link)
    | Late(i: nat, env: Env)

  // Handle numbers are fresh when opened, in use otherwise; only content and query requests go Through.
  predicate Usable(m: Mount, c: Callback) {
    match c
    case OpenAs(h, _) => h !in m.handles
    case CreateAs(h, _, _, _, _) => h !in m.handles
    case RenameTo(h, _, _) => h in m.handles
    case SetDelete(h, _) => h in m.handles
    case Cleanup(h, _) => h in m.handles
    case Through(request) => KeepsPaths(request)
  }

  predicate Sensible(m: Mount, e: Event) {
    match e
    case Called(callback, _, _) => Usable(m, callback)
    case Late(i, _) => i < |m.pending|
  }

  // The request a callback sends, if it sends one.
  function RequestOf(m: Mount, c: Callback): Option<Request>
    requires Usable(m, c)
  {
    match c
    case OpenAs(_, fileName) => Some(Stat(NtPathToRelative(fileName)))
    case CreateAs(_, fileName, options, attributes, allocation) =>
      Some(Create(NtPathToRelative(fileName), CreateKind(options), attributes, allocation))
    case RenameTo(h, newFileName, replace) => Some(Rename(m.handles[h].path, NtPathToRelative(newFileName), replace))
    case SetDelete(h, delete) => if delete then Some(CanDelete(m.handles[h].path, m.handles[h].kind)) else None
    case Cleanup(h, flag) => if m.handles[h].deletePending || flag then Some(RemovalOf(m.handles[h])) else None
    case Through(request) => Some(request)
  }

  function Added(handles: map<nat, Handle>, h: nat, made: Result<Handle, Failure>): map<nat, Handle> {
    if made.Ok? then handles[h := made.value] else handles
  }

  // The handles after a callback; one is gone once cleaned up.
  ghost function HandlesAfter(ex: Export, m: Mount, c: Callback, env: Env, link: Link): map<nat, Handle>
    requires Served(ex.root, m.fs) && Usable(m, c)
  {
    match c
    case OpenAs(h, fileName) => Added(m.handles, h, OpenHandle(ex, m.fs, fileName, env, link).1)
    case CreateAs(h, fileName, options, attributes, allocation) =>
      Added(m.handles, h, CreateHandle(ex, m.fs, fileName, options, attributes, allocation, env, link).1)
    case RenameTo(h, newFileName, replace) =>
      m.handles[h := RenameHandle(ex, m.fs, m.handles[h], newFileName, replace, env, link).1]
    case SetDelete(h, delete) => m.handles[h := SetDeleteHandle(ex, m.fs, m.handles[h], delete, env, link).1]
    case Cleanup(h, _) => m.handles - {h}
    case Through(_) => m.handles
  }

  // ---- The client's book of doubts ----

  predicate IsLost(answer: Answer) {
    answer.Err? && answer.error.Transport?
  }

  function GivenUpAfter(m: Mount, request: Request, answer: Answer): set<Request> {
    if IsLost(answer) then m.givenUp + {request} else m.givenUp
  }

  // Some request given up on, if run now or later, could take what the string names.
  predicate Exposed(ex: Export, givenUp: set<Request>, name: string) {
    exists r :: r in givenUp && Touches(ex, r, name)
  }

  // Going by the answer, the request could have taken what the string names: one that was refused
  // only by replacing the target of a rename.
  predicate MayTake(ex: Export, request: Request, answer: Answer, name: string) {
    if answer.Err? && answer.error.Refused? then
      && request.Rename? && request.replaceIfExists
      && Place(ex, request.newPath).Ok? && AtOrBelow(ex, name, Place(ex, request.newPath).value)
    else Touches(ex, request, name)
  }

  function Struck(ex: Export, m: Mount, request: Request, answer: Answer): set<nat> {
    set k | k in m.handles && MayTake(ex, request, answer, m.handles[k].path)
  }

  function DoubtIf(doubtful: bool, h: nat): set<nat> {
    if doubtful then {h} else {}
  }

  // Whom to doubt after a callback, from nothing but paths and answers: the handles the request may
  // have struck; a handle opened, created or renamed where a request given up on could strike; and
  // not the handle a rename was answered for.
  function DoubtsAfter(ex: Export, m: Mount, c: Callback, request: Request, answer: Answer, handles: map<nat, Handle>): set<nat> {
    var givenUp := GivenUpAfter(m, request, answer);
    var struck := Struck(ex, m, request, answer);
    if (c.OpenAs? || c.CreateAs?) && c.h in handles then
      (m.doubted + struck) - {c.h} + DoubtIf(Exposed(ex, givenUp, handles[c.h].path), c.h)
    else if c.RenameTo? && answer.Ok? && c.h in handles then
      m.doubted + (struck - {c.h}) + DoubtIf(Exposed(ex, givenUp, handles[c.h].path), c.h)
    else if c.Cleanup? then (m.doubted + struck) - {c.h}
    else m.doubted + struck
  }

  function Dropped(pending: seq<Request>, i: nat): seq<Request>
    requires i < |pending|
  {
    pending[..i] + pending[i + 1..]
  }

  ghost function After(ex: Export, m: Mount, e: Event): Mount
    requires Served(ex.root, m.fs) && Sensible(m, e)
  {
    match e
    case Late(i, env) => m.(fs := Dispatch(ex, m.fs, m.pending[i], env).0, pending := Dropped(m.pending, i))
    case Called(c, env, link) =>
      var handles := HandlesAfter(ex, m, c, env, link);
      match RequestOf(m, c)
      case None => m.(handles := handles, doubted := if c.Cleanup? then m.doubted - {c.h} else m.doubted)
      case Some(request) =>
        var (fs', answer) := Send(ex, m.fs, request, env, link);
        Mount(
          fs',
          handles,
          if link.LostBefore? then m.pending + [request] else m.pending,
          GivenUpAfter(m, request, answer),
          DoubtsAfter(ex, m, c, request, answer, handles))
  }

  lemma AfterIsServed(ex: Export, m: Mount, e: Event)
    requires Served(ex.root, m.fs) && Sensible(m, e)
    ensures Served(ex.root, After(ex, m, e).fs)
  {
    hide Served, Dispatch, Send, HandlesAfter, DoubtsAfter;
    match e {
      case Late(i, env) => DispatchKeepsServed(ex, m.fs, m.pending[i], env);
      case Called(c, env, link) =>
        if RequestOf(m, c).Some? {
          SendKeepsServed(ex, m.fs, RequestOf(m, c).value, env, link);
        }
    }
  }

  // ---- Where no doubt is, the handle leads to its node ----

  ghost predicate Certain(ex: Export, fs: Fs, givenUp: set<Request>, h: Handle) {
    LeadsIn(ex, fs.tree, h) && !Exposed(ex, givenUp, h.path)
  }

  ghost predicate DoubtsCover(ex: Export, m: Mount) {
    && (forall i :: 0 <= i < |m.pending| ==> m.pending[i] in m.givenUp)
    && forall k :: k in m.handles && k !in m.doubted ==> Certain(ex, m.fs, m.givenUp, m.handles[k])
  }

  // A handle the request cannot have taken, going by the answer, is as certain as before.
  lemma SendKeepsCertain(ex: Export, m: Mount, request: Request, env: Env, link: Link, h: Handle)
    requires Served(ex.root, m.fs) && Certain(ex, m.fs, m.givenUp, h)
    requires !MayTake(ex, request, Send(ex, m.fs, request, env, link).1, h.path)
    ensures var (fs', answer) := Send(ex, m.fs, request, env, link);
            Certain(ex, fs', GivenUpAfter(m, request, answer), h)
  {
    hide Served, WellFormed, LeadsIn, Touches, DoRename, DoRemoveFile, DoRemoveDir;
    TakenExactly(ex, m.fs, request, env, h);
    if !link.LostBefore? && Takes(ex, m.fs, request, h) {
      TakenIsStruck(ex, m.fs, request, env, link, h);
    }
  }

  // The doubts an answer leaves cover what the request took.
  lemma TakenIsStruck(ex: Export, fs: Fs, request: Request, env: Env, link: Link, h: Handle)
    requires Served(ex.root, fs) && LeadsIn(ex, fs.tree, h) && !link.LostBefore? && Takes(ex, fs, request, h)
    ensures MayTake(ex, request, Send(ex, fs, request, env, link).1, h.path)
  {
    hide Served, WellFormed, DoRename, DoRemoveFile, DoRemoveDir;
    TakenExactly(ex, fs, request, env, h);
    if request.Rename? {
      PlaceResolves(ex, fs, request.newPath);
    }
  }

  lemma RenamedIsCertain(ex: Export, m: Mount, h: Handle, newFileName: string, replace: bool, env: Env, link: Link)
    requires Served(ex.root, m.fs) && LeadsIn(ex, m.fs.tree, h)
    requires Send(ex, m.fs, Rename(h.path, NtPathToRelative(newFileName), replace), env, link).1.Ok?
    ensures var (fs', h', _) := RenameHandle(ex, m.fs, h, newFileName, replace, env, link);
            LeadsIn(ex, fs'.tree, h')
  {
    hide DoRename, LeadsIn;
    RenameAndItsHandle(ex, m.fs, h, newFileName, replace, env, link);
    RenameSent(ex, m.fs, h.path, NtPathToRelative(newFileName), replace, env, link);
  }

  // The handle a callback opened, created or renamed.
  lemma NewPathIsCertain(ex: Export, m: Mount, c: Callback, env: Env, link: Link)
    requires Served(ex.root, m.fs) && Usable(m, c) && DoubtsCover(ex, m)
    requires c.OpenAs? || c.CreateAs? || (c.RenameTo? && Send(ex, m.fs, RequestOf(m, c).value, env, link).1.Ok?)
    ensures var m' := After(ex, m, Called(c, env, link));
            c.h in m'.handles && c.h !in m'.doubted ==> Certain(ex, m'.fs, m'.givenUp, m'.handles[c.h])
  {
    hide Served, Send, Exposed, MayTake;
    var request := RequestOf(m, c).value;
    var m' := After(ex, m, Called(c, env, link));
    if c.h in m'.handles && c.h !in m'.doubted {
      if c.RenameTo? {
        RenamedIsCertain(ex, m, m.handles[c.h], c.newFileName, c.replace, env, link);
      } else {
        MadeLeads(ex, m.fs, NtPathToRelative(c.fileName), request, env, link);
      }
    }
  }

  // Every other handle.
  lemma OthersStayCertain(ex: Export, m: Mount, c: Callback, env: Env, link: Link, k: nat)
    requires Served(ex.root, m.fs) && Usable(m, c) && DoubtsCover(ex, m) && RequestOf(m, c).Some? && k in m.handles
    requires (c.OpenAs? || c.CreateAs?) ==> k != c.h
    requires c.RenameTo? && k == c.h ==> Send(ex, m.fs, RequestOf(m, c).value, env, link).1.Err?
    ensures var m' := After(ex, m, Called(c, env, link));
            k in m'.handles && k !in m'.doubted ==> Certain(ex, m'.fs, m'.givenUp, m'.handles[k])
  {
    hide Served, Send, Exposed, MayTake, GivenUpAfter;
    var request := RequestOf(m, c).value;
    var m' := After(ex, m, Called(c, env, link));
    if k in m'.handles && k !in m'.doubted {
      assert k !in m.doubted && k !in Struck(ex, m, request, Send(ex, m.fs, request, env, link).1);
      SendKeepsCertain(ex, m, request, env, link, m.handles[k]);
    }
  }

  lemma CallKeepsCover(ex: Export, m: Mount, c: Callback, env: Env, link: Link)
    requires Served(ex.root, m.fs) && Usable(m, c) && DoubtsCover(ex, m) && RequestOf(m, c).Some?
    ensures DoubtsCover(ex, After(ex, m, Called(c, env, link)))
  {
    hide Served, Dispatch, Certain, DoubtsAfter;
    var m' := After(ex, m, Called(c, env, link));
    forall k | k in m'.handles && k !in m'.doubted ensures Certain(ex, m'.fs, m'.givenUp, m'.handles[k]) {
      if (c.OpenAs? || c.CreateAs?) && k == c.h {
        NewPathIsCertain(ex, m, c, env, link);
      } else if c.RenameTo? && k == c.h && Send(ex, m.fs, RequestOf(m, c).value, env, link).1.Ok? {
        NewPathIsCertain(ex, m, c, env, link);
      } else {
        OthersStayCertain(ex, m, c, env, link, k);
      }
    }
  }

  lemma QuietKeepsCover(ex: Export, m: Mount, c: Callback, env: Env, link: Link)
    requires Served(ex.root, m.fs) && Usable(m, c) && DoubtsCover(ex, m) && RequestOf(m, c).None?
    ensures DoubtsCover(ex, After(ex, m, Called(c, env, link)))
  {
    hide Served, Exposed;
  }

  lemma LateKeepsCover(ex: Export, m: Mount, i: nat, env: Env)
    requires Served(ex.root, m.fs) && i < |m.pending| && DoubtsCover(ex, m)
    ensures DoubtsCover(ex, After(ex, m, Late(i, env)))
  {
    hide Served, Dispatch, LeadsIn, Touches;
    forall k | k in m.handles && k !in m.doubted
      ensures LeadsIn(ex, Dispatch(ex, m.fs, m.pending[i], env).0.tree, m.handles[k])
    {
      assert Certain(ex, m.fs, m.givenUp, m.handles[k]) && m.pending[i] in m.givenUp;
      TakenExactly(ex, m.fs, m.pending[i], env, m.handles[k]);
    }
  }

  lemma AfterKeepsCover(ex: Export, m: Mount, e: Event)
    requires Served(ex.root, m.fs) && Sensible(m, e) && DoubtsCover(ex, m)
    ensures DoubtsCover(ex, After(ex, m, e))
  {
    hide Served, DoubtsCover, After, Dispatch;
    match e {
      case Late(i, env) => LateKeepsCover(ex, m, i, env);
      case Called(c, env, link) =>
        if RequestOf(m, c).Some? {
          CallKeepsCover(ex, m, c, env, link);
        } else {
          QuietKeepsCover(ex, m, c, env, link);
        }
    }
  }

  // ---- Runs ----

  ghost predicate Possible(ex: Export, m: Mount, events: seq<Event>)
    requires Served(ex.root, m.fs)
    decreases |events|
  {
    events == [] ||
    (Sensible(m, events[0]) && (AfterIsServed(ex, m, events[0]); Possible(ex, After(ex, m, events[0]), events[1..])))
  }

  ghost function Final(ex: Export, m: Mount, events: seq<Event>): Mount
    requires Served(ex.root, m.fs) && Possible(ex, m, events)
    decreases |events|
  {
    if events == [] then m
    else
      AfterIsServed(ex, m, events[0]);
      Final(ex, After(ex, m, events[0]), events[1..])
  }

  lemma RunFrom(ex: Export, m: Mount, e: Event, rest: seq<Event>)
    requires Served(ex.root, m.fs) && Sensible(m, e)
    ensures Served(ex.root, After(ex, m, e).fs)
    ensures Possible(ex, After(ex, m, e), rest) ==>
              Possible(ex, m, [e] + rest) && Final(ex, m, [e] + rest) == Final(ex, After(ex, m, e), rest)
  {
    hide Served, After;
    AfterIsServed(ex, m, e);
    assert ([e] + rest)[1..] == rest;
  }

  lemma {:induction false} RunKeepsCover(ex: Export, m: Mount, events: seq<Event>)
    requires Served(ex.root, m.fs) && Possible(ex, m, events) && DoubtsCover(ex, m)
    ensures DoubtsCover(ex, Final(ex, m, events))
    decreases |events|
  {
    hide Served, DoubtsCover, After;
    if events != [] {
      AfterIsServed(ex, m, events[0]);
      AfterKeepsCover(ex, m, events[0]);
      RunKeepsCover(ex, After(ex, m, events[0]), events[1..]);
    }
  }

  // In every run whatever, with connections lost at any point and lost requests run at any later
  // time or never, every open handle the client has no reason to doubt leads to the node it was
  // opened or created on.
  lemma HandlesTrackTheirNodes(ex: Export, fs: Fs, events: seq<Event>)
    requires Served(ex.root, fs) && Possible(ex, NewMount(fs), events)
    ensures var m := Final(ex, NewMount(fs), events);
            forall k :: k in m.handles && k !in m.doubted ==> LeadsIn(ex, m.fs.tree, m.handles[k])
  {
    hide Served, After, LeadsIn, Possible, Final;
    RunKeepsCover(ex, NewMount(fs), events);
  }

  // The request removes or moves what lies at the path, or puts something in its place.
  predicate Strikes(ex: Export, request: Request, p: Path) {
    || ((request.RemoveFile? || request.RemoveDir?) && Joined(ex.root, request.path) == Ok(p))
    || (request.Rename? && Joined(ex.root, request.path).Ok? && Joined(ex.root, request.path).value <= p)
    || (request.Rename? && request.replaceIfExists && Joined(ex.root, request.newPath).Ok? && Joined(ex.root, request.newPath).value <= p)
  }

  // A doubt is raised only with cause: a request the callback sent strikes the handle's path, and
  // was not refused, or replaces; or one given up on strikes where the handle was just put.
  lemma DoubtsHaveCause(ex: Export, m: Mount, c: Callback, env: Env, link: Link, k: nat)
    requires Served(ex.root, m.fs) && Usable(m, c)
    ensures var m' := After(ex, m, Called(c, env, link));
            k in m'.doubted && k !in m.doubted ==>
              && RequestOf(m, c).Some?
              && var request := RequestOf(m, c).value;
                 var refused := link.Up? && Dispatch(ex, m.fs, request, env).1.Err?;
                 || (k in m.handles && Joined(ex.root, m.handles[k].path).Ok? && Strikes(ex, request, Joined(ex.root, m.handles[k].path).value)
                     && (refused ==> request.Rename? && request.replaceIfExists))
                 || (k in m'.handles && Joined(ex.root, m'.handles[k].path).Ok?
                     && exists r :: r in m'.givenUp && Strikes(ex, r, Joined(ex.root, m'.handles[k].path).value))
  {
    hide Served, Dispatch, Joined;
    var m' := After(ex, m, Called(c, env, link));
    if k in m'.handles && Exposed(ex, m'.givenUp, m'.handles[k].path) {
      var r :| r in m'.givenUp && Touches(ex, r, m'.handles[k].path);
      assert Strikes(ex, r, Joined(ex.root, m'.handles[k].path).value);
    }
  }

  // ---- Keeping doubts away ----

  // Opens and creates stay clear of paths a request given up on could strike; renames are answered,
  // go to such clear paths, and like deletes strike no other handle.
  ghost predicate Careful(ex: Export, m: Mount, e: Event)
    requires Sensible(m, e)
  {
    match e
    case Late(_, _) => true
    case Called(c, _, link) =>
      match c
      case OpenAs(_, fileName) => !Exposed(ex, m.givenUp, NtPathToRelative(fileName))
      case CreateAs(_, fileName, _, _, _) => !Exposed(ex, m.givenUp, NtPathToRelative(fileName))
      case RenameTo(h, newFileName, replace) =>
        var newPath := NtPathToRelative(newFileName);
        && link.Up? && OthersUntouched(ex, m, h, Rename(m.handles[h].path, newPath, replace))
        && !(replace && Place(ex, newPath).Ok? && AtOrBelow(ex, m.handles[h].path, Place(ex, newPath).value))
        && !Exposed(ex, m.givenUp, newPath)
      case Cleanup(h, _) => RequestOf(m, c).Some? ==> OthersUntouched(ex, m, h, RequestOf(m, c).value)
      case _ => true
  }

  ghost predicate OthersUntouched(ex: Export, m: Mount, h: nat, request: Request) {
    forall k :: k in m.handles && k != h ==> !Touches(ex, request, m.handles[k].path)
  }

  lemma CarefulRaisesNoDoubt(ex: Export, m: Mount, e: Event)
    requires Served(ex.root, m.fs) && Sensible(m, e) && Careful(ex, m, e) && m.doubted == {}
    ensures After(ex, m, e).doubted == {}
  {
    hide Served, Dispatch, Place;
  }

  ghost predicate CarefulRun(ex: Export, m: Mount, events: seq<Event>)
    requires Served(ex.root, m.fs)
    decreases |events|
  {
    events == [] ||
    (&& Sensible(m, events[0]) && Careful(ex, m, events[0])
     && (AfterIsServed(ex, m, events[0]); CarefulRun(ex, After(ex, m, events[0]), events[1..])))
  }

  lemma {:induction false} CarefulRunRaisesNoDoubt(ex: Export, m: Mount, events: seq<Event>)
    requires Served(ex.root, m.fs) && CarefulRun(ex, m, events) && m.doubted == {}
    ensures Possible(ex, m, events) && Final(ex, m, events).doubted == {}
    decreases |events|
  {
    hide Served, After, Careful;
    if events != [] {
      AfterIsServed(ex, m, events[0]);
      CarefulRaisesNoDoubt(ex, m, events[0]);
      CarefulRunRaisesNoDoubt(ex, After(ex, m, events[0]), events[1..]);
    }
  }

  // So in a careful run every open handle leads to its node, late requests notwithstanding.
  lemma CarefulHandlesTrack(ex: Export, fs: Fs, events: seq<Event>)
    requires Served(ex.root, fs) && CarefulRun(ex, NewMount(fs), events)
    ensures Possible(ex, NewMount(fs), events)
    ensures var m := Final(ex, NewMount(fs), events);
            forall k :: k in m.handles ==> LeadsIn(ex, m.fs.tree, m.handles[k])
  {
    hide Served, After, LeadsIn, Possible, Final, CarefulRun;
    CarefulRunRaisesNoDoubt(ex, NewMount(fs), events);
    HandlesTrackTheirNodes(ex, fs, events);
  }

  // ---- The doubts are needed ----

  // A handle opened where a pending request would take the node is doubted, and rightly: that
  // request may be run next, and the handle leads to its node no more.
  lemma OpenOntoPendingLoses(ex: Export, m: Mount, h: nat, fileName: string, env: Env, i: nat, env': Env)
    requires Served(ex.root, m.fs) && DoubtsCover(ex, m) && h !in m.handles && i < |m.pending|
    requires OpenHandle(ex, m.fs, fileName, env, Up).1.Ok?
    requires Takes(ex, m.fs, m.pending[i], OpenHandle(ex, m.fs, fileName, env, Up).1.value)
    ensures var opening, late := Called(OpenAs(h, fileName), env, Up), Late(i, env');
            var m1 := After(ex, m, opening);
            && Served(ex.root, m1.fs) && Sensible(m1, late) && h in m1.doubted && h in m1.handles
            && LeadsIn(ex, m1.fs.tree, m1.handles[h])
            && var m2 := After(ex, m1, late);
               h in m2.handles && h in m2.doubted && !LeadsIn(ex, m2.fs.tree, m2.handles[h])
  {
    hide Served, Dispatch, Takes, Touches, DoStat;
    var opening := Called(OpenAs(h, fileName), env, Up);
    AfterIsServed(ex, m, opening);
    OpeningKeepsDisk(ex, m.fs, fileName, env);
    MadeLeads(ex, m.fs, NtPathToRelative(fileName), Stat(NtPathToRelative(fileName)), env, Up);
    var made := OpenHandle(ex, m.fs, fileName, env, Up).1.value;
    TakenExactly(ex, m.fs, m.pending[i], env', made);
    assert m.pending[i] in m.givenUp;
  }

  lemma OpeningKeepsDisk(ex: Export, fs: Fs, fileName: string, env: Env)
    requires Served(ex.root, fs)
    ensures OpenHandle(ex, fs, fileName, env, Up).0 == fs && Send(ex, fs, Stat(NtPathToRelative(fileName)), env, Up).0 == fs
  {
  }

  // For one: a delete given up on, the file opened again under its name, and the delete run at last.
  lemma LostDeleteHitsReopened(ex: Export, m: Mount, h: nat, h': nat, fileName: string, kind: IoKind, text: string, env: Env)
    requires Served(ex.root, m.fs) && DoubtsCover(ex, m) && h in m.handles && h' !in m.handles
    requires m.handles[h].deletePending && m.handles[h].kind.File?
    requires Place(ex, NtPathToRelative(fileName)) == Place(ex, m.handles[h].path)
    requires LeadsIn(ex, m.fs.tree, m.handles[h]) && m.fs.tree[Place(ex, m.handles[h].path).value].FileNode?
    ensures var events := [Called(Cleanup(h, false), env, LostBefore(kind, text)), Called(OpenAs(h', fileName), env, Up), Late(|m.pending|, env)];
            && Possible(ex, m, events)
            && var m3 := Final(ex, m, events);
               h' in m3.handles && h' in m3.doubted && !LeadsIn(ex, m3.fs.tree, m3.handles[h'])
  {
    hide Served, Dispatch, After, Possible, Final, DoubtsCover, LeadsIn, Takes, OpenHandle;
    var lost, opening, late := Called(Cleanup(h, false), env, LostBefore(kind, text)), Called(OpenAs(h', fileName), env, Up), Late(|m.pending|, env);
    AfterIsServed(ex, m, lost);
    AfterKeepsCover(ex, m, lost);
    var m1 := After(ex, m, lost);
    CleanupGivenUp(ex, m, h, env, kind, text);
    OpensAndIsTaken(ex, m, h, fileName, env);
    OpenOntoPendingLoses(ex, m1, h', fileName, env, |m.pending|, env);
    var m2 := After(ex, m1, opening);
    NoMore(ex, m2, late);
    RunFrom(ex, m1, opening, [late]);
    RunFrom(ex, m, lost, [opening, late]);
    assert [opening] + [late] == [opening, late] && [lost] + [opening, late] == [lost, opening, late];
  }

  lemma NoMore(ex: Export, m: Mount, e: Event)
    requires Served(ex.root, m.fs) && Sensible(m, e)
    ensures Possible(ex, m, [e]) && Final(ex, m, [e]) == After(ex, m, e)
  {
    hide Served, After;
    RunFrom(ex, m, e, []);
    assert [e] + [] == [e];
  }

  lemma CleanupGivenUp(ex: Export, m: Mount, h: nat, env: Env, kind: IoKind, text: string)
    requires Served(ex.root, m.fs) && h in m.handles && m.handles[h].deletePending
    ensures var m1 := After(ex, m, Called(Cleanup(h, false), env, LostBefore(kind, text)));
            m1.fs == m.fs && m1.handles == m.handles - {h} && m1.pending == m.pending + [RemovalOf(m.handles[h])]
  {
    hide Served, Dispatch;
  }

  lemma OpensAndIsTaken(ex: Export, m: Mount, h: nat, fileName: string, env: Env)
    requires Served(ex.root, m.fs) && h in m.handles && m.handles[h].kind.File?
    requires Place(ex, NtPathToRelative(fileName)) == Place(ex, m.handles[h].path)
    requires LeadsIn(ex, m.fs.tree, m.handles[h]) && m.fs.tree[Place(ex, m.handles[h].path).value].FileNode?
    ensures var made := OpenHandle(ex, m.fs, fileName, env, Up).1;
            made.Ok? && Takes(ex, m.fs, RemovalOf(m.handles[h]), made.value)
  {
    hide WellFormed;
    ServedIsSized(ex.root, m.fs);
    PlaceResolves(ex, m.fs, m.handles[h].path);
    PlaceResolves(ex, m.fs, NtPathToRelative(fileName));
    LookupFinds(m.fs, Place(ex, m.handles[h].path).value);
  }

  // The same for a handle created there.
  lemma CreateOntoPendingLoses(ex: Export, m: Mount, h: nat, fileName: string, options: u32, attributes: u32, allocation: u64, env: Env, i: nat, env': Env)
    requires Served(ex.root, m.fs) && DoubtsCover(ex, m) && h !in m.handles && i < |m.pending|
    requires CreateHandle(ex, m.fs, fileName, options, attributes, allocation, env, Up).1.Ok?
    ensures var creating, late := Called(CreateAs(h, fileName, options, attributes, allocation), env, Up), Late(i, env');
            var m1 := After(ex, m, creating);
            && Served(ex.root, m1.fs) && Sensible(m1, late) && h in m1.handles && LeadsIn(ex, m1.fs.tree, m1.handles[h])
            && (Takes(ex, m1.fs, m.pending[i], m1.handles[h]) ==>
                  h in m1.doubted
                  && var m2 := After(ex, m1, late);
                     h in m2.handles && h in m2.doubted && !LeadsIn(ex, m2.fs.tree, m2.handles[h]))
  {
    hide Served, Dispatch, Takes, Touches, DoCreate;
    var creating := Called(CreateAs(h, fileName, options, attributes, allocation), env, Up);
    AfterIsServed(ex, m, creating);
    MadeLeads(ex, m.fs, NtPathToRelative(fileName), RequestOf(m, creating.callback).value, env, Up);
    var m1 := After(ex, m, creating);
    TakenExactly(ex, m1.fs, m.pending[i], env', m1.handles[h]);
    assert m.pending[i] in m.givenUp;
  }

  // For one: a removal of a file given up on, repeated and answered perhaps, a new file created
  // under the name, and the removal run at last.
  lemma LateRemovalTakesNewFile(ex: Export, m: Mount, h: nat, fileName: string, options: u32, attributes: u32, allocation: u64, env: Env, i: nat, env': Env)
    requires Served(ex.root, m.fs) && DoubtsCover(ex, m) && h !in m.handles && i < |m.pending|
    requires m.pending[i].RemoveFile? && Place(ex, m.pending[i].path) == Place(ex, NtPathToRelative(fileName))
    requires CreateHandle(ex, m.fs, fileName, options, attributes, allocation, env, Up).1.Ok? && CreateKind(options).File?
    ensures var creating, late := Called(CreateAs(h, fileName, options, attributes, allocation), env, Up), Late(i, env');
            && Possible(ex, m, [creating, late])
            && var m2 := Final(ex, m, [creating, late]);
               h in m2.handles && h in m2.doubted && !LeadsIn(ex, m2.fs.tree, m2.handles[h])
  {
    hide Served, Dispatch, DoubtsCover, LeadsIn, Takes, Possible, Final, After, CreateHandle;
    var creating, late := Called(CreateAs(h, fileName, options, attributes, allocation), env, Up), Late(i, env');
    CreateOntoPendingLoses(ex, m, h, fileName, options, attributes, allocation, env, i, env');
    NewFileIsTaken(ex, m, h, fileName, options, attributes, allocation, env, m.pending[i]);
    NoMore(ex, After(ex, m, creating), late);
    RunFrom(ex, m, creating, [late]);
    assert [creating] + [late] == [creating, late];
  }

  lemma NewFileIsTaken(ex: Export, m: Mount, h: nat, fileName: string, options: u32, attributes: u32, allocation: u64, env: Env, removal: Request)
    requires Served(ex.root, m.fs) && h !in m.handles
    requires removal.RemoveFile? && Place(ex, removal.path) == Place(ex, NtPathToRelative(fileName))
    requires CreateHandle(ex, m.fs, fileName, options, attributes, allocation, env, Up).1.Ok? && CreateKind(options).File?
    ensures var m1 := After(ex, m, Called(CreateAs(h, fileName, options, attributes, allocation), env, Up));
            Served(ex.root, m1.fs) && h in m1.handles && Takes(ex, m1.fs, removal, m1.handles[h])
  {
    hide WellFormed, DoubtsAfter;
    var creating := Called(CreateAs(h, fileName, options, attributes, allocation), env, Up);
    var path := NtPathToRelative(fileName);
    AfterIsServed(ex, m, creating);
    var m1 := After(ex, m, creating);
    MadeLeads(ex, m.fs, path, RequestOf(m, creating.callback).value, env, Up);
    CreatedIsFile(ex, m.fs, path, attributes, allocation, env);
    PlaceResolves(ex, m1.fs, removal.path);
    LookupFinds(m1.fs, Place(ex, path).value);
  }

  lemma CreatedIsFile(ex: Export, fs: Fs, path: string, attributes: u32, allocation: u64, env: Env)
    requires Served(ex.root, fs) && WantAttr(Send(ex, fs, Create(path, File, attributes, allocation), env, Up).1).Ok?
    ensures Laws.NamesFile(ex, Send(ex, fs, Create(path, File, attributes, allocation), env, Up).0, path)
  {
    PlaceResolves(ex, fs, path);
  }

  // ---- A late write ----

  // The write of a constrained callback is given up on; the file is then emptied, which is answered;
  // and the write run at last makes it larger again, up to the end of the cut. On a file of one byte
  // the sizes seen are 1, 0 and 1.
  lemma LateConstrainedWriteResizes(ex: Export, m: Mount, path: string, payload: seq<byte>, offset: u64, kind: IoKind, text: string, env: Env)
    requires Served(ex.root, m.fs) && Laws.NamesFile(ex, m.fs, path)
    requires Laws.FileSizeAt(ex, m.fs, path) <= MAX_FILE && payload != []
    requires ConstrainedPayload(payload, offset, Laws.FileSizeAt(ex, m.fs, path)).Some?
    ensures var cut := ConstrainedPayload(payload, offset, Laws.FileSizeAt(ex, m.fs, path)).value;
            var writing := Called(Through(Write(path, offset, cut, false)), env, LostBefore(kind, text));
            var emptying := Called(Through(SetLen(path, 0, false)), env, Up);
            var late := Late(|m.pending|, env);
            && Possible(ex, m, [writing, emptying]) && Possible(ex, m, [writing, emptying, late])
            && Laws.NamesFile(ex, Final(ex, m, [writing, emptying]).fs, path)
            && Laws.NamesFile(ex, Final(ex, m, [writing, emptying, late]).fs, path)
            && Laws.FileSizeAt(ex, Final(ex, m, [writing, emptying]).fs, path) == 0
            && Laws.FileSizeAt(ex, Final(ex, m, [writing, emptying, late]).fs, path) == offset + |cut| > 0
  {
    hide Served, Dispatch, Possible, Final, After, Laws.FileSizeAt, Laws.NamesFile;
    var cut := ConstrainedPayload(payload, offset, Laws.FileSizeAt(ex, m.fs, path)).value;
    var writing := Called(Through(Write(path, offset, cut, false)), env, LostBefore(kind, text));
    var emptying := Called(Through(SetLen(path, 0, false)), env, Up);
    var late := Late(|m.pending|, env);
    WriteGivenUp(ex, m, path, offset, cut, kind, text, env);
    var m1 := After(ex, m, writing);
    AfterIsServed(ex, m, writing);
    Emptied(ex, m1, path, env);
    var m2 := After(ex, m1, emptying);
    AfterIsServed(ex, m1, emptying);
    LateWriteGrows(ex, m2, |m.pending|, env);
    NoMore(ex, m1, emptying);
    NoMore(ex, m2, late);
    RunFrom(ex, m, writing, [emptying]);
    RunFrom(ex, m1, emptying, [late]);
    RunFrom(ex, m, writing, [emptying, late]);
    assert [writing] + [emptying] == [writing, emptying] && [emptying] + [late] == [emptying, late];
    assert [writing] + [emptying, late] == [writing, emptying, late];
  }

  lemma WriteGivenUp(ex: Export, m: Mount, path: string, offset: u64, data: seq<byte>, kind: IoKind, text: string, env: Env)
    requires Served(ex.root, m.fs)
    ensures var m1 := After(ex, m, Called(Through(Write(path, offset, data, false)), env, LostBefore(kind, text)));
            m1.fs == m.fs && m1.pending == m.pending + [Write(path, offset, data, false)]
  {
    hide Served, Dispatch;
  }

  lemma Emptied(ex: Export, m: Mount, path: string, env: Env)
    requires Served(ex.root, m.fs) && Laws.NamesFile(ex, m.fs, path)
    ensures var m' := After(ex, m, Called(Through(SetLen(path, 0, false)), env, Up));
            m'.pending == m.pending && Laws.NamesFile(ex, m'.fs, path) && Laws.FileSizeAt(ex, m'.fs, path) == 0
  {
    hide Served, DoSetLen;
    PlaceResolves(ex, m.fs, path);
    FileLaws.SetLenStep(ex.root, m.fs, path, 0, env, Place(ex, path).value);
  }

  lemma LateWriteGrows(ex: Export, m: Mount, i: nat, env: Env)
    requires Served(ex.root, m.fs) && i < |m.pending| && m.pending[i].Write? && !m.pending[i].writeToEof
    requires Laws.NamesFile(ex, m.fs, m.pending[i].path) && Laws.FileSizeAt(ex, m.fs, m.pending[i].path) == 0
    requires m.pending[i].data != [] && m.pending[i].offset + |m.pending[i].data| <= MAX_FILE
    ensures var m' := After(ex, m, Late(i, env));
            && Laws.NamesFile(ex, m'.fs, m.pending[i].path)
            && Laws.FileSizeAt(ex, m'.fs, m.pending[i].path) == m.pending[i].offset + |m.pending[i].data|
  {
    hide Served, DoWrite;
    var Write(path, offset, data, _) := m.pending[i];
    PlaceResolves(ex, m.fs, path);
    FileLaws.WriteStep(ex.root, m.fs, path, offset, data, false, env, Place(ex, path).value);
    FileLaws.SpliceAt(m.fs.tree[Place(ex, path).value].data, offset, data);
    assert data[..|data|] == data;
  }
}
