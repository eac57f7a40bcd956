/** The lifecycle of native handles in the language bindings. Client and stream wrappers count their
    calls in flight under a mutex, and closing frees the native handle only when the count is zero.
    A state holds any number of threads, wrappers and native handles; an action is one step of one
    thread, so a run is an arbitrary interleaving. */
module Handles {
  import opened Common

  datatype Kind = ClientHandle | StreamHandle(client: nat)

  /** What the native library knows of a handle: `freed` counts the successful frees. */
  datatype Native = Native(kind: Kind, freed: nat)

  /** A client or stream object; `open` says that its handle field is not null. */
  datatype Wrapper = Wrapper(native: nat, open: bool, inFlight: int, holder: Option<nat>)

  datatype Op = Blocking | Start

  /** Where a thread is inside a method of a wrapper. */
  datatype Point =
    | EnterWait(op: Op)
    | EnterHeld(op: Op)
    | EnterCounted(op: Op)
    | Calling(op: Op)
    | InNative(op: Op, handle: Option<nat>)
    | Returned(created: Option<nat>)
    | LeaveWait
    | LeaveHeld
    | CloseWait
    | CloseHeld
    | CloseFree
    | CloseFreed
    | Unlocking

  datatype Pc = Pc(wrapper: nat, point: Point)

  /** Threads that are outside every method are not in `pcs`. */
  datatype State = State(pcs: map<nat, Pc>, wrappers: map<nat, Wrapper>, natives: map<nat, Native>)

  datatype Action =
    | NewClient(wrapper: nat, handle: nat)
    | Begin(wrapper: nat, op: Op)
    | BeginClose(wrapper: nat)
    | Lock
    | Proceed
    | NativeReturns(stream: Option<nat>)
    | MakeStream(wrapper: nat)
    | FreeFails
    | FreeSucceeds

  predicate Holds(p: Point) {
    p.EnterHeld? || p.EnterCounted? || p.LeaveHeld? || p.CloseHeld? || p.CloseFree? || p.CloseFreed? || p.Unlocking?
  }

  /** Between the increment and the decrement of the counter. */
  predicate Counted(p: Point) {
    p.EnterCounted? || p.Calling? || p.InNative? || p.Returned? || p.LeaveWait? || p.LeaveHeld?
  }

  // ----- the steps -----

  function MoveTo(s: State, t: nat, w: nat, p: Point): State {
    s.(pcs := s.pcs[t := Pc(w, p)])
  }

  function WithWrapper(s: State, w: nat, wrapper: Wrapper): State {
    s.(wrappers := s.wrappers[w := wrapper])
  }

  function Leave(s: State, t: nat): State {
    s.(pcs := s.pcs - {t})
  }

  /** No live stream belongs to this client. */
  predicate NoLiveStreams(s: State, client: nat) {
    forall h :: h in s.natives && s.natives[h].kind == StreamHandle(client) ==> s.natives[h].freed > 0
  }

  function TakeLock(s: State, t: nat, pc: Pc): Option<State>
    requires pc.wrapper in s.wrappers
  {
    var w := s.wrappers[pc.wrapper];
    if w.holder.Some? then None
    else
      var locked := WithWrapper(s, pc.wrapper, w.(holder := Some(t)));
      match pc.point
      case EnterWait(op) => Some(MoveTo(locked, t, pc.wrapper, EnterHeld(op)))
      case LeaveWait => Some(MoveTo(locked, t, pc.wrapper, LeaveHeld))
      case CloseWait => Some(MoveTo(locked, t, pc.wrapper, CloseHeld))
      case _ => None
  }

  function Continue(s: State, t: nat, pc: Pc): Option<State>
    requires pc.wrapper in s.wrappers
  {
    var id := pc.wrapper;
    var w := s.wrappers[id];
    match pc.point
    case EnterHeld(op) =>
      if !w.open then Some(MoveTo(s, t, id, Unlocking))
      else Some(MoveTo(WithWrapper(s, id, w.(inFlight := w.inFlight + 1)), t, id, EnterCounted(op)))
    case EnterCounted(op) => Some(MoveTo(WithWrapper(s, id, w.(holder := None)), t, id, Calling(op)))
    case Calling(op) => Some(MoveTo(s, t, id, InNative(op, if w.open then Some(w.native) else None)))
    case Returned(created) => if created.Some? then None else Some(MoveTo(s, t, id, LeaveWait))
    case LeaveHeld => Some(MoveTo(WithWrapper(s, id, w.(inFlight := w.inFlight - 1)), t, id, Unlocking))
    case CloseHeld => Some(MoveTo(s, t, id, if !w.open || w.inFlight > 0 then Unlocking else CloseFree))
    case CloseFreed => Some(MoveTo(WithWrapper(s, id, w.(open := false)), t, id, Unlocking))
    case Unlocking => Some(Leave(WithWrapper(s, id, w.(holder := None)), t))
    case _ => None
  }

  /** The native call ends; starting a stream may have created one. */
  function Return(s: State, t: nat, pc: Pc, stream: Option<nat>): Option<State> {
    if !pc.point.InNative? then None
    else if stream == None then Some(MoveTo(s, t, pc.wrapper, Returned(None)))
    else if pc.point.op != Start || pc.point.handle == None || stream.value in s.natives then None
    else
      var native := Native(StreamHandle(pc.point.handle.value), 0);
      Some(MoveTo(s.(natives := s.natives[stream.value := native]), t, pc.wrapper, Returned(stream)))
  }

  /** The native library refuses to free a client that has live streams. */
  function Free(s: State, t: nat, pc: Pc): Option<State>
    requires pc.wrapper in s.wrappers
  {
    var h := s.wrappers[pc.wrapper].native;
    if !pc.point.CloseFree? || h !in s.natives then None
    else if s.natives[h].kind == ClientHandle && !NoLiveStreams(s, h) then None
    else
      var native := s.natives[h];
      Some(MoveTo(s.(natives := s.natives[h := native.(freed := native.freed + 1)]), t, pc.wrapper, CloseFreed))
  }

  function Do(s: State, t: nat, a: Action): Option<State> {
    if t !in s.pcs then
      match a
      case NewClient(w, h) =>
        if w in s.wrappers || h in s.natives then None
        else Some(WithWrapper(s.(natives := s.natives[h := Native(ClientHandle, 0)]), w, Wrapper(h, true, 0, None)))
      case Begin(w, op) =>
        if w !in s.wrappers || s.wrappers[w].native !in s.natives then None
        else if op == Start && s.natives[s.wrappers[w].native].kind != ClientHandle then None
        else Some(MoveTo(s, t, w, EnterWait(op)))
      case BeginClose(w) => if w !in s.wrappers then None else Some(MoveTo(s, t, w, CloseWait))
      case _ => None
    else
      var pc := s.pcs[t];
      if pc.wrapper !in s.wrappers then None
      else
        match a
        case Lock => TakeLock(s, t, pc)
        case Proceed => Continue(s, t, pc)
        case NativeReturns(stream) => Return(s, t, pc, stream)
        case MakeStream(w) =>
          if w in s.wrappers || !pc.point.Returned? || pc.point.created == None then None
          else Some(MoveTo(WithWrapper(s, w, Wrapper(pc.point.created.value, true, 0, None)), t, pc.wrapper, Returned(None)))
        case FreeFails => if pc.point.CloseFree? then Some(MoveTo(s, t, pc.wrapper, Unlocking)) else None
        case FreeSucceeds => Free(s, t, pc)
        case _ => None
  }

  // ----- the invariant -----

  /** The threads between acquire and release on a wrapper. */
  function Users(pcs: map<nat, Pc>, w: nat): set<nat> {
    set t | t in pcs && pcs[t].wrapper == w && Counted(pcs[t].point)
  }

  /** The mutex of a wrapper is held by the one thread that is in a critical section of it. */
  predicate Locks(s: State) {
    && (forall t :: t in s.pcs ==> s.pcs[t].wrapper in s.wrappers)
    && (forall t :: t in s.pcs && Holds(s.pcs[t].point) ==> s.wrappers[s.pcs[t].wrapper].holder == Some(t))
    && (forall w :: w in s.wrappers && s.wrappers[w].holder.Some? ==>
          var t := s.wrappers[w].holder.value;
          t in s.pcs && s.pcs[t].wrapper == w && Holds(s.pcs[t].point))
  }

  predicate Counts(s: State) {
    forall w :: w in s.wrappers ==> s.wrappers[w].inFlight == |Users(s.pcs, w)|
  }

  /** Wrappers own distinct native handles. */
  predicate Owners(s: State) {
    && (forall w :: w in s.wrappers ==> s.wrappers[w].native in s.natives)
    && (forall v, w :: v in s.wrappers && w in s.wrappers && v != w ==> s.wrappers[v].native != s.wrappers[w].native)
  }

  /** A stream that was created but has no wrapper yet belongs to one thread. */
  predicate Pending(s: State) {
    && (forall t :: t in s.pcs && s.pcs[t].point.Returned? && s.pcs[t].point.created.Some? ==>
          s.pcs[t].point.created.value in s.natives && s.natives[s.pcs[t].point.created.value].freed == 0)
    && (forall t, w :: t in s.pcs && s.pcs[t].point.Returned? && w in s.wrappers ==>
          s.pcs[t].point.created != Some(s.wrappers[w].native))
    && (forall t, u :: t in s.pcs && u in s.pcs && t != u && s.pcs[t].point.Returned? && s.pcs[u].point.Returned? ==>
          s.pcs[t].point.created == None || s.pcs[t].point.created != s.pcs[u].point.created)
  }

  /** In what state a wrapper and its handle are, as seen from a thread inside one of its methods. */
  predicate PointValid(p: Point, w: Wrapper, native: Native) {
    && (Counted(p) ==> w.open && native.freed == 0)
    && (p.InNative? ==> p.handle == Some(w.native))
    && (p.CloseFree? ==> w.open && native.freed == 0 && w.inFlight == 0)
    && (p.CloseFreed? ==> w.open && native.freed == 1 && w.inFlight == 0)
  }

  predicate Points(s: State)
    requires Locks(s) && Owners(s)
  {
    forall t :: t in s.pcs ==>
      var w := s.wrappers[s.pcs[t].wrapper];
      PointValid(s.pcs[t].point, w, s.natives[w.native])
  }

  /** A handle is freed exactly when its wrapper is closed, up to the step that clears the field. */
  predicate Closed(s: State)
    requires Owners(s)
  {
    forall w :: w in s.wrappers ==>
      var x := s.wrappers[w];
      && (!x.open ==> s.natives[x.native].freed == 1)
      && (x.open && s.natives[x.native].freed != 0 ==>
            x.holder.Some? && x.holder.value in s.pcs && s.pcs[x.holder.value] == Pc(w, CloseFreed))
  }

  /** Streams are started on clients. */
  predicate Starts(s: State)
    requires Locks(s) && Owners(s)
  {
    forall t :: t in s.pcs && StartAt(s.pcs[t].point) ==>
      s.natives[s.wrappers[s.pcs[t].wrapper].native].kind == ClientHandle
  }

  /** No handle is freed twice, and a live stream belongs to a live client. */
  predicate Streams(s: State) {
    forall h :: h in s.natives ==>
      && s.natives[h].freed <= 1
      && (s.natives[h].kind.StreamHandle? ==>
            var c := s.natives[h].kind.client;
            c in s.natives && s.natives[c].kind == ClientHandle && (s.natives[h].freed == 0 ==> s.natives[c].freed == 0))
  }

  predicate Inv(s: State) {
    Locks(s) && Counts(s) && Owners(s) && Pending(s) && Points(s) && Closed(s) && Starts(s) && Streams(s)
  }

  // ----- every step keeps the invariant -----

  function Share(pcs: map<nat, Pc>, t: nat, w: nat): nat {
    if t in pcs && pcs[t].wrapper == w && Counted(pcs[t].point) then 1 else 0
  }

  lemma UsersWithout(pcs: map<nat, Pc>, t: nat, w: nat)
    ensures |Users(pcs, w)| == |Users(pcs - {t}, w)| + Share(pcs, t, w)
  {
    var all, rest := Users(pcs, w), Users(pcs - {t}, w);
    if t in all {
      assert all == rest + {t};
    } else {
      assert all == rest;
    }
  }

  lemma NoUsers(s: State, w: nat)
    requires w in s.wrappers && Counts(s) && s.wrappers[w].inFlight == 0
    ensures forall t :: t in s.pcs && s.pcs[t].wrapper == w ==> !Counted(s.pcs[t].point)
  {
    forall t | t in s.pcs && s.pcs[t].wrapper == w ensures !Counted(s.pcs[t].point) {
      assert Users(s.pcs, w) == {};
      assert t !in Users(s.pcs, w);
    }
  }

  predicate HoldsAt(p: Option<Point>) {
    p.Some? && Holds(p.value)
  }

  function CountAt(p: Option<Point>): nat {
    if p.Some? && Counted(p.value) then 1 else 0
  }

  predicate StartAt(p: Point) {
    match p
    case EnterWait(op) => op == Start
    case EnterHeld(op) => op == Start
    case EnterCounted(op) => op == Start
    case Calling(op) => op == Start
    case InNative(op, _) => op == Start
    case _ => false
  }

  function Holder(t: nat, from: Option<Point>, to: Option<Point>, holder: Option<nat>): Option<nat> {
    if HoldsAt(to) then Some(t) else if HoldsAt(from) then None else holder
  }

  /** What one step of thread `t` inside a method does to the wrapper and its handle. */
  predicate Local(t: nat, from: Option<Point>, to: Option<Point>, w: Wrapper, w2: Wrapper, n: Native, n2: Native) {
    && w2.native == w.native && n2.kind == n.kind
    && w2.holder == Holder(t, from, to, w.holder)
    && (HoldsAt(to) && !HoldsAt(from) ==> w.holder == None)
    && w2.inFlight == w.inFlight - CountAt(from) + CountAt(to)
    && (w2.inFlight != w.inFlight ==> HoldsAt(from))
    && (w2.open == w.open || (w.open && from == Some(CloseFreed)))
    && (n2 == n || (n.freed == 0 && n2.freed == 1 && from == Some(CloseFree) && to == Some(CloseFreed)))
    && (to.Some? ==> PointValid(to.value, w2, n2))
    && (to.Some? && StartAt(to.value) ==> n.kind == ClientHandle)
    && (!w2.open ==> n2.freed == 1)
    && (w2.open && n2.freed != 0 ==> to == Some(CloseFreed) || (w2 == w && n2 == n && w.holder != Some(t)))
  }

  /** A live handle that no wrapper owns and no thread is about to wrap. */
  predicate Unclaimed(s: State, h: nat) {
    && h in s.natives && s.natives[h].freed == 0
    && (forall w :: w in s.wrappers ==> s.wrappers[w].native != h)
    && (forall t :: t in s.pcs && s.pcs[t].point.Returned? ==> s.pcs[t].point.created != Some(h))
  }

  predicate LocalStep(s: State, s2: State, t: nat, w: nat, from: Option<Point>, to: Option<Point>) {
    && w in s.wrappers && w in s2.wrappers && s.wrappers[w].native in s.natives && s.wrappers[w].native in s2.natives
    && s2.wrappers == s.wrappers[w := s2.wrappers[w]]
    && s2.natives == s.natives[s.wrappers[w].native := s2.natives[s.wrappers[w].native]]
    && (if from.Some? then t in s.pcs && s.pcs[t] == Pc(w, from.value) else t !in s.pcs)
    && s2.pcs == (if to.Some? then s.pcs[t := Pc(w, to.value)] else s.pcs - {t})
    && Local(t, from, to, s.wrappers[w], s2.wrappers[w],
             s.natives[s.wrappers[w].native], s2.natives[s.wrappers[w].native])
    && (s2.natives != s.natives && s.natives[s.wrappers[w].native].kind == ClientHandle ==>
          NoLiveStreams(s, s.wrappers[w].native))
    && (to.Some? && to.value.Returned? && to.value.created.Some? ==>
          s2.natives == s.natives && Unclaimed(s, to.value.created.value))
  }

  lemma LocksKept(s: State, s2: State, t: nat, w: nat, from: Option<Point>, to: Option<Point>)
    requires Locks(s) && LocalStep(s, s2, t, w, from, to)
    ensures Locks(s2)
  {
  }

  lemma CountsKept(s: State, s2: State, t: nat, w: nat, from: Option<Point>, to: Option<Point>)
    requires Counts(s) && LocalStep(s, s2, t, w, from, to)
    ensures Counts(s2)
  {
    assert s2.pcs - {t} == s.pcs - {t};
    forall v | v in s2.wrappers ensures s2.wrappers[v].inFlight == |Users(s2.pcs, v)| {
      UsersWithout(s.pcs, t, v);
      UsersWithout(s2.pcs, t, v);
    }
  }

  lemma OwnersKept(s: State, s2: State, t: nat, w: nat, from: Option<Point>, to: Option<Point>)
    requires Owners(s) && LocalStep(s, s2, t, w, from, to)
    ensures Owners(s2)
  {
  }

  lemma PendingKept(s: State, s2: State, t: nat, w: nat, from: Option<Point>, to: Option<Point>)
    requires Pending(s) && LocalStep(s, s2, t, w, from, to)
    ensures Pending(s2)
  {
  }

  lemma PointKept(s: State, s2: State, t: nat, w: nat, from: Option<Point>, to: Option<Point>, u: nat)
    requires Locks(s) && Locks(s2) && Owners(s) && Owners(s2) && Counts(s) && Points(s) && u in s.pcs && u != t
    requires LocalStep(s, s2, t, w, from, to)
    ensures u in s2.pcs && s2.pcs[u] == s.pcs[u]
    ensures var x := s2.wrappers[s.pcs[u].wrapper]; PointValid(s.pcs[u].point, x, s2.natives[x.native])
  {
    if s.pcs[u].wrapper == w && s.wrappers[w].inFlight == 0 {
      NoUsers(s, w);
    }
  }

  lemma PointsKept(s: State, s2: State, t: nat, w: nat, from: Option<Point>, to: Option<Point>)
    requires Locks(s) && Locks(s2) && Owners(s) && Owners(s2) && Counts(s) && Points(s)
    requires LocalStep(s, s2, t, w, from, to)
    ensures Points(s2)
  {
    forall u | u in s2.pcs
      ensures var x := s2.wrappers[s2.pcs[u].wrapper]; PointValid(s2.pcs[u].point, x, s2.natives[x.native])
    {
      if u != t {
        PointKept(s, s2, t, w, from, to, u);
      }
    }
  }

  lemma ClosedKept(s: State, s2: State, t: nat, w: nat, from: Option<Point>, to: Option<Point>)
    requires Locks(s) && Owners(s) && Owners(s2) && Closed(s) && LocalStep(s, s2, t, w, from, to)
    ensures Closed(s2)
  {
  }

  lemma StartsKept(s: State, s2: State, t: nat, w: nat, from: Option<Point>, to: Option<Point>)
    requires Locks(s) && Locks(s2) && Owners(s) && Owners(s2) && Starts(s) && LocalStep(s, s2, t, w, from, to)
    ensures Starts(s2)
  {
  }

  lemma StreamsKept(s: State, s2: State, t: nat, w: nat, from: Option<Point>, to: Option<Point>)
    requires Streams(s) && LocalStep(s, s2, t, w, from, to)
    ensures Streams(s2)
  {
  }

  lemma LocalKeeps(s: State, s2: State, t: nat, w: nat, from: Option<Point>, to: Option<Point>)
    requires Inv(s) && LocalStep(s, s2, t, w, from, to)
    ensures Inv(s2)
  {
    LocksKept(s, s2, t, w, from, to);
    CountsKept(s, s2, t, w, from, to);
    OwnersKept(s, s2, t, w, from, to);
    PendingKept(s, s2, t, w, from, to);
    PointsKept(s, s2, t, w, from, to);
    ClosedKept(s, s2, t, w, from, to);
    StartsKept(s, s2, t, w, from, to);
    StreamsKept(s, s2, t, w, from, to);
  }

  /** The invariant for one thread and the wrapper it works on. */
  predicate Here(s: State, t: nat, w: nat) {
    && w in s.wrappers && s.wrappers[w].native in s.natives
    && var x, n := s.wrappers[w], s.natives[s.wrappers[w].native];
    && (!x.open ==> n.freed == 1)
    && (x.open && n.freed != 0 ==> x.holder.Some? && x.holder.value in s.pcs && s.pcs[x.holder.value] == Pc(w, CloseFreed))
    && (t in s.pcs ==>
          && s.pcs[t].wrapper == w && PointValid(s.pcs[t].point, x, n)
          && (Holds(s.pcs[t].point) ==> x.holder == Some(t))
          && (StartAt(s.pcs[t].point) ==> n.kind == ClientHandle)
          && x.inFlight >= CountAt(Some(s.pcs[t].point)))
  }

  lemma InvHere(s: State, t: nat, w: nat)
    requires Inv(s) && w in s.wrappers && (t in s.pcs ==> s.pcs[t].wrapper == w)
    ensures Here(s, t, w)
  {
    if t in s.pcs && Counted(s.pcs[t].point) {
      UsersWithout(s.pcs, t, w);
    }
  }

  lemma BeginIsLocal(s: State, s2: State, t: nat, w: nat, a: Action)
    requires t !in s.pcs && Here(s, t, w) && Do(s, t, a) == Some(s2)
    requires (a.Begin? || a.BeginClose?) && a.wrapper == w
    ensures LocalStep(s, s2, t, w, None, Some(if a.Begin? then EnterWait(a.op) else CloseWait))
  {
  }

  lemma LockIsLocal(s: State, s2: State, t: nat, w: nat)
    requires t in s.pcs && Here(s, t, w) && Do(s, t, Lock) == Some(s2)
    ensures t in s2.pcs && LocalStep(s, s2, t, w, Some(s.pcs[t].point), Some(s2.pcs[t].point))
  {
  }

  lemma ProceedIsLocal(s: State, s2: State, t: nat, w: nat)
    requires t in s.pcs && Here(s, t, w) && Do(s, t, Proceed) == Some(s2)
    ensures LocalStep(s, s2, t, w, Some(s.pcs[t].point), if t in s2.pcs then Some(s2.pcs[t].point) else None)
  {
  }

  lemma NativeIsLocal(s: State, s2: State, t: nat, w: nat, a: Action)
    requires t in s.pcs && Here(s, t, w) && Do(s, t, a) == Some(s2)
    requires a == FreeFails || a == FreeSucceeds || a == NativeReturns(None)
    ensures t in s2.pcs && LocalStep(s, s2, t, w, Some(s.pcs[t].point), Some(s2.pcs[t].point))
  {
  }

  // ----- steps that create handles and wrappers -----

  function AddNative(s: State, h: nat, n: Native): State {
    s.(natives := s.natives[h := n])
  }

  lemma AddNativeOwners(s: State, s2: State, h: nat, n: Native)
    requires Locks(s) && Owners(s) && Pending(s) && h !in s.natives && n.freed == 0 && s2 == AddNative(s, h, n)
    ensures Locks(s2) && Owners(s2) && Pending(s2) && Unclaimed(s2, h)
  {
  }

  lemma AddNativePoints(s: State, s2: State, h: nat, n: Native)
    requires Locks(s) && Owners(s) && Points(s) && Closed(s) && Starts(s) && Locks(s2) && Owners(s2)
    requires h !in s.natives && s2 == AddNative(s, h, n)
    ensures Points(s2) && Closed(s2) && Starts(s2)
  {
  }

  lemma AddNativeKeeps(s: State, h: nat, n: Native)
    requires Inv(s) && h !in s.natives && n.freed == 0
    requires n.kind.StreamHandle? ==> n.kind.client in s.natives && s.natives[n.kind.client] == Native(ClientHandle, 0)
    ensures Inv(AddNative(s, h, n)) && Unclaimed(AddNative(s, h, n), h)
  {
    var s2 := AddNative(s, h, n);
    AddNativeOwners(s, s2, h, n);
    AddNativePoints(s, s2, h, n);
  }

  lemma AddWrapperLocks(s: State, s2: State, w: nat, h: nat)
    requires Locks(s) && Counts(s) && w !in s.wrappers && s2 == WithWrapper(s, w, Wrapper(h, true, 0, None))
    ensures Locks(s2) && Counts(s2)
  {
    assert Users(s.pcs, w) == {};
  }

  lemma AddWrapperOwners(s: State, s2: State, w: nat, h: nat)
    requires Owners(s) && Pending(s) && w !in s.wrappers && Unclaimed(s, h)
    requires s2 == WithWrapper(s, w, Wrapper(h, true, 0, None))
    ensures Owners(s2) && Pending(s2)
  {
  }

  lemma AddWrapperPoints(s: State, s2: State, w: nat, h: nat)
    requires Locks(s) && Owners(s) && Points(s) && Closed(s) && Starts(s) && Locks(s2) && Owners(s2)
    requires w !in s.wrappers && Unclaimed(s, h) && s2 == WithWrapper(s, w, Wrapper(h, true, 0, None))
    ensures Points(s2) && Closed(s2) && Starts(s2)
  {
  }

  lemma AddWrapperKeeps(s: State, w: nat, h: nat)
    requires Inv(s) && w !in s.wrappers && Unclaimed(s, h)
    ensures Inv(WithWrapper(s, w, Wrapper(h, true, 0, None)))
  {
    var s2 := WithWrapper(s, w, Wrapper(h, true, 0, None));
    AddWrapperLocks(s, s2, w, h);
    AddWrapperOwners(s, s2, w, h);
    AddWrapperPoints(s, s2, w, h);
  }

  lemma NewClientKeeps(s: State, s2: State, t: nat, w: nat, h: nat)
    requires Inv(s) && t !in s.pcs && Do(s, t, NewClient(w, h)) == Some(s2)
    ensures Inv(s2)
  {
    AddNativeKeeps(s, h, Native(ClientHandle, 0));
    AddWrapperKeeps(AddNative(s, h, Native(ClientHandle, 0)), w, h);
  }

  lemma NewStreamIsLocal(s: State, s1: State, s2: State, t: nat, w: nat, h: nat)
    requires t in s1.pcs && s1.pcs[t].wrapper == w && s1.pcs[t].point.InNative? && Here(s1, t, w) && Unclaimed(s1, h)
    requires s2 == MoveTo(s1, t, w, Returned(Some(h)))
    ensures LocalStep(s1, s2, t, w, Some(s1.pcs[t].point), Some(Returned(Some(h))))
  {
  }

  lemma NewStreamKeeps(s: State, s2: State, t: nat, h: nat)
    requires Inv(s) && t in s.pcs && Do(s, t, NativeReturns(Some(h))) == Some(s2)
    ensures Inv(s2)
  {
    var w := s.pcs[t].wrapper;
    InvHere(s, t, w);
    var n := Native(StreamHandle(s.wrappers[w].native), 0);
    AddNativeKeeps(s, h, n);
    var s1 := AddNative(s, h, n);
    InvHere(s1, t, w);
    NewStreamIsLocal(s, s1, s2, t, w, h);
    LocalKeeps(s1, s2, t, w, Some(s.pcs[t].point), Some(Returned(Some(h))));
  }

  lemma DropPending(s: State, t: nat, h: nat)
    requires Pending(s) && t in s.pcs && s.pcs[t].point == Returned(Some(h))
    ensures Unclaimed(MoveTo(s, t, s.pcs[t].wrapper, Returned(None)), h)
  {
  }

  lemma WrapIsLocal(s: State, s1: State, t: nat, w: nat, h: nat)
    requires t in s.pcs && s.pcs[t] == Pc(w, Returned(Some(h))) && Here(s, t, w)
    requires s1 == MoveTo(s, t, w, Returned(None))
    ensures LocalStep(s, s1, t, w, Some(Returned(Some(h))), Some(Returned(None)))
  {
  }

  lemma MakeStreamFrom(s: State, s1: State, s2: State, t: nat, owner: nat, w: nat, h: nat)
    requires Inv(s) && t in s.pcs && s.pcs[t] == Pc(owner, Returned(Some(h))) && w !in s1.wrappers
    requires s1 == MoveTo(s, t, owner, Returned(None)) && s2 == WithWrapper(s1, w, Wrapper(h, true, 0, None))
    ensures Inv(s2)
  {
    InvHere(s, t, owner);
    WrapIsLocal(s, s1, t, owner, h);
    LocalKeeps(s, s1, t, owner, Some(Returned(Some(h))), Some(Returned(None)));
    DropPending(s, t, h);
    AddWrapperKeeps(s1, w, h);
  }

  lemma MakeStreamParts(s: State, s2: State, t: nat, w: nat) returns (owner: nat, h: nat, s1: State)
    requires t in s.pcs && Do(s, t, MakeStream(w)) == Some(s2)
    ensures s.pcs[t] == Pc(owner, Returned(Some(h))) && w !in s1.wrappers
    ensures s1 == MoveTo(s, t, owner, Returned(None)) && s2 == WithWrapper(s1, w, Wrapper(h, true, 0, None))
  {
    owner, h := s.pcs[t].wrapper, s.pcs[t].point.created.value;
    s1 := MoveTo(s, t, owner, Returned(None));
  }

  lemma MakeStreamKeeps(s: State, s2: State, t: nat, w: nat)
    requires Inv(s) && t in s.pcs && Do(s, t, MakeStream(w)) == Some(s2)
    ensures Inv(s2)
  {
    var owner, h, s1 := MakeStreamParts(s, s2, t, w);
    MakeStreamFrom(s, s1, s2, t, owner, w, h);
  }

  // ----- runs -----

  lemma StepKeeps(s: State, s2: State, t: nat, a: Action)
    requires Inv(s) && Do(s, t, a) == Some(s2)
    ensures Inv(s2)
  {
    if t !in s.pcs {
      match a
      case NewClient(w, h) => NewClientKeeps(s, s2, t, w, h);
      case Begin(w, op) =>
        InvHere(s, t, w);
        BeginIsLocal(s, s2, t, w, a);
        LocalKeeps(s, s2, t, w, None, Some(EnterWait(op)));
      case BeginClose(w) =>
        InvHere(s, t, w);
        BeginIsLocal(s, s2, t, w, a);
        LocalKeeps(s, s2, t, w, None, Some(CloseWait));
      case _ =>
    } else {
      InsideKeeps(s, s2, t, a);
    }
  }

  lemma InsideKeeps(s: State, s2: State, t: nat, a: Action)
    requires Inv(s) && t in s.pcs && Do(s, t, a) == Some(s2)
    ensures Inv(s2)
  {
    var w, from := s.pcs[t].wrapper, Some(s.pcs[t].point);
    InvHere(s, t, w);
    match a
    case Lock =>
      LockIsLocal(s, s2, t, w);
      LocalKeeps(s, s2, t, w, from, Some(s2.pcs[t].point));
    case Proceed =>
      ProceedIsLocal(s, s2, t, w);
      LocalKeeps(s, s2, t, w, from, if t in s2.pcs then Some(s2.pcs[t].point) else None);
    case NativeReturns(Some(h)) => NewStreamKeeps(s, s2, t, h);
    case MakeStream(v) => MakeStreamKeeps(s, s2, t, v);
    case NativeReturns(None) =>
      NativeIsLocal(s, s2, t, w, a);
      LocalKeeps(s, s2, t, w, from, Some(s2.pcs[t].point));
    case FreeFails =>
      NativeIsLocal(s, s2, t, w, a);
      LocalKeeps(s, s2, t, w, from, Some(s2.pcs[t].point));
    case FreeSucceeds =>
      NativeIsLocal(s, s2, t, w, a);
      LocalKeeps(s, s2, t, w, from, Some(s2.pcs[t].point));
    case _ =>
  }

  /** The state after a run of steps of any threads, if every step is possible. */
  function Run(steps: seq<(nat, Action)>): Option<State> {
    if steps == [] then Some(State(map[], map[], map[]))
    else
      match Run(steps[..|steps| - 1])
      case None => None
      case Some(s) => Do(s, steps[|steps| - 1].0, steps[|steps| - 1].1)
  }

  lemma {:induction false} RunKeeps(steps: seq<(nat, Action)>)
    ensures Run(steps).Some? ==> Inv(Run(steps).value)
  {
    if steps != [] && Run(steps).Some? {
      var n := |steps| - 1;
      RunKeeps(steps[..n]);
      StepKeeps(Run(steps[..n]).value, Run(steps).value, steps[n].0, steps[n].1);
    }
  }

  predicate Live(s: State, h: nat) {
    h in s.natives && s.natives[h].freed == 0
  }

  /** Native code never runs on a freed handle: neither a counted call nor the cancel and free of a close. */
  predicate NoUseAfterFree(s: State) {
    forall t :: t in s.pcs ==>
      && (s.pcs[t].point.InNative? ==> s.pcs[t].point.handle.Some? && Live(s, s.pcs[t].point.handle.value))
      && (s.pcs[t].point.CloseFree? ==> s.pcs[t].wrapper in s.wrappers && Live(s, s.wrappers[s.pcs[t].wrapper].native))
  }

  /** The counter is the number of threads between acquire and release. */
  predicate ExactCounts(s: State) {
    forall w :: w in s.wrappers ==>
      s.wrappers[w].inFlight == |set t | t in s.pcs && s.pcs[t].wrapper == w && Counted(s.pcs[t].point)|
  }

  predicate FreedAtMostOnce(s: State) {
    forall h :: h in s.natives ==> s.natives[h].freed <= 1
  }

  predicate FreedClientsHaveNoStreams(s: State) {
    forall h :: h in s.natives && s.natives[h].kind == ClientHandle && s.natives[h].freed > 0 ==> NoLiveStreams(s, h)
  }

  predicate MutualExclusion(s: State) {
    forall t, u :: t in s.pcs && u in s.pcs && Holds(s.pcs[t].point) && Holds(s.pcs[u].point) && t != u ==>
      s.pcs[t].wrapper != s.pcs[u].wrapper
  }

  /** Outside the critical sections, a wrapper is open exactly while its handle is live. */
  predicate OpenIffLive(s: State) {
    forall w :: w in s.wrappers && s.wrappers[w].holder == None ==> (s.wrappers[w].open <==> Live(s, s.wrappers[w].native))
  }

  /** Every interleaving of any number of threads is safe. */
  lemma Safety(steps: seq<(nat, Action)>)
    requires Run(steps).Some?
    ensures var s := Run(steps).value;
            && NoUseAfterFree(s) && ExactCounts(s) && FreedAtMostOnce(s)
            && FreedClientsHaveNoStreams(s) && MutualExclusion(s) && OpenIffLive(s)
  {
    RunKeeps(steps);
    SafeState(Run(steps).value);
  }

  lemma SafeState(s: State)
    requires Inv(s)
    ensures NoUseAfterFree(s) && ExactCounts(s) && FreedAtMostOnce(s)
    ensures FreedClientsHaveNoStreams(s) && MutualExclusion(s) && OpenIffLive(s)
  {
    forall w | w in s.wrappers
      ensures s.wrappers[w].inFlight == |set t | t in s.pcs && s.pcs[t].wrapper == w && Counted(s.pcs[t].point)|
    {
      assert Users(s.pcs, w) == set t | t in s.pcs && s.pcs[t].wrapper == w && Counted(s.pcs[t].point);
    }
  }

  // ----- closing succeeds once calls and streams are gone -----

  function DoAll(s: State, t: nat, actions: seq<Action>): Option<State>
    decreases |actions|
  {
    if actions == [] then Some(s)
    else
      match Do(s, t, actions[0])
      case None => None
      case Some(next) => DoAll(next, t, actions[1..])
  }

  lemma DoFirst(s: State, t: nat, first: Action, rest: seq<Action>)
    requires Do(s, t, first).Some?
    ensures DoAll(s, t, [first] + rest) == DoAll(Do(s, t, first).value, t, rest)
  {
    assert ([first] + rest)[1..] == rest;
  }

  lemma CloseStarts(s: State, t: nat, w: nat, rest: seq<Action>)
    requires t !in s.pcs && w in s.wrappers
    requires s.wrappers[w].open && s.wrappers[w].holder == None && s.wrappers[w].inFlight == 0
    ensures DoAll(s, t, [BeginClose(w)] + ([Lock] + ([Proceed] + rest))) ==
            DoAll(MoveTo(WithWrapper(s, w, s.wrappers[w].(holder := Some(t))), t, w, CloseFree), t, rest)
  {
    var s1 := Do(s, t, BeginClose(w)).value;
    var s2 := Do(s1, t, Lock).value;
    var s3 := Do(s2, t, Proceed).value;
    DoFirst(s, t, BeginClose(w), [Lock] + ([Proceed] + rest));
    DoFirst(s1, t, Lock, [Proceed] + rest);
    DoFirst(s2, t, Proceed, rest);
    assert s3.pcs == s.pcs[t := Pc(w, CloseFree)];
  }

  lemma CloseEnds(s: State, t: nat, w: nat, h: nat)
    requires t in s.pcs && s.pcs[t] == Pc(w, CloseFree) && w in s.wrappers && s.wrappers[w].native == h && Live(s, h)
    requires NoLiveStreams(s, h)
    ensures var r := DoAll(s, t, [FreeSucceeds] + ([Proceed] + ([Proceed] + [])));
            && r.Some? && t !in r.value.pcs && w in r.value.wrappers && !r.value.wrappers[w].open
            && h in r.value.natives && r.value.natives[h].freed == 1
  {
    var s1 := Do(s, t, FreeSucceeds).value;
    var s2 := Do(s1, t, Proceed).value;
    DoFirst(s, t, FreeSucceeds, [Proceed] + ([Proceed] + []));
    DoFirst(s1, t, Proceed, [Proceed] + []);
    DoFirst(s2, t, Proceed, []);
  }

  /** A retried close frees the handle as soon as no call is in flight and no stream is live. */
  lemma CloseSucceeds(s: State, t: nat, w: nat, h: nat)
    requires Inv(s) && t !in s.pcs && w in s.wrappers && s.wrappers[w].native == h
    requires s.wrappers[w].open && s.wrappers[w].holder == None && s.wrappers[w].inFlight == 0 && NoLiveStreams(s, h)
    ensures var r := DoAll(s, t, [BeginClose(w)] + ([Lock] + ([Proceed] + ([FreeSucceeds] + ([Proceed] + ([Proceed] + []))))));
            && r.Some? && t !in r.value.pcs && w in r.value.wrappers && !r.value.wrappers[w].open
            && h in r.value.natives && r.value.natives[h].freed == 1
  {
    CloseStarts(s, t, w, [FreeSucceeds] + ([Proceed] + ([Proceed] + [])));
    CloseEnds(MoveTo(WithWrapper(s, w, s.wrappers[w].(holder := Some(t))), t, w, CloseFree), t, w, h);
  }
}
