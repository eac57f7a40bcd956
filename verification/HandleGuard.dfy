/** The fields of a client or stream object and its critical sections, each run under the mutex, and
    what the interleaved steps of `Handles` make of them. */
module HandleGuard {
  import opened Common
  import opened Handles

  datatype CloseResult = Closed | Busy | Refused

  function Acquired(w: Wrapper): Wrapper {
    if w.open then w.(inFlight := w.inFlight + 1) else w
  }

  function Released(w: Wrapper): Wrapper {
    w.(inFlight := w.inFlight - 1)
  }

  /** `freed` is the answer of the native library, which is asked only when no call is in flight. */
  function ClosedOnce(w: Wrapper, freed: bool): Wrapper {
    if w.open && w.inFlight <= 0 && freed then w.(open := false) else w
  }

  class Guard {
    const native: nat
    var open: bool
    var inFlight: int

    constructor (handle: nat)
      ensures View() == Wrapper(handle, true, 0, None)
    {
      native, open, inFlight := handle, true, 0;
    }

    function View(): Wrapper
      reads this
    {
      Wrapper(native, open, inFlight, None)
    }

    method Acquire() returns (ok: bool)
      modifies this
      ensures ok == old(open) && View() == Acquired(old(View()))
    {
      if !open {
        return false;
      }
      inFlight := inFlight + 1;
      return true;
    }

    method Release()
      modifies this
      ensures View() == Released(old(View()))
    {
      inFlight := inFlight - 1;
    }

    /** The error keeps the handle, so that closing can be tried again. */
    method Close(freed: bool) returns (r: CloseResult)
      modifies this
      ensures View() == ClosedOnce(old(View()), freed)
      ensures r == Closed <==> !open
      ensures r == Busy <==> old(open) && old(inFlight) > 0
    {
      if !open {
        return Closed;
      }
      if inFlight > 0 {
        return Busy;
      }
      if freed {
        open := false;
        return Closed;
      }
      return Refused;
    }
  }

  // ----- the critical sections as steps -----

  lemma Three(s: State, s1: State, s2: State, s3: State, t: nat, a: Action, b: Action, c: Action)
    requires Do(s, t, a) == Some(s1) && Do(s1, t, b) == Some(s2) && Do(s2, t, c) == Some(s3)
    ensures DoAll(s, t, [a] + ([b] + ([c] + []))) == Some(s3)
  {
    DoFirst(s, t, a, [b] + ([c] + []));
    DoFirst(s1, t, b, [c] + []);
    DoFirst(s2, t, c, []);
  }

  lemma LockStep(s: State, t: nat, w: nat, p: Point, q: Point)
    requires t in s.pcs && s.pcs[t] == Pc(w, p) && w in s.wrappers && s.wrappers[w].holder == None
    requires (p.EnterWait? && q == EnterHeld(p.op)) || (p == LeaveWait && q == LeaveHeld) || (p == CloseWait && q == CloseHeld)
    ensures Do(s, t, Lock) == Some(MoveTo(WithWrapper(s, w, s.wrappers[w].(holder := Some(t))), t, w, q))
  {
  }

  /** The wrapper `x` while `t` holds its lock at `p`. */
  function Inside(s: State, t: nat, w: nat, x: Wrapper, p: Point): State {
    MoveTo(WithWrapper(s, w, x.(holder := Some(t))), t, w, p)
  }

  lemma UnlockStep(s: State, t: nat, w: nat, x: Wrapper)
    requires w in s.wrappers && x.holder == None
    ensures Do(Inside(s, t, w, x, Unlocking), t, Proceed) == Some(State(s.pcs - {t}, s.wrappers[w := x], s.natives))
  {
    var s1 := Inside(s, t, w, x, Unlocking);
    assert s1.pcs - {t} == s.pcs - {t};
    assert s1.wrappers[w := x] == s.wrappers[w := x];
  }

  lemma CallStep(s: State, t: nat, w: nat, x: Wrapper, op: Op)
    requires w in s.wrappers && x.holder == None
    ensures Do(Inside(s, t, w, x, EnterCounted(op)), t, Proceed)
            == Some(State(s.pcs[t := Pc(w, Calling(op))], s.wrappers[w := x], s.natives))
  {
    var s1 := Inside(s, t, w, x, EnterCounted(op));
    assert s1.pcs[t := Pc(w, Calling(op))] == s.pcs[t := Pc(w, Calling(op))];
    assert s1.wrappers[w := x] == s.wrappers[w := x];
  }

  lemma MiddleStep(s: State, t: nat, w: nat, x: Wrapper, y: Wrapper, p: Point, q: Point)
    requires w in s.wrappers && x.holder == None && y.holder == None
    requires || (p.EnterHeld? && y == Acquired(x) && q == (if x.open then EnterCounted(p.op) else Unlocking))
             || (p == LeaveHeld && y == Released(x) && q == Unlocking)
             || (p == CloseHeld && y == x && q == Unlocking && (!x.open || x.inFlight > 0))
    ensures Do(Inside(s, t, w, x, p), t, Proceed) == Some(Inside(s, t, w, y, q))
  {
    var s1, s2 := Inside(s, t, w, x, p), Inside(s, t, w, y, q);
    assert s1.pcs[t := Pc(w, q)] == s2.pcs;
    assert s1.wrappers[w := y.(holder := Some(t))] == s2.wrappers;
    assert x == y ==> s1.wrappers == s2.wrappers;
  }

  lemma AcquireSection(s: State, t: nat, w: nat, op: Op)
    requires t in s.pcs && s.pcs[t] == Pc(w, EnterWait(op)) && w in s.wrappers && s.wrappers[w].holder == None
    ensures DoAll(s, t, [Lock] + ([Proceed] + ([Proceed] + []))) ==
            Some(State(if s.wrappers[w].open then s.pcs[t := Pc(w, Calling(op))] else s.pcs - {t},
                       s.wrappers[w := Acquired(s.wrappers[w])], s.natives))
  {
    var x := s.wrappers[w];
    var q := if x.open then EnterCounted(op) else Unlocking;
    var r := State(if x.open then s.pcs[t := Pc(w, Calling(op))] else s.pcs - {t}, s.wrappers[w := Acquired(x)], s.natives);
    LockStep(s, t, w, EnterWait(op), EnterHeld(op));
    MiddleStep(s, t, w, x, Acquired(x), EnterHeld(op), q);
    UnlockStep(s, t, w, Acquired(x));
    CallStep(s, t, w, Acquired(x), op);
    Three(s, Inside(s, t, w, x, EnterHeld(op)), Inside(s, t, w, Acquired(x), q), r, t, Lock, Proceed, Proceed);
  }

  lemma ReleaseSection(s: State, t: nat, w: nat)
    requires t in s.pcs && s.pcs[t] == Pc(w, LeaveWait) && w in s.wrappers && s.wrappers[w].holder == None
    ensures DoAll(s, t, [Lock] + ([Proceed] + ([Proceed] + []))) ==
            Some(State(s.pcs - {t}, s.wrappers[w := Released(s.wrappers[w])], s.natives))
  {
    var x := s.wrappers[w];
    LockStep(s, t, w, LeaveWait, LeaveHeld);
    MiddleStep(s, t, w, x, Released(x), LeaveHeld, Unlocking);
    UnlockStep(s, t, w, Released(x));
    Three(s, Inside(s, t, w, x, LeaveHeld), Inside(s, t, w, Released(x), Unlocking),
          State(s.pcs - {t}, s.wrappers[w := Released(x)], s.natives), t, Lock, Proceed, Proceed);
  }

  /** A close that finds the object closed or busy changes nothing, whatever the library would answer. */
  lemma CloseSectionRefused(s: State, t: nat, w: nat, freed: bool)
    requires t in s.pcs && s.pcs[t] == Pc(w, CloseWait) && w in s.wrappers && s.wrappers[w].holder == None
    requires !s.wrappers[w].open || s.wrappers[w].inFlight > 0
    ensures ClosedOnce(s.wrappers[w], freed) == s.wrappers[w]
    ensures DoAll(s, t, [Lock] + ([Proceed] + ([Proceed] + []))) == Some(State(s.pcs - {t}, s.wrappers, s.natives))
  {
    var x := s.wrappers[w];
    LockStep(s, t, w, CloseWait, CloseHeld);
    MiddleStep(s, t, w, x, x, CloseHeld, Unlocking);
    UnlockStep(s, t, w, x);
    assert s.wrappers[w := x] == s.wrappers;
    Three(s, Inside(s, t, w, x, CloseHeld), Inside(s, t, w, x, Unlocking),
          State(s.pcs - {t}, s.wrappers, s.natives), t, Lock, Proceed, Proceed);
  }

  /** A close that reaches the native library: up to the point where the library answers. */
  lemma CloseAsks(s: State, t: nat, w: nat, rest: seq<Action>)
    requires t in s.pcs && s.pcs[t] == Pc(w, CloseWait) && w in s.wrappers && s.wrappers[w].holder == None
    requires s.wrappers[w].open && s.wrappers[w].inFlight <= 0
    ensures DoAll(s, t, [Lock] + ([Proceed] + rest)) == DoAll(Inside(s, t, w, s.wrappers[w], CloseFree), t, rest)
  {
    var x := s.wrappers[w];
    var s1, s2 := Inside(s, t, w, x, CloseHeld), Inside(s, t, w, x, CloseFree);
    LockStep(s, t, w, CloseWait, CloseHeld);
    assert s1.pcs[t := Pc(w, CloseFree)] == s2.pcs;
    DoFirst(s, t, Lock, [Proceed] + rest);
    DoFirst(s1, t, Proceed, rest);
  }

  /** The library frees the handle: the object is closed, and the handle was freed once more. */
  lemma CloseSectionFreed(s: State, t: nat, w: nat)
    requires t in s.pcs && s.pcs[t] == Pc(w, CloseWait) && w in s.wrappers && s.wrappers[w].holder == None
    requires s.wrappers[w].open && s.wrappers[w].inFlight <= 0 && s.wrappers[w].native in s.natives
    requires s.natives[s.wrappers[w].native].kind == ClientHandle ==> NoLiveStreams(s, s.wrappers[w].native)
    ensures var h := s.wrappers[w].native;
            var freed := s.natives[h].(freed := s.natives[h].freed + 1);
            DoAll(s, t, [Lock] + ([Proceed] + ([FreeSucceeds] + ([Proceed] + ([Proceed] + []))))) ==
            Some(State(s.pcs - {t}, s.wrappers[w := ClosedOnce(s.wrappers[w], true)], s.natives[h := freed]))
  {
    var x := s.wrappers[w];
    var h := x.native;
    var freed := s.natives[h].(freed := s.natives[h].freed + 1);
    var s', y := s.(natives := s.natives[h := freed]), ClosedOnce(x, true);
    CloseAsks(s, t, w, [FreeSucceeds] + ([Proceed] + ([Proceed] + [])));
    FreeStep(s, t, w, x, freed);
    ClearStep(s', t, w, x);
    UnlockStep(s', t, w, y);
    Three(Inside(s, t, w, x, CloseFree), Inside(s', t, w, x, CloseFreed), Inside(s', t, w, y, Unlocking),
          State(s'.pcs - {t}, s'.wrappers[w := y], s'.natives), t, FreeSucceeds, Proceed, Proceed);
  }

  lemma FreeStep(s: State, t: nat, w: nat, x: Wrapper, freed: Native)
    requires w in s.wrappers && x.native in s.natives
    requires s.natives[x.native].kind == ClientHandle ==> NoLiveStreams(s, x.native)
    requires freed == s.natives[x.native].(freed := s.natives[x.native].freed + 1)
    ensures Do(Inside(s, t, w, x, CloseFree), t, FreeSucceeds)
            == Some(Inside(s.(natives := s.natives[x.native := freed]), t, w, x, CloseFreed))
  {
    var s1 := Inside(s, t, w, x, CloseFree);
    assert NoLiveStreams(s1, x.native) == NoLiveStreams(s, x.native);
    assert s1.pcs[t := Pc(w, CloseFreed)] == s.pcs[t := Pc(w, CloseFreed)];
  }

  lemma ClearStep(s: State, t: nat, w: nat, x: Wrapper)
    requires w in s.wrappers && x.holder == None
    ensures Do(Inside(s, t, w, x, CloseFreed), t, Proceed) == Some(Inside(s, t, w, x.(open := false), Unlocking))
  {
    var s1 := Inside(s, t, w, x, CloseFreed);
    assert s1.pcs[t := Pc(w, Unlocking)] == s.pcs[t := Pc(w, Unlocking)];
    var y := x.(open := false, holder := Some(t));
    assert s1.wrappers[w := y] == s.wrappers[w := y];
  }

  /** The library refuses: nothing changes, so closing can be tried again. */
  lemma CloseSectionFailed(s: State, t: nat, w: nat)
    requires t in s.pcs && s.pcs[t] == Pc(w, CloseWait) && w in s.wrappers && s.wrappers[w].holder == None
    requires s.wrappers[w].open && s.wrappers[w].inFlight <= 0
    ensures DoAll(s, t, [Lock] + ([Proceed] + ([FreeFails] + ([Proceed] + [])))) ==
            Some(State(s.pcs - {t}, s.wrappers[w := ClosedOnce(s.wrappers[w], false)], s.natives))
  {
    var x := s.wrappers[w];
    var s1, s2 := Inside(s, t, w, x, CloseFree), Inside(s, t, w, x, Unlocking);
    CloseAsks(s, t, w, [FreeFails] + ([Proceed] + []));
    assert s1.pcs[t := Pc(w, Unlocking)] == s2.pcs;
    UnlockStep(s, t, w, x);
    DoFirst(s1, t, FreeFails, [Proceed] + []);
    DoFirst(s2, t, Proceed, []);
  }
}
