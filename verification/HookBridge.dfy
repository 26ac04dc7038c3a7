/** Redirecting two call instructions to generated thunks, and undoing it. */
module HookBridge {
  import opened Words

  const CALL_OPCODE: byte := 0xE8

  /** Code memory with four octets replaced. */
  function Patch(m: seq<byte>, at: nat, bytes: seq<byte>): (r: seq<byte>)
    requires at + 4 <= |m| && |bytes| == 4
    ensures |r| == |m|
  {
    m[..at] + bytes + m[at + 4..]
  }

  /** Where the call whose displacement stands at `disp` goes, modulo 2^32. */
  function CallTarget(m: seq<byte>, disp: nat): word
    requires disp + 4 <= |m|
  {
    (disp + 4 + LoadLe32(m, disp)) % W
  }

  /** The displacement that makes it go to `thunk`. */
  function Displacement(disp: nat, thunk: word): word {
    (thunk - (disp + 4)) % W
  }

  /** Code memory with the call at `disp` redirected. */
  function Redirected(m: seq<byte>, disp: nat, thunk: word): (r: seq<byte>)
    requires disp + 4 <= |m|
    ensures |r| == |m|
  {
    Patch(m, disp, StoreLe32(Displacement(disp, thunk)))
  }

  lemma PatchedCallGoesToThunk(m: seq<byte>, disp: nat, thunk: word)
    requires disp + 4 <= |m|
    ensures CallTarget(Redirected(m, disp, thunk), disp) == thunk
  {
    hide StoreLe32, Le32;
    var d := Displacement(disp, thunk);
    var p := Patch(m, disp, StoreLe32(d));
    assert p[disp..disp + 4] == StoreLe32(d);
    LoadStored(p, disp, d);
    SumWraps(disp + 4, thunk);
  }

  lemma SumWraps(base: nat, thunk: word)
    ensures (base + (thunk - base) % W) % W == thunk
  {
    var q := (thunk - base) / W;
    assert (thunk - base) % W == thunk - base - W * q;
    assert base + (thunk - base) % W == thunk + W * (-q);
    ModOfMultiple(thunk, -q);
  }

  lemma ModOfMultiple(x: word, q: int)
    ensures (x + W * q) % W == x
  {
  }

  /** Putting the old octets back undoes a patch, whatever the new ones were. */
  lemma PatchUndone(m: seq<byte>, at: nat, bytes: seq<byte>)
    requires at + 4 <= |m| && |bytes| == 4
    ensures Patch(Patch(m, at, bytes), at, m[at..at + 4]) == m
  {
  }

  predicate Apart(p: nat, s: nat) {
    p + 4 <= s || s + 4 <= p
  }

  lemma PatchElsewhere(m: seq<byte>, p: nat, s: nat, bytes: seq<byte>)
    requires p + 4 <= |m| && s + 4 <= |m| && |bytes| == 4 && Apart(p, s)
    ensures CallTarget(Patch(m, s, bytes), p) == CallTarget(m, p)
  {
    hide Le32;
    var r := Patch(m, s, bytes);
    assert r[p] == m[p] && r[p + 1] == m[p + 1] && r[p + 2] == m[p + 2] && r[p + 3] == m[p + 3];
  }

  /** Octets `written` at `s` and the octets `kept` at `p` are the same wherever the two windows overlap. */
  predicate Agree(p: nat, kept: seq<byte>, s: nat, written: seq<byte>)
    requires |kept| == |written| == 4
  {
    forall j | 0 <= j < 4 && 0 <= p + j - s < 4 :: kept[j] == written[p + j - s]
  }

  lemma ApartAgree(p: nat, kept: seq<byte>, s: nat, written: seq<byte>)
    requires |kept| == |written| == 4 && Apart(p, s)
    ensures Agree(p, kept, s, written)
  {
  }

  lemma PatchedOverPatched(m: seq<byte>, p: nat, kept: seq<byte>, s: nat, written: seq<byte>)
    requires p + 4 <= |m| && s + 4 <= |m| && |kept| == |written| == 4
    ensures Patch(Patch(m, p, kept), s, written)[p..p + 4] == kept <==> Agree(p, kept, s, written)
  {
    var inner := Patch(m, p, kept);
    var outer := Patch(inner, s, written);
    var window := outer[p..p + 4];
    forall j | 0 <= j < 4
      ensures window[j] == if 0 <= p + j - s < 4 then written[p + j - s] else kept[j]
    {
      assert window[j] == outer[p + j] && inner[p + j] == kept[j];
      PatchAt(inner, s, written, p + j);
    }
    if window == kept {
      assert forall j | 0 <= j < 4 && 0 <= p + j - s < 4 :: kept[j] == window[j];
    }
  }

  /** One octet of patched memory. */
  lemma PatchAt(m: seq<byte>, at: nat, bytes: seq<byte>, i: nat)
    requires at + 4 <= |m| && |bytes| == 4 && i < |m|
    ensures Patch(m, at, bytes)[i] == if at <= i < at + 4 then bytes[i - at] else m[i]
  {
  }

  /** A call goes to the thunk exactly when its displacement is the one computed for it. */
  lemma TargetIsDisplacement(m: seq<byte>, disp: nat, thunk: word)
    requires disp + 4 <= |m|
    ensures CallTarget(m, disp) == thunk <==> m[disp..disp + 4] == StoreLe32(Displacement(disp, thunk))
  {
    hide StoreLe32, Le32;
    var d := Displacement(disp, thunk);
    SumWraps(disp + 4, thunk);
    StoreLoaded(m, disp);
    if m[disp..disp + 4] == StoreLe32(d) {
      LoadStored(m, disp, d);
    }
    if CallTarget(m, disp) == thunk {
      SameDisplacement(disp + 4, LoadLe32(m, disp), d);
    }
  }

  lemma SameDisplacement(base: nat, x: word, y: word)
    requires (base + x) % W == (base + y) % W
    ensures x == y
  {
  }

  /**
   * Two calls patched one after the other, with any overlap: the first still goes to its thunk exactly when the second
   * displacement wrote the octets that were already there.
   */
  lemma FirstCallAfterSecond(m: seq<byte>, p: nat, thunk: word, s: nat, thunkSecondary: word)
    requires p + 4 <= |m| && s + 4 <= |m|
    ensures CallTarget(Redirected(Redirected(m, p, thunk), s, thunkSecondary), p) == thunk <==>
            Agree(p, StoreLe32(Displacement(p, thunk)), s, StoreLe32(Displacement(s, thunkSecondary)))
  {
    hide StoreLe32, Displacement, Patch, CallTarget;
    TargetIsDisplacement(Redirected(Redirected(m, p, thunk), s, thunkSecondary), p, thunk);
    PatchedOverPatched(m, p, StoreLe32(Displacement(p, thunk)), s, StoreLe32(Displacement(s, thunkSecondary)));
  }

  /** In windows that lie apart it always does. */
  lemma ApartWindows(m: seq<byte>, p: nat, thunk: word, s: nat, thunkSecondary: word)
    requires p + 4 <= |m| && s + 4 <= |m| && Apart(p, s)
    ensures var r := Redirected(Redirected(m, p, thunk), s, thunkSecondary);
            CallTarget(r, p) == thunk && CallTarget(r, s) == thunkSecondary
  {
    hide CallTarget, Redirected;
    ApartAgree(p, StoreLe32(Displacement(p, thunk)), s, StoreLe32(Displacement(s, thunkSecondary)));
    FirstCallAfterSecond(m, p, thunk, s, thunkSecondary);
    PatchedCallGoesToThunk(Redirected(m, p, thunk), s, thunkSecondary);
  }

  /** In equal windows it does exactly when the thunks are the same. */
  lemma EqualWindows(m: seq<byte>, p: nat, thunk: word, thunkSecondary: word)
    requires p + 4 <= |m|
    ensures var r := Redirected(Redirected(m, p, thunk), p, thunkSecondary);
            CallTarget(r, p) == thunkSecondary && (CallTarget(r, p) == thunk <==> thunk == thunkSecondary)
    ensures CallTarget(Redirected(m, p, thunk), p) == thunk
  {
    hide Redirected, CallTarget;
    PatchedCallGoesToThunk(m, p, thunk);
    PatchedCallGoesToThunk(Redirected(m, p, thunk), p, thunkSecondary);
  }

  datatype Saved = Saved(opcode: byte, disp: seq<byte>, target: word)

  const NOTHING: Saved := Saved(0, [0, 0, 0, 0], 0)

  class Bridge {
    // configuration
    const enabled: bool
    const configured: bool
    const secondaryConfigured: bool
    const primaryDisp: nat
    const secondaryDisp: nat
    // what the installation left behind
    var installed: bool
    var secondaryInstalled: bool
    var installAttempted: bool
    var installSucceeded: bool
    var saved: Saved
    var savedSecondary: Saved
    // file-level globals
    var callback: word
    var originalPrimary: word
    var originalSecondary: word
    // the code memory of the process
    const memory: array<byte>

    ghost predicate Valid()
      reads this
    {
      && |saved.disp| == 4 && |savedSecondary.disp| == 4
      && (configured ==> primaryDisp + 4 <= memory.Length)
      && (secondaryConfigured ==> secondaryDisp + 4 <= memory.Length)
      && (installed ==> configured && primaryDisp >= 1)
      && (secondaryInstalled ==> secondaryConfigured && secondaryDisp >= 1)
    }

    /** The memory as it will be when everything installed has been taken out again, last in first out. */
    ghost function Restored(): seq<byte>
      requires Valid()
      reads this, memory
    {
      var m := if secondaryInstalled then Patch(memory[..], secondaryDisp, savedSecondary.disp) else memory[..];
      if installed then Patch(m, primaryDisp, saved.disp) else m
    }

    constructor (memory: array<byte>, enabled: bool, primary: Option<nat>, secondary: Option<nat>)
      requires primary.Some? ==> primary.value + 4 <= memory.Length
      requires secondary.Some? ==> secondary.value + 4 <= memory.Length
      ensures Valid() && !installed && !secondaryInstalled && this.memory == memory && this.enabled == enabled
      ensures configured == primary.Some? && (configured ==> primaryDisp == primary.value)
      ensures secondaryConfigured == secondary.Some? && (secondaryConfigured ==> secondaryDisp == secondary.value)
    {
      this.memory, this.enabled := memory, enabled;
      configured, primaryDisp := primary.Some?, if primary.Some? then primary.value else 0;
      secondaryConfigured, secondaryDisp := secondary.Some?, if secondary.Some? then secondary.value else 0;
      installed, secondaryInstalled, installAttempted, installSucceeded := false, false, false, false;
      saved, savedSecondary := NOTHING, NOTHING;
      callback, originalPrimary, originalSecondary := 0, 0, 0;
    }

    method WriteMemory(at: nat, bytes: seq<byte>)
      requires at + 4 <= memory.Length && |bytes| == 4
      modifies memory
      ensures memory[..] == Patch(old(memory[..]), at, bytes)
    {
      memory[at], memory[at + 1], memory[at + 2], memory[at + 3] := bytes[0], bytes[1], bytes[2], bytes[3];
    }

    /** `install_call_disp_hook`; `unprotected` is the outcome of lifting the page protection. */
    method InstallCall(disp: nat, thunk: word, unprotected: bool) returns (ok: bool, kept: Option<Saved>)
      requires disp + 4 <= memory.Length
      modifies memory
      ensures ok <==> disp >= 1 && thunk != 0 && old(memory[disp - 1]) == 0xE8 && unprotected
      ensures memory[..] == if ok then Redirected(old(memory[..]), disp, thunk) else old(memory[..])
      ensures kept == if disp >= 1 && thunk != 0 && old(memory[disp - 1]) == 0xE8
                      then Some(Saved(0xE8, old(memory[disp..disp + 4]), CallTarget(old(memory[..]), disp)))
                        else None
      ensures ok ==> kept.Some? && CallTarget(memory[..], disp) == thunk
      ensures ok ==> Patch(memory[..], disp, kept.value.disp) == old(memory[..])
      ensures forall p: nat :: p + 4 <= memory.Length && Apart(p, disp) ==>
        CallTarget(memory[..], p) == CallTarget(old(memory[..]), p)
    {
      hide StoreLe32, Displacement, Patch, CallTarget;
      ghost var before := memory[..];
      if disp < 1 || thunk == 0 {
        return false, None;
      }
      var opcode := memory[disp - 1];
      if opcode != CALL_OPCODE {
        return false, None;
      }
      kept := Some(Saved(opcode, memory[disp..disp + 4], CallTarget(memory[..], disp)));
      if !unprotected {
        return false, kept;
      }
      var words := StoreLe32(Displacement(disp, thunk));
      WriteMemory(disp, words);
      PatchedCallGoesToThunk(before, disp, thunk);
      PatchUndone(before, disp, words);
      forall p: nat | p + 4 <= memory.Length && Apart(p, disp)
        ensures CallTarget(memory[..], p) == CallTarget(before, p)
      {
        PatchElsewhere(before, p, disp, words);
      }
      ok := true;
    }

    /** A configured call is redirected exactly when all of this holds of the memory found. */
    predicate CanInstall(isConfigured: bool, disp: nat, thunk: word, unprotected: bool, m: seq<byte>)
      requires isConfigured ==> disp + 4 <= |m|
    {
      isConfigured && disp >= 1 && thunk != 0 && unprotected && m[disp - 1] == CALL_OPCODE
    }

    ghost function AfterOne(isConfigured: bool, disp: nat, thunk: word, unprotected: bool, m: seq<byte>): (r: seq<byte>)
      requires isConfigured ==> disp + 4 <= |m|
      ensures |r| == |m|
    {
      if CanInstall(isConfigured, disp, thunk, unprotected, m) then Redirected(m, disp, thunk) else m
    }

    lemma AfterOneIs(m: seq<byte>, isConfigured: bool, disp: nat, thunk: word, unprotected: bool)
      requires isConfigured ==> disp + 4 <= |m|
      ensures CanInstall(isConfigured, disp, thunk, unprotected, m) ==>
                isConfigured && AfterOne(isConfigured, disp, thunk, unprotected, m) == Redirected(m, disp, thunk)
    {
    }

    method InstallPrimary(thunk: word, unprotected: bool) returns (attempted: bool)
      requires Valid() && !installed && !secondaryInstalled && !installSucceeded
      modifies this`saved, this`originalPrimary, this`installed, this`installSucceeded, memory
      ensures Valid() && attempted == (configured && primaryDisp >= 1 && thunk != 0)
      ensures installSucceeded == installed == CanInstall(configured, primaryDisp, thunk, unprotected, old(memory[..]))
      ensures memory[..] == AfterOne(configured, primaryDisp, thunk, unprotected, old(memory[..]))
      ensures !installed ==> memory[..] == old(memory[..])
      ensures installed ==>
        CallTarget(memory[..], primaryDisp) == thunk && Patch(memory[..], primaryDisp, saved.disp) == old(memory[..])
      ensures installed ==> saved.target == CallTarget(old(memory[..]), primaryDisp) == originalPrimary
      ensures forall p: nat :: p + 4 <= memory.Length && Apart(p, primaryDisp) ==>
        CallTarget(memory[..], p) == CallTarget(old(memory[..]), p)
    {
      hide Redirected, CallTarget, Patch;
      attempted := false;
      if configured && primaryDisp >= 1 && thunk != 0 {
        attempted := true;
        var ok, kept := InstallCall(primaryDisp, thunk, unprotected);
        if kept.Some? {
          saved, originalPrimary := kept.value, kept.value.target;
        }
        if ok {
          installed, installSucceeded := true, true;
        }
      }
    }

    method InstallSecondary(thunk: word, unprotected: bool) returns (attempted: bool)
      requires Valid() && !secondaryInstalled
      modifies this`savedSecondary, this`originalSecondary, this`secondaryInstalled, this`installSucceeded, memory
      ensures Valid() && attempted == (secondaryConfigured && secondaryDisp >= 1 && thunk != 0)
      ensures secondaryInstalled == CanInstall(secondaryConfigured, secondaryDisp, thunk, unprotected, old(memory[..]))
      ensures installSucceeded == (old(installSucceeded) || secondaryInstalled)
      ensures memory[..] == AfterOne(secondaryConfigured, secondaryDisp, thunk, unprotected, old(memory[..]))
      ensures !secondaryInstalled ==> memory[..] == old(memory[..])
      ensures secondaryInstalled ==>
        CallTarget(memory[..], secondaryDisp) == thunk
          && Patch(memory[..], secondaryDisp, savedSecondary.disp) == old(memory[..])
      ensures secondaryInstalled ==>
        savedSecondary.target == CallTarget(old(memory[..]), secondaryDisp) == originalSecondary
      ensures forall p: nat :: p + 4 <= memory.Length && Apart(p, secondaryDisp) ==>
        CallTarget(memory[..], p) == CallTarget(old(memory[..]), p)
    {
      hide Redirected, CallTarget, Patch;
      attempted := false;
      if secondaryConfigured && secondaryDisp >= 1 && thunk != 0 {
        attempted := true;
        var ok, kept := InstallCall(secondaryDisp, thunk, unprotected);
        if kept.Some? {
          savedSecondary, originalSecondary := kept.value, kept.value.target;
        }
        if ok {
          secondaryInstalled, installSucceeded := true, true;
        }
      }
    }

    /** Whether an installation has anything to do. */
    predicate Wanted(graphicsCallback: word) {
      graphicsCallback != 0 && enabled && (configured || secondaryConfigured)
    }

    /**
     * `samp_hook_bridge_install_graphics_callback`. The thunk addresses are what the allocator returned (0 for none).
     * Whatever succeeds or fails, taking out what is then installed gives back the memory found on entry.
     */
    method Install(graphicsCallback: word, thunk: word, thunkSecondary: word, unprotected: bool,
                   unprotectedSecondary: bool)
      returns (rc: int)
      requires Valid()
      modifies this, memory
      ensures Valid()
      // which calls are redirected, and what the memory then is
      ensures Wanted(graphicsCallback) ==>
        var mid := AfterOne(configured, primaryDisp, thunk, unprotected, old(memory[..]));
        && installed == CanInstall(configured, primaryDisp, thunk, unprotected, old(memory[..]))
        && secondaryInstalled ==
          CanInstall(secondaryConfigured, secondaryDisp, thunkSecondary, unprotectedSecondary, mid)
        && memory[..] == AfterOne(secondaryConfigured, secondaryDisp, thunkSecondary, unprotectedSecondary, mid)
      ensures !Wanted(graphicsCallback) ==> memory[..] == old(memory[..])
      ensures graphicsCallback == 0 ==> Restored() == old(Restored())
      ensures graphicsCallback != 0 ==>
        Restored() == old(memory[..]) && installSucceeded == (installed || secondaryInstalled)
      // the redirected calls go to their thunks, the first unless the second was written over it, and the saved targets
      // are where the calls went when they were patched
      ensures Wanted(graphicsCallback) && installed ==>
        && saved.target == CallTarget(old(memory[..]), primaryDisp) == originalPrimary
        && (Apart(primaryDisp, secondaryDisp) ==> CallTarget(memory[..], primaryDisp) == thunk)
        && (CallTarget(memory[..], primaryDisp) == thunk <==>
              !secondaryInstalled ||
              Agree(primaryDisp, StoreLe32(Displacement(primaryDisp, thunk)),
                    secondaryDisp, StoreLe32(Displacement(secondaryDisp, thunkSecondary))))
      ensures Wanted(graphicsCallback) && secondaryInstalled ==>
        && CallTarget(memory[..], secondaryDisp) == thunkSecondary
        && savedSecondary.target == originalSecondary
             == CallTarget(AfterOne(configured, primaryDisp, thunk, unprotected, old(memory[..])), secondaryDisp)
      ensures callback == if !Wanted(graphicsCallback) then old(callback) else if installSucceeded then graphicsCallback
        else 0
      ensures rc == if graphicsCallback == 0 then -1
                    else if !Wanted(graphicsCallback) || installSucceeded then 0
                    else if (configured && primaryDisp >= 1 && thunk != 0)
                            || (secondaryConfigured && secondaryDisp >= 1 && thunkSecondary != 0)
                    then -1 else 0
    {
      hide Redirected, CallTarget, Patch, AfterOne, CanInstall, Agree;
      if graphicsCallback == 0 {
        return -1;
      }
      ghost var before := memory[..];
      installAttempted := true;
      installed, secondaryInstalled, installSucceeded := false, false, false;
      if !enabled || (!configured && !secondaryConfigured) {
        return 0;
      }
      callback := graphicsCallback;
      originalPrimary, originalSecondary := 0, 0;
      var primaryAttempted := InstallPrimary(thunk, unprotected);
      if installed && secondaryConfigured {
        FirstCallAfterSecond(before, primaryDisp, thunk, secondaryDisp, thunkSecondary);
        if Apart(primaryDisp, secondaryDisp) {
          ApartWindows(before, primaryDisp, thunk, secondaryDisp, thunkSecondary);
        }
      }
      AfterOneIs(before, configured, primaryDisp, thunk, unprotected);
      AfterOneIs(memory[..], secondaryConfigured, secondaryDisp, thunkSecondary, unprotectedSecondary);
      var secondaryAttempted := InstallSecondary(thunkSecondary, unprotectedSecondary);
      if installSucceeded {
        return 0;
      }
      callback, originalPrimary, originalSecondary := 0, 0, 0;
      rc := if primaryAttempted || secondaryAttempted then -1 else 0;
    }

    /**
     * `samp_hook_bridge_uninstall`: last in, first out. A call whose page protection cannot be lifted stays patched,
     * and is no longer taken to be.
     */
    method Uninstall(unprotected: bool, unprotectedSecondary: bool)
      requires Valid()
      modifies this, memory
      ensures Valid()
      ensures var mid := if old(secondaryInstalled) && unprotectedSecondary
                         then Patch(old(memory[..]), secondaryDisp, old(savedSecondary).disp) else old(memory[..]);
              memory[..] == if old(installed) && unprotected then Patch(mid, primaryDisp, old(saved).disp) else mid
      ensures unprotected && unprotectedSecondary ==> memory[..] == old(Restored())
      ensures !installed && !secondaryInstalled && !installSucceeded
      ensures callback == 0 && originalPrimary == 0 && originalSecondary == 0
    {
      hide Patch;
      if secondaryInstalled {
        if unprotectedSecondary {
          WriteMemory(secondaryDisp, savedSecondary.disp);
        }
        secondaryInstalled := false;
      }
      if installed {
        if unprotected {
          WriteMemory(primaryDisp, saved.disp);
        }
        installed := false;
      }
      installSucceeded := false;
      callback, originalPrimary, originalSecondary := 0, 0, 0;
    }
  }

  /**
   * Both addresses configured to the same call: it goes to the second thunk, and so to the first exactly when they
   * are the same; what the second thunk takes for the original is the first thunk.
   */
  method InstallOnSameCall(b: Bridge, callback: word, thunk: word, thunkSecondary: word)
    requires b.Valid() && b.Wanted(callback) && b.configured && b.secondaryConfigured
      && b.primaryDisp == b.secondaryDisp
    requires b.CanInstall(true, b.primaryDisp, thunk, true, b.memory[..]) && thunkSecondary != 0
    modifies b, b.memory
    ensures b.installed && b.secondaryInstalled && CallTarget(b.memory[..], b.primaryDisp) == thunkSecondary
    ensures CallTarget(b.memory[..], b.primaryDisp) == thunk <==> thunk == thunkSecondary
    ensures b.originalPrimary == CallTarget(old(b.memory[..]), b.primaryDisp) && b.originalSecondary == thunk
  {
    hide CallTarget, Displacement, StoreLe32, Agree;
    ghost var before := b.memory[..];
    assert Redirected(before, b.primaryDisp, thunk)[b.primaryDisp - 1] == before[b.primaryDisp - 1];
    EqualWindows(before, b.primaryDisp, thunk, thunkSecondary);
    var rc := b.Install(callback, thunk, thunkSecondary, true, true);
  }

  /**
   * From an uninstalled state: install then uninstall leaves the code memory exactly as it was, for any two
   * addresses.
   */
  method InstallThenUninstall(b: Bridge, callback: word, thunk: word, thunkSecondary: word,
                              unprotected: bool, unprotectedSecondary: bool)
    requires b.Valid() && !b.installed && !b.secondaryInstalled
    modifies b, b.memory
    ensures b.memory[..] == old(b.memory[..])
  {
    var rc := b.Install(callback, thunk, thunkSecondary, unprotected, unprotectedSecondary);
    b.Uninstall(true, true);
  }

  /**
   * Installing a second time forgets the octets saved by the first: uninstalling then goes back to what the first
   * installation left, whatever is installed the second time.
   */
  method InstallTwiceThenUninstall(b: Bridge, callback: word, thunk: word, thunkSecondary: word, again: word,
                                   againSecondary: word)
    requires b.Valid() && !b.installed && !b.secondaryInstalled && b.Wanted(callback)
    modifies b, b.memory
    ensures b.memory[..] == b.AfterOne(b.secondaryConfigured, b.secondaryDisp, thunkSecondary, true,
                                       b.AfterOne(b.configured, b.primaryDisp, thunk, true, old(b.memory[..])))
  {
    hide CallTarget, Patch, Bridge.AfterOne, Bridge.CanInstall, Agree;
    var rc := b.Install(callback, thunk, thunkSecondary, true, true);
    rc := b.Install(callback, again, againSecondary, true, true);
    b.Uninstall(true, true);
  }

  /**
   * With one call redirected, that is the memory found before exactly when the call already went to the first thunk.
   */
  lemma RedirectedIsNoChange(m: seq<byte>, disp: nat, thunk: word)
    requires disp + 4 <= |m|
    ensures Redirected(m, disp, thunk) == m <==> CallTarget(m, disp) == thunk
  {
    hide StoreLe32, Displacement, CallTarget;
    TargetIsDisplacement(m, disp, thunk);
    var d := StoreLe32(Displacement(disp, thunk));
    assert Redirected(m, disp, thunk)[disp..disp + 4] == d;
    if m[disp..disp + 4] == d {
      assert m == m[..disp] + m[disp..disp + 4] + m[disp + 4..];
    }
  }

  /** With two calls that lie apart redirected: exactly when both already went to their thunks. */
  lemma BothRedirectedIsNoChange(m: seq<byte>, p: nat, thunk: word, s: nat, thunkSecondary: word)
    requires p + 4 <= |m| && s + 4 <= |m| && Apart(p, s)
    ensures Redirected(Redirected(m, p, thunk), s, thunkSecondary) == m <==>
            CallTarget(m, p) == thunk && CallTarget(m, s) == thunkSecondary
  {
    hide CallTarget, Redirected;
    ApartWindows(m, p, thunk, s, thunkSecondary);
    if CallTarget(m, p) == thunk && CallTarget(m, s) == thunkSecondary {
      RedirectedIsNoChange(m, p, thunk);
      RedirectedIsNoChange(m, s, thunkSecondary);
    }
  }

  // ----- octet by octet

  /** A call goes to the address behind it plus its displacement, which may be negative. */
  lemma CallOctets(m: seq<byte>, disp: nat)
    requires disp + 4 <= |m| && disp + 4 < W
    ensures m[disp..disp + 4] == [0x10, 0x32, 0x54, 0x00] ==> CallTarget(m, disp) == (disp + 4 + 0x54_3210) % W
    ensures m[disp..disp + 4] == [0xFC, 0xFF, 0xFF, 0xFF] ==> CallTarget(m, disp) == disp
  {
    assert m[disp..disp + 4] == [m[disp], m[disp + 1], m[disp + 2], m[disp + 3]];
  }

  /** What redirecting a call writes: the distance from the octet behind it, lowest octet first. */
  lemma RedirectedOctets(m: seq<byte>, disp: nat, thunk: word)
    requires disp + 4 <= |m| && thunk == disp + 4 + 0x0403_0201
    ensures Redirected(m, disp, thunk) == m[..disp] + [0x01, 0x02, 0x03, 0x04] + m[disp + 4..]
  {
  }

  /** A configured call is installed exactly at an opcode 0xE8. */
  lemma InstalledExactly(b: Bridge, disp: nat, thunk: word, m: seq<byte>)
    requires disp + 4 <= |m|
    ensures b.CanInstall(true, disp, thunk, true, m) <==> disp > 0 && thunk != 0 && m[disp - 1] == 0xE8
    ensures !b.CanInstall(false, disp, thunk, true, m) && !b.CanInstall(true, disp, thunk, false, m)
  {
  }

  /** When an installation does anything at all. */
  lemma WantedExactly(b: Bridge, callback: word)
    ensures b.Wanted(callback) <==> callback != 0 && b.enabled && (b.configured || b.secondaryConfigured)
  {
  }
}
