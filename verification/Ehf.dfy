/** EL3 exception priorities: activation levels as a bitmap, and the interrupt controller's priority mask. */
module Ehf {
  import opened Numbers
  import opened Bitwise
  import opened Wrappers

  type prio = x: nat | x < 256

  const GIC_HIGHEST_NS_PRIORITY: prio := 0x80

  /** exception_data: how many top bits of a priority select a level, and which levels exist. */
  datatype Platform = Platform(bits: nat, levels: seq<bool>)
  {
    ghost predicate Ok() { bits <= 7 && |levels| <= 32 }
  }

  function Idx(pf: Platform, pri: nat): nat
    requires pf.Ok()
  {
    PowPos(2, 7 - pf.bits);
    (pri % 0x80) / Pow(2, 7 - pf.bits)
  }

  /** A level is the top pf.bits of the seven low bits of its priority, whatever the platform's number of them. */
  lemma LevelBits(pf: Platform, pri: nat, i: nat)
    requires pf.Ok()
    ensures Bit(Idx(pf, pri), i) <==> i < pf.bits && Bit(pri, i + 7 - pf.bits)
  {
    hide Pow;
    var e := 7 - pf.bits;
    PowPos(2, e);
    ShiftedBit(pri % 0x80, e, i);
    Pow7();
    MaskedBit(pri, 7, e + i);
  }

  lemma Pow7()
    ensures Pow(2, 7) == 0x80
  {
  }

  /** Level i belongs to the priorities from i * 2^(7 - bits) up to the next such multiple; the first of them is what
      IDX_TO_PRI gives back. */
  lemma LevelRange(pf: Platform, pri: nat, i: nat)
    requires pf.Ok() && pri < 0x80
    ensures Idx(pf, pri) == i <==> i * Pow(2, 7 - pf.bits) <= pri < (i + 1) * Pow(2, 7 - pf.bits)
  {
    hide Pow;
    var d := Pow(2, 7 - pf.bits);
    PowPos(2, 7 - pf.bits);
    Distr(d, i, 1);
    var q := QuotRem(pri, d);
    if i * d <= pri < (i + 1) * d {
      DivModUnique(pri, d, i, pri - i * d);
    }
  }

  /** The two assertions of pri_to_idx. */
  predicate Known(pf: Platform, pri: nat)
    requires pf.Ok()
  {
    Idx(pf, pri) < |pf.levels| && pf.levels[Idx(pf, pri)]
  }

  predicate Secure(pri: nat)
  {
    (pri / 0x80) % 2 == 0
  }

  // ---------------------------------------------------------------- the machine as a stack

  /** What callers see of a PE: the outstanding levels, oldest first, two saved masks, and the mask register. */
  datatype View = View(stack: seq<nat>, init: prio, ns: prio, mask: prio)

  /** Calls, each with the running priority the interrupt controller reports, and mask writes by other software. */
  datatype Event =
    | Activate(pri: nat, run: prio)
    | Deactivate(pri: nat, run: prio)
    | ExitedNormalWorld(run: prio)
    | EnteringNormalWorld(run: prio)
    | AllowNsPreemption
    | MaskWritten(m: prio)

  /** None is a panic or a failed assertion. */
  function Step(pf: Platform, s: View, e: Event): Option<View>
    requires pf.Ok()
  {
    var top := |s.stack| - 1;
    match e
    case Activate(pri, run) =>
      if pri < run && Known(pf, pri) && (top >= 0 ==> Idx(pf, pri) < s.stack[top]) && pri < s.mask then
        Some(View(s.stack + [Idx(pf, pri)], if top < 0 then s.mask else s.init, s.ns, pri))
      else
        None
    case Deactivate(pri, run) =>
      if pri < run && Known(pf, pri) && top >= 0 && Idx(pf, pri) == s.stack[top] && s.mask <= pri then
        Some(View(s.stack[..top], s.init, s.ns, if top == 0 then s.init else pri))
      else
        None
    case ExitedNormalWorld(run) =>
      if Secure(run) || top >= 0 then Some(s)
      else if s.ns == 0 && !Secure(s.mask) then Some(s.(ns := s.mask, mask := GIC_HIGHEST_NS_PRIORITY))
      else None
    case EnteringNormalWorld(run) =>
      if Secure(run) || top >= 0 || s.ns == 0 then Some(s)
      else if s.mask == GIC_HIGHEST_NS_PRIORITY || s.mask == s.ns then Some(s.(mask := s.ns, ns := 0))
      else None
    case AllowNsPreemption =>
      if s.ns != 0 && top < 0 then Some(s.(mask := s.ns, ns := 0)) else None
    case MaskWritten(m) =>
      Some(s.(mask := m))
  }

  // ---------------------------------------------------------------- the code, on the bitmap

  ghost predicate Descending(st: seq<nat>)
  {
    forall i, j :: 0 <= i < j < |st| ==> st[j] < st[i]
  }

  /** The set bits are exactly the outstanding levels. */
  ghost predicate Represents(bits: nat, st: seq<nat>)
  {
    && bits < Pow(2, 32)
    && Descending(st)
    && (forall i: nat :: Bit(bits, i) <==> i in st)
  }

  lemma HighestIsTop(bits: nat, st: seq<nat>)
    requires Represents(bits, st)
    ensures bits == 0 <==> st == []
    ensures bits > 0 ==> Ctz(bits) == st[|st| - 1]
  {
    if bits == 0 {
      if st != [] {
        ZeroHasNoBits(st[0]);
      }
    } else {
      SomeBit(bits);
      var i :| 0 <= i < |st| && st[i] == Ctz(bits);
      if i < |st| - 1 {
        assert Bit(bits, st[|st| - 1]);
      }
    }
  }

  lemma PushBit(bits: nat, st: seq<nat>, idx: nat)
    requires Represents(bits, st) && idx < 32 && (st != [] ==> idx < st[|st| - 1])
    ensures Represents(Or(bits, Pow(2, idx)), st + [idx])
  {
    hide Pow;
    PowStrict(2, idx, 32);
    OrBound(bits, Pow(2, idx), 32);
    forall i: nat
      ensures Bit(Or(bits, Pow(2, idx)), i) <==> i in st + [idx]
    {
      BitOr(bits, Pow(2, idx), i);
      BitOfPow(idx, i);
    }
  }

  lemma PopBit(bits: nat, st: seq<nat>)
    requires Represents(bits, st) && bits > 0
    ensures st != [] && Represents(And(bits, bits - 1), st[..|st| - 1])
  {
    hide Pow;
    HighestIsTop(bits, st);
    AndBound(bits, bits - 1);
    var rest := st[..|st| - 1];
    forall i: nat
      ensures Bit(And(bits, bits - 1), i) <==> i in rest
    {
      ClearLowest(bits, i);
      assert i in st <==> i in rest || i == st[|st| - 1];
    }
  }

  /** pe_exc_data_t of one PE together with its priority mask register. */
  class Pe {
    var activePriBits: nat
    var initPriMask: prio
    var nsPriMask: prio
    var mask: prio
    ghost var stack: seq<nat>

    ghost predicate Valid()
      reads this
    {
      Represents(activePriBits, stack)
    }

    ghost function State(): View
      reads this
    {
      View(stack, initPriMask, nsPriMask, mask)
    }

    constructor (m: prio)
      ensures Valid() && State() == View([], 0, 0, m)
    {
      activePriBits, initPriMask, nsPriMask, mask := 0, 0, 0, m;
      stack := [];
      new;
      forall i: nat
        ensures !Bit(0, i)
      {
        ZeroHasNoBits(i);
      }
      PowPos(2, 32);
    }

    /** plat_ic_set_priority_mask: writes the register and returns what it held. */
    method SetPriorityMask(m: prio) returns (old_mask: prio)
      modifies this`mask
      ensures old_mask == old(mask) && mask == m
    {
      old_mask := mask;
      mask := m;
    }

    /** -1 when no level is active, else the right-most set bit. */
    method HighestActive() returns (idx: int)
      requires Valid()
      ensures idx == if stack == [] then -1 else stack[|stack| - 1]
    {
      HighestIsTop(activePriBits, stack);
      if activePriBits == 0 {
        return -1;
      }
      return Ctz(activePriBits);
    }

    method ActivatePriority(pf: Platform, pri: nat, run: prio) returns (ok: bool)
      requires Valid() && pf.Ok()
      modifies this
      ensures ok <==> Step(pf, old(State()), Activate(pri, run)) != None
      ensures ok ==> Valid() && Step(pf, old(State()), Activate(pri, run)) == Some(State())
    {
      if pri >= run {
        return false;
      }
      var cur := HighestActive();
      if !Known(pf, pri) {
        return false;
      }
      var idx := Idx(pf, pri);
      if cur != -1 && idx >= cur {
        return false;
      }
      PushBit(activePriBits, stack, idx);
      activePriBits := Or(activePriBits, Pow(2, idx));
      stack := stack + [idx];
      var oldMask := SetPriorityMask(pri);
      if pri >= oldMask {
        return false;
      }
      if cur == -1 {
        initPriMask := oldMask;
      }
      return true;
    }

    method DeactivatePriority(pf: Platform, pri: nat, run: prio) returns (ok: bool)
      requires Valid() && pf.Ok()
      modifies this
      ensures ok <==> Step(pf, old(State()), Deactivate(pri, run)) != None
      ensures ok ==> Valid() && Step(pf, old(State()), Deactivate(pri, run)) == Some(State())
    {
      if pri >= run {
        return false;
      }
      var cur := HighestActive();
      if !Known(pf, pri) {
        return false;
      }
      if cur == -1 || Idx(pf, pri) != cur {
        return false;
      }
      HighestIsTop(activePriBits, stack);
      PopBit(activePriBits, stack);
      activePriBits := And(activePriBits, activePriBits - 1);
      stack := stack[..|stack| - 1];
      cur := HighestActive();
      var oldMask;
      if cur == -1 {
        oldMask := SetPriorityMask(initPriMask);
      } else {
        oldMask := SetPriorityMask(pri);
      }
      return oldMask <= pri;
    }

    method ExitedWorld(pf: Platform, run: prio) returns (ok: bool)
      requires Valid() && pf.Ok()
      modifies this
      ensures ok <==> Step(pf, old(State()), ExitedNormalWorld(run)) != None
      ensures ok ==> Valid() && Step(pf, old(State()), ExitedNormalWorld(run)) == Some(State())
    {
      HighestIsTop(activePriBits, stack);
      if Secure(run) || activePriBits != 0 {
        return true;
      }
      if nsPriMask != 0 {
        return false;
      }
      nsPriMask := SetPriorityMask(GIC_HIGHEST_NS_PRIORITY);
      return !Secure(nsPriMask);
    }

    method EnteringWorld(pf: Platform, run: prio) returns (ok: bool)
      requires Valid() && pf.Ok()
      modifies this
      ensures ok <==> Step(pf, old(State()), EnteringNormalWorld(run)) != None
      ensures ok ==> Valid() && Step(pf, old(State()), EnteringNormalWorld(run)) == Some(State())
    {
      HighestIsTop(activePriBits, stack);
      if Secure(run) || activePriBits != 0 || nsPriMask == 0 {
        return true;
      }
      var oldPmr := SetPriorityMask(nsPriMask);
      if oldPmr != GIC_HIGHEST_NS_PRIORITY && oldPmr != nsPriMask {
        return false;
      }
      nsPriMask := 0;
      return true;
    }

    method AllowPreemption(pf: Platform) returns (ok: bool)
      requires Valid() && pf.Ok()
      modifies this
      ensures ok <==> Step(pf, old(State()), AllowNsPreemption) != None
      ensures ok ==> Valid() && Step(pf, old(State()), AllowNsPreemption) == Some(State())
    {
      HighestIsTop(activePriBits, stack);
      if nsPriMask == 0 || activePriBits != 0 {
        return false;
      }
      var oldPmr := SetPriorityMask(nsPriMask);
      nsPriMask := 0;
      return true;
    }

    method IsNsPreemptionAllowed(run: prio) returns (allowed: bool)
      requires Valid()
      ensures allowed <==> !Secure(run) && stack == [] && nsPriMask == 0
    {
      HighestIsTop(activePriBits, stack);
      return !Secure(run) && activePriBits == 0 && nsPriMask == 0;
    }
  }

  // ---------------------------------------------------------------- runs

  function Run(pf: Platform, s: View, es: seq<Event>): Option<View>
    requires pf.Ok()
  {
    if es == [] then Some(s) else
      var before := Run(pf, s, es[..|es| - 1]);
      if before.None? then None else Step(pf, before.value, es[|es| - 1])
  }

  /** The activations not yet released, judged from the calls alone. */
  function Outstanding(pf: Platform, es: seq<Event>): seq<nat>
    requires pf.Ok()
  {
    if es == [] then [] else
      var st := Outstanding(pf, es[..|es| - 1]);
      match es[|es| - 1]
      case Activate(pri, _) => st + [Idx(pf, pri)]
      case Deactivate(_, _) => if st == [] then [] else st[..|st| - 1]
      case _ => st
  }

  /** From an idle PE, the stack is exactly the outstanding activations, higher priorities on top. */
  lemma {:induction false} StackIsOutstanding(pf: Platform, s0: View, es: seq<Event>)
    requires pf.Ok() && s0.stack == [] && Run(pf, s0, es).Some?
    ensures Run(pf, s0, es).value.stack == Outstanding(pf, es)
    ensures Descending(Outstanding(pf, es))
  {
    hide Idx;
    if es != [] {
      StackIsOutstanding(pf, s0, es[..|es| - 1]);
    }
  }

  lemma {:induction false} PrefixRuns(pf: Platform, s0: View, es: seq<Event>, k: nat)
    requires pf.Ok() && Run(pf, s0, es).Some? && k <= |es|
    ensures Run(pf, s0, es[..k]).Some?
  {
    if k < |es| {
      PrefixRuns(pf, s0, es[..|es| - 1], k);
      assert es[..|es| - 1][..k] == es[..k];
    } else {
      assert es[..k] == es;
    }
  }

  /** Call j opened the level at depth d: below it the stack is as it was then, and it never sank that far since. */
  ghost predicate OpensAt(pf: Platform, es: seq<Event>, d: nat, j: nat)
    requires pf.Ok()
  {
    var st := Outstanding(pf, es);
    && d < |st| && j < |es| && es[j].Activate? && Idx(pf, es[j].pri) == st[d]
    && Outstanding(pf, es[..j]) == st[..d]
    && forall k :: j < k <= |es| ==> |Outstanding(pf, es[..k])| > d
  }

  lemma {:induction false} EveryLevelHasAnOpener(pf: Platform, es: seq<Event>, d: nat)
    requires pf.Ok() && d < |Outstanding(pf, es)|
    ensures exists j: nat :: OpensAt(pf, es, d, j)
  {
    hide Idx;
    var n := |es| - 1;
    var prev := es[..n];
    var below, st := Outstanding(pf, prev), Outstanding(pf, es);
    assert es[..n + 1] == es;
    if d == |below| {
      assert st[..d] == below;
      assert OpensAt(pf, es, d, n);
    } else {
      EveryLevelHasAnOpener(pf, prev, d);
      var j: nat :| OpensAt(pf, prev, d, j);
      assert st[..d] == below[..d];
      assert prev[..j] == es[..j];
      forall k | j < k <= |es|
        ensures |Outstanding(pf, es[..k])| > d
      {
        if k <= n {
          assert prev[..k] == es[..k];
        }
      }
      assert OpensAt(pf, es, d, j);
    }
  }

  /** Release is last-in first-out: a deactivation undoes the activation that opened the level on top. */
  lemma ReleaseIsLifo(pf: Platform, s0: View, es: seq<Event>, pri: nat, run: prio)
    requires pf.Ok() && s0.stack == [] && Run(pf, s0, es + [Deactivate(pri, run)]).Some?
    ensures Outstanding(pf, es) != []
    ensures exists j: nat ::
      && OpensAt(pf, es, |Outstanding(pf, es)| - 1, j) && Idx(pf, es[j].pri) == Idx(pf, pri)
      && Outstanding(pf, es + [Deactivate(pri, run)]) == Outstanding(pf, es[..j])
  {
    hide Idx;
    var all := es + [Deactivate(pri, run)];
    assert all[..|all| - 1] == es;
    StackIsOutstanding(pf, s0, es);
    var st := Outstanding(pf, es);
    EveryLevelHasAnOpener(pf, es, |st| - 1);
    var j: nat :| OpensAt(pf, es, |st| - 1, j);
  }

  lemma {:induction false} SavedMaskIsKept(pf: Platform, s0: View, es: seq<Event>, j: nat)
    requires pf.Ok() && s0.stack == [] && Run(pf, s0, es).Some? && OpensAt(pf, es, 0, j)
    ensures Run(pf, s0, es[..j]).Some? && Run(pf, s0, es).value.init == Run(pf, s0, es[..j]).value.mask
  {
    hide Idx;
    var n := |es| - 1;
    var prev := es[..n];
    PrefixRuns(pf, s0, es, j);
    StackIsOutstanding(pf, s0, prev);
    if j < n {
      assert prev[..j] == es[..j];
      forall k | j < k <= n
        ensures |Outstanding(pf, prev[..k])| > 0
      {
        assert prev[..k] == es[..k];
      }
      assert prev[..n] == prev;
      FirstOpened(pf, es, j, n);
      SavedMaskIsKept(pf, s0, prev, j);
    }
  }

  /** While the stack stays nonempty its bottom stays what call j put there. */
  lemma {:induction false} FirstOpened(pf: Platform, es: seq<Event>, j: nat, k: nat)
    requires pf.Ok() && OpensAt(pf, es, 0, j) && j < k <= |es|
    ensures Outstanding(pf, es[..k]) != [] && Outstanding(pf, es[..k])[0] == Idx(pf, es[j].pri)
  {
    hide Idx;
    assert es[..k][..k - 1] == es[..k - 1];
    if j + 1 < k {
      FirstOpened(pf, es, j, k - 1);
    }
  }

  /** When the last level is released the mask is what it was before the first was activated,
      whatever was written to it in between. */
  lemma EmptyStackRestoresMask(pf: Platform, s0: View, es: seq<Event>, pri: nat, run: prio)
    requires pf.Ok() && s0.stack == [] && Run(pf, s0, es + [Deactivate(pri, run)]).Some?
    requires Outstanding(pf, es + [Deactivate(pri, run)]) == []
    ensures exists j: nat ::
      && OpensAt(pf, es, 0, j) && Run(pf, s0, es[..j]).Some?
      && Run(pf, s0, es + [Deactivate(pri, run)]).value.mask == Run(pf, s0, es[..j]).value.mask
  {
    hide Idx;
    var all := es + [Deactivate(pri, run)];
    assert all[..|all| - 1] == es;
    StackIsOutstanding(pf, s0, es);
    StackIsOutstanding(pf, s0, all);
    EveryLevelHasAnOpener(pf, es, 0);
    var j: nat :| OpensAt(pf, es, 0, j);
    SavedMaskIsKept(pf, s0, es, j);
  }

  /** An activation followed by its deactivation gives the mask back exactly when nothing else was
      active: with levels still active the register keeps the priority just dropped. */
  lemma MaskBackOnlyWhenOutermost(pf: Platform, s: View, pri: nat, run: prio, run': prio)
    requires pf.Ok() && Step(pf, s, Activate(pri, run)).Some?
    requires Step(pf, Step(pf, s, Activate(pri, run)).value, Deactivate(pri, run')).Some?
    ensures var after := Step(pf, Step(pf, s, Activate(pri, run)).value, Deactivate(pri, run')).value;
      && after.stack == s.stack
      && after.mask == (if s.stack == [] then s.mask else pri)
      && (after.mask == s.mask <==> s.stack == [])
  {
    hide Idx;
    assert (s.stack + [Idx(pf, pri)])[..|s.stack|] == s.stack;
  }

  /** Two nested levels with five priority bits: dropping the inner leaves mask 0x10, not 0x20. */
  lemma InnerReleaseKeepsDroppedLevel()
    ensures var pf := Platform(5, seq(32, _ => true));
      && pf.Ok()
      && Run(pf, View([], 0, 0, 0xFF), [Activate(0x20, 0xFF), Activate(0x10, 0xFF), Deactivate(0x10, 0xFF)])
         == Some(View([8], 0xFF, 0, 0x10))
  {
    var pf := Platform(5, seq(32, _ => true));
    PowTwice(1);
    PowOne(2);
    assert Idx(pf, 0x20) == 8 && Idx(pf, 0x10) == 4;
    assert Known(pf, 0x20) && Known(pf, 0x10);
    hide Idx, Known;
    var a, b, c := Activate(0x20, 0xFF), Activate(0x10, 0xFF), Deactivate(0x10, 0xFF);
    var s0 := View([], 0, 0, 0xFF);
    assert [a, b, c][..2] == [a, b] && [a, b][..1] == [a] && [a][..0] == [];
    assert s0.stack + [8] == [8] && [8] + [4] == [8, 4];
    assert Run(pf, s0, []) == Some(s0);
    assert Step(pf, s0, a) == Some(View([8], 0xFF, 0, 0x20));
    assert Run(pf, s0, [a]) == Some(View([8], 0xFF, 0, 0x20));
    assert Run(pf, s0, [a, b]) == Some(View([8, 4], 0xFF, 0, 0x10));
    assert [8, 4][..1] == [8];
  }

  // ---------------------------------------------------------------- a stay in the Secure world

  /** What may happen between leaving and re-entering the Non-secure world: explicit levels, a yielding
      call, and mask writes under an active level. */
  ghost predicate SecureStay(pf: Platform, es: seq<Event>)
    requires pf.Ok()
  {
    forall k :: 0 <= k < |es| ==>
      && !es[k].ExitedNormalWorld? && !es[k].EnteringNormalWorld?
      && (es[k].MaskWritten? ==> Outstanding(pf, es[..k]) != [])
  }

  lemma {:induction false} StayKeepsStash(pf: Platform, s: View, m: prio, es: seq<Event>)
    requires pf.Ok() && !Secure(m) && s.stack == [] && s.ns == m && s.mask == GIC_HIGHEST_NS_PRIORITY
    requires SecureStay(pf, es) && Run(pf, s, es).Some?
    ensures var t := Run(pf, s, es).value;
      && (t.ns == 0 || t.ns == m)
      && (if t.stack == [] then t.mask else t.init) == (if t.ns == m then GIC_HIGHEST_NS_PRIORITY else m)
  {
    hide Idx;
    if es != [] {
      var prev := es[..|es| - 1];
      forall k | 0 <= k < |prev|
        ensures prev[k] == es[k] && prev[..k] == es[..k]
      {
      }
      StayKeepsStash(pf, s, m, prev);
      StackIsOutstanding(pf, s, prev);
      hide Outstanding;
      StashStep(pf, Run(pf, s, prev).value, m, es[|es| - 1]);
    }
  }

  /** One step of a stay. */
  lemma StashStep(pf: Platform, t: View, m: prio, e: Event)
    requires pf.Ok() && !Secure(m) && (t.ns == 0 || t.ns == m)
    requires (if t.stack == [] then t.mask else t.init) == (if t.ns == m then GIC_HIGHEST_NS_PRIORITY else m)
    requires !e.ExitedNormalWorld? && !e.EnteringNormalWorld? && (e.MaskWritten? ==> t.stack != [])
    ensures Step(pf, t, e).Some? ==>
      var u := Step(pf, t, e).value;
      && (u.ns == 0 || u.ns == m)
      && (if u.stack == [] then u.mask else u.init) == (if u.ns == m then GIC_HIGHEST_NS_PRIORITY else m)
  {
    hide Idx;
  }

  /** A stay that releases all its levels ends without a panic and with the Non-secure mask back. */
  lemma WorldSwitchRestoresMask(pf: Platform, s: View, es: seq<Event>, run: prio, run': prio)
    requires pf.Ok() && s.stack == [] && s.ns == 0 && !Secure(s.mask) && !Secure(run) && !Secure(run')
    requires var inside := Step(pf, s, ExitedNormalWorld(run)).value;
      SecureStay(pf, es) && Run(pf, inside, es).Some? && Outstanding(pf, es) == []
    ensures Step(pf, s, ExitedNormalWorld(run)).Some?
    ensures var inside := Step(pf, s, ExitedNormalWorld(run)).value;
      var back := Step(pf, Run(pf, inside, es).value, EnteringNormalWorld(run'));
      back.Some? && back.value.(init := s.init) == s
  {
    hide Idx;
    var inside := Step(pf, s, ExitedNormalWorld(run)).value;
    StayKeepsStash(pf, inside, s.mask, es);
    StackIsOutstanding(pf, inside, es);
  }
}
