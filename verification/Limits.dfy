/** How many processes there can be, and what the descriptor tables promise. */
module Limits {
  import opened Bytes
  import Command
  import FileSystem
  import opened SlotMask
  import opened System
  import opened SystemInvariant

  // ---------------------------------------------------------------- process slots

  function Slots(stack: seq<Process>): set<nat> {
    if stack == [] then {} else {stack[0].slot} + Slots(stack[1..])
  }

  lemma {:induction false} SlotsAreTheSlots(stack: seq<Process>, i: nat)
    ensures i in Slots(stack) <==> HasSlot(stack, i)
  {
    if stack != [] {
      SlotsAreTheSlots(stack[1..], i);
      if HasSlot(stack[1..], i) {
        var d :| 0 <= d < |stack[1..]| && stack[1..][d].slot == i;
        assert stack[d + 1].slot == i;
      }
      if HasSlot(stack, i) && stack[0].slot != i {
        var d :| 0 <= d < |stack| && stack[d].slot == i;
        assert stack[1..][d - 1].slot == i;
      }
    }
  }

  lemma {:induction false} DistinctSlotsCount(stack: seq<Process>)
    requires forall d, e :: 0 <= d < e < |stack| ==> stack[d].slot != stack[e].slot
    ensures |Slots(stack)| == |stack|
  {
    if stack != [] {
      DistinctSlotsCount(stack[1..]);
      SlotsAreTheSlots(stack[1..], stack[0].slot);
    }
  }

  function Below(n: nat): (r: set<nat>)
    ensures |r| == n && forall i :: i in r <==> 0 <= i < n
  {
    if n == 0 then {} else Below(n - 1) + {n - 1}
  }

  // The lemmas from here to AllSlotsCount take the invariant as one fact: `== true` keeps a call from
  // proving it conjunct by conjunct.

  lemma StackSlots(s: System, sched: bool, t: nat)
    requires Inv(s, sched) == true && t < TERMINALS
    ensures |Slots(s.stacks[t])| == |s.stacks[t]|
    ensures forall i :: i in Slots(s.stacks[t]) ==> i < MAX_PROG_NUM
    ensures forall i: nat :: i in Slots(s.stacks[t]) <==> HasSlot(s.stacks[t], i)
  {
    forall d, e | 0 <= d < e < |s.stacks[t]| ensures s.stacks[t][d].slot != s.stacks[t][e].slot {
      assert At(s.stacks, t, d) && At(s.stacks, t, e);
    }
    DistinctSlotsCount(s.stacks[t]);
    forall i: nat ensures i in Slots(s.stacks[t]) <==> HasSlot(s.stacks[t], i) {
      SlotsAreTheSlots(s.stacks[t], i);
    }
    forall i | i in Slots(s.stacks[t]) ensures i < MAX_PROG_NUM {
      var d :| 0 <= d < |s.stacks[t]| && s.stacks[t][d].slot == i;
      assert At(s.stacks, t, d);
    }
  }

  lemma StacksDisjoint(s: System, sched: bool, t: nat, u: nat)
    requires Inv(s, sched) == true && t < u < TERMINALS
    ensures Slots(s.stacks[t]) !! Slots(s.stacks[u])
  {
    StackSlots(s, sched, t);
    StackSlots(s, sched, u);
    forall i | i in Slots(s.stacks[t]) ensures i !in Slots(s.stacks[u]) {
      var d :| 0 <= d < |s.stacks[t]| && s.stacks[t][d].slot == i;
      assert At(s.stacks, t, d);
      if HasSlot(s.stacks[u], i) {
        var e :| 0 <= e < |s.stacks[u]| && s.stacks[u][e].slot == i;
        assert At(s.stacks, u, e);
      }
    }
  }

  lemma EqualCards(a: set<nat>, b: set<nat>)
    requires a <= b
    ensures |a| <= |b| && (|a| == |b| <==> a == b)
  {
    assert b == a + (b - a);
  }

  function AllSlots(s: System): set<nat>
    requires |s.stacks| == TERMINALS
  {
    Slots(s.stacks[0]) + Slots(s.stacks[1]) + Slots(s.stacks[2])
  }

  lemma AllSlotsCount(s: System, sched: bool)
    requires Inv(s, sched) == true && |s.stacks| == TERMINALS
    ensures |AllSlots(s)| == |s.stacks[0]| + |s.stacks[1]| + |s.stacks[2]|
    ensures forall i :: i in AllSlots(s) ==> i < MAX_PROG_NUM
  {
    var a, b, c := Slots(s.stacks[0]), Slots(s.stacks[1]), Slots(s.stacks[2]);
    StackCounts(s, sched, 0, a);
    StackCounts(s, sched, 1, b);
    StackCounts(s, sched, 2, c);
    StacksDisjoint(s, sched, 0, 1);
    StacksDisjoint(s, sched, 0, 2);
    StacksDisjoint(s, sched, 1, 2);
    CountThree(a, b, c);
  }

  lemma StackCounts(s: System, sched: bool, t: nat, a: set<nat>)
    requires Inv(s, sched) == true && t < TERMINALS && a == Slots(s.stacks[t])
    ensures |a| == |s.stacks[t]| && forall i :: i in a ==> i < MAX_PROG_NUM
  {
    StackSlots(s, sched, t);
  }

  lemma CountThree(a: set<nat>, b: set<nat>, c: set<nat>)
    requires a !! b && a !! c && b !! c
    ensures |a + b + c| == |a| + |b| + |c|
  {
  }

  lemma AllSlotsAreInUse(s: System, i: nat)
    requires |s.stacks| == TERMINALS
    ensures i in AllSlots(s) <==> InUse(s, i)
  {
    SlotsAreTheSlots(s.stacks[0], i);
    SlotsAreTheSlots(s.stacks[1], i);
    SlotsAreTheSlots(s.stacks[2], i);
  }

  lemma CountBelow(all: set<nat>, n: nat)
    requires forall i :: i in all ==> i < n
    ensures |all| <= n && (|all| == n <==> forall i: nat :: i < n ==> i in all)
  {
    EqualCards(all, Below(n));
  }

  /** At most 7 processes live, and execute finds no slot exactly when 7 do. */
  lemma AtMostSeven(s: System, sched: bool)
    requires Inv(s, sched)
    ensures |s.stacks[0]| + |s.stacks[1]| + |s.stacks[2]| <= MAX_PROG_NUM
    ensures FreeSlot(s).None? <==> |s.stacks[0]| + |s.stacks[1]| + |s.stacks[2]| == MAX_PROG_NUM
  {
    var all := AllSlots(s);
    AllSlotsCount(s, sched);
    CountBelow(all, MAX_PROG_NUM);
    forall i: nat ensures i in all <==> InUse(s, i) {
      AllSlotsAreInUse(s, i);
    }
  }

  // ---------------------------------------------------------------- descriptors

  lemma {:induction false} ClosesAreNotNull(files: seq<Option<OpenFile>>, fd: nat)
    requires ValidFiles(files) && 2 <= fd <= MAX_FILES
    ensures NullEntry !in ClosesFrom(files, fd)
    decreases MAX_FILES - fd
  {
    if fd < MAX_FILES {
      ClosesAreNotNull(files, fd + 1);
    }
  }

  /** No step calls through an empty entry of an operations table, nor do the closes inside a halt. */
  lemma NeverCallsNull(s: System, img: FileSystem.Image, sched: bool, e: Event)
    requires FileSystem.ValidImage(img) && Inv(s, sched) && Enabled(s, img, sched, e)
    ensures Step(s, img, sched, e).1 != Dispatch(NullEntry)
    ensures e.Halt? ==> HasFiles(s) && NullEntry !in HaltCloses(s)
  {
    match e
    case Execute(command, frame) => ExecuteCases(s, img, command, frame);
    case FKey(dest, ctx, frame) =>
      if !sched && FirstSwitch(s, dest) {
        StartNeverDispatches(MarkStarted(s, dest), img, sched, s.active, dest, ctx, frame);
      }
    case Tick(ctx, frame) =>
      var next := NextTerminal(s.running);
      if sched && Nonempty(s, s.running) && !Nonempty(s, next) {
        StartNeverDispatches(Activate(s, next), img, sched, s.running, next, ctx, frame);
      }
    case Halt(_, _) =>
      TopIsSound(s, sched, s.running);
      ClosesAreNotNull(Top(s, s.running).files, 2);
    case CloseFd(fd) => if 2 <= fd <= 7 { TopIsSound(s, sched, s.running); StdFilesAreFirst(s, sched, fd); }
    case ReadFd(fd, _, _) => if 0 <= fd <= 7 { TopIsSound(s, sched, s.running); StdFilesAreFirst(s, sched, fd); }
    case WriteFd(fd, _) => if 0 <= fd <= 7 { TopIsSound(s, sched, s.running); StdFilesAreFirst(s, sched, fd); }
    case _ =>
  }

  lemma StartNeverDispatches(s: System, img: FileSystem.Image, sched: bool, old_: nat, dest: nat, ctx: Ctx, frame: CallFrame)
    requires FileSystem.ValidImage(img) && Inv(s, sched) && Nonempty(s, old_) && old_ < TERMINALS && dest < TERMINALS
    requires ExecuteEnabled(img, Some(Command.SHELL), frame)
    ensures !SwitchAndStart(s, img, old_, dest, ctx, frame).1.Dispatch?
  {
    ExecuteCases(SaveTop(s, old_, ctx).(running := dest), img, Some(Command.SHELL), frame);
  }

  lemma SetTopBack(s: System, t: nat, p: Process)
    requires Nonempty(s, t)
    ensures SetTop(SetTop(s, t, p), t, Top(s, t)) == s
  {
    assert SetTop(SetTop(s, t, p), t, Top(s, t)).stacks[t] == s.stacks[t];
    assert SetTop(SetTop(s, t, p), t, Top(s, t)).stacks == s.stacks;
  }

  /** Open takes the lowest closed descriptor from 2 on and gives back what close needs; it fails
      exactly when the name is missing or unknown or all six are open. */
  lemma OpenTakesTheLowest(s: System, img: FileSystem.Image, sched: bool, filename: Option<seq<Byte>>, s': System, r: int)
    requires FileSystem.ValidImage(img) && Inv(s, sched) && HasFiles(s)
    requires (s', Return(r)) == OpenStep(s, img, filename)
    ensures r == -1 <==>
              || filename.None? || filename.value == [] || FileSystem.Lookup(img, filename.value).None?
              || forall fd :: 2 <= fd < MAX_FILES ==> Top(s, s.running).files[fd].Some?
    ensures r == -1 ==> s' == s
    ensures r != -1 ==>
              && 2 <= r < MAX_FILES && HasFiles(s')
              && Top(s, s.running).files[r].None? && Top(s', s.running).files[r].Some?
              && (forall fd :: 2 <= fd < r ==> Top(s, s.running).files[fd].Some?)
              && CloseStep(s', r).0 == s
  {
    if r != -1 {
      var p, p' := Top(s, s.running), Top(s', s.running);
      assert p'.files[r := None] == p.files;
      SetTopBack(s, s.running, p');
    }
  }
}
