/** The fail-closed promotion of three trees and a release lock.

    Moves, the lock's and the journal's replacement, and the journal's removal are single
    steps; staging copies and archive pruning can stop half way.  The process can die
    between any two steps, recovery and the exception handler included. */
module TriplePromotion {
  datatype Tree = Absent | Partial | Whole(generation: nat)

  /** A destination, its backup in the archive, and its staged replacement. */
  datatype Place = Place(destination: Tree, backup: Tree, stage: Tree)

  datatype Which = Software | Catalogue | Image

  datatype Journal = NoJournal | Moving | Complete

  datatype Disk = Disk(software: Place, catalogue: Place, image: Place, lock: nat, journal: Journal)

  function Get(d: Disk, w: Which): Place {
    match w case Software => d.software case Catalogue => d.catalogue case Image => d.image
  }

  function Set(d: Disk, w: Which, p: Place): Disk {
    match w case Software => d.(software := p) case Catalogue => d.(catalogue := p) case Image => d.(image := p)
  }

  predicate All(d: Disk, p: Place -> bool) {
    p(d.software) && p(d.catalogue) && p(d.image)
  }

  // ---------- the machine ----------

  datatype Pc =
    | Idle
    | Recovering                 // recover_promotion: read the journal
    | Bring(w: Which)            // recover_promotion: move a backup to an absent destination
    | Judge                      // recover_promotion: complete rollback, or refuse
    | Ready                      // recovery returned: promote goes on
    | Stage(w: Which) | StageEnd(w: Which)
    | Prune                      // prune_candidate_archives, before the swap
    | CheckBackups
    | MoveOut(w: Which) | MoveIn(w: Which)
    | WriteLock | WriteComplete | Unlink
    | PruneAfter                 // prune_candidate_archives, once the journal is gone
    | Undo(w: Which)             // the exception handler

  /** `base` is the generation being replaced, `next` the one staged. */
  datatype State = State(disk: Disk, base: nat, next: nat, pc: Pc)

  function Then(w: Which, second: Pc, third: Pc, last: Pc): Pc {
    match w case Software => second case Catalogue => third case Image => last
  }

  /** os.replace(backup, destination) where the destination is absent and the backup exists. */
  function BroughtBack(p: Place): Place {
    if p.destination == Absent && p.backup != Absent then p.(destination := p.backup, backup := Absent) else p
  }

  predicate Judged(d: Disk) {
    All(d, (p: Place) => p.destination != Absent && p.backup == Absent)
  }

  predicate RecoveryStep(s: State, s': State) {
    var d := s.disk;
    && s'.base == s.base && s'.next == s.next
    && match s.pc
       case Recovering =>
         (match d.journal
          case NoJournal => s'.disk == d && s'.pc == Ready
          case Complete => s'.disk == d.(journal := NoJournal) && s'.pc == Ready
          case Moving => s'.disk == d && s'.pc == Bring(Software))
       case Bring(w) => s'.disk == Set(d, w, BroughtBack(Get(d, w)))
           && s'.pc == Then(w, Bring(Catalogue), Bring(Image), Judge)
       case Judge =>
         if Judged(d) then s'.disk == d.(journal := NoJournal) && s'.pc == Ready
         else s'.disk == d && s'.pc == Idle
       case _ => false
  }

  predicate PromotionStep(s: State, s': State) {
    var d := s.disk;
    match s.pc
    // the release is already current; else another generation is staged, over an emptied area
    case Ready =>
      || s' == s.(pc := PruneAfter)
      || (&& s'.disk == Unstaged(Unstaged(Unstaged(d, Software), Catalogue), Image)
          && s'.base == s.base && s'.next != d.lock && s'.pc == Stage(Software))
    case Stage(w) =>
      s'.base == s.base && s'.next == s.next && s'.disk == Set(d, w, Get(d, w).(stage := Partial))
          && s'.pc == StageEnd(w)
    case StageEnd(w) =>
      && s'.base == s.base && s'.next == s.next && s'.disk == Set(d, w, Get(d, w).(stage := Whole(s.next)))
      && s'.pc == Then(w, Stage(Catalogue), Stage(Image), Prune)
    case Prune => s'.base == s.base && s'.next == s.next && Prunes(d, s'.disk)
        && (s'.pc == Prune || s'.pc == CheckBackups)
    case PruneAfter => s'.base == s.base && s'.next == s.next && Prunes(d, s'.disk)
        && (s'.pc == PruneAfter || s'.pc == Idle)
    case CheckBackups =>
      && s'.next == s.next
      && if All(d, (p: Place) => p.backup == Absent)
         then s'.disk == d.(journal := Moving) && s'.base == d.lock && s'.pc == MoveOut(Software)
         else s'.disk == d && s'.base == s.base && s'.pc == Idle
    case MoveOut(w) =>
      && s'.base == s.base && s'.next == s.next && Get(d, w).destination != Absent
      && s'.disk == Set(d, w, Get(d, w).(backup := Get(d, w).destination, destination := Absent))
      && s'.pc == Then(w, MoveOut(Catalogue), MoveOut(Image), MoveIn(Software))
    case MoveIn(w) =>
      && s'.base == s.base && s'.next == s.next && Get(d, w).stage != Absent
      && s'.disk == Set(d, w, Get(d, w).(destination := Get(d, w).stage, stage := Absent))
      && s'.pc == Then(w, MoveIn(Catalogue), MoveIn(Image), WriteLock)
    case WriteLock => s'.base == s.base && s'.next == s.next && s'.disk == d.(lock := s.next) && s'.pc == WriteComplete
    case WriteComplete => s'.base == s.base && s'.next == s.next && s'.disk == d.(journal := Complete)
        && s'.pc == Unlink
    case Unlink => s'.base == s.base && s'.next == s.next && s'.disk == d.(journal := NoJournal) && s'.pc == PruneAfter
    case Undo(w) =>
      && s'.base == s.base && s'.next == s.next
      && s'.disk == Set(d, w, BroughtBack(Get(d, w))) && s'.pc == Then(w, Undo(Catalogue), Undo(Image), Idle)
    case _ => false
  }

  function Unstaged(d: Disk, w: Which): Disk {
    Set(d, w, Get(d, w).(stage := Absent))
  }

  /** One archived tree is removed, in part or whole, or none is. */
  predicate Prunes(d: Disk, d': Disk) {
    d' == d || PrunesOne(d, d', Software) || PrunesOne(d, d', Catalogue) || PrunesOne(d, d', Image)
  }

  predicate PrunesOne(d: Disk, d': Disk, w: Which) {
    || d' == Set(d, w, Get(d, w).(backup := Absent))
    || (Get(d, w).backup != Absent && d' == Set(d, w, Get(d, w).(backup := Partial)))
  }

  predicate InTry(pc: Pc) {
    pc.MoveOut? || pc.MoveIn? || pc.WriteLock? || pc.WriteComplete?
  }

  /** A step, a failure inside the try block, the death of the process, or a new process. */
  predicate Step(s: State, s': State) {
    || RecoveryStep(s, s')
    || PromotionStep(s, s')
    || (InTry(s.pc) && s' == s.(pc := Undo(Software)))
    || s' == s.(pc := Idle)
    || (s.pc == Idle && s' == s.(pc := Recovering))
  }

  // ---------- the invariant ----------

  /** The old tree is at its destination with no backup, or at its backup with the
      destination empty or holding the new tree. */
  predicate OldSurvives(p: Place, base: nat, next: nat) {
    || (p.destination == Whole(base) && p.backup == Absent)
    || (p.backup == Whole(base) && (p.destination == Absent || p.destination == Whole(next)))
  }

  predicate Placed(p: Place, base: nat, next: nat) {
    p.destination == Whole(next) && p.backup == Whole(base)
  }

  predicate OneGeneration(d: Disk) {
    All(d, (p: Place) => p.destination == Whole(d.lock))
  }

  predicate Safe(d: Disk, base: nat, next: nat) {
    match d.journal
    case NoJournal => OneGeneration(d)
    case Moving =>
      && base != next && All(d, (p: Place) => OldSurvives(p, base, next))
      && (d.lock == base || (d.lock == next && All(d, (p: Place) => Placed(p, base, next))))
    case Complete => base != next && d.lock == next && All(d, (p: Place) => Placed(p, base, next))
  }

  predicate Out(p: Place, base: nat) {
    p.destination == Absent && p.backup == Whole(base)
  }

  predicate Still(p: Place, base: nat) {
    p.destination == Whole(base) && p.backup == Absent
  }

  predicate AtPc(s: State) {
    var d, b, n := s.disk, s.base, s.next;
    match s.pc
    case Idle => true
    case Recovering => true
    case Bring(w) =>
      d.journal == Moving && (w != Software ==> d.software.destination != Absent)
          && (w == Image ==> d.catalogue.destination != Absent)
    case Judge => d.journal == Moving && All(d, (p: Place) => p.destination != Absent)
    case Ready => d.journal == NoJournal
    case Stage(w) => d.journal == NoJournal && n != d.lock && StagedBefore(d, n, w)
    case StageEnd(w) => d.journal == NoJournal && n != d.lock && StagedBefore(d, n, w)
    case Prune => d.journal == NoJournal && n != d.lock && All(d, (p: Place) => p.stage == Whole(n))
    case CheckBackups => d.journal == NoJournal && n != d.lock && All(d, (p: Place) => p.stage == Whole(n))
    case PruneAfter => d.journal == NoJournal
    case MoveOut(w) =>
      && d.journal == Moving && d.lock == b && All(d, (p: Place) => p.stage == Whole(n))
      && (if w == Software then Still(d.software, b) else Out(d.software, b))
      && (if w == Image then Out(d.catalogue, b) else Still(d.catalogue, b)) && Still(d.image, b)
    case MoveIn(w) =>
      && d.journal == Moving && d.lock == b
      && (if w == Software then Out(d.software, b) && d.software.stage == Whole(n) else Placed(d.software, b, n))
      && (if w == Image then Placed(d.catalogue, b, n) else Out(d.catalogue, b) && d.catalogue.stage == Whole(n))
      && Out(d.image, b) && d.image.stage == Whole(n)
    case WriteLock => d.journal == Moving && d.lock == b && All(d, (p: Place) => Placed(p, b, n))
    case WriteComplete => d.journal == Moving && d.lock == n && All(d, (p: Place) => Placed(p, b, n))
    case Unlink => d.journal == Complete
    case Undo(w) => d.journal == Moving
  }

  predicate StagedBefore(d: Disk, next: nat, w: Which) {
    (w != Software ==> d.software.stage == Whole(next)) && (w == Image ==> d.catalogue.stage == Whole(next))
  }

  predicate Inv(s: State) {
    Safe(s.disk, s.base, s.next) && AtPc(s)
  }

  /** Three destinations of the locked generation and no promotion under way. */
  predicate Init(s: State) {
    s.pc == Idle && s.disk.journal == NoJournal && OneGeneration(s.disk)
  }

  lemma RecoveryKeepsInv(s: State, s': State)
    requires Inv(s) && RecoveryStep(s, s')
    ensures Inv(s')
  {
  }

  /** The places from the journal's first write to its removal, the handler included. */
  predicate Swapping(pc: Pc) {
    InTry(pc) || pc.Unlink? || pc.Undo?
  }

  lemma MoveKeepsInv(s: State, s': State)
    requires Inv(s) && PromotionStep(s, s') && (s.pc.MoveOut? || s.pc.MoveIn?)
    ensures Inv(s')
  {
  }

  lemma CommitKeepsInv(s: State, s': State)
    requires Inv(s) && PromotionStep(s, s') && Swapping(s.pc) && !s.pc.MoveOut? && !s.pc.MoveIn?
    ensures Inv(s')
  {
  }

  lemma StagingKeepsInv(s: State, s': State)
    requires Inv(s) && PromotionStep(s, s') && !Swapping(s.pc)
    ensures Inv(s')
  {
  }

  lemma PromotionKeepsInv(s: State, s': State)
    requires Inv(s) && PromotionStep(s, s')
    ensures Inv(s')
  {
    hide Inv, PromotionStep;
    if s.pc.MoveOut? || s.pc.MoveIn? {
      MoveKeepsInv(s, s');
    } else if Swapping(s.pc) {
      CommitKeepsInv(s, s');
    } else {
      StagingKeepsInv(s, s');
    }
  }

  lemma StepKeepsInv(s: State, s': State)
    requires Inv(s) && Step(s, s')
    ensures Inv(s')
  {
    if RecoveryStep(s, s') {
      RecoveryKeepsInv(s, s');
    } else if PromotionStep(s, s') {
      PromotionKeepsInv(s, s');
    }
  }

  // ---------- whole runs ----------

  ghost predicate IsRun(run: seq<State>) {
    |run| > 0 && Init(run[0]) && forall i :: 0 <= i < |run| - 1 ==> Step(run[i], run[i + 1])
  }

  lemma {:induction false} RunsKeepInv(run: seq<State>, i: nat)
    requires IsRun(run) && i < |run|
    ensures Inv(run[i])
  {
    hide Step;
    if i > 0 {
      RunsKeepInv(run, i - 1);
      assert Step(run[i - 1], run[(i - 1) + 1]);
      StepKeepsInv(run[i - 1], run[i]);
    }
  }

  /** In every run: the journal is absent only when the three destinations and the lock
      belong to one generation; while it says `moving`, every old tree is whole at its
      destination or its backup; once it says `complete`, all three new trees and the new
      lock are in place. */
  lemma FailClosed(run: seq<State>, i: nat)
    requires IsRun(run) && i < |run|
    ensures var d := run[i].disk;
            match d.journal
            case NoJournal => forall w: Which :: Get(d, w).destination == Whole(d.lock)
            case Moving =>
              forall w: Which :: Get(d, w).destination == Whole(run[i].base) || Get(d, w).backup == Whole(run[i].base)
            case Complete => d.lock == run[i].next && forall w: Which :: Get(d, w).destination == Whole(d.lock)
  {
    RunsKeepInv(run, i);
  }

  // ---------- recovery as a function ----------

  function BroughtAll(d: Disk): Disk {
    d.(software := BroughtBack(d.software), catalogue := BroughtBack(d.catalogue), image := BroughtBack(d.image))
  }

  /** The disk after recover_promotion, and whether it returned rather than raised. */
  function RecoverAll(d: Disk): (Disk, bool) {
    match d.journal
    case NoJournal => (d, true)
    case Complete => (d.(journal := NoJournal), true)
    case Moving =>
      var b := BroughtAll(d);
      if Judged(b) then (b.(journal := NoJournal), true) else (b, false)
  }

  /** Nothing of the new generation has reached a destination. */
  predicate NoneMovedIn(d: Disk, next: nat) {
    All(d, (p: Place) => p.destination != Whole(next))
  }

  /** Recovery of an interrupted swap succeeds exactly when no new tree had been moved in,
      and then the disk is back at the old generation; otherwise it refuses, and a second
      recovery changes nothing more. */
  lemma RecoveryExactly(d: Disk, base: nat, next: nat)
    requires Safe(d, base, next) && d.journal == Moving
    ensures RecoverAll(d).1 <==> NoneMovedIn(d, next)
    ensures RecoverAll(d).1 ==> RecoverAll(d).0.journal == NoJournal && d.lock == base && OneGeneration(RecoverAll(d).0)
    ensures RecoverAll(RecoverAll(d).0).0 == RecoverAll(d).0
  {
  }

  /** No step of recovery changes where it ends, nor whether it returns. */
  lemma RecoveryConfluent(s: State, s': State)
    requires Inv(s) && RecoveryStep(s, s')
    ensures RecoverAll(s'.disk) == RecoverAll(s.disk)
  {
  }

  /** Where an undisturbed recovery of the disk `was` can stand. */
  predicate Underway(was: Disk, s: State) {
    match s.pc
    case Recovering => s.disk == was
    case Bring(Software) => was.journal == Moving && s.disk == was
    case Bring(Catalogue) => was.journal == Moving && s.disk == was.(software := BroughtBack(was.software))
    case Bring(Image) =>
      && was.journal == Moving
      && s.disk == was.(software := BroughtBack(was.software), catalogue := BroughtBack(was.catalogue))
    case Judge => was.journal == Moving && s.disk == BroughtAll(was)
    case Ready => (s.disk, true) == RecoverAll(was)
    case Idle => (s.disk, false) == RecoverAll(was)
    case _ => false
  }

  lemma StaysUnderway(was: Disk, s: State, s': State)
    requires Underway(was, s) && RecoveryStep(s, s')
    ensures Underway(was, s')
  {
  }

  /** Whatever is on the disk, reachable or not: a recovery that runs undisturbed returns only
      where RecoverAll does and raises only where that does, on its disk. */
  lemma {:induction false} RecoveryOfAnyDisk(run: seq<State>, i: nat)
    requires i < |run| && run[0].pc == Recovering
    requires forall k :: 0 <= k < |run| - 1 ==> RecoveryStep(run[k], run[k + 1])
    ensures Underway(run[0].disk, run[i])
    ensures run[i].pc == Ready ==> (run[i].disk, true) == RecoverAll(run[0].disk)
    ensures run[i].pc == Idle ==> (run[i].disk, false) == RecoverAll(run[0].disk)
  {
    hide RecoveryStep, RecoverAll;
    if i > 0 {
      RecoveryOfAnyDisk(run, i - 1);
      assert RecoveryStep(run[i - 1], run[(i - 1) + 1]);
      StaysUnderway(run[0].disk, run[i - 1], run[i]);
    }
  }

  /** Steps of recovery, deaths and restarts, in any order. */
  predicate RecoveryOrRestart(s: State, s': State) {
    RecoveryStep(s, s') || s' == s.(pc := Idle) || (s.pc == Idle && s' == s.(pc := Recovering))
  }

  /** However often recovery is interrupted and rerun, it returns only on the disk of an
      uninterrupted one, and only where that one returns. */
  lemma {:induction false} RecoveryEndsAlike(run: seq<State>, i: nat)
    requires |run| > 0 && Inv(run[0]) && i < |run|
    requires forall k :: 0 <= k < |run| - 1 ==> RecoveryOrRestart(run[k], run[k + 1])
    ensures Inv(run[i]) && RecoverAll(run[i].disk) == RecoverAll(run[0].disk)
    ensures run[i].pc == Ready ==> (run[i].disk, true) == RecoverAll(run[0].disk)
  {
    hide Safe, RecoveryStep, PromotionStep, OldSurvives;
    if i > 0 {
      RecoveryEndsAlike(run, i - 1);
      assert RecoveryOrRestart(run[i - 1], run[(i - 1) + 1]);
      if RecoveryStep(run[i - 1], run[i]) {
        RecoveryConfluent(run[i - 1], run[i]);
      }
      StepKeepsInv(run[i - 1], run[i]);
    }
  }

  /** The steps a recovery still has to take when nothing interrupts it. */
  function RecoveryRank(pc: Pc): nat {
    match pc
    case Recovering => 5
    case Bring(w) => (match w case Software => 4 case Catalogue => 3 case Image => 2)
    case Judge => 1
    case _ => 0
  }

  /** The one step recovery takes. */
  function RecoveryNext(s: State): State
    requires RecoveryRank(s.pc) > 0
  {
    var d := s.disk;
    match s.pc
    case Recovering =>
      (match d.journal
       case NoJournal => s.(pc := Ready)
       case Complete => s.(disk := d.(journal := NoJournal), pc := Ready)
       case Moving => s.(pc := Bring(Software)))
    case Bring(w) => s.(disk := Set(d, w, BroughtBack(Get(d, w))), pc := Then(w, Bring(Catalogue), Bring(Image), Judge))
    case Judge => if Judged(d) then s.(disk := d.(journal := NoJournal), pc := Ready) else s.(pc := Idle)
  }

  lemma RecoveryNextIsStep(s: State)
    requires Inv(s) && RecoveryRank(s.pc) > 0
    ensures RecoveryStep(s, RecoveryNext(s)) && RecoveryRank(RecoveryNext(s).pc) < RecoveryRank(s.pc)
    ensures RecoveryRank(RecoveryNext(s).pc) == 0 ==>
              && RecoveryNext(s).disk == RecoverAll(s.disk).0
              && RecoveryNext(s).pc == (if RecoverAll(s.disk).1 then Ready else Idle)
  {
  }

  /** From every reachable state a recovery left alone ends on RecoverAll's disk: it returns
      unless a swap was interrupted with a new tree in place, and then it refuses. */
  lemma {:induction false} RecoveryCompletes(s: State) returns (run: seq<State>)
    requires Inv(s) && RecoveryRank(s.pc) > 0
    ensures |run| > 0 && run[0] == s && forall k :: 0 <= k < |run| - 1 ==> RecoveryStep(run[k], run[k + 1])
    ensures run[|run| - 1].disk == RecoverAll(s.disk).0
    ensures run[|run| - 1].pc == if s.disk.journal == Moving ==> NoneMovedIn(s.disk, s.next) then Ready else Idle
    decreases RecoveryRank(s.pc)
  {
    hide RecoveryStep, AtPc, RecoveryNext, RecoverAll, NoneMovedIn, Safe;
    RecoveryNextIsStep(s);
    RecoveryKeepsInv(s, RecoveryNext(s));
    RecoveryConfluent(s, RecoveryNext(s));
    ReturnsIff(s);
    if RecoveryRank(RecoveryNext(s).pc) == 0 {
      run := [s, RecoveryNext(s)];
    } else {
      ReturnsIff(RecoveryNext(s));
      var rest := RecoveryCompletes(RecoveryNext(s));
      run := [s] + rest;
    }
  }

  lemma ReturnsIff(s: State)
    requires Inv(s)
    ensures RecoverAll(s.disk).1 <==> (s.disk.journal == Moving ==> NoneMovedIn(s.disk, s.next))
  {
    hide AtPc;
    if s.disk.journal == Moving { RecoveryExactly(s.disk, s.base, s.next); }
  }

  /** A destination already holds a new tree while the journal says `moving`. */
  predicate Stuck(s: State) {
    && s.disk.journal == Moving && Inv(s) && !NoneMovedIn(s.disk, s.next)
    && (s.pc == Idle || s.pc == Recovering || s.pc.Bring? || s.pc == Judge || s.pc.Undo?)
  }

  /** Once the swap was interrupted with a new tree in place, no step of any later process
      clears the journal: the promotion stays closed until someone intervenes. */
  lemma StuckStaysStuck(s: State, s': State)
    requires Stuck(s) && Step(s, s')
    ensures Stuck(s') && s'.base == s.base && s'.next == s.next
  {
    StepKeepsInv(s, s');
  }

  lemma {:induction false} StuckForever(run: seq<State>, i: nat, j: nat)
    requires IsRun(run) && i <= j < |run| && Stuck(run[i])
    ensures Stuck(run[j])
  {
    hide Step, Inv, NoneMovedIn, Init;
    if i < j {
      StuckForever(run, i, j - 1);
      assert Step(run[j - 1], run[(j - 1) + 1]);
      StuckStaysStuck(run[j - 1], run[j]);
    }
  }

  // ---------- runs that go through ----------

  /** The steps an uninterrupted promotion still has to take, down to ten at its end. */
  function Rank(pc: Pc): nat {
    match pc
    case Idle => 30
    case Recovering => 29
    case Ready => 28
    case Stage(w) => (match w case Software => 27 case Catalogue => 25 case Image => 23)
    case StageEnd(w) => (match w case Software => 26 case Catalogue => 24 case Image => 22)
    case Prune => 21
    case CheckBackups => 20
    case MoveOut(w) => (match w case Software => 19 case Catalogue => 18 case Image => 17)
    case MoveIn(w) => (match w case Software => 16 case Catalogue => 15 case Image => 14)
    case WriteLock => 13
    case WriteComplete => 12
    case Unlink => 11
    case PruneAfter => 10
    case _ => 0
  }

  /** An undisturbed promotion of generation `lock + 1` over an empty archive. */
  predicate Smooth(s: State, lock: nat) {
    && (Rank(s.pc) >= 20 ==>
       s.disk.journal == NoJournal && s.disk.lock == lock && All(s.disk, (p: Place) => p.backup == Absent))
    && (Rank(s.pc) < 28 ==> s.next == lock + 1)
    && (Rank(s.pc) <= 12 ==> s.disk.lock == lock + 1)
  }

  /** The step taken when nothing fails and nothing is pruned. */
  function Advance(s: State): State
    requires Rank(s.pc) > 10
  {
    var d := s.disk;
    match s.pc
    case Idle => s.(pc := Recovering)
    case Recovering => s.(pc := Ready)
    case Ready => s.(disk := Unstaged(Unstaged(Unstaged(d, Software), Catalogue), Image), next := d.lock + 1,
        pc := Stage(Software))
    case Stage(w) => s.(disk := Set(d, w, Get(d, w).(stage := Partial)), pc := StageEnd(w))
    case StageEnd(w) => s.(disk := Set(d, w, Get(d, w).(stage := Whole(s.next))),
        pc := Then(w, Stage(Catalogue), Stage(Image), Prune))
    case Prune => s.(pc := CheckBackups)
    case CheckBackups => s.(disk := d.(journal := Moving), base := d.lock, pc := MoveOut(Software))
    case MoveOut(w) =>
      s.(disk := Set(d, w, Get(d, w).(backup := Get(d, w).destination, destination := Absent)),
         pc := Then(w, MoveOut(Catalogue), MoveOut(Image), MoveIn(Software)))
    case MoveIn(w) =>
      s.(disk := Set(d, w, Get(d, w).(destination := Get(d, w).stage, stage := Absent)),
         pc := Then(w, MoveIn(Catalogue), MoveIn(Image), WriteLock))
    case WriteLock => s.(disk := d.(lock := s.next), pc := WriteComplete)
    case WriteComplete => s.(disk := d.(journal := Complete), pc := Unlink)
    case Unlink => s.(disk := d.(journal := NoJournal), pc := PruneAfter)
  }

  lemma StagingAdvances(s: State, lock: nat)
    requires Inv(s) && Smooth(s, lock) && Rank(s.pc) >= 20
    ensures Step(s, Advance(s)) && Smooth(Advance(s), lock) && Rank(Advance(s).pc) == Rank(s.pc) - 1
  {
  }

  lemma SwapAdvances(s: State, lock: nat)
    requires Inv(s) && Smooth(s, lock) && 10 < Rank(s.pc) < 20
    ensures Step(s, Advance(s)) && Smooth(Advance(s), lock) && Rank(Advance(s).pc) == Rank(s.pc) - 1
  {
  }

  lemma AdvanceIsAStep(s: State, lock: nat)
    requires Inv(s) && Smooth(s, lock) && Rank(s.pc) > 10
    ensures Step(s, Advance(s)) && Smooth(Advance(s), lock) && Rank(Advance(s).pc) == Rank(s.pc) - 1
  {
    hide Inv, Smooth, Step, Advance;
    if Rank(s.pc) >= 20 { StagingAdvances(s, lock); } else { SwapAdvances(s, lock); }
  }

  lemma {:induction false} Reaches(s: State, lock: nat, rank: nat) returns (run: seq<State>)
    requires Inv(s) && Smooth(s, lock) && 10 <= rank <= Rank(s.pc)
    ensures |run| > 0 && run[0] == s && forall k :: 0 <= k < |run| - 1 ==> Step(run[k], run[k + 1])
    ensures var last := run[|run| - 1]; Inv(last) && Smooth(last, lock) && Rank(last.pc) == rank
    decreases Rank(s.pc)
  {
    hide Inv, Step, Smooth, Advance;
    if Rank(s.pc) == rank {
      run := [s];
    } else {
      AdvanceIsAStep(s, lock);
      StepKeepsInv(s, Advance(s));
      var rest := Reaches(Advance(s), lock, rank);
      run := [s] + rest;
    }
  }

  /** An idle machine with an empty archive. */
  predicate Clean(s: State) {
    Init(s) && All(s.disk, (p: Place) => p.backup == Absent)
  }

  lemma CleanIsSmooth(s: State)
    requires Clean(s)
    ensures Inv(s) && Smooth(s, s.disk.lock) && Rank(s.pc) == 30
  {
  }

  /** From a clean machine some run swaps in the next generation and removes the journal. */
  lemma SwapReachable(s: State) returns (run: seq<State>)
    requires Clean(s)
    ensures IsRun(run) && run[0] == s && run[|run| - 1].disk.journal == NoJournal
    ensures OneGeneration(run[|run| - 1].disk) && run[|run| - 1].disk.lock == s.disk.lock + 1
  {
    hide Step;
    CleanIsSmooth(s);
    run := Reaches(s, s.disk.lock, 10);
  }

  /** And some run gets stuck: the process dies after the first new tree was moved in. */
  lemma StuckReachable(s: State) returns (run: seq<State>)
    requires Clean(s)
    ensures IsRun(run) && run[0] == s && Stuck(run[|run| - 1])
  {
    CleanIsSmooth(s);
    var reached := Reaches(s, s.disk.lock, 15);
    var last := reached[|reached| - 1];
    DiesStuck(last);
    hide Step, Inv, Smooth, NoneMovedIn, Init, Clean;
    run := reached + [last.(pc := Idle)];
  }

  lemma DiesStuck(s: State)
    requires Inv(s) && Rank(s.pc) == 15
    ensures Step(s, s.(pc := Idle)) && Stuck(s.(pc := Idle))
  {
  }

  // ---------- the two routines ----------

  class Promotion {
    var disk: Disk

    /** recover_promotion: true when it returns, false when it raises. */
    method RecoverPromotion() returns (returned: bool)
      modifies this
      ensures (disk, returned) == RecoverAll(old(disk))
    {
      if disk.journal == NoJournal { return true; }
      if disk.journal == Complete {
        disk := disk.(journal := NoJournal);
        return true;
      }
      if disk.software.destination == Absent && disk.software.backup != Absent {
        disk := disk.(software := disk.software.(destination := disk.software.backup, backup := Absent));
      }
      if disk.catalogue.destination == Absent && disk.catalogue.backup != Absent {
        disk := disk.(catalogue := disk.catalogue.(destination := disk.catalogue.backup, backup := Absent));
      }
      if disk.image.destination == Absent && disk.image.backup != Absent {
        disk := disk.(image := disk.image.(destination := disk.image.backup, backup := Absent));
      }
      if && disk.software.destination != Absent && disk.catalogue.destination != Absent
         && disk.image.destination != Absent
         && disk.software.backup == Absent && disk.catalogue.backup == Absent && disk.image.backup == Absent {
        disk := disk.(journal := NoJournal);
        return true;
      }
      returned := false;
    }

    /** The swap section of promote, when no step of it fails. */
    method Swap(next: nat)
      requires disk.journal == NoJournal && OneGeneration(disk) && next != disk.lock
      requires All(disk, (p: Place) => p.backup == Absent && p.stage == Whole(next))
      modifies this
      ensures disk.journal == NoJournal && disk.lock == next && OneGeneration(disk)
      ensures All(disk, (p: Place) => p.backup == Whole(old(disk.lock)) && p.stage == Absent)
    {
      disk := disk.(journal := Moving);
      disk := disk.(software := disk.software.(backup := disk.software.destination, destination := Absent));
      disk := disk.(catalogue := disk.catalogue.(backup := disk.catalogue.destination, destination := Absent));
      disk := disk.(image := disk.image.(backup := disk.image.destination, destination := Absent));
      disk := disk.(software := disk.software.(destination := disk.software.stage, stage := Absent));
      disk := disk.(catalogue := disk.catalogue.(destination := disk.catalogue.stage, stage := Absent));
      disk := disk.(image := disk.image.(destination := disk.image.stage, stage := Absent));
      disk := disk.(lock := next);
      disk := disk.(journal := Complete);
      disk := disk.(journal := NoJournal);
    }
  }
}
