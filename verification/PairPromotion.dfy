/** Promotion of a pair of runtime trees under a journal, and its recovery.

    Renames, journal writes and the journal's removal are single steps; copying and
    removing a tree can stop half way.  The process can die between any two steps,
    recovery included, and a later process starts over with recovery. */
module PairPromotion {
  import opened Bytes

  /** A tree on disk: absent, half copied or half removed, or complete with some content. */
  datatype Tree = Absent | Partial | Whole(content: nat)

  /** One destination with its two siblings, `.python.release-new` and `.python.release-old`. */
  datatype Entry = Entry(destination: Tree, incoming: Tree, retired: Tree)

  datatype Which = Software | Catalogue

  datatype JournalState = Preparing | BackupStarted | Committed

  /** The journal file: its state and which destinations existed when it was begun. */
  datatype Journal = NoJournal | Journal(state: JournalState, softwareExisted: bool, catalogueExisted: bool)

  datatype Disk = Disk(software: Entry, catalogue: Entry, journal: Journal)

  function Get(d: Disk, w: Which): Entry {
    if w.Software? then d.software else d.catalogue
  }

  function Set(d: Disk, w: Which, e: Entry): Disk {
    if w.Software? then d.(software := e) else d.(catalogue := e)
  }

  function Existed(j: Journal, w: Which): bool
    requires j.Journal?
  {
    if w.Software? then j.softwareExisted else j.catalogueExisted
  }

  // ---------- the machine ----------

  /** Where a process stands in recover_incomplete_promotion or promote_release_pair. */
  datatype Pc =
    | Idle                      // no process is running
    | Recovering                // at the first line of recover_incomplete_promotion
    | Failed                    // raised: unjournaled remnants
    | DropRetired(w: Which)     // committed: remove the old tree
    | DropIncoming(w: Which)    // committed: remove the new tree
    | CheckRetired(w: Which)    // roll back: does the old tree exist?
    | ClearDestination(w: Which)
    | Restore(w: Which)         // rename the old tree back
    | DropDestination(w: Which) // nothing existed before: remove what was placed
    | DropNew(w: Which)
    | ClearJournal
    | Recovered
    | CopyStart(w: Which) | CopyEnd(w: Which)
    | BeginBackup
    | Backup(w: Which)
    | Place(w: Which)
    | Commit

  /** What the current promotion started from, what it stages, and whether the committed
      journal was ever written. */
  datatype History = History(softwareBase: Tree, catalogueBase: Tree, softwareStage: nat, catalogueStage: nat,
      committed: bool)

  function Base(h: History, w: Which): Tree {
    if w.Software? then h.softwareBase else h.catalogueBase
  }

  function Stage(h: History, w: Which): Tree {
    Whole(if w.Software? then h.softwareStage else h.catalogueStage)
  }

  datatype State = State(disk: Disk, history: History, pc: Pc)

  /** Which of an entry's trees. */
  datatype Part = Destination | Incoming | Retired

  function TreeOf(e: Entry, p: Part): Tree {
    match p case Destination => e.destination case Incoming => e.incoming case Retired => e.retired
  }

  function WithTree(e: Entry, p: Part, t: Tree): Entry {
    match p case Destination => e.(destination := t) case Incoming => e.(incoming := t) case Retired => e.(retired := t)
  }

  /** remove_tree: it leaves the tree half removed, or finishes and goes on. */
  predicate Removes(s: State, s': State, w: Which, p: Part, next: Pc) {
    var e := Get(s.disk, w);
    || (s'.disk == Set(s.disk, w, WithTree(e, p, Absent)) && s'.pc == next)
    || (TreeOf(e, p) != Absent && s'.disk == Set(s.disk, w, WithTree(e, p, Partial)) && s'.pc == s.pc)
  }

  /** The place after an entry's turn: the other entry's, or what follows the loop. */
  function AfterEntry(w: Which, other: Pc, last: Pc): Pc {
    if w.Software? then other else last
  }

  /** One step of recovery. */
  predicate RecoveryStep(s: State, s': State) {
    var d, j := s.disk, s.disk.journal;
    && s'.history == s.history
    && match s.pc
       case Recovering =>
         && s'.disk == d
         && s'.pc == (if j.NoJournal? then (if Leftovers(d) then Failed else Recovered)
                      else if j.state.Committed? then DropRetired(Software)
                      else CheckRetired(Software))
       case DropRetired(w) => Removes(s, s', w, Retired, DropIncoming(w))
       case DropIncoming(w) => Removes(s, s', w, Incoming, AfterEntry(w, DropRetired(Catalogue), ClearJournal))
       case CheckRetired(w) =>
         && j.Journal? && s'.disk == d
         && s'.pc == (if Get(d, w).retired != Absent then ClearDestination(w)
                      else if j.state.BackupStarted? && !Existed(j, w) then DropDestination(w)
                      else DropNew(w))
       case ClearDestination(w) => Removes(s, s', w, Destination, Restore(w))
       case Restore(w) =>
         && s'.disk == Set(d, w, Get(d, w).(destination := Get(d, w).retired, retired := Absent)) && s'.pc == DropNew(w)
       case DropDestination(w) => Removes(s, s', w, Destination, DropNew(w))
       case DropNew(w) => Removes(s, s', w, Incoming, AfterEntry(w, CheckRetired(Catalogue), ClearJournal))
       case ClearJournal => s'.disk == d.(journal := NoJournal) && s'.pc == Recovered
       case Recovered => s'.disk == d && s'.pc == Idle
       case _ => false
  }

  predicate Leftovers(d: Disk) {
    d.software.incoming != Absent || d.software.retired != Absent || d.catalogue.incoming != Absent
        || d.catalogue.retired != Absent
  }

  /** One step of promote_release_pair, which starts from a completed recovery. */
  predicate PromotionStep(s: State, s': State) {
    var d, j, h := s.disk, s.disk.journal, s.history;
    match s.pc
    case Recovered =>
      && s'.disk == d.(journal :=
                         Journal(Preparing, d.software.destination != Absent, d.catalogue.destination != Absent))
      && s'.history.softwareBase == d.software.destination && s'.history.catalogueBase == d.catalogue.destination
      && !s'.history.committed && s'.pc == CopyStart(Software)
    case CopyStart(w) =>
      s'.history == h && Get(d, w).incoming == Absent
      && s'.disk == Set(d, w, Get(d, w).(incoming := Partial)) && s'.pc == CopyEnd(w)
    case CopyEnd(w) =>
      s'.history == h && s'.disk == Set(d, w, Get(d, w).(incoming := Stage(h, w)))
      && s'.pc == AfterEntry(w, CopyStart(Catalogue), BeginBackup)
    case BeginBackup =>
      s'.history == h && j.Journal? && s'.disk == d.(journal := j.(state := BackupStarted)) && s'.pc == Backup(Software)
    case Backup(w) =>
      && s'.history == h
      && s'.disk == (if Get(d, w).destination != Absent
                     then Set(d, w, Get(d, w).(destination := Absent, retired := Get(d, w).destination)) else d)
      && s'.pc == AfterEntry(w, Backup(Catalogue), Place(Software))
    case Place(w) =>
      s'.history == h && Get(d, w).destination == Absent
      && s'.disk == Set(d, w, Get(d, w).(destination := Get(d, w).incoming, incoming := Absent))
      && s'.pc == AfterEntry(w, Place(Catalogue), Commit)
    case Commit =>
      && s'.history == h.(committed := true) && j.Journal?
      && s'.disk == d.(journal := j.(state := Committed)) && s'.pc == Recovering
    case _ => false
  }

  /** The places inside the try block, from which any failure leads to recovery. */
  predicate InTry(pc: Pc) {
    pc.CopyStart? || pc.CopyEnd? || pc.BeginBackup? || pc.Backup? || pc.Place? || pc.Commit?
  }

  /** A step of a running process, a failure inside the try block, the death of the
      process at any point, or the start of a new one. */
  predicate Step(s: State, s': State) {
    || RecoveryStep(s, s')
    || PromotionStep(s, s')
    || (InTry(s.pc) && s' == s.(pc := Recovering))
    || (s.pc != Failed && s' == s.(pc := Idle))
    || (s.pc == Idle && s' == s.(pc := Recovering))
  }

  // ---------- the invariant ----------

  predicate Settled(t: Tree) {
    t != Partial
  }

  /** What the destinations come to: the staged trees once committed, else the base. */
  function Outcome(h: History, w: Which): Tree {
    if h.committed then Stage(h, w) else Base(h, w)
  }

  predicate EntrySafe(d: Disk, h: History, w: Which) {
    var e, j := Get(d, w), d.journal;
    match j
    case NoJournal => e == Entry(Outcome(h, w), Absent, Absent)
    case Journal(state, _, _) =>
      && h.committed == state.Committed?
      && Existed(j, w) == (Base(h, w) != Absent)
      && match state
         case Preparing => e.destination == Base(h, w) && e.retired == Absent
         case BackupStarted =>
           if e.retired == Absent then Base(h, w) != Absent ==> e.destination == Base(h, w) else e.retired == Base(h, w)
         case Committed => e.destination == Stage(h, w)
  }

  predicate Safe(d: Disk, h: History) {
    && Settled(h.softwareBase) && Settled(h.catalogueBase)
    && EntrySafe(d, h, Software) && EntrySafe(d, h, Catalogue)
  }

  predicate RolledBack(d: Disk, h: History, w: Which) {
    Get(d, w).destination == Base(h, w) && Get(d, w).retired == Absent
  }

  predicate Rolling(j: Journal) {
    j.Journal? && !j.state.Committed?
  }

  predicate Committing(j: Journal) {
    j.Journal? && j.state.Committed?
  }

  /** What is known at each place of the program beyond the disk's own safety. */
  predicate AtPc(s: State) {
    var d, h, j := s.disk, s.history, s.disk.journal;
    match s.pc
    case Idle => true
    case Recovering => true
    case Failed => false
    case DropRetired(w) => Committing(j)
        && (w.Catalogue? ==> d.software.retired == Absent && d.software.incoming == Absent)
    case DropIncoming(w) =>
      Committing(j) && Get(d, w).retired == Absent
          && (w.Catalogue? ==> d.software.retired == Absent && d.software.incoming == Absent)
    case CheckRetired(w) => Rolling(j) && (w.Catalogue? ==> SoftwareDone(d, h))
    case ClearDestination(w) => Rolling(j) && (w.Catalogue? ==> SoftwareDone(d, h)) && Get(d, w).retired != Absent
    case Restore(w) =>
      Rolling(j) && (w.Catalogue? ==> SoftwareDone(d, h)) && Get(d, w).retired != Absent
          && Get(d, w).destination == Absent
    case DropDestination(w) =>
      Rolling(j) && (w.Catalogue? ==> SoftwareDone(d, h)) && Get(d, w).retired == Absent && Base(h, w) == Absent
          && j.state.BackupStarted?
    case DropNew(w) => Rolling(j) && (w.Catalogue? ==> SoftwareDone(d, h)) && RolledBack(d, h, w)
    case ClearJournal =>
      && j.Journal? && d.software.incoming == Absent && d.catalogue.incoming == Absent
      && d.software.retired == Absent && d.catalogue.retired == Absent
      && d.software.destination == Outcome(h, Software) && d.catalogue.destination == Outcome(h, Catalogue)
    case Recovered => j.NoJournal?
    case CopyStart(w) =>
      && j.Journal? && j.state.Preparing? && d.catalogue.incoming == Absent
      && d.software.incoming == (if w.Software? then Absent else Stage(h, Software))
    case CopyEnd(w) =>
      && j.Journal? && j.state.Preparing?
      && (if w.Software? then d.catalogue.incoming == Absent else d.software.incoming == Stage(h, Software))
    case BeginBackup => j.Journal? && j.state.Preparing? && Staged(d, h, Software) && Staged(d, h, Catalogue)
    case Backup(w) =>
      && j.Journal? && j.state.BackupStarted? && Staged(d, h, Software) && Staged(d, h, Catalogue)
      && (if w.Software? then RolledBack(d, h, Software) else d.software.destination == Absent)
      && RolledBack(d, h, Catalogue)
    case Place(w) =>
      && j.Journal? && j.state.BackupStarted? && Staged(d, h, Catalogue) && d.catalogue.destination == Absent
      && (if w.Software? then Staged(d, h, Software) && d.software.destination == Absent
          else d.software.destination == Stage(h, Software))
    case Commit =>
      && j.Journal? && j.state.BackupStarted?
      && d.software.destination == Stage(h, Software) && d.catalogue.destination == Stage(h, Catalogue)
  }

  predicate Staged(d: Disk, h: History, w: Which) {
    Get(d, w).incoming == Stage(h, w)
  }

  predicate SoftwareDone(d: Disk, h: History) {
    RolledBack(d, h, Software) && d.software.incoming == Absent
  }

  predicate Inv(s: State) {
    Safe(s.disk, s.history) && AtPc(s)
  }

  /** A machine with no promotion under way and both destinations whole or absent. */
  predicate Init(s: State) {
    && s.pc == Idle && s.disk.journal == NoJournal && !s.history.committed && !Leftovers(s.disk)
    && Settled(s.disk.software.destination) && Settled(s.disk.catalogue.destination)
    && s.history.softwareBase == s.disk.software.destination && s.history.catalogueBase == s.disk.catalogue.destination
  }

  /** The places where recovery undoes an entry. */
  predicate Undoing(pc: Pc) {
    pc.CheckRetired? || pc.ClearDestination? || pc.Restore? || pc.DropDestination? || pc.DropNew?
  }

  lemma UndoKeepsInv(s: State, s': State)
    requires Inv(s) && RecoveryStep(s, s') && Undoing(s.pc)
    ensures Inv(s')
  {
    hide Leftovers;
  }

  lemma CleanupKeepsInv(s: State, s': State)
    requires Inv(s) && RecoveryStep(s, s') && !Undoing(s.pc)
    ensures Inv(s')
  {
  }

  lemma RecoveryKeepsInv(s: State, s': State)
    requires Inv(s) && RecoveryStep(s, s')
    ensures Inv(s')
  {
    hide Inv, RecoveryStep;
    if Undoing(s.pc) { UndoKeepsInv(s, s'); } else { CleanupKeepsInv(s, s'); }
  }

  /** The places up to the second journal write. */
  predicate Copying(pc: Pc) {
    pc.Recovered? || pc.CopyStart? || pc.CopyEnd? || pc.BeginBackup?
  }

  lemma CopyKeepsInv(s: State, s': State)
    requires Inv(s) && PromotionStep(s, s') && Copying(s.pc)
    ensures Inv(s')
  {
  }

  lemma RenameKeepsInv(s: State, s': State)
    requires Inv(s) && PromotionStep(s, s') && !Copying(s.pc)
    ensures Inv(s')
  {
  }

  lemma PromotionKeepsInv(s: State, s': State)
    requires Inv(s) && PromotionStep(s, s')
    ensures Inv(s')
  {
    hide Inv, PromotionStep;
    if Copying(s.pc) { CopyKeepsInv(s, s'); } else { RenameKeepsInv(s, s'); }
  }

  lemma StepKeepsInv(s: State, s': State)
    requires Inv(s) && Step(s, s')
    ensures Inv(s')
  {
    if RecoveryStep(s, s') {
      RecoveryKeepsInv(s, s');
    } else if PromotionStep(s, s') {
      PromotionKeepsInv(s, s');
    }
  }

  // ---------- whole runs ----------

  ghost predicate IsRun(run: seq<State>) {
    |run| > 0 && Init(run[0]) && forall i :: 0 <= i < |run| - 1 ==> Step(run[i], run[i + 1])
  }

  lemma {:induction false} RunsKeepInv(run: seq<State>, i: nat)
    requires IsRun(run) && i < |run|
    ensures Inv(run[i])
  {
    if i > 0 {
      RunsKeepInv(run, i - 1);
      assert Step(run[i - 1], run[(i - 1) + 1]);
      StepKeepsInv(run[i - 1], run[i]);
    }
  }

  /** In every run, however often interrupted: the failure for unjournaled remnants is
      never reached, and whenever the journal is gone both destinations hold the staged
      trees if the committed journal was written, else both hold what they held before
      the promotion, absence included, with nothing left beside them. */
  lemma PromotionIsAtomic(run: seq<State>, i: nat)
    requires IsRun(run) && i < |run|
    ensures run[i].pc != Failed
    ensures run[i].pc == Recovered ==> run[i].disk.journal == NoJournal
    ensures run[i].disk.journal == NoJournal ==>
              && run[i].disk.software == Entry(Outcome(run[i].history, Software), Absent, Absent)
              && run[i].disk.catalogue == Entry(Outcome(run[i].history, Catalogue), Absent, Absent)
  {
    RunsKeepInv(run, i);
  }

  /** The outcome turns to the staged trees in the one step that writes the committed
      journal, and a new base is taken only when a promotion starts from a clean disk. */
  lemma CommittedMeansWritten(s: State, s': State)
    requires Inv(s) && Step(s, s')
    ensures s'.history.committed && !s.history.committed ==> s.pc == Commit && Committing(s'.disk.journal)
    ensures Committing(s'.disk.journal) ==> s'.history.committed
    ensures (s'.history != s.history.(committed := s'.history.committed)) ==>
              s.pc == Recovered && s.disk.journal == NoJournal
    ensures s.history.committed && !s'.history.committed ==>
              s.pc == Recovered && s.disk.journal == NoJournal
  {
    StepKeepsInv(s, s');
  }

  // ---------- recovery as a function ----------

  function RecoverEntry(e: Entry, j: Journal, w: Which): Entry
    requires j.Journal?
  {
    if j.state.Committed? then Entry(e.destination, Absent, Absent)
    else if e.retired != Absent then Entry(e.retired, Absent, Absent)
    else if j.state.BackupStarted? && !Existed(j, w) then Entry(Absent, Absent, Absent)
    else Entry(e.destination, Absent, Absent)
  }

  /** The disk after an uninterrupted recovery, or a refusal to touch remnants. */
  function RecoverAll(d: Disk): Result<Disk> {
    if d.journal.NoJournal? then (if Leftovers(d) then Err else Ok(d))
    else
      Ok(Disk(RecoverEntry(d.software, d.journal, Software),
              RecoverEntry(d.catalogue, d.journal, Catalogue), NoJournal))
  }

  lemma RecoverAllIdempotent(d: Disk)
    requires RecoverAll(d).Ok?
    ensures RecoverAll(RecoverAll(d).value) == RecoverAll(d)
  {
  }

  /** No step of recovery, half-finished removals included, changes where recovery ends. */
  lemma RecoveryConfluent(s: State, s': State)
    requires Inv(s) && RecoveryStep(s, s')
    ensures RecoverAll(s'.disk) == RecoverAll(s.disk)
  {
  }

  // ---------- recovery of any disk ----------

  /** What one entry has become while its turn lasts, from what it was. */
  predicate InTurn(pc: Pc, j: Journal, w: Which, was: Entry, e: Entry)
    requires j.Journal?
  {
    match pc
    case DropRetired(_) => j.state.Committed? && e.destination == was.destination
    case DropIncoming(_) => j.state.Committed? && e.destination == was.destination && e.retired == Absent
    case CheckRetired(_) => !j.state.Committed? && e == was
    case ClearDestination(_) => !j.state.Committed? && was.retired != Absent && e.retired == was.retired
    case Restore(_) =>
      !j.state.Committed? && was.retired != Absent && e.retired == was.retired && e.destination == Absent
    case DropDestination(_) =>
      j.state.BackupStarted? && !Existed(j, w) && was.retired == Absent && e.retired == Absent
    case DropNew(_) =>
      !j.state.Committed? && e.retired == Absent && e.destination == RecoverEntry(was, j, w).destination
    case _ => false
  }

  /** Where an undisturbed recovery of the disk `was` can stand. */
  predicate Underway(was: Disk, s: State) {
    var d, j := s.disk, was.journal;
    match s.pc
    case Recovering => d == was
    case Failed => d == was && RecoverAll(was).Err?
    case Recovered => Ok(d) == RecoverAll(was)
    case ClearJournal => j.Journal? && Ok(d.(journal := NoJournal)) == RecoverAll(was)
    case Idle => true
    case CopyStart(_) => false
    case CopyEnd(_) => false
    case BeginBackup => false
    case Backup(_) => false
    case Place(_) => false
    case Commit => false
    case _ =>
      && j.Journal? && d.journal == j
      && (if TurnOf(s.pc).Software?
          then d.catalogue == was.catalogue && InTurn(s.pc, j, Software, was.software, d.software)
          else d.software == RecoverEntry(was.software, j, Software)
               && InTurn(s.pc, j, Catalogue, was.catalogue, d.catalogue))
  }

  /** The entry whose turn it is. */
  function TurnOf(pc: Pc): Which {
    match pc
    case DropRetired(w) => w
    case DropIncoming(w) => w
    case CheckRetired(w) => w
    case ClearDestination(w) => w
    case Restore(w) => w
    case DropDestination(w) => w
    case DropNew(w) => w
    case _ => Software
  }

  lemma StaysUnderway(was: Disk, s: State, s': State)
    requires Underway(was, s) && RecoveryStep(s, s')
    ensures Underway(was, s')
  {
  }

  /** Whatever is on the disk, reachable or not: a recovery that runs undisturbed completes
      only on the disk RecoverAll gives, and fails, touching nothing, only where that refuses. */
  lemma {:induction false} RecoveryOfAnyDisk(run: seq<State>, i: nat)
    requires i < |run| && run[0].pc == Recovering
    requires forall k :: 0 <= k < |run| - 1 ==> RecoveryStep(run[k], run[k + 1])
    ensures Underway(run[0].disk, run[i])
    ensures run[i].pc == Recovered ==> Ok(run[i].disk) == RecoverAll(run[0].disk)
    ensures run[i].pc == Failed ==> run[i].disk == run[0].disk && RecoverAll(run[0].disk) == Err
  {
    hide RecoveryStep, RecoverAll;
    if i > 0 {
      RecoveryOfAnyDisk(run, i - 1);
      assert RecoveryStep(run[i - 1], run[(i - 1) + 1]);
      StaysUnderway(run[0].disk, run[i - 1], run[i]);
    }
  }

  /** Steps of recovery, deaths and restarts, in any order. */
  predicate RecoveryOrRestart(s: State, s': State) {
    RecoveryStep(s, s') || (s.pc != Failed && s' == s.(pc := Idle)) || (s.pc == Idle && s' == s.(pc := Recovering))
  }

  /** Recovery ends on the same disk however often it is interrupted and rerun. */
  lemma {:induction false} RecoveryEndsAlike(run: seq<State>, i: nat)
    requires |run| > 0 && Inv(run[0]) && i < |run|
    requires forall k :: 0 <= k < |run| - 1 ==> RecoveryOrRestart(run[k], run[k + 1])
    ensures Inv(run[i]) && RecoverAll(run[i].disk) == RecoverAll(run[0].disk)
    ensures run[i].pc == Recovered ==> Ok(run[i].disk) == RecoverAll(run[0].disk)
  {
    if i > 0 {
      RecoveryEndsAlike(run, i - 1);
      assert RecoveryOrRestart(run[i - 1], run[(i - 1) + 1]);
      if RecoveryStep(run[i - 1], run[i]) {
        RecoveryConfluent(run[i - 1], run[i]);
      }
      StepKeepsInv(run[i - 1], run[i]);
    }
  }

  /** The steps a recovery still has to take when nothing interrupts it. */
  function Rank(pc: Pc): nat {
    match pc
    case Recovering => 12
    case CheckRetired(w) => if w.Software? then 10 else 5
    case ClearDestination(w) => if w.Software? then 9 else 4
    case DropDestination(w) => if w.Software? then 8 else 3
    case Restore(w) => if w.Software? then 8 else 3
    case DropNew(w) => if w.Software? then 7 else 2
    case DropRetired(w) => if w.Software? then 5 else 3
    case DropIncoming(w) => if w.Software? then 4 else 2
    case ClearJournal => 1
    case _ => 0
  }

  /** The step that finishes what the current place begins. */
  function Finish(s: State): State
    requires Inv(s) && Rank(s.pc) > 0
  {
    var d, j := s.disk, s.disk.journal;
    match s.pc
    case Recovering =>
      s.(pc := if j.NoJournal? then Recovered
               else if j.state.Committed? then DropRetired(Software) else CheckRetired(Software))
    case DropRetired(w) => s.(disk := Set(d, w, Get(d, w).(retired := Absent)), pc := DropIncoming(w))
    case DropIncoming(w) =>
      s.(disk := Set(d, w, Get(d, w).(incoming := Absent)), pc := AfterEntry(w, DropRetired(Catalogue), ClearJournal))
    case CheckRetired(w) =>
      s.(pc := if Get(d, w).retired != Absent then ClearDestination(w)
               else if j.state.BackupStarted? && !Existed(j, w) then DropDestination(w) else DropNew(w))
    case ClearDestination(w) => s.(disk := Set(d, w, Get(d, w).(destination := Absent)), pc := Restore(w))
    case Restore(w) =>
      s.(disk := Set(d, w, Get(d, w).(destination := Get(d, w).retired, retired := Absent)), pc := DropNew(w))
    case DropDestination(w) => s.(disk := Set(d, w, Get(d, w).(destination := Absent)), pc := DropNew(w))
    case DropNew(w) =>
      s.(disk := Set(d, w, Get(d, w).(incoming := Absent)), pc := AfterEntry(w, CheckRetired(Catalogue), ClearJournal))
    case ClearJournal => s.(disk := d.(journal := NoJournal), pc := Recovered)
  }

  lemma FinishIsAStep(s: State)
    requires Inv(s) && Rank(s.pc) > 0
    ensures RecoveryStep(s, Finish(s)) && Rank(Finish(s).pc) < Rank(s.pc) && Inv(Finish(s))
    ensures Rank(Finish(s).pc) == 0 ==> Finish(s).pc == Recovered
  {
    RecoveryKeepsInv(s, Finish(s));
  }

  /** From every state the runs reach, a recovery left alone completes, on the outcome. */
  lemma {:induction false} RecoveryCompletes(s: State) returns (run: seq<State>)
    requires Inv(s) && (Rank(s.pc) > 0 || s.pc == Recovered)
    ensures |run| > 0 && run[0] == s && run[|run| - 1].pc == Recovered
    ensures forall k :: 0 <= k < |run| - 1 ==> RecoveryStep(run[k], run[k + 1])
    ensures Ok(run[|run| - 1].disk) == RecoverAll(s.disk)
    ensures run[|run| - 1].disk.software.destination == Outcome(s.history, Software)
    ensures run[|run| - 1].disk.catalogue.destination == Outcome(s.history, Catalogue)
    decreases Rank(s.pc)
  {
    if s.pc == Recovered {
      run := [s];
    } else {
      FinishIsAStep(s);
      RecoveryConfluent(s, Finish(s));
      var rest := RecoveryCompletes(Finish(s));
      run := [s] + rest;
    }
  }

  /** The steps a promotion still has to take up to its commit. */
  function StepsToCommit(pc: Pc): nat {
    match pc
    case CopyStart(w) => if w.Software? then 10 else 8
    case CopyEnd(w) => if w.Software? then 9 else 7
    case BeginBackup => 6
    case Backup(w) => if w.Software? then 5 else 4
    case Place(w) => if w.Software? then 3 else 2
    case Commit => 1
    case _ => 0
  }

  /** The step a promotion takes when nothing fails. */
  function Advance(s: State): State
    requires Inv(s) && StepsToCommit(s.pc) > 0
  {
    var d, j, h := s.disk, s.disk.journal, s.history;
    match s.pc
    case CopyStart(w) => s.(disk := Set(d, w, Get(d, w).(incoming := Partial)), pc := CopyEnd(w))
    case CopyEnd(w) =>
      s.(disk := Set(d, w, Get(d, w).(incoming := Stage(h, w))), pc := AfterEntry(w, CopyStart(Catalogue), BeginBackup))
    case BeginBackup => s.(disk := d.(journal := j.(state := BackupStarted)), pc := Backup(Software))
    case Backup(w) =>
      s.(disk := if Get(d, w).destination != Absent
                 then Set(d, w, Get(d, w).(destination := Absent, retired := Get(d, w).destination)) else d,
         pc := AfterEntry(w, Backup(Catalogue), Place(Software)))
    case Place(w) =>
      s.(disk := Set(d, w, Get(d, w).(destination := Get(d, w).incoming, incoming := Absent)),
         pc := AfterEntry(w, Place(Catalogue), Commit))
    case Commit => s.(disk := d.(journal := j.(state := Committed)), history := h.(committed := true), pc := Recovering)
  }

  lemma AdvanceIsAStep(s: State)
    requires Inv(s) && StepsToCommit(s.pc) > 0
    ensures PromotionStep(s, Advance(s)) && StepsToCommit(Advance(s).pc) == StepsToCommit(s.pc) - 1
    ensures Advance(s).history == s.history.(committed := s.pc == Commit)
    ensures StepsToCommit(s.pc) == 1 ==> Advance(s).pc == Recovering
  {
  }

  /** From every reachable state of a promotion some run commits and completes on the staged
      trees: copies find no remnant in their way and no rename is blocked. */
  lemma {:induction false} PromotionCompletes(s: State) returns (run: seq<State>)
    requires Inv(s) && StepsToCommit(s.pc) > 0
    ensures |run| > 0 && run[0] == s && forall k :: 0 <= k < |run| - 1 ==> Step(run[k], run[k + 1])
    ensures var last := run[|run| - 1];
            && last.pc == Recovered
            && last.disk.software.destination == Stage(s.history, Software)
            && last.disk.catalogue.destination == Stage(s.history, Catalogue)
    decreases StepsToCommit(s.pc)
  {
    hide Inv, Step, PromotionStep, RecoveryStep, Advance;
    AdvanceIsAStep(s);
    StepsAre(s, Advance(s));
    StepKeepsInv(s, Advance(s));
    var rest: seq<State>;
    if s.pc == Commit {
      rest := RecoveryCompletes(Advance(s));
      forall k | 0 <= k < |rest| - 1 ensures Step(rest[k], rest[k + 1]) {
        assert RecoveryStep(rest[k], rest[k + 1]);
        StepsAre(rest[k], rest[k + 1]);
      }
    } else {
      rest := PromotionCompletes(Advance(s));
    }
    run := [s] + rest;
  }

  lemma StepsAre(s: State, s': State)
    requires RecoveryStep(s, s') || PromotionStep(s, s')
    ensures Step(s, s')
  {
    hide RecoveryStep, PromotionStep;
  }

  // ---------- the two routines, uninterrupted ----------

  /** The trees and the journal on disk. */
  class ReleasePair {
    var disk: Disk

    /** recover_incomplete_promotion */
    method RecoverIncompletePromotion() returns (ok: bool)
      modifies this
      ensures ok <==> RecoverAll(old(disk)).Ok?
      ensures Ok(disk) == if ok then RecoverAll(old(disk)) else Ok(old(disk))
    {
      if disk.journal.NoJournal? {
        return !Leftovers(disk);
      }
      var journal := disk.journal;
      var entries := [Software, Catalogue];
      for i := 0 to 2
        invariant disk.journal == journal
        invariant disk.software == if i > 0 then RecoverEntry(old(disk).software, journal, Software)
            else old(disk).software
        invariant disk.catalogue == if i > 1 then RecoverEntry(old(disk).catalogue, journal, Catalogue)
            else old(disk).catalogue
      {
        var w := entries[i];
        var e := Get(disk, w);
        if journal.state.Committed? {
          if e.retired != Absent { e := e.(retired := Absent); }
          if e.incoming != Absent { e := e.(incoming := Absent); }
        } else {
          if e.retired != Absent {
            if e.destination != Absent { e := e.(destination := Absent); }
            e := e.(destination := e.retired, retired := Absent);
          } else if journal.state.BackupStarted? && !Existed(journal, w) {
            if e.destination != Absent { e := e.(destination := Absent); }
          }
          if e.incoming != Absent { e := e.(incoming := Absent); }
        }
        disk := Set(disk, w, e);
      }
      disk := disk.(journal := NoJournal);
      ok := true;
    }

    /** promote_release_pair, when no step fails but perhaps the final verification: the
        pair ends up staged or as recovery found it, never in between. */
    method PromoteReleasePair(softwareStage: nat, catalogueStage: nat, verifies: bool) returns (ok: bool)
      modifies this
      ensures RecoverAll(old(disk)).Err? ==> !ok && disk == old(disk)
      ensures RecoverAll(old(disk)).Ok? ==>
                && ok == verifies
                && var before := RecoverAll(old(disk)).value;
                   disk == if verifies
                           then Disk(Entry(Whole(softwareStage), Absent, Absent),
                                     Entry(Whole(catalogueStage), Absent, Absent), NoJournal)
                           else before
    {
      var recovered := RecoverIncompletePromotion();
      if !recovered { return false; }
      var journal := Journal(Preparing, disk.software.destination != Absent, disk.catalogue.destination != Absent);
      disk := disk.(journal := journal);
      disk := disk.(software := disk.software.(incoming := Whole(softwareStage)));
      disk := disk.(catalogue := disk.catalogue.(incoming := Whole(catalogueStage)));
      disk := disk.(journal := journal.(state := BackupStarted));
      if disk.software.destination != Absent {
        disk := disk.(software := disk.software.(destination := Absent, retired := disk.software.destination));
      }
      if disk.catalogue.destination != Absent {
        disk := disk.(catalogue := disk.catalogue.(destination := Absent, retired := disk.catalogue.destination));
      }
      disk := disk.(software := disk.software.(destination := disk.software.incoming, incoming := Absent));
      disk := disk.(catalogue := disk.catalogue.(destination := disk.catalogue.incoming, incoming := Absent));
      if verifies {
        disk := disk.(journal := journal.(state := Committed));
      }
      var finished := RecoverIncompletePromotion();
      ok := verifies;
    }
  }
}
