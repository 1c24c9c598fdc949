/**
  The reader-file cache under every interleaving of readers, evictions and file switches.
  Each locked region is one atomic step; between its steps a reader or an eviction only
  remembers what it has seen.
 */
module EvictionProtocol {
  import opened LruCache

  type Thread = nat

  /** Where the single writer is: writing, or in the middle of a switch to the next file. */
  datatype WriterPhase = Writing | OldFileMarked | NewFileAssigned

  datatype System = System(
    entries: map<Key, Entry>,
    lastUsed: int,
    /** The file being written (`m_currentBlobFileInfo`). */
    current: Key,
    phase: WriterPhase,
    /** The files that hold a blob whose location has been handed out. */
    published: set<Key>,
    /** Readers that missed a file and are about to add it. */
    pendingAdds: map<Thread, Key>,
    /** Evictions between their two phases. */
    pendingEvictions: map<Thread, set<Key>>)

  datatype Step =
    | GetHit(k: Key)
    | GetMiss(t: Thread, k: Key)
    | GetAdd(t: Thread)
    | Collect(t: Thread, victims: set<Key>)
    | Erase(t: Thread)
    | SwitchMarksOld
    | SwitchAssignsNew
    | SwitchAddsNew
    | Publish(k: Key)

  ghost predicate Enabled(s: System, maxSize: nat, step: Step) {
    match step
    case GetHit(k) => k in s.published && k in s.entries
    case GetMiss(t, k) => k in s.published && k !in s.entries && t !in s.pendingAdds
    case GetAdd(t) => t in s.pendingAdds
    case Collect(t, victims) => t !in s.pendingEvictions && LeastRecentlyUsed(s.entries, maxSize, victims)
    case Erase(t) => t in s.pendingEvictions
    case SwitchMarksOld => s.phase == Writing
    case SwitchAssignsNew => s.phase == OldFileMarked
    case SwitchAddsNew => s.phase == NewFileAssigned
    case Publish(k) => s.phase == Writing && k <= s.current
  }

  ghost function Do(s: System, step: Step): System {
    match step
    case GetHit(k) => s.(entries := Touch(s.entries, k, s.lastUsed + 1), lastUsed := s.lastUsed + 1)
    case GetMiss(t, k) => s.(pendingAdds := s.pendingAdds[t := k])
    case GetAdd(t) =>
      if t in s.pendingAdds then
        s.(entries := AddEntry(s.entries, s.pendingAdds[t], s.lastUsed + 1, true), lastUsed := s.lastUsed + 1,
           pendingAdds := s.pendingAdds - {t})
      else s
    case Collect(t, victims) => s.(pendingEvictions := s.pendingEvictions[t := victims])
    case Erase(t) =>
      if t in s.pendingEvictions then
        s.(entries := s.entries - s.pendingEvictions[t], pendingEvictions := s.pendingEvictions - {t})
      else s
    case SwitchMarksOld => s.(entries := Mark(s.entries, s.current, true), phase := OldFileMarked)
    case SwitchAssignsNew => s.(current := s.current + 1, phase := NewFileAssigned)
    case SwitchAddsNew =>
      s.(entries := AddEntry(s.entries, s.current, s.lastUsed + 1, false), lastUsed := s.lastUsed + 1, phase := Writing)
    case Publish(k) => s.(published := s.published + {k})
  }

  /** A blob manager that has just been opened on files up to `current`. */
  ghost predicate Initial(s: System) {
    && s.phase == Writing && s.entries == map[s.current := Entry(s.lastUsed, false)]
    && (forall k | k in s.published :: k <= s.current)
    && s.pendingAdds == map[] && s.pendingEvictions == map[]
  }

  /** Whether a reader or an eviction may still hold `k` without endangering the file being written. */
  predicate Harmless(phase: WriterPhase, current: Key, k: Key) {
    if phase == OldFileMarked then k <= current else k < current
  }

  ghost predicate Inv(s: System) {
    CurrentCached(s) && OthersEvictable(s) && NoLaterFile(s) && AddsHarmless(s) && EvictionsHarmless(s)
  }

  /** No other file is kept from eviction: the file being written is the only one that is not evictable. */
  ghost predicate OthersEvictable(s: System) {
    forall k | k in s.entries :: s.entries[k].evictable <==> s.phase != Writing || k != s.current
  }

  /** The file being written is cached and cannot be evicted; one just assigned is not known yet. */
  ghost predicate CurrentCached(s: System) {
    && (s.phase == Writing ==> s.current in s.entries && !s.entries[s.current].evictable)
    && (s.phase == NewFileAssigned ==> s.current !in s.published && s.current !in s.entries)
  }

  ghost predicate NoLaterFile(s: System) {
    (forall k | k in s.published :: k <= s.current) && (forall k | k in s.entries :: k <= s.current)
  }

  ghost predicate AddsHarmless(s: System) {
    forall t | t in s.pendingAdds :: Harmless(s.phase, s.current, s.pendingAdds[t])
  }

  ghost predicate EvictionsHarmless(s: System) {
    forall t, k | t in s.pendingEvictions && k in s.pendingEvictions[t] :: Harmless(s.phase, s.current, k)
  }

  lemma InitialInv(s: System)
    requires Initial(s)
    ensures Inv(s)
  {
  }

  /** What a reader remembers between finding a file missing and adding it is never the file being written. */
  lemma StepKeepsAdds(s: System, maxSize: nat, step: Step)
    requires Inv(s) && Enabled(s, maxSize, step)
    ensures AddsHarmless(Do(s, step))
  {
    hide LeastRecentlyUsed, EvictionsHarmless;
    var s' := Do(s, step);
    forall t | t in s'.pendingAdds
      ensures Harmless(s'.phase, s'.current, s'.pendingAdds[t])
    {
      if t in s.pendingAdds && s.pendingAdds[t] == s'.pendingAdds[t] {
        assert Harmless(s.phase, s.current, s.pendingAdds[t]);
      } else {
        assert step == GetMiss(t, s'.pendingAdds[t]);
      }
    }
  }

  /** What an eviction remembers between its two phases never contains the file being written. */
  lemma StepKeepsEvictions(s: System, maxSize: nat, step: Step)
    requires Inv(s) && Enabled(s, maxSize, step)
    ensures EvictionsHarmless(Do(s, step))
  {
    hide AddsHarmless;
    var s' := Do(s, step);
    forall t, k | t in s'.pendingEvictions && k in s'.pendingEvictions[t]
      ensures Harmless(s'.phase, s'.current, k)
    {
      if t in s.pendingEvictions && s.pendingEvictions[t] == s'.pendingEvictions[t] {
        assert Harmless(s.phase, s.current, k);
      } else {
        assert step == Collect(t, s'.pendingEvictions[t]);
        assert k in Evictable(s.entries);
      }
    }
  }

  lemma StepKeepsCurrent(s: System, maxSize: nat, step: Step)
    requires Inv(s) && Enabled(s, maxSize, step)
    ensures CurrentCached(Do(s, step))
  {
    hide LeastRecentlyUsed;
    match step {
      case GetAdd(t) =>
        assert Harmless(s.phase, s.current, s.pendingAdds[t]);
      case Erase(t) =>
        assert s.current in s.pendingEvictions[t] ==> Harmless(s.phase, s.current, s.current);
      case _ =>
    }
  }

  lemma StepKeepsOrder(s: System, maxSize: nat, step: Step)
    requires Inv(s) && Enabled(s, maxSize, step)
    ensures NoLaterFile(Do(s, step))
  {
    hide LeastRecentlyUsed, EvictionsHarmless;
    if step.GetAdd? {
      assert Harmless(s.phase, s.current, s.pendingAdds[step.t]);
    }
  }

  /** Readers add files as evictable ones, and a switch gives the old file up before it protects the new one. */
  lemma StepKeepsFlags(s: System, maxSize: nat, step: Step)
    requires Inv(s) && Enabled(s, maxSize, step)
    ensures OthersEvictable(Do(s, step))
  {
    hide LeastRecentlyUsed, EvictionsHarmless;
    if step.GetAdd? {
      assert Harmless(s.phase, s.current, s.pendingAdds[step.t]);
    }
  }

  /** Every step keeps the invariant. */
  lemma StepInv(s: System, maxSize: nat, step: Step)
    requires Inv(s) && Enabled(s, maxSize, step)
    ensures Inv(Do(s, step))
  {
    hide Do, Enabled, CurrentCached, OthersEvictable, NoLaterFile, AddsHarmless, EvictionsHarmless;
    StepKeepsCurrent(s, maxSize, step);
    StepKeepsOrder(s, maxSize, step);
    StepKeepsFlags(s, maxSize, step);
    StepKeepsAdds(s, maxSize, step);
    StepKeepsEvictions(s, maxSize, step);
  }

  ghost predicate Run(states: seq<System>, steps: seq<Step>, maxSize: nat) {
    && |states| == |steps| + 1
    && Initial(states[0])
    && forall i | 0 <= i < |steps| :: Enabled(states[i], maxSize, steps[i]) && states[i + 1] == Do(states[i], steps[i])
  }

  lemma {:induction false} RunInv(states: seq<System>, steps: seq<Step>, maxSize: nat, n: nat)
    requires Run(states, steps, maxSize) && n < |states|
    ensures Inv(states[n])
  {
    if n == 0 {
      InitialInv(states[0]);
    } else {
      RunInv(states, steps, maxSize, n - 1);
      StepInv(states[n - 1], maxSize, steps[n - 1]);
    }
  }

  /**
    In every run, whenever no switch is in progress the file being written is cached and cannot
    be chosen for eviction; so the switch's assertion that it finds the file always holds.
   */
  lemma CurrentFileStaysCached(states: seq<System>, steps: seq<Step>, maxSize: nat, n: nat)
    requires Run(states, steps, maxSize) && n < |states|
    ensures states[n].phase == Writing ==>
              states[n].current in states[n].entries && !states[n].entries[states[n].current].evictable
    ensures n < |steps| && steps[n] == SwitchMarksOld ==> states[n].current in states[n].entries
  {
    RunInv(states, steps, maxSize, n);
    if n < |steps| {
      assert Enabled(states[n], maxSize, steps[n]);
    }
  }

  /** In every run, an eviction whose two phases are not interrupted brings the cache down to its maximum size, or to the file being written. */
  lemma EvictionBoundsCache(states: seq<System>, steps: seq<Step>, maxSize: nat, n: nat)
    requires Run(states, steps, maxSize) && n + 1 < |steps|
    requires steps[n].Collect? && steps[n + 1] == Erase(steps[n].t)
    ensures |states[n + 2].entries| <= if maxSize > 0 then maxSize else 1
  {
    hide LeastRecentlyUsed;
    RunInv(states, steps, maxSize, n);
    var s, victims := states[n], steps[n].victims;
    assert Enabled(s, maxSize, steps[n]) && states[n + 1] == Do(s, steps[n]);
    assert states[n + 2] == Do(states[n + 1], steps[n + 1]);
    var left := s.entries - victims;
    assert states[n + 2].entries == left;
    VictimsSize(s.entries, maxSize, victims);
    if |left| > maxSize {
      assert left.Keys <= {s.current};
      SubsetSize(left.Keys, {s.current});
    }
  }

  /** No erasure, whenever its keys were chosen, removes the file being written outside a switch. */
  lemma EraseSparesCurrentFile(states: seq<System>, steps: seq<Step>, maxSize: nat, n: nat)
    requires Run(states, steps, maxSize) && n < |steps| && steps[n].Erase? && states[n].phase == Writing
    ensures steps[n].t in states[n].pendingEvictions
    ensures states[n].current !in states[n].pendingEvictions[steps[n].t]
    ensures states[n].current in states[n + 1].entries
  {
    RunInv(states, steps, maxSize, n);
    RunInv(states, steps, maxSize, n + 1);
    assert Enabled(states[n], maxSize, steps[n]) && states[n + 1] == Do(states[n], steps[n]);
  }
}
