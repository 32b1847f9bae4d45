/**
 * src/scripts/import-roles.ts: running the import again on a table that already has titles, where
 * some of them may be stale, that is no longer in the release of the source they came from.
 */
module RoleReruns {
  import opened Results
  import opened RoleTitles
  import opened RoleTable

  const ALL := SourcesOf(All)

  // What the table holds for a key.
  ghost function SlotOf(t: Table, k: Key): Option<RoleTitle> {
    if k in t then Some(t[k]) else None
  }

  // What importing a source makes of the title held for a key.
  ghost function Refill(slot: Option<RoleTitle>, source: Source, rows: seq<RoleTitle>, k: Key): Option<RoleTitle> {
    if slot.Some? && slot.value.parsed.source != source then slot
    else if HasTitle(rows, k) then Some(FirstTitle(rows, k))
    else None
  }

  // The title held is its source's current one, or no source has a title for the key.
  ghost predicate IsCurrent(slot: Option<RoleTitle>, titles: Source -> seq<RoleTitle>, k: Key) {
    match slot
    case None => forall s :: !HasTitle(titles(s), k)
    case Some(title) =>
      HasTitle(titles(title.parsed.source), k) && title == FirstTitle(titles(title.parsed.source), k)
  }

  ghost predicate Settled(t: Table, titles: Source -> seq<RoleTitle>) {
    forall k :: IsCurrent(SlotOf(t, k), titles, k)
  }

  lemma SameSlots(t: Table, u: Table)
    requires forall k :: SlotOf(t, k) == SlotOf(u, k)
    ensures t == u
  {
    forall k ensures (k in t <==> k in u) && (k in t ==> t[k] == u[k]) {
      assert SlotOf(t, k) == SlotOf(u, k);
    }
  }

  lemma RefilledSlot(t: Table, source: Source, rows: seq<RoleTitle>, k: Key)
    ensures SlotOf(Replaced(t, source, rows), k) == Refill(SlotOf(t, k), source, rows, k)
  {
    ReplacedAt(t, source, rows, k);
  }

  lemma OwnFirstTitle(titles: Source -> seq<RoleTitle>, source: Source, k: Key)
    requires OwnTitles(titles) && HasTitle(titles(source), k)
    ensures FirstTitle(titles(source), k).parsed.source == source
  {
    assert FirstTitle(titles(source), k) in titles(source);
  }

  // A table is settled exactly if importing no single source changes it.
  lemma SettledIffFixed(t: Table, titles: Source -> seq<RoleTitle>)
    requires OwnTitles(titles)
    ensures Settled(t, titles) <==> forall s :: Replaced(t, s, titles(s)) == t
  {
    if Settled(t, titles) {
      forall s ensures Replaced(t, s, titles(s)) == t {
        forall k ensures SlotOf(Replaced(t, s, titles(s)), k) == SlotOf(t, k) {
          RefilledSlot(t, s, titles(s), k);
          assert IsCurrent(SlotOf(t, k), titles, k);
        }
        SameSlots(Replaced(t, s, titles(s)), t);
      }
    }
    if forall s :: Replaced(t, s, titles(s)) == t {
      forall k ensures IsCurrent(SlotOf(t, k), titles, k) {
        forall s ensures SlotOf(t, k) == Refill(SlotOf(t, k), s, titles(s), k) {
          RefilledSlot(t, s, titles(s), k);
          assert Replaced(t, s, titles(s)) == t;
        }
        if k in t {
          assert SlotOf(t, k) == Refill(SlotOf(t, k), t[k].parsed.source, titles(t[k].parsed.source), k);
        }
      }
    }
  }

  lemma {:induction false} SettledStays(t: Table, sources: seq<Source>, titles: Source -> seq<RoleTitle>)
    requires OwnTitles(titles) && Settled(t, titles)
    ensures AfterAll(t, sources, titles) == t
    decreases |sources|
  {
    hide Settled;
    if sources != [] {
      SettledStays(t, sources[..|sources| - 1], titles);
      SettledIffFixed(t, titles);
    }
  }

  // The place of a source in the `all` order.
  function Rank(source: Source): nat {
    match source
    case ESCO => 0
    case CBO => 1
    case ONET => 2
    case CURATED => 3
  }

  // The title is stale, no source imported after its own has the key, but one imported before does:
  // `all` deletes the title when the sources that could replace it have already been imported.
  ghost predicate Stranded(t: Table, titles: Source -> seq<RoleTitle>, k: Key) {
    && k in t && !HasTitle(titles(t[k].parsed.source), k)
    && (forall s :: Rank(s) > Rank(t[k].parsed.source) ==> !HasTitle(titles(s), k))
    && (exists s :: Rank(s) < Rank(t[k].parsed.source) && HasTitle(titles(s), k))
  }

  ghost function RefillAll(slot: Option<RoleTitle>, titles: Source -> seq<RoleTitle>, k: Key): Option<RoleTitle> {
    var esco := Refill(slot, ESCO, titles(ESCO), k);
    var cbo := Refill(esco, CBO, titles(CBO), k);
    var onet := Refill(cbo, ONET, titles(ONET), k);
    Refill(onet, CURATED, titles(CURATED), k)
  }

  lemma SlotAfterRun(t: Table, titles: Source -> seq<RoleTitle>, k: Key)
    ensures SlotOf(AfterAll(t, ALL, titles), k) == RefillAll(SlotOf(t, k), titles, k)
  {
    AfterSteps(t, titles);
    var esco := Replaced(t, ESCO, titles(ESCO));
    var cbo := Replaced(esco, CBO, titles(CBO));
    var onet := Replaced(cbo, ONET, titles(ONET));
    hide Replaced;
    RefilledSlot(t, ESCO, titles(ESCO), k);
    RefilledSlot(esco, CBO, titles(CBO), k);
    RefilledSlot(cbo, ONET, titles(ONET), k);
    RefilledSlot(onet, CURATED, titles(CURATED), k);
  }

  // Every title held after a run is current.
  lemma RefilledIsCurrent(slot: Option<RoleTitle>, titles: Source -> seq<RoleTitle>, k: Key)
    requires forall s :: HasTitle(titles(s), k) ==> FirstTitle(titles(s), k).parsed.source == s
    ensures RefillAll(slot, titles, k).Some? ==> IsCurrent(RefillAll(slot, titles, k), titles, k)
  {
    hide HasTitle, FirstTitle;
  }

  // A run leaves no title only if no source has one, or the title held is stale and no source
  // imported after its own has one.
  lemma RefilledIsEmpty(slot: Option<RoleTitle>, titles: Source -> seq<RoleTitle>, k: Key)
    requires forall s :: HasTitle(titles(s), k) ==> FirstTitle(titles(s), k).parsed.source == s
    ensures RefillAll(slot, titles, k).None? <==>
              if slot.None? then forall s :: !HasTitle(titles(s), k)
              else forall s :: Rank(s) >= Rank(slot.value.parsed.source) ==> !HasTitle(titles(s), k)
  {
    hide HasTitle, FirstTitle;
    var after := RefillAll(slot, titles, k);
    forall s | after.None? && (slot.Some? ==> Rank(s) >= Rank(slot.value.parsed.source))
      ensures !HasTitle(titles(s), k)
    {
      match s
      case ESCO =>
      case CBO =>
      case ONET =>
      case CURATED =>
    }
  }

  // Only stranded keys are left without the title they could have.
  lemma SlotAfterRunCurrent(t: Table, titles: Source -> seq<RoleTitle>, k: Key)
    requires OwnTitles(titles)
    ensures var slot := SlotOf(AfterAll(t, ALL, titles), k);
            (IsCurrent(slot, titles, k) <==> !Stranded(t, titles, k)) && (slot.Some? ==> IsCurrent(slot, titles, k))
  {
    SlotAfterRun(t, titles, k);
    forall s | HasTitle(titles(s), k) ensures FirstTitle(titles(s), k).parsed.source == s {
      OwnFirstTitle(titles, s, k);
    }
    hide HasTitle, FirstTitle, AfterAll, RefillAll;
    RefilledIsCurrent(SlotOf(t, k), titles, k);
    RefilledIsEmpty(SlotOf(t, k), titles, k);
    if k in t {
      assert forall s :: Rank(s) == Rank(t[k].parsed.source) ==> s == t[k].parsed.source;
    }
  }

  // No later runs on the same input change the table.
  ghost predicate LaterRunsKeep(t: Table, titles: Source -> seq<RoleTitle>) {
    forall runs :: AfterAll(t, SourcesOfRuns(runs), titles) == t
  }

  lemma SettledIffKept(t: Table, titles: Source -> seq<RoleTitle>)
    requires OwnTitles(titles)
    ensures Settled(t, titles) <==> LaterRunsKeep(t, titles)
  {
    hide Settled;
    if Settled(t, titles) {
      forall runs ensures AfterAll(t, SourcesOfRuns(runs), titles) == t {
        SettledStays(t, SourcesOfRuns(runs), titles);
      }
    }
    if LaterRunsKeep(t, titles) {
      forall s ensures Replaced(t, s, titles(s)) == t {
        assert SourcesOfRuns([Only(s)]) == [s] by {
          assert [Only(s)][1..] == [] && [s] + [] == [s];
        }
        AfterSteps(t, titles);
      }
      SettledIffFixed(t, titles);
    }
  }

  // Whatever the table held, one `all` run is enough exactly if it strands no title.
  lemma OneRunSufficesIff(t: Table, titles: Source -> seq<RoleTitle>)
    requires OwnTitles(titles)
    ensures LaterRunsKeep(AfterAll(t, ALL, titles), titles) <==> forall k :: !Stranded(t, titles, k)
  {
    hide LaterRunsKeep, Stranded, IsCurrent, AfterAll;
    var u := AfterAll(t, ALL, titles);
    forall k ensures IsCurrent(SlotOf(u, k), titles, k) <==> !Stranded(t, titles, k) {
      SlotAfterRunCurrent(t, titles, k);
    }
    SettledIffKept(u, titles);
  }

  // Two `all` runs are always enough.
  lemma TwoRunsSuffice(t: Table, titles: Source -> seq<RoleTitle>)
    requires OwnTitles(titles)
    ensures LaterRunsKeep(AfterAll(AfterAll(t, ALL, titles), ALL, titles), titles)
  {
    hide LaterRunsKeep;
    var u := AfterAll(t, ALL, titles);
    forall k ensures !Stranded(u, titles, k) {
      SlotAfterRunCurrent(t, titles, k);
    }
    OneRunSufficesIff(u, titles);
  }

  // Stranding happens: CBO's stale title for a key that ESCO now has is deleted by the first run,
  // and ESCO gets the key only in the second.
  lemma StrandedByOneRun(t: Table, titles: Source -> seq<RoleTitle>, k: Key)
    requires OwnTitles(titles) && k in t && t[k].parsed.source == CBO
    requires forall s :: HasTitle(titles(s), k) <==> s == ESCO
    ensures var once := AfterAll(t, ALL, titles);
            k !in once && SlotOf(AfterAll(once, ALL, titles), k) == Some(FirstTitle(titles(ESCO), k))
  {
    var once := AfterAll(t, ALL, titles);
    SlotAfterRun(t, titles, k);
    SlotAfterRun(once, titles, k);
    OwnFirstTitle(titles, ESCO, k);
    hide HasTitle, FirstTitle, AfterAll;
    assert RefillAll(SlotOf(t, k), titles, k) == None;
  }

  // A source imported on its own first keeps its titles: ESCO does not win them in a later `all` run.
  lemma FirstImportKeeps(source: Source, titles: Source -> seq<RoleTitle>, k: Key)
    requires OwnTitles(titles) && HasTitle(titles(source), k)
    ensures var r := AfterAll(AfterAll(map[], SourcesOf(Only(source)), titles), ALL, titles);
            k in r && r[k].parsed.source == source
  {
    AfterAppend(map[], [source], ALL, titles);
    EmptyTableFillsUp([source] + ALL, titles, k);
    OwnFirstTitle(titles, source, k);
    assert ([source] + ALL)[0] == source;
  }
}
