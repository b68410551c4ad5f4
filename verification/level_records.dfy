/** Which records the level-aware store keeps: parents after a Put, ancestors over a run, nothing of a deleted block. */
module LevelRecords {
  import opened Dag
  import opened LevelSpec
  import opened LevelStores
  import opened LevelTheorems

  // ---------------------------------------------------------------- one Put

  /** A child whose level is known to be `l`. */
  ghost predicate Taken(levelMap: map<Cid, nat>, kids: seq<Cid>, l: nat, x: Cid) {
    x in kids && x in levelMap && levelMap[x] == l
  }

  /** In the cohort of level `l` exactly the children of that level are now recorded under the parent. */
  ghost predicate AdoptedAt(before: Cohort, after: Cohort, levelMap: map<Cid, nat>, kids: seq<Cid>, parent: Cid, l: nat) {
    && after.childrenOf == before.childrenOf && after.count == before.count && after.level == before.level
    && (forall x :: Taken(levelMap, kids, l, x) ==> x in after.blockInfo && after.blockInfo[x] == BlockInfo(l, parent))
    && forall x :: !Taken(levelMap, kids, l, x) ==> SameRecord(before, after, x)
  }

  ghost predicate SameRecord(before: Cohort, after: Cohort, x: Cid) {
    (x in after.blockInfo <==> x in before.blockInfo) && (x in before.blockInfo ==> after.blockInfo[x] == before.blockInfo[x])
  }

  lemma AdoptOneAt(cohorts: Cohorts, levelMap: map<Cid, nat>, kid: Cid, parent: Cid, l: nat)
    requires l in cohorts
    ensures l in AdoptOne(cohorts, levelMap, kid, parent)
    ensures AdoptedAt(cohorts[l], AdoptOne(cohorts, levelMap, kid, parent)[l], levelMap, [kid], parent, l)
  {
  }

  lemma {:induction false} AdoptAt(cohorts: Cohorts, levelMap: map<Cid, nat>, kids: seq<Cid>, parent: Cid, l: nat)
    requires l in cohorts
    ensures l in Adopt(cohorts, levelMap, kids, parent)
    ensures AdoptedAt(cohorts[l], Adopt(cohorts, levelMap, kids, parent)[l], levelMap, kids, parent, l)
    decreases kids
  {
    if kids != [] {
      hide AdoptOne;
      var next := AdoptOne(cohorts, levelMap, kids[0], parent);
      AdoptOneAt(cohorts, levelMap, kids[0], parent, l);
      AdoptAt(next, levelMap, kids[1..], parent, l);
      hide Adopt;
      AdoptedTwice(cohorts[l], next[l], Adopt(next, levelMap, kids[1..], parent)[l], levelMap, kids, parent, l);
    }
  }

  lemma AdoptedTwice(a: Cohort, b: Cohort, c: Cohort, levelMap: map<Cid, nat>, kids: seq<Cid>, parent: Cid, l: nat)
    requires kids != [] && AdoptedAt(a, b, levelMap, [kids[0]], parent, l) && AdoptedAt(b, c, levelMap, kids[1..], parent, l)
    ensures AdoptedAt(a, c, levelMap, kids, parent, l)
  {
    forall x ensures Taken(levelMap, kids, l, x) <==> Taken(levelMap, [kids[0]], l, x) || Taken(levelMap, kids[1..], l, x) {
      assert kids == [kids[0]] + kids[1..];
    }
  }

  /** The cohort of level `l` as it was before a Put, new if it did not exist. */
  ghost function CohortBefore(s: Levels, l: nat): Cohort {
    if l in s.cohorts then s.cohorts[l] else NewCohort(l)
  }

  /** What a Put of `c` at `level` makes of the cohort of level `l`. */
  ghost predicate PutAt(before: Cohort, after: Cohort, levelMap: map<Cid, nat>, c: Cid, level: nat, l: nat) {
    && (forall k :: Taken(levelMap, Kids(c), l, k) ==> k in after.blockInfo && after.blockInfo[k] == BlockInfo(l, c))
    && (l == level ==>
          && c in after.blockInfo && after.blockInfo[c] == BlockInfo(level, Undef)
          && after.childrenOf == before.childrenOf[c := Kids(c)] && after.count == before.count + 1)
    && (l != level ==> after.childrenOf == before.childrenOf && after.count == before.count)
    && after.level == before.level
    && forall x :: !Taken(levelMap, Kids(c), l, x) && (x != c || l != level) ==> SameRecord(before, after, x)
  }

  lemma NotItsOwnKid(c: Cid)
    requires c.Of?
    ensures c !in Kids(c)
  {
    if c in Kids(c) {
      KidIsDefined(c, c);
    }
  }

  lemma PlacedCohorts(s: Levels, c: Cid, max: nat, l: nat)
    ensures l in Placed(s, c, max).cohorts ==> Placed(s, c, max).cohorts[l] == CohortBefore(s, l)
    ensures l in Placed(s, c, max).cohorts ==> l in s.cohorts || l == LevelFor(s, c)
    ensures Placed(s, c, max).currentLevel == LevelFor(s, c)
    ensures Placed(s, c, max).held == s.held && Placed(s, c, max).blockCount == s.blockCount
  {
    hide LevelFor, Kids;
  }

  /** A Put, cohort by cohort: every known child in a cohort that exists names its parent, and nothing else is touched. */
  lemma PutLaw(s: Levels, c: Cid, max: nat, l: nat)
    requires c.Of?
    ensures var r := PutNext(s, c, max);
            && r.currentLevel == LevelFor(s, c) && r.held == s.held + {c} && r.blockCount == s.blockCount + 1
            && (l in r.cohorts ==> (l in s.cohorts || l == LevelFor(s, c))
                                   && PutAt(CohortBefore(s, l), r.cohorts[l], r.levelMap, c, LevelFor(s, c), l))
  {
    PlacedCohorts(s, c, max, l);
    hide Placed, LevelFor, Kids, Adopt;
    NotItsOwnKid(c);
    var p := Placed(s, c, max);
    var recorded := Recorded(p.cohorts, p.currentLevel, c);
    AdoptKeys(recorded, p.levelMap, Kids(c), c);
    if l in p.cohorts {
      AdoptAt(recorded, p.levelMap, Kids(c), c, l);
    }
  }

  /** After a Put every child with a known level whose cohort exists is recorded there with the put block as its parent. */
  lemma ChildrenNameParent(s: Levels, c: Cid, max: nat, k: Cid)
    requires c.Of? && k in Kids(c)
    ensures var r := PutNext(s, c, max);
            k in r.levelMap && r.levelMap[k] in r.cohorts ==>
              k in r.cohorts[r.levelMap[k]].blockInfo && r.cohorts[r.levelMap[k]].blockInfo[k].parent == c
  {
    hide PutNext, Kids, LevelFor;
    var r := PutNext(s, c, max);
    if k in r.levelMap {
      PutLaw(s, c, max, r.levelMap[k]);
      assert Taken(r.levelMap, Kids(c), r.levelMap[k], k);
    }
  }

  /** With too many cohorts the lowest goes, and just the levels of the blocks it records are forgotten. */
  lemma RotationLaw(s: Levels, max: nat)
    ensures var r := Rotated(s, max);
            && r.held == s.held && r.currentLevel == s.currentLevel && r.blockCount == s.blockCount
            && (|s.cohorts| <= max ==> r == s)
            && (forall l :: l in r.cohorts ==> l in s.cohorts && r.cohorts[l] == s.cohorts[l])
            && (|s.cohorts| > max ==> forall l :: l in s.cohorts ==> (l in r.cohorts <==> exists k :: k in s.cohorts && k < l))
            && (forall x :: x in r.levelMap ==> x in s.levelMap && r.levelMap[x] == s.levelMap[x])
            && forall x :: x in s.levelMap ==>
                 (x !in r.levelMap <==> exists l :: l in s.cohorts && l !in r.cohorts && x in s.cohorts[l].blockInfo)
  {
    if |s.cohorts| > max {
      var m := Lowest(s.cohorts);
      assert IsLowest(s.cohorts, m);
      forall l | l in s.cohorts && l != m ensures m < l {
      }
    }
  }

  /** The cohort of level `m`, the lowest, is gone, and with it the levels of the blocks it records. */
  ghost predicate WithoutLowest(s: Levels, r: Levels, c: Cid, level: nat, m: nat) {
    && (m in s.cohorts || m == level) && m <= level && (forall l :: l in s.cohorts ==> m <= l)
    && r.cohorts.Keys == s.cohorts.Keys + {level} - {m}
    && r.levelMap == s.levelMap[c := level] - (if m in s.cohorts then s.cohorts[m].blockInfo.Keys else {})
  }

  ghost predicate WithAll(s: Levels, r: Levels, c: Cid, level: nat) {
    r.cohorts.Keys == s.cohorts.Keys + {level} && r.levelMap == s.levelMap[c := level]
  }

  /** Which cohorts and which levels a Put leaves: all and its own, unless that makes one cohort too many. */
  lemma PutKeys(s: Levels, c: Cid, max: nat)
    requires c.Of?
    ensures var r, level := PutNext(s, c, max), LevelFor(s, c);
            if level in s.cohorts || |s.cohorts| < max then WithAll(s, r, c, level) else exists m :: WithoutLowest(s, r, c, level, m)
  {
    hide Placed, LevelFor, Kids, Adopt;
    var level, p := LevelFor(s, c), Placed(s, c, max);
    AdoptKeys(Recorded(p.cohorts, p.currentLevel, c), p.levelMap, Kids(c), c);
    assert Recorded(p.cohorts, p.currentLevel, c).Keys == p.cohorts.Keys;
    if level in s.cohorts || |s.cohorts| < max {
      PlacedWithAll(s, c, max);
    } else {
      var m := PlacedWithoutLowest(s, c, max);
      assert WithoutLowest(s, PutNext(s, c, max), c, level, m);
    }
  }

  lemma WiderKeys(cohorts: Cohorts, level: nat, cohort: Cohort)
    ensures cohorts[level := cohort].Keys == cohorts.Keys + {level}
    ensures level in cohorts ==> cohorts.Keys + {level} == cohorts.Keys
    ensures level !in cohorts ==> |cohorts[level := cohort]| == |cohorts| + 1
  {
    assert cohorts[level := cohort].Keys == cohorts.Keys + {level};
  }

  lemma PlacedWithAll(s: Levels, c: Cid, max: nat)
    requires LevelFor(s, c) in s.cohorts || |s.cohorts| < max
    ensures WithAll(s, Placed(s, c, max), c, LevelFor(s, c))
  {
    hide LevelFor, Kids;
    WiderKeys(s.cohorts, LevelFor(s, c), NewCohort(LevelFor(s, c)));
  }

  lemma PlacedWithoutLowest(s: Levels, c: Cid, max: nat) returns (m: nat)
    requires LevelFor(s, c) !in s.cohorts && |s.cohorts| >= max
    ensures WithoutLowest(s, Placed(s, c, max), c, LevelFor(s, c), m)
  {
    hide LevelFor, Kids;
    var level := LevelFor(s, c);
    var wide := s.cohorts[level := NewCohort(level)];
    WiderKeys(s.cohorts, level, NewCohort(level));
    m := Lowest(wide);
    assert IsLowest(wide, m);
    assert (wide - {m}).Keys == wide.Keys - {m};
    assert wide[m].blockInfo.Keys == if m in s.cohorts then s.cohorts[m].blockInfo.Keys else {};
  }

  // ---------------------------------------------------------------- ancestors over a run

  /** The last block of the run that links to `k`. */
  function LastLinker(cs: seq<Cid>, k: Cid): Cid {
    if cs == [] then Undef
    else if k in Kids(cs[|cs| - 1]) then cs[|cs| - 1]
    else LastLinker(cs[..|cs| - 1], k)
  }

  lemma {:induction false} LinkerLinks(cs: seq<Cid>, k: Cid)
    requires forall i :: 0 <= i < |cs| ==> cs[i].Of?
    ensures LastLinker(cs, k) != Undef ==> LastLinker(cs, k) in cs && k in Kids(LastLinker(cs, k))
    ensures LastLinker(cs, k) == Undef <==> forall i :: 0 <= i < |cs| ==> k !in Kids(cs[i])
  {
    hide Kids;
    if cs != [] {
      LinkerLinks(cs[..|cs| - 1], k);
    }
  }

  /** Every record is of a put block, in the cohort of its height, and names the last put block that links to it. */
  ghost predicate RecordsNameLinkers(s: Levels, cs: seq<Cid>) {
    forall l, x :: l in s.cohorts && x in s.cohorts[l].blockInfo ==>
      x in cs && l == Rank(x) && s.cohorts[l].blockInfo[x] == BlockInfo(l, LastLinker(cs, x))
  }

  ghost predicate NoRepeats(cs: seq<Cid>) {
    forall i, j :: 0 <= i < j < |cs| ==> cs[i] != cs[j]
  }

  /** Children first and each once, below the level limit: the runs for which the store is made. */
  ghost predicate Orderly(cs: seq<Cid>, max: nat) {
    && KidsFirst(cs) && NoRepeats(cs)
    && forall i :: 0 <= i < |cs| ==> cs[i].Of? && Rank(cs[i]) < max
  }

  lemma OrderlyFront(cs: seq<Cid>, max: nat)
    requires Orderly(cs, max) && cs != []
    ensures Orderly(cs[..|cs| - 1], max)
  {
    hide Kids, Rank;
    var front := cs[..|cs| - 1];
    forall i | 0 <= i < |front| ensures KidsIn(front[i], front[..i]) {
      assert KidsIn(cs[i], cs[..i]) && front[..i] == cs[..i];
    }
  }

  lemma NotLinkedYet(cs: seq<Cid>, max: nat)
    requires Orderly(cs, max) && cs != []
    ensures cs[|cs| - 1] !in cs[..|cs| - 1] && LastLinker(cs, cs[|cs| - 1]) == Undef
  {
    hide Rank;
    var c, front := cs[|cs| - 1], cs[..|cs| - 1];
    LinkerLinks(front, c);
    NotItsOwnKid(c);
    forall i | 0 <= i < |front| ensures c !in Kids(front[i]) {
      if c in Kids(cs[i]) {
        assert KidsIn(cs[i], cs[..i]);
      }
    }
  }

  lemma LeveledRun(cs: seq<Cid>, max: nat)
    requires Orderly(cs, max) && max > 0
    ensures Leveled(PutAll(NO_LEVELS, cs, max), Members(cs))
  {
    hide Rank, Leveled, PutAll, Members;
    HeightLimitExactly(cs, max);
  }

  lemma KnownLevel(s: Levels, cs: seq<Cid>, x: Cid)
    requires Leveled(s, Members(cs))
    ensures x in s.levelMap <==> x in cs
    ensures x in cs ==> s.levelMap[x] == Rank(x) && Rank(x) in s.cohorts && x in s.cohorts[Rank(x)].blockInfo
  {
    hide Rank;
    if x in cs {
      var i :| 0 <= i < |cs| && cs[i] == x;
      assert x in Members(cs) && KnownAt(s, x);
    }
    if x in s.levelMap {
      assert x in Members(cs);
    }
  }

  /** One more Put of an orderly run keeps the records right. */
  lemma RecordsStep(cs: seq<Cid>, max: nat, s: Levels, r: Levels)
    requires Orderly(cs, max) && cs != []
    requires var c := cs[|cs| - 1]; r == PutNext(s, c, max) && r.currentLevel == Rank(c)
    requires Leveled(r, Members(cs)) && Leveled(s, Members(cs[..|cs| - 1]))
    requires RecordsNameLinkers(s, cs[..|cs| - 1])
    ensures RecordsNameLinkers(r, cs)
  {
    hide PutNext, Rank, Kids, LevelFor, Leveled, Orderly;
    var c, front := cs[|cs| - 1], cs[..|cs| - 1];
    NotLinkedYet(cs, max);
    IsOf(cs, max);
    forall l, x | l in r.cohorts && x in r.cohorts[l].blockInfo
      ensures x in cs && l == Rank(x) && r.cohorts[l].blockInfo[x] == BlockInfo(l, LastLinker(cs, x)) {
      PutLaw(s, c, max, l);
      KnownLevel(r, cs, x);
      InFront(cs, x);
      RecordHere(s, r, cs, l, x);
    }
  }

  lemma IsOf(cs: seq<Cid>, max: nat)
    requires Orderly(cs, max) && cs != []
    ensures cs[|cs| - 1].Of?
  {
  }

  lemma InFront(cs: seq<Cid>, x: Cid)
    requires cs != []
    ensures x in cs <==> x == cs[|cs| - 1] || x in cs[..|cs| - 1]
  {
    assert cs == cs[..|cs| - 1] + [cs[|cs| - 1]];
  }

  lemma RecordHere(s: Levels, r: Levels, cs: seq<Cid>, l: nat, x: Cid)
    requires cs != [] && l in r.cohorts && x in r.cohorts[l].blockInfo
    requires var c := cs[|cs| - 1];
             && PutAt(CohortBefore(s, l), r.cohorts[l], r.levelMap, c, Rank(c), l)
             && LastLinker(cs, c) == Undef && c !in cs[..|cs| - 1]
    requires RecordsNameLinkers(s, cs[..|cs| - 1])
    requires x in r.levelMap <==> x in cs
    requires x in cs ==> r.levelMap[x] == Rank(x)
    requires x in cs <==> x == cs[|cs| - 1] || x in cs[..|cs| - 1]
    ensures x in cs && l == Rank(x) && r.cohorts[l].blockInfo[x] == BlockInfo(l, LastLinker(cs, x))
  {
    hide Rank, Kids;
    var c, front := cs[|cs| - 1], cs[..|cs| - 1];
    if Taken(r.levelMap, Kids(c), l, x) {
    } else if x == c && l == Rank(c) {
    } else {
      assert SameRecord(CohortBefore(s, l), r.cohorts[l], x);
      assert l in s.cohorts && x in s.cohorts[l].blockInfo;
    }
  }

  lemma NoRecords(max: nat)
    ensures RecordsNameLinkers(PutAll(NO_LEVELS, [], max), [])
  {
  }

  /** Over an orderly run every record names the last block that links to the recorded one. */
  lemma {:induction false} RecordsExactly(cs: seq<Cid>, max: nat)
    requires Orderly(cs, max) && max > 0
    ensures RecordsNameLinkers(PutAll(NO_LEVELS, cs, max), cs)
  {
    if cs == [] {
      NoRecords(max);
    } else {
      var front := cs[..|cs| - 1];
      OrderlyFront(cs, max);
      RecordsExactly(front, max);
      LeveledRun(front, max);
      LeveledRun(cs, max);
      hide Rank, Kids, Leveled, PutNext, Orderly, RecordsNameLinkers, LevelFor;
      LevelOfLast(cs, max);
      RecordsStep(cs, max, PutAll(NO_LEVELS, front, max), PutAll(NO_LEVELS, cs, max));
    }
  }

  lemma LevelOfLast(cs: seq<Cid>, max: nat)
    requires Orderly(cs, max) && cs != [] && max > 0
    ensures PutAll(NO_LEVELS, cs, max).currentLevel == Rank(cs[|cs| - 1])
  {
    hide Rank, PutAll, AllPutRight, Leveled, Members, Ranks;
    KidsFirstPutRight(cs);
    HeightsFit(cs, max);
    assert cs[..|cs|] == cs;
    RightIsLeveled(cs, |cs|, max);
  }

  lemma RecordedParent(s: Levels, cs: seq<Cid>, x: Cid, parent: Cid)
    requires RecordsNameLinkers(s, cs) && Recordings(s.cohorts, x, parent)
    ensures x in cs && parent == LastLinker(cs, x)
  {
    var l :| l in s.cohorts && x in s.cohorts[l].blockInfo && s.cohorts[l].blockInfo[x].parent == parent;
  }

  lemma PutIsTracked(cs: seq<Cid>, max: nat, x: Cid)
    requires Orderly(cs, max) && max > 0 && x in cs
    ensures Tracked(PutAll(NO_LEVELS, cs, max).cohorts, x)
  {
    LeveledRun(cs, max);
    hide PutAll, Rank, Leveled;
    KnownLevel(PutAll(NO_LEVELS, cs, max), cs, x);
  }

  lemma UnputIsUnlinked(cs: seq<Cid>, max: nat, x: Cid)
    requires Orderly(cs, max) && x !in cs
    ensures LastLinker(cs, x) == Undef
  {
    hide Rank;
    LinkerLinks(cs, x);
    forall i | 0 <= i < |cs| ensures x !in Kids(cs[i]) {
      assert KidsIn(cs[i], cs[..i]);
    }
  }

  /**
    Whatever satisfies the contract of GetAncestors after an orderly run: each element is the last put block that links to
    the one before, and the list ends only at a block that no put block links to.
    */
  lemma AncestorsExactly(cs: seq<Cid>, max: nat, start: Cid, ancestors: seq<Cid>)
    requires Orderly(cs, max) && max > 0
    requires var cohorts := PutAll(NO_LEVELS, cs, max).cohorts;
             && IsChain(cohorts, start, ancestors)
             && (!Tracked(cohorts, ChainEnd(start, ancestors)) || Recordings(cohorts, ChainEnd(start, ancestors), Undef))
    ensures forall i :: 0 <= i < |ancestors| ==>
              ancestors[i] == LastLinker(cs, ChainAt(start, ancestors, i)) && ancestors[i] in cs
              && ChainAt(start, ancestors, i) in Kids(ancestors[i])
    ensures forall i :: 0 <= i < |cs| ==> ChainEnd(start, ancestors) !in Kids(cs[i])
  {
    RecordsExactly(cs, max);
    OrderlyDefined(cs, max);
    hide PutAll, Rank, Kids, Recordings, Tracked, RecordsNameLinkers, Orderly, LastLinker;
    var s := PutAll(NO_LEVELS, cs, max);
    forall i | 0 <= i < |ancestors|
      ensures ancestors[i] == LastLinker(cs, ChainAt(start, ancestors, i)) && ancestors[i] in cs
        && ChainAt(start, ancestors, i) in Kids(ancestors[i]) {
      RecordedParent(s, cs, ChainAt(start, ancestors, i), ancestors[i]);
      LinkerLinks(cs, ChainAt(start, ancestors, i));
    }
    var last := ChainEnd(start, ancestors);
    LinkerLinks(cs, last);
    if last in cs {
      PutIsTracked(cs, max, last);
      RecordedParent(s, cs, last, Undef);
    } else {
      UnputIsUnlinked(cs, max, last);
    }
  }

  lemma OrderlyDefined(cs: seq<Cid>, max: nat)
    requires Orderly(cs, max)
    ensures forall i :: 0 <= i < |cs| ==> cs[i].Of?
  {
  }

  /** In particular a block that some put block links to has ancestors. */
  lemma LinkedHasAncestors(cs: seq<Cid>, max: nat, start: Cid, ancestors: seq<Cid>, i: nat)
    requires Orderly(cs, max) && max > 0 && i < |cs| && start in Kids(cs[i])
    requires var cohorts := PutAll(NO_LEVELS, cs, max).cohorts;
             && IsChain(cohorts, start, ancestors)
             && (!Tracked(cohorts, ChainEnd(start, ancestors)) || Recordings(cohorts, ChainEnd(start, ancestors), Undef))
    ensures ancestors != [] && ancestors[0] in cs && start in Kids(ancestors[0])
  {
    hide PutAll, Rank, Kids, Recordings, Tracked, IsChain, Orderly;
    AncestorsExactly(cs, max, start, ancestors);
    assert ancestors == [] ==> ChainEnd(start, ancestors) == start;
    assert ChainAt(start, ancestors, 0) == start;
  }

  // ---------------------------------------------------------------- deletions

  /** The block is recorded, if anywhere, in the cohort of its level. */
  ghost predicate OnlyAtItsLevel(s: Levels, c: Cid) {
    forall l :: l in s.cohorts && (c in s.cohorts[l].blockInfo || c in s.cohorts[l].childrenOf) ==> c in s.levelMap && s.levelMap[c] == l
  }

  ghost predicate Forgotten(s: Levels, c: Cid) {
    c !in s.held && c !in s.levelMap && forall l :: l in s.cohorts ==> c !in s.cohorts[l].blockInfo && c !in s.cohorts[l].childrenOf
  }

  /** Every other block keeps its level, its records and its list of children. */
  ghost predicate OthersKept(s: Levels, r: Levels, c: Cid) {
    && r.currentLevel == s.currentLevel && r.cohorts.Keys == s.cohorts.Keys
    && forall x :: x != c ==>
         && (x in r.held <==> x in s.held)
         && (x in r.levelMap <==> x in s.levelMap) && (x in s.levelMap ==> r.levelMap[x] == s.levelMap[x])
         && forall l :: l in s.cohorts ==>
              && SameRecord(s.cohorts[l], r.cohorts[l], x)
              && (x in r.cohorts[l].childrenOf <==> x in s.cohorts[l].childrenOf)
              && (x in s.cohorts[l].childrenOf ==> r.cohorts[l].childrenOf[x] == s.cohorts[l].childrenOf[x])
  }

  /** One cohort after a deletion. */
  ghost predicate RemovedAt(before: Cohort, after: Cohort, c: Cid, gone: bool) {
    && after.count == before.count - (if gone then 1 else 0) && after.level == before.level
    && (gone ==> c !in after.blockInfo && c !in after.childrenOf)
    && forall x :: x != c || !gone ==>
         && SameRecord(before, after, x)
         && (x in after.childrenOf <==> x in before.childrenOf)
         && (x in before.childrenOf ==> after.childrenOf[x] == before.childrenOf[x])
  }

  lemma CohortAfterDelete(s: Levels, c: Cid, l: nat)
    requires l in s.cohorts
    ensures l in DeleteNext(s, c).cohorts
    ensures RemovedAt(s.cohorts[l], DeleteNext(s, c).cohorts[l], c, c in s.levelMap && s.levelMap[c] == l)
  {
  }

  lemma DeleteKeys(s: Levels, c: Cid)
    ensures DeleteNext(s, c).cohorts.Keys == s.cohorts.Keys && DeleteNext(s, c).held == s.held - {c}
    ensures DeleteNext(s, c).levelMap == s.levelMap - {c} && DeleteNext(s, c).currentLevel == s.currentLevel
    ensures DeleteNext(s, c).blockCount == s.blockCount - if c in s.levelMap then 1 else 0
  {
  }

  /** A deletion forgets a block that is recorded at its level alone, and touches nothing of any other block. */
  lemma DeleteLaw(s: Levels, c: Cid)
    ensures OthersKept(s, DeleteNext(s, c), c)
    ensures OnlyAtItsLevel(s, c) ==> Forgotten(DeleteNext(s, c), c)
    ensures DeleteNext(s, c).blockCount == s.blockCount - if c in s.levelMap then 1 else 0
  {
    DeleteKeys(s, c);
    hide DeleteNext;
    var r := DeleteNext(s, c);
    forall l | l in s.cohorts ensures RemovedAt(s.cohorts[l], r.cohorts[l], c, c in s.levelMap && s.levelMap[c] == l) {
      CohortAfterDelete(s, c, l);
    }
  }

  /** The blocks put and not deleted since. */
  function Live(ops: seq<Op>): set<Cid> {
    if ops == [] then {}
    else match ops[|ops| - 1]
      case Put(c) => Live(ops[..|ops| - 1]) + {c}
      case Delete(c) => Live(ops[..|ops| - 1]) - {c}
  }

  /** No block is put while it is there. */
  ghost predicate NoReputs(ops: seq<Op>) {
    forall i :: 0 <= i < |ops| && ops[i].Put? ==> ops[i].c.Of? && ops[i].c !in Live(ops[..i])
  }

  /** Only live blocks have levels, and only a block with a level is recorded, at that level. */
  ghost predicate Tidy(s: Levels, live: set<Cid>) {
    s.held == live && s.levelMap.Keys <= live && forall c :: OnlyAtItsLevel(s, c)
  }

  /** The state in which a block has just been given a level. */
  function WithLevel(s: Levels, c: Cid, level: nat): Levels {
    s.(currentLevel := level, levelMap := s.levelMap[c := level])
  }

  function WithCohort(s: Levels, level: nat): Levels {
    s.(cohorts := s.cohorts[level := NewCohort(level)])
  }

  lemma WithLevelTidy(s: Levels, c: Cid, level: nat)
    requires (forall x :: OnlyAtItsLevel(s, x)) && c !in s.levelMap
    ensures forall x :: OnlyAtItsLevel(WithLevel(s, c, level), x)
  {
    forall x ensures OnlyAtItsLevel(WithLevel(s, c, level), x) {
      assert OnlyAtItsLevel(s, x);
    }
  }

  lemma WithCohortTidy(s: Levels, level: nat)
    requires (forall x :: OnlyAtItsLevel(s, x)) && level !in s.cohorts
    ensures forall x :: OnlyAtItsLevel(WithCohort(s, level), x)
  {
    forall x ensures OnlyAtItsLevel(WithCohort(s, level), x) {
      assert OnlyAtItsLevel(s, x);
    }
  }

  lemma PlacedTidy(s: Levels, live: set<Cid>, c: Cid, max: nat)
    requires Tidy(s, live) && c !in live
    ensures var p := Placed(s, c, max); p.levelMap.Keys <= live + {c} && forall x :: OnlyAtItsLevel(p, x)
    ensures var p := Placed(s, c, max); p.currentLevel in p.cohorts ==> c in p.levelMap && p.levelMap[c] == p.currentLevel
  {
    hide LevelFor, Kids, OnlyAtItsLevel, Rotated;
    var level := LevelFor(s, c);
    var leveled := WithLevel(s, c, level);
    WithLevelTidy(s, c, level);
    if level !in s.cohorts {
      WithCohortTidy(leveled, level);
      RotatedTidy(WithCohort(leveled, level), max);
      KeptWithCohort(WithCohort(leveled, level), c, max);
    }
  }

  /** A block of which no record is kept yet keeps its level through rotation. */
  lemma KeptWithCohort(s: Levels, c: Cid, max: nat)
    requires c in s.levelMap && OnlyAtItsLevel(s, c)
    ensures s.levelMap[c] in Rotated(s, max).cohorts ==> c in Rotated(s, max).levelMap && Rotated(s, max).levelMap[c] == s.levelMap[c]
    ensures Rotated(s, max).currentLevel == s.currentLevel
  {
  }

  lemma RotatedTidy(s: Levels, max: nat)
    requires forall x :: OnlyAtItsLevel(s, x)
    ensures Rotated(s, max).levelMap.Keys <= s.levelMap.Keys
    ensures forall x :: OnlyAtItsLevel(Rotated(s, max), x)
  {
    forall x ensures OnlyAtItsLevel(Rotated(s, max), x) {
      assert OnlyAtItsLevel(s, x);
    }
  }

  lemma PutTidy(s: Levels, live: set<Cid>, c: Cid, max: nat)
    requires Tidy(s, live) && c.Of? && c !in live
    ensures Tidy(PutNext(s, c, max), live + {c})
  {
    PlacedTidy(s, live, c, max);
    hide LevelFor, Kids, Placed, Adopt, OnlyAtItsLevel, Recorded;
    var p := Placed(s, c, max);
    PlacedCohorts(s, c, max, 0);
    forall x ensures OnlyAtItsLevel(PutNext(s, c, max), x) {
      RecordedTidy(p, c, x);
    }
  }

  lemma RecordedTidy(p: Levels, c: Cid, x: Cid)
    requires (forall y :: OnlyAtItsLevel(p, y)) && (p.currentLevel in p.cohorts ==> c in p.levelMap && p.levelMap[c] == p.currentLevel)
    ensures OnlyAtItsLevel(p.(held := p.held + {c}, blockCount := p.blockCount + 1,
                              cohorts := Adopt(Recorded(p.cohorts, p.currentLevel, c), p.levelMap, Kids(c), c)), x)
  {
    hide Kids, Adopt;
    var recorded := Recorded(p.cohorts, p.currentLevel, c);
    var after := Adopt(recorded, p.levelMap, Kids(c), c);
    AdoptKeys(recorded, p.levelMap, Kids(c), c);
    forall l | l in after && (x in after[l].blockInfo || x in after[l].childrenOf) ensures x in p.levelMap && p.levelMap[x] == l {
      AdoptAt(recorded, p.levelMap, Kids(c), c, l);
      assert OnlyAtItsLevel(p, x);
      if !Taken(p.levelMap, Kids(c), l, x) {
        assert SameRecord(recorded[l], after[l], x);
      }
    }
  }

  lemma DeleteTidy(s: Levels, live: set<Cid>, c: Cid)
    requires Tidy(s, live)
    ensures Tidy(DeleteNext(s, c), live - {c})
  {
    hide DeleteNext;
    DeleteLaw(s, c);
    assert OnlyAtItsLevel(s, c);
    var r := DeleteNext(s, c);
    forall x ensures OnlyAtItsLevel(r, x) {
      assert OnlyAtItsLevel(s, x);
    }
  }

  lemma StartsTidy()
    ensures Tidy(NO_LEVELS, {})
  {
  }

  /** In every run without re-puts exactly the live blocks are held, and no deleted block has a level or a record. */
  lemma {:induction false} RunIsTidy(ops: seq<Op>, max: nat)
    requires NoReputs(ops)
    ensures Tidy(After(ops, max), Live(ops))
  {
    if ops == [] {
      StartsTidy();
    } else {
      var n := |ops| - 1;
      FrontNoReputs(ops);
      RunIsTidy(ops[..n], max);
      hide Tidy, PutNext, DeleteNext;
      var s := After(ops[..n], max);
      match ops[n]
      case Put(c) => PutTidy(s, Live(ops[..n]), c, max);
      case Delete(c) => DeleteTidy(s, Live(ops[..n]), c);
    }
  }

  lemma FrontNoReputs(ops: seq<Op>)
    requires NoReputs(ops) && ops != []
    ensures NoReputs(ops[..|ops| - 1])
    ensures ops[|ops| - 1].Put? ==> ops[|ops| - 1].c.Of? && ops[|ops| - 1].c !in Live(ops[..|ops| - 1])
  {
    var front := ops[..|ops| - 1];
    forall i | 0 <= i < |front| && front[i].Put? ensures front[i].c.Of? && front[i].c !in Live(front[..i]) {
      assert front[..i] == ops[..i] && ops[i].Put?;
    }
  }

  /** So a deleted block that was not put again is forgotten. */
  lemma DeletedIsForgotten(ops: seq<Op>, max: nat, c: Cid)
    requires NoReputs(ops) && c !in Live(ops)
    ensures Forgotten(After(ops, max), c)
  {
    RunIsTidy(ops, max);
    assert OnlyAtItsLevel(After(ops, max), c);
  }

  /** As long as every block still has its level when it is deleted, the block count is the number of blocks held. */
  ghost predicate KnownDeletes(ops: seq<Op>, max: nat) {
    forall i :: 0 <= i < |ops| && ops[i].Delete? ==>
      (ops[i].c in After(ops[..i], max).levelMap <==> ops[i].c in Live(ops[..i]))
  }

  lemma {:induction false} CountIsHeld(ops: seq<Op>, max: nat)
    requires NoReputs(ops) && KnownDeletes(ops, max)
    ensures After(ops, max).blockCount == |Live(ops)|
  {
    if ops != [] {
      var n := |ops| - 1;
      FrontNoReputs(ops);
      forall i | 0 <= i < n && ops[..n][i].Delete?
        ensures ops[..n][i].c in After(ops[..n][..i], max).levelMap <==> ops[..n][i].c in Live(ops[..n][..i]) {
        assert ops[..n][..i] == ops[..i];
      }
      CountIsHeld(ops[..n], max);
      CountStep(ops, max);
    }
  }

  lemma CountStep(ops: seq<Op>, max: nat)
    requires ops != [] && NoReputs(ops) && KnownDeletes(ops, max)
    requires After(ops[..|ops| - 1], max).blockCount == |Live(ops[..|ops| - 1])|
    ensures After(ops, max).blockCount == |Live(ops)|
  {
    var n := |ops| - 1;
    FrontNoReputs(ops);
    hide PutNext, DeleteNext;
    var s, live := After(ops[..n], max), Live(ops[..n]);
    match ops[n]
    case Put(c) =>
      PutLaw(s, c, max, 0);
      assert |live + {c}| == |live| + 1;
    case Delete(c) =>
      DeleteLaw(s, c);
      assert c in s.levelMap <==> c in live;
      if c !in live {
        assert live - {c} == live;
      }
  }

  /** Every cohort carries the level it is kept under. */
  ghost predicate LevelsMatch(s: Levels) {
    forall l :: l in s.cohorts ==> s.cohorts[l].level == l
  }

  lemma PutLevelsMatch(s: Levels, c: Cid, max: nat)
    requires LevelsMatch(s) && c.Of?
    ensures LevelsMatch(PutNext(s, c, max))
  {
    hide PutNext, LevelFor, Kids;
    forall l | l in PutNext(s, c, max).cohorts ensures PutNext(s, c, max).cohorts[l].level == l {
      PutLaw(s, c, max, l);
    }
  }

  lemma DeleteLevelsMatch(s: Levels, c: Cid)
    requires LevelsMatch(s)
    ensures LevelsMatch(DeleteNext(s, c))
  {
    DeleteKeys(s, c);
    hide DeleteNext;
    forall l | l in s.cohorts ensures DeleteNext(s, c).cohorts[l].level == l {
      CohortAfterDelete(s, c, l);
    }
  }

  lemma {:induction false} CohortsKnowTheirLevel(ops: seq<Op>, max: nat)
    requires forall i :: 0 <= i < |ops| ==> ops[i].c.Of?
    ensures LevelsMatch(After(ops, max))
  {
    if ops != [] {
      var n := |ops| - 1;
      CohortsKnowTheirLevel(ops[..n], max);
      hide PutNext, DeleteNext, LevelsMatch;
      match ops[n]
      case Put(c) => PutLevelsMatch(After(ops[..n], max), c, max);
      case Delete(c) => DeleteLevelsMatch(After(ops[..n], max), c);
    }
  }
}
