/** blockstore/level_blockstore.go on values: what one Put and one DeleteBlock make of levels, cohorts and parents. */
module LevelSpec {
  import opened Dag

  datatype BlockInfo = BlockInfo(level: nat, parent: Cid)

  datatype Cohort = Cohort(blockInfo: map<Cid, BlockInfo>, childrenOf: map<Cid, seq<Cid>>, count: int, level: nat)

  type Cohorts = map<nat, Cohort>

  datatype Levels = Levels(held: set<Cid>, cohorts: Cohorts, levelMap: map<Cid, nat>, currentLevel: nat, blockCount: int)

  const NO_LEVELS := Levels({}, map[], map[], 0, 0)

  /** What extractLinks returns. */
  function Kids(c: Cid): seq<Cid> {
    Defined(Links(c))
  }

  function KnownLevels(levelMap: map<Cid, nat>, kids: seq<Cid>): seq<nat> {
    if kids == [] then []
    else if kids[0] in levelMap then [levelMap[kids[0]]] + KnownLevels(levelMap, kids[1..])
    else KnownLevels(levelMap, kids[1..])
  }

  /** slices.Max. */
  function MaxOf(s: seq<nat>): nat
    requires s != []
  {
    if |s| == 1 then s[0] else Max(s[0], MaxOf(s[1..]))
  }

  /** A leaf is at level 0, a parent one above its highest known child, and one above the last block when no child is known. */
  function LevelFor(s: Levels, c: Cid): nat {
    if Kids(c) == [] then 0
    else
      var known := KnownLevels(s.levelMap, Kids(c));
      1 + if known == [] then s.currentLevel else MaxOf(known)
  }

  ghost predicate IsLowest(cohorts: Cohorts, m: nat) {
    m in cohorts && forall k :: k in cohorts ==> m <= k
  }

  lemma {:induction false} LowestExists(cohorts: Cohorts, below: nat, k: nat)
    requires k in cohorts && forall j :: j in cohorts ==> below <= j
    ensures exists m :: IsLowest(cohorts, m)
    decreases k - below
  {
    if below in cohorts {
      assert IsLowest(cohorts, below);
    } else {
      LowestExists(cohorts, below + 1, k);
    }
  }

  ghost function Lowest(cohorts: Cohorts): (m: nat)
    requires |cohorts| > 0
    ensures IsLowest(cohorts, m)
  {
    var k :| k in cohorts;
    LowestExists(cohorts, 0, k);
    var m :| IsLowest(cohorts, m);
    m
  }

  /** With too many cohorts the lowest one goes, and the levels of the blocks it knows are forgotten. */
  ghost function Rotated(s: Levels, max: nat): Levels {
    if |s.cohorts| <= max then s
    else
      var m := Lowest(s.cohorts);
      s.(cohorts := s.cohorts - {m}, levelMap := s.levelMap - s.cohorts[m].blockInfo.Keys)
  }

  function NewCohort(level: nat): Cohort {
    Cohort(map[], map[], 0, level)
  }

  /** The block's own record, unless its cohort was just rotated out again. */
  function Recorded(cohorts: Cohorts, level: nat, c: Cid): Cohorts {
    if level !in cohorts then cohorts
    else
      var cohort := cohorts[level];
      cohorts[level := cohort.(blockInfo := cohort.blockInfo[c := BlockInfo(level, Undef)],
                               childrenOf := cohort.childrenOf[c := Kids(c)],
                               count := cohort.count + 1)]
  }

  function AdoptOne(cohorts: Cohorts, levelMap: map<Cid, nat>, kid: Cid, parent: Cid): Cohorts {
    if kid in levelMap && levelMap[kid] in cohorts then
      var cohort := cohorts[levelMap[kid]];
      cohorts[levelMap[kid] := cohort.(blockInfo := cohort.blockInfo[kid := BlockInfo(levelMap[kid], parent)])]
    else cohorts
  }

  /** Every child whose level is known gets its parent recorded. */
  function Adopt(cohorts: Cohorts, levelMap: map<Cid, nat>, kids: seq<Cid>, parent: Cid): Cohorts {
    if kids == [] then cohorts
    else Adopt(AdoptOne(cohorts, levelMap, kids[0], parent), levelMap, kids[1..], parent)
  }

  /** Put, up to and including rotation. */
  ghost function Placed(s: Levels, c: Cid, max: nat): Levels {
    var level := LevelFor(s, c);
    var s' := s.(currentLevel := level, levelMap := s.levelMap[c := level]);
    if level in s.cohorts then s' else Rotated(s'.(cohorts := s'.cohorts[level := NewCohort(level)]), max)
  }

  ghost function PutNext(s: Levels, c: Cid, max: nat): Levels {
    var p := Placed(s, c, max);
    p.(held := p.held + {c}, blockCount := p.blockCount + 1,
       cohorts := Adopt(Recorded(p.cohorts, p.currentLevel, c), p.levelMap, Kids(c), c))
  }

  function Removed(cohorts: Cohorts, level: nat, c: Cid): Cohorts {
    if level !in cohorts then cohorts
    else
      var cohort := cohorts[level];
      cohorts[level := cohort.(blockInfo := cohort.blockInfo - {c}, childrenOf := cohort.childrenOf - {c}, count := cohort.count - 1)]
  }

  function DeleteNext(s: Levels, c: Cid): Levels {
    if c in s.levelMap then
      s.(held := s.held - {c}, levelMap := s.levelMap - {c}, blockCount := s.blockCount - 1,
         cohorts := Removed(s.cohorts, s.levelMap[c], c))
    else s.(held := s.held - {c})
  }

  // ---------------------------------------------------------------- what every state keeps

  /** A recorded parent links to the block, and recorded children are the block's links. */
  ghost predicate CohortSound(cohort: Cohort) {
    && (forall c :: c in cohort.blockInfo ==> c.Of?)
    && (forall c :: c in cohort.blockInfo && cohort.blockInfo[c].parent != Undef ==> c in Kids(cohort.blockInfo[c].parent))
    && (forall c :: c in cohort.childrenOf ==> cohort.childrenOf[c] == Kids(c))
  }

  ghost predicate Sound(cohorts: Cohorts) {
    forall l :: l in cohorts ==> CohortSound(cohorts[l])
  }

  /** The invariant of the store: truthful records in at most `max` cohorts. */
  ghost predicate Inv(s: Levels, max: nat) {
    Sound(s.cohorts) && |s.cohorts| <= max
  }

  lemma {:induction false} DefinedLinks(ls: seq<Link>, i: nat)
    requires i < |Defined(ls)|
    ensures Defined(ls)[i].Of? && exists k :: 0 <= k < |ls| && ls[k].cid == Defined(ls)[i]
  {
    if ls[0].cid == Undef {
      DefinedLinks(ls[1..], i);
      var k :| 0 <= k < |ls[1..]| && ls[1..][k].cid == Defined(ls[1..])[i];
      assert ls[k + 1].cid == Defined(ls)[i];
    } else if i > 0 {
      DefinedLinks(ls[1..], i - 1);
      var k :| 0 <= k < |ls[1..]| && ls[1..][k].cid == Defined(ls[1..])[i - 1];
      assert ls[k + 1].cid == Defined(ls)[i];
    }
  }

  lemma KidIsDefined(c: Cid, kid: Cid)
    requires kid in Kids(c)
    ensures c.Of? && kid.Of? && Height(kid) < Height(c)
  {
    var i :| 0 <= i < |Kids(c)| && Kids(c)[i] == kid;
    DefinedLinks(Links(c), i);
    var k :| 0 <= k < |Links(c)| && Links(c)[k].cid == kid;
    LinkIsLower(Links(c), k);
  }

  lemma RecordedSound(cohorts: Cohorts, level: nat, c: Cid)
    requires Sound(cohorts) && c.Of?
    ensures Sound(Recorded(cohorts, level, c)) && Recorded(cohorts, level, c).Keys == cohorts.Keys
  {
  }

  lemma {:induction false} AdoptSound(cohorts: Cohorts, levelMap: map<Cid, nat>, kids: seq<Cid>, parent: Cid)
    requires Sound(cohorts) && parent.Of? && forall i :: 0 <= i < |kids| ==> kids[i] in Kids(parent)
    ensures Sound(Adopt(cohorts, levelMap, kids, parent)) && Adopt(cohorts, levelMap, kids, parent).Keys == cohorts.Keys
    decreases kids
  {
    if kids != [] {
      KidIsDefined(parent, kids[0]);
      AdoptOneSound(cohorts, levelMap, kids[0], parent);
      AdoptSound(AdoptOne(cohorts, levelMap, kids[0], parent), levelMap, kids[1..], parent);
    }
  }

  lemma AdoptOneSound(cohorts: Cohorts, levelMap: map<Cid, nat>, kid: Cid, parent: Cid)
    requires Sound(cohorts) && parent.Of? && kid in Kids(parent) && kid.Of?
    ensures Sound(AdoptOne(cohorts, levelMap, kid, parent)) && AdoptOne(cohorts, levelMap, kid, parent).Keys == cohorts.Keys
  {
    hide Kids;
  }

  lemma PlacedInv(s: Levels, c: Cid, max: nat)
    requires Inv(s, max) && max > 0
    ensures Inv(Placed(s, c, max), max)
  {
    hide Kids, LevelFor, Sound;
    var level := LevelFor(s, c);
    if level !in s.cohorts {
      WiderSound(s.cohorts, level);
      if |s.cohorts[level := NewCohort(level)]| > max {
        NarrowerSound(s.cohorts[level := NewCohort(level)], Lowest(s.cohorts[level := NewCohort(level)]));
      }
    }
  }

  lemma WiderSound(cohorts: Cohorts, level: nat)
    requires Sound(cohorts) && level !in cohorts
    ensures Sound(cohorts[level := NewCohort(level)]) && |cohorts[level := NewCohort(level)]| == |cohorts| + 1
  {
    hide Kids;
    assert cohorts[level := NewCohort(level)].Keys == cohorts.Keys + {level};
  }

  lemma NarrowerSound(cohorts: Cohorts, m: nat)
    requires Sound(cohorts) && m in cohorts
    ensures Sound(cohorts - {m}) && |cohorts - {m}| == |cohorts| - 1
  {
    assert (cohorts - {m}).Keys == cohorts.Keys - {m};
  }

  lemma PutKeepsInv(s: Levels, c: Cid, max: nat)
    requires Inv(s, max) && max > 0 && c.Of?
    ensures Inv(PutNext(s, c, max), max)
  {
    PlacedInv(s, c, max);
    hide Placed, Kids, Recorded, Adopt, Sound;
    var p := Placed(s, c, max);
    RecordedSound(p.cohorts, p.currentLevel, c);
    AdoptSound(Recorded(p.cohorts, p.currentLevel, c), p.levelMap, Kids(c), c);
    assert Adopt(Recorded(p.cohorts, p.currentLevel, c), p.levelMap, Kids(c), c).Keys == p.cohorts.Keys;
  }

  lemma DeleteKeepsInv(s: Levels, c: Cid, max: nat)
    requires Inv(s, max)
    ensures Inv(DeleteNext(s, c), max)
  {
    hide Kids;
    if c in s.levelMap {
      assert Removed(s.cohorts, s.levelMap[c], c).Keys == s.cohorts.Keys;
    }
  }
}
