/** blockstore/level_blockstore.go: the level-aware block store, updated in place. */
module LevelStores {
  import opened Base
  import opened Dag
  import opened Bfs
  import opened LevelSpec

  const DEFAULT_MAX_LEVELS := 10

  /** One parent step: some cohort records `parent` for `c`. */
  ghost predicate Recordings(cohorts: Cohorts, c: Cid, parent: Cid) {
    exists l :: l in cohorts && c in cohorts[l].blockInfo && cohorts[l].blockInfo[c].parent == parent
  }

  ghost predicate Tracked(cohorts: Cohorts, c: Cid) {
    exists l :: l in cohorts && c in cohorts[l].blockInfo
  }

  /** The element an ancestor list is extended from. */
  function ChainEnd(start: Cid, r: seq<Cid>): Cid {
    if r == [] then start else r[|r| - 1]
  }

  function ChainAt(start: Cid, r: seq<Cid>, i: nat): Cid
    requires i <= |r|
  {
    if i == 0 then start else r[i - 1]
  }

  /** Each element was recorded as the parent of the one before, and links to it. */
  ghost predicate IsChain(cohorts: Cohorts, start: Cid, r: seq<Cid>) {
    forall i :: 0 <= i < |r| ==>
      r[i].Of? && ChainAt(start, r, i) in Kids(r[i]) && Recordings(cohorts, ChainAt(start, r, i), r[i])
  }

  lemma ExtendChain(cohorts: Cohorts, start: Cid, r: seq<Cid>, parent: Cid)
    requires IsChain(cohorts, start, r) && parent.Of?
    requires ChainEnd(start, r) in Kids(parent) && Recordings(cohorts, ChainEnd(start, r), parent)
    ensures IsChain(cohorts, start, r + [parent])
  {
    hide Kids, Recordings;
    var r' := r + [parent];
    forall i | 0 <= i < |r'|
      ensures r'[i].Of? && ChainAt(start, r', i) in Kids(r'[i]) && Recordings(cohorts, ChainAt(start, r', i), r'[i]) {
      if i < |r| {
        assert ChainAt(start, r', i) == ChainAt(start, r, i);
      } else {
        assert ChainAt(start, r', i) == ChainEnd(start, r);
      }
    }
  }

  /** Along a chain the DAG height strictly grows. */
  lemma {:induction false} ChainRises(cohorts: Cohorts, start: Cid, r: seq<Cid>, i: nat, j: nat)
    requires IsChain(cohorts, start, r) && i < j <= |r|
    ensures Height(ChainAt(start, r, i)) < Height(ChainAt(start, r, j))
    decreases j
  {
    hide Kids, Recordings, Height;
    assert ChainAt(start, r, j - 1) in Kids(r[j - 1]);
    KidIsDefined(r[j - 1], ChainAt(start, r, j - 1));
    if i < j - 1 {
      ChainRises(cohorts, start, r, i, j - 1);
    }
  }

  /** So no block occurs twice in it, and the queried block does not occur at all. */
  lemma ChainHasNoRepeats(cohorts: Cohorts, start: Cid, r: seq<Cid>)
    requires IsChain(cohorts, start, r)
    ensures NoDuplicates(r) && forall i :: 0 <= i < |r| ==> r[i] != start
  {
    forall i, j | 0 <= i < j <= |r| ensures ChainAt(start, r, i) != ChainAt(start, r, j) {
      ChainRises(cohorts, start, r, i, j);
    }
    forall i, j | 0 <= i < j < |r| ensures r[i] != r[j] {
      assert ChainAt(start, r, i + 1) != ChainAt(start, r, j + 1);
    }
    forall i | 0 <= i < |r| ensures r[i] != start {
      assert ChainAt(start, r, 0) != ChainAt(start, r, i + 1);
    }
  }

  /** Every parent any cohort records. */
  ghost function Parents(cohorts: Cohorts): set<Cid> {
    set l, c | l in cohorts && c in cohorts[l].blockInfo :: cohorts[l].blockInfo[c].parent
  }

  /** The parents a chain may still go to. */
  ghost function Above(cohorts: Cohorts, c: Cid): set<Cid> {
    set p | p in Parents(cohorts) && Height(p) > Height(c)
  }

  lemma AboveShrinks(cohorts: Cohorts, c: Cid, parent: Cid)
    requires Recordings(cohorts, c, parent) && c in Kids(parent)
    ensures |Above(cohorts, parent)| < |Above(cohorts, c)|
  {
    KidIsDefined(parent, c);
    assert parent in Above(cohorts, c) && parent !in Above(cohorts, parent);
    SubsetSize(Above(cohorts, parent), Above(cohorts, c) - {parent});
  }

  class LevelBlockStore {
    var inner: set<Cid>
    var cohorts: Cohorts
    var levelMap: map<Cid, nat>
    var currentLevel: nat
    var blockCount: int
    const maxLevels: nat

    ghost function State(): Levels
      reads this
    {
      Levels(inner, cohorts, levelMap, currentLevel, blockCount)
    }

    ghost predicate Valid()
      reads this
    {
      maxLevels > 0 && Inv(State(), maxLevels)
    }

    constructor (maxLevels: int)
      ensures Valid() && State() == NO_LEVELS
      ensures this.maxLevels == if maxLevels <= 0 then DEFAULT_MAX_LEVELS else maxLevels
    {
      this.maxLevels := if maxLevels <= 0 then DEFAULT_MAX_LEVELS else maxLevels;
      inner, cohorts, levelMap, currentLevel, blockCount := {}, map[], map[], 0, 0;
    }

    /** extractLinks. */
    static method ExtractLinks(c: Cid) returns (links: seq<Cid>)
      ensures links == Kids(c)
    {
      links := [];
      var all := Links(c);
      assert all[0..] == all;
      for i := 0 to |all|
        invariant links + Defined(all[i..]) == Kids(c)
      {
        assert all[i..][0] == all[i] && all[i..][1..] == all[i + 1..];
        ghost var before := links;
        if all[i].cid != Undef {
          links := links + [all[i].cid];
          assert before + Defined(all[i..]) == links + Defined(all[i + 1..]);
        }
      }
    }

    method ChildLevels(links: seq<Cid>) returns (levels: seq<nat>)
      ensures levels == KnownLevels(levelMap, links)
    {
      levels := [];
      assert links[0..] == links;
      for i := 0 to |links|
        invariant levels + KnownLevels(levelMap, links[i..]) == KnownLevels(levelMap, links)
      {
        assert links[i..][0] == links[i] && links[i..][1..] == links[i + 1..];
        ghost var before := levels;
        if links[i] in levelMap {
          levels := levels + [levelMap[links[i]]];
          assert before + KnownLevels(levelMap, links[i..]) == levels + KnownLevels(levelMap, links[i + 1..]);
        }
      }
    }

    /** The lowest level that has a cohort, whatever order the map iterates in. */
    method MinLevel() returns (m: nat)
      requires |cohorts| > 0
      ensures m == Lowest(cohorts)
    {
      var first :| first in cohorts;
      m := first;
      var todo := cohorts.Keys;
      while todo != {}
        invariant todo <= cohorts.Keys && m in cohorts && forall l :: l in cohorts && l !in todo ==> m <= l
      {
        var l :| l in todo;
        if l < m {
          m := l;
        }
        todo := todo - {l};
      }
      assert IsLowest(cohorts, m);
    }

    method RotateCohortsIfNecessary()
      requires maxLevels > 0
      modifies `cohorts, `levelMap
      ensures State() == Rotated(old(State()), maxLevels)
    {
      if |cohorts| <= maxLevels {
        return;
      }
      var m := MinLevel();
      levelMap := levelMap - cohorts[m].blockInfo.Keys;
      cohorts := cohorts - {m};
    }

    /** The first half of Put: the block's level, and a cohort for it. */
    method Place(c: Cid, links: seq<Cid>) returns (level: nat)
      requires maxLevels > 0 && links == Kids(c)
      modifies `cohorts, `levelMap, `currentLevel
      ensures State() == Placed(old(State()), c, maxLevels) && level == currentLevel
    {
      if |links| == 0 {
        level := 0;
      } else {
        var known := ChildLevels(links);
        level := 1 + if |known| == 0 then currentLevel else MaxOf(known);
      }
      assert level == LevelFor(old(State()), c);
      currentLevel := level;
      levelMap := levelMap[c := level];
      if level !in cohorts {
        cohorts := cohorts[level := NewCohort(level)];
        RotateCohortsIfNecessary();
      }
    }

    /** Puts a block. A cohort made for it may be rotated out at once; what is then recorded in it is lost. */
    method Put(c: Cid)
      requires Valid() && c.Of?
      modifies this
      ensures Valid() && State() == PutNext(old(State()), c, maxLevels)
    {
      hide Placed, Inv, Kids;
      ghost var before := State();
      PutKeepsInv(before, c, maxLevels);
      var links := ExtractLinks(c);
      var level := Place(c, links);
      ghost var placed := State();
      inner := inner + {c};
      blockCount := blockCount + 1;
      if level in cohorts {
        var cohort := cohorts[level];
        cohorts := cohorts[level := cohort.(blockInfo := cohort.blockInfo[c := BlockInfo(level, Undef)],
                                            childrenOf := cohort.childrenOf[c := links],
                                            count := cohort.count + 1)];
      }
      assert links[0..] == links;
      for i := 0 to |links|
        invariant inner == placed.held + {c} && levelMap == placed.levelMap
        invariant currentLevel == placed.currentLevel && blockCount == placed.blockCount + 1
        invariant Adopt(cohorts, levelMap, links[i..], c) == Adopt(Recorded(placed.cohorts, level, c), levelMap, links, c)
      {
        assert links[i..][0] == links[i] && links[i..][1..] == links[i + 1..];
        if links[i] in levelMap && levelMap[links[i]] in cohorts {
          var childLevel := levelMap[links[i]];
          var childCohort := cohorts[childLevel];
          cohorts := cohorts[childLevel :=
            childCohort.(blockInfo := childCohort.blockInfo[links[i] := BlockInfo(childLevel, c)])];
        }
      }
    }

    method GetLevel(c: Cid) returns (level: int)
      ensures level == if c in levelMap then levelMap[c] else -1
    {
      level := if c in levelMap then levelMap[c] else -1;
    }

    method Has(c: Cid) returns (found: bool)
      ensures found <==> c in inner
    {
      found := c in inner;
    }

    /** The children some cohort records. Whichever cohort is asked first, they are the block's own links. */
    method GetChildren(c: Cid) returns (children: seq<Cid>)
      requires Valid()
      ensures children == if exists l :: l in cohorts && c in cohorts[l].childrenOf then Kids(c) else []
    {
      hide Kids;
      var todo := cohorts.Keys;
      while todo != {}
        invariant todo <= cohorts.Keys && forall l :: l in cohorts && l !in todo ==> c !in cohorts[l].childrenOf
      {
        var l :| l in todo;
        if c in cohorts[l].childrenOf {
          assert CohortSound(cohorts[l]);
          return cohorts[l].childrenOf[c];
        }
        todo := todo - {l};
      }
      return [];
    }

    /** Some cohort's record of a block, whichever the map yields first. */
    method FindInfo(c: Cid) returns (r: Option<BlockInfo>)
      ensures r.None? <==> !Tracked(cohorts, c)
      ensures r.Some? ==> exists l :: l in cohorts && c in cohorts[l].blockInfo && cohorts[l].blockInfo[c] == r.value
    {
      var todo := cohorts.Keys;
      while todo != {}
        invariant todo <= cohorts.Keys && forall l :: l in cohorts && l !in todo ==> c !in cohorts[l].blockInfo
      {
        var l :| l in todo;
        if c in cohorts[l].blockInfo {
          return Some(cohorts[l].blockInfo[c]);
        }
        todo := todo - {l};
      }
      return None;
    }

    /** Walks up the recorded parents until there is none. */
    method GetAncestors(start: Cid) returns (ancestors: seq<Cid>)
      requires Valid()
      ensures IsChain(cohorts, start, ancestors)
      ensures NoDuplicates(ancestors) && start !in ancestors
      ensures var last := ChainEnd(start, ancestors); !Tracked(cohorts, last) || Recordings(cohorts, last, Undef)
    {
      hide Kids, Above, Recordings, Tracked, IsChain;
      ancestors := [];
      EmptyChain(cohorts, start);
      UndefUntracked(cohorts);
      ghost var last := start;
      var current := start;
      while true
        invariant IsChain(cohorts, start, ancestors) && last == ChainEnd(start, ancestors)
        invariant current == last || (current == Undef && Recordings(cohorts, last, Undef))
        decreases if current.Of? then 1 else 0, |Above(cohorts, current)|
      {
        var info := FindInfo(current);
        if info.None? {
          break;
        }
        var parent := info.value.parent;
        InfoRecorded(cohorts, current, info.value);
        if parent != current && parent != Undef {
          ExtendChain(cohorts, start, ancestors, parent);
          AboveShrinks(cohorts, current, parent);
          ancestors := ancestors + [parent];
          last := parent;
        }
        if parent == current {
          break;
        }
        current := parent;
      }
      ChainHasNoRepeats(cohorts, start, ancestors);
    }

    method PutMany(cs: seq<Cid>)
      requires Valid() && forall i :: 0 <= i < |cs| ==> cs[i].Of?
      modifies this
      ensures Valid() && State() == PutAll(old(State()), cs, maxLevels)
    {
      assert cs[..0] == [];
      for i := 0 to |cs|
        invariant Valid() && State() == PutAll(old(State()), cs[..i], maxLevels)
      {
        assert cs[..i + 1][..i] == cs[..i];
        Put(cs[i]);
      }
      assert cs[..|cs|] == cs;
    }

    method DeleteBlock(c: Cid)
      requires Valid()
      modifies this
      ensures Valid() && State() == DeleteNext(old(State()), c)
    {
      hide Kids, Inv;
      DeleteKeepsInv(State(), c, maxLevels);
      inner := inner - {c};
      if c in levelMap {
        var level := levelMap[c];
        levelMap := levelMap - {c};
        if level in cohorts {
          var cohort := cohorts[level];
          cohorts := cohorts[level := cohort.(blockInfo := cohort.blockInfo - {c}, childrenOf := cohort.childrenOf - {c},
                                              count := cohort.count - 1)];
        }
        blockCount := blockCount - 1;
      }
    }
  }

  ghost function PutAll(s: Levels, cs: seq<Cid>, max: nat): Levels {
    if cs == [] then s else PutNext(PutAll(s, cs[..|cs| - 1], max), cs[|cs| - 1], max)
  }

  lemma EmptyChain(cohorts: Cohorts, start: Cid)
    ensures IsChain(cohorts, start, [])
  {
  }

  lemma InfoRecorded(cohorts: Cohorts, c: Cid, info: BlockInfo)
    requires Sound(cohorts)
    requires exists l :: l in cohorts && c in cohorts[l].blockInfo && cohorts[l].blockInfo[c] == info
    ensures Recordings(cohorts, c, info.parent) && c.Of? && info.parent != c && (info.parent != Undef ==> c in Kids(info.parent))
  {
    if info.parent != Undef {
      KidIsDefined(info.parent, c);
    }
  }

  /** The undefined identifier has no record, so the walk ends right after meeting it. */
  lemma UndefUntracked(cohorts: Cohorts)
    requires Sound(cohorts)
    ensures !Tracked(cohorts, Undef)
  {
  }
}
