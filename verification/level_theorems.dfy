/** What holds of the level-aware block store over whole runs. */
module LevelTheorems {
  import opened Dag
  import opened LevelSpec
  import opened LevelStores

  datatype Op = Put(c: Cid) | Delete(c: Cid)

  ghost function After(ops: seq<Op>, max: nat): Levels {
    if ops == [] then NO_LEVELS
    else
      var before := After(ops[..|ops| - 1], max);
      match ops[|ops| - 1]
      case Put(c) => PutNext(before, c, max)
      case Delete(c) => DeleteNext(before, c)
  }

  /** In every run, re-puts and deletions included, at most `max` cohorts exist and every record in them is truthful. */
  lemma {:induction false} EveryRunKeepsInv(ops: seq<Op>, max: nat)
    requires max > 0 && forall i :: 0 <= i < |ops| ==> ops[i].c.Of?
    ensures Inv(After(ops, max), max)
  {
    hide Inv;
    if ops == [] {
      StartsSound(max);
    } else {
      var front := ops[..|ops| - 1];
      EveryRunKeepsInv(front, max);
      var c := ops[|ops| - 1].c;
      PutKeepsInv(After(front, max), c, max);
      DeleteKeepsInv(After(front, max), c, max);
    }
  }

  lemma StartsSound(max: nat)
    ensures Inv(NO_LEVELS, max)
  {
  }

  // ---------------------------------------------------------------- levels are heights

  /** The height of a block in the DAG of defined links. */
  function Rank(c: Cid): nat {
    match c
    case Undef => 0
    case Of(node) => RankLinks(node.links)
  }

  function RankLinks(ls: seq<Link>): nat {
    if ls == [] then 0
    else if ls[0].cid == Undef then RankLinks(ls[1..])
    else Max(1 + Rank(ls[0].cid), RankLinks(ls[1..]))
  }

  lemma {:induction false} RankLinksIsHeight(ls: seq<Link>)
    requires Undef !in ReachLinks(ls)
    ensures RankLinks(ls) == HeightLinks(ls)
    decreases ls
  {
    if ls != [] {
      RankIsHeight(ls[0].cid);
      RankLinksIsHeight(ls[1..]);
    }
  }

  /** Without undefined links it is the height. */
  lemma {:induction false} RankIsHeight(c: Cid)
    requires Undef !in Reach(c)
    ensures Rank(c) == Height(c)
    decreases c
  {
    if c.Of? {
      RankLinksIsHeight(c.node.links);
    }
  }

  /** Every defined child is lower, and a block that is not a leaf is one above some child. */
  lemma {:induction false} RankOverKids(ls: seq<Link>) returns (highest: nat)
    ensures Defined(ls) == [] ==> RankLinks(ls) == 0
    ensures forall i :: 0 <= i < |Defined(ls)| ==> Rank(Defined(ls)[i]) < RankLinks(ls)
    ensures Defined(ls) != [] ==> highest < |Defined(ls)| && Rank(Defined(ls)[highest]) + 1 == RankLinks(ls)
  {
    highest := 0;
    if ls != [] {
      var rest := Defined(ls[1..]);
      highest := RankOverKids(ls[1..]);
      if ls[0].cid == Undef {
        assert Defined(ls) == rest;
      } else {
        assert Defined(ls) == [ls[0].cid] + rest;
        if rest == [] || Rank(rest[highest]) <= Rank(ls[0].cid) {
          highest := 0;
        } else {
          highest := highest + 1;
        }
      }
    }
  }

  lemma KidsAreLower(c: Cid)
    ensures forall k :: k in Kids(c) ==> Rank(k) < Rank(c)
  {
    var _ := RankOverKids(Links(c));
  }

  lemma HighestKid(c: Cid) returns (k: Cid)
    requires Kids(c) != []
    ensures k in Kids(c) && Rank(k) + 1 == Rank(c)
  {
    var i := RankOverKids(Links(c));
    k := Kids(c)[i];
  }

  lemma LeafRank(c: Cid)
    requires Kids(c) == []
    ensures Rank(c) == 0
  {
    var _ := RankOverKids(Links(c));
  }

  /** With known children at their heights, the highest known level is the height of the highest known child. */
  lemma {:induction false} HighestKnown(levelMap: map<Cid, nat>, kids: seq<Cid>) returns (highest: nat)
    requires forall k :: k in kids && k in levelMap ==> levelMap[k] == Rank(k)
    ensures KnownLevels(levelMap, kids) == [] <==> forall k :: k in kids ==> k !in levelMap
    ensures forall k :: k in kids && k in levelMap ==> Rank(k) <= MaxOf(KnownLevels(levelMap, kids))
    ensures KnownLevels(levelMap, kids) != [] ==>
      highest < |kids| && kids[highest] in levelMap && Rank(kids[highest]) == MaxOf(KnownLevels(levelMap, kids))
  {
    highest := 0;
    if kids != [] {
      assert kids == [kids[0]] + kids[1..];
      hide Rank;
      highest := HighestKnown(levelMap, kids[1..]);
      var rest := KnownLevels(levelMap, kids[1..]);
      if kids[0] in levelMap {
        var known := [Rank(kids[0])] + rest;
        assert known[1..] == rest && KnownLevels(levelMap, kids) == known;
        highest := if rest == [] || MaxOf(rest) <= Rank(kids[0]) then 0 else highest + 1;
      } else {
        assert KnownLevels(levelMap, kids) == rest;
        highest := highest + 1;
      }
    }
  }

  /** The block is known at its height, in the cohort of that height. */
  ghost predicate KnownAt(s: Levels, c: Cid) {
    && c in s.levelMap && s.levelMap[c] == Rank(c)
    && Rank(c) in s.cohorts && c in s.cohorts[Rank(c)].blockInfo && c in s.cohorts[Rank(c)].childrenOf
  }

  ghost predicate HasBlockAt(put: set<Cid>, level: nat) {
    exists c :: c in put && Rank(c) == level
  }

  /** Exactly the given blocks are known, each at its height; no other cohort exists. */
  ghost predicate Leveled(s: Levels, put: set<Cid>) {
    && s.levelMap.Keys == put
    && (forall c :: c in put ==> KnownAt(s, c))
    && forall l :: l in s.cohorts ==> HasBlockAt(put, l)
  }

  /** The three ways to be placed right: as a leaf, through a highest child that is known, or by luck when none is. */
  ghost predicate GuessedRight(c: Cid, put: set<Cid>, currentLevel: nat) {
    || Kids(c) == []
    || (exists k :: k in Kids(c) && k in put && Rank(k) + 1 == Rank(c))
    || ((forall k :: k in Kids(c) ==> k !in put) && currentLevel + 1 == Rank(c))
  }

  /** The level a Put computes is the block's height if and only if the block is placed in one of these ways. */
  lemma LevelIsHeightExactly(s: Levels, put: set<Cid>, c: Cid)
    requires Leveled(s, put)
    ensures LevelFor(s, c) == Rank(c) <==> GuessedRight(c, put, s.currentLevel)
  {
    var kids := Kids(c);
    KidsAreLower(c);
    if kids == [] {
      LeafRank(c);
    } else {
      forall k | k in kids && k in s.levelMap ensures s.levelMap[k] == Rank(k) {
        assert KnownAt(s, k);
      }
      var i := HighestKnown(s.levelMap, kids);
      hide Rank, Kids;
      if KnownLevels(s.levelMap, kids) != [] {
        assert kids[i] in kids && kids[i] in put;
      }
    }
  }

  // ---------------------------------------------------------------- one Put

  /** The block's level is right, and there is a cohort for it or room for one. */
  ghost predicate Admits(s: Levels, c: Cid, max: nat) {
    LevelFor(s, c) == Rank(c) && (Rank(c) in s.cohorts || |s.cohorts| < max)
  }

  /** The block's level is known, and the cohort of that level knows the block. */
  ghost predicate TrackedAt(cohorts: Cohorts, levelMap: map<Cid, nat>, c: Cid) {
    c in levelMap && levelMap[c] in cohorts && c in cohorts[levelMap[c]].blockInfo
  }

  ghost predicate SameMembers(before: Cohorts, after: Cohorts) {
    && after.Keys == before.Keys
    && forall l :: l in before ==> after[l].blockInfo.Keys == before[l].blockInfo.Keys && after[l].childrenOf == before[l].childrenOf
  }

  /** Adopting children changes no cohort's members, as long as each known child is in the cohort of its level. */
  lemma {:induction false} AdoptKeeps(cohorts: Cohorts, levelMap: map<Cid, nat>, kids: seq<Cid>, parent: Cid)
    requires forall i :: 0 <= i < |kids| && kids[i] in levelMap ==> TrackedAt(cohorts, levelMap, kids[i])
    ensures SameMembers(cohorts, Adopt(cohorts, levelMap, kids, parent))
    decreases kids
  {
    if kids != [] {
      var next := AdoptOne(cohorts, levelMap, kids[0], parent);
      assert kids[0] in levelMap ==> TrackedAt(cohorts, levelMap, kids[0]);
      assert SameMembers(cohorts, next);
      AdoptKeeps(next, levelMap, kids[1..], parent);
    }
  }

  lemma PlacedAdmitted(s: Levels, c: Cid, max: nat)
    requires Admits(s, c, max) && |s.cohorts| <= max
    ensures var p := Placed(s, c, max);
            && p.currentLevel == Rank(c) && p.levelMap == s.levelMap[c := Rank(c)]
            && p.cohorts == if Rank(c) in s.cohorts then s.cohorts else s.cohorts[Rank(c) := NewCohort(Rank(c))]
  {
    hide Rank, LevelFor;
    if Rank(c) !in s.cohorts {
      var wider := s.cohorts[Rank(c) := NewCohort(Rank(c))];
      assert wider.Keys == s.cohorts.Keys + {Rank(c)};
      assert |wider| == |s.cohorts| + 1;
    }
  }

  /** The cohorts after a Put, seen from outside: their levels, members and children lists. */
  lemma PutCohorts(s: Levels, put: set<Cid>, c: Cid, max: nat, l: nat)
    requires Leveled(s, put) && Admits(s, c, max) && |s.cohorts| <= max
    ensures var after := PutNext(s, c, max).cohorts;
            && (l in after <==> l in s.cohorts || l == Rank(c))
            && (l in s.cohorts ==> s.cohorts[l].blockInfo.Keys <= after[l].blockInfo.Keys)
            && (l in s.cohorts ==> s.cohorts[l].childrenOf.Keys <= after[l].childrenOf.Keys)
            && (l == Rank(c) ==> c in after[l].blockInfo && c in after[l].childrenOf)
    ensures PutNext(s, c, max).levelMap == s.levelMap[c := Rank(c)] && PutNext(s, c, max).currentLevel == Rank(c)
  {
    PlacedAdmitted(s, c, max);
    hide Placed, Rank, Admits;
    var p := Placed(s, c, max);
    var recorded := Recorded(p.cohorts, p.currentLevel, c);
    KidsRecorded(s, put, c, p.cohorts, p.levelMap, recorded);
    AdoptKeeps(recorded, p.levelMap, Kids(c), c);
  }

  lemma KidsRecorded(s: Levels, put: set<Cid>, c: Cid, placed: Cohorts, levelMap: map<Cid, nat>, recorded: Cohorts)
    requires Leveled(s, put)
    requires levelMap == s.levelMap[c := Rank(c)]
    requires placed == if Rank(c) in s.cohorts then s.cohorts else s.cohorts[Rank(c) := NewCohort(Rank(c))]
    requires recorded == Recorded(placed, Rank(c), c)
    ensures forall i :: 0 <= i < |Kids(c)| && Kids(c)[i] in levelMap ==> TrackedAt(recorded, levelMap, Kids(c)[i])
  {
    var kids := Kids(c);
    hide Rank, Kids;
    forall i | 0 <= i < |kids| && kids[i] in levelMap ensures TrackedAt(recorded, levelMap, kids[i]) {
      if kids[i] != c {
        assert KnownAt(s, kids[i]) && levelMap[kids[i]] == Rank(kids[i]);
      }
    }
  }

  lemma PutMember(s: Levels, put: set<Cid>, c: Cid, max: nat, x: Cid)
    requires Leveled(s, put) && Admits(s, c, max) && |s.cohorts| <= max && x in put + {c}
    ensures KnownAt(PutNext(s, c, max), x)
  {
    hide PutNext, Rank, Kids, Admits;
    PutCohorts(s, put, c, max, Rank(x));
  }

  lemma PutOrigin(s: Levels, put: set<Cid>, c: Cid, max: nat, l: nat)
    requires Leveled(s, put) && Admits(s, c, max) && |s.cohorts| <= max && l in PutNext(s, c, max).cohorts
    ensures HasBlockAt(put + {c}, l)
  {
    hide PutNext, Rank, Kids, Admits;
    PutCohorts(s, put, c, max, l);
    if l in s.cohorts {
      assert HasBlockAt(put, l);
      var x :| x in put && Rank(x) == l;
      assert x in put + {c};
    } else {
      assert c in put + {c} && Rank(c) == l;
    }
  }

  lemma AdmittedIsLeveled(s: Levels, put: set<Cid>, c: Cid, max: nat)
    requires Leveled(s, put) && Admits(s, c, max) && |s.cohorts| <= max
    ensures Leveled(PutNext(s, c, max), put + {c}) && PutNext(s, c, max).currentLevel == Rank(c)
  {
    hide Leveled, PutNext, Rank, Kids, KnownAt, HasBlockAt, Admits;
    PutCohorts(s, put, c, max, 0);
    LevelMapKeys(s, put);
    forall x | x in put + {c} ensures KnownAt(PutNext(s, c, max), x) {
      PutMember(s, put, c, max, x);
    }
    forall l | l in PutNext(s, c, max).cohorts ensures HasBlockAt(put + {c}, l) {
      PutOrigin(s, put, c, max, l);
    }
    IsLeveled(PutNext(s, c, max), put + {c});
  }

  lemma LevelMapKeys(s: Levels, put: set<Cid>)
    requires Leveled(s, put)
    ensures s.levelMap.Keys == put
  {
  }

  lemma IsLeveled(s: Levels, put: set<Cid>)
    requires s.levelMap.Keys == put && (forall c :: c in put ==> KnownAt(s, c)) && forall l :: l in s.cohorts ==> HasBlockAt(put, l)
    ensures Leveled(s, put)
  {
  }

  /** Adopting children makes and drops no cohort. */
  lemma {:induction false} AdoptKeys(cohorts: Cohorts, levelMap: map<Cid, nat>, kids: seq<Cid>, parent: Cid)
    ensures Adopt(cohorts, levelMap, kids, parent).Keys == cohorts.Keys
    decreases kids
  {
    if kids != [] {
      AdoptKeys(AdoptOne(cohorts, levelMap, kids[0], parent), levelMap, kids[1..], parent);
    }
  }

  lemma PutKeys(s: Levels, c: Cid, max: nat)
    ensures PutNext(s, c, max).cohorts.Keys == Placed(s, c, max).cohorts.Keys
    ensures PutNext(s, c, max).levelMap == Placed(s, c, max).levelMap
  {
    var p := Placed(s, c, max);
    AdoptKeys(Recorded(p.cohorts, p.currentLevel, c), p.levelMap, Kids(c), c);
  }

  lemma LeveledIsAdmitted(s: Levels, put: set<Cid>, c: Cid, max: nat)
    requires Leveled(s, put) && Leveled(PutNext(s, c, max), put + {c})
    ensures Admits(s, c, max)
  {
    PutKeys(s, c, max);
    PlacedLevel(s, c, max);
    KnownAfter(s, put, c, max);
    hide PutNext, Rank, Kids, LevelFor, Leveled, Placed;
    if Rank(c) !in s.cohorts && |s.cohorts| >= max {
      var m := PlacedRotates(s, c, max);
      NotRotated(s, put, c, max, m);
    }
  }

  lemma KnownAfter(s: Levels, put: set<Cid>, c: Cid, max: nat)
    requires Leveled(PutNext(s, c, max), put + {c})
    ensures c in PutNext(s, c, max).levelMap && PutNext(s, c, max).levelMap[c] == Rank(c)
  {
    hide PutNext, Rank;
    assert KnownAt(PutNext(s, c, max), c);
  }

  lemma PlacedLevel(s: Levels, c: Cid, max: nat)
    ensures c in Placed(s, c, max).levelMap ==> Placed(s, c, max).levelMap[c] == LevelFor(s, c)
  {
    hide LevelFor;
  }

  /** With every cohort taken, making one more drops the lowest. */
  lemma PlacedRotates(s: Levels, c: Cid, max: nat) returns (m: nat)
    requires LevelFor(s, c) !in s.cohorts && |s.cohorts| >= max
    ensures (m in s.cohorts || m == LevelFor(s, c)) && m !in Placed(s, c, max).cohorts
  {
    hide LevelFor;
    var wider := s.cohorts[LevelFor(s, c) := NewCohort(LevelFor(s, c))];
    assert wider.Keys == s.cohorts.Keys + {LevelFor(s, c)};
    assert |wider| == |s.cohorts| + 1;
    m := Lowest(wider);
  }

  /** A rotated cohort leaves some put block without its cohort. */
  lemma NotRotated(s: Levels, put: set<Cid>, c: Cid, max: nat, m: nat)
    requires Leveled(s, put) && Leveled(PutNext(s, c, max), put + {c})
    requires m in s.cohorts || m == Rank(c)
    ensures m in PutNext(s, c, max).cohorts
  {
    hide PutNext, Rank, Kids;
    if m in s.cohorts {
      assert HasBlockAt(put, m);
      var x :| x in put && Rank(x) == m;
      assert KnownAt(PutNext(s, c, max), x);
    } else {
      assert KnownAt(PutNext(s, c, max), c);
    }
  }

  // ---------------------------------------------------------------- whole runs of Puts

  ghost function Members(cs: seq<Cid>): set<Cid> {
    set i | 0 <= i < |cs| :: cs[i]
  }

  /** The heights that occur, each of which needs a cohort of its own. */
  ghost function Ranks(put: set<Cid>): set<nat> {
    set c | c in put :: Rank(c)
  }

  /** After each Put of the run, every block put so far is known at its height. */
  ghost predicate LeveledThroughout(cs: seq<Cid>, max: nat) {
    forall n :: 0 <= n <= |cs| ==> Leveled(PutAll(NO_LEVELS, cs[..n], max), Members(cs[..n]))
  }

  /** The i-th Put finds its block's height; the last computed level is the height of the block before. */
  ghost predicate PutRight(cs: seq<Cid>, i: nat)
    requires i < |cs|
  {
    GuessedRight(cs[i], Members(cs[..i]), if i == 0 then 0 else Rank(cs[i - 1]))
  }

  ghost predicate AllPutRight(cs: seq<Cid>) {
    forall i :: 0 <= i < |cs| ==> PutRight(cs, i)
  }

  lemma LeveledRanks(s: Levels, put: set<Cid>)
    requires Leveled(s, put)
    ensures s.cohorts.Keys == Ranks(put) && |s.cohorts| == |Ranks(put)|
  {
    hide Rank;
    forall l ensures l in s.cohorts <==> l in Ranks(put) {
      if l in s.cohorts {
        assert HasBlockAt(put, l);
      }
      if l in Ranks(put) {
        var c :| c in put && Rank(c) == l;
        assert KnownAt(s, c);
      }
    }
  }

  /** One more height fits if and only if the block's cohort exists or there is room for it. */
  lemma OneMoreRank(s: Levels, put: set<Cid>, c: Cid, max: nat)
    requires Leveled(s, put) && |s.cohorts| <= max
    ensures |Ranks(put + {c})| <= max <==> Rank(c) in s.cohorts || |s.cohorts| < max
  {
    LeveledRanks(s, put);
    RanksOfOneMore(put, c);
    hide Rank, Leveled, Ranks;
    SizeOfOneMore(Ranks(put), Rank(c));
  }

  lemma RanksOfOneMore(put: set<Cid>, c: Cid)
    ensures Ranks(put + {c}) == Ranks(put) + {Rank(c)}
  {
    hide Rank;
  }

  lemma SizeOfOneMore(a: set<nat>, x: nat)
    ensures |a + {x}| == |a| + if x in a then 0 else 1
  {
    if x in a {
      assert a + {x} == a;
    }
  }

  lemma FrontOf(cs: seq<Cid>, n: nat, max: nat)
    requires n < |cs|
    ensures PutAll(NO_LEVELS, cs[..n + 1], max) == PutNext(PutAll(NO_LEVELS, cs[..n], max), cs[n], max)
    ensures Members(cs[..n + 1]) == Members(cs[..n]) + {cs[n]}
  {
    hide PutNext;
    var longer := cs[..n + 1];
    assert longer != [] && longer[..n] == cs[..n] && longer[n] == cs[n];
    assert PutAll(NO_LEVELS, longer, max) == PutNext(PutAll(NO_LEVELS, longer[..|longer| - 1], max), longer[|longer| - 1], max);
    hide PutAll;
    MembersOfOneMore(longer);
  }

  lemma MembersOfOneMore(cs: seq<Cid>)
    requires cs != []
    ensures Members(cs) == Members(cs[..|cs| - 1]) + {cs[|cs| - 1]}
  {
    forall c | c in Members(cs) ensures c in Members(cs[..|cs| - 1]) + {cs[|cs| - 1]} {
      var i :| 0 <= i < |cs| && cs[i] == c;
      assert i < |cs| - 1 ==> cs[..|cs| - 1][i] == c;
    }
    forall c | c in Members(cs[..|cs| - 1]) ensures c in Members(cs) {
      var i :| 0 <= i < |cs| - 1 && cs[..|cs| - 1][i] == c;
      assert cs[i] == c;
    }
    assert cs[|cs| - 1] in Members(cs);
  }

  lemma NothingLeveled(cs: seq<Cid>, max: nat)
    ensures Leveled(PutAll(NO_LEVELS, cs[..0], max), Members(cs[..0])) && Ranks(Members(cs[..0])) == {}
    ensures LevelNow(PutAll(NO_LEVELS, cs[..0], max), cs, 0)
  {
  }

  lemma MoreRanks(cs: seq<Cid>, n: nat)
    requires n < |cs|
    ensures |Ranks(Members(cs[..n]))| <= |Ranks(Members(cs[..n + 1]))|
  {
    hide Rank;
    FrontOf(cs, n, 0);
    SubsetSize(Ranks(Members(cs[..n])), Ranks(Members(cs[..n + 1])));
  }

  lemma SubsetSize(a: set<nat>, b: set<nat>)
    requires a <= b
    ensures |a| <= |b|
  {
    assert b == a + (b - a);
  }

  ghost predicate LevelNow(s: Levels, cs: seq<Cid>, n: nat)
    requires n <= |cs|
  {
    s.currentLevel == if n == 0 then 0 else Rank(cs[n - 1])
  }

  /** Placed right throughout, with no more heights than cohorts: every prefix is leveled. */
  lemma {:induction false} RightIsLeveled(cs: seq<Cid>, n: nat, max: nat)
    requires AllPutRight(cs) && n <= |cs| && |Ranks(Members(cs[..n]))| <= max
    ensures var s := PutAll(NO_LEVELS, cs[..n], max); Leveled(s, Members(cs[..n])) && LevelNow(s, cs, n)
  {
    if n == 0 {
      NothingLeveled(cs, max);
    } else {
      MoreRanks(cs, n - 1);
      RightIsLeveled(cs, n - 1, max);
      FrontOf(cs, n - 1, max);
      assert PutRight(cs, n - 1);
      hide Rank, Leveled, PutNext, PutAll, Members, Ranks, GuessedRight;
      var s, put, c := PutAll(NO_LEVELS, cs[..n - 1], max), Members(cs[..n - 1]), cs[n - 1];
      LeveledRanks(s, put);
      LevelIsHeightExactly(s, put, c);
      OneMoreRank(s, put, c, max);
      AdmittedIsLeveled(s, put, c, max);
    }
  }

  /** Leveled throughout, every Put was placed right and every height has its cohort. */
  lemma {:induction false} LeveledIsRight(cs: seq<Cid>, n: nat, max: nat)
    requires LeveledThroughout(cs, max) && n <= |cs|
    ensures |Ranks(Members(cs[..n]))| <= max && LevelNow(PutAll(NO_LEVELS, cs[..n], max), cs, n)
    ensures forall i :: 0 <= i < n ==> PutRight(cs, i)
  {
    hide LeveledThroughout, Leveled, LevelNow, PutRight, Members, Ranks, PutAll;
    if n == 0 {
      NothingLeveled(cs, max);
    } else {
      LeveledAt(cs, n - 1, max);
      LeveledAt(cs, n, max);
      LeveledIsRight(cs, n - 1, max);
      RightStep(cs, n - 1, max);
    }
  }

  lemma LeveledAt(cs: seq<Cid>, n: nat, max: nat)
    requires LeveledThroughout(cs, max) && n <= |cs|
    ensures Leveled(PutAll(NO_LEVELS, cs[..n], max), Members(cs[..n]))
  {
    hide Leveled, PutAll, Members;
  }

  lemma RightStep(cs: seq<Cid>, n: nat, max: nat)
    requires n < |cs| && |Ranks(Members(cs[..n]))| <= max && LevelNow(PutAll(NO_LEVELS, cs[..n], max), cs, n)
    requires Leveled(PutAll(NO_LEVELS, cs[..n], max), Members(cs[..n]))
    requires Leveled(PutAll(NO_LEVELS, cs[..n + 1], max), Members(cs[..n + 1]))
    ensures PutRight(cs, n) && |Ranks(Members(cs[..n + 1]))| <= max
    ensures LevelNow(PutAll(NO_LEVELS, cs[..n + 1], max), cs, n + 1)
  {
    hide Rank, Leveled, PutNext, PutAll, Members, Ranks, GuessedRight, LevelFor;
    FrontOf(cs, n, max);
    var s, put, c := PutAll(NO_LEVELS, cs[..n], max), Members(cs[..n]), cs[n];
    LeveledRanks(s, put);
    LeveledIsAdmitted(s, put, c, max);
    LevelIsHeightExactly(s, put, c);
    OneMoreRank(s, put, c, max);
    AdmittedIsLeveled(s, put, c, max);
  }

  /**
    For every run of Puts: levels are heights throughout, and nothing is ever rotated out, if and only if
    every Put is placed right and no more heights occur than cohorts are allowed.
    */
  lemma LevelsAreHeightsExactly(cs: seq<Cid>, max: nat)
    ensures LeveledThroughout(cs, max) <==> AllPutRight(cs) && |Ranks(Members(cs))| <= max
  {
    assert cs[..|cs|] == cs;
    if LeveledThroughout(cs, max) {
      LeveledIsRight(cs, |cs|, max);
    }
    if AllPutRight(cs) && |Ranks(Members(cs))| <= max {
      forall n | 0 <= n <= |cs| ensures Leveled(PutAll(NO_LEVELS, cs[..n], max), Members(cs[..n])) {
        FewerRanks(cs, n);
        RightIsLeveled(cs, n, max);
      }
    }
  }

  lemma {:induction false} FewerRanks(cs: seq<Cid>, n: nat)
    requires n <= |cs|
    ensures |Ranks(Members(cs[..n]))| <= |Ranks(Members(cs))|
    decreases |cs| - n
  {
    if n == |cs| {
      assert cs[..n] == cs;
    } else {
      MoreRanks(cs, n);
      FewerRanks(cs, n + 1);
    }
  }

  // ---------------------------------------------------------------- children first

  /** Every block's children are put before it. */
  ghost predicate KidsFirst(cs: seq<Cid>) {
    forall i :: 0 <= i < |cs| ==> KidsIn(cs[i], cs[..i])
  }

  ghost predicate KidsIn(c: Cid, before: seq<Cid>) {
    forall k :: k in Kids(c) ==> k in before
  }

  lemma KidsFirstPutRight(cs: seq<Cid>)
    requires KidsFirst(cs)
    ensures AllPutRight(cs)
  {
    hide Rank, Kids;
    forall i | 0 <= i < |cs| ensures PutRight(cs, i) {
      assert KidsIn(cs[i], cs[..i]);
      if Kids(cs[i]) != [] {
        var k := HighestKid(cs[i]);
        assert k in cs[..i];
        assert k in Members(cs[..i]);
      }
    }
  }

  /** Children first, below a block of some height there is a block of every smaller height. */
  lemma {:induction false} EveryHeightOccurs(cs: seq<Cid>, i: nat, l: nat)
    requires KidsFirst(cs) && i < |cs| && l <= Rank(cs[i])
    ensures l in Ranks(Members(cs))
    decreases i
  {
    hide Rank, Kids;
    assert cs[i] in Members(cs);
    if l < Rank(cs[i]) {
      assert KidsIn(cs[i], cs[..i]);
      if Kids(cs[i]) == [] {
        LeafRank(cs[i]);
      } else {
        var k := HighestKid(cs[i]);
        var j :| 0 <= j < i && cs[j] == k;
        EveryHeightOccurs(cs, j, l);
      }
    }
  }

  lemma {:induction false} SmallNumbers(s: set<nat>, max: nat)
    requires forall n :: n in s ==> n < max
    ensures |s| <= max
    decreases max
  {
    if max == 0 {
      assert s == {};
    } else {
      SmallNumbers(s - {max - 1}, max - 1);
    }
  }

  lemma {:induction false} AllSmallNumbers(s: set<nat>, max: nat)
    requires forall n :: 0 <= n < max ==> n in s
    ensures |s| >= max
    decreases max
  {
    if max > 0 {
      AllSmallNumbers(s - {max - 1}, max - 1);
    }
  }

  lemma HeightsFit(cs: seq<Cid>, max: nat)
    requires KidsFirst(cs)
    ensures |Ranks(Members(cs))| <= max <==> forall i :: 0 <= i < |cs| ==> Rank(cs[i]) < max
  {
    hide Rank;
    if forall i :: 0 <= i < |cs| ==> Rank(cs[i]) < max {
      SmallNumbers(Ranks(Members(cs)), max);
    } else {
      var i: nat :| i < |cs| && Rank(cs[i]) >= max;
      forall n: nat | n < max + 1 ensures n in Ranks(Members(cs)) {
        EveryHeightOccurs(cs, i, n);
      }
      AllSmallNumbers(Ranks(Members(cs)), max + 1);
    }
  }

  /** Put children first, the run ends with every block at its height and nothing forgotten if and only if no block is `max` high. */
  lemma HeightLimitExactly(cs: seq<Cid>, max: nat)
    requires max > 0 && KidsFirst(cs) && forall i :: 0 <= i < |cs| ==> cs[i].Of?
    ensures Leveled(PutAll(NO_LEVELS, cs, max), Members(cs)) <==> forall i :: 0 <= i < |cs| ==> Rank(cs[i]) < max
  {
    hide Leveled, Rank, KidsFirst, AllPutRight;
    HeightsFit(cs, max);
    if forall i :: 0 <= i < |cs| ==> Rank(cs[i]) < max {
      KidsFirstPutRight(cs);
      assert cs[..|cs|] == cs;
      RightIsLeveled(cs, |cs|, max);
    }
    if Leveled(PutAll(NO_LEVELS, cs, max), Members(cs)) {
      LeveledRanks(PutAll(NO_LEVELS, cs, max), Members(cs));
      PutsKeepInv(cs, max);
    }
  }

  lemma {:induction false} PutsKeepInv(cs: seq<Cid>, max: nat)
    requires max > 0 && forall i :: 0 <= i < |cs| ==> cs[i].Of?
    ensures |PutAll(NO_LEVELS, cs, max).cohorts| <= max && Inv(PutAll(NO_LEVELS, cs, max), max)
  {
    if cs == [] {
      StartsSound(max);
    } else {
      PutsKeepInv(cs[..|cs| - 1], max);
      PutKeepsInv(PutAll(NO_LEVELS, cs[..|cs| - 1], max), cs[|cs| - 1], max);
    }
  }

  // ---------------------------------------------------------------- an example of a wrong guess

  function LeafBlock(): Cid {
    Of(FileNode([], [], 0))
  }

  function ParentOf(c: Cid): Cid {
    Of(Directory([Link("", c)]))
  }

  lemma ParentKids(c: Cid)
    requires c.Of?
    ensures Kids(ParentOf(c)) == [c] && Rank(ParentOf(c)) == 1 + Rank(c)
  {
    var ls := [Link("", c)];
    assert Links(ParentOf(c)) == ls && Defined(ls[1..]) == [] && Defined(ls) == [c];
    assert Rank(ParentOf(c)) == RankLinks(ls);
    assert ls[1..] == [] && RankLinks(ls) == Max(1 + Rank(ls[0].cid), RankLinks(ls[1..]));
  }

  /** Put first, a block two above the leaves is taken to be at level 1. */
  lemma ParentFirstIsMisplaced(max: nat)
    ensures var top := ParentOf(ParentOf(LeafBlock())); Rank(top) == 2 && !LeveledThroughout([top], max)
  {
    var top := ParentOf(ParentOf(LeafBlock()));
    ParentKids(LeafBlock());
    ParentKids(ParentOf(LeafBlock()));
    assert Rank(LeafBlock()) == 0;
    hide Rank, Kids, LeveledThroughout;
    LevelsAreHeightsExactly([top], max);
    assert Members([top][..0]) == {};
    assert !PutRight([top], 0);
  }
}
