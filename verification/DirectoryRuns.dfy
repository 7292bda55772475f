/**
 Any number of refreshes of a Full-mode directory at the same time: they wait for the server between their pages, so the
 pages of one are interleaved with those of the others. A lookup changes the directory only by the refreshes in front of it.
 */
module DirectoryRuns {
  import opened Wrappers
  import opened Directory
  import opened DirectoryLaws

  type Task = nat

  /** What a refresh in progress has collected. */
  datatype Refresh =
    | OfFriends(groups: map<nat, string>, acc: map<Uin, Friend>)
    | OfMembers(group: Uin, ms: seq<Member>)

  datatype System = System(dir: Dir, running: map<Task, Refresh>)

  /** A refresh starts, takes one page in, or ends without a result, on a failed request or because its caller gave up. */
  datatype Step =
    | StartFriends(t: Task)
    | StartMembers(t: Task, group: Uin)
    | TakeFriendPage(t: Task, friends: FriendPage, last: bool)
    | TakeMemberPage(t: Task, members: seq<Member>, last: bool)
    | Stop(t: Task)

  predicate Enabled(s: System, a: Step) {
    match a
    case StartFriends(t) => t !in s.running
    case StartMembers(t, _) => t !in s.running
    case TakeFriendPage(t, _, _) => t in s.running && s.running[t].OfFriends?
    case TakeMemberPage(t, _, _) => t in s.running && s.running[t].OfMembers?
    case Stop(t) => t in s.running
  }

  function Apply(s: System, a: Step): (s': System)
    requires Enabled(s, a) && s.dir.Valid()
    ensures s'.dir.Valid() && s'.dir.mode == s.dir.mode
  {
    match a
    case StartFriends(t) => s.(running := s.running[t := OfFriends(map[], map[])])
    case StartMembers(t, group) => s.(running := s.running[t := OfMembers(group, [])])
    case TakeFriendPage(t, page, last) => FriendPageTaken(s, t, page, last)
    case TakeMemberPage(t, page, last) =>
      var OfMembers(group, ms) := s.running[t];
      if last then MembersDone(s, t, group, ms + page) else s.(running := s.running[t := OfMembers(group, ms + page)])
    case Stop(t) => s.(running := s.running - {t})
  }

  /** One page of a friend refresh; a friend without a group stops it. */
  function FriendPageTaken(s: System, t: Task, page: FriendPage, last: bool): (s': System)
    requires t in s.running && s.running[t].OfFriends? && s.dir.Valid()
    ensures s'.dir.Valid() && s'.dir.mode == s.dir.mode
  {
    var OfFriends(groups, acc) := s.running[t];
    var groups' := groups + page.groups;
    TakeFriendsKeeps(s.dir, page.friends, groups', acc);
    var (d', r) := TakeFriends(s.dir, page.friends, groups', acc);
    if !r.Ok? then System(d', s.running - {t})
    else if last then System(d'.(friends := if d'.friends.Some? then Some(r.value) else None), s.running - {t})
    else System(d', s.running[t := OfFriends(groups', r.value)])
  }

  /** A group refresh indexes its members and puts them in the cache once it has all the pages. */
  function MembersDone(s: System, t: Task, group: Uin, ms: seq<Member>): (s': System)
    requires s.dir.Valid()
    ensures s'.dir.Valid() && s'.dir.mode == s.dir.mode
  {
    InsertAllKeeps(s.dir, ms);
    var d' := if s.dir.mode == Full then InsertAll(s.dir, ms) else s.dir;
    System(if d'.members.Some? then d'.(members := Some(d'.members.value[group := ms])) else d', s.running - {t})
  }

  predicate IsRun(run: seq<Step>)
    decreases |run|, 0
  {
    run == [] || (IsRun(run[..|run| - 1]) && Enabled(After(run[..|run| - 1]), run[|run| - 1]))
  }

  function After(run: seq<Step>): (s: System)
    requires IsRun(run)
    ensures s.dir.Valid() && s.dir.mode == Full
    decreases |run|, 1
  {
    if run == [] then System(New(Full), map[]) else Apply(After(run[..|run| - 1]), run[|run| - 1])
  }

  // ----- the invariant

  ghost predicate KnowsStep(b: Book, a: Step) {
    match a
    case TakeFriendPage(_, page, _) => forall f :: f in page.friends ==> Knows(b, f.uin, f.uid)
    case TakeMemberPage(_, page, _) => forall m :: m in page ==> Knows(b, m.uin, m.uid)
    case _ => true
  }

  /** What a refresh has collected is indexed, or at least in the book. */
  ghost predicate Collected(d: Dir, b: Book, r: Refresh) {
    match r
    case OfFriends(_, acc) => CoversFriends(d, acc)
    case OfMembers(_, ms) => forall m :: m in ms ==> Knows(b, m.uin, m.uid)
  }

  ghost predicate SystemInv(s: System, b: Book) {
    Inv(s.dir, b) && forall t :: t in s.running ==> Collected(s.dir, b, s.running[t])
  }

  lemma CollectedExtends(d: Dir, d': Dir, b: Book, r: Refresh)
    requires Collected(d, b, r) && Extends(d, d')
    ensures Collected(d', b, r)
  {
  }

  lemma InvExtends(d: Dir, d': Dir, b: Book)
    requires Inv(d, b) && Indexed(d', b) && Extends(d, d') && d'.friends == d.friends && d'.members == d.members
    ensures Inv(d', b)
  {
    hide Indexed;
    IndexedIsFull(d, b);
    forall g | g in d'.members.value
      ensures CoversMembers(d', d'.members.value[g])
    {
      assert CoversMembers(d, d.members.value[g]);
    }
  }

  lemma FriendPageKeepsInv(s: System, b: Book, t: Task, page: FriendPage, last: bool)
    requires OneToOne(b) && SystemInv(s, b) && t in s.running && s.running[t].OfFriends? && s.dir.Valid()
    requires forall f :: f in page.friends ==> Knows(b, f.uin, f.uid)
    ensures SystemInv(FriendPageTaken(s, t, page, last), b)
  {
    hide Indexed, Inv, Extends, TakeFriends, CoversFriends, CoversMembers;
    InvIsIndexed(s.dir, b);
    var OfFriends(groups, acc) := s.running[t];
    assert Collected(s.dir, b, s.running[t]);
    var groups' := groups + page.groups;
    TakeFriendsIndexed(s.dir, b, page.friends, groups', acc);
    TakeFriendsKeeps(s.dir, page.friends, groups', acc);
    var (d', r) := TakeFriends(s.dir, page.friends, groups', acc);
    InvExtends(s.dir, d', b);
    forall u | u in s.running
      ensures Collected(d', b, s.running[u])
    {
      CollectedExtends(s.dir, d', b, s.running[u]);
    }
    if r.Ok? && last {
      var d'' := d'.(friends := if d'.friends.Some? then Some(r.value) else None);
      FriendsReplaced(d', d'', b, r.value);
      forall u | u in s.running
        ensures Collected(d'', b, s.running[u])
      {
        IndexSame(d', d'');
        CollectedExtends(d', d'', b, s.running[u]);
      }
    }
  }

  lemma InvIsIndexed(d: Dir, b: Book)
    requires Inv(d, b)
    ensures Indexed(d, b) && d.mode == Full
  {
  }

  lemma IndexSame(d: Dir, d': Dir)
    requires d'.uin2uid == d.uin2uid
    ensures Extends(d, d')
  {
  }

  lemma FriendsReplaced(d: Dir, d': Dir, b: Book, friends: map<Uin, Friend>)
    requires Inv(d, b) && CoversFriends(d, friends) && d.friends.Some? && d' == d.(friends := Some(friends))
    ensures Inv(d', b)
  {
    IndexedIgnoresLists(d, d', b);
    hide Indexed;
    IndexedIsFull(d, b);
    forall g | g in d'.members.value
      ensures CoversMembers(d', d'.members.value[g])
    {
      assert CoversMembers(d, d.members.value[g]);
    }
  }

  lemma MembersReplaced(d: Dir, d': Dir, b: Book, group: Uin, ms: seq<Member>)
    requires Inv(d, b) && CoversMembers(d, ms) && d.members.Some? && d' == d.(members := Some(d.members.value[group := ms]))
    ensures Inv(d', b)
  {
    IndexedIgnoresLists(d, d', b);
    hide Indexed;
    IndexedIsFull(d, b);
    forall g | g in d'.members.value
      ensures CoversMembers(d', d'.members.value[g])
    {
      assert g != group ==> CoversMembers(d, d.members.value[g]);
    }
  }

  lemma MembersDoneKeepsInv(s: System, b: Book, t: Task, group: Uin, ms: seq<Member>)
    requires OneToOne(b) && SystemInv(s, b) && s.dir.Valid() && forall m :: m in ms ==> Knows(b, m.uin, m.uid)
    ensures SystemInv(MembersDone(s, t, group, ms), b)
  {
    hide Indexed, Inv, Extends, InsertAll, CoversFriends, CoversMembers;
    InvIsIndexed(s.dir, b);
    InsertAllIndexed(s.dir, b, ms);
    InsertAllKeeps(s.dir, ms);
    var d' := InsertAll(s.dir, ms);
    InvExtends(s.dir, d', b);
    var d'' := MembersDone(s, t, group, ms).dir;
    MembersReplaced(d', d'', b, group, ms);
    IndexSame(d', d'');
    forall u | u in s.running
      ensures Collected(d'', b, s.running[u])
    {
      CollectedExtends(s.dir, d', b, s.running[u]);
      CollectedExtends(d', d'', b, s.running[u]);
    }
  }

  lemma StepKeepsInv(s: System, b: Book, a: Step)
    requires OneToOne(b) && SystemInv(s, b) && s.dir.Valid() && Enabled(s, a) && KnowsStep(b, a)
    ensures SystemInv(Apply(s, a), b)
  {
    hide Inv, OneToOne, FriendPageTaken, MembersDone;
    match a
    case TakeFriendPage(t, page, last) => FriendPageKeepsInv(s, b, t, page, last);
    case TakeMemberPage(t, page, last) =>
      var OfMembers(group, ms) := s.running[t];
      assert Collected(s.dir, b, s.running[t]);
      MembersDoneKeepsInv(s, b, t, group, ms + page);
    case _ =>
  }

  /**
   After any interleaving of refreshes, failed and abandoned ones included, the indexes are mutual inverses inside the
   book that cover every cached friend and member.
   */
  lemma {:induction false} IndexesAreInverse(run: seq<Step>, b: Book)
    requires OneToOne(b) && IsRun(run) && forall a :: a in run ==> KnowsStep(b, a)
    ensures SystemInv(After(run), b)
    decreases |run|
  {
    hide OneToOne, Inv, Apply, KnowsStep;
    if run == [] {
      NewInv(b);
    } else {
      var shorter, a := run[..|run| - 1], run[|run| - 1];
      assert forall c :: c in shorter ==> c in run;
      IndexesAreInverse(shorter, b);
      assert KnowsStep(b, a);
      StepKeepsInv(After(shorter), b, a);
    }
  }

  // ----- one refresh on its own

  /** The steps behind the start of a friend refresh that meets no other; a page that stops it is its last. */
  function FriendSteps(s: System, t: Task, pages: FriendPages): seq<Step>
    requires t in s.running && s.running[t].OfFriends? && s.dir.Valid()
    decreases pages
  {
    if pages.Failed? then [Stop(t)]
    else
      var a := TakeFriendPage(t, pages.page, pages.Last?);
      var s' := Apply(s, a);
      if pages.More? && t in s'.running then [a] + FriendSteps(s', t, pages.rest) else [a]
  }

  function Perform(s: System, steps: seq<Step>): Option<System>
    requires s.dir.Valid()
    decreases |steps|
  {
    if steps == [] then Some(s) else if !Enabled(s, steps[0]) then None else Perform(Apply(s, steps[0]), steps[1..])
  }

  lemma PerformFirst(s: System, a: Step, steps: seq<Step>)
    requires s.dir.Valid() && Enabled(s, a)
    ensures Perform(s, [a] + steps) == Perform(Apply(s, a), steps)
  {
    assert ([a] + steps)[1..] == steps;
  }

  /** Its steps add up to the refresh of the specification. */
  lemma {:induction false} FriendStepsAreRefresh(s: System, t: Task, pages: FriendPages)
    requires t in s.running && s.running[t].OfFriends? && s.dir.Valid() && s.dir.mode != NoCache
    ensures var (d', r) := TakePages(s.dir, pages, s.running[t].groups, s.running[t].acc);
            Perform(s, FriendSteps(s, t, pages))
            == Some(System(if r.Ok? then d'.(friends := Some(r.value)) else d', s.running - {t}))
    decreases pages
  {
    hide TakeFriends, Perform;
    var OfFriends(groups, acc) := s.running[t];
    if pages.Failed? {
      PerformOne(s, Stop(t));
    } else {
      var groups' := groups + pages.page.groups;
      TakeFriendsKeeps(s.dir, pages.page.friends, groups', acc);
      var a := TakeFriendPage(t, pages.page, pages.Last?);
      var s' := Apply(s, a);
      PerformOne(s, a);
      if pages.More? && t in s'.running {
        PerformFirst(s, a, FriendSteps(s', t, pages.rest));
        FriendStepsAreRefresh(s', t, pages.rest);
        assert s'.running - {t} == s.running - {t};
      }
    }
  }

  lemma PerformOne(s: System, a: Step)
    requires s.dir.Valid() && Enabled(s, a)
    ensures Perform(s, [a]) == Some(Apply(s, a))
  {
    PerformFirst(s, a, []);
    assert [a] + [] == [a];
  }

  /** A friend refresh whose pages meet no other refresh is the refresh that the lookups run. */
  lemma LoneRefresh(s: System, t: Task, pages: FriendPages)
    requires s.dir.Valid() && s.dir.mode == Full && t !in s.running
    ensures var started := Apply(s, StartFriends(t));
            Perform(s, [StartFriends(t)] + FriendSteps(started, t, pages)) == Some(s.(dir := RefreshFriends(s.dir, pages).0))
  {
    hide Perform, FriendSteps, TakePages;
    var started := Apply(s, StartFriends(t));
    PerformFirst(s, StartFriends(t), FriendSteps(started, t, pages));
    FriendStepsAreRefresh(started, t, pages);
    assert started.running - {t} == s.running;
    TakePagesKeeps(s.dir, pages, map[], map[]);
  }

  function MemberSteps(t: Task, pages: MemberPages): seq<Step> {
    match pages
    case Failed => [Stop(t)]
    case Last(page) => [TakeMemberPage(t, page, true)]
    case More(page, rest) => [TakeMemberPage(t, page, false)] + MemberSteps(t, rest)
  }

  lemma {:induction false} MemberStepsAreRefresh(s: System, t: Task, group: Uin, ms: seq<Member>, pages: MemberPages)
    requires s.dir.Valid() && s.dir.mode == Full && t in s.running && s.running[t] == OfMembers(group, ms)
    ensures Perform(s, MemberSteps(t, pages))
            == Some(if Collect(pages).Some? then MembersDone(s, t, group, ms + Collect(pages).value)
                    else s.(running := s.running - {t}))
    decreases pages
  {
    hide Perform, InsertAll;
    match pages
    case Failed => PerformOne(s, Stop(t));
    case Last(page) => PerformOne(s, TakeMemberPage(t, page, true));
    case More(page, rest) =>
      var a := TakeMemberPage(t, page, false);
      var s' := Apply(s, a);
      PerformFirst(s, a, MemberSteps(t, rest));
      MemberStepsAreRefresh(s', t, group, ms + page, rest);
      assert s'.running - {t} == s.running - {t};
      assert Collect(rest).Some? ==> ms + page + Collect(rest).value == ms + (page + Collect(rest).value);
  }

  /** The same of a group refresh. */
  lemma LoneMembersRefresh(s: System, t: Task, group: Uin, pages: MemberPages)
    requires s.dir.Valid() && s.dir.mode == Full && t !in s.running
    ensures Perform(s, [StartMembers(t, group)] + MemberSteps(t, pages))
            == Some(s.(dir := RefreshMembers(s.dir, group, pages).0))
  {
    hide Perform, MemberSteps, InsertAll, Collect;
    var started := Apply(s, StartMembers(t, group));
    PerformFirst(s, StartMembers(t, group), MemberSteps(t, pages));
    MemberStepsAreRefresh(started, t, group, [], pages);
    assert started.running - {t} == s.running;
    if Collect(pages).Some? {
      InsertAllKeeps(s.dir, Collect(pages).value);
      assert [] + Collect(pages).value == Collect(pages).value;
    }
  }
}
