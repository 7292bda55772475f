/** Laws of Full mode: the two indexes stay mutual inverses, and when a lookup agrees with the direct search. */
module DirectoryLaws {
  import opened Wrappers
  import opened Directory
  import opened DirectoryModes

  // ----- Full mode: the two indexes are mutual inverses

  /** The account book of the server: every account number has one identifier, and no two share it. */
  type Book = map<Uin, Uid>

  ghost predicate OneToOne(b: Book) {
    forall x, y | x in b && y in b :: b[x] == b[y] ==> x == y
  }

  predicate Knows(b: Book, uin: Uin, uid: Uid) {
    uin in b && b[uin] == uid
  }

  predicate KnowsFriends(b: Book, pages: FriendPages) {
    pages.Failed?
    || ((forall f :: f in pages.page.friends ==> Knows(b, f.uin, f.uid)) && (pages.More? ==> KnowsFriends(b, pages.rest)))
  }

  predicate KnowsMembers(b: Book, pages: MemberPages) {
    pages.Failed?
    || ((forall m :: m in pages.page ==> Knows(b, m.uin, m.uid)) && (pages.More? ==> KnowsMembers(b, pages.rest)))
  }

  ghost predicate Indexed(d: Dir, b: Book) {
    && d.Valid() && d.mode == Full
    && (forall x :: x in d.uin2uid.value ==> Knows(b, x, d.uin2uid.value[x]))
    && (forall x :: x in d.uin2uid.value ==> d.uin2uid.value[x] in d.uid2uin.value && d.uid2uin.value[d.uin2uid.value[x]] == x)
    && (forall y :: y in d.uid2uin.value ==> d.uid2uin.value[y] in d.uin2uid.value && d.uin2uid.value[d.uid2uin.value[y]] == y)
  }

  predicate HasPair(d: Dir, uin: Uin, uid: Uid) {
    d.uin2uid.Some? && uin in d.uin2uid.value && d.uin2uid.value[uin] == uid
  }

  /** Nothing that was indexed is lost. */
  ghost predicate Extends(d: Dir, d': Dir) {
    forall x, y :: HasPair(d, x, y) ==> HasPair(d', x, y)
  }

  ghost predicate CoversFriends(d: Dir, friends: map<Uin, Friend>) {
    forall x :: x in friends ==> friends[x].uin == x && HasPair(d, x, friends[x].uid)
  }

  ghost predicate CoversMembers(d: Dir, ms: seq<Member>) {
    forall m :: m in ms ==> HasPair(d, m.uin, m.uid)
  }

  /** The indexes are mutual inverses inside the book, and cover every cached friend and member. */
  ghost predicate Inv(d: Dir, b: Book) {
    && Indexed(d, b)
    && CoversFriends(d, d.friends.value)
    && forall g :: g in d.members.value ==> CoversMembers(d, d.members.value[g])
  }

  lemma InsertIndexed(d: Dir, b: Book, uin: Uin, uid: Uid)
    requires OneToOne(b) && Indexed(d, b) && Knows(b, uin, uid)
    ensures Indexed(Insert(d, uin, uid), b) && Extends(d, Insert(d, uin, uid)) && HasPair(Insert(d, uin, uid), uin, uid)
  {
    var u, v := d.uin2uid.value, d.uid2uin.value;
    assert uin in u ==> u[uin] == uid;
    assert uid in v ==> v[uid] == uin;
  }

  lemma {:induction false} TakeFriendsIndexed(d: Dir, b: Book, fs: seq<Friend>, groups: map<nat, string>, acc: map<Uin, Friend>)
    requires OneToOne(b) && Indexed(d, b) && CoversFriends(d, acc)
    requires forall f :: f in fs ==> Knows(b, f.uin, f.uid)
    ensures var (d', r) := TakeFriends(d, fs, groups, acc);
            Indexed(d', b) && Extends(d, d') && (r.Ok? ==> CoversFriends(d', r.value))
    decreases |fs|
  {
    hide Indexed;
    assert d.mode == Full by {
      IndexedIsFull(d, b);
    }
    if fs != [] && fs[0].group.Some? {
      var f := Named(fs[0], groups);
      InsertIndexed(d, b, f.uin, f.uid);
      TakeFriendsIndexed(Insert(d, f.uin, f.uid), b, fs[1..], groups, acc[f.uin := f]);
    }
  }

  lemma IndexedIsFull(d: Dir, b: Book)
    requires Indexed(d, b)
    ensures d.Valid() && d.mode == Full
  {
  }

  lemma {:induction false} TakePagesIndexed(d: Dir, b: Book, pages: FriendPages, groups: map<nat, string>, acc: map<Uin, Friend>)
    requires OneToOne(b) && Indexed(d, b) && CoversFriends(d, acc) && KnowsFriends(b, pages)
    ensures var (d', r) := TakePages(d, pages, groups, acc);
            Indexed(d', b) && Extends(d, d') && (r.Ok? ==> CoversFriends(d', r.value))
    decreases pages
  {
    hide Indexed, CoversFriends, TakeFriends;
    if !pages.Failed? {
      var groups' := groups + pages.page.groups;
      TakeFriendsIndexed(d, b, pages.page.friends, groups', acc);
      var (d', r) := TakeFriends(d, pages.page.friends, groups', acc);
      if pages.More? && r.Ok? {
        TakePagesIndexed(d', b, pages.rest, groups', r.value);
      }
    }
  }

  lemma {:induction false} InsertAllIndexed(d: Dir, b: Book, ms: seq<Member>)
    requires OneToOne(b) && Indexed(d, b) && forall m :: m in ms ==> Knows(b, m.uin, m.uid)
    ensures Indexed(InsertAll(d, ms), b) && Extends(d, InsertAll(d, ms)) && CoversMembers(InsertAll(d, ms), ms)
    decreases |ms|
  {
    hide Indexed;
    if ms != [] {
      InsertIndexed(d, b, ms[0].uin, ms[0].uid);
      InsertAllIndexed(Insert(d, ms[0].uin, ms[0].uid), b, ms[1..]);
    }
  }

  lemma {:induction false} CollectKnown(b: Book, pages: MemberPages)
    requires KnowsMembers(b, pages) && Collect(pages).Some?
    ensures forall m :: m in Collect(pages).value ==> Knows(b, m.uin, m.uid)
    decreases pages
  {
    if pages.More? {
      CollectKnown(b, pages.rest);
    }
  }

  lemma FriendsKeepInv(d: Dir, b: Book, pages: FriendPages)
    requires OneToOne(b) && Inv(d, b) && KnowsFriends(b, pages)
    ensures Inv(RefreshFriends(d, pages).0, b)
  {
    hide Indexed, Insert, TakePages, KnowsFriends;
    IndexedIsFull(d, b);
    TakePagesIndexed(d, b, pages, map[], map[]);
    TakePagesKeeps(d, pages, map[], map[]);
    var (d', r) := TakePages(d, pages, map[], map[]);
    assert RefreshFriends(d, pages).0 == if r.Ok? then d'.(friends := Some(r.value)) else d';
    if r.Ok? {
      IndexedIgnoresLists(d', d'.(friends := Some(r.value)), b);
    }
  }

  lemma IndexedIgnoresLists(d: Dir, d': Dir, b: Book)
    requires Indexed(d, b) && d'.Valid() && d'.mode == d.mode && d'.uin2uid == d.uin2uid && d'.uid2uin == d.uid2uin
    ensures Indexed(d', b)
  {
  }

  lemma MembersKeepInv(d: Dir, b: Book, group: Uin, pages: MemberPages)
    requires OneToOne(b) && Inv(d, b) && KnowsMembers(b, pages)
    ensures Inv(RefreshMembers(d, group, pages).0, b)
  {
    hide Indexed, Insert, InsertAll, Collect, KnowsMembers;
    IndexedIsFull(d, b);
    if Collect(pages).Some? {
      var ms := Collect(pages).value;
      CollectKnown(b, pages);
      InsertAllIndexed(d, b, ms);
      InsertAllKeeps(d, ms);
      var d' := InsertAll(d, ms);
      var d'' := d'.(members := Some(d.members.value[group := ms]));
      IndexedIgnoresLists(d', d'', b);
      forall g | g in d''.members.value
        ensures CoversMembers(d'', d''.members.value[g])
      {
        assert g != group ==> CoversMembers(d, d.members.value[g]);
      }
    }
  }

  lemma PrepareKeepsInv(d: Dir, b: Book, indexEmpty: bool, group: Option<Uin>, fp: FriendPages, mp: MemberPages)
    requires OneToOne(b) && Inv(d, b) && KnowsFriends(b, fp) && KnowsMembers(b, mp)
    ensures Inv(Prepare(d, indexEmpty, group, fp, mp).0, b)
  {
    hide Indexed, RefreshFriends, RefreshMembers, KnowsFriends, KnowsMembers;
    IndexedIsFull(d, b);
    FriendsKeepInv(d, b, fp);
    var d1 := if indexEmpty then RefreshFriends(d, fp).0 else d;
    IndexedIsFull(d1, b);
    if group.Some? {
      MembersKeepInv(d1, b, group.value, mp);
    }
  }

  lemma NewInv(b: Book)
    ensures Inv(New(Full), b)
  {
  }

  /** In Full mode a lookup that succeeds agrees with the book, and looking its result up again gives the number back. */
  lemma FullRoundTrip(d: Dir, b: Book, uin: Uin, group: Option<Uin>, fp: FriendPages, mp: MemberPages,
                      fp': FriendPages, mp': MemberPages, r: Result<Uin>)
    requires OneToOne(b) && Inv(d, b) && KnowsFriends(b, fp) && KnowsMembers(b, mp)
    requires Uin2Uid(d, uin, group, fp, mp).1.Ok?
    requires Uid2UinAllowed(Uin2Uid(d, uin, group, fp, mp).0, Uin2Uid(d, uin, group, fp, mp).1.value, None, fp', mp', r)
    ensures Knows(b, uin, Uin2Uid(d, uin, group, fp, mp).1.value)
    ensures r == Ok(uin)
  {
    IndexedIsFull(d, b);
    PrepareKeepsInv(d, b, UinIndexEmpty(d), group, fp, mp);
    var (d', found) := Uin2Uid(d, uin, group, fp, mp);
    var uid := found.value;
    hide Prepare;
    assert Inv(d', b) && found == ResolveUid(d', uin, group);
    if group.Some? && group.value in d'.members.value {
      FindUidIn(d'.members.value[group.value], uin);
    }
    assert HasPair(d', uin, uid);
    assert uid in d'.uid2uin.value && d'.uid2uin.value[uid] == uin;
    NothingToPrepare(d', fp', mp');
  }

  lemma NothingToPrepare(d: Dir, fp: FriendPages, mp: MemberPages)
    requires d.Valid() && !UidIndexEmpty(d)
    ensures Prepare(d, UidIndexEmpty(d), None, fp, mp) == (d, Ok(()))
  {
  }

  // ----- agreement with the direct search

  /** The directory behind the friend refresh in front of a lookup. */
  function Warm(d: Dir, fp: FriendPages): Dir {
    if UinIndexEmpty(d) then RefreshFriends(d, fp).0 else d
  }

  predicate ListsMember(ms: seq<Member>, uin: Uin) {
    exists m :: m in ms && m.uin == uin
  }

  predicate ListsMemberUid(ms: seq<Member>, uid: Uid) {
    exists m :: m in ms && m.uid == uid
  }

  /** Indexing members adds their keys and no others. */
  lemma {:induction false} InsertAllKeys(d: Dir, ms: seq<Member>, uin: Uin, uid: Uid)
    requires d.Valid() && d.mode == Full
    ensures InsertAll(d, ms).Valid() && InsertAll(d, ms).mode == Full
    ensures uin in InsertAll(d, ms).uin2uid.value <==> uin in d.uin2uid.value || ListsMember(ms, uin)
    ensures uid in InsertAll(d, ms).uid2uin.value <==> uid in d.uid2uin.value || ListsMemberUid(ms, uid)
    decreases |ms|
  {
    if ms != [] {
      InsertAllKeys(Insert(d, ms[0].uin, ms[0].uid), ms[1..], uin, uid);
      assert forall m :: m in ms <==> m == ms[0] || m in ms[1..];
    }
  }

  /** A lookup within a directory whose index covers the list it would search. */
  lemma ResolveCovered(d: Dir, b: Book, ms: seq<Member>, group: Uin, uin: Uin, uid: Uid, r: Result<Uin>)
    requires Indexed(d, b) && OneToOne(b) && CoversMembers(d, ms)
    requires group in d.members.value && d.members.value[group] == ms
    requires ResolvesUin(d, uid, Some(group), r)
    ensures ResolveUid(d, uin, Some(group)) == OrNotFound(FindUid(ms, uin), MemberNotFound)
            <==> ListsMember(ms, uin) || uin !in d.uin2uid.value
    ensures r == OrNotFound(FindUin(ms, uid), MemberNotFound) <==> ListsMemberUid(ms, uid) || uid !in d.uid2uin.value
  {
    FindUidIn(ms, uin);
    FindUinIn(ms, uid);
    if FindUid(ms, uin).Some? {
      assert Member(uin, FindUid(ms, uin).value) in ms;
    }
    if FindUin(ms, uid).Some? {
      assert Member(FindUin(ms, uid).value, uid) in ms;
    }
  }

  /** A Full-mode lookup in a group that is not cached, when its requests succeed, answers from the refreshed index. */
  lemma PreparedForGroup(d: Dir, b: Book, group: Uin, fp: FriendPages, mp: MemberPages)
    requires OneToOne(b) && Inv(d, b) && KnowsFriends(b, fp) && KnowsMembers(b, mp) && group !in d.members.value
    requires Prepare(d, UinIndexEmpty(d), Some(group), fp, mp).1.Ok?
    ensures UinIndexEmpty(d) == UidIndexEmpty(d)
    ensures Collect(mp).Some? && Inv(Warm(d, fp), b)
    ensures var ms, d1 := Collect(mp).value, Warm(d, fp);
            var d' := InsertAll(d1, ms).(members := Some(d1.members.value[group := ms]));
            && Prepare(d, UinIndexEmpty(d), Some(group), fp, mp) == (d', Ok(()))
            && Indexed(d', b) && CoversMembers(d', ms)
  {
    hide Indexed, RefreshFriends, InsertAll, Collect, KnowsFriends, KnowsMembers, CoversMembers, CoversFriends;
    IndexedIsFull(d, b);
    EmptyTogether(d, b);
    FriendsKeepInv(d, b, fp);
    RefreshKeepsShape(d, fp);
    var d1 := Warm(d, fp);
    IndexedIsFull(d1, b);
    if Collect(mp).Some? {
      var ms := Collect(mp).value;
      CollectKnown(b, mp);
      InsertAllIndexed(d1, b, ms);
      InsertAllKeeps(d1, ms);
      var d' := InsertAll(d1, ms).(members := Some(d1.members.value[group := ms]));
      IndexedIgnoresLists(InsertAll(d1, ms), d', b);
      CoversIgnoresLists(InsertAll(d1, ms), d', ms);
    }
  }

  lemma CoversIgnoresLists(d: Dir, d': Dir, ms: seq<Member>)
    requires CoversMembers(d, ms) && d'.uin2uid == d.uin2uid
    ensures CoversMembers(d', ms)
  {
  }

  lemma EmptyTogether(d: Dir, b: Book)
    requires Indexed(d, b)
    ensures UinIndexEmpty(d) == UidIndexEmpty(d)
  {
  }

  /**
   In Full mode a lookup in a group that is not cached gives what the direct search gives exactly when the group lists the
   account or the index does not know it: a friend, or a member of another group, is answered although it is not a member.
   */
  lemma ColdFullGroupLookup(d: Dir, b: Book, group: Uin, uin: Uin, uid: Uid, fp: FriendPages, mp: MemberPages, r: Result<Uin>)
    requires OneToOne(b) && Inv(d, b) && KnowsFriends(b, fp) && KnowsMembers(b, mp) && group !in d.members.value
    requires Prepare(d, UinIndexEmpty(d), Some(group), fp, mp).1.Ok?
    requires Uid2UinAllowed(d, uid, Some(group), fp, mp, r)
    ensures Collect(mp).Some? && Warm(d, fp).Valid() && Warm(d, fp).mode == Full
    ensures Uin2Uid(d, uin, Some(group), fp, mp).1 == SearchUid(mp, uin)
            <==> ListsMember(Collect(mp).value, uin) || uin !in Warm(d, fp).uin2uid.value
    ensures r == SearchUin(mp, uid)
            <==> ListsMemberUid(Collect(mp).value, uid) || uid !in Warm(d, fp).uid2uin.value
  {
    IndexedIsFull(d, b);
    PreparedForGroup(d, b, group, fp, mp);
    hide Indexed, OneToOne, InsertAll, Collect, KnowsFriends, KnowsMembers, CoversMembers, CoversFriends, Prepare, Warm,
         ResolveUid, ResolvesUin, FindUid, FindUin, SearchUid, SearchUin, ListsMember, ListsMemberUid;
    var ms, d1 := Collect(mp).value, Warm(d, fp);
    IndexedIsFull(d1, b);
    var d' := InsertAll(d1, ms).(members := Some(d1.members.value[group := ms]));
    IndexedIsFull(d', b);
    InsertAllKeys(d1, ms, uin, uid);
    SearchIsFind(mp, uin, uid);
    ResolveCovered(d', b, ms, group, uin, uid, r);
  }

  // ----- friends in Full mode

  lemma {:induction false} TakeFriendsKeys(d: Dir, fs: seq<Friend>, groups: map<nat, string>, acc: map<Uin, Friend>, uin: Uin, uid: Uid)
    requires d.Valid() && d.mode == Full && TakeFriends(d, fs, groups, acc).1.Ok?
    ensures var d' := TakeFriends(d, fs, groups, acc).0;
            && d'.Valid() && d'.mode == Full
            && (uin in d'.uin2uid.value <==> uin in d.uin2uid.value || Lists(fs, uin))
            && (uid in d'.uid2uin.value <==> uid in d.uid2uin.value || ListsUid(fs, uid))
    decreases |fs|
  {
    if fs != [] {
      var f := Named(fs[0], groups);
      TakeFriendsKeys(Insert(d, f.uin, f.uid), fs[1..], groups, acc[f.uin := f], uin, uid);
      assert forall g :: g in fs <==> g == fs[0] || g in fs[1..];
    }
  }

  lemma {:induction false} TakePagesKeys(d: Dir, pages: FriendPages, groups: map<nat, string>, acc: map<Uin, Friend>, uin: Uin, uid: Uid)
    requires d.Valid() && d.mode == Full && TakePages(d, pages, groups, acc).1.Ok?
    ensures AllFriends(pages).Some?
    ensures var d', fs := TakePages(d, pages, groups, acc).0, AllFriends(pages).value;
            && d'.Valid() && d'.mode == Full
            && (uin in d'.uin2uid.value <==> uin in d.uin2uid.value || Lists(fs, uin))
            && (uid in d'.uid2uin.value <==> uid in d.uid2uin.value || ListsUid(fs, uid))
    decreases pages
  {
    hide TakeFriends, Lists, ListsUid;
    var fs, groups' := pages.page.friends, groups + pages.page.groups;
    TakeFriendsKeys(d, fs, groups', acc, uin, uid);
    if pages.More? {
      var (d', r) := TakeFriends(d, fs, groups', acc);
      TakePagesKeys(d', pages.rest, groups', r.value, uin, uid);
      ListsAppend(fs, AllFriends(pages.rest).value, uin, uid);
    }
  }

  lemma ListsAppend(fs: seq<Friend>, gs: seq<Friend>, uin: Uin, uid: Uid)
    ensures Lists(fs + gs, uin) <==> Lists(fs, uin) || Lists(gs, uin)
    ensures ListsUid(fs + gs, uid) <==> ListsUid(fs, uid) || ListsUid(gs, uid)
  {
    assert forall f :: f in fs + gs <==> f in fs || f in gs;
  }

  lemma {:induction false} AllFriendsKnown(b: Book, pages: FriendPages)
    requires KnowsFriends(b, pages) && AllFriends(pages).Some?
    ensures forall f :: f in AllFriends(pages).value ==> Knows(b, f.uin, f.uid)
    decreases pages
  {
    if pages.More? {
      AllFriendsKnown(b, pages.rest);
    }
  }

  /** The friend lookup of Full mode behind its refresh, against a search of all pages. */
  lemma FriendResolveIff(d: Dir, b: Book, fs: seq<Friend>, uin: Uin, uid: Uid, r: Result<Uin>)
    requires OneToOne(b) && Inv(d, b) && forall f :: f in fs ==> Knows(b, f.uin, f.uid)
    requires d.Valid() && d.mode == Full && ResolvesUin(d, uid, None, r)
    ensures ResolveUid(d, uin, None) == OrNotFound(FirstUid(fs, uin), FriendNotFound) <==> (uin in d.uin2uid.value <==> Lists(fs, uin))
    ensures r == OrNotFound(FirstUin(fs, uid), FriendNotFound) <==> (uid in d.uid2uin.value <==> ListsUid(fs, uid))
  {
    hide FindUid, FindUin, AsMembers;
    MembersOf(fs);
    FindUidIn(AsMembers(fs), uin);
    FindUinIn(AsMembers(fs), uid);
  }

  /**
   A Full-mode friend lookup, when its refresh succeeds, gives what the direct search gives exactly when the index knows
   the account just when the server lists it as a friend; on a cold cache that is always so.
   */
  lemma FullFriendLookup(d: Dir, b: Book, uin: Uin, uid: Uid, fp: FriendPages, mp: MemberPages, r: Result<Uin>)
    requires OneToOne(b) && Inv(d, b) && KnowsFriends(b, fp) && AllFriends(fp).Some?
    requires Prepare(d, UinIndexEmpty(d), None, fp, mp).1.Ok? && Uid2UinAllowed(d, uid, None, fp, mp, r)
    ensures Warm(d, fp).Valid() && Warm(d, fp).mode == Full
    ensures Uin2Uid(d, uin, None, fp, mp).1 == SearchFriendUid(fp, uin)
            <==> (uin in Warm(d, fp).uin2uid.value <==> Lists(AllFriends(fp).value, uin))
    ensures r == SearchFriendUin(fp, uid)
            <==> (uid in Warm(d, fp).uid2uin.value <==> ListsUid(AllFriends(fp).value, uid))
    ensures UinIndexEmpty(d) ==> Uin2Uid(d, uin, None, fp, mp).1 == SearchFriendUid(fp, uin) && r == SearchFriendUin(fp, uid)
  {
    IndexedIsFull(d, b);
    EmptyTogether(d, b);
    FriendsKeepInv(d, b, fp);
    var fs, d1 := AllFriends(fp).value, Warm(d, fp);
    IndexedIsFull(d1, b);
    AllFriendsKnown(b, fp);
    SearchFriendIsFind(fp, uin, uid);
    hide Inv, OneToOne, AllFriends, KnowsFriends, ResolveUid, ResolvesUin, SearchFriendUid, SearchFriendUin, Lists, ListsUid,
         FirstUid, FirstUin, TakePages;
    FriendResolveIff(d1, b, fs, uin, uid, r);
    if UinIndexEmpty(d) {
      TakePagesKeys(d, fp, map[], map[], uin, uid);
    }
  }

  // ----- refreshes that fail

  /** The friends in front of the first one without a group. */
  function Grouped(fs: seq<Friend>): seq<Friend>
    decreases |fs|
  {
    if fs == [] || fs[0].group.None? then [] else [fs[0]] + Grouped(fs[1..])
  }

  /** The friends that a refresh reaches before a request fails or a friend has no group. */
  function Reached(pages: FriendPages): seq<Friend> {
    if pages.Failed? then []
    else if Grouped(pages.page.friends) == pages.page.friends && pages.More? then pages.page.friends + Reached(pages.rest)
    else Grouped(pages.page.friends)
  }

  lemma {:induction false} TakeFriendsReach(d: Dir, fs: seq<Friend>, groups: map<nat, string>, acc: map<Uin, Friend>, uin: Uin, uid: Uid)
    requires d.Valid() && d.mode == Full
    ensures var (d', r) := TakeFriends(d, fs, groups, acc);
            && d'.Valid() && d'.mode == Full
            && (r.Ok? <==> Grouped(fs) == fs)
            && (uin in d'.uin2uid.value <==> uin in d.uin2uid.value || Lists(Grouped(fs), uin))
            && (uid in d'.uid2uin.value <==> uid in d.uid2uin.value || ListsUid(Grouped(fs), uid))
    decreases |fs|
  {
    if fs != [] && fs[0].group.Some? {
      var f := Named(fs[0], groups);
      TakeFriendsReach(Insert(d, f.uin, f.uid), fs[1..], groups, acc[f.uin := f], uin, uid);
      var tail := Grouped(fs[1..]);
      assert forall g :: g in [fs[0]] + tail <==> g == fs[0] || g in tail;
      assert fs == [fs[0]] + fs[1..];
      assert ([fs[0]] + tail)[1..] == tail;
    }
  }

  lemma {:induction false} TakePagesReach(d: Dir, pages: FriendPages, groups: map<nat, string>, acc: map<Uin, Friend>, uin: Uin, uid: Uid)
    requires d.Valid() && d.mode == Full
    ensures var d' := TakePages(d, pages, groups, acc).0;
            && d'.Valid() && d'.mode == Full
            && (uin in d'.uin2uid.value <==> uin in d.uin2uid.value || Lists(Reached(pages), uin))
            && (uid in d'.uid2uin.value <==> uid in d.uid2uin.value || ListsUid(Reached(pages), uid))
    decreases pages
  {
    hide TakeFriends, Lists, ListsUid, Grouped;
    if pages.Failed? {
      ListsNobody(uin, uid);
    } else {
      var fs, groups' := pages.page.friends, groups + pages.page.groups;
      TakeFriendsReach(d, fs, groups', acc, uin, uid);
      if pages.More? && Grouped(fs) == fs {
        var (d', r) := TakeFriends(d, fs, groups', acc);
        TakePagesReach(d', pages.rest, groups', r.value, uin, uid);
        ListsAppend(fs, Reached(pages.rest), uin, uid);
      }
    }
  }

  lemma ListsNobody(uin: Uin, uid: Uid)
    ensures !Lists([], uin) && !ListsUid([], uid)
  {
  }

  /** In Full mode a refresh indexes every friend it reaches, whether or not it fails behind them, and nobody else. */
  lemma RefreshIndexes(d: Dir, pages: FriendPages, uin: Uin, uid: Uid)
    requires d.Valid() && d.mode == Full
    ensures RefreshFriends(d, pages).0.Valid() && RefreshFriends(d, pages).0.mode == Full
    ensures uin in RefreshFriends(d, pages).0.uin2uid.value <==> uin in d.uin2uid.value || Lists(Reached(pages), uin)
    ensures uid in RefreshFriends(d, pages).0.uid2uin.value <==> uid in d.uid2uin.value || ListsUid(Reached(pages), uid)
  {
    hide TakePages, Reached, Lists, ListsUid;
    TakePagesReach(d, pages, map[], map[], uin, uid);
    TakePagesKeeps(d, pages, map[], map[]);
    RefreshKeepsShape(d, pages);
    var (d', r) := TakePages(d, pages, map[], map[]);
    assert RefreshFriends(d, pages).0 == if r.Ok? then d'.(friends := Some(r.value)) else d';
  }
}
