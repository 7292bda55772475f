/** When the lookups of the cached modes agree with the direct, early-exit search of no-cache mode. */
module DirectoryModes {
  import opened Wrappers
  import opened Directory

  // ----- group members

  lemma {:induction false} FindUidAppend(a: seq<Member>, b: seq<Member>, uin: Uin)
    ensures FindUid(a + b, uin) == if FindUid(a, uin).Some? then FindUid(a, uin) else FindUid(b, uin)
    decreases |a|
  {
    if a == [] {
      assert a + b == b;
    } else {
      assert (a + b)[1..] == a[1..] + b;
      FindUidAppend(a[1..], b, uin);
    }
  }

  lemma {:induction false} FindUinAppend(a: seq<Member>, b: seq<Member>, uid: Uid)
    ensures FindUin(a + b, uid) == if FindUin(a, uid).Some? then FindUin(a, uid) else FindUin(b, uid)
    decreases |a|
  {
    if a == [] {
      assert a + b == b;
    } else {
      assert (a + b)[1..] == a[1..] + b;
      FindUinAppend(a[1..], b, uid);
    }
  }

  /** The early-exit search finds what a search of all the pages together finds; a failure only counts before a hit. */
  lemma {:induction false} SearchIsFind(pages: MemberPages, uin: Uin, uid: Uid)
    ensures match Collect(pages)
            case Some(ms) => SearchUid(pages, uin) == OrNotFound(FindUid(ms, uin), MemberNotFound)
                             && SearchUin(pages, uid) == OrNotFound(FindUin(ms, uid), MemberNotFound)
            case None => (SearchUid(pages, uin).Ok? || SearchUid(pages, uin) == Err(FetchFailed))
                         && (SearchUin(pages, uid).Ok? || SearchUin(pages, uid) == Err(FetchFailed))
    decreases pages
  {
    if pages.More? {
      SearchIsFind(pages.rest, uin, uid);
      if Collect(pages.rest).Some? {
        FindUidAppend(pages.page, Collect(pages.rest).value, uin);
        FindUinAppend(pages.page, Collect(pages.rest).value, uid);
      }
    }
  }

  /** In Half mode a lookup in a group that is not cached gives what the direct search gives, unless a later page fails. */
  lemma ColdGroupLookup(d: Dir, group: Uin, uin: Uin, uid: Uid, fp: FriendPages, mp: MemberPages, r: Result<Uin>)
    requires d.Valid() && d.mode == Half && group !in d.members.value
    requires Uid2UinAllowed(d, uid, Some(group), fp, mp, r)
    ensures Uin2Uid(d, uin, Some(group), fp, mp).1 == if Collect(mp).Some? then SearchUid(mp, uin) else Err(FetchFailed)
    ensures r == if Collect(mp).Some? then SearchUin(mp, uid) else Err(FetchFailed)
    ensures Uin2Uid(d, uin, Some(group), fp, mp).1 == SearchUid(mp, uin) <==> Collect(mp).Some? || SearchUid(mp, uin).Err?
    ensures r == SearchUin(mp, uid) <==> Collect(mp).Some? || SearchUin(mp, uid).Err?
  {
    SearchIsFind(mp, uin, uid);
    hide RefreshFriends, SearchUid, SearchUin, FindUid, FindUin, Collect;
  }

  // ----- friends

  /** The friends of all pages, or None when a request fails. */
  function AllFriends(pages: FriendPages): Option<seq<Friend>> {
    match pages
    case Failed => None
    case Last(page) => Some(page.friends)
    case More(page, rest) =>
      var later :- AllFriends(rest);
      Some(page.friends + later)
  }

  /** The identifier in the last record of an account number: the one that a refresh keeps. */
  function LastUid(fs: seq<Friend>, x: Uin): Option<Uid>
    decreases |fs|
  {
    if fs == [] then None
    else if LastUid(fs[1..], x).Some? then LastUid(fs[1..], x)
    else if fs[0].uin == x then Some(fs[0].uid)
    else None
  }

  /** The identifier in its first record: the one that a search finds. */
  function FirstUid(fs: seq<Friend>, x: Uin): Option<Uid> {
    FindUid(AsMembers(fs), x)
  }

  function FirstUin(fs: seq<Friend>, uid: Uid): Option<Uin> {
    FindUin(AsMembers(fs), uid)
  }

  function UidOf(m: map<Uin, Friend>, x: Uin): Option<Uid> {
    if x in m then Some(m[x].uid) else None
  }

  lemma {:induction false} LastUidAppend(fs: seq<Friend>, gs: seq<Friend>, x: Uin)
    ensures LastUid(fs + gs, x) == if LastUid(gs, x).Some? then LastUid(gs, x) else LastUid(fs, x)
    decreases |fs|
  {
    if fs == [] {
      assert fs + gs == gs;
    } else {
      assert (fs + gs)[1..] == fs[1..] + gs;
      LastUidAppend(fs[1..], gs, x);
    }
  }

  /** A refresh puts the last record of every account number over what it started from. */
  lemma {:induction false} TakeFriendsLast(d: Dir, fs: seq<Friend>, groups: map<nat, string>, acc: map<Uin, Friend>, x: Uin)
    requires TakeFriends(d, fs, groups, acc).1.Ok?
    ensures UidOf(TakeFriends(d, fs, groups, acc).1.value, x)
            == if LastUid(fs, x).Some? then LastUid(fs, x) else UidOf(acc, x)
    decreases |fs|
  {
    if fs != [] {
      var f := Named(fs[0], groups);
      TakeFriendsLast(if d.mode == Full then Insert(d, f.uin, f.uid) else d, fs[1..], groups, acc[f.uin := f], x);
    }
  }

  lemma {:induction false} TakePagesLast(d: Dir, pages: FriendPages, groups: map<nat, string>, acc: map<Uin, Friend>, x: Uin)
    requires TakePages(d, pages, groups, acc).1.Ok?
    ensures AllFriends(pages).Some?
    ensures UidOf(TakePages(d, pages, groups, acc).1.value, x)
            == if LastUid(AllFriends(pages).value, x).Some? then LastUid(AllFriends(pages).value, x) else UidOf(acc, x)
    decreases pages
  {
    hide LastUid, TakeFriends;
    var fs, groups' := pages.page.friends, groups + pages.page.groups;
    TakeFriendsLast(d, fs, groups', acc, x);
    if pages.More? {
      var (d', r) := TakeFriends(d, fs, groups', acc);
      TakePagesLast(d', pages.rest, groups', r.value, x);
      LastUidAppend(fs, AllFriends(pages.rest).value, x);
    }
  }

  /** The early-exit search finds the first record of all pages; a failure only counts before a hit. */
  lemma {:induction false} SearchFriendIsFind(pages: FriendPages, uin: Uin, uid: Uid)
    ensures match AllFriends(pages)
            case Some(fs) => SearchFriendUid(pages, uin) == OrNotFound(FirstUid(fs, uin), FriendNotFound)
                             && SearchFriendUin(pages, uid) == OrNotFound(FirstUin(fs, uid), FriendNotFound)
            case None => (SearchFriendUid(pages, uin).Ok? || SearchFriendUid(pages, uin) == Err(FetchFailed))
                         && (SearchFriendUin(pages, uid).Ok? || SearchFriendUin(pages, uid) == Err(FetchFailed))
    decreases pages
  {
    if pages.More? {
      SearchFriendIsFind(pages.rest, uin, uid);
      if AllFriends(pages.rest).Some? {
        var fs, later := pages.page.friends, AllFriends(pages.rest).value;
        assert AsMembers(fs + later) == AsMembers(fs) + AsMembers(later);
        FindUidAppend(AsMembers(fs), AsMembers(later), uin);
        FindUinAppend(AsMembers(fs), AsMembers(later), uid);
      }
    }
  }

  /** The only account number whose last record has this identifier is the first that has it in any record. */
  ghost predicate OnlyHolder(fs: seq<Friend>, uid: Uid) {
    forall x: Uin :: LastUid(fs, x) == Some(uid) <==> FirstUin(fs, uid) == Some(x)
  }

  /**
   In Half mode, after a refresh that succeeds, a friend lookup gives what the direct search over the same pages gives
   exactly when the last record of the account number agrees with its first; the reverse lookup does, in whatever order
   the friends are searched, exactly when the identifier has one holder.
   */
  lemma RefreshedFriendLookupIff(d: Dir, pages: FriendPages, uin: Uin, uid: Uid)
    requires d.Valid() && d.mode == Half && RefreshFriends(d, pages).1.Ok?
    ensures AllFriends(pages).Some? && RefreshFriends(d, pages).0.Valid() && RefreshFriends(d, pages).0.mode == Half
    ensures var d', fs := RefreshFriends(d, pages).0, AllFriends(pages).value;
            && (ResolveUid(d', uin, None) == SearchFriendUid(pages, uin) <==> LastUid(fs, uin) == FirstUid(fs, uin))
            && ((forall r :: ResolvesUin(d', uid, None, r) ==> r == SearchFriendUin(pages, uid)) <==> OnlyHolder(fs, uid))
  {
    hide LastUid, FirstUid, FirstUin, SearchFriendUid, SearchFriendUin, TakePages, AllFriends;
    TakePagesKeeps(d, pages, map[], map[]);
    var friends := TakePages(d, pages, map[], map[]).1.value;
    assert RefreshFriends(d, pages).0 == d.(friends := Some(friends));
    TakePagesLast(d, pages, map[], map[], uin);
    forall x: Uin
      ensures UidOf(friends, x) == LastUid(AllFriends(pages).value, x)
    {
      TakePagesLast(d, pages, map[], map[], x);
    }
    SearchFriendIsFind(pages, uin, uid);
    ReverseLookupIff(d.(friends := Some(friends)), AllFriends(pages).value, uid);
  }

  lemma ReverseLookupIff(d: Dir, fs: seq<Friend>, uid: Uid)
    requires d.Valid() && d.mode == Half && forall x: Uin :: UidOf(d.friends.value, x) == LastUid(fs, x)
    ensures (forall r :: ResolvesUin(d, uid, None, r) ==> r == OrNotFound(FirstUin(fs, uid), FriendNotFound)) <==> OnlyHolder(fs, uid)
  {
    hide LastUid, FirstUin;
    var found := OrNotFound(FirstUin(fs, uid), FriendNotFound);
    assert forall x: Uin :: x in d.friends.value && d.friends.value[x].uid == uid <==> UidOf(d.friends.value, x) == Some(uid);
    if forall r :: ResolvesUin(d, uid, None, r) ==> r == found {
      forall x: Uin
        ensures LastUid(fs, x) == Some(uid) <==> FirstUin(fs, uid) == Some(x)
      {
        assert UidOf(d.friends.value, x) == Some(uid) ==> ResolvesUin(d, uid, None, Ok(x));
        if y: Uin :| UidOf(d.friends.value, y) == Some(uid) {
          assert ResolvesUin(d, uid, None, Ok(y));
        } else {
          assert forall y :: y in d.friends.value ==> UidOf(d.friends.value, y) != Some(uid);
          assert ResolvesUin(d, uid, None, Err(FriendNotFound));
        }
      }
    }
    if OnlyHolder(fs, uid) {
      assert FirstUin(fs, uid).Some? ==> UidOf(d.friends.value, FirstUin(fs, uid).value) == Some(uid);
      forall r | ResolvesUin(d, uid, None, r)
        ensures r == found
      {
        if r.Ok? {
          assert LastUid(fs, r.value) == UidOf(d.friends.value, r.value) == Some(uid);
        }
      }
    }
  }

  /** Records in which an account number and an identifier always come together. */
  ghost predicate Consistent(fs: seq<Friend>) {
    forall f, g | f in fs && g in fs :: f.uin == g.uin <==> f.uid == g.uid
  }

  lemma {:induction false} LastUidIn(fs: seq<Friend>, x: Uin)
    ensures match LastUid(fs, x)
            case None => forall f :: f in fs ==> f.uin != x
            case Some(uid) => exists f :: f in fs && f.uin == x && f.uid == uid
    decreases |fs|
  {
    if fs != [] {
      LastUidIn(fs[1..], x);
      assert forall f :: f in fs <==> f == fs[0] || f in fs[1..];
    }
  }

  lemma MembersOf(fs: seq<Friend>)
    ensures forall f :: f in fs ==> Member(f.uin, f.uid) in AsMembers(fs)
    ensures forall m :: m in AsMembers(fs) ==> exists f :: f in fs && f.uin == m.uin && f.uid == m.uid
  {
    forall f | f in fs
      ensures Member(f.uin, f.uid) in AsMembers(fs)
    {
      var i :| 0 <= i < |fs| && fs[i] == f;
      assert AsMembers(fs)[i] == Member(f.uin, f.uid);
    }
    forall m | m in AsMembers(fs)
      ensures exists f :: f in fs && f.uin == m.uin && f.uid == m.uid
    {
      var i :| 0 <= i < |fs| && AsMembers(fs)[i] == m;
      assert fs[i] in fs;
    }
  }

  /** Both conditions hold of consistent records, and so of pages that list nobody twice. */
  lemma ConsistentAgrees(fs: seq<Friend>, uin: Uin, uid: Uid)
    requires Consistent(fs)
    ensures LastUid(fs, uin) == FirstUid(fs, uin)
    ensures OnlyHolder(fs, uid)
  {
    hide LastUid, FindUid, FindUin, AsMembers;
    MembersOf(fs);
    LastUidIn(fs, uin);
    FindUidIn(AsMembers(fs), uin);
    FindUinIn(AsMembers(fs), uid);
    forall x: Uin
      ensures LastUid(fs, x) == Some(uid) <==> FirstUin(fs, uid) == Some(x)
    {
      LastUidIn(fs, x);
    }
  }

  /** So after a refresh from consistent pages friend lookups equal the direct search in both directions. */
  lemma RefreshedFriendLookup(d: Dir, pages: FriendPages, uin: Uin, uid: Uid, r: Result<Uin>)
    requires d.Valid() && d.mode == Half && RefreshFriends(d, pages).1.Ok?
    requires AllFriends(pages).Some? ==> Consistent(AllFriends(pages).value)
    requires RefreshFriends(d, pages).0.Valid() && ResolvesUin(RefreshFriends(d, pages).0, uid, None, r)
    ensures ResolveUid(RefreshFriends(d, pages).0, uin, None) == SearchFriendUid(pages, uin)
    ensures r == SearchFriendUin(pages, uid)
  {
    hide Consistent, OnlyHolder, RefreshFriends, ResolveUid, ResolvesUin, SearchFriendUid, SearchFriendUin, AllFriends;
    RefreshedFriendLookupIff(d, pages, uin, uid);
    ConsistentAgrees(AllFriends(pages).value, uin, uid);
  }

  /** An account number that is listed with two identifiers: the refreshed cache answers with the other one. */
  lemma ListedTwice(uin: Uin, first: Uid, last: Uid, group: FriendGroup)
    requires first != last
    ensures var pages := Last(FriendPage([Friend(uin, first, Some(group)), Friend(uin, last, Some(group))], map[]));
            && RefreshFriends(New(Half), pages).1.Ok? && RefreshFriends(New(Half), pages).0.Valid()
            && ResolveUid(RefreshFriends(New(Half), pages).0, uin, None) == Ok(last)
            && SearchFriendUid(pages, uin) == Ok(first)
  {
    var fs := [Friend(uin, first, Some(group)), Friend(uin, last, Some(group))];
    var d, pages := New(Half), Last(FriendPage(fs, map[]));
    assert fs[1..] == [fs[1]] && [fs[1]][1..] == [];
    assert TakeFriends(d, fs, map[], map[]) == TakeFriends(d, [fs[1]], map[], map[uin := fs[0]]);
    assert map[uin := fs[0]][uin := fs[1]] == map[uin := fs[1]];
    assert Named(fs[1], map[]) == fs[1];
    assert TakeFriends(d, [], map[], map[uin := fs[1]]) == (d, Ok(map[uin := fs[1]]));
    assert TakeFriends(d, [fs[1]], map[], map[uin := fs[0]]) == (d, Ok(map[uin := fs[1]]));
    assert TakePages(d, pages, map[], map[]) == (d, Ok(map[uin := fs[1]]));
    assert AsMembers(fs)[0] == Member(uin, first);
  }

  // ----- friends in Half mode without a refresh

  /** A lookup in either direction, with the pages that the server would answer with. */
  datatype Lookup =
    | ByUin(uin: Uin, group: Option<Uin>, fp: FriendPages, mp: MemberPages)
    | ByUid(uid: Uid, group: Option<Uin>, fp: FriendPages, mp: MemberPages)

  /** The directory behind a run of lookups. */
  function LookedUp(d: Dir, run: seq<Lookup>): (d': Dir)
    requires d.Valid()
    ensures d'.Valid()
    decreases |run|
  {
    if run == [] then d
    else
      match run[0]
      case ByUin(uin, group, fp, mp) => LookedUp(Uin2Uid(d, uin, group, fp, mp).0, run[1..])
      case ByUid(_, group, fp, mp) => LookedUp(Prepare(d, UidIndexEmpty(d), group, fp, mp).0, run[1..])
  }

  /** No lookup of Half mode fetches friends. */
  lemma {:induction false} LookupsKeepFriends(d: Dir, run: seq<Lookup>)
    requires d.Valid() && d.mode == Half
    ensures LookedUp(d, run).mode == Half && LookedUp(d, run).friends == d.friends
    decreases |run|
  {
    if run != [] {
      var a := run[0];
      HalfPrepareKeepsFriends(d, UinIndexEmpty(d), a.group, a.fp, a.mp);
      HalfPrepareKeepsFriends(d, UidIndexEmpty(d), a.group, a.fp, a.mp);
      hide Prepare;
      var d' := if a.ByUin? then Uin2Uid(d, a.uin, a.group, a.fp, a.mp).0 else Prepare(d, UidIndexEmpty(d), a.group, a.fp, a.mp).0;
      LookupsKeepFriends(d', run[1..]);
    }
  }

  lemma HalfPrepareKeepsFriends(d: Dir, indexEmpty: bool, group: Option<Uin>, fp: FriendPages, mp: MemberPages)
    requires d.Valid() && d.mode == Half
    ensures var d' := Prepare(d, indexEmpty, group, fp, mp).0;
            d'.Valid() && d'.mode == Half && d'.friends == d.friends
  {
    hide RefreshFriends, RefreshMembers;
    if group.Some? {
      MembersKeepShape(d, group.value, mp);
    }
  }

  predicate Lists(fs: seq<Friend>, uin: Uin) {
    exists f :: f in fs && f.uin == uin
  }

  predicate ListsUid(fs: seq<Friend>, uid: Uid) {
    exists f :: f in fs && f.uid == uid
  }

  /**
   Half mode never fetches friends for a lookup. So as long as nothing but lookups is done with a new cache, it knows no
   friend, and a friend lookup gives what the direct search gives exactly when no page lists the friend and none fails.
   */
  lemma ColdFriendLookup(run: seq<Lookup>, uin: Uin, uid: Uid, fp: FriendPages, mp: MemberPages, r: Result<Uin>)
    requires Uid2UinAllowed(LookedUp(New(Half), run), uid, None, fp, mp, r)
    ensures LookedUp(New(Half), run).friends == Some(map[])
    ensures Uin2Uid(LookedUp(New(Half), run), uin, None, fp, mp).1 == SearchFriendUid(fp, uin)
            <==> AllFriends(fp).Some? && !Lists(AllFriends(fp).value, uin)
    ensures r == SearchFriendUin(fp, uid) <==> AllFriends(fp).Some? && !ListsUid(AllFriends(fp).value, uid)
  {
    hide LookedUp, SearchFriendUid, SearchFriendUin, AllFriends, FindUid, FindUin, AsMembers;
    LookupsKeepFriends(New(Half), run);
    var d := LookedUp(New(Half), run);
    assert Uin2Uid(d, uin, None, fp, mp).1 == Err(FriendNotFound) && r == Err(FriendNotFound);
    SearchFriendIsFind(fp, uin, uid);
    if AllFriends(fp).Some? {
      var ms := AsMembers(AllFriends(fp).value);
      MembersOf(AllFriends(fp).value);
      FindUidIn(ms, uin);
      FindUinIn(ms, uid);
    }
  }

  // ----- lookups that need no request

  /** Nothing has to be fetched: the group, if there is one, is cached, and the index of Full mode is not empty. */
  predicate Warmed(d: Dir, group: Option<Uin>) {
    && d.Valid() && d.mode != NoCache
    && (group.Some? ==> group.value in d.members.value)
    && (d.mode == Full ==> d.uin2uid.value != map[] && d.uid2uin.value != map[])
  }

  /** Record i is the first of this account number in the list. */
  ghost predicate FirstUinAt(ms: seq<Member>, i: int, uin: Uin) {
    0 <= i < |ms| && ms[i].uin == uin && forall j :: 0 <= j < i ==> ms[j].uin != uin
  }

  ghost predicate FirstUidAt(ms: seq<Member>, i: int, uid: Uid) {
    0 <= i < |ms| && ms[i].uid == uid && forall j :: 0 <= j < i ==> ms[j].uid != uid
  }

  lemma {:induction false} FindFirst(ms: seq<Member>, uin: Uin, uid: Uid)
    ensures forall i :: FirstUinAt(ms, i, uin) ==> FindUid(ms, uin) == Some(ms[i].uid)
    ensures forall i :: FirstUidAt(ms, i, uid) ==> FindUin(ms, uid) == Some(ms[i].uin)
    decreases |ms|
  {
    if ms != [] {
      FindFirst(ms[1..], uin, uid);
      forall i | FirstUinAt(ms, i, uin)
        ensures FindUid(ms, uin) == Some(ms[i].uid)
      {
        assert forall j :: 0 <= j < |ms| - 1 ==> ms[1..][j] == ms[j + 1];
        assert i > 0 ==> FirstUinAt(ms[1..], i - 1, uin);
      }
      forall i | FirstUidAt(ms, i, uid)
        ensures FindUin(ms, uid) == Some(ms[i].uin)
      {
        assert forall j :: 0 <= j < |ms| - 1 ==> ms[1..][j] == ms[j + 1];
        assert i > 0 ==> FirstUidAt(ms[1..], i - 1, uid);
      }
    }
  }

  /** Such a lookup asks the server for nothing: whatever it would answer, directory and result are the same. */
  lemma WarmLookup(d: Dir, uin: Uin, uid: Uid, group: Option<Uin>, fp: FriendPages, mp: MemberPages, fp': FriendPages, mp': MemberPages)
    requires Warmed(d, group)
    ensures Uin2Uid(d, uin, group, fp, mp) == Uin2Uid(d, uin, group, fp', mp')
    ensures Uin2Uid(d, uin, group, fp, mp).0 == d && Prepare(d, UidIndexEmpty(d), group, fp, mp) == (d, Ok(()))
    ensures forall r :: Uid2UinAllowed(d, uid, group, fp, mp, r) <==> Uid2UinAllowed(d, uid, group, fp', mp', r)
  {
    hide RefreshFriends, RefreshMembers, ResolveUid, ResolvesUin;
  }

  /** In a cached group, in Half mode or when the index does not know the account, its first record in the list answers. */
  lemma WarmGroupLookup(d: Dir, uin: Uin, uid: Uid, group: Uin, fp: FriendPages, mp: MemberPages, r: Result<Uin>)
    requires Warmed(d, Some(group)) && Uid2UinAllowed(d, uid, Some(group), fp, mp, r)
    ensures var ms, found := d.members.value[group], Uin2Uid(d, uin, Some(group), fp, mp).1;
            if d.mode == Full && uin in d.uin2uid.value then found == Ok(d.uin2uid.value[uin])
            else
              && (forall i :: FirstUinAt(ms, i, uin) ==> found == Ok(ms[i].uid))
              && ((forall m :: m in ms ==> m.uin != uin) ==> found == Err(MemberNotFound))
    ensures var ms := d.members.value[group];
            if d.mode == Full && uid in d.uid2uin.value then r == Ok(d.uid2uin.value[uid])
            else
              && (forall i :: FirstUidAt(ms, i, uid) ==> r == Ok(ms[i].uin))
              && ((forall m :: m in ms ==> m.uid != uid) ==> r == Err(MemberNotFound))
  {
    var ms := d.members.value[group];
    WarmLookup(d, uin, uid, Some(group), fp, mp, fp, mp);
    FindFirst(ms, uin, uid);
    FindUidIn(ms, uin);
    FindUinIn(ms, uid);
    hide Prepare, FindUid, FindUin;
  }

  /** Outside a group the cached friends answer; the reverse lookup returns any of them that has the identifier. */
  lemma WarmFriendLookup(d: Dir, uin: Uin, uid: Uid, fp: FriendPages, mp: MemberPages, r: Result<Uin>)
    requires Warmed(d, None)
    ensures Uin2Uid(d, uin, None, fp, mp).1
            == if d.mode == Full && uin in d.uin2uid.value then Ok(d.uin2uid.value[uin])
               else if uin in d.friends.value then Ok(d.friends.value[uin].uid)
               else Err(FriendNotFound)
    ensures Uid2UinAllowed(d, uid, None, fp, mp, r)
            <==> if d.mode == Full && uid in d.uid2uin.value then r == Ok(d.uid2uin.value[uid])
                 else if r.Ok? then r.value in d.friends.value && d.friends.value[r.value].uid == uid
                 else r == Err(FriendNotFound) && forall x :: x in d.friends.value ==> d.friends.value[x].uid != uid
  {
    WarmLookup(d, uin, uid, None, fp, mp, fp, mp);
    hide Prepare;
  }

  // ----- what a refresh stores for a friend

  /** The answers of the server when no request fails. */
  function PagesOf(ps: seq<FriendPage>): FriendPages
    requires ps != []
  {
    if |ps| == 1 then Last(ps[0]) else More(ps[0], PagesOf(ps[1..]))
  }

  function GroupsOf(ps: seq<FriendPage>): map<nat, string> {
    if ps == [] then map[] else ps[0].groups + GroupsOf(ps[1..])
  }

  /** Page j is the latest of these that names the group. */
  ghost predicate NamesLast(ps: seq<FriendPage>, id: nat, j: int) {
    0 <= j < |ps| && id in ps[j].groups && forall l :: j < l < |ps| ==> id !in ps[l].groups
  }

  ghost predicate NamesNowhere(ps: seq<FriendPage>, id: nat) {
    forall j :: 0 <= j < |ps| ==> id !in ps[j].groups
  }

  /** The name of a group is the one on the latest page that has it. */
  lemma {:induction false} LatestName(ps: seq<FriendPage>, id: nat)
    ensures forall j :: NamesLast(ps, id, j) ==> id in GroupsOf(ps) && GroupsOf(ps)[id] == ps[j].groups[id]
    ensures NamesNowhere(ps, id) <==> id !in GroupsOf(ps)
    decreases |ps|
  {
    if ps != [] {
      var tail := ps[1..];
      LatestName(tail, id);
      assert forall l :: 0 <= l < |tail| ==> tail[l] == ps[l + 1];
      forall j | NamesLast(ps, id, j)
        ensures id in GroupsOf(ps) && GroupsOf(ps)[id] == ps[j].groups[id]
      {
        if j > 0 {
          assert NamesLast(tail, id, j - 1);
        } else {
          assert NamesNowhere(tail, id);
        }
      }
      assert NamesNowhere(ps, id) <==> id !in ps[0].groups && NamesNowhere(tail, id) by {
        NowhereStep(ps, id);
      }
    }
  }

  lemma NowhereStep(ps: seq<FriendPage>, id: nat)
    requires ps != []
    ensures NamesNowhere(ps, id) <==> id !in ps[0].groups && NamesNowhere(ps[1..], id)
  {
    assert forall l :: 0 <= l < |ps| - 1 ==> ps[1..][l] == ps[l + 1];
    if id !in ps[0].groups && NamesNowhere(ps[1..], id) {
      forall j | 0 <= j < |ps|
        ensures id !in ps[j].groups
      {
        assert j > 0 ==> id !in ps[1..][j - 1].groups;
      }
    }
  }

  /** Record i of this list is the last of its account number. */
  predicate LastOf(fs: seq<Friend>, i: nat) {
    i < |fs| && forall j :: i < j < |fs| ==> fs[j].uin != fs[i].uin
  }

  lemma {:induction false} TakeFriendsAt(d: Dir, fs: seq<Friend>, groups: map<nat, string>, acc: map<Uin, Friend>, i: nat)
    requires TakeFriends(d, fs, groups, acc).1.Ok? && LastOf(fs, i)
    ensures var m := TakeFriends(d, fs, groups, acc).1.value;
            fs[i].group.Some? && fs[i].uin in m && m[fs[i].uin] == Named(fs[i], groups)
    decreases |fs|
  {
    var f := Named(fs[0], groups);
    var d', acc' := if d.mode == Full then Insert(d, f.uin, f.uid) else d, acc[f.uin := f];
    assert forall j :: 0 <= j < |fs| - 1 ==> fs[1..][j] == fs[j + 1];
    if i > 0 {
      TakeFriendsAt(d', fs[1..], groups, acc', i - 1);
    } else {
      TakeFriendsSkips(d', fs[1..], groups, acc', f.uin);
    }
  }

  lemma {:induction false} TakeFriendsSkips(d: Dir, fs: seq<Friend>, groups: map<nat, string>, acc: map<Uin, Friend>, x: Uin)
    requires TakeFriends(d, fs, groups, acc).1.Ok? && x in acc && forall i :: 0 <= i < |fs| ==> fs[i].uin != x
    ensures x in TakeFriends(d, fs, groups, acc).1.value && TakeFriends(d, fs, groups, acc).1.value[x] == acc[x]
    decreases |fs|
  {
    if fs != [] {
      var f := Named(fs[0], groups);
      TakeFriendsSkips(if d.mode == Full then Insert(d, f.uin, f.uid) else d, fs[1..], groups, acc[f.uin := f], x);
    }
  }

  lemma {:induction false} TakePagesSkips(d: Dir, ps: seq<FriendPage>, groups: map<nat, string>, acc: map<Uin, Friend>, x: Uin)
    requires ps != [] && TakePages(d, PagesOf(ps), groups, acc).1.Ok? && x in acc
    requires forall k :: 0 <= k < |ps| ==> !Lists(ps[k].friends, x)
    ensures var m := TakePages(d, PagesOf(ps), groups, acc).1.value;
            x in m && m[x] == acc[x]
    decreases |ps|
  {
    hide TakeFriends;
    var groups' := groups + ps[0].groups;
    var (d', r) := TakeFriends(d, ps[0].friends, groups', acc);
    assert !Lists(ps[0].friends, x);
    TakeFriendsSkips(d, ps[0].friends, groups', acc, x);
    if |ps| > 1 {
      assert forall k :: 0 <= k < |ps| - 1 ==> ps[1..][k] == ps[k + 1];
      TakePagesSkips(d', ps[1..], groups', r.value, x);
    }
  }

  lemma {:induction false} TakePagesAt(d: Dir, ps: seq<FriendPage>, groups: map<nat, string>, acc: map<Uin, Friend>, k: nat, i: nat)
    requires ps != [] && TakePages(d, PagesOf(ps), groups, acc).1.Ok?
    requires k < |ps| && LastOf(ps[k].friends, i)
    requires forall l :: k < l < |ps| ==> !Lists(ps[l].friends, ps[k].friends[i].uin)
    ensures var m, f := TakePages(d, PagesOf(ps), groups, acc).1.value, ps[k].friends[i];
            f.group.Some? && f.uin in m && m[f.uin] == Named(f, groups + GroupsOf(ps[..k + 1]))
    decreases |ps|
  {
    hide TakeFriends, Lists;
    var groups' := groups + ps[0].groups;
    var (d', r) := TakeFriends(d, ps[0].friends, groups', acc);
    assert ps[..k + 1][1..] == ps[1..][..k];
    assert groups' + GroupsOf(ps[1..][..k]) == groups + GroupsOf(ps[..k + 1]);
    assert forall l :: 0 <= l < |ps| - 1 ==> ps[1..][l] == ps[l + 1];
    if k > 0 {
      TakePagesAt(d', ps[1..], groups', r.value, k - 1, i);
    } else {
      TakeFriendsAt(d, ps[0].friends, groups', acc, i);
      assert groups + GroupsOf(ps[..1]) == groups';
      if |ps| > 1 {
        TakePagesSkips(d', ps[1..], groups', r.value, ps[0].friends[i].uin);
      }
    }
  }

  lemma RefreshedFriendIs(d: Dir, ps: seq<FriendPage>, k: nat, i: nat)
    requires ps != [] && d.mode != NoCache && RefreshFriends(d, PagesOf(ps)).1.Ok?
    requires k < |ps| && LastOf(ps[k].friends, i)
    requires forall l :: k < l < |ps| ==> !Lists(ps[l].friends, ps[k].friends[i].uin)
    ensures var f, friends := ps[k].friends[i], RefreshFriends(d, PagesOf(ps)).0.friends;
            f.group.Some? && friends.Some? && f.uin in friends.value && friends.value[f.uin] == Named(f, GroupsOf(ps[..k + 1]))
  {
    hide TakePages, Lists, GroupsOf, PagesOf;
    TakePagesAt(d, ps, map[], map[], k, i);
    assert map[] + GroupsOf(ps[..k + 1]) == GroupsOf(ps[..k + 1]);
  }

  /**
   A refresh stores, for every account number, its last record, with the name of its group taken from the latest page up
   to that record's that names the group, and with its own name when none does.
   */
  lemma RefreshedFriend(d: Dir, ps: seq<FriendPage>, k: nat, i: nat)
    requires ps != [] && d.mode != NoCache && RefreshFriends(d, PagesOf(ps)).1.Ok?
    requires k < |ps| && LastOf(ps[k].friends, i)
    requires forall l :: k < l < |ps| ==> !Lists(ps[l].friends, ps[k].friends[i].uin)
    ensures ps[k].friends[i].group.Some?
    ensures var f, friends := ps[k].friends[i], RefreshFriends(d, PagesOf(ps)).0.friends;
            && friends.Some? && f.uin in friends.value
            && var stored, id, seen := friends.value[f.uin], f.group.value.id, ps[..k + 1];
               && stored == f.(group := stored.group) && stored.group.Some? && stored.group.value.id == id
               && (forall j :: NamesLast(seen, id, j) ==> stored.group.value.name == seen[j].groups[id])
               && (NamesNowhere(seen, id) ==> stored.group.value.name == f.group.value.name)
  {
    var f := ps[k].friends[i];
    hide RefreshFriends, Lists, LastOf, GroupsOf, PagesOf, NamesLast, NamesNowhere;
    RefreshedFriendIs(d, ps, k, i);
    LatestName(ps[..k + 1], f.group.value.id);
  }

  /** And it stores nobody who is on no page. */
  lemma RefreshedNobodyElse(d: Dir, pages: FriendPages, x: Uin)
    requires d.mode != NoCache && RefreshFriends(d, pages).1.Ok?
    ensures AllFriends(pages).Some? && RefreshFriends(d, pages).0.friends.Some?
    ensures x in RefreshFriends(d, pages).0.friends.value <==> Lists(AllFriends(pages).value, x)
  {
    hide TakePages, LastUid;
    TakePagesLast(d, pages, map[], map[], x);
    LastUidIn(AllFriends(pages).value, x);
  }

  // ----- what a refresh stores for a group

  function MemberPagesOf(ps: seq<seq<Member>>): MemberPages
    requires ps != []
  {
    if |ps| == 1 then Last(ps[0]) else More(ps[0], MemberPagesOf(ps[1..]))
  }

  function Joined(ps: seq<seq<Member>>): seq<Member> {
    if ps == [] then [] else ps[0] + Joined(ps[1..])
  }

  lemma {:induction false} CollectOf(ps: seq<seq<Member>>)
    requires ps != []
    ensures Collect(MemberPagesOf(ps)) == Some(Joined(ps))
    decreases |ps|
  {
    if |ps| > 1 {
      CollectOf(ps[1..]);
    } else {
      assert ps[1..] == [] && ps[0] + [] == ps[0];
    }
  }

  /** A group refresh stores the members of all pages, in order, under the group, and leaves friends and other groups alone. */
  lemma RefreshedGroup(d: Dir, group: Uin, ps: seq<seq<Member>>)
    requires d.Valid() && d.mode != NoCache && ps != []
    ensures var (d', r) := RefreshMembers(d, group, MemberPagesOf(ps));
            && r == Ok(()) && d'.friends == d.friends
            && d'.members == Some(d.members.value[group := Joined(ps)])
            && (d.mode == Half ==> d'.uin2uid == d.uin2uid && d'.uid2uin == d.uid2uin)
  {
    hide Collect, InsertAll, MemberPagesOf, Joined;
    CollectOf(ps);
    InsertAllKeeps(d, Joined(ps));
  }

  // ----- listing a group in no-cache mode

  /** What fetch_maybe_cached_group_members is left with in no-cache mode: every page replaces the one before. */
  function LastPage(pages: MemberPages): Option<seq<Member>> {
    match pages
    case Failed => None
    case Last(page) => Some(page)
    case More(_, rest) => LastPage(rest)
  }

  predicate EarlierPagesEmpty(pages: MemberPages) {
    pages.More? ==> pages.page == [] && EarlierPagesEmpty(pages.rest)
  }

  lemma {:induction false} LastPageLength(pages: MemberPages)
    ensures LastPage(pages).Some? <==> Collect(pages).Some?
    ensures Collect(pages).Some? ==> |LastPage(pages).value| <= |Collect(pages).value|
    decreases pages
  {
    if pages.More? {
      LastPageLength(pages.rest);
    }
  }

  /** So it lists the whole group exactly when all pages but the last are empty. */
  lemma {:induction false} WholeGroupIff(pages: MemberPages)
    requires Collect(pages).Some?
    ensures LastPage(pages) == Collect(pages) <==> EarlierPagesEmpty(pages)
    decreases pages
  {
    if pages.More? {
      WholeGroupIff(pages.rest);
      LastPageLength(pages.rest);
      var later := Collect(pages.rest).value;
      assert pages.page == [] ==> pages.page + later == later;
    }
  }
}
