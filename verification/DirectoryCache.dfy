/** The cache as the source has it: four maps that are updated in place, with the loops of cache_op.rs over them. */
module DirectoryCache {
  import opened Wrappers
  import opened Directory
  import opened DirectoryModes

  class Cache {
    const mode: Mode
    var uin2uid: Option<map<Uin, Uid>>
    var uid2uin: Option<map<Uid, Uin>>
    var friends: Option<map<Uin, Friend>>
    var members: Option<map<Uin, seq<Member>>>

    ghost function View(): Dir
      reads this
    {
      Dir(mode, uin2uid, uid2uin, friends, members)
    }

    constructor (mode: Mode)
      ensures View() == New(mode)
    {
      var d := New(mode);
      this.mode := mode;
      uin2uid := d.uin2uid;
      uid2uin := d.uid2uin;
      friends := d.friends;
      members := d.members;
    }

    method InsertUinUid(uin: Uin, uid: Uid)
      modifies this
      ensures View() == Insert(old(View()), uin, uid)
    {
      if uin2uid.Some? {
        uin2uid := Some(uin2uid.value[uin := uid]);
      }
      if uid2uin.Some? {
        uid2uin := Some(uid2uin.value[uid := uin]);
      }
    }

    /** The closure that a refresh runs on one page. */
    method TakeFriendPage(page: seq<Friend>, groups: map<nat, string>, acc: map<Uin, Friend>) returns (r: Result<map<Uin, Friend>>)
      modifies this
      ensures (View(), r) == TakeFriends(old(View()), page, groups, acc)
    {
      var result: map<Uin, Friend> := acc;
      for i := 0 to |page|
        invariant TakeFriends(old(View()), page, groups, acc) == TakeFriends(View(), page[i..], groups, result)
      {
        assert page[i..][1..] == page[i + 1..];
        if page[i].group.None? {
          return Err(MissingGroupId);
        }
        var friend := Named(page[i], groups);
        result := result[friend.uin := friend];
        if mode == Full {
          InsertUinUid(friend.uin, friend.uid);
        }
      }
      r := Ok(result);
    }

    method RefreshFriendsCache(pages: FriendPages) returns (r: Result<()>)
      modifies this
      ensures (View(), r) == RefreshFriends(old(View()), pages)
    {
      hide TakeFriends;
      if mode == NoCache {
        return Ok(());
      }
      var rest, groups, result := pages, map[], map[];
      while true
        invariant TakePages(old(View()), pages, map[], map[]) == TakePages(View(), rest, groups, result)
        decreases rest
      {
        if rest.Failed? {
          return Err(FetchFailed);
        }
        groups := groups + rest.page.groups;
        ghost var d := View();
        var taken := TakeFriendPage(rest.page.friends, groups, result);
        TakeFriendsKeeps(d, rest.page.friends, groups, result);
        if !taken.Ok? {
          return if taken.Err? then Err(taken.error) else Panic;
        }
        result := taken.value;
        if rest.Last? {
          break;
        }
        rest := rest.rest;
      }
      friends := Some(result);
      r := Ok(());
    }

    /** The loop that indexes the members of a refreshed group. */
    method IndexMembers(ms: seq<Member>)
      modifies this
      ensures View() == InsertAll(old(View()), ms)
    {
      for i := 0 to |ms|
        invariant InsertAll(old(View()), ms) == InsertAll(View(), ms[i..])
      {
        assert ms[i..][1..] == ms[i + 1..];
        InsertUinUid(ms[i].uin, ms[i].uid);
      }
    }

    method RefreshGroupMembersCache(group: Uin, pages: MemberPages) returns (r: Result<()>)
      requires View().Valid()
      modifies this
      ensures (View(), r) == RefreshMembers(old(View()), group, pages)
    {
      if mode == NoCache {
        return Ok(());
      }
      var rest, ms := pages, [];
      assert Collect(pages).Some? ==> [] + Collect(pages).value == Collect(pages).value;
      while true
        invariant Collect(pages) == if Collect(rest).Some? then Some(ms + Collect(rest).value) else None
        decreases rest
      {
        if rest.Failed? {
          return Err(FetchFailed);
        }
        ghost var before := ms;
        ms := ms + rest.page;
        if rest.Last? {
          break;
        }
        rest := rest.rest;
        assert Collect(rest).Some? ==> before + (ms[|before|..] + Collect(rest).value) == ms + Collect(rest).value;
      }
      assert Collect(pages) == Some(ms);
      InsertAllKeeps(View(), ms);
      if mode == Full {
        IndexMembers(ms);
      }
      members := Some(members.value[group := ms]);
      r := Ok(());
    }

    /** The search through a list of members that the lookups within the cache share. */
    method FindMember(ms: seq<Member>, uin: Uin) returns (r: Option<Uid>)
      ensures r == FindUid(ms, uin)
    {
      for i := 0 to |ms|
        invariant FindUid(ms, uin) == FindUid(ms[i..], uin)
      {
        assert ms[i..][1..] == ms[i + 1..];
        if ms[i].uin == uin {
          return Some(ms[i].uid);
        }
      }
      r := None;
    }

    method FindMemberUin(ms: seq<Member>, uid: Uid) returns (r: Option<Uin>)
      ensures r == FindUin(ms, uid)
    {
      for i := 0 to |ms|
        invariant FindUin(ms, uid) == FindUin(ms[i..], uid)
      {
        assert ms[i..][1..] == ms[i + 1..];
        if ms[i].uid == uid {
          return Some(ms[i].uin);
        }
      }
      r := None;
    }

    method ResolveUin2UidWithinCache(uin: Uin, group: Option<Uin>) returns (r: Result<Uid>)
      requires View().Valid() && mode != NoCache
      ensures r == ResolveUid(View(), uin, group)
    {
      if uin2uid.Some? && uin in uin2uid.value {
        return Ok(uin2uid.value[uin]);
      }
      if group.Some? {
        if group.value !in members.value {
          return Err(GroupNotFound);
        }
        var found := FindMember(members.value[group.value], uin);
        r := OrNotFound(found, MemberNotFound);
      } else if uin in friends.value {
        r := Ok(friends.value[uin].uid);
      } else {
        r := Err(FriendNotFound);
      }
    }

    method ResolveUid2UinWithinCache(uid: Uid, group: Option<Uin>) returns (r: Result<Uin>)
      requires View().Valid() && mode != NoCache
      ensures ResolvesUin(View(), uid, group, r)
    {
      if uid2uin.Some? && uid in uid2uin.value {
        return Ok(uid2uin.value[uid]);
      }
      if group.Some? {
        if group.value !in members.value {
          return Err(GroupNotFound);
        }
        var found := FindMemberUin(members.value[group.value], uid);
        r := OrNotFound(found, MemberNotFound);
      } else {
        var rest := friends.value;
        while rest != map[]
          invariant forall x :: x in friends.value && friends.value[x].uid == uid ==> x in rest && rest[x] == friends.value[x]
          invariant forall x :: x in rest ==> x in friends.value && rest[x] == friends.value[x]
          decreases |rest|
        {
          var x :| x in rest;
          if rest[x].uid == uid {
            return Ok(x);
          }
          rest := rest - {x};
        }
        r := Err(FriendNotFound);
      }
    }

    /** The refreshes in front of both lookups. */
    method PrepareLookup(indexEmpty: bool, group: Option<Uin>, fp: FriendPages, mp: MemberPages) returns (r: Result<()>)
      requires View().Valid() && mode != NoCache
      modifies this
      ensures (View(), r) == Prepare(old(View()), indexEmpty, group, fp, mp)
    {
      hide RefreshFriends, RefreshMembers;
      RefreshKeepsShape(View(), fp);
      if mode == Full && indexEmpty {
        var refreshed := RefreshFriendsCache(fp);
        if !refreshed.Ok? {
          return refreshed;
        }
      }
      if group.Some? && group.value !in members.value {
        r := RefreshGroupMembersCache(group.value, mp);
      } else {
        r := Ok(());
      }
    }

    method LookUpUid(uin: Uin, group: Option<Uin>, fp: FriendPages, mp: MemberPages) returns (r: Result<Uid>)
      requires View().Valid()
      modifies this
      ensures (View(), r) == Uin2Uid(old(View()), uin, group, fp, mp)
    {
      hide Prepare, ResolveUid, SearchUid, SearchFriendUid;
      if mode == NoCache {
        if group.Some? {
          r := FastFetchGroupMembersUid(uin, mp);
        } else {
          r := FastFetchFriendsUid(uin, fp);
        }
        return;
      }
      ghost var d := View();
      var empty := uin2uid.Some? && uin2uid.value == map[];
      PrepareKeepsMode(d, empty, group, fp, mp);
      var prepared := PrepareLookup(empty, group, fp, mp);
      if prepared.Err? {
        return Err(prepared.error);
      }
      r := ResolveUin2UidWithinCache(uin, group);
    }

    method LookUpUin(uid: Uid, group: Option<Uin>, fp: FriendPages, mp: MemberPages) returns (r: Result<Uin>)
      requires View().Valid()
      modifies this
      ensures Uid2UinAllowed(old(View()), uid, group, fp, mp, r)
      ensures View() == Prepare(old(View()), UidIndexEmpty(old(View())), group, fp, mp).0
    {
      hide ResolvesUin, SearchUin, SearchFriendUin, RefreshFriends, RefreshMembers;
      if mode == NoCache {
        if group.Some? {
          r := FastFetchGroupMembersUin(uid, mp);
        } else {
          r := FastFetchFriendsUin(uid, fp);
        }
        return;
      }
      ghost var d := View();
      var empty := uid2uin.Some? && uid2uin.value == map[];
      PrepareKeepsMode(d, empty, group, fp, mp);
      var prepared := PrepareLookup(empty, group, fp, mp);
      if prepared.Err? {
        return Err(prepared.error);
      }
      r := ResolveUid2UinWithinCache(uid, group);
    }

    // ----- the early-exit paging loops of no-cache mode

    method FastFetchGroupMembersUid(uin: Uin, pages: MemberPages) returns (r: Result<Uid>)
      ensures r == SearchUid(pages, uin)
    {
      hide FindUid;
      var rest := pages;
      while true
        invariant SearchUid(pages, uin) == SearchUid(rest, uin)
        decreases rest
      {
        if rest.Failed? {
          return Err(FetchFailed);
        }
        var found := FindMember(rest.page, uin);
        if found.Some? {
          return Ok(found.value);
        }
        if rest.Last? {
          return Err(MemberNotFound);
        }
        rest := rest.rest;
      }
    }

    method FastFetchGroupMembersUin(uid: Uid, pages: MemberPages) returns (r: Result<Uin>)
      ensures r == SearchUin(pages, uid)
    {
      hide FindUin;
      var rest := pages;
      while true
        invariant SearchUin(pages, uid) == SearchUin(rest, uid)
        decreases rest
      {
        if rest.Failed? {
          return Err(FetchFailed);
        }
        var found := FindMemberUin(rest.page, uid);
        if found.Some? {
          return Ok(found.value);
        }
        if rest.Last? {
          return Err(MemberNotFound);
        }
        rest := rest.rest;
      }
    }

    method FastFetchFriendsUid(uin: Uin, pages: FriendPages) returns (r: Result<Uid>)
      ensures r == SearchFriendUid(pages, uin)
    {
      hide FindUid;
      var rest := pages;
      while true
        invariant SearchFriendUid(pages, uin) == SearchFriendUid(rest, uin)
        decreases rest
      {
        if rest.Failed? {
          return Err(FetchFailed);
        }
        var found := FindMember(AsMembers(rest.page.friends), uin);
        if found.Some? {
          return Ok(found.value);
        }
        if rest.Last? {
          return Err(FriendNotFound);
        }
        rest := rest.rest;
      }
    }

    method FastFetchFriendsUin(uid: Uid, pages: FriendPages) returns (r: Result<Uin>)
      ensures r == SearchFriendUin(pages, uid)
    {
      hide FindUin;
      var rest := pages;
      while true
        invariant SearchFriendUin(pages, uid) == SearchFriendUin(rest, uid)
        decreases rest
      {
        if rest.Failed? {
          return Err(FetchFailed);
        }
        var found := FindMemberUin(AsMembers(rest.page.friends), uid);
        if found.Some? {
          return Ok(found.value);
        }
        if rest.Last? {
          return Err(FriendNotFound);
        }
        rest := rest.rest;
      }
    }

    /** The no-cache branch of fetch_maybe_cached_group_members: what its map holds for the group; None is a failed request. */
    method FetchUncachedGroup(group: Uin, pages: MemberPages) returns (r: Option<seq<Member>>)
      ensures r == LastPage(pages)
    {
      var rest, listed: map<Uin, seq<Member>> := pages, map[];
      while true
        invariant LastPage(pages) == LastPage(rest)
        decreases rest
      {
        if rest.Failed? {
          return None;
        }
        listed := listed[group := rest.page];
        if rest.Last? {
          return Some(listed[group]);
        }
        rest := rest.rest;
      }
    }
  }
}
