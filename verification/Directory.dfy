/**
 The friend and group-member directory (cache.rs, cache_op.rs) on values: its three modes, refreshing it page by page,
 and looking up account numbers and identifiers. The answers of the server to one paging loop are a value too.
 */
module Directory {
  import opened Wrappers

  type Uin = nat
  type Uid = string

  datatype Mode = Full | Half | NoCache

  datatype FriendGroup = FriendGroup(id: nat, name: string)
  datatype Friend = Friend(uin: Uin, uid: Uid, group: Option<FriendGroup>)
  datatype Member = Member(uin: Uin, uid: Uid)

  datatype FriendPage = FriendPage(friends: seq<Friend>, groups: map<nat, string>)

  /** The replies to one paging loop: a page with no next token ends it, and so does a failed request. */
  datatype Pages<P> = Failed | Last(page: P) | More(page: P, rest: Pages<P>)

  type FriendPages = Pages<FriendPage>
  type MemberPages = Pages<seq<Member>>

  datatype Error = FetchFailed | MissingGroupId | FriendNotFound | MemberNotFound | GroupNotFound

  type Result<T> = Outcome<T, Error>

  datatype Dir = Dir(mode: Mode, uin2uid: Option<map<Uin, Uid>>, uid2uin: Option<map<Uid, Uin>>,
                     friends: Option<map<Uin, Friend>>, members: Option<map<Uin, seq<Member>>>)
  {
    /** What the constructors of the modes set up and no operation changes. */
    predicate Valid() {
      && (uin2uid.Some? <==> mode == Full) && (uid2uin.Some? <==> mode == Full)
      && (friends.Some? <==> mode != NoCache) && (members.Some? <==> mode != NoCache)
    }
  }

  /** The directory has the maps of its mode, and they are empty. */
  function New(mode: Mode): (d: Dir)
    ensures d.Valid() && d.mode == mode
    ensures d.uin2uid in {None, Some(map[])} && d.uid2uin in {None, Some(map[])}
    ensures d.friends in {None, Some(map[])} && d.members in {None, Some(map[])}
  {
    match mode
    case Full => Dir(Full, Some(map[]), Some(map[]), Some(map[]), Some(map[]))
    case Half => Dir(Half, None, None, Some(map[]), Some(map[]))
    case NoCache => Dir(NoCache, None, None, None, None)
  }

  /** insert_uin_uid: each index is updated if it is there. */
  function Insert(d: Dir, uin: Uin, uid: Uid): Dir {
    d.(uin2uid := if d.uin2uid.Some? then Some(d.uin2uid.value[uin := uid]) else None,
       uid2uin := if d.uid2uin.Some? then Some(d.uid2uin.value[uid := uin]) else None)
  }

  // ----- refreshing

  function Named(f: Friend, groups: map<nat, string>): Friend
    requires f.group.Some?
  {
    if f.group.value.id in groups then f.(group := Some(FriendGroup(f.group.value.id, groups[f.group.value.id]))) else f
  }

  /** The inner loop of a refresh: a friend without a group stops it, with the friends before it already indexed. */
  function TakeFriends(d: Dir, fs: seq<Friend>, groups: map<nat, string>, acc: map<Uin, Friend>): (Dir, Result<map<Uin, Friend>>)
    decreases |fs|
  {
    if fs == [] then (d, Ok(acc))
    else if fs[0].group.None? then (d, Err(MissingGroupId))
    else
      var f := Named(fs[0], groups);
      TakeFriends(if d.mode == Full then Insert(d, f.uin, f.uid) else d, fs[1..], groups, acc[f.uin := f])
  }

  /** The paging loop of a refresh; group names add up over the pages. */
  function TakePages(d: Dir, pages: FriendPages, groups: map<nat, string>, acc: map<Uin, Friend>): (Dir, Result<map<Uin, Friend>>)
    decreases pages
  {
    if pages.Failed? then (d, Err(FetchFailed))
    else
      var groups' := groups + pages.page.groups;
      var (d', r) := TakeFriends(d, pages.page.friends, groups', acc);
      if pages.Last? || !r.Ok? then (d', r) else TakePages(d', pages.rest, groups', r.value)
  }

  /** refresh_friends_cache; the clear and re-insert at its end are one step here. */
  function RefreshFriends(d: Dir, pages: FriendPages): (Dir, Result<()>) {
    if d.mode == NoCache then (d, Ok(()))
    else
      var (d', r) := TakePages(d, pages, map[], map[]);
      match r
      case Ok(friends) => (d'.(friends := Some(friends)), Ok(()))
      case Err(e) => (d', Err(e))
      case Panic => (d', Panic)
  }

  /** The members of all pages, or None when a request fails. */
  function Collect(pages: MemberPages): Option<seq<Member>> {
    match pages
    case Failed => None
    case Last(page) => Some(page)
    case More(page, rest) =>
      var later :- Collect(rest);
      Some(page + later)
  }

  function InsertAll(d: Dir, ms: seq<Member>): Dir
    decreases |ms|
  {
    if ms == [] then d else InsertAll(Insert(d, ms[0].uin, ms[0].uid), ms[1..])
  }

  /** refresh_group_members_cache. */
  function RefreshMembers(d: Dir, group: Uin, pages: MemberPages): (Dir, Result<()>)
    requires d.Valid()
  {
    if d.mode == NoCache then (d, Ok(()))
    else
      match Collect(pages)
      case None => (d, Err(FetchFailed))
      case Some(ms) =>
        var d' := if d.mode == Full then InsertAll(d, ms) else d;
        (d'.(members := Some(d.members.value[group := ms])), Ok(()))
  }

  // ----- looking up

  function FindUid(ms: seq<Member>, uin: Uin): Option<Uid> {
    if ms == [] then None else if ms[0].uin == uin then Some(ms[0].uid) else FindUid(ms[1..], uin)
  }

  function FindUin(ms: seq<Member>, uid: Uid): Option<Uin> {
    if ms == [] then None else if ms[0].uid == uid then Some(ms[0].uin) else FindUin(ms[1..], uid)
  }

  lemma {:induction false} FindUidIn(ms: seq<Member>, uin: Uin)
    ensures match FindUid(ms, uin)
            case None => forall m :: m in ms ==> m.uin != uin
            case Some(uid) => Member(uin, uid) in ms
    decreases |ms|
  {
    if ms != [] {
      FindUidIn(ms[1..], uin);
    }
  }

  lemma {:induction false} FindUinIn(ms: seq<Member>, uid: Uid)
    ensures match FindUin(ms, uid)
            case None => forall m :: m in ms ==> m.uid != uid
            case Some(uin) => Member(uin, uid) in ms
    decreases |ms|
  {
    if ms != [] {
      FindUinIn(ms[1..], uid);
    }
  }

  function OrNotFound<T>(o: Option<T>, e: Error): Result<T> {
    match o
    case None => Err(e)
    case Some(v) => Ok(v)
  }

  /** The searches of no-cache mode: page by page, up to the first hit. */
  function SearchUid(pages: MemberPages, uin: Uin): Result<Uid> {
    if pages.Failed? then Err(FetchFailed)
    else if FindUid(pages.page, uin).Some? then Ok(FindUid(pages.page, uin).value)
    else if pages.Last? then Err(MemberNotFound)
    else SearchUid(pages.rest, uin)
  }

  function SearchUin(pages: MemberPages, uid: Uid): Result<Uin> {
    if pages.Failed? then Err(FetchFailed)
    else if FindUin(pages.page, uid).Some? then Ok(FindUin(pages.page, uid).value)
    else if pages.Last? then Err(MemberNotFound)
    else SearchUin(pages.rest, uid)
  }

  function AsMembers(fs: seq<Friend>): (r: seq<Member>)
    ensures |r| == |fs|
  {
    seq(|fs|, i requires 0 <= i < |fs| => Member(fs[i].uin, fs[i].uid))
  }

  function SearchFriendUid(pages: FriendPages, uin: Uin): Result<Uid> {
    if pages.Failed? then Err(FetchFailed)
    else if FindUid(AsMembers(pages.page.friends), uin).Some? then Ok(FindUid(AsMembers(pages.page.friends), uin).value)
    else if pages.Last? then Err(FriendNotFound)
    else SearchFriendUid(pages.rest, uin)
  }

  function SearchFriendUin(pages: FriendPages, uid: Uid): Result<Uin> {
    if pages.Failed? then Err(FetchFailed)
    else if FindUin(AsMembers(pages.page.friends), uid).Some? then Ok(FindUin(AsMembers(pages.page.friends), uid).value)
    else if pages.Last? then Err(FriendNotFound)
    else SearchFriendUin(pages.rest, uid)
  }

  /** resolve_uin2uid_within_cache. */
  function ResolveUid(d: Dir, uin: Uin, group: Option<Uin>): Result<Uid>
    requires d.Valid() && d.mode != NoCache
  {
    if d.uin2uid.Some? && uin in d.uin2uid.value then Ok(d.uin2uid.value[uin])
    else if group.Some? then
      if group.value in d.members.value then OrNotFound(FindUid(d.members.value[group.value], uin), MemberNotFound)
      else Err(GroupNotFound)
    else if uin in d.friends.value then Ok(d.friends.value[uin].uid)
    else Err(FriendNotFound)
  }

  /** What resolve_uid2uin_within_cache may return; friends are searched in any order. */
  ghost predicate ResolvesUin(d: Dir, uid: Uid, group: Option<Uin>, r: Result<Uin>)
    requires d.Valid() && d.mode != NoCache
  {
    if d.uid2uin.Some? && uid in d.uid2uin.value then r == Ok(d.uid2uin.value[uid])
    else if group.Some? then
      r == if group.value in d.members.value then OrNotFound(FindUin(d.members.value[group.value], uid), MemberNotFound)
           else Err(GroupNotFound)
    else if exists uin :: uin in d.friends.value && d.friends.value[uin].uid == uid then
      r.Ok? && r.value in d.friends.value && d.friends.value[r.value].uid == uid
    else r == Err(FriendNotFound)
  }

  /** The refreshes in front of a lookup, of the friends when the index is empty, then of a group that is not cached. */
  function Prepare(d: Dir, indexEmpty: bool, group: Option<Uin>, fp: FriendPages, mp: MemberPages): (r: (Dir, Result<()>))
    requires d.Valid()
    ensures r.0.Valid()
  {
    if d.mode == NoCache then (d, Ok(()))
    else
      var (d1, r1) := if d.mode == Full && indexEmpty then RefreshFriends(d, fp) else (d, Ok(()));
      RefreshKeepsShape(d, fp);
      if !r1.Ok? then (d1, r1)
      else if group.Some? && group.value !in d1.members.value then
        MembersKeepShape(d1, group.value, mp);
        RefreshMembers(d1, group.value, mp)
      else (d1, Ok(()))
  }

  predicate UidIndexEmpty(d: Dir) {
    d.uid2uin.Some? && d.uid2uin.value == map[]
  }

  predicate UinIndexEmpty(d: Dir) {
    d.uin2uid.Some? && d.uin2uid.value == map[]
  }

  /** uin2uid: the directory it leaves and its result. */
  function Uin2Uid(d: Dir, uin: Uin, group: Option<Uin>, fp: FriendPages, mp: MemberPages): (r: (Dir, Result<Uid>))
    requires d.Valid()
    ensures r.0.Valid() && r.0.mode == d.mode
  {
    if d.mode == NoCache then (d, if group.Some? then SearchUid(mp, uin) else SearchFriendUid(fp, uin))
    else
      var (d', r) := Prepare(d, UinIndexEmpty(d), group, fp, mp);
      PrepareKeepsMode(d, UinIndexEmpty(d), group, fp, mp);
      (d', match r
           case Ok(_) => ResolveUid(d', uin, group)
           case Err(e) => Err(e)
           case Panic => Panic)
  }

  /** What uid2uin may return. */
  ghost predicate Uid2UinAllowed(d: Dir, uid: Uid, group: Option<Uin>, fp: FriendPages, mp: MemberPages, r: Result<Uin>)
    requires d.Valid()
  {
    if d.mode == NoCache then r == if group.Some? then SearchUin(mp, uid) else SearchFriendUin(fp, uid)
    else
      var (d', p) := Prepare(d, UidIndexEmpty(d), group, fp, mp);
      PrepareKeepsMode(d, UidIndexEmpty(d), group, fp, mp);
      match p
      case Ok(_) => ResolvesUin(d', uid, group, r)
      case Err(e) => r == Err(e)
      case Panic => r == Panic
  }

  // ----- no operation changes the mode, and a failed refresh changes no cached list

  lemma {:induction false} TakeFriendsKeeps(d: Dir, fs: seq<Friend>, groups: map<nat, string>, acc: map<Uin, Friend>)
    ensures var (d', r) := TakeFriends(d, fs, groups, acc);
            && d'.mode == d.mode && d'.friends == d.friends && d'.members == d.members && !r.Panic?
            && (d.Valid() ==> d'.Valid())
            && (d.mode != Full ==> d' == d)
    decreases |fs|
  {
    if fs != [] && fs[0].group.Some? {
      var f := Named(fs[0], groups);
      TakeFriendsKeeps(if d.mode == Full then Insert(d, f.uin, f.uid) else d, fs[1..], groups, acc[f.uin := f]);
    }
  }

  lemma {:induction false} TakePagesKeeps(d: Dir, pages: FriendPages, groups: map<nat, string>, acc: map<Uin, Friend>)
    ensures var (d', r) := TakePages(d, pages, groups, acc);
            && d'.mode == d.mode && d'.friends == d.friends && d'.members == d.members && !r.Panic?
            && (d.Valid() ==> d'.Valid())
            && (d.mode != Full ==> d' == d)
    decreases pages
  {
    if !pages.Failed? {
      var groups' := groups + pages.page.groups;
      TakeFriendsKeeps(d, pages.page.friends, groups', acc);
      var (d', r) := TakeFriends(d, pages.page.friends, groups', acc);
      if pages.More? && r.Ok? {
        TakePagesKeeps(d', pages.rest, groups', r.value);
      }
    }
  }

  lemma RefreshKeepsShape(d: Dir, pages: FriendPages)
    requires d.Valid()
    ensures var (d', r) := RefreshFriends(d, pages);
            d'.Valid() && d'.mode == d.mode && d'.members == d.members && !r.Panic? && (!r.Ok? ==> d'.friends == d.friends)
  {
    TakePagesKeeps(d, pages, map[], map[]);
    var (d', r) := TakePages(d, pages, map[], map[]);
    assert d.mode != NoCache && r.Ok? ==> RefreshFriends(d, pages) == (d'.(friends := Some(r.value)), Ok(()));
    assert d.mode != NoCache && r.Err? ==> RefreshFriends(d, pages) == (d', Err(r.error));
  }

  lemma {:induction false} InsertAllKeeps(d: Dir, ms: seq<Member>)
    ensures var d' := InsertAll(d, ms);
            && d'.mode == d.mode && d'.friends == d.friends && d'.members == d.members
            && (d.Valid() ==> d'.Valid())
    decreases |ms|
  {
    if ms != [] {
      InsertAllKeeps(Insert(d, ms[0].uin, ms[0].uid), ms[1..]);
    }
  }

  lemma MembersKeepShape(d: Dir, group: Uin, pages: MemberPages)
    requires d.Valid()
    ensures var (d', r) := RefreshMembers(d, group, pages);
            d'.Valid() && d'.mode == d.mode && d'.friends == d.friends && !r.Panic? && (!r.Ok? ==> d' == d)
  {
    if Collect(pages).Some? {
      InsertAllKeeps(d, Collect(pages).value);
    }
  }

  lemma PrepareKeepsMode(d: Dir, indexEmpty: bool, group: Option<Uin>, fp: FriendPages, mp: MemberPages)
    requires d.Valid()
    ensures var (d', r) := Prepare(d, indexEmpty, group, fp, mp);
            d'.Valid() && d'.mode == d.mode && !r.Panic?
  {
    RefreshKeepsShape(d, fp);
    var (d1, r1) := if d.mode == Full && indexEmpty then RefreshFriends(d, fp) else (d, Ok(()));
    if d.mode != NoCache && r1.Ok? && group.Some? && group.value !in d1.members.value {
      MembersKeepShape(d1, group.value, mp);
    }
  }

  /** A refresh that fails, even midway, leaves the cached friends and the cached groups as they were. */
  lemma FailedRefreshKeepsLists(d: Dir, fp: FriendPages, group: Uin, mp: MemberPages)
    requires d.Valid()
    ensures !RefreshFriends(d, fp).1.Ok? ==> RefreshFriends(d, fp).0.friends == d.friends && RefreshFriends(d, fp).0.members == d.members
    ensures !RefreshMembers(d, group, mp).1.Ok? ==> RefreshMembers(d, group, mp).0 == d
  {
    RefreshKeepsShape(d, fp);
    MembersKeepShape(d, group, mp);
  }
}
