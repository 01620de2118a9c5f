/**
 * The data logic of the bot's Discord side (server.js): the exclusion list read
 * from the environment, the presence snapshot that buckets members and flattens
 * the buckets into the status map, the table of cron slots built at start-up, and
 * the "brb" announcement check on every message.
 *
 * The Discord client, cron and timers are not modelled: the fetched members, the
 * message, the environment value and the values `Math.random` returns are
 * parameters.
 */
module Server {
  import opened Wrappers
  import opened JsObject
  import JsString
  import opened AirtableSync

  // ---------------------------------------------------------------- configuration

  /**
   * `UNAVAILABLE_MEMBER_IDS ? UNAVAILABLE_MEMBER_IDS.split(",").map((id) => id.trim()) : []`:
   * no list when the variable is unset or empty; otherwise one ID per comma-separated
   * piece, with its surrounding whitespace removed.
   */
  function ParseExclusions(env: Option<string>): (ids: seq<string>)
    ensures env.None? || env == Some("") ==> ids == []
    ensures env.Some? && env.value != "" ==>
      && |ids| == JsString.Count(env.value, ',') + 1
      && forall i :: 0 <= i < |ids| ==>
           && ids[i] == JsString.Trim(JsString.Split(env.value, ',')[i])
           && ',' !in ids[i]
           && (ids[i] != [] ==> !JsString.IsWhitespace(ids[i][0]) && !JsString.IsWhitespace(ids[i][|ids[i]| - 1]))
  {
    if env.Some? && env.value != "" then
      var pieces := JsString.Split(env.value, ',');
      var ids := seq(|pieces|, i requires 0 <= i < |pieces| => JsString.Trim(pieces[i]));
      assert forall i :: 0 <= i < |ids| ==> ',' !in ids[i] by {
        forall i | 0 <= i < |ids| ensures ',' !in ids[i] {
          JsString.TrimKeepsOut(pieces[i], ',');
        }
      }
      ids
    else
      []
  }

  /**
   * Parsing gives back a list of IDs written out with commas, each ID padded with
   * whitespace before (`lead[i]`) and after (`trail[i]`) it.
   */
  lemma ParseExclusionsJoin(lead: seq<string>, ids: seq<string>, trail: seq<string>)
    requires |ids| >= 1 && |lead| == |ids| == |trail|
    requires |ids| >= 2 || lead[0] + ids[0] + trail[0] != ""
    requires forall i :: 0 <= i < |ids| ==> ',' !in ids[i]
    requires forall i :: 0 <= i < |ids| ==> ids[i] != [] ==> !JsString.IsWhitespace(ids[i][0]) && !JsString.IsWhitespace(ids[i][|ids[i]| - 1])
    requires forall i :: 0 <= i < |ids| ==> JsString.AllWhitespace(lead[i]) && JsString.AllWhitespace(trail[i])
    ensures ParseExclusions(Some(JsString.Join(Padded(lead, ids, trail), ','))) == ids
  {
    var pieces := Padded(lead, ids, trail);
    var env := JsString.Join(pieces, ',');
    forall i | 0 <= i < |pieces| ensures ',' !in pieces[i] && JsString.Trim(pieces[i]) == ids[i] {
      PaddedPiece(lead[i], ids[i], trail[i]);
    }
    JsString.SplitJoin(pieces, ',');
    assert JsString.Split("", ',') == [""];
    assert env != "";
  }

  /** Each ID between its padding. */
  function Padded(lead: seq<string>, ids: seq<string>, trail: seq<string>): seq<string>
    requires |lead| == |ids| == |trail|
  {
    seq(|ids|, i requires 0 <= i < |ids| => lead[i] + ids[i] + trail[i])
  }

  /** A padded ID holds no comma, and trimming it gives back the ID. */
  lemma PaddedPiece(lead: string, id: string, trail: string)
    requires ',' !in id && JsString.AllWhitespace(lead) && JsString.AllWhitespace(trail)
    requires id != [] ==> !JsString.IsWhitespace(id[0]) && !JsString.IsWhitespace(id[|id| - 1])
    ensures ',' !in lead + id + trail
    ensures JsString.Trim(lead + id + trail) == id
  {
    JsString.TrimPadded(lead, id, trail);
    assert !JsString.IsWhitespace(',');
  }

  // ---------------------------------------------------------------- members and presence

  /** A Discord user, as much of it as the bot reads. */
  datatype User = User(id: string, bot: bool, globalName: Option<string>, username: string)

  /** A fetched guild member; `presenceStatus` is `member.presence?.status`. */
  datatype Member = Member(user: User, presenceStatus: Option<string>)

  /** What a bucket holds for a member. */
  datatype UserRef = UserRef(id: string, name: string)

  /** The four presence buckets of `statuses`. */
  datatype Buckets = Buckets(online: seq<UserRef>, idle: seq<UserRef>, dnd: seq<UserRef>, offline: seq<UserRef>)

  /** `user.globalName || user.username`. */
  function DisplayName(u: User): string
  {
    if u.globalName.Some? && u.globalName.value != "" then u.globalName.value else u.username
  }

  /** `member.presence?.status || "offline"`. */
  function PresenceOf(m: Member): string
  {
    if m.presenceStatus.Some? && m.presenceStatus.value != "" then m.presenceStatus.value else "offline"
  }

  /** The member passes the filter: not a bot and not on the exclusion list. */
  predicate Considered(m: Member, excluded: seq<string>)
  {
    !m.user.bot && m.user.id !in excluded
  }

  /** `statuses` has a bucket for this presence. */
  predicate IsBucket(status: string)
  {
    status == "online" || status == "idle" || status == "dnd" || status == "offline"
  }

  /**
   * The member would be pushed to a bucket that does not exist: `statuses[presence]`
   * is undefined, the push throws, and the snapshot is abandoned.
   */
  predicate Throws(m: Member, excluded: seq<string>)
  {
    Considered(m, excluded) && !IsBucket(PresenceOf(m))
  }

  function RefOf(m: Member): UserRef
  {
    UserRef(m.user.id, DisplayName(m.user))
  }

  /** The considered members with this presence, in fetch order. */
  function Selected(members: seq<Member>, excluded: seq<string>, status: string): seq<UserRef>
  {
    if members == [] then []
    else
      var m := members[|members| - 1];
      Selected(members[..|members| - 1], excluded, status)
        + (if Considered(m, excluded) && PresenceOf(m) == status then [RefOf(m)] else [])
  }

  /** One more member adds itself to the bucket of its presence, if it is considered. */
  lemma SelectedSnoc(members: seq<Member>, excluded: seq<string>, status: string, i: int)
    requires 0 <= i < |members|
    ensures Selected(members[..i + 1], excluded, status) == Selected(members[..i], excluded, status)
      + (if Considered(members[i], excluded) && PresenceOf(members[i]) == status then [RefOf(members[i])] else [])
  {
    assert members[..i + 1][..i] == members[..i];
  }

  function BucketsOf(members: seq<Member>, excluded: seq<string>): Buckets
  {
    Buckets(Selected(members, excluded, "online"), Selected(members, excluded, "idle"),
            Selected(members, excluded, "dnd"), Selected(members, excluded, "offline"))
  }

  /** The bucket of a status holds the considered members with that presence. */
  lemma BucketOfStatus(members: seq<Member>, excluded: seq<string>, status: string)
    requires IsBucket(status)
    ensures Bucket(BucketsOf(members, excluded), status) == Selected(members, excluded, status)
  {
    BucketFields(BucketsOf(members, excluded));
  }

  /** `statuses[status]`. */
  function Bucket(b: Buckets, status: string): seq<UserRef>
  {
    match status
    case "online" => b.online
    case "idle" => b.idle
    case "dnd" => b.dnd
    case _ => b.offline
  }

  /**
   * The `filter(...).forEach(...)` that fills the four buckets. It fails, with the
   * presence that has no bucket, exactly when some considered member has such a
   * presence; the first such member is the one that throws.
   */
  method BucketMembers(members: seq<Member>, excluded: seq<string>) returns (r: Result<Buckets, string>)
    ensures r.Ok? <==> forall i :: 0 <= i < |members| ==> !Throws(members[i], excluded)
    ensures r.Ok? ==> r.value == BucketsOf(members, excluded)
    ensures r.Err? ==> exists i :: && 0 <= i < |members| && Throws(members[i], excluded) && r.error == PresenceOf(members[i])
                                   && forall j :: 0 <= j < i ==> !Throws(members[j], excluded)
  {
    var online, idle, dnd, offline := [], [], [], [];
    for i := 0 to |members|
      invariant online == Selected(members[..i], excluded, "online")
      invariant idle == Selected(members[..i], excluded, "idle")
      invariant dnd == Selected(members[..i], excluded, "dnd")
      invariant offline == Selected(members[..i], excluded, "offline")
      invariant forall j :: 0 <= j < i ==> !Throws(members[j], excluded)
    {
      var member := members[i];
      SelectedSnoc(members, excluded, "online", i);
      SelectedSnoc(members, excluded, "idle", i);
      SelectedSnoc(members, excluded, "dnd", i);
      SelectedSnoc(members, excluded, "offline", i);
      if member.user.bot || member.user.id in excluded {
        continue;
      }
      var presence := PresenceOf(member);
      var ref := UserRef(member.user.id, DisplayName(member.user));
      if presence == "online" {
        online := online + [ref];
      } else if presence == "idle" {
        idle := idle + [ref];
      } else if presence == "dnd" {
        dnd := dnd + [ref];
      } else if presence == "offline" {
        offline := offline + [ref];
      } else {
        return Err(presence);
      }
    }
    assert members[..|members|] == members;
    return Ok(Buckets(online, idle, dnd, offline));
  }

  /** Each status names its own bucket. */
  lemma BucketFields(b: Buckets)
    ensures Bucket(b, "idle") == b.idle && Bucket(b, "dnd") == b.dnd
    ensures Bucket(b, "offline") == b.offline && Bucket(b, "online") == b.online
  {
  }

  /** The order in which the buckets are written into the status map. */
  const StatusOrder: seq<string> := ["idle", "dnd", "offline", "online"]

  /** `users.forEach((user) => { statusMap[user.id] = { name: user.name, status } })`. */
  function PutAll(statusMap: StatusMap, users: seq<UserRef>, status: string): StatusMap
  {
    if users == [] then statusMap
    else
      var u := users[|users| - 1];
      Put(PutAll(statusMap, users[..|users| - 1], status), u.id, StatusEntry(u.name, status))
  }

  /** The buckets of `order`, one after another, written into the status map. */
  function PutBuckets(statusMap: StatusMap, b: Buckets, order: seq<string>): StatusMap
  {
    if order == [] then statusMap
    else
      var status := order[|order| - 1];
      PutAll(PutBuckets(statusMap, b, order[..|order| - 1]), Bucket(b, status), status)
  }

  function StatusMapOf(b: Buckets): StatusMap
  {
    PutBuckets([], b, StatusOrder)
  }

  /** The nested `forEach` loops that flatten the buckets into `statusMap`. */
  method BuildStatusMap(b: Buckets) returns (statusMap: StatusMap)
    ensures statusMap == StatusMapOf(b)
  {
    statusMap := [];
    for k := 0 to |StatusOrder|
      invariant statusMap == PutBuckets([], b, StatusOrder[..k])
    {
      var status := StatusOrder[k];
      PutBucketsStep([], b, StatusOrder[..k + 1]);
      assert StatusOrder[..k + 1][..k] == StatusOrder[..k];
      statusMap := WriteBucket(statusMap, Bucket(b, status), status);
    }
    assert StatusOrder[..|StatusOrder|] == StatusOrder;
  }

  /** Writing one more bucket after the ones of `order`. */
  lemma PutBucketsStep(statusMap: StatusMap, b: Buckets, order: seq<string>)
    requires order != []
    ensures PutBuckets(statusMap, b, order) ==
      PutAll(PutBuckets(statusMap, b, order[..|order| - 1]), Bucket(b, order[|order| - 1]), order[|order| - 1])
  {
  }

  /** The inner `forEach`: each user of one bucket written into `statusMap`, in order. */
  method WriteBucket(statusMap: StatusMap, users: seq<UserRef>, status: string) returns (r: StatusMap)
    ensures r == PutAll(statusMap, users, status)
  {
    r := statusMap;
    for j := 0 to |users|
      invariant r == PutAll(statusMap, users[..j], status)
    {
      assert users[..j + 1][..j] == users[..j];
      r := Put(r, users[j].id, StatusEntry(users[j].name, status));
    }
    assert users[..|users|] == users;
  }

  /** The members' IDs are distinct, as the keys of the fetched member collection are. */
  ghost predicate DistinctIds(members: seq<Member>)
  {
    forall i, j :: 0 <= i < j < |members| ==> members[i].user.id != members[j].user.id
  }

  ghost predicate DistinctRefIds(users: seq<UserRef>)
  {
    forall i, j :: 0 <= i < j < |users| ==> users[i].id != users[j].id
  }

  /** The status map is the four buckets written one after another. */
  lemma StatusMapLayers(b: Buckets)
    ensures StatusMapOf(b) == PutAll(PutAll(PutAll(PutAll([], b.idle, "idle"), b.dnd, "dnd"), b.offline, "offline"), b.online, "online")
  {
    BucketFields(b);
    var o1, o2, o3 := ["idle"], ["idle", "dnd"], ["idle", "dnd", "offline"];
    assert StatusOrder[..3] == o3 && o3[..2] == o2 && o2[..1] == o1 && o1[..0] == [];
    assert PutBuckets([], b, o1) == PutAll([], b.idle, "idle");
    assert PutBuckets([], b, o2) == PutAll(PutBuckets([], b, o1), b.dnd, "dnd");
    assert PutBuckets([], b, o3) == PutAll(PutBuckets([], b, o2), b.offline, "offline");
    assert PutBuckets([], b, StatusOrder) == PutAll(PutBuckets([], b, o3), b.online, "online");
  }

  /** Writing a bucket adds its users' keys and no other. */
  lemma {:induction false} PutAllHas(statusMap: StatusMap, users: seq<UserRef>, status: string, k: string)
    ensures Get(PutAll(statusMap, users, status), k).Some? <==> Get(statusMap, k).Some? || exists j :: 0 <= j < |users| && users[j].id == k
  {
    if users != [] {
      var n := |users| - 1;
      var init := users[..n];
      var before := PutAll(statusMap, init, status);
      assert PutAll(statusMap, users, status) == Put(before, users[n].id, StatusEntry(users[n].name, status));
      GetPut(before, users[n].id, StatusEntry(users[n].name, status), k);
      PutAllHas(statusMap, init, status, k);
      assert forall j :: 0 <= j < n ==> init[j] == users[j];
      if exists j :: 0 <= j < |users| && users[j].id == k {
        var j :| 0 <= j < |users| && users[j].id == k;
        assert j == n || init[j].id == k;
      }
    }
  }

  /** Writing a bucket leaves the entry of a key none of its users has. */
  lemma {:induction false} PutAllOther(statusMap: StatusMap, users: seq<UserRef>, status: string, k: string)
    requires !InBucket(users, k)
    ensures Get(PutAll(statusMap, users, status), k) == Get(statusMap, k)
  {
    if users != [] {
      var init := users[..|users| - 1];
      assert forall j :: 0 <= j < |init| ==> init[j] == users[j];
      assert users[|users| - 1].id != k;
      PutAllOther(statusMap, init, status, k);
    }
  }

  /** Writing a bucket keeps the keys distinct. */
  lemma {:induction false} PutAllDistinct(statusMap: StatusMap, users: seq<UserRef>, status: string)
    requires DistinctKeys(statusMap)
    ensures DistinctKeys(PutAll(statusMap, users, status))
  {
    if users != [] {
      var u := users[|users| - 1];
      PutAllDistinct(statusMap, users[..|users| - 1], status);
      PutDistinct(PutAll(statusMap, users[..|users| - 1], status), u.id, StatusEntry(u.name, status));
    }
  }

  /** With distinct IDs, each user of a written bucket has its entry under its ID. */
  lemma {:induction false} PutAllGet(statusMap: StatusMap, users: seq<UserRef>, status: string, j: int)
    requires DistinctRefIds(users) && 0 <= j < |users|
    ensures Get(PutAll(statusMap, users, status), users[j].id) == Some(StatusEntry(users[j].name, status))
  {
    var n := |users| - 1;
    var init := users[..n];
    var before := PutAll(statusMap, init, status);
    assert PutAll(statusMap, users, status) == Put(before, users[n].id, StatusEntry(users[n].name, status));
    GetAfterPut(before, users[n].id, StatusEntry(users[n].name, status), users[j].id);
    if j < n {
      assert forall a :: 0 <= a < n ==> init[a] == users[a];
      assert DistinctRefIds(init);
      PutAllGet(statusMap, init, status, j);
      assert users[n].id != users[j].id;
    }
  }


  /** Every user in a bucket comes from a considered member with that presence. */
  lemma {:induction false} SelectedFrom(members: seq<Member>, excluded: seq<string>, status: string, j: int)
    requires 0 <= j < |Selected(members, excluded, status)|
    ensures exists i :: && 0 <= i < |members| && Considered(members[i], excluded) && PresenceOf(members[i]) == status
                        && Selected(members, excluded, status)[j] == RefOf(members[i])
  {
    var n := |members| - 1;
    var init := members[..n];
    var s0 := Selected(init, excluded, status);
    if j < |s0| {
      SelectedFrom(init, excluded, status, j);
      var i :| 0 <= i < |init| && Considered(init[i], excluded) && PresenceOf(init[i]) == status && s0[j] == RefOf(init[i]);
      assert members[i] == init[i];
    } else {
      assert Selected(members, excluded, status)[j] == RefOf(members[n]);
    }
  }

  /** Every considered member with a presence is in that presence's bucket. */
  lemma {:induction false} SelectedHas(members: seq<Member>, excluded: seq<string>, i: int)
    requires 0 <= i < |members| && Considered(members[i], excluded)
    ensures RefOf(members[i]) in Selected(members, excluded, PresenceOf(members[i]))
  {
    var n := |members| - 1;
    if i < n {
      assert members[..n][i] == members[i];
      SelectedHas(members[..n], excluded, i);
    }
  }

  /** Distinct member IDs make distinct IDs within a bucket. */
  lemma {:induction false} SelectedDistinct(members: seq<Member>, excluded: seq<string>, status: string)
    requires DistinctIds(members)
    ensures DistinctRefIds(Selected(members, excluded, status))
  {
    if members != [] {
      var n := |members| - 1;
      var init := members[..n];
      assert DistinctIds(init);
      SelectedDistinct(init, excluded, status);
      var s0 := Selected(init, excluded, status);
      var s := Selected(members, excluded, status);
      forall a | 0 <= a < |s0| ensures s0[a].id != members[n].user.id {
        SelectedFrom(init, excluded, status, a);
        var i :| 0 <= i < |init| && Considered(init[i], excluded) && PresenceOf(init[i]) == status && s0[a] == RefOf(init[i]);
        assert init[i] == members[i];
      }
    }
  }

  /** A key is in a bucket's users exactly when some user there has it. */
  ghost predicate InBucket(users: seq<UserRef>, k: string)
  {
    exists j :: 0 <= j < |users| && users[j].id == k
  }

  /** A bucket's IDs are those of the considered members with that presence. */
  lemma SelectedIds(members: seq<Member>, excluded: seq<string>, status: string, k: string)
    ensures InBucket(Selected(members, excluded, status), k) <==>
      exists i :: 0 <= i < |members| && Considered(members[i], excluded) && PresenceOf(members[i]) == status && members[i].user.id == k
  {
    var s := Selected(members, excluded, status);
    if InBucket(s, k) {
      var j :| 0 <= j < |s| && s[j].id == k;
      SelectedFrom(members, excluded, status, j);
    }
    if exists i :: 0 <= i < |members| && Considered(members[i], excluded) && PresenceOf(members[i]) == status && members[i].user.id == k {
      var i :| 0 <= i < |members| && Considered(members[i], excluded) && PresenceOf(members[i]) == status && members[i].user.id == k;
      SelectedHas(members, excluded, i);
      var j :| 0 <= j < |s| && s[j] == RefOf(members[i]);
    }
  }

  /**
   * The status map of a snapshot: one key per considered member and no other.
   */
  lemma StatusMapKeys(members: seq<Member>, excluded: seq<string>)
    requires forall i :: 0 <= i < |members| ==> !Throws(members[i], excluded)
    ensures DistinctKeys(StatusMapOf(BucketsOf(members, excluded)))
    ensures forall k :: k in Keys(StatusMapOf(BucketsOf(members, excluded))) <==>
      exists i :: 0 <= i < |members| && Considered(members[i], excluded) && members[i].user.id == k
  {
    var b := BucketsOf(members, excluded);
    StatusMapLayers(b);
    var d1 := PutAll([], b.idle, "idle");
    var d2 := PutAll(d1, b.dnd, "dnd");
    var d3 := PutAll(d2, b.offline, "offline");
    PutAllDistinct([], b.idle, "idle");
    PutAllDistinct(d1, b.dnd, "dnd");
    PutAllDistinct(d2, b.offline, "offline");
    PutAllDistinct(d3, b.online, "online");
    forall k ensures k in Keys(StatusMapOf(b)) <==> exists i :: 0 <= i < |members| && Considered(members[i], excluded) && members[i].user.id == k {
      PutAllHas([], b.idle, "idle", k);
      PutAllHas(d1, b.dnd, "dnd", k);
      PutAllHas(d2, b.offline, "offline", k);
      PutAllHas(d3, b.online, "online", k);
      SelectedIds(members, excluded, "idle", k);
      SelectedIds(members, excluded, "dnd", k);
      SelectedIds(members, excluded, "offline", k);
      SelectedIds(members, excluded, "online", k);
      if exists i :: 0 <= i < |members| && Considered(members[i], excluded) && members[i].user.id == k {
        var i :| 0 <= i < |members| && Considered(members[i], excluded) && members[i].user.id == k;
        assert !Throws(members[i], excluded);
      }
    }
  }

  /**
   * The status map of a snapshot records each considered member under its ID, with
   * its display name and its presence (offline when it has none); a bot or an
   * excluded member never appears.
   */
  lemma StatusMapEntries(members: seq<Member>, excluded: seq<string>)
    requires DistinctIds(members)
    requires forall i :: 0 <= i < |members| ==> !Throws(members[i], excluded)
    ensures forall i :: 0 <= i < |members| && Considered(members[i], excluded) ==>
      Get(StatusMapOf(BucketsOf(members, excluded)), members[i].user.id) == Some(StatusEntry(DisplayName(members[i].user), PresenceOf(members[i])))
    ensures forall i :: 0 <= i < |members| && !Considered(members[i], excluded) ==>
      members[i].user.id !in Keys(StatusMapOf(BucketsOf(members, excluded)))
  {
    StatusMapKeys(members, excluded);
    forall i | 0 <= i < |members| && !Considered(members[i], excluded)
      ensures members[i].user.id !in Keys(StatusMapOf(BucketsOf(members, excluded)))
    {
      assert forall i' :: 0 <= i' < |members| && members[i'].user.id == members[i].user.id ==> i' == i;
    }
    forall i | 0 <= i < |members| && Considered(members[i], excluded)
      ensures Get(StatusMapOf(BucketsOf(members, excluded)), members[i].user.id) == Some(StatusEntry(DisplayName(members[i].user), PresenceOf(members[i])))
    {
      EntryOfMember(members, excluded, i);
    }
  }

  /**
   * What a snapshot writes to the table: every considered member gets the write of
   * its presence's counter, under its ID and display name, and every write is the
   * write of some considered member.
   */
  lemma SnapshotWrites(members: seq<Member>, excluded: seq<string>, index: map<string, Record>, now: string)
    requires DistinctIds(members)
    requires forall i :: 0 <= i < |members| ==> !Throws(members[i], excluded)
    ensures forall i :: 0 <= i < |members| && Considered(members[i], excluded) ==>
      var w := UpdateFor(members[i].user.id, StatusEntry(DisplayName(members[i].user), PresenceOf(members[i])), index, now);
      w.Some? && w.value in UpdatesOf(StatusMapOf(BucketsOf(members, excluded)), index, now)
    ensures forall u :: u in UpdatesOf(StatusMapOf(BucketsOf(members, excluded)), index, now) ==>
      exists i :: && 0 <= i < |members| && Considered(members[i], excluded)
                  && UpdateFor(members[i].user.id, StatusEntry(DisplayName(members[i].user), PresenceOf(members[i])), index, now) == Some(u)
  {
    forall i | 0 <= i < |members| && Considered(members[i], excluded)
      ensures var w := UpdateFor(members[i].user.id, StatusEntry(DisplayName(members[i].user), PresenceOf(members[i])), index, now);
        w.Some? && w.value in UpdatesOf(StatusMapOf(BucketsOf(members, excluded)), index, now)
    {
      MemberWrite(members, excluded, index, now, i);
    }
    forall u | u in UpdatesOf(StatusMapOf(BucketsOf(members, excluded)), index, now)
      ensures exists i :: && 0 <= i < |members| && Considered(members[i], excluded)
                          && UpdateFor(members[i].user.id, StatusEntry(DisplayName(members[i].user), PresenceOf(members[i])), index, now) == Some(u)
    {
      WriteOfMember(members, excluded, index, now, u);
    }
  }

  /** The write of one considered member is among the snapshot's writes. */
  lemma MemberWrite(members: seq<Member>, excluded: seq<string>, index: map<string, Record>, now: string, i: int)
    requires DistinctIds(members)
    requires forall i :: 0 <= i < |members| ==> !Throws(members[i], excluded)
    requires 0 <= i < |members| && Considered(members[i], excluded)
    ensures var w := UpdateFor(members[i].user.id, StatusEntry(DisplayName(members[i].user), PresenceOf(members[i])), index, now);
      w.Some? && w.value in UpdatesOf(StatusMapOf(BucketsOf(members, excluded)), index, now)
  {
    var statusMap := StatusMapOf(BucketsOf(members, excluded));
    var e := Entry(members[i].user.id, StatusEntry(DisplayName(members[i].user), PresenceOf(members[i])));
    assert !Throws(members[i], excluded);
    EntryOfMember(members, excluded, i);
    GetEntry(statusMap, e.key);
    assert e in statusMap;
    var mapped := MappedEntries(statusMap);
    assert e in mapped;
    var j :| 0 <= j < |mapped| && mapped[j] == e;
    UpdatesFollowEntries(statusMap, index, now);
    assert UpdatesOf(statusMap, index, now)[j] in UpdatesOf(statusMap, index, now);
  }

  /** Each of the snapshot's writes is the write of a considered member. */
  lemma WriteOfMember(members: seq<Member>, excluded: seq<string>, index: map<string, Record>, now: string, u: Update)
    requires DistinctIds(members)
    requires forall i :: 0 <= i < |members| ==> !Throws(members[i], excluded)
    requires u in UpdatesOf(StatusMapOf(BucketsOf(members, excluded)), index, now)
    ensures exists i :: && 0 <= i < |members| && Considered(members[i], excluded)
                        && UpdateFor(members[i].user.id, StatusEntry(DisplayName(members[i].user), PresenceOf(members[i])), index, now) == Some(u)
  {
    var statusMap := StatusMapOf(BucketsOf(members, excluded));
    var updates := UpdatesOf(statusMap, index, now);
    var mapped := MappedEntries(statusMap);
    UpdatesFollowEntries(statusMap, index, now);
    var j :| 0 <= j < |updates| && updates[j] == u;
    var e := mapped[j];
    assert e in mapped;
    StatusMapKeys(members, excluded);
    GetDistinct(statusMap, e);
    var i :| 0 <= i < |members| && Considered(members[i], excluded) && members[i].user.id == e.key;
    assert !Throws(members[i], excluded);
    EntryOfMember(members, excluded, i);
  }

  /** `StatusMapEntries` for one member. */
  lemma EntryOfMember(members: seq<Member>, excluded: seq<string>, i: int)
    requires DistinctIds(members)
    requires 0 <= i < |members| && Considered(members[i], excluded) && IsBucket(PresenceOf(members[i]))
    ensures Get(StatusMapOf(BucketsOf(members, excluded)), members[i].user.id) == Some(StatusEntry(DisplayName(members[i].user), PresenceOf(members[i])))
  {
    var b := BucketsOf(members, excluded);
    var k := members[i].user.id;
    var p := PresenceOf(members[i]);
    // The member's ID is in no bucket but its own.
    forall q | IsBucket(q) && q != p ensures !InBucket(Bucket(b, q), k) {
      BucketOfStatus(members, excluded, q);
      SelectedIds(members, excluded, q, k);
    }
    SelectedHas(members, excluded, i);
    SelectedDistinct(members, excluded, p);
    BucketOfStatus(members, excluded, p);
    var own := Selected(members, excluded, p);
    var j :| 0 <= j < |own| && own[j] == RefOf(members[i]);
    EntryInLayers(b, p, j);
  }

  /** A user of one bucket whose ID is in no other bucket keeps that bucket's entry. */
  lemma EntryInLayers(b: Buckets, p: string, j: int)
    requires IsBucket(p) && DistinctRefIds(Bucket(b, p)) && 0 <= j < |Bucket(b, p)|
    requires forall q :: IsBucket(q) && q != p ==> !InBucket(Bucket(b, q), Bucket(b, p)[j].id)
    ensures Get(StatusMapOf(b), Bucket(b, p)[j].id) == Some(StatusEntry(Bucket(b, p)[j].name, p))
  {
    var k := Bucket(b, p)[j].id;
    StatusMapLayers(b);
    var d1 := PutAll([], b.idle, "idle");
    var d2 := PutAll(d1, b.dnd, "dnd");
    var d3 := PutAll(d2, b.offline, "offline");
    BucketFields(b);
    if p == "idle" {
      assert !InBucket(Bucket(b, "dnd"), k) && !InBucket(Bucket(b, "offline"), k) && !InBucket(Bucket(b, "online"), k);
      PutAllGet([], b.idle, "idle", j);
      PutAllOther(d1, b.dnd, "dnd", k);
      PutAllOther(d2, b.offline, "offline", k);
      PutAllOther(d3, b.online, "online", k);
    } else if p == "dnd" {
      assert !InBucket(Bucket(b, "offline"), k) && !InBucket(Bucket(b, "online"), k);
      PutAllGet(d1, b.dnd, "dnd", j);
      PutAllOther(d2, b.offline, "offline", k);
      PutAllOther(d3, b.online, "online", k);
    } else if p == "offline" {
      assert !InBucket(Bucket(b, "online"), k);
      PutAllGet(d2, b.offline, "offline", j);
      PutAllOther(d3, b.online, "online", k);
    } else {
      PutAllGet(d3, b.online, "online", j);
    }
  }

  /**
   * The part of `sendStatusMessage` before the sync: the status map of the snapshot,
   * or nothing when a member's presence has no bucket.
   */
  method CollectStatuses(members: seq<Member>, excluded: seq<string>) returns (r: Option<StatusMap>)
    ensures r.Some? <==> forall i :: 0 <= i < |members| ==> !Throws(members[i], excluded)
    ensures r.Some? ==> r.value == StatusMapOf(BucketsOf(members, excluded))
  {
    var buckets := BucketMembers(members, excluded);
    if buckets.Err? {
      return None;
    }
    var statusMap := BuildStatusMap(buckets.value);
    return Some(statusMap);
  }

  /**
   * `sendStatusMessage`, once the guild and channel are found and the members are
   * fetched: snapshot the presences and sync them; a throw skips the sync.
   */
  method SendStatusMessage(members: seq<Member>, excluded: seq<string>, responses: seq<Response>, now: string, succeeds: nat -> bool)
    returns (sent: seq<Request>, failed: seq<nat>)
    requires Conversation(responses)
    ensures (exists i :: 0 <= i < |members| && Throws(members[i], excluded)) ==> sent == [] && failed == []
    ensures (forall i :: 0 <= i < |members| ==> !Throws(members[i], excluded)) ==>
      var updates := UpdatesOf(StatusMapOf(BucketsOf(members, excluded)), IndexOf(Fetched(responses)), now);
      && Bodies(sent) == Chunks(updates)
      && Concat(Bodies(sent)) == updates
      && |sent| == (|updates| + BatchSize - 1) / BatchSize
    ensures forall i :: 0 <= i < |sent| ==> 1 <= |sent[i].records| <= BatchSize && sent[i].verb == MethodFor(sent[i].records)
    ensures forall i :: 0 <= i < |sent| - 1 ==> |sent[i].records| == BatchSize
    ensures forall i: nat :: i in failed <==> i < |sent| && !succeeds(i)
  {
    var statusMap := CollectStatuses(members, excluded);
    if statusMap.None? {
      return [], [];
    }
    sent, failed := SyncToAirtable(statusMap.value, responses, now, succeeds);
  }

  // ---------------------------------------------------------------- the cron slot table

  /** `minute hour * * days`, as handed to `scheduleWithIST`. */
  datatype Slot = Slot(minute: int, hour: int, days: string)

  /**
   * `getRandomInt(min, max)` = `Math.floor(r * (max - min + 1)) + min` for the value
   * `r` of `Math.random()`: a whole number from `min` to `max`.
   */
  function RandomInt(min: int, max: int, r: real): (m: int)
    requires min <= max && 0.0 <= r < 1.0
    ensures min <= m <= max
  {
    var width := (max - min + 1) as real;
    assert 0.0 <= r * width < width by {
      assert r * width <= 1.0 * width || r * width < width;
    }
    (r * width).Floor + min
  }

  /** The minute range the weekday loop draws from for each hour. */
  function WeekdayMinutes(hour: int): (int, int)
  {
    if hour == 13 then (1, 29) else if hour == 14 then (31, 59) else (1, 59)
  }

  /** The minute range the Saturday loop draws from for each hour. */
  function SaturdayMinutes(hour: int): (int, int)
  {
    if hour == 13 then (1, 29) else (1, 59)
  }

  /**
   * The two `for (hour ...)` loops of the `ready` handler. `draws` are the values
   * `Math.random` returns, one per `getRandomInt` call, in call order. The table has
   * one weekday slot ("1-5") for each hour from 10 to 17, then one Saturday slot
   * ("6") for each hour from 10 to 13; every minute lies in 1..59, at 13 o'clock in
   * 1..29 and at 14 o'clock in 31..59.
   */
  method ScheduleSlots(draws: seq<real>) returns (slots: seq<Slot>)
    requires |draws| >= 12
    requires forall i :: 0 <= i < |draws| ==> 0.0 <= draws[i] < 1.0
    ensures |slots| == 12
    ensures forall i :: 0 <= i < 8 ==>
      && slots[i].hour == 10 + i && slots[i].days == "1-5"
      && slots[i].minute == RandomInt(WeekdayMinutes(10 + i).0, WeekdayMinutes(10 + i).1, draws[i])
    ensures forall i :: 8 <= i < 12 ==>
      && slots[i].hour == 2 + i && slots[i].days == "6"
      && slots[i].minute == RandomInt(SaturdayMinutes(2 + i).0, SaturdayMinutes(2 + i).1, draws[i])
    ensures forall i :: 0 <= i < 12 ==> 1 <= slots[i].minute <= 59
    ensures forall i :: 0 <= i < 12 && slots[i].hour == 13 ==> slots[i].minute <= 29
    ensures forall i :: 0 <= i < 12 && slots[i].hour == 14 ==> slots[i].minute >= 31
    ensures forall i :: 0 <= i < 12 ==>
      slots[i].minute != 0 && !(13 * 60 + 30 <= slots[i].hour * 60 + slots[i].minute <= 14 * 60 + 30)
  {
    slots := [];
    var call := 0;
    for hour := 10 to 18
      invariant call == |slots| == hour - 10
      invariant forall i :: 0 <= i < |slots| ==>
        && slots[i].hour == 10 + i && slots[i].days == "1-5"
        && slots[i].minute == RandomInt(WeekdayMinutes(10 + i).0, WeekdayMinutes(10 + i).1, draws[i])
    {
      var m;
      if hour == 13 {
        m := RandomInt(1, 29, draws[call]);
      } else if hour == 14 {
        m := RandomInt(31, 59, draws[call]);
      } else {
        m := RandomInt(1, 59, draws[call]);
      }
      slots := slots + [Slot(m, hour, "1-5")];
      call := call + 1;
    }
    for hour := 10 to 14
      invariant call == |slots| == hour - 2
      invariant forall i :: 0 <= i < 8 ==>
        && slots[i].hour == 10 + i && slots[i].days == "1-5"
        && slots[i].minute == RandomInt(WeekdayMinutes(10 + i).0, WeekdayMinutes(10 + i).1, draws[i])
      invariant forall i :: 8 <= i < |slots| ==>
        && slots[i].hour == 2 + i && slots[i].days == "6"
        && slots[i].minute == RandomInt(SaturdayMinutes(2 + i).0, SaturdayMinutes(2 + i).1, draws[i])
    {
      var m := if hour == 13 then RandomInt(1, 29, draws[call]) else RandomInt(1, 59, draws[call]);
      slots := slots + [Slot(m, hour, "6")];
      call := call + 1;
    }
    forall i | 0 <= i < 12
      ensures slots[i].minute != 0 && !(13 * 60 + 30 <= slots[i].hour * 60 + slots[i].minute <= 14 * 60 + 30)
    {
      SlotAvoidsLunch(slots[i]);
    }
  }

  /**
   * A slot in the table's minute ranges falls outside the lunch hour, from 13:30 to
   * 14:30, and never on the full hour.
   */
  lemma SlotAvoidsLunch(s: Slot)
    requires 1 <= s.minute <= 59
    requires s.hour == 13 ==> s.minute <= 29
    requires s.hour == 14 ==> s.minute >= 31
    ensures !(13 * 60 + 30 <= s.hour * 60 + s.minute <= 14 * 60 + 30)
    ensures s.minute != 0
  {
  }

  // ---------------------------------------------------------------- "brb" announcements

  /** A message as `messageCreate` delivers it. */
  datatype Message = Message(author: User, content: string)

  /** `brbTriggers`. */
  const BrbTriggers: seq<string> := ["brb", "back in a bit", "taking a break", "brb 30", "brb 10"]

  /** `triggers.some((trigger) => content.includes(trigger))`. */
  function SomeTriggerIn(content: string, triggers: seq<string>): (b: bool)
    ensures b <==> exists i :: 0 <= i < |triggers| && JsString.Contains(content, triggers[i])
  {
    if triggers == [] then false
    else
      assert forall i :: 1 <= i < |triggers| ==> triggers[i] == triggers[1..][i - 1];
      JsString.Contains(content, triggers[0]) || SomeTriggerIn(content, triggers[1..])
  }

  /** The lower-cased message holds one of the triggers. */
  function IsBrbAnnouncement(content: string): (b: bool)
    ensures b <==> exists i :: 0 <= i < |BrbTriggers| && JsString.Contains(JsString.LowerCase(content), BrbTriggers[i])
  {
    SomeTriggerIn(JsString.LowerCase(content), BrbTriggers)
  }

  /**
   * The `messageCreate` handler up to the sync: a status map with the author alone,
   * under the "brb" status, exactly when the author is not a bot and the message is
   * an announcement.
   */
  function BrbStatusMap(message: Message): (r: Option<StatusMap>)
    ensures r.Some? <==> !message.author.bot && IsBrbAnnouncement(message.content)
    ensures r.Some? ==>
      && Keys(r.value) == [message.author.id]
      && Get(r.value, message.author.id) == Some(StatusEntry(DisplayName(message.author), "brb"))
  {
    if message.author.bot || !IsBrbAnnouncement(message.content) then None
    else Some([Entry(message.author.id, StatusEntry(DisplayName(message.author), "brb"))])
  }

  /** "brb 30" and "brb 10" add nothing: "brb" alone already matches wherever they do. */
  lemma BrbTriggersReduce(content: string)
    ensures var text := JsString.LowerCase(content);
      IsBrbAnnouncement(content) <==>
        JsString.Contains(text, "brb") || JsString.Contains(text, "back in a bit") || JsString.Contains(text, "taking a break")
  {
    var text := JsString.LowerCase(content);
    assert JsString.OccursAt("brb 30", "brb", 0) && JsString.OccursAt("brb 10", "brb", 0);
    if JsString.Contains(text, "brb 30") {
      JsString.ContainsTransitive(text, "brb 30", "brb");
    }
    if JsString.Contains(text, "brb 10") {
      JsString.ContainsTransitive(text, "brb 10", "brb");
    }
    assert BrbTriggers[0] == "brb" && BrbTriggers[1] == "back in a bit" && BrbTriggers[2] == "taking a break";
  }

  /** The check ignores case: a lower-cased message is an announcement exactly when the message is. */
  lemma BrbIgnoresCase(content: string)
    ensures IsBrbAnnouncement(JsString.LowerCase(content)) == IsBrbAnnouncement(content)
  {
    JsString.LowerCaseIdempotent(content);
  }

  /**
   * An announcement makes exactly one write, to the "BRBs" counter, in one batch:
   * a PATCH when the author already has a row with an id, a POST otherwise.
   */
  lemma BrbMakesOneWrite(message: Message, index: map<string, Record>, now: string)
    requires BrbStatusMap(message).Some?
    ensures var updates := UpdatesOf(BrbStatusMap(message).value, index, now);
      && |updates| == 1
      && "BRBs" in updates[0].fields
      && Chunks(updates) == [updates]
      && (MethodFor(updates) == Patch <==> message.author.id in index && index[message.author.id].id != "")
  {
    var statusMap := BrbStatusMap(message).value;
    assert statusMap[..0] == [];
  }

  /** The `messageCreate` handler: detect an announcement and sync its one-entry map. */
  method MessageCreate(message: Message, responses: seq<Response>, now: string, succeeds: nat -> bool)
    returns (sent: seq<Request>, failed: seq<nat>)
    requires Conversation(responses)
    ensures BrbStatusMap(message).None? ==> sent == [] && failed == []
    ensures BrbStatusMap(message).Some? ==>
      Concat(Bodies(sent)) == UpdatesOf(BrbStatusMap(message).value, IndexOf(Fetched(responses)), now) && |sent| == 1
    ensures forall i :: 0 <= i < |sent| ==> sent[i].verb == MethodFor(sent[i].records)
    ensures BrbStatusMap(message).Some? ==> var index := IndexOf(Fetched(responses));
      (sent[0].verb == Patch <==> message.author.id in index && index[message.author.id].id != "")
    ensures forall i: nat :: i in failed <==> i < |sent| && !succeeds(i)
  {
    if message.author.bot {
      return [], [];
    }
    var content := JsString.LowerCase(message.content);
    var matched := SomeTriggerIn(content, BrbTriggers);
    if !matched {
      return [], [];
    }
    var userName := DisplayName(message.author);
    var statusMap := [Entry(message.author.id, StatusEntry(userName, "brb"))];
    BrbMakesOneWrite(message, IndexOf(Fetched(responses)), now);
    sent, failed := SyncToAirtable(statusMap, responses, now, succeeds);
  }
}
